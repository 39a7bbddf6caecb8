/**
 * `HtmlProcessor.convertBulletsToLists`: the container's element children,
 * in order, are rewritten into one markup string.
 *
 * - An existing `ul` is copied as it is (its `outerHTML`).
 * - A child whose trimmed text starts with bullet characters becomes a list
 *   item; consecutive such children share one `<ul>`.
 * - Any other child becomes `<p>` around its trimmed inner markup, and
 *   closes the list being built.
 *
 * The list's `<ul>` is written when its first item is met, but its items
 * only when it closes: an existing `ul` met while a list is open lands
 * inside the new list, before all of its items.
 */
module Bullets {
  import opened JsText
  import opened Dom

  /** The class `[●•◦⁃∙· \*\-‣·]`. */
  predicate IsBulletChar(c: char) {
    c == '\U{25CF}' || c == '\U{2022}' || c == '\U{25E6}' || c == '\U{2043}' || c == '\U{2219}' ||
    c == '\U{00B7}' || c == '\U{00A0}' || c == '*' || c == '-' || c == '\U{2023}'
  }

  /** Length of the match of `^[...]+` (0 when there is none). */
  function BulletRun(s: string): (n: nat)
    ensures n <= |s|
    ensures forall k :: 0 <= k < n ==> IsBulletChar(s[k])
    ensures n < |s| ==> !IsBulletChar(s[n])
  {
    if s != [] && IsBulletChar(s[0]) then 1 + BulletRun(s[1..]) else 0
  }

  /** `s.replace(bulletPatterns, '')`: the leading bullet characters go. */
  function StripBullet(s: string): (r: string)
    ensures |r| <= |s|
    ensures r == [] || !IsBulletChar(r[0])
    ensures s == s[..|s| - |r|] + r
    ensures forall k :: 0 <= k < |s| - |r| ==> IsBulletChar(s[k])
  {
    s[BulletRun(s)..]
  }

  // ---------------------------------------------------------------------
  // How each child is read
  // ---------------------------------------------------------------------

  /** The three ways the loop treats a child. */
  datatype Kind = ListKind | BulletKind | OtherKind

  /** A child element with the kind the loop gives it. */
  datatype Child = Child(tag: string, attrs: seq<Attr>, children: seq<Node>, kind: Kind)

  function ElementOf(c: Child): Node {
    Element(c.tag, c.attrs, c.children)
  }

  /** `el.innerHTML.trim()`. */
  function Html(c: Child): string {
    Trim(Serialize(c.children))
  }

  /** `el.textContent.trim()`. */
  function TrimmedText(children: seq<Node>): string {
    Trim(TextContent(children))
  }

  /** An existing `ul` is copied; a child whose trimmed text starts with a
      bullet character is a list item; anything else is a paragraph. */
  function KindOf(tag: string, children: seq<Node>): (k: Kind)
    ensures k == ListKind <==> tag == "ul"
    ensures k == BulletKind <==> tag != "ul" && TrimmedText(children) != [] && IsBulletChar(TrimmedText(children)[0])
  {
    if tag == "ul" then ListKind
    else if BulletRun(TrimmedText(children)) > 0 then BulletKind
    else OtherKind
  }

  /** `container.children`, each with its kind: the element children in
      order; text directly in the container is not among them. */
  function Classify(nodes: seq<Node>): (r: seq<Child>)
    ensures |r| <= |nodes|
  {
    if nodes == [] then []
    else
      (match nodes[0]
       case Element(_, _, _) => [ChildOf(nodes[0])]
       case _ => [])
      + Classify(nodes[1..])
  }

  function ChildOf(n: Node): (c: Child)
    requires n.Element?
    ensures ElementOf(c) == n
  {
    Child(n.tag, n.attrs, n.children, KindOf(n.tag, n.children))
  }

  // The children read up to and including `nodes[i]`.
  lemma ClassifySnoc(nodes: seq<Node>, i: nat)
    requires i < |nodes|
    ensures Classify(nodes[..i + 1]) == Classify(nodes[..i]) + (if nodes[i].Element? then [ChildOf(nodes[i])] else [])
  {
    assert nodes[..i + 1] == nodes[..i] + [nodes[i]];
    ClassifyAppend(nodes[..i], [nodes[i]]);
    assert [nodes[i]][1..] == [];
  }

  // The children read before, at and after `nodes[i]`.
  lemma ClassifyAt(nodes: seq<Node>, i: nat)
    requires i < |nodes|
    ensures Classify(nodes) == Classify(nodes[..i]) + (if nodes[i].Element? then [ChildOf(nodes[i])] else []) + Classify(nodes[i + 1..])
  {
    assert nodes == nodes[..i + 1] + nodes[i + 1..];
    ClassifyAppend(nodes[..i + 1], nodes[i + 1..]);
    ClassifySnoc(nodes, i);
  }

  // The loop state after `nodes[i]`.
  lemma FoldNext(nodes: seq<Node>, i: nat)
    requires i < |nodes|
    ensures Fold(ListState([], []), Classify(nodes[..i + 1])) ==
      var st := Fold(ListState([], []), Classify(nodes[..i]));
      if nodes[i].Element? then Step(st, ChildOf(nodes[i])) else st
  {
    ClassifySnoc(nodes, i);
    if nodes[i].Element? {
      FoldSnoc(ListState([], []), Classify(nodes[..i]), ChildOf(nodes[i]));
    } else {
      assert Classify(nodes[..i]) + [] == Classify(nodes[..i]);
    }
  }

  lemma {:induction false} ClassifyAppend(a: seq<Node>, b: seq<Node>)
    ensures Classify(a + b) == Classify(a) + Classify(b)
  {
    if a == [] {
      assert a + b == b;
    } else {
      assert (a + b)[0] == a[0];
      assert (a + b)[1..] == a[1..] + b;
      ClassifyAppend(a[1..], b);
    }
  }

  /** Classifying keeps exactly the elements, in order, each unchanged:
      every element child is read once, at its place, and nothing else is. */
  lemma {:induction false} ClassifyElements(nodes: seq<Node>)
    ensures forall k :: 0 <= k < |Classify(nodes)| ==> ElementOf(Classify(nodes)[k]) in nodes
    ensures (forall k :: 0 <= k < |nodes| ==> !nodes[k].Element?) <==> Classify(nodes) == []
    ensures forall i :: 0 <= i < |nodes| ==>
      Classify(nodes) == Classify(nodes[..i]) + (if nodes[i].Element? then [ChildOf(nodes[i])] else []) + Classify(nodes[i + 1..])
  {
    forall i | 0 <= i < |nodes|
      ensures Classify(nodes) == Classify(nodes[..i]) + (if nodes[i].Element? then [ChildOf(nodes[i])] else []) + Classify(nodes[i + 1..])
    {
      ClassifyAt(nodes, i);
    }
    if nodes != [] {
      ClassifyElements(nodes[1..]);
      var r := Classify(nodes);
      var t := Classify(nodes[1..]);
      forall k | 0 <= k < |r| ensures ElementOf(r[k]) in nodes {
        if nodes[0].Element? {
          if k > 0 {
            assert r[k] == t[k - 1];
            assert ElementOf(t[k - 1]) in nodes[1..];
          }
        } else {
          assert r[k] == t[k];
          assert ElementOf(t[k]) in nodes[1..];
        }
      }
      if forall k :: 0 <= k < |nodes| ==> !nodes[k].Element? {
        assert forall k :: 0 <= k < |nodes[1..]| ==> nodes[1..][k] == nodes[k + 1];
      }
      if !nodes[0].Element? && r == [] {
        forall k | 0 <= k < |nodes| ensures !nodes[k].Element? {
          if k > 0 { assert nodes[k] == nodes[1..][k - 1]; }
        }
      }
    }
  }

  // ---------------------------------------------------------------------
  // The output, block by block
  // ---------------------------------------------------------------------

  /** A piece of the output: an existing list copied, a paragraph, or a new
      list holding, in order, the children of one run (bulleted children
      and the existing lists met while it was open). */
  datatype Block =
    | Verbatim(list: Child)
    | Paragraph(el: Child)
    | BulletList(members: seq<Child>)

  /** Where each block's children came from, in output order. */
  function Flatten(blocks: seq<Block>): seq<Child> {
    if blocks == [] then []
    else
      (match blocks[0]
       case Verbatim(n) => [n]
       case Paragraph(n) => [n]
       case BulletList(ms) => ms)
      + Flatten(blocks[1..])
  }

  lemma {:induction false} FlattenAppend(a: seq<Block>, b: seq<Block>)
    ensures Flatten(a + b) == Flatten(a) + Flatten(b)
  {
    if a == [] {
      assert a + b == b;
    } else {
      assert (a + b)[0] == a[0];
      assert (a + b)[1..] == a[1..] + b;
      FlattenAppend(a[1..], b);
    }
  }

  predicate IsRunMember(c: Child) {
    c.kind != OtherKind
  }

  /** One block on its own is well formed. */
  predicate BlockOk(b: Block) {
    match b
    case Verbatim(n) => n.kind == ListKind
    case Paragraph(n) => n.kind == OtherKind
    case BulletList(ms) =>
      ms != [] && ms[0].kind == BulletKind && forall j :: 0 <= j < |ms| ==> IsRunMember(ms[j])
  }

  /** The grouping promised: every block well formed, and every new list
      followed by a paragraph or by nothing, so that runs are maximal. */
  predicate WellGrouped(blocks: seq<Block>) {
    (forall k :: 0 <= k < |blocks| ==> BlockOk(blocks[k])) &&
    (forall k :: 0 <= k < |blocks| - 1 && blocks[k].BulletList? ==> blocks[k + 1].Paragraph?)
  }

  // ---------------------------------------------------------------------
  // The loop, as a function of the children read so far
  // ---------------------------------------------------------------------

  /** The loop state: the finished blocks and the run of the open list
      (empty when no list is open: a run starts with a bulleted child). */
  datatype ListState = ListState(done: seq<Block>, run: seq<Child>)

  /** The finished blocks once the open list, if any, is closed. */
  function Close(st: ListState): seq<Block> {
    if st.run == [] then st.done else st.done + [BulletList(st.run)]
  }

  function Step(st: ListState, c: Child): ListState {
    match c.kind
    case ListKind =>
      if st.run != [] then ListState(st.done, st.run + [c]) else ListState(st.done + [Verbatim(c)], [])
    case BulletKind => ListState(st.done, st.run + [c])
    case OtherKind => ListState(Close(st) + [Paragraph(c)], [])
  }

  function Fold(st: ListState, cs: seq<Child>): ListState
    decreases |cs|
  {
    if cs == [] then st else Fold(Step(st, cs[0]), cs[1..])
  }

  lemma {:induction false} FoldSnoc(st: ListState, cs: seq<Child>, c: Child)
    ensures Fold(st, cs + [c]) == Step(Fold(st, cs), c)
    decreases |cs|
  {
    if cs == [] {
      assert cs + [c] == [c];
    } else {
      assert (cs + [c])[0] == cs[0];
      assert (cs + [c])[1..] == cs[1..] + [c];
      FoldSnoc(Step(st, cs[0]), cs[1..], c);
    }
  }

  /** The blocks `convertBulletsToLists` writes for these children. */
  function GroupBullets(cs: seq<Child>): seq<Block> {
    Close(Fold(ListState([], []), cs))
  }

  // ---------------------------------------------------------------------
  // The grouping is the promised one
  // ---------------------------------------------------------------------

  /** What holds of every loop state. */
  predicate StateOk(st: ListState) {
    WellGrouped(st.done) &&
    (st.done != [] ==> !st.done[|st.done| - 1].BulletList?) &&
    (st.run != [] ==> BlockOk(BulletList(st.run)))
  }

  function Seen(st: ListState): seq<Child> {
    Flatten(st.done) + st.run
  }

  lemma FlattenOne(b: Block)
    ensures Flatten([b]) == match b case Verbatim(n) => [n] case Paragraph(n) => [n] case BulletList(ms) => ms
  {
    assert [b][1..] == [];
  }

  lemma StepOk(st: ListState, c: Child)
    requires StateOk(st)
    ensures StateOk(Step(st, c))
    ensures Seen(Step(st, c)) == Seen(st) + [c]
  {
    if c.kind == OtherKind {
      ParagraphStep(st, c);
    } else if st.run != [] {
      ExtendRun(st, c);
    } else if c.kind == ListKind {
      VerbatimStep(st, c);
    } else {
      assert BlockOk(BulletList([c]));
    }
  }

  // A run member joins the open run.
  lemma ExtendRun(st: ListState, c: Child)
    requires StateOk(st) && st.run != [] && c.kind != OtherKind
    ensures Step(st, c) == ListState(st.done, st.run + [c])
    ensures StateOk(Step(st, c))
    ensures Seen(Step(st, c)) == Seen(st) + [c]
  {
    var r := st.run + [c];
    assert r[0] == st.run[0];
    assert forall j :: 0 <= j < |r| ==> r[j] == if j < |st.run| then st.run[j] else c;
  }

  // An existing list met while no list is open is copied.
  lemma VerbatimStep(st: ListState, c: Child)
    requires StateOk(st) && st.run == [] && c.kind == ListKind
    ensures StateOk(Step(st, c))
    ensures Seen(Step(st, c)) == Seen(st) + [c]
  {
    FlattenAppend(st.done, [Verbatim(c)]);
    FlattenOne(Verbatim(c));
    AppendOk(st.done, Verbatim(c));
  }

  // Any other child closes the open run and becomes a paragraph.
  lemma ParagraphStep(st: ListState, c: Child)
    requires StateOk(st) && c.kind == OtherKind
    ensures StateOk(Step(st, c))
    ensures Seen(Step(st, c)) == Seen(st) + [c]
  {
    var p := Paragraph(c);
    FlattenAppend(Close(st), [p]);
    FlattenOne(p);
    if st.run != [] {
      FlattenAppend(st.done, [BulletList(st.run)]);
      FlattenOne(BulletList(st.run));
      AppendOk(st.done, BulletList(st.run));
      AppendOk(st.done + [BulletList(st.run)], p);
    } else {
      AppendOk(st.done, p);
    }
  }

  // A well-formed block appended where the grouping allows it.
  lemma AppendOk(d: seq<Block>, b: Block)
    requires WellGrouped(d) && BlockOk(b)
    requires d != [] && d[|d| - 1].BulletList? ==> b.Paragraph?
    ensures WellGrouped(d + [b])
  {
    var e := d + [b];
    forall k | 0 <= k < |e| ensures BlockOk(e[k]) {
      if k < |d| { assert e[k] == d[k]; }
    }
    forall k | 0 <= k < |e| - 1 && e[k].BulletList? ensures e[k + 1].Paragraph? {
      assert e[k] == d[k];
      if k < |d| - 1 { assert e[k + 1] == d[k + 1]; }
    }
  }

  lemma {:induction false} FoldOk(st: ListState, cs: seq<Child>)
    requires StateOk(st)
    ensures StateOk(Fold(st, cs))
    ensures Seen(Fold(st, cs)) == Seen(st) + cs
    decreases |cs|
  {
    if cs != [] {
      StepOk(st, cs[0]);
      FoldOk(Step(st, cs[0]), cs[1..]);
      assert [cs[0]] + cs[1..] == cs;
    }
  }

  lemma CloseOk(st: ListState)
    requires StateOk(st)
    ensures WellGrouped(Close(st))
    ensures Flatten(Close(st)) == Seen(st)
  {
    if st.run != [] {
      FlattenAppend(st.done, [BulletList(st.run)]);
      FlattenOne(BulletList(st.run));
      AppendOk(st.done, BulletList(st.run));
    }
  }

  /** Every child is written exactly once and in order, each block is of the
      right kind, and the bulleted children of a run share one list that
      only a paragraph or the end of the input closes. */
  lemma GroupBulletsSpec(cs: seq<Child>)
    ensures WellGrouped(GroupBullets(cs))
    ensures Flatten(GroupBullets(cs)) == cs
  {
    FoldOk(ListState([], []), cs);
    CloseOk(Fold(ListState([], []), cs));
  }

  /** No other grouping has these properties: a well-grouped block sequence
      is determined by the children it holds. */
  lemma {:induction false} WellGroupedUnique(a: seq<Block>, b: seq<Block>)
    requires WellGrouped(a) && WellGrouped(b) && Flatten(a) == Flatten(b)
    ensures a == b
    decreases |a|
  {
    if a == [] || b == [] {
      if a != [] { FlattenNonEmpty(a); }
      if b != [] { FlattenNonEmpty(b); }
    } else {
      HeadsAgree(a, b);
      WellGroupedTail(a);
      WellGroupedTail(b);
      WellGroupedUnique(a[1..], b[1..]);
      assert a == [a[0]] + a[1..] && b == [b[0]] + b[1..];
    }
  }

  // The first blocks of two well-grouped sequences holding the same
  // children are the same.
  lemma HeadsAgree(a: seq<Block>, b: seq<Block>)
    requires WellGrouped(a) && WellGrouped(b) && Flatten(a) == Flatten(b)
    requires a != [] && b != []
    ensures a[0] == b[0] && Flatten(a[1..]) == Flatten(b[1..])
  {
    var x, y := a[0], b[0];
    SplitHead(a);
    SplitHead(b);
    FlattenOne(x);
    FlattenOne(y);
    if x.BulletList? && y.BulletList? {
      assert a[1..] != [] ==> a[1..][0] == a[1];
      assert b[1..] != [] ==> b[1..][0] == b[1];
      RunsAgree(x.members, a[1..], y.members, b[1..]);
    } else {
      SameKind(x, y, Flatten(a)[0]);
    }
    SameTails(Flatten([x]), Flatten(a[1..]), Flatten(b[1..]));
  }

  lemma SplitHead(a: seq<Block>)
    requires a != [] && BlockOk(a[0])
    ensures Flatten(a) == Flatten([a[0]]) + Flatten(a[1..])
    ensures Flatten([a[0]]) != [] && Flatten(a)[0] == Flatten([a[0]])[0]
  {
    assert [a[0]] + a[1..] == a;
    FlattenAppend([a[0]], a[1..]);
    FlattenOne(a[0]);
  }

  lemma SameTails(h: seq<Child>, s: seq<Child>, t: seq<Child>)
    requires h + s == h + t
    ensures s == t
  {
    assert s == (h + s)[|h|..];
    assert t == (h + t)[|h|..];
  }

  lemma WellGroupedTail(a: seq<Block>)
    requires WellGrouped(a) && a != []
    ensures WellGrouped(a[1..])
  {
    var t := a[1..];
    forall k | 0 <= k < |t| - 1 && t[k].BulletList? ensures t[k + 1].Paragraph? {
      assert t[k] == a[k + 1] && t[k + 1] == a[k + 2];
    }
  }

  lemma FlattenNonEmpty(a: seq<Block>)
    requires a != [] && BlockOk(a[0])
    ensures Flatten(a) != []
  {
    SplitHead(a);
  }

  // Two well-formed blocks that start with the same child, not both lists,
  // are the same block.
  lemma SameKind(x: Block, y: Block, first: Child)
    requires BlockOk(x) && BlockOk(y) && !(x.BulletList? && y.BulletList?)
    requires Flatten([x]) != [] && Flatten([y]) != []
    requires Flatten([x])[0] == first && Flatten([y])[0] == first
    ensures x == y
  {
    FlattenOne(x);
    FlattenOne(y);
  }

  /** The number of leading children that are run members. */
  function MemberRun(f: seq<Child>): nat {
    if f == [] || !IsRunMember(f[0]) then 0 else 1 + MemberRun(f[1..])
  }

  lemma {:induction false} MemberRunAppend(xs: seq<Child>, rest: seq<Child>)
    requires forall j :: 0 <= j < |xs| ==> IsRunMember(xs[j])
    ensures MemberRun(xs + rest) == |xs| + MemberRun(rest)
  {
    if xs != [] {
      assert (xs + rest)[0] == xs[0];
      assert (xs + rest)[1..] == xs[1..] + rest;
      MemberRunAppend(xs[1..], rest);
    } else {
      assert xs + rest == rest;
    }
  }

  // Two lists that start the same well-grouped sequences hold the same run:
  // each ends where the first child that is not a run member stands.
  lemma RunsAgree(xs: seq<Child>, ra: seq<Block>, ys: seq<Child>, rb: seq<Block>)
    requires forall j :: 0 <= j < |xs| ==> IsRunMember(xs[j])
    requires forall j :: 0 <= j < |ys| ==> IsRunMember(ys[j])
    requires ra != [] ==> ra[0].Paragraph? && BlockOk(ra[0])
    requires rb != [] ==> rb[0].Paragraph? && BlockOk(rb[0])
    requires xs + Flatten(ra) == ys + Flatten(rb)
    ensures xs == ys
  {
    MemberRunAppend(xs, Flatten(ra));
    MemberRunAppend(ys, Flatten(rb));
    NextNotMember(ra);
    NextNotMember(rb);
    assert xs == (xs + Flatten(ra))[..|xs|];
    assert ys == (ys + Flatten(rb))[..|ys|];
  }

  // What follows a run starts with a child that is not a run member.
  lemma NextNotMember(r: seq<Block>)
    requires r != [] ==> r[0].Paragraph? && BlockOk(r[0])
    ensures MemberRun(Flatten(r)) == 0
  {
    if r != [] {
      SplitHead(r);
      FlattenOne(r[0]);
    }
  }

  /** With the specification above, the grouping is unique: `GroupBullets`
      is the only well-grouped block sequence of the children. */
  lemma GroupBulletsUnique(cs: seq<Child>, blocks: seq<Block>)
    requires WellGrouped(blocks) && Flatten(blocks) == cs
    ensures blocks == GroupBullets(cs)
  {
    GroupBulletsSpec(cs);
    WellGroupedUnique(blocks, GroupBullets(cs));
  }

  // ---------------------------------------------------------------------
  // The markup
  // ---------------------------------------------------------------------

  /** `<li>` + the inner markup without its leading bullet characters +
      `</li>`. */
  function ItemMarkup(c: Child): string {
    "<li>" + StripBullet(Html(c)) + "</li>"
  }

  /** The item a child of a run contributes: none for an existing list. */
  function ItemOf(c: Child): seq<string> {
    if c.kind == ListKind then [] else [ItemMarkup(c)]
  }

  /** The markup a child of a run contributes at once: an existing list's. */
  function ListOf(c: Child): string {
    if c.kind == ListKind then OuterHtml(ElementOf(c)) else ""
  }

  /** The items of a run, in order: one per bulleted child. */
  function Items(run: seq<Child>): seq<string> {
    if run == [] then [] else ItemOf(run[0]) + Items(run[1..])
  }

  /** The existing lists of a run, in order, as markup. */
  function ListsMarkup(run: seq<Child>): string {
    if run == [] then "" else ListOf(run[0]) + ListsMarkup(run[1..])
  }

  lemma {:induction false} ItemsAppend(a: seq<Child>, b: seq<Child>)
    ensures Items(a + b) == Items(a) + Items(b)
  {
    if a == [] {
      assert a + b == b;
    } else {
      var ab := a + b;
      assert ab != [] && ab[0] == a[0] && ab[1..] == a[1..] + b;
      ItemsAppend(a[1..], b);
      var h := ItemOf(a[0]);
      assert h + (Items(a[1..]) + Items(b)) == (h + Items(a[1..])) + Items(b);
    }
  }

  lemma {:induction false} ListsMarkupAppend(a: seq<Child>, b: seq<Child>)
    ensures ListsMarkup(a + b) == ListsMarkup(a) + ListsMarkup(b)
  {
    if a == [] {
      assert a + b == b;
    } else {
      var ab := a + b;
      assert ab != [] && ab[0] == a[0] && ab[1..] == a[1..] + b;
      ListsMarkupAppend(a[1..], b);
      var h := ListOf(a[0]);
      assert h + (ListsMarkup(a[1..]) + ListsMarkup(b)) == (h + ListsMarkup(a[1..])) + ListsMarkup(b);
    }
  }

  lemma ItemsOne(c: Child)
    ensures Items([c]) == ItemOf(c)
    ensures ListsMarkup([c]) == ListOf(c)
  {
    assert [c][1..] == [];
  }

  function BlockMarkup(b: Block): string {
    match b
    case Verbatim(n) => OuterHtml(ElementOf(n))
    case Paragraph(n) => "<p>" + Html(n) + "</p>"
    case BulletList(ms) => "<ul>" + ListsMarkup(ms) + Concat(Items(ms)) + "</ul>"
  }

  function Markup(blocks: seq<Block>): string {
    if blocks == [] then "" else BlockMarkup(blocks[0]) + Markup(blocks[1..])
  }

  lemma {:induction false} MarkupAppend(a: seq<Block>, b: seq<Block>)
    ensures Markup(a + b) == Markup(a) + Markup(b)
  {
    if a == [] {
      assert a + b == b;
    } else {
      var ab := a + b;
      assert ab != [] && ab[0] == a[0] && ab[1..] == a[1..] + b;
      MarkupAppend(a[1..], b);
      var h := BlockMarkup(a[0]);
      assert h + (Markup(a[1..]) + Markup(b)) == (h + Markup(a[1..])) + Markup(b);
    }
  }

  lemma MarkupOne(b: Block)
    ensures Markup([b]) == BlockMarkup(b)
  {
    assert [b][1..] == [];
  }

  /** The markup written so far in a state: the finished blocks and, when
      a list is open, its `<ul>` and the existing lists it has taken in. */
  function Written(st: ListState): string {
    Markup(st.done) + (if st.run != [] then "<ul>" + ListsMarkup(st.run) else "")
  }

  // An existing list is written out at once, inside the open list if any.
  lemma WrittenList(st: ListState, c: Child)
    requires c.kind == ListKind
    ensures Written(Step(st, c)) == Written(st) + OuterHtml(ElementOf(c))
    ensures Items(Step(st, c).run) == Items(st.run)
  {
    if st.run == [] {
      assert Step(st, c) == ListState(st.done + [Verbatim(c)], []);
      MarkupAppend(st.done, [Verbatim(c)]);
      MarkupOne(Verbatim(c));
      assert Written(st) == Markup(st.done) + "";
    } else {
      assert Step(st, c) == ListState(st.done, st.run + [c]);
      RunAppend(st.run, c);
      WrittenJoin(st.done, st.run, c);
    }
  }

  // A bulleted child opens a list if none is open and waits as an item.
  lemma WrittenBullet(st: ListState, c: Child)
    requires c.kind == BulletKind
    ensures st.run == [] ==> Written(Step(st, c)) == Written(st) + "<ul>"
    ensures st.run != [] ==> Written(Step(st, c)) == Written(st)
    ensures Items(Step(st, c).run) == Items(st.run) + [ItemMarkup(c)]
  {
    assert Step(st, c) == ListState(st.done, st.run + [c]);
    RunAppend(st.run, c);
    if st.run == [] {
      WrittenOpen(st.done, c);
    } else {
      WrittenJoin(st.done, st.run, c);
    }
  }

  // A child joining an open run adds its list markup, if any.
  lemma WrittenJoin(done: seq<Block>, run: seq<Child>, c: Child)
    requires run != [] && ListsMarkup(run + [c]) == ListsMarkup(run) + ListOf(c)
    ensures Written(ListState(done, run + [c])) == Written(ListState(done, run)) + ListOf(c)
  {
    var m := Markup(done);
    var l := ListsMarkup(run);
    AppendAssoc("<ul>", l, ListOf(c));
    AppendAssoc(m, "<ul>" + l, ListOf(c));
  }

  // A bulleted child opens the list.
  lemma WrittenOpen(done: seq<Block>, c: Child)
    requires c.kind == BulletKind
    ensures Written(ListState(done, [] + [c])) == Written(ListState(done, [])) + "<ul>"
  {
    AppendEmpty([c]);
    ItemsOne(c);
    var m := Markup(done);
    AppendEmpty(m);
    AppendEmpty("<ul>");
    assert Written(ListState(done, [c])) == m + ("<ul>" + ListsMarkup([c]));
  }

  // A child joins the open run: its item and its list markup go last.
  lemma RunAppend(run: seq<Child>, c: Child)
    ensures Items(run + [c]) == Items(run) + ItemOf(c)
    ensures ListsMarkup(run + [c]) == ListsMarkup(run) + ListOf(c)
  {
    ItemsAppend(run, [c]);
    ListsMarkupAppend(run, [c]);
    ItemsOne(c);
  }

  // Closing writes the pending items and `</ul>`.
  lemma WrittenClose(st: ListState)
    ensures st.run != [] ==> Markup(Close(st)) == Written(st) + (Concat(Items(st.run)) + "</ul>")
    ensures st.run == [] ==> Markup(Close(st)) == Written(st)
  {
    if st.run != [] {
      var b := BulletList(st.run);
      MarkupAppend(st.done, [b]);
      MarkupOne(b);
      var m := Markup(st.done);
      var l := ListsMarkup(st.run);
      var t := Concat(Items(st.run));
      assert BlockMarkup(b) == "<ul>" + l + t + "</ul>";
      Regroup(m, "<ul>", l, t, "</ul>");
    } else {
      assert Markup(st.done) + "" == Markup(st.done);
    }
  }

  lemma Regroup(m: string, o: string, l: string, t: string, e: string)
    ensures m + (o + l + t + e) == (m + (o + l)) + (t + e)
  {
  }

  // Any other child closes the open list and is written as a paragraph.
  lemma WrittenParagraph(st: ListState, c: Child)
    requires c.kind == OtherKind
    ensures Written(Step(st, c)) == Markup(Close(st)) + ("<p>" + Html(c) + "</p>")
    ensures Items(Step(st, c).run) == []
  {
    MarkupAppend(Close(st), [Paragraph(c)]);
    MarkupOne(Paragraph(c));
  }

  // ---------------------------------------------------------------------
  // The loop
  // ---------------------------------------------------------------------

  /** The loop of `convertBulletsToLists` over the container's children,
      with `resultHTML`, the pending `listItems` and `inList`, and the
      closing of a list still open at the end: the container's new inner
      markup is the markup of the grouping. */
  method ConvertChildren(nodes: seq<Node>) returns (html: string)
    ensures html == Markup(GroupBullets(Classify(nodes)))
  {
    var resultHtml := "";
    var listItems: seq<string> := [];
    var inList := false;
    ghost var st := ListState([], []);
    var i := 0;
    while i < |nodes|
      invariant 0 <= i <= |nodes|
      invariant st == Fold(ListState([], []), Classify(nodes[..i]))
      invariant inList <==> st.run != []
      invariant resultHtml == Written(st)
      invariant listItems == Items(st.run)
    {
      FoldNext(nodes, i);
      var n := nodes[i];
      if n.Element? {
        resultHtml, listItems, inList := ConvertChild(n, st, resultHtml, listItems, inList);
        st := Step(st, ChildOf(n));
      }
      i := i + 1;
    }
    assert nodes[..i] == nodes;
    WrittenClose(st);
    if inList {
      resultHtml := resultHtml + (Concat(listItems) + "</ul>");
    }
    html := resultHtml;
  }

  /** The loop body for one element child: the three branches of
      `convertBulletsToLists` move the loop's variables from the state
      before the child to the state after it. */
  method ConvertChild(n: Node, ghost st: ListState, resultHtml: string, listItems: seq<string>, inList: bool)
    returns (resultHtml': string, listItems': seq<string>, inList': bool)
    requires n.Element?
    requires inList <==> st.run != []
    requires resultHtml == Written(st) && listItems == Items(st.run)
    ensures inList' <==> Step(st, ChildOf(n)).run != []
    ensures resultHtml' == Written(Step(st, ChildOf(n)))
    ensures listItems' == Items(Step(st, ChildOf(n)).run)
  {
    ghost var c := ChildOf(n);
    var elHtml := Trim(Serialize(n.children));
    var text := Trim(TextContent(n.children));
    resultHtml', listItems', inList' := resultHtml, listItems, inList;
    if n.tag == "ul" {
      WrittenList(st, c);
      resultHtml' := resultHtml' + OuterHtml(n);
    } else if BulletRun(text) > 0 {
      WrittenBullet(st, c);
      if !inList' {
        resultHtml' := resultHtml' + "<ul>";
        inList' := true;
      }
      listItems' := listItems' + ["<li>" + StripBullet(elHtml) + "</li>"];
    } else {
      WrittenClose(st);
      WrittenParagraph(st, c);
      if inList' {
        resultHtml' := resultHtml' + (Concat(listItems') + "</ul>");
        inList' := false;
        listItems' := [];
      }
      resultHtml' := resultHtml' + ("<p>" + elHtml + "</p>");
    }
  }
}
