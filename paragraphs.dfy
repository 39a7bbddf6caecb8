/**
 * The paragraph clean-up of `HtmlProcessor.formatParagraphs`: for every `p`
 * in document order, its markup loses its whitespace-only `<strong>` /
 * `<em>` pairs, every whitespace run becomes one space and the result is
 * trimmed; a paragraph whose text is then blank is removed.
 *
 * The first half of `formatParagraphs` (turning blank lines of the
 * serialised markup into paragraph boundaries and re-parsing it) is a
 * parameter of the pipeline, not part of this module. Its `<br>`
 * replacement never matches: the tag filter has already unwrapped every
 * `br` element (HtmlProcessor.CleanedNoLineBreak).
 */
module Paragraphs {
  import opened JsText
  import opened Dom

  // ---------------------------------------------------------------------
  // The pattern /<(strong|em)[^>]*>\s*<\/\1>/
  // ---------------------------------------------------------------------

  predicate IsEmphasisName(name: string) {
    name == "strong" || name == "em"
  }

  /** The text of one match: the start tag (any text up to its first `>`),
      whitespace, and the end tag of the same name. */
  function PairText(name: string, rest: string, ws: string): string {
    ("<" + name) + (rest + (">" + (ws + EndTag(name))))
  }

  predicate IsPairParts(name: string, rest: string, ws: string) {
    IsEmphasisName(name) && '>' !in rest && AllSpace(ws)
  }

  /** `w` is one match of the pattern: the declarative reading. */
  ghost predicate IsEmptyPair(w: string) {
    exists name, rest, ws :: IsPairParts(name, rest, ws) && w == PairText(name, rest, ws)
  }

  /** Length of the leading run of characters other than `>`: `[^>]*`. */
  function UntilGt(s: string): (n: nat)
    ensures n <= |s| && '>' !in s[..n] && (n < |s| ==> s[n] == '>')
  {
    if s != [] && s[0] != '>' then
      var n := 1 + UntilGt(s[1..]);
      assert s[..n] == [s[0]] + s[1..][..n - 1];
      n
    else 0
  }

  lemma {:induction false} UntilGtIs(s: string, g: nat)
    requires g < |s| && s[g] == '>' && '>' !in s[..g]
    ensures UntilGt(s) == g
  {
    if g > 0 {
      assert s[0] == s[..g][0];
      assert s[1..][..g - 1] == s[..g][1..];
      UntilGtIs(s[1..], g - 1);
    }
  }

  /** The match for the given name at the start of `s`, once `<name` has
      been read: its length, if it matches. */
  function PairWith(s: string, name: string): (r: Option<nat>)
    requires StartsWith(s, "<" + name)
    ensures r.Some? ==> 0 < r.value <= |s|
  {
    match PairAfter(s[1 + |name|..], name)
    case Some(n) => Some(1 + |name| + n)
    case None => None
  }

  /** The rest of the match after `<name`: `[^>]*>`, whitespace and the end
      tag; its length, if it matches. */
  function PairAfter(t: string, name: string): (r: Option<nat>)
    ensures r.Some? ==> 0 < r.value <= |t|
  {
    var g := UntilGt(t);
    if g < |t| then
      var u := t[g + 1..];
      var l := LeadingSpaces(u);
      if StartsWith(u[l..], EndTag(name)) then Some(g + 1 + l + |EndTag(name)|) else None
    else None
  }

  /** The length of the match at the start of `s`, if any: the matcher read
      left to right, `strong` tried before `em`. */
  function PairAt(s: string): (r: Option<nat>)
    ensures r.Some? ==> 0 < r.value <= |s|
  {
    if StartsWith(s, "<strong") then PairWith(s, "strong")
    else if StartsWith(s, "<em") then PairWith(s, "em")
    else None
  }

  /** `s.replace(/<(strong|em)[^>]*>\s*<\/\1>/g, '')`: one left-to-right
      pass; what a removal brings together is not looked at again. */
  function RemoveEmptyPairs(s: string): (r: string)
    ensures |r| <= |s|
    decreases |s|
  {
    if s == [] then []
    else
      match PairAt(s)
      case Some(n) => RemoveEmptyPairs(s[n..])
      case None => [s[0]] + RemoveEmptyPairs(s[1..])
  }

  // ---------------------------------------------------------------------
  // The matcher agrees with the pattern
  // ---------------------------------------------------------------------

  // The pieces the matcher read, when it matched.
  lemma PairWithParts(s: string, name: string) returns (rest: string, ws: string)
    requires IsEmphasisName(name) && StartsWith(s, "<" + name) && PairWith(s, name).Some?
    ensures IsPairParts(name, rest, ws)
    ensures StartsWith(s, PairText(name, rest, ws))
    ensures PairWith(s, name).value == |PairText(name, rest, ws)|
  {
    var t := s[1 + |name|..];
    rest, ws := PairAfterParts(t, name);
    StartsWithJoin(s, "<" + name, rest + (">" + (ws + EndTag(name))));
    PairTextLength(name, rest, ws);
  }

  // The pieces of the rest of a match.
  lemma PairAfterParts(t: string, name: string) returns (rest: string, ws: string)
    requires IsEmphasisName(name) && PairAfter(t, name).Some?
    ensures IsPairParts(name, rest, ws)
    ensures StartsWith(t, rest + (">" + (ws + EndTag(name))))
    ensures PairAfter(t, name).value == |rest| + 1 + |ws| + |EndTag(name)|
  {
    var g := UntilGt(t);
    var u := t[g + 1..];
    var l := LeadingSpaces(u);
    rest := t[..g];
    ws := u[..l];
    var tail := ws + EndTag(name);
    SpacesThenClose(u, l, EndTag(name));
    AfterGt(t, g, tail);
  }

  // The whitespace run and the end tag after it.
  lemma SpacesThenClose(u: string, l: nat, close: string)
    requires l <= |u| && StartsWith(u[l..], close)
    requires forall k :: 0 <= k < l ==> IsSpace(u[k])
    ensures AllSpace(u[..l]) && StartsWith(u, u[..l] + close)
  {
    assert u[..l + |close|] == u[..l] + u[l..][..|close|];
  }

  // The start tag's `>` and what follows it.
  lemma AfterGt(t: string, g: nat, tail: string)
    requires g < |t| && t[g] == '>' && StartsWith(t[g + 1..], tail)
    ensures StartsWith(t, t[..g] + (">" + tail))
  {
    assert t[..g + 1 + |tail|] == t[..g] + ([t[g]] + t[g + 1..][..|tail|]);
  }

  lemma PairWithSound(s: string, name: string)
    requires IsEmphasisName(name) && StartsWith(s, "<" + name) && PairWith(s, name).Some?
    ensures IsEmptyPair(s[..PairWith(s, name).value])
  {
    var rest, ws := PairWithParts(s, name);
    var w := PairText(name, rest, ws);
    assert s[..|w|] == w;
  }

  lemma PairAtSound(s: string)
    requires PairAt(s).Some?
    ensures IsEmptyPair(s[..PairAt(s).value])
  {
    if StartsWith(s, "<strong") {
      PairWithSound(s, "strong");
    } else {
      PairWithSound(s, "em");
    }
  }

  lemma PairWithComplete(s: string, name: string, rest: string, ws: string)
    requires IsPairParts(name, rest, ws) && StartsWith(s, PairText(name, rest, ws))
    ensures StartsWith(s, "<" + name)
    ensures PairWith(s, name) == Some(|PairText(name, rest, ws)|)
  {
    StartsWithSplit(s, "<" + name, rest + (">" + (ws + EndTag(name))));
    var n := |rest| + 1 + |ws| + |EndTag(name)|;
    PairRestComplete(s[1 + |name|..], name, rest, ws);
    PairWithAfter(s, name, n);
    PairTextLength(name, rest, ws);
  }

  lemma PairWithAfter(s: string, name: string, n: nat)
    requires StartsWith(s, "<" + name) && PairAfter(s[1 + |name|..], name) == Some(n)
    ensures PairWith(s, name) == Some(1 + |name| + n)
  {
  }

  lemma PairTextLength(name: string, rest: string, ws: string)
    ensures |PairText(name, rest, ws)| == 1 + |name| + |rest| + 1 + |ws| + |EndTag(name)|
  {
  }

  // What follows the tag name in a match: the matcher finds its `>`, its
  // whitespace and its end tag where the parts put them.
  lemma PairRestComplete(t: string, name: string, rest: string, ws: string)
    requires IsPairParts(name, rest, ws) && StartsWith(t, rest + (">" + (ws + EndTag(name))))
    ensures PairAfter(t, name) == Some(|rest| + 1 + |ws| + |EndTag(name)|)
  {
    StartsWithSplit(t, rest, ">" + (ws + EndTag(name)));
    var t' := t[|rest|..];
    StartsWithSplit(t', ">", ws + EndTag(name));
    var u := t'[1..];
    StartsWithSplit(u, ws, EndTag(name));
    assert t[|rest|] == t'[..1][0];
    UntilGtIs(t, |rest|);
    assert t[|rest| + 1..] == u;
    assert u[|ws|] == EndTag(name)[0];
    LeadingSpacesIs(u, |ws|);
  }

  // `strong` and `em` differ in their first letter.
  lemma EmNotStrong(s: string)
    requires StartsWith(s, "<em")
    ensures !StartsWith(s, "<strong")
  {
    if |s| >= 7 {
      assert s[..7][1] == s[1] == s[..3][1];
    }
  }

  lemma PairAtComplete(s: string, w: string)
    requires IsEmptyPair(w) && StartsWith(s, w)
    ensures PairAt(s) == Some(|w|)
  {
    var name, rest, ws :| IsPairParts(name, rest, ws) && w == PairText(name, rest, ws);
    if name == "strong" {
      PairAtStrong(s, rest, ws);
    } else {
      PairAtEm(s, rest, ws);
    }
  }

  lemma PairAtStrong(s: string, rest: string, ws: string)
    requires IsPairParts("strong", rest, ws) && StartsWith(s, PairText("strong", rest, ws))
    ensures PairAt(s) == Some(|PairText("strong", rest, ws)|)
  {
    PairWithComplete(s, "strong", rest, ws);
    assert "<" + "strong" == "<strong";
  }

  lemma PairAtEm(s: string, rest: string, ws: string)
    requires IsPairParts("em", rest, ws) && StartsWith(s, PairText("em", rest, ws))
    ensures PairAt(s) == Some(|PairText("em", rest, ws)|)
  {
    PairWithComplete(s, "em", rest, ws);
    assert "<" + "em" == "<em";
    EmNotStrong(s);
  }

  /** A match at the start of the markup is deleted and the scan goes on
      after it. */
  lemma RemoveEmptyPairsDrops(w: string, t: string)
    requires IsEmptyPair(w)
    ensures RemoveEmptyPairs(w + t) == RemoveEmptyPairs(t)
  {
    assert (w + t)[..|w|] == w;
    PairAtComplete(w + t, w);
    assert (w + t)[|w|..] == t;
  }

  /** Where no match starts, the character is kept. */
  lemma RemoveEmptyPairsKeeps(s: string)
    requires s != []
    requires forall w :: IsEmptyPair(w) ==> !StartsWith(s, w)
    ensures RemoveEmptyPairs(s) == [s[0]] + RemoveEmptyPairs(s[1..])
  {
    if PairAt(s).Some? {
      PairAtSound(s);
      assert StartsWith(s, s[..PairAt(s).value]);
    }
  }

  /** Markup without any match is left as it is. */
  lemma {:induction false} RemoveEmptyPairsNone(s: string)
    requires forall i, w :: 0 <= i <= |s| && IsEmptyPair(w) ==> !StartsWith(s[i..], w)
    ensures RemoveEmptyPairs(s) == s
    decreases |s|
  {
    if s != [] {
      assert s[0..] == s;
      RemoveEmptyPairsKeeps(s);
      forall i, w | 0 <= i <= |s[1..]| && IsEmptyPair(w) ensures !StartsWith(s[1..][i..], w) {
        assert s[1..][i..] == s[i + 1..];
      }
      RemoveEmptyPairsNone(s[1..]);
    }
  }

  /** The pass looks at each position once: around a whitespace-only pair,
      `<strong>` does not match where it starts (its end tag does not follow),
      and once the inner pair is removed the scan is already past it, so
      `<strong>` + pair + `</strong>` leaves `<strong></strong>`. */
  lemma NestedPairNotMatched(inner: string)
    requires IsEmptyPair(inner)
    ensures PairAt("<strong>" + inner + "</strong>") == None
  {
    var s := "<strong>" + inner + "</strong>";
    var name, rest, ws :| IsPairParts(name, rest, ws) && inner == PairText(name, rest, ws);
    assert inner[0] == '<' && inner[1] == name[0];
    assert s[..7] == "<strong>"[..7];
    assert s[7] == '>' && s[8] == inner[0] && s[9] == inner[1];
    StrongNotClosed(s);
  }

  // `<strong>` directly followed by a tag other than an end tag.
  lemma StrongNotClosed(s: string)
    requires StartsWith(s, "<strong") && |s| >= 10
    requires s[7] == '>' && s[8] == '<' && s[9] != '/'
    ensures PairAt(s) == None
  {
    var t := s[7..];
    UntilGtIs(t, 0);
    var u := t[1..];
    LeadingSpacesIs(u, 0);
    assert u[0..] == u;
    assert u[1] == s[9];
    assert EndTag("strong")[1] == '/';
  }

  // ---------------------------------------------------------------------
  // One paragraph
  // ---------------------------------------------------------------------

  /** The markup a paragraph gets from the markup it had: pairs removed,
      whitespace runs collapsed, trimmed. */
  function CleanedMarkup(inner: string): string {
    Trim(CollapseSpaces(RemoveEmptyPairs(inner)))
  }

  /** The removal test on the trimmed text. */
  predicate IsBlankText(text: string) {
    text == "" || text == " "
  }

  /** On trimmed text the test is emptiness: the `' '` case cannot arise. */
  lemma BlankTrimmed(text: string)
    requires IsTrimmed(text)
    ensures IsBlankText(text) <==> text == ""
  {
  }

  /** What a kept paragraph's markup looks like. */
  predicate IsCleanMarkup(m: string) {
    IsTrimmed(m) && IsCollapsed(m) && Trim(StripTags(m)) != ""
  }

  /** One `p`: removed when its cleaned text is blank; otherwise its markup
      is the cleaned markup, collapsed and trimmed once more. */
  function CleanParagraph(tag: string, attrs: seq<Attr>, children: seq<Node>): (r: seq<Node>)
    ensures |r| <= 1
  {
    var x := CleanedMarkup(Serialize(children));
    if IsBlankText(Trim(TextContent([Raw(x)]))) then []
    else [Element(tag, attrs, [Raw(Trim(CollapseSpaces(x)))])]
  }

  /** Text is serialised unescaped, so a literal `<` in a paragraph's text
      reads as the start of a tag when the paragraph's text is taken from its
      markup: the paragraph `<p><3</p>` is judged blank and removed. */
  lemma UnescapedLessThan()
    ensures CleanParagraph("p", [], [Text("<3")]) == []
  {
    LessThanSerialized();
    LessThanMarkup();
    LessThanText();
  }

  // The steps of UnescapedLessThan, one function at a time.
  lemma LessThanSerialized()
    ensures Serialize([Text("<3")]) == "<3"
  {
    SerializeSingle(Text("<3"));
  }

  lemma LessThanMarkup()
    ensures CleanedMarkup("<3") == "<3"
  {
    LessThanNoPair();
    LessThanCollapsed();
    LessThanTrimmed();
  }

  lemma LessThanNoPair()
    ensures RemoveEmptyPairs("<3") == "<3"
  {
    assert PairAt("<3") == None;
    assert PairAt("3") == None;
  }

  lemma LessThanCollapsed()
    ensures CollapseSpaces("<3") == "<3"
  {
    assert "<3"[1..] == "3";
  }

  lemma LessThanTrimmed()
    ensures Trim("<3") == "<3"
  {
    assert LeadingSpaces("<3") == 0;
  }

  lemma LessThanText()
    ensures Trim(TextContent([Raw("<3")])) == ""
  {
    assert StripTags("<3") == "";
  }

  /** Text is serialised unescaped, so a no-break space reaches the
      whitespace rewrite as the character U+00A0, where the browser's markup
      holds the entity `&nbsp;`: the model trims the leading no-break space of
      `<p>&nbsp;x</p>`, which the browser's markup keeps. */
  lemma UnescapedNoBreakSpace()
    ensures CleanParagraph("p", [], [Text("\U{A0}x")]) == [Element("p", [], [Raw("x")])]
  {
    NoBreakSpaceSerialized();
    NoBreakSpaceMarkup();
    NoBreakSpaceText();
  }

  // The steps of UnescapedNoBreakSpace, one function at a time.
  lemma NoBreakSpaceSerialized()
    ensures Serialize([Text("\U{A0}x")]) == "\U{A0}x"
  {
    SerializeSingle(Text("\U{A0}x"));
  }

  lemma NoBreakSpaceMarkup()
    ensures CleanedMarkup("\U{A0}x") == "x"
  {
    NoBreakSpaceNoPair();
    NoBreakSpaceCollapsed();
    NoBreakSpaceTrimmed();
  }

  lemma NoBreakSpaceNoPair()
    ensures RemoveEmptyPairs("\U{A0}x") == "\U{A0}x"
  {
    assert PairAt("\U{A0}x") == None;
    assert PairAt("x") == None;
  }

  lemma NoBreakSpaceCollapsed()
    ensures CollapseSpaces("\U{A0}x") == " x"
  {
    assert LeadingSpaces("\U{A0}x") == 1;
    assert "\U{A0}x"[1..] == "x";
    assert CollapseSpaces("x") == "x";
  }

  lemma NoBreakSpaceTrimmed()
    ensures Trim(" x") == "x"
  {
    assert LeadingSpaces(" x") == 1;
  }

  lemma NoBreakSpaceText()
    ensures Trim(TextContent([Raw("x")])) == "x"
    ensures Trim(CollapseSpaces("x")) == "x"
  {
    assert StripTags("x") == "x";
    assert CollapseSpaces("x") == "x";
    assert LeadingSpaces("x") == 0;
  }

  /** The second collapse-and-trim finds nothing left to do. */
  lemma CleanedMarkupStable(inner: string)
    ensures IsTrimmed(CleanedMarkup(inner)) && IsCollapsed(CleanedMarkup(inner))
    ensures Trim(CollapseSpaces(CleanedMarkup(inner))) == CleanedMarkup(inner)
  {
    var x := CleanedMarkup(inner);
    TrimCollapsed(CollapseSpaces(RemoveEmptyPairs(inner)));
    CollapseCollapsed(x);
    TrimTrimmed(x);
  }

  /** A paragraph is kept exactly when its cleaned markup has some text, and
      then that markup is clean. */
  lemma CleanParagraphSpec(tag: string, attrs: seq<Attr>, children: seq<Node>)
    ensures var x := CleanedMarkup(Serialize(children));
      (CleanParagraph(tag, attrs, children) == [] <==> Trim(StripTags(x)) == "") &&
      (CleanParagraph(tag, attrs, children) != [] ==>
         CleanParagraph(tag, attrs, children) == [Element(tag, attrs, [Raw(x)])] && IsCleanMarkup(x))
  {
    var x := CleanedMarkup(Serialize(children));
    CleanedMarkupStable(Serialize(children));
    TextOfRaw(x);
    BlankTrimmed(Trim(StripTags(x)));
  }

  // ---------------------------------------------------------------------
  // Every paragraph
  // ---------------------------------------------------------------------

  /** The tree after the paragraph loop: every `p` cleaned or removed.  The
      loop does not look inside a `p` it has rewritten: whatever `p` was
      inside it went with the old markup. */
  function CleanParagraphs(nodes: seq<Node>): seq<Node>
    decreases nodes
  {
    if nodes == [] then [] else CleanNode(nodes[0]) + CleanParagraphs(nodes[1..])
  }

  /** What the loop leaves of one node. */
  function CleanNode(n: Node): seq<Node>
    decreases n
  {
    match n
    case Element(tag, attrs, children) =>
      if tag == "p" then CleanParagraph(tag, attrs, children)
      else [Element(tag, attrs, CleanParagraphs(children))]
    case other => [other]
  }

  lemma {:induction false} CleanParagraphsAppend(a: seq<Node>, b: seq<Node>)
    ensures CleanParagraphs(a + b) == CleanParagraphs(a) + CleanParagraphs(b)
  {
    if a == [] {
      assert a + b == b;
    } else {
      var ab := a + b;
      assert ab != [] && ab[0] == a[0] && ab[1..] == a[1..] + b;
      CleanParagraphsAppend(a[1..], b);
      var h := CleanNode(a[0]);
      assert h + (CleanParagraphs(a[1..]) + CleanParagraphs(b)) == (h + CleanParagraphs(a[1..])) + CleanParagraphs(b);
    }
  }

  lemma CleanParagraphsSingle(n: Node)
    ensures CleanParagraphs([n]) == CleanNode(n)
  {
    assert [n][1..] == [];
  }

  /** Every `p` holds clean markup with some text, at any depth. */
  predicate ParagraphsClean(nodes: seq<Node>) {
    forall k :: 0 <= k < |nodes| ==>
      match nodes[k]
      case Element(tag, _, children) =>
        if tag == "p" then |children| == 1 && children[0].Raw? && IsCleanMarkup(children[0].markup)
        else ParagraphsClean(children)
      case _ => true
  }

  lemma ParagraphsCleanAppend(a: seq<Node>, b: seq<Node>)
    requires ParagraphsClean(a) && ParagraphsClean(b)
    ensures ParagraphsClean(a + b)
  {
    forall k | 0 <= k < |a + b| ensures (a + b)[k] == if k < |a| then a[k] else b[k - |a|] { }
  }

  /** After the loop every remaining paragraph has non-blank text and
      trimmed markup without whitespace runs. */
  lemma {:induction false} CleanParagraphsClean(nodes: seq<Node>)
    ensures ParagraphsClean(CleanParagraphs(nodes))
  {
    if nodes != [] {
      CleanParagraphsClean(nodes[1..]);
      if nodes[0].Element? && nodes[0].tag != "p" {
        CleanParagraphsClean(nodes[0].children);
      }
      CleanOneClean(nodes[0]);
      ParagraphsCleanAppend(CleanNode(nodes[0]), CleanParagraphs(nodes[1..]));
    }
  }

  // One node, given that its children (when it is not a paragraph) are clean.
  lemma CleanOneClean(n: Node)
    requires n.Element? && n.tag != "p" ==> ParagraphsClean(CleanParagraphs(n.children))
    ensures ParagraphsClean(CleanNode(n))
  {
    if n.Element? && n.tag == "p" {
      CleanParagraphSpec(n.tag, n.attrs, n.children);
    }
  }

  /** The paragraph loop over a child list, below each element that is not
      itself a paragraph. */
  method FormatParagraphList(nodes: seq<Node>) returns (r: seq<Node>)
    ensures r == CleanParagraphs(nodes)
  {
    r := [];
    var i := 0;
    while i < |nodes|
      invariant 0 <= i <= |nodes|
      invariant r == CleanParagraphs(nodes[..i])
    {
      var n := nodes[i];
      assert nodes[..i + 1] == nodes[..i] + [n];
      CleanParagraphsAppend(nodes[..i], [n]);
      CleanParagraphsSingle(n);
      if n.Element? && n.tag == "p" {
        var x := CleanedMarkup(Serialize(n.children));
        var text := Trim(StripTags(x));
        TextOfRaw(x);
        if !IsBlankText(text) {
          r := r + [Element(n.tag, n.attrs, [Raw(Trim(CollapseSpaces(x)))])];
        }
      } else if n.Element? {
        var children := FormatParagraphList(n.children);
        r := r + [Element(n.tag, n.attrs, children)];
      } else {
        r := r + [n];
      }
      i := i + 1;
    }
    assert nodes[..i] == nodes;
  }
}
