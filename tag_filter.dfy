/**
 * `HtmlProcessor.filterTags` with its two helpers `unwrapElement` and
 * `preserveElement`.
 *
 * `filterTags` visits every element below the container in document order
 * (the list is taken before anything moves, and moved nodes keep their
 * identity, so each original element is visited exactly once, parent
 * before children).  An element whose tag is not allowed is unwrapped: its
 * children take its place.  An allowed element is replaced by a fresh
 * element of the same tag that keeps its children and no attribute, except
 * that a link keeps its non-empty `href`, unwrapped by `parseUrl`.
 */
module TagFilter {
  import opened Dom
  import opened Config
  import opened UrlDefense

  predicate IsAllowed(tag: string) {
    tag in AllowedTags
  }

  /** What every element looks like after filtering: an allowed tag, and no
      attribute other than `href` on a link. */
  predicate IsClean(tag: string, attrs: seq<Attr>) {
    IsAllowed(tag) && (attrs == [] || (tag == "a" && |attrs| == 1 && attrs[0].0 == "href"))
  }

  /** The attributes `preserveElement` gives the fresh element. */
  function PreservedAttrs(tag: string, attrs: seq<Attr>): (r: seq<Attr>)
    ensures r == [] || (tag == "a" && GetAttr(attrs, "href").Some? && r == [("href", ParseUrl(GetAttr(attrs, "href").value))])
    ensures r == [] <==> tag != "a" || GetAttr(attrs, "href") == None || GetAttr(attrs, "href") == Some("")
  {
    if tag == "a" then
      match GetAttr(attrs, "href")
      case Some(href) => if href != "" then [("href", ParseUrl(href))] else []
      case None => []
    else []
  }

  /** The tree `filterTags` leaves. */
  function Filtered(nodes: seq<Node>): seq<Node>
    decreases nodes
  {
    if nodes == [] then [] else FilteredNode(nodes[0]) + Filtered(nodes[1..])
  }

  /** What filtering does to one node. */
  function FilteredNode(n: Node): seq<Node>
    decreases n
  {
    match n
    case Element(tag, attrs, children) =>
      if IsAllowed(tag) then [Element(tag, PreservedAttrs(tag, attrs), Filtered(children))]
      else Filtered(children)
    case other => [other]
  }

  lemma FilteredSingle(n: Node)
    ensures Filtered([n]) == FilteredNode(n)
  {
    assert [n][1..] == [];
  }

  /** The walk's view of its list at index `i`: the node there, then the rest. */
  lemma WalkAt(list: seq<Node>, i: nat)
    requires i < |list|
    ensures list[i..] == [list[i]] + list[i + 1..]
    ensures NodeCount(list[i..]) == NodeCount([list[i]]) + NodeCount(list[i + 1..])
    ensures Filtered(list[i..]) == Filtered([list[i]]) + Filtered(list[i + 1..])
  {
    assert list[i..] == [list[i]] + list[i + 1..];
    NodeCountAppend([list[i]], list[i + 1..]);
    FilteredAppend([list[i]], list[i + 1..]);
  }

  lemma {:induction false} FilteredAppend(a: seq<Node>, b: seq<Node>)
    ensures Filtered(a + b) == Filtered(a) + Filtered(b)
  {
    if a == [] {
      assert a + b == b;
    } else {
      var ab := a + b;
      assert ab != [] && ab[0] == a[0] && ab[1..] == a[1..] + b;
      FilteredAppend(a[1..], b);
      var h := FilteredNode(a[0]);
      assert h + (Filtered(a[1..]) + Filtered(b)) == (h + Filtered(a[1..])) + Filtered(b);
    }
  }

  // ---------------------------------------------------------------------
  // Moving children, one at a time
  // ---------------------------------------------------------------------

  /** `unwrapElement(el)` where `el` is `siblings[i]`: while `el` has a first
      child, that child is inserted before `el`; then `el` is removed. */
  method UnwrapElement(siblings: seq<Node>, i: nat) returns (r: seq<Node>)
    requires i < |siblings| && siblings[i].Element?
    ensures r == siblings[..i] + siblings[i].children + siblings[i + 1..]
  {
    var el := siblings[i];
    var parent := siblings;
    var at := i;  // where `el` now stands in `parent`
    while parent[at].children != []
      invariant i <= at < |parent|
      invariant at - i <= |el.children|
      invariant parent == siblings[..i] + el.children[..at - i]
                        + [Element(el.tag, el.attrs, el.children[at - i..])] + siblings[i + 1..]
      decreases |parent[at].children|
    {
      var first := parent[at].children[0];
      assert first == el.children[at - i];
      parent := parent[..at] + [first, Element(el.tag, el.attrs, parent[at].children[1..])] + parent[at + 1..];
      assert el.children[..at + 1 - i] == el.children[..at - i] + [first];
      at := at + 1;
    }
    assert el.children[..at - i] == el.children;
    r := parent[..at] + parent[at + 1..];
  }

  /** `preserveElement(el, tag)` where `el` is `siblings[i]`: a fresh
      element of the same tag receives `el`'s children one at a time, first
      child first, and takes `el`'s place. */
  method PreserveElement(siblings: seq<Node>, i: nat) returns (r: seq<Node>)
    requires i < |siblings| && siblings[i].Element?
    ensures |r| == |siblings|
    ensures r[..i] == siblings[..i] && r[i + 1..] == siblings[i + 1..]
    ensures r[i] == Element(siblings[i].tag, PreservedAttrs(siblings[i].tag, siblings[i].attrs), siblings[i].children)
  {
    var el := siblings[i];
    var attrs := PreservedAttrs(el.tag, el.attrs);
    var moved: seq<Node> := [];
    var left := el.children;
    while left != []
      invariant moved + left == el.children
      decreases |left|
    {
      moved := moved + [left[0]];
      left := left[1..];
    }
    assert moved == el.children;
    r := siblings[..i] + [Element(el.tag, attrs, moved)] + siblings[i + 1..];
  }

  /** After unwrapping at `i`, what is left to walk is the element's
      children followed by its old later siblings. */
  lemma UnwrapStep(before: seq<Node>, i: nat, after: seq<Node>)
    requires i < |before| && before[i].Element?
    requires after == before[..i] + before[i].children + before[i + 1..]
    ensures after[..i] == before[..i]
    ensures after[i..] == before[i].children + before[i + 1..]
    ensures NodeCount(after[i..]) == NodeCount(before[i].children) + NodeCount(before[i + 1..])
    ensures Filtered(after[i..]) == Filtered(before[i].children) + Filtered(before[i + 1..])
  {
    assert after[..i] == before[..i];
    assert after[i..] == before[i].children + before[i + 1..];
    NodeCountAppend(before[i].children, before[i + 1..]);
    FilteredAppend(before[i].children, before[i + 1..]);
  }

  /** `filterTags` over a child list: a walk in document order.  Unwrapping
      puts the children where the element stood, so the walk goes on at the
      same index; a preserved element is filtered below before the walk
      moves past it. */
  method FilterTags(nodes: seq<Node>) returns (r: seq<Node>)
    ensures r == Filtered(nodes)
    decreases NodeCount(nodes)
  {
    var list := nodes;
    var i := 0;
    while i < |list|
      invariant 0 <= i <= |list|
      invariant NodeCount(list[i..]) <= NodeCount(nodes)
      invariant Filtered(nodes) == list[..i] + Filtered(list[i..])
      decreases NodeCount(list[i..])
    {
      var n := list[i];
      WalkAt(list, i);
      NodeCountSingle(n);
      FilteredSingle(n);
      if n.Element? && IsAllowed(n.tag) {
        list := PreserveElement(list, i);
        var children := FilterTags(n.children);
        var before := list;
        list := list[..i] + [Element(n.tag, list[i].attrs, children)] + list[i + 1..];
        assert list[..i + 1] == before[..i] + [list[i]];
        assert list[i + 1..] == before[i + 1..];
        i := i + 1;
      } else if n.Element? {
        var before := list;
        list := UnwrapElement(list, i);
        UnwrapStep(before, i, list);
      } else {
        assert list[..i + 1] == list[..i] + [n];
        i := i + 1;
      }
    }
    assert list[..i] == list;
    r := list;
  }

  // ---------------------------------------------------------------------
  // What filtering guarantees
  // ---------------------------------------------------------------------

  /** Every element left has an allowed tag, and the only attribute left
      anywhere is `href` on a link. */
  lemma {:induction false} FilteredClean(nodes: seq<Node>)
    ensures AllElements(Filtered(nodes), IsClean)
  {
    if nodes != [] {
      FilteredClean(nodes[1..]);
      var head := Filtered([nodes[0]]);
      assert [nodes[0]] + nodes[1..] == nodes;
      FilteredAppend([nodes[0]], nodes[1..]);
      if nodes[0].Element? {
        FilteredClean(nodes[0].children);
        assert Filtered([nodes[0]]) == Filtered([nodes[0]][..1]);
      }
      AllElementsAppend(head, Filtered(nodes[1..]), IsClean);
    }
  }

  /** Unwrapping keeps the text: no character of text is lost or moved. */
  lemma {:induction false} FilteredText(nodes: seq<Node>)
    ensures TextContent(Filtered(nodes)) == TextContent(nodes)
  {
    if nodes != [] {
      FilteredText(nodes[1..]);
      assert [nodes[0]] + nodes[1..] == nodes;
      FilteredAppend([nodes[0]], nodes[1..]);
      TextContentAppend(Filtered([nodes[0]]), Filtered(nodes[1..]));
      if nodes[0].Element? {
        FilteredText(nodes[0].children);
        if IsAllowed(nodes[0].tag) {
          var e := Filtered([nodes[0]])[0];
          assert Filtered([nodes[0]]) == [e];
          assert TextContent([e]) == TextContent(e.children);
        } else {
          FilteredSingle(nodes[0]);
        }
      }
    }
  }

  /** Preserving an element a second time keeps the attributes it has. */
  lemma PreservedAttrsIdempotent(tag: string, attrs: seq<Attr>)
    ensures PreservedAttrs(tag, PreservedAttrs(tag, attrs)) == PreservedAttrs(tag, attrs)
  {
    var r := PreservedAttrs(tag, attrs);
    if r != [] {
      var href := GetAttr(attrs, "href").value;
      ParseUrlIdempotent(href);
      if ParseUrl(href) == href {
        assert href != "";
      } else {
        ParseUrlDestination(href);
      }
      assert GetAttr(r, "href") == Some(ParseUrl(href));
    }
  }

  /** Filtering a filtered tree changes nothing. */
  lemma {:induction false} FilteredIdempotent(nodes: seq<Node>)
    ensures Filtered(Filtered(nodes)) == Filtered(nodes)
  {
    if nodes != [] {
      FilteredIdempotent(nodes[1..]);
      assert [nodes[0]] + nodes[1..] == nodes;
      FilteredAppend([nodes[0]], nodes[1..]);
      FilteredAppend(Filtered([nodes[0]]), Filtered(nodes[1..]));
      if nodes[0].Element? {
        FilteredIdempotent(nodes[0].children);
        if IsAllowed(nodes[0].tag) {
          PreservedAttrsIdempotent(nodes[0].tag, nodes[0].attrs);
        } else {
          FilteredSingle(nodes[0]);
        }
      }
    }
  }
}
