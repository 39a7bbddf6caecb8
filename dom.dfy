/**
 * The document tree the processors rewrite, and the two views of it they
 * read: its markup (`innerHTML` / `outerHTML`) and its text (`textContent`).
 *
 * A node is an element, a text node, or `Raw` markup: what an element holds
 * after a script assigned a markup string to its `innerHTML`.  The browser
 * would parse that string into nodes; the model keeps the string itself,
 * which serialises back to the same markup and whose text is the markup
 * with its tags stripped.
 */
module Dom {
  import opened JsText

  datatype Option<T> = None | Some(value: T)

  /** An attribute: its name and its value. */
  type Attr = (string, string)

  datatype Node =
    | Element(tag: string, attrs: seq<Attr>, children: seq<Node>)
    | Text(content: string)
    | Raw(markup: string)

  /** The elements that serialise without an end tag. */
  const VoidTags: set<string> :=
    {"area", "base", "br", "col", "embed", "hr", "img", "input", "link", "meta", "source", "track", "wbr"}

  // ---------------------------------------------------------------------
  // Attributes
  // ---------------------------------------------------------------------

  predicate HasAttr(attrs: seq<Attr>, name: string) {
    exists k :: 0 <= k < |attrs| && attrs[k].0 == name
  }

  /** `getAttribute(name)`: the value of the first attribute with that name,
      or None (JavaScript's `null`). */
  function GetAttr(attrs: seq<Attr>, name: string): (r: Option<string>)
    ensures r.Some? <==> HasAttr(attrs, name)
    ensures r.Some? ==> (name, r.value) in attrs
  {
    if attrs == [] then None
    else if attrs[0].0 == name then Some(attrs[0].1)
    else
      var r := GetAttr(attrs[1..], name);
      assert HasAttr(attrs, name) ==> attrs[0].0 == name || HasAttr(attrs[1..], name) by {
        if HasAttr(attrs, name) {
          var k :| 0 <= k < |attrs| && attrs[k].0 == name;
          if k > 0 { assert attrs[1..][k - 1] == attrs[k]; }
        }
      }
      r
  }

  /** `removeAttribute(name)`. */
  function RemoveAttr(attrs: seq<Attr>, name: string): (r: seq<Attr>)
    ensures forall a :: a in r <==> a in attrs && a.0 != name
    ensures !HasAttr(r, name)
  {
    if attrs == [] then []
    else if attrs[0].0 == name then RemoveAttr(attrs[1..], name)
    else [attrs[0]] + RemoveAttr(attrs[1..], name)
  }

  /** `setAttribute(name, value)`: the first attribute with that name gets
      the new value in place; without one, the attribute is appended. */
  function SetAttr(attrs: seq<Attr>, name: string, value: string): (r: seq<Attr>)
    ensures GetAttr(r, name) == Some(value)
    ensures |r| == if HasAttr(attrs, name) then |attrs| else |attrs| + 1
  {
    if attrs == [] then [(name, value)]
    else if attrs[0].0 == name then [(name, value)] + attrs[1..]
    else
      var r := [attrs[0]] + SetAttr(attrs[1..], name, value);
      assert HasAttr(attrs, name) <==> HasAttr(attrs[1..], name) by {
        if HasAttr(attrs, name) {
          var k :| 0 <= k < |attrs| && attrs[k].0 == name;
          assert attrs[1..][k - 1] == attrs[k];
        }
        if HasAttr(attrs[1..], name) {
          var k :| 0 <= k < |attrs[1..]| && attrs[1..][k].0 == name;
          assert attrs[k + 1] == attrs[1..][k];
        }
      }
      r
  }

  /** Setting one attribute leaves every other attribute's value as it was. */
  lemma {:induction false} SetAttrOthers(attrs: seq<Attr>, name: string, value: string, other: string)
    requires other != name
    ensures GetAttr(SetAttr(attrs, name, value), other) == GetAttr(attrs, other)
  {
    if attrs != [] && attrs[0].0 != name {
      SetAttrOthers(attrs[1..], name, value, other);
      assert SetAttr(attrs, name, value)[1..] == SetAttr(attrs[1..], name, value);
    }
  }

  /** Setting an attribute keeps the attribute names in their order. */
  lemma {:induction false} SetAttrNames(attrs: seq<Attr>, name: string, value: string, k: nat)
    requires k < |attrs|
    ensures |SetAttr(attrs, name, value)| >= |attrs|
    ensures SetAttr(attrs, name, value)[k].0 == attrs[k].0
    ensures attrs[k].0 != name ==> SetAttr(attrs, name, value)[k] == attrs[k]
  {
    if attrs[0].0 != name && k > 0 {
      SetAttrNames(attrs[1..], name, value, k - 1);
    }
  }

  // ---------------------------------------------------------------------
  // Markup: innerHTML / outerHTML
  // ---------------------------------------------------------------------

  /** ` name="value"` for each attribute, in order. */
  function AttrsMarkup(attrs: seq<Attr>): string {
    if attrs == [] then "" else " " + attrs[0].0 + "=\"" + attrs[0].1 + "\"" + AttrsMarkup(attrs[1..])
  }

  function StartTag(tag: string, attrs: seq<Attr>): string {
    "<" + tag + AttrsMarkup(attrs) + ">"
  }

  function EndTag(tag: string): string {
    "</" + tag + ">"
  }

  /** The markup of a sequence of nodes: `innerHTML` of their parent.
      Text is written as it is (entity escaping is not modelled). */
  function Serialize(nodes: seq<Node>): string
    decreases nodes
  {
    if nodes == [] then "" else OuterHtml(nodes[0]) + Serialize(nodes[1..])
  }

  /** The markup of one node: `outerHTML`. */
  function OuterHtml(n: Node): string
    decreases n
  {
    match n
    case Element(tag, attrs, children) =>
      if tag in VoidTags then StartTag(tag, attrs)
      else StartTag(tag, attrs) + Serialize(children) + EndTag(tag)
    case Text(content) => content
    case Raw(markup) => markup
  }

  lemma {:induction false} TextContentAppend(a: seq<Node>, b: seq<Node>)
    ensures TextContent(a + b) == TextContent(a) + TextContent(b)
  {
    if a == [] {
      assert a + b == b;
    } else {
      assert (a + b)[0] == a[0];
      assert (a + b)[1..] == a[1..] + b;
      TextContentAppend(a[1..], b);
    }
  }

  lemma {:induction false} SerializeAppend(a: seq<Node>, b: seq<Node>)
    ensures Serialize(a + b) == Serialize(a) + Serialize(b)
  {
    if a == [] {
      assert a + b == b;
    } else {
      var ab := a + b;
      assert ab != [] && ab[0] == a[0] && ab[1..] == a[1..] + b;
      SerializeAppend(a[1..], b);
      var h := OuterHtml(a[0]);
      assert h + (Serialize(a[1..]) + Serialize(b)) == (h + Serialize(a[1..])) + Serialize(b);
    }
  }

  lemma SerializeSingle(n: Node)
    ensures Serialize([n]) == OuterHtml(n)
  {
    assert [n][1..] == [];
  }

  /** Markup is written node after node. */
  lemma SerializeCons(n: Node, rest: seq<Node>)
    ensures Serialize([n] + rest) == OuterHtml(n) + Serialize(rest)
  {
    assert ([n] + rest)[1..] == rest;
  }

  // ---------------------------------------------------------------------
  // Text: textContent
  // ---------------------------------------------------------------------

  /** The characters of `markup` outside `<...>` tags: the text a parse of
      the markup would hold (character references are not decoded). */
  function StripTags(markup: string): string {
    StripTagsFrom(markup, false)
  }

  function StripTagsFrom(markup: string, inTag: bool): string {
    if markup == [] then ""
    else if inTag then StripTagsFrom(markup[1..], markup[0] != '>')
    else if markup[0] == '<' then StripTagsFrom(markup[1..], true)
    else [markup[0]] + StripTagsFrom(markup[1..], false)
  }

  /** `textContent` of the parent of `nodes`. */
  function TextContent(nodes: seq<Node>): string {
    if nodes == [] then ""
    else
      (match nodes[0]
       case Element(_, _, children) => TextContent(children)
       case Text(content) => content
       case Raw(markup) => StripTags(markup))
      + TextContent(nodes[1..])
  }

  /** The text of an element whose markup was assigned. */
  lemma TextOfRaw(markup: string)
    ensures TextContent([Raw(markup)]) == StripTags(markup)
  {
    assert [Raw(markup)][1..] == [];
  }

  // ---------------------------------------------------------------------
  // Tree-wide predicates
  // ---------------------------------------------------------------------

  /** `p(tag, attrs)` holds of every element at every depth (elements written
      as Raw markup are not looked into). */
  predicate AllElements(nodes: seq<Node>, p: (string, seq<Attr>) -> bool) {
    forall k :: 0 <= k < |nodes| ==>
      match nodes[k]
      case Element(tag, attrs, children) => p(tag, attrs) && AllElements(children, p)
      case _ => true
  }

  /** A tree-wide property carries over to a weaker one. */
  lemma AllElementsWeaken(nodes: seq<Node>, p: (string, seq<Attr>) -> bool, q: (string, seq<Attr>) -> bool)
    requires AllElements(nodes, p)
    requires forall t, a :: p(t, a) ==> q(t, a)
    ensures AllElements(nodes, q)
  {
    forall k | 0 <= k < |nodes| && nodes[k].Element?
      ensures AllElements(nodes[k].children, q)
    {
      AllElementsWeaken(nodes[k].children, p, q);
    }
  }

  lemma AllElementsAppend(a: seq<Node>, b: seq<Node>, p: (string, seq<Attr>) -> bool)
    ensures AllElements(a + b, p) <==> AllElements(a, p) && AllElements(b, p)
  {
    if AllElements(a, p) && AllElements(b, p) {
      forall k | 0 <= k < |a + b| ensures (a + b)[k] == if k < |a| then a[k] else b[k - |a|] { }
    }
    if AllElements(a + b, p) {
      forall k | 0 <= k < |a| ensures (a + b)[k] == a[k] { }
      forall k | 0 <= k < |b| ensures (a + b)[|a| + k] == b[k] { }
    }
  }

  /** Number of nodes at every depth: what a walk that splices children
      into their parent's place still has to visit. */
  function NodeCount(nodes: seq<Node>): nat {
    if nodes == [] then 0
    else
      (match nodes[0]
       case Element(_, _, children) => 1 + NodeCount(children)
       case _ => 1)
      + NodeCount(nodes[1..])
  }

  lemma {:induction false} NodeCountAppend(a: seq<Node>, b: seq<Node>)
    ensures NodeCount(a + b) == NodeCount(a) + NodeCount(b)
  {
    if a == [] {
      assert a + b == b;
    } else {
      assert (a + b)[0] == a[0];
      assert (a + b)[1..] == a[1..] + b;
      NodeCountAppend(a[1..], b);
    }
  }

  lemma NodeCountSingle(n: Node)
    ensures NodeCount([n]) == if n.Element? then 1 + NodeCount(n.children) else 1
  {
    assert [n][1..] == [];
  }

  /** The tree with every attribute list emptied: what stays when only
      attribute values may change. */
  function Skeleton(nodes: seq<Node>): (r: seq<Node>)
    ensures |r| == |nodes|
  {
    if nodes == [] then []
    else
      [match nodes[0]
       case Element(tag, _, children) => Element(tag, [], Skeleton(children))
       case other => other]
      + Skeleton(nodes[1..])
  }

  lemma {:induction false} SkeletonAppend(a: seq<Node>, b: seq<Node>)
    ensures Skeleton(a + b) == Skeleton(a) + Skeleton(b)
  {
    if a == [] {
      assert a + b == b;
    } else {
      assert (a + b)[0] == a[0];
      assert (a + b)[1..] == a[1..] + b;
      SkeletonAppend(a[1..], b);
    }
  }

  // ---------------------------------------------------------------------
  // The element a stage works on
  // ---------------------------------------------------------------------

  /** An element whose child list the processors rewrite in place: the
      detached `div` a markup string is parsed into. */
  class Container {
    var children: seq<Node>

    constructor(children: seq<Node>)
      ensures this.children == children
    {
      this.children := children;
    }

    /** `innerHTML` read back. */
    function InnerHtml(): string
      reads this
    {
      Serialize(children)
    }
  }
}
