/**
 * `HtmlProcessor.removeStyles`: two sweeps over the container's descendants.
 * The first removes the `style` attribute from every element that has one;
 * the second removes every `style` element together with everything inside
 * it (its CSS text included).
 */
module StyleStripper {
  import opened Dom
  import JsText

  predicate NoStyleAttr(tag: string, attrs: seq<Attr>) {
    !HasAttr(attrs, "style")
  }

  predicate NotStyleElement(tag: string, attrs: seq<Attr>) {
    tag != "style"
  }

  // ---------------------------------------------------------------------
  // What each sweep computes
  // ---------------------------------------------------------------------

  /** The tree after `removeAttribute('style')` on every element. */
  function WithoutStyleAttrs(nodes: seq<Node>): (r: seq<Node>)
    ensures |r| == |nodes|
  {
    if nodes == [] then []
    else
      [match nodes[0]
       case Element(tag, attrs, children) => Element(tag, RemoveAttr(attrs, "style"), WithoutStyleAttrs(children))
       case other => other]
      + WithoutStyleAttrs(nodes[1..])
  }

  /** The tree after `remove()` on every `style` element. */
  function WithoutStyleElements(nodes: seq<Node>): seq<Node> {
    if nodes == [] then []
    else
      (match nodes[0]
       case Element(tag, attrs, children) =>
         if tag == "style" then [] else [Element(tag, attrs, WithoutStyleElements(children))]
       case other => [other])
      + WithoutStyleElements(nodes[1..])
  }

  /** Both sweeps, in the order `removeStyles` runs them. */
  function Unstyled(nodes: seq<Node>): seq<Node> {
    WithoutStyleElements(WithoutStyleAttrs(nodes))
  }

  lemma {:induction false} WithoutStyleAttrsAppend(a: seq<Node>, b: seq<Node>)
    ensures WithoutStyleAttrs(a + b) == WithoutStyleAttrs(a) + WithoutStyleAttrs(b)
  {
    if a == [] {
      assert a + b == b;
    } else {
      assert (a + b)[0] == a[0];
      assert (a + b)[1..] == a[1..] + b;
      WithoutStyleAttrsAppend(a[1..], b);
    }
  }

  lemma WithoutStyleElementsCons(n: Node, rest: seq<Node>)
    ensures WithoutStyleElements([n] + rest) == WithoutStyleElements([n]) + WithoutStyleElements(rest)
  {
    assert ([n] + rest)[0] == n && ([n] + rest)[1..] == rest;
    assert [n][1..] == [];
  }

  lemma {:induction false} WithoutStyleElementsAppend(a: seq<Node>, b: seq<Node>)
    ensures WithoutStyleElements(a + b) == WithoutStyleElements(a) + WithoutStyleElements(b)
  {
    if a == [] {
      assert a + b == b;
    } else {
      assert (a + b)[0] == a[0];
      assert (a + b)[1..] == a[1..] + b;
      WithoutStyleElementsAppend(a[1..], b);
      var head := WithoutStyleElements([a[0]]);
      assert a == [a[0]] + a[1..];
      assert a + b == [a[0]] + (a[1..] + b);
      WithoutStyleElementsCons(a[0], a[1..]);
      WithoutStyleElementsCons(a[0], a[1..] + b);
      JsText.AppendAssoc(head, WithoutStyleElements(a[1..]), WithoutStyleElements(b));
    }
  }

  // ---------------------------------------------------------------------
  // The sweeps
  // ---------------------------------------------------------------------

  /** The attribute sweep over a child list and, below each element, over
      its children. */
  method RemoveStyleAttributes(nodes: seq<Node>) returns (r: seq<Node>)
    ensures r == WithoutStyleAttrs(nodes)
  {
    r := [];
    var i := 0;
    while i < |nodes|
      invariant 0 <= i <= |nodes|
      invariant r == WithoutStyleAttrs(nodes[..i])
    {
      var n := nodes[i];
      if n.Element? {
        var children := RemoveStyleAttributes(n.children);
        n := Element(n.tag, RemoveAttr(n.attrs, "style"), children);
      }
      assert nodes[..i + 1] == nodes[..i] + [nodes[i]];
      WithoutStyleAttrsAppend(nodes[..i], [nodes[i]]);
      r := r + [n];
      i := i + 1;
    }
    assert nodes[..i] == nodes;
  }

  /** The element sweep: a `style` element leaves with its whole subtree. */
  method RemoveStyleElements(nodes: seq<Node>) returns (r: seq<Node>)
    ensures r == WithoutStyleElements(nodes)
  {
    r := [];
    var i := 0;
    while i < |nodes|
      invariant 0 <= i <= |nodes|
      invariant r == WithoutStyleElements(nodes[..i])
    {
      var n := nodes[i];
      assert nodes[..i + 1] == nodes[..i] + [nodes[i]];
      WithoutStyleElementsAppend(nodes[..i], [nodes[i]]);
      if n.Element? && n.tag == "style" {
        // removed
      } else if n.Element? {
        var children := RemoveStyleElements(n.children);
        r := r + [Element(n.tag, n.attrs, children)];
      } else {
        r := r + [n];
      }
      i := i + 1;
    }
    assert nodes[..i] == nodes;
  }

  // ---------------------------------------------------------------------
  // What the sweeps guarantee
  // ---------------------------------------------------------------------

  /** After the attribute sweep no element has a `style` attribute. */
  lemma {:induction false} NoStyleAttrsLeft(nodes: seq<Node>)
    ensures AllElements(WithoutStyleAttrs(nodes), NoStyleAttr)
  {
    var r := WithoutStyleAttrs(nodes);
    forall k | 0 <= k < |r| && r[k].Element?
      ensures NoStyleAttr(r[k].tag, r[k].attrs) && AllElements(r[k].children, NoStyleAttr)
    {
      WithoutStyleAttrsAppend(nodes[..k], nodes[k..]);
      assert nodes == nodes[..k] + nodes[k..];
      assert r[k] == WithoutStyleAttrs(nodes[k..])[0];
      assert nodes[k..][0] == nodes[k];
      NoStyleAttrsLeft(nodes[k].children);
    }
  }

  /** The attribute sweep changes nothing but attribute lists... */
  lemma {:induction false} WithoutStyleAttrsSkeleton(nodes: seq<Node>)
    ensures Skeleton(WithoutStyleAttrs(nodes)) == Skeleton(nodes)
  {
    if nodes != [] {
      if nodes[0].Element? {
        WithoutStyleAttrsSkeleton(nodes[0].children);
      }
      WithoutStyleAttrsSkeleton(nodes[1..]);
    }
  }

  /** ...and in each of them only the `style` attribute. */
  lemma {:induction false} WithoutStyleAttrsKeepsOthers(nodes: seq<Node>, name: string)
    requires name != "style"
    ensures AllElements(nodes, (t, a) => HasAttr(a, name)) ==> AllElements(WithoutStyleAttrs(nodes), (t, a) => HasAttr(a, name))
  {
    var p := (t: string, a: seq<Attr>) => HasAttr(a, name);
    if AllElements(nodes, p) {
      var r := WithoutStyleAttrs(nodes);
      forall k | 0 <= k < |r| && r[k].Element?
        ensures p(r[k].tag, r[k].attrs) && AllElements(r[k].children, p)
      {
        WithoutStyleAttrsAppend(nodes[..k], nodes[k..]);
        assert nodes == nodes[..k] + nodes[k..];
        assert r[k] == WithoutStyleAttrs(nodes[k..])[0];
        assert nodes[k..][0] == nodes[k];
        var j :| 0 <= j < |nodes[k].attrs| && nodes[k].attrs[j].0 == name;
        assert nodes[k].attrs[j] in RemoveAttr(nodes[k].attrs, "style");
        WithoutStyleAttrsKeepsOthers(nodes[k].children, name);
      }
    }
  }

  /** Node by node: the attribute sweep keeps every node in its place, every
      element keeps its tag, its attributes are exactly its old ones other
      than `style`, and its children are swept the same way; other nodes stay
      as they were. */
  lemma {:induction false} WithoutStyleAttrsAt(nodes: seq<Node>, k: nat)
    requires k < |nodes|
    ensures WithoutStyleAttrs(nodes)[k].Element? <==> nodes[k].Element?
    ensures nodes[k].Element? ==>
      WithoutStyleAttrs(nodes)[k].tag == nodes[k].tag &&
      (forall a :: a in WithoutStyleAttrs(nodes)[k].attrs <==> a in nodes[k].attrs && a.0 != "style") &&
      WithoutStyleAttrs(nodes)[k].children == WithoutStyleAttrs(nodes[k].children)
    ensures !nodes[k].Element? ==> WithoutStyleAttrs(nodes)[k] == nodes[k]
  {
    WithoutStyleAttrsAppend(nodes[..k], nodes[k..]);
    assert nodes == nodes[..k] + nodes[k..];
    assert WithoutStyleAttrs(nodes)[k] == WithoutStyleAttrs(nodes[k..])[0];
    assert nodes[k..][0] == nodes[k];
  }

  /** After the element sweep no `style` element remains. */
  lemma {:induction false} NoStyleElementsLeft(nodes: seq<Node>)
    ensures AllElements(WithoutStyleElements(nodes), NotStyleElement)
  {
    if nodes != [] {
      var head := WithoutStyleElements(nodes[..1]);
      assert nodes == nodes[..1] + nodes[1..];
      WithoutStyleElementsAppend(nodes[..1], nodes[1..]);
      NoStyleElementsLeft(nodes[1..]);
      if nodes[0].Element? {
        NoStyleElementsLeft(nodes[0].children);
      }
      AllElementsAppend(head, WithoutStyleElements(nodes[1..]), NotStyleElement);
    }
  }

  /** The element sweep keeps every property that held of every element. */
  lemma {:induction false} WithoutStyleElementsKeeps(nodes: seq<Node>, p: (string, seq<Attr>) -> bool)
    requires AllElements(nodes, p)
    ensures AllElements(WithoutStyleElements(nodes), p)
  {
    if nodes != [] {
      var head := WithoutStyleElements(nodes[..1]);
      assert nodes == nodes[..1] + nodes[1..];
      WithoutStyleElementsAppend(nodes[..1], nodes[1..]);
      AllElementsAppend(nodes[..1], nodes[1..], p);
      WithoutStyleElementsKeeps(nodes[1..], p);
      if nodes[0].Element? {
        assert nodes[..1][0] == nodes[0];
        WithoutStyleElementsKeeps(nodes[0].children, p);
      }
      AllElementsAppend(head, WithoutStyleElements(nodes[1..]), p);
    }
  }

  /** A tree without `style` elements is left as it is. */
  lemma {:induction false} WithoutStyleElementsFixed(nodes: seq<Node>)
    requires AllElements(nodes, NotStyleElement)
    ensures WithoutStyleElements(nodes) == nodes
  {
    if nodes != [] {
      assert nodes == nodes[..1] + nodes[1..];
      AllElementsAppend(nodes[..1], nodes[1..], NotStyleElement);
      WithoutStyleElementsFixed(nodes[1..]);
      if nodes[0].Element? {
        assert nodes[..1][0] == nodes[0];
        WithoutStyleElementsFixed(nodes[0].children);
      }
    }
  }

  /** After `removeStyles` neither a `style` attribute nor a `style` element
      is left anywhere, and a second run changes nothing. */
  lemma UnstyledClean(nodes: seq<Node>)
    ensures AllElements(Unstyled(nodes), NoStyleAttr)
    ensures AllElements(Unstyled(nodes), NotStyleElement)
    ensures Unstyled(Unstyled(nodes)) == Unstyled(nodes)
  {
    var u := Unstyled(nodes);
    NoStyleAttrsLeft(nodes);
    WithoutStyleElementsKeeps(WithoutStyleAttrs(nodes), NoStyleAttr);
    NoStyleElementsLeft(WithoutStyleAttrs(nodes));
    UnstyledFixed(u);
  }

  /** A tree with neither kind of style is left as it is. */
  lemma {:induction false} UnstyledFixed(nodes: seq<Node>)
    requires AllElements(nodes, NoStyleAttr) && AllElements(nodes, NotStyleElement)
    ensures Unstyled(nodes) == nodes
  {
    WithoutStyleAttrsFixed(nodes);
    WithoutStyleElementsFixed(nodes);
  }

  lemma {:induction false} WithoutStyleAttrsFixed(nodes: seq<Node>)
    requires AllElements(nodes, NoStyleAttr)
    ensures WithoutStyleAttrs(nodes) == nodes
  {
    if nodes != [] {
      assert nodes == nodes[..1] + nodes[1..];
      AllElementsAppend(nodes[..1], nodes[1..], NoStyleAttr);
      WithoutStyleAttrsFixed(nodes[1..]);
      if nodes[0].Element? {
        assert nodes[..1][0] == nodes[0];
        WithoutStyleAttrsFixed(nodes[0].children);
        RemoveAttrAbsent(nodes[0].attrs, "style");
      }
    }
  }

  lemma {:induction false} RemoveAttrAbsent(attrs: seq<Attr>, name: string)
    requires !HasAttr(attrs, name)
    ensures RemoveAttr(attrs, name) == attrs
  {
    if attrs != [] {
      assert attrs[0].0 != name;
      forall k | 0 <= k < |attrs| - 1 ensures attrs[1..][k].0 != name {
        assert attrs[1..][k] == attrs[k + 1];
      }
      RemoveAttrAbsent(attrs[1..], name);
    }
  }
}
