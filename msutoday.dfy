/**
 * `MSUTodayHtmlProcessor.formatHTML`: an article body from MSU Today is
 * adjusted in place and two footer paragraphs are appended.
 *
 * - Every link whose `href`, and every image whose `src`, starts with
 *   `/-/media/` gets the site's origin in front of it.
 * - An image inside a link marks that link's caption: when the element
 *   right after the link (text skipped) is a `div`, the div's class list
 *   gains `line`.
 * - The body's markup is followed by the "Media and Public Relations"
 *   paragraph and the "Read more news" link paragraph.
 */
module MsuToday {
  import opened JsText
  import opened Dom

  const MediaPrefix: string := "/-/media/"
  const SiteOrigin: string := "https://msutoday.msu.edu"
  const CaptionClass: string := "line"

  // ---------------------------------------------------------------------
  // Media addresses
  // ---------------------------------------------------------------------

  /** `v.startsWith('/-/media/') ? 'https://msutoday.msu.edu' + v : v`. */
  function RewriteMediaUrl(v: string): (r: string)
    ensures StartsWith(v, MediaPrefix) ==> r == SiteOrigin + v
    ensures !StartsWith(v, MediaPrefix) ==> r == v
    ensures !StartsWith(r, MediaPrefix)
  {
    if StartsWith(v, MediaPrefix) then
      assert (SiteOrigin + v)[0] == 'h' != MediaPrefix[0];
      SiteOrigin + v
    else v
  }

  /** A rewritten address is rewritten no further. */
  lemma RewriteMediaUrlIdempotent(v: string)
    ensures RewriteMediaUrl(RewriteMediaUrl(v)) == RewriteMediaUrl(v)
  {
  }

  /** The attribute update for one element: a missing attribute (`null`)
      and a value outside the media folder are left alone. */
  function RewriteAttr(attrs: seq<Attr>, name: string): (r: seq<Attr>)
    ensures GetAttr(r, name) == match GetAttr(attrs, name) case Some(v) => Some(RewriteMediaUrl(v)) case None => None
    ensures forall other :: other != name ==> GetAttr(r, other) == GetAttr(attrs, other)
  {
    match GetAttr(attrs, name)
    case Some(v) =>
      if StartsWith(v, MediaPrefix) then
        var r := SetAttr(attrs, name, SiteOrigin + v);
        assert forall other :: other != name ==> GetAttr(r, other) == GetAttr(attrs, other) by {
          forall other | other != name ensures GetAttr(r, other) == GetAttr(attrs, other) {
            SetAttrOthers(attrs, name, SiteOrigin + v, other);
          }
        }
        r
      else attrs
    case None => attrs
  }

  lemma SetAttrTwice(attrs: seq<Attr>, name: string, v: string, w: string)
    ensures SetAttr(SetAttr(attrs, name, v), name, w) == SetAttr(attrs, name, w)
  {
    if attrs != [] && attrs[0].0 != name {
      SetAttrTwice(attrs[1..], name, v, w);
      assert SetAttr(attrs, name, v)[1..] == SetAttr(attrs[1..], name, v);
    }
  }

  lemma SetAttrSame(attrs: seq<Attr>, name: string, v: string)
    requires GetAttr(attrs, name) == Some(v)
    ensures SetAttr(attrs, name, v) == attrs
  {
    if attrs[0].0 != name {
      SetAttrSame(attrs[1..], name, v);
    }
  }

  /** Rewriting an attribute twice is rewriting it once. */
  lemma RewriteAttrIdempotent(attrs: seq<Attr>, name: string)
    ensures RewriteAttr(RewriteAttr(attrs, name), name) == RewriteAttr(attrs, name)
  {
    var r := RewriteAttr(attrs, name);
    match GetAttr(r, name)
    case Some(v) =>
      assert !StartsWith(v, MediaPrefix);
    case None =>
  }

  // ---------------------------------------------------------------------
  // Class lists (`classList.add`)
  // ---------------------------------------------------------------------

  /** The whitespace that separates class names. */
  predicate IsAsciiSpace(c: char) {
    c == ' ' || c == '\t' || c == '\n' || c == '\U{C}' || c == '\r'
  }

  /** A class name: non-empty, without separating whitespace. */
  predicate IsToken(t: string) {
    t != [] && forall k :: 0 <= k < |t| ==> !IsAsciiSpace(t[k])
  }

  predicate AllTokens(ts: seq<string>) {
    forall k :: 0 <= k < |ts| ==> IsToken(ts[k])
  }

  predicate Distinct(ts: seq<string>) {
    forall i, j :: 0 <= i < j < |ts| ==> ts[i] != ts[j]
  }

  /** The names in a `class` value, in order: split at whitespace, empty
      pieces dropped. */
  function Tokens(s: string): (ts: seq<string>)
    ensures AllTokens(ts)
  {
    TokensFrom(s, [])
  }

  // `cur` is the name being read.
  function TokensFrom(s: string, cur: string): (ts: seq<string>)
    requires cur == [] || IsToken(cur)
    ensures AllTokens(ts)
  {
    if s == [] then (if cur == [] then [] else [cur])
    else if IsAsciiSpace(s[0]) then (if cur == [] then [] else [cur]) + TokensFrom(s[1..], [])
    else TokensFrom(s[1..], cur + [s[0]])
  }

  /** The ordered set of names: each kept at its first occurrence. */
  function Dedupe(ts: seq<string>): (r: seq<string>)
    ensures Distinct(r)
    ensures forall t :: t in r <==> t in ts
    ensures AllTokens(ts) ==> AllTokens(r)
  {
    if ts == [] then []
    else
      var d := Dedupe(ts[..|ts| - 1]);
      var last := ts[|ts| - 1];
      assert ts == ts[..|ts| - 1] + [last];
      if last in d then d else d + [last]
  }

  /** The ordered set a class value stands for. */
  function ClassSet(attrs: seq<Attr>): seq<string> {
    match GetAttr(attrs, "class")
    case Some(v) => Dedupe(Tokens(v))
    case None => []
  }

  /** `classList.add(token)`: the token joins the ordered set unless it is
      there, and the set is written back, space-separated. */
  function ClassAdd(attrs: seq<Attr>, token: string): seq<Attr>
    requires IsToken(token)
  {
    var current := ClassSet(attrs);
    var next := if token in current then current else current + [token];
    SetAttr(attrs, "class", Join(next, ' '))
  }

  lemma {:induction false} TokensFromWord(w: string, rest: string, cur: string)
    requires cur == [] || IsToken(cur)
    requires forall k :: 0 <= k < |w| ==> !IsAsciiSpace(w[k])
    ensures cur + w == [] || IsToken(cur + w)
    ensures TokensFrom(w + rest, cur) == TokensFrom(rest, cur + w)
    decreases |w|
  {
    if w != [] {
      assert (w + rest)[0] == w[0];
      assert (w + rest)[1..] == w[1..] + rest;
      assert cur + w == (cur + [w[0]]) + w[1..];
      TokensFromWord(w[1..], rest, cur + [w[0]]);
    } else {
      assert w + rest == rest;
      assert cur + w == cur;
    }
  }

  /** Reading back a space-separated list of names gives the list. */
  lemma {:induction false} TokensJoin(ts: seq<string>)
    requires AllTokens(ts)
    ensures Tokens(Join(ts, ' ')) == ts
  {
    if |ts| == 1 {
      TokensFromWord(ts[0], [], []);
      assert ts[0] + [] == ts[0];
      assert [] + ts[0] == ts[0];
      assert Join(ts, ' ') == ts[0];
      assert ts[0] != [];
      assert TokensFrom([], ts[0]) == [ts[0]];
      assert ts == [ts[0]];
    } else if |ts| > 1 {
      var rest := Join(ts[1..], ' ');
      assert Join(ts, ' ') == ts[0] + ([' '] + rest);
      TokensFromWord(ts[0], [' '] + rest, []);
      assert ([' '] + rest)[1..] == rest;
      assert [] + ts[0] == ts[0];
      TokensJoin(ts[1..]);
      assert ts == [ts[0]] + ts[1..];
    }
  }

  /** A list without repeats is its own ordered set. */
  lemma {:induction false} DedupeDistinct(ts: seq<string>)
    requires Distinct(ts)
    ensures Dedupe(ts) == ts
  {
    if ts != [] {
      var init := ts[..|ts| - 1];
      DedupeDistinct(init);
      assert ts[|ts| - 1] !in init by {
        forall k | 0 <= k < |init| ensures init[k] != ts[|ts| - 1] {
          assert init[k] == ts[k];
        }
      }
      assert ts == init + [ts[|ts| - 1]];
    }
  }

  /** After `add` the token is in the class list, and so is every name that
      was there before. */
  lemma ClassAddSpec(attrs: seq<Attr>, token: string)
    requires IsToken(token)
    ensures token in ClassSet(ClassAdd(attrs, token))
    ensures forall t :: t in ClassSet(attrs) ==> t in ClassSet(ClassAdd(attrs, token))
    ensures forall t :: t in ClassSet(ClassAdd(attrs, token)) ==> t == token || t in ClassSet(attrs)
  {
    AddedSet(attrs, token);
  }

  // The set `add` writes, and how it reads back.
  lemma AddedSet(attrs: seq<Attr>, token: string)
    requires IsToken(token)
    ensures var current := ClassSet(attrs);
      var next := if token in current then current else current + [token];
      ClassSet(ClassAdd(attrs, token)) == next && token in next
  {
    var current := ClassSet(attrs);
    var next := if token in current then current else current + [token];
    assert AllTokens(next);
    assert Distinct(next);
    TokensJoin(next);
    DedupeDistinct(next);
  }

  /** Adding the class a second time changes nothing. */
  lemma ClassAddIdempotent(attrs: seq<Attr>, token: string)
    requires IsToken(token)
    ensures ClassAdd(ClassAdd(attrs, token), token) == ClassAdd(attrs, token)
  {
    AddedSet(attrs, token);
    var once := ClassAdd(attrs, token);
    var next := ClassSet(once);
    assert token in next;
    SetAttrSame(once, "class", Join(next, ' '));
  }

  // ---------------------------------------------------------------------
  // The tree passes
  // ---------------------------------------------------------------------

  /** The first loop: every link's `href` rewritten. */
  function WithLinks(nodes: seq<Node>): (r: seq<Node>)
    ensures |r| == |nodes|
  {
    if nodes == [] then []
    else
      [match nodes[0]
       case Element(tag, attrs, children) =>
         Element(tag, if tag == "a" then RewriteAttr(attrs, "href") else attrs, WithLinks(children))
       case other => other]
      + WithLinks(nodes[1..])
  }

  /** Some image below has no link between it and these nodes' parent:
      from such an image, `closest('a')` reaches past them. */
  predicate OwnImage(nodes: seq<Node>) {
    nodes != [] &&
    ((nodes[0].Element? && (nodes[0].tag == "img" || (nodes[0].tag != "a" && OwnImage(nodes[0].children))))
     || OwnImage(nodes[1..]))
  }

  /** A link that some image's `closest('a')` finds. */
  predicate IsImageLink(n: Node) {
    n.Element? && n.tag == "a" && OwnImage(n.children)
  }

  /** The element sibling just before `nodes[i]`, text skipped, is an
      image link: `nodes[i]` is that link's `nextElementSibling`. */
  predicate AfterImageLink(nodes: seq<Node>, i: nat)
    requires i <= |nodes|
  {
    i > 0 && (if nodes[i - 1].Element? then IsImageLink(nodes[i - 1]) else AfterImageLink(nodes, i - 1))
  }

  /** The second loop's change to one element: an image's `src` rewritten,
      a caption `div` given the `line` class. */
  function ImageAttrs(tag: string, attrs: seq<Attr>, caption: bool): seq<Attr> {
    var a := if tag == "img" then RewriteAttr(attrs, "src") else attrs;
    if tag == "div" && caption then ClassAdd(a, CaptionClass) else a
  }

  /** The second loop: `after` says whether the element sibling before
      `nodes` is an image link. */
  function WithImagesFrom(nodes: seq<Node>, after: bool): (r: seq<Node>)
    ensures |r| == |nodes|
  {
    if nodes == [] then []
    else
      match nodes[0]
      case Element(tag, attrs, children) =>
        [Element(tag, ImageAttrs(tag, attrs, after), WithImagesFrom(children, false))]
        + WithImagesFrom(nodes[1..], IsImageLink(nodes[0]))
      case other => [other] + WithImagesFrom(nodes[1..], after)
  }

  function WithImages(nodes: seq<Node>): seq<Node> {
    WithImagesFrom(nodes, false)
  }

  /** The tree `formatHTML` leaves before the footers. */
  function Adjusted(nodes: seq<Node>): seq<Node> {
    WithImages(WithLinks(nodes))
  }

  lemma {:induction false} WithLinksAppend(a: seq<Node>, b: seq<Node>)
    ensures WithLinks(a + b) == WithLinks(a) + WithLinks(b)
  {
    if a == [] {
      assert a + b == b;
    } else {
      assert (a + b)[0] == a[0];
      assert (a + b)[1..] == a[1..] + b;
      WithLinksAppend(a[1..], b);
    }
  }

  /** The first loop over one child list, below each element. */
  method RewriteLinks(nodes: seq<Node>) returns (r: seq<Node>)
    ensures r == WithLinks(nodes)
  {
    r := [];
    var i := 0;
    while i < |nodes|
      invariant 0 <= i <= |nodes|
      invariant r == WithLinks(nodes[..i])
    {
      var n := nodes[i];
      assert nodes[..i + 1] == nodes[..i] + [n];
      WithLinksAppend(nodes[..i], [n]);
      assert [n][1..] == [];
      if n.Element? {
        var children := RewriteLinks(n.children);
        var attrs := n.attrs;
        if n.tag == "a" {
          var href := GetAttr(attrs, "href");
          if href.Some? && StartsWith(href.value, MediaPrefix) {
            attrs := SetAttr(attrs, "href", SiteOrigin + href.value);
          }
        }
        n := Element(n.tag, attrs, children);
      }
      r := r + [n];
      i := i + 1;
    }
    assert nodes[..i] == nodes;
  }

  // One step of the second loop: the head of `nodes[i..]` and the flag
  // for the rest.
  lemma WithImagesStep(nodes: seq<Node>, i: nat, after: bool)
    requires i < |nodes|
    ensures nodes[i].Element? ==> (WithImagesFrom(nodes[i..], after) ==
      [Element(nodes[i].tag, ImageAttrs(nodes[i].tag, nodes[i].attrs, after), WithImages(nodes[i].children))]
      + WithImagesFrom(nodes[i + 1..], IsImageLink(nodes[i])))
    ensures !nodes[i].Element? ==> WithImagesFrom(nodes[i..], after) == [nodes[i]] + WithImagesFrom(nodes[i + 1..], after)
    ensures AfterImageLink(nodes, i + 1) == if nodes[i].Element? then IsImageLink(nodes[i]) else AfterImageLink(nodes, i)
  {
    assert nodes[i..][0] == nodes[i] && nodes[i..][1..] == nodes[i + 1..];
  }

  /** The second loop over one child list: `afterLink` carries whether the
      last element seen is an image link, so that its next element sibling
      is recognised as the caption. */
  method RewriteImages(nodes: seq<Node>) returns (r: seq<Node>)
    ensures r == WithImages(nodes)
    decreases nodes, 1
  {
    r := [];
    var afterLink := false;
    var i := 0;
    while i < |nodes|
      invariant 0 <= i <= |nodes|
      invariant afterLink == AfterImageLink(nodes, i)
      invariant WithImages(nodes) == r + WithImagesFrom(nodes[i..], afterLink)
    {
      var x, after := RewriteImageAt(nodes, i, afterLink);
      ghost var tail := WithImagesFrom(nodes[i + 1..], after);
      AppendAssoc(r, [x], tail);
      r := r + [x];
      afterLink := after;
      i := i + 1;
    }
    assert nodes[i..] == [];
  }

  /** The second loop's body at index `i`. */
  method RewriteImageAt(nodes: seq<Node>, i: nat, afterLink: bool) returns (x: Node, after: bool)
    requires i < |nodes| && afterLink == AfterImageLink(nodes, i)
    ensures after == AfterImageLink(nodes, i + 1)
    ensures WithImagesFrom(nodes[i..], afterLink) == [x] + WithImagesFrom(nodes[i + 1..], after)
    decreases nodes, 0
  {
    var n := nodes[i];
    WithImagesStep(nodes, i, afterLink);
    if n.Element? {
      x := RewriteImageElement(n, afterLink);
      after := IsImageLink(n);
    } else {
      x := n;
      after := afterLink;
    }
  }

  /** One element of the second loop: its image source, its caption class,
      then the same loop below it. */
  method RewriteImageElement(n: Node, afterLink: bool) returns (e: Node)
    requires n.Element?
    ensures e == Element(n.tag, ImageAttrs(n.tag, n.attrs, afterLink), WithImages(n.children))
    decreases n.children, 2
  {
    var children := RewriteImages(n.children);
    var attrs := n.attrs;
    if n.tag == "img" {
      var src := GetAttr(attrs, "src");
      if src.Some? && StartsWith(src.value, MediaPrefix) {
        attrs := SetAttr(attrs, "src", SiteOrigin + src.value);
      }
    }
    if n.tag == "div" && afterLink {
      attrs := ClassAdd(attrs, CaptionClass);
    }
    e := Element(n.tag, attrs, children);
  }

  // ---------------------------------------------------------------------
  // The footers and the whole function
  // ---------------------------------------------------------------------

  const MediaMarkup: string :=
    "<em>MSU College of Engineering <a href=\"~/link.aspx?_id=CEB8C1366CA24A32A44EB82A0C39FCCF&_z=z\">Media and Public Relations page</a></em>"
  const ReadMoreMarkup: string := "<a href=\"/news-events/news\" class=\"cta\">Read more news</a>"

  /** A `p` whose `innerHTML` was assigned `markup`. */
  function FooterParagraph(markup: string): Node {
    Element("p", [], [Raw(markup)])
  }

  /** What `formatHTML` returns for a body. */
  function Formatted(body: seq<Node>): string {
    Serialize(Adjusted(body) + [FooterParagraph(MediaMarkup), FooterParagraph(ReadMoreMarkup)])
  }

  /** `formatHTML`: the two loops over the body, then a container holding
      the body with the two footers appended. */
  method FormatHtml(body: seq<Node>) returns (html: string)
    ensures html == Formatted(body)
  {
    var tree := RewriteLinks(body);
    tree := RewriteImages(tree);
    var container := new Container(tree);
    container.children := container.children + [FooterParagraph(MediaMarkup)];
    container.children := container.children + [FooterParagraph(ReadMoreMarkup)];
    assert container.children == Adjusted(body) + [FooterParagraph(MediaMarkup), FooterParagraph(ReadMoreMarkup)];
    html := container.InnerHtml();
  }

  // ---------------------------------------------------------------------
  // What `formatHTML` guarantees
  // ---------------------------------------------------------------------

  /** The output is the adjusted body's markup followed by the two footer
      paragraphs, media first. */
  lemma FormattedFooters(body: seq<Node>)
    ensures Formatted(body) ==
      Serialize(Adjusted(body)) + ("<p>" + MediaMarkup + "</p>") + ("<p>" + ReadMoreMarkup + "</p>")
  {
    var m := FooterParagraph(MediaMarkup);
    var l := FooterParagraph(ReadMoreMarkup);
    SerializeAppend(Adjusted(body), [m, l]);
    assert [m, l] == [m] + [l];
    SerializeCons(m, [l]);
    SerializeSingle(l);
    FooterMarkup(MediaMarkup);
    FooterMarkup(ReadMoreMarkup);
    AppendAssoc(Serialize(Adjusted(body)), OuterHtml(m), OuterHtml(l));
  }

  lemma FooterMarkup(markup: string)
    ensures OuterHtml(FooterParagraph(markup)) == "<p>" + markup + "</p>"
  {
    SerializeSingle(Raw(markup));
    assert "p" !in VoidTags;
    assert StartTag("p", []) == "<p>";
  }

  /** The passes move, add and remove nothing: with attributes erased the
      tree is the one given. */
  lemma {:induction false} AdjustedSkeleton(nodes: seq<Node>)
    ensures Skeleton(Adjusted(nodes)) == Skeleton(nodes)
  {
    WithLinksSkeleton(nodes);
    WithImagesSkeleton(WithLinks(nodes), false);
  }

  lemma {:induction false} WithLinksSkeleton(nodes: seq<Node>)
    ensures Skeleton(WithLinks(nodes)) == Skeleton(nodes)
  {
    if nodes != [] {
      if nodes[0].Element? {
        WithLinksSkeleton(nodes[0].children);
      }
      WithLinksSkeleton(nodes[1..]);
    }
  }

  lemma {:induction false} WithImagesSkeleton(nodes: seq<Node>, after: bool)
    ensures Skeleton(WithImagesFrom(nodes, after)) == Skeleton(nodes)
  {
    if nodes != [] {
      if nodes[0].Element? {
        WithImagesSkeleton(nodes[0].children, false);
        WithImagesSkeleton(nodes[1..], IsImageLink(nodes[0]));
      } else {
        WithImagesSkeleton(nodes[1..], after);
      }
    }
  }

  /** The tree with each element's attributes cut down to the one named. */
  function AttrView(nodes: seq<Node>, name: string): (r: seq<Node>)
    ensures |r| == |nodes|
  {
    if nodes == [] then []
    else
      [match nodes[0]
       case Element(tag, attrs, children) =>
         Element(tag, match GetAttr(attrs, name) case Some(v) => [(name, v)] case None => [], AttrView(children, name))
       case other => other]
      + AttrView(nodes[1..], name)
  }

  /** Only `href`, `src` and `class` values change: every other attribute
      of every element reads as before. */
  lemma AdjustedOtherAttrs(nodes: seq<Node>, name: string)
    requires name != "href" && name != "src" && name != "class"
    ensures AttrView(Adjusted(nodes), name) == AttrView(nodes, name)
  {
    WithLinksAttrView(nodes, name);
    WithImagesAttrView(WithLinks(nodes), false, name);
  }

  lemma {:induction false} WithLinksAttrView(nodes: seq<Node>, name: string)
    requires name != "href"
    ensures AttrView(WithLinks(nodes), name) == AttrView(nodes, name)
  {
    if nodes != [] {
      if nodes[0].Element? {
        WithLinksAttrView(nodes[0].children, name);
      }
      WithLinksAttrView(nodes[1..], name);
    }
  }

  lemma {:induction false} WithImagesAttrView(nodes: seq<Node>, after: bool, name: string)
    requires name != "src" && name != "class"
    ensures AttrView(WithImagesFrom(nodes, after), name) == AttrView(nodes, name)
  {
    if nodes != [] {
      match nodes[0]
      case Element(tag, attrs, children) =>
        WithImagesAttrView(children, false, name);
        WithImagesAttrView(nodes[1..], IsImageLink(nodes[0]), name);
        ImageAttrsOthers(tag, attrs, after, name);
      case _ =>
        WithImagesAttrView(nodes[1..], after, name);
    }
  }

  lemma ImageAttrsOthers(tag: string, attrs: seq<Attr>, caption: bool, name: string)
    requires name != "src" && name != "class"
    ensures GetAttr(ImageAttrs(tag, attrs, caption), name) == GetAttr(attrs, name)
  {
    var a := if tag == "img" then RewriteAttr(attrs, "src") else attrs;
    if tag == "div" && caption {
      AddedSet(a, CaptionClass);
      SetAttrOthers(a, "class", Join(ClassSet(ClassAdd(a, CaptionClass)), ' '), name);
    }
  }

  /** A caption is marked exactly when it follows an image link: a `div`
      right after one has `line` among its classes; any other element keeps
      its class attribute. */
  lemma CaptionMarked(tag: string, attrs: seq<Attr>, caption: bool)
    ensures tag == "div" && caption ==> CaptionClass in ClassSet(ImageAttrs(tag, attrs, caption))
    ensures !(tag == "div" && caption) ==> GetAttr(ImageAttrs(tag, attrs, caption), "class") == GetAttr(attrs, "class")
  {
    var a := if tag == "img" then RewriteAttr(attrs, "src") else attrs;
    if tag == "div" && caption {
      AddedSet(a, CaptionClass);
    }
  }
}
