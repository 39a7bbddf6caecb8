/**
 * `HtmlProcessor.process`: the copied markup is parsed into a detached
 * container, which five stages rewrite in place, in this order:
 *
 * 1. `removeStyles`      — no `style` attribute, no `style` element;
 * 2. `filterTags`        — only allowed tags, only `href` on links;
 * 3. `formatParagraphs`  — blank-line paragraphs, cleaned or dropped;
 * 4. `convertBulletsToLists` — bulleted paragraphs grouped into lists;
 * 5. `appendReadMoreLink` — the configured "Read more" paragraph last;
 *
 * and the container's markup is then laid out by `formatHTML`.
 *
 * The browser parses the input string and, inside `formatParagraphs`, the
 * markup rewritten at line breaks; the model receives the first parse as
 * the container's children and the second as the function `split`.
 */
module HtmlProcessor {
  import opened Dom
  import opened JsText
  import opened Config
  import StyleStripper
  import TagFilter
  import Paragraphs
  import Bullets
  import PrettyPrinter

  // ---------------------------------------------------------------------
  // The stages, on the container
  // ---------------------------------------------------------------------

  method RemoveStyles(c: Container)
    modifies c
    ensures c.children == StyleStripper.Unstyled(old(c.children))
  {
    var r := StyleStripper.RemoveStyleAttributes(c.children);
    c.children := r;
    r := StyleStripper.RemoveStyleElements(c.children);
    c.children := r;
  }

  method FilterTags(c: Container)
    modifies c
    ensures c.children == TagFilter.Filtered(old(c.children))
  {
    var r := TagFilter.FilterTags(c.children);
    c.children := r;
  }

  /** `split` is what the browser makes of the container's markup once
      each line break has become a paragraph boundary. */
  method FormatParagraphs(c: Container, split: seq<Node> -> seq<Node>)
    modifies c
    ensures c.children == Paragraphs.CleanParagraphs(split(old(c.children)))
  {
    c.children := split(c.children);
    var r := Paragraphs.FormatParagraphList(c.children);
    c.children := r;
  }

  method ConvertBulletsToLists(c: Container)
    modifies c
    ensures c.children == [Raw(Bullets.Markup(Bullets.GroupBullets(Bullets.Classify(old(c.children)))))]
  {
    var html := Bullets.ConvertChildren(c.children);
    c.children := [Raw(html)];
  }

  /** The footer: a paragraph holding the configured link. */
  function ReadMoreParagraph(): Node {
    Element("p", [], [Element("a", [("href", ReadMoreHref), ("class", ReadMoreClass)], [Raw(ReadMoreText)])])
  }

  method AppendReadMoreLink(c: Container)
    modifies c
    ensures c.children == old(c.children) + [ReadMoreParagraph()]
  {
    var a := Element("a", [], []);
    a := a.(attrs := SetAttr(a.attrs, "href", ReadMoreHref));
    assert a.attrs == [("href", ReadMoreHref)];
    assert "href"[0] != "class"[0];
    a := a.(attrs := SetAttr(a.attrs, "class", ReadMoreClass));
    assert SetAttr([], "class", ReadMoreClass) == [("class", ReadMoreClass)];
    assert a.attrs == [("href", ReadMoreHref)] + [("class", ReadMoreClass)];
    a := a.(children := [Raw(ReadMoreText)]);
    var p := Element("p", [], [a]);
    assert a == Element("a", [("href", ReadMoreHref), ("class", ReadMoreClass)], [Raw(ReadMoreText)]);
    assert p == ReadMoreParagraph();
    c.children := c.children + [p];
  }

  // ---------------------------------------------------------------------
  // The whole pipeline
  // ---------------------------------------------------------------------

  /** The tree after the two cleaning stages. */
  function Cleaned(nodes: seq<Node>): seq<Node> {
    TagFilter.Filtered(StyleStripper.Unstyled(nodes))
  }

  /** The container's markup before the footer: the grouped blocks. */
  function Body(nodes: seq<Node>, split: seq<Node> -> seq<Node>): string {
    Bullets.Markup(Bullets.GroupBullets(Bullets.Classify(Paragraphs.CleanParagraphs(split(Cleaned(nodes))))))
  }

  /** What `process` returns. */
  function Processed(nodes: seq<Node>, split: seq<Node> -> seq<Node>): string {
    PrettyPrinter.Formatted(Body(nodes, split) + OuterHtml(ReadMoreParagraph()))
  }

  /** `process`: the stages in order on a fresh container, then the
      layout of its markup. */
  method Process(nodes: seq<Node>, split: seq<Node> -> seq<Node>) returns (r: string)
    ensures r == Processed(nodes, split)
  {
    var c := new Container(nodes);
    RemoveStyles(c);
    FilterTags(c);
    FormatParagraphs(c, split);
    ConvertBulletsToLists(c);
    AppendReadMoreLink(c);
    assert c.children == [Raw(Body(nodes, split))] + [ReadMoreParagraph()];
    var html := c.InnerHtml();
    BodyThenFooter(Body(nodes, split));
    r := PrettyPrinter.FormatHtml(html);
  }

  // The container's markup once the body and the footer are in place.
  lemma BodyThenFooter(body: string)
    ensures Serialize([Raw(body)] + [ReadMoreParagraph()]) == body + OuterHtml(ReadMoreParagraph())
  {
    SerializeCons(Raw(body), [ReadMoreParagraph()]);
    SerializeCons(ReadMoreParagraph(), []);
    assert [ReadMoreParagraph()] + [] == [ReadMoreParagraph()];
  }

  // ---------------------------------------------------------------------
  // What the pipeline guarantees
  // ---------------------------------------------------------------------

  /** A clean element carries no style: its tag is not `style` and its only
      possible attribute is `href`. */
  lemma CleanHasNoStyle(tag: string, attrs: seq<Attr>)
    requires TagFilter.IsClean(tag, attrs)
    ensures StyleStripper.NoStyleAttr(tag, attrs) && StyleStripper.NotStyleElement(tag, attrs)
  {
    if attrs != [] {
      assert attrs == [attrs[0]];
    }
  }

  /** After the cleaning stages every element has an allowed tag, no element
      keeps an attribute other than a link's `href`, and no style is left;
      cleaning a second time changes nothing. */
  lemma CleanedSpec(nodes: seq<Node>)
    ensures AllElements(Cleaned(nodes), TagFilter.IsClean)
    ensures AllElements(Cleaned(nodes), StyleStripper.NoStyleAttr)
    ensures AllElements(Cleaned(nodes), StyleStripper.NotStyleElement)
    ensures Cleaned(Cleaned(nodes)) == Cleaned(nodes)
  {
    var c := Cleaned(nodes);
    TagFilter.FilteredClean(StyleStripper.Unstyled(nodes));
    forall tag, attrs | TagFilter.IsClean(tag, attrs)
      ensures StyleStripper.NoStyleAttr(tag, attrs) && StyleStripper.NotStyleElement(tag, attrs)
    {
      CleanHasNoStyle(tag, attrs);
    }
    AllElementsWeaken(c, TagFilter.IsClean, StyleStripper.NoStyleAttr);
    AllElementsWeaken(c, TagFilter.IsClean, StyleStripper.NotStyleElement);
    StyleStripper.UnstyledFixed(c);
    TagFilter.FilteredIdempotent(StyleStripper.Unstyled(nodes));
  }

  /** The element is not a line break. */
  predicate NotLineBreak(tag: string, attrs: seq<Attr>) {
    tag != "br"
  }

  /** `br` is not an allowed tag, so the filter unwraps every line break:
      none is left in the cleaned tree, and the `<br>` replacement that
      `formatParagraphs` applies to the serialised markup afterwards finds
      no match. */
  lemma CleanedNoLineBreak(nodes: seq<Node>)
    ensures !TagFilter.IsAllowed("br")
    ensures AllElements(Cleaned(nodes), NotLineBreak)
  {
    CleanedSpec(nodes);
    AllElementsWeaken(Cleaned(nodes), TagFilter.IsClean, NotLineBreak);
  }

  /** The cleaning stages lose no text outside `style` elements. */
  lemma CleanedText(nodes: seq<Node>)
    ensures TextContent(Cleaned(nodes)) == TextContent(StyleStripper.Unstyled(nodes))
  {
    TagFilter.FilteredText(StyleStripper.Unstyled(nodes));
  }

  /** The footer's markup: the link, with its `href` and then its `class`,
      alone in a paragraph. */
  lemma ReadMoreMarkup()
    ensures OuterHtml(ReadMoreParagraph()) ==
      StartTag("p", []) + StartTag("a", [("href", ReadMoreHref), ("class", ReadMoreClass)]) + ReadMoreText + EndTag("a") + EndTag("p")
    ensures AttrsMarkup([("href", ReadMoreHref), ("class", ReadMoreClass)]) ==
      " href=\"" + ReadMoreHref + "\"" + (" class=\"" + ReadMoreClass + "\"")
  {
    var a := ReadMoreParagraph().children[0];
    var link := StartTag("a", a.attrs) + ReadMoreText + EndTag("a");
    ReadMoreLink();
    SerializeSingle(a);
    assert "p" !in VoidTags;
    assert OuterHtml(ReadMoreParagraph()) == StartTag("p", []) + link + EndTag("p");
    assert StartTag("p", []) + link == StartTag("p", []) + StartTag("a", a.attrs) + ReadMoreText + EndTag("a");
    ReadMoreAttrs();
  }

  // The link inside the footer.
  lemma ReadMoreLink()
    ensures var a := ReadMoreParagraph().children[0];
      OuterHtml(a) == StartTag("a", a.attrs) + ReadMoreText + EndTag("a")
  {
    SerializeSingle(Raw(ReadMoreText));
    assert "a" !in VoidTags;
  }

  // The link's two attributes, in the order they were set.
  lemma ReadMoreAttrs()
    ensures AttrsMarkup([("href", ReadMoreHref), ("class", ReadMoreClass)]) ==
      " href=\"" + ReadMoreHref + "\"" + (" class=\"" + ReadMoreClass + "\"")
  {
    var attrs := [("href", ReadMoreHref), ("class", ReadMoreClass)];
    assert attrs[1..] == [("class", ReadMoreClass)];
    assert [("class", ReadMoreClass)][1..] == [];
    assert AttrsMarkup([("class", ReadMoreClass)]) == " " + "class" + "=\"" + ReadMoreClass + "\"" + AttrsMarkup([]);
  }

  /** Apart from whitespace, the output is the grouped body followed by the
      footer link: the layout adds no text, removes none, and the footer
      comes last. */
  lemma ProcessedText(nodes: seq<Node>, split: seq<Node> -> seq<Node>)
    ensures NonSpace(Processed(nodes, split)) ==
      NonSpace(Body(nodes, split)) + NonSpace(OuterHtml(ReadMoreParagraph()))
  {
    PrettyPrinter.FormattedText(Body(nodes, split) + OuterHtml(ReadMoreParagraph()));
    NonSpaceAppend(Body(nodes, split), OuterHtml(ReadMoreParagraph()));
  }
}
