# HTML clean-up for the Sitecore editor, modelled in Dafny

The browser extension takes HTML copied from a word processor or an e-mail and
turns it into markup the college's Sitecore pages accept. `HtmlProcessor.process`
does this in five stages on a detached `div`, in this order:

1. remove every `style` attribute and every `style` element;
2. unwrap elements whose tag is not allowed, and rebuild allowed ones
   without attributes, except a link's `href`, which is cleared of its
   `urldefense.com` wrapper;
3. turn blank lines of the markup into paragraph boundaries, then clean each
   paragraph (empty `strong`/`em` pairs dropped, whitespace collapsed,
   trimmed) or remove it when no text is left;
4. group paragraphs that start with bullet characters into `<ul>` lists;
5. append the configured "Read more news" link paragraph.

The resulting markup is then laid out one tag per line with two-space
indentation (`formatHTML`). The extension also formats MSU Today articles with
`MSUTodayHtmlProcessor.formatHTML`:

- media addresses become absolute;
- the `div` caption after an image link gets the `line` class;
- two footer paragraphs are appended.

The model is a tree of nodes (`Dom.Node`): elements with a tag, attributes and
children; text; and `Raw` markup, which stands for a string assigned to
`innerHTML`. The container is a class (`Dom.Container`) whose child list the
stages reassign. Each stage is a method proved equal to a specification
function. Lemmas then state what the stages guarantee:

- no style is left;
- only allowed tags and `href` remain;
- cleaning is idempotent;
- text is kept;
- every kept paragraph has text and normalised markup;
- bullet grouping writes every child once, in order, and is the unique grouping with that shape;
- the layout adds and removes nothing but whitespace;
- only `href`, `src` and `class` change in an MSU Today body.

The modules:

- `Config`: the tag allow-list and the footer link.
- `JsText`: JavaScript's `\s`, `trim` and `split`/`join`.
- `Dom`: nodes, attributes and serialisation.
- `UrlDefense`: `parseUrl`.
- `StyleStripper`, `TagFilter`, `Paragraphs` and `Bullets`: the four rewriting stages.
- `PrettyPrinter`: `formatHTML`.
- `HtmlProcessor`: the stages on the container, and `process`.
- `MsuToday`: `MSUTodayHtmlProcessor.formatHTML`.

Behaviour of the code that the model keeps:

- **`<br>` never splits a paragraph.** `br` is not an allowed tag (modules/config.js:63), so the filter unwraps every `<br>` element before `formatParagraphs` runs. Its `<br>` replacement (modules/htmlProcessor.js:158) never matches, and only blank lines become paragraph boundaries.

- **An existing `ul` while a list is open.** `convertBulletsToLists` does not close the open list when it meets an existing `ul`. The `ul`'s markup is written after the open `<ul>` and before that list's items, so it ends up inside the new list (modules/htmlProcessor.js:46-48).
- **`<p>` on a line of its own.** In `formatHTML`, such a line does not match the opening-line pattern: the pattern needs a character other than `/` before the `>`. So `<p>` opens no level, while a later `</p>` still takes one off (modules/htmlProcessor.js:204-208).
- **Nested empty pairs.** The empty `strong`/`em` pair removal makes one pass. A pair that becomes empty only once an inner pair is removed stays (modules/htmlProcessor.js:166).

## Model

| member | source | states |
|---|---|---|
| HtmlProcessor.Process | modules/htmlProcessor.js:15-26 | the five stages run in order on a fresh container and the container's markup, footer last, is laid out by `formatHTML` |
| HtmlProcessor.RemoveStyles | modules/htmlProcessor.js:78-81 | the container's children become the tree without style attributes and style elements |
| HtmlProcessor.FilterTags | modules/htmlProcessor.js:88-97 | the container's children become the filtered tree |
| HtmlProcessor.FormatParagraphs | modules/htmlProcessor.js:156-176 | the container's children become the re-split tree with every paragraph cleaned or removed |
| HtmlProcessor.ConvertBulletsToLists | modules/htmlProcessor.js:33-71 | the container holds exactly the markup written for the grouped element children |
| HtmlProcessor.AppendReadMoreLink | modules/htmlProcessor.js:183-191 | exactly one node is appended: a `p` holding a link with the configured `href`, then `class`, and text |
| HtmlProcessor.ReadMoreMarkup | modules/htmlProcessor.js:183-191 | the footer serialises as `<p><a href=".." class="..">text</a></p>`, `href` before `class` |
| HtmlProcessor.CleanedSpec | modules/htmlProcessor.js:19-20 | after the two cleaning stages every element has an allowed tag, no attribute but a link's `href`, no style; cleaning again changes nothing |
| HtmlProcessor.CleanedNoLineBreak | modules/htmlProcessor.js:88-97 | `br` is not allowed, so no line-break element is left after the cleaning stages |
| HtmlProcessor.CleanHasNoStyle | modules/htmlProcessor.js:88-97 | an element the filter leaves carries no style |
| HtmlProcessor.CleanedText | modules/htmlProcessor.js:19-20 | the cleaning stages lose no text outside `style` elements |
| HtmlProcessor.ProcessedText | modules/htmlProcessor.js:15-26 | apart from whitespace the output is the grouped body followed by the footer |
| StyleStripper.RemoveStyleAttributes | modules/htmlProcessor.js:79 | the loop over the tree equals the tree without `style` attributes |
| StyleStripper.RemoveStyleElements | modules/htmlProcessor.js:80 | the loop over the tree equals the tree without `style` elements |
| StyleStripper.NoStyleAttrsLeft | modules/htmlProcessor.js:79 | no element keeps a `style` attribute |
| StyleStripper.WithoutStyleAttrsSkeleton | modules/htmlProcessor.js:79 | removing the attribute moves, adds and drops no node |
| StyleStripper.WithoutStyleAttrsAt | modules/htmlProcessor.js:79 | node by node: each element keeps its place and tag, its attributes are exactly its old ones other than `style`, and other nodes are unchanged |
| StyleStripper.WithoutStyleAttrsKeepsOthers | modules/htmlProcessor.js:79 | an attribute other than `style` present on every element stays present on every element |
| StyleStripper.NoStyleElementsLeft | modules/htmlProcessor.js:80 | no `style` element is left at any depth |
| StyleStripper.WithoutStyleElementsKeeps | modules/htmlProcessor.js:80 | a property every element has still holds of every remaining element |
| StyleStripper.WithoutStyleElementsFixed | modules/htmlProcessor.js:80 | a tree without `style` elements is unchanged |
| StyleStripper.WithoutStyleAttrsFixed | modules/htmlProcessor.js:79 | a tree without `style` attributes is unchanged |
| StyleStripper.UnstyledClean | modules/htmlProcessor.js:78-81 | after both removals neither a `style` attribute nor a `style` element is left |
| StyleStripper.UnstyledFixed | modules/htmlProcessor.js:78-81 | a style-free tree is a fixed point of the stage |
| StyleStripper.RemoveAttrAbsent | modules/htmlProcessor.js:79 | removing an absent attribute changes nothing |
| TagFilter.FilterTags | modules/htmlProcessor.js:88-97 | the document-order walk that unwraps or rebuilds each element yields the filtered tree |
| TagFilter.UnwrapElement | modules/htmlProcessor.js:104-110 | the element's children take its place among its siblings, in order |
| TagFilter.UnwrapStep | modules/htmlProcessor.js:104-110 | siblings before the element are untouched and its children are followed by the siblings after it |
| TagFilter.PreserveElement | modules/htmlProcessor.js:136-149 | only the element at the index changes; it keeps its tag and children and gets the preserved attributes |
| TagFilter.PreservedAttrs | modules/htmlProcessor.js:136-144 | a rebuilt element has no attribute, except a link with a non-empty `href`, which gets the unwrapped `href`, and only then |
| TagFilter.FilteredClean | modules/htmlProcessor.js:88-97 | every element left has an allowed tag and at most a link's `href` |
| TagFilter.FilteredText | modules/htmlProcessor.js:88-110 | unwrapping and rebuilding keep the text content |
| TagFilter.PreservedAttrsIdempotent | modules/htmlProcessor.js:136-144 | rebuilding a rebuilt element changes nothing |
| TagFilter.FilteredIdempotent | modules/htmlProcessor.js:88-97 | filtering a filtered tree changes nothing |
| UrlDefense.ParseUrl | modules/htmlProcessor.js:118-127 | an empty URL is returned as is; the URL is returned unchanged exactly when no wrapper occurs in it |
| UrlDefense.MatchAtSound | modules/htmlProcessor.js:121-122 | a match found at an index is a wrapper there |
| UrlDefense.MatchAtComplete | modules/htmlProcessor.js:121-122 | a wrapper at an index is found there |
| UrlDefense.WrapperAtUnique | modules/htmlProcessor.js:121 | at most one destination is captured at an index |
| UrlDefense.FirstMatchSpec | modules/htmlProcessor.js:122 | the search finds the leftmost wrapper, or none exists |
| UrlDefense.ParseUrlDestination | modules/htmlProcessor.js:123-124 | the extracted destination has no underscore and occurs in the URL |
| UrlDefense.ParseUrlLeftmost | modules/htmlProcessor.js:122-124 | the result is the destination of the leftmost wrapper |
| UrlDefense.ParseUrlIdempotent | modules/htmlProcessor.js:118-127 | unwrapping an unwrapped URL changes nothing |
| UrlDefense.ParseUrlWrapped | modules/htmlProcessor.js:121-124 | round trip: any destination wrapped by the gateway, with or without a version segment, unwraps to itself |
| UrlDefense.NoUnderscoreNoWrapper | modules/htmlProcessor.js:121 | a string without underscores contains no wrapper |
| Paragraphs.FormatParagraphList | modules/htmlProcessor.js:164-175 | the loop over the paragraphs equals the tree with each paragraph cleaned or removed |
| Paragraphs.CleanParagraph | modules/htmlProcessor.js:165-174 | one paragraph becomes at most one |
| Paragraphs.CleanParagraphSpec | modules/htmlProcessor.js:165-174 | a paragraph is removed exactly when its cleaned markup has no text; a kept one holds that markup, trimmed, collapsed, with text |
| Paragraphs.CleanedMarkupStable | modules/htmlProcessor.js:167-173 | the second collapse-and-trim leaves the cleaned markup unchanged |
| Paragraphs.BlankTrimmed | modules/htmlProcessor.js:169-170 | on trimmed text the three-way blank test is emptiness |
| Paragraphs.CleanParagraphsClean | modules/htmlProcessor.js:164-175 | after the loop every paragraph at any depth has clean markup with text |
| Paragraphs.PairAtSound | modules/htmlProcessor.js:166 | what the pattern removes is an empty `strong` or `em` pair |
| Paragraphs.PairAtComplete | modules/htmlProcessor.js:166 | every empty pair at the front is found, with its full length |
| Paragraphs.RemoveEmptyPairsDrops | modules/htmlProcessor.js:166 | an empty pair is dropped and the scan goes on after it |
| Paragraphs.RemoveEmptyPairsKeeps | modules/htmlProcessor.js:166 | a character that starts no pair is kept |
| Paragraphs.RemoveEmptyPairsNone | modules/htmlProcessor.js:166 | markup without `<` is unchanged |
| Paragraphs.UnescapedLessThan | modules/htmlProcessor.js:165-174 | with text serialised unescaped, the paragraph `<p><3</p>` is judged blank and removed |
| Paragraphs.UnescapedNoBreakSpace | modules/htmlProcessor.js:166-174 | with text serialised unescaped, a leading no-break space of a paragraph is trimmed, where the browser's `&nbsp;` entity is kept |
| Paragraphs.NestedPairNotMatched | modules/htmlProcessor.js:166 | a pair enclosing an empty pair is not itself removed in the same pass |
| JsText.Trim | modules/htmlProcessor.js:168 | the result has no leading or trailing whitespace and is no longer than the input |
| JsText.TrimTrimmed | modules/htmlProcessor.js:168 | trimming trimmed text changes nothing |
| JsText.CollapseSpaces | modules/htmlProcessor.js:167 | the only whitespace left is single spaces, never two adjacent; it is empty only for empty input, and starts or ends with a space only where the input had whitespace |
| JsText.CollapseRunOne | modules/htmlProcessor.js:167 | a whitespace run on its own becomes exactly one space |
| JsText.CollapseAppend | modules/htmlProcessor.js:167 | where no whitespace run crosses the seam, collapsing two pieces is collapsing each: no run is dropped or merged |
| JsText.CollapseKeepsText | modules/htmlProcessor.js:167 | collapsing keeps every non-whitespace character in order |
| JsText.CollapseCollapsed | modules/htmlProcessor.js:173 | collapsing collapsed text changes nothing |
| JsText.JoinSplit | modules/htmlProcessor.js:202-213 | joining the split lines with the separator gives back the text |
| Bullets.ConvertChildren | modules/htmlProcessor.js:33-71 | the loop's markup is the markup of the grouped classified element children |
| Bullets.BulletRun | modules/htmlProcessor.js:34 | the longest prefix of bullet characters |
| Bullets.StripBullet | modules/htmlProcessor.js:54 | exactly the leading bullet characters are removed: what is removed is all bullet characters, what is left is a suffix of the input and starts with no bullet character |
| Bullets.KindOf | modules/htmlProcessor.js:41-49 | a child is a list exactly when its tag is `ul`, and bulleted exactly when it is not a list and its trimmed text starts with a bullet character |
| Bullets.ClassifyElements | modules/htmlProcessor.js:35 | exactly the element children are visited, each once, at its own place in document order; text children are skipped |
| Bullets.GroupBulletsSpec | modules/htmlProcessor.js:40-68 | every child is written exactly once and in order; bulleted children that follow each other share one list, which only a paragraph or the end closes |
| Bullets.GroupBulletsUnique | modules/htmlProcessor.js:40-68 | any well-grouped block sequence of the children is the grouping |
| Bullets.WellGroupedUnique | modules/htmlProcessor.js:40-68 | two well-grouped block sequences with the same children are equal |
| Bullets.ConvertChild | modules/htmlProcessor.js:40-64 | one element child updates `resultHTML`, `listItems` and `inList` exactly as the loop state function steps |
| Bullets.WrittenList | modules/htmlProcessor.js:46-47 | an existing `ul` appends its outer markup and leaves pending items alone |
| Bullets.WrittenBullet | modules/htmlProcessor.js:49-55 | a bulleted child opens `<ul>` only when no list is open and adds one item |
| Bullets.WrittenParagraph | modules/htmlProcessor.js:56-62 | another child closes an open list with its items, then writes a paragraph |
| Bullets.WrittenClose | modules/htmlProcessor.js:66-68 | at the end an open list is closed with its items |
| PrettyPrinter.FormatHtml | modules/htmlProcessor.js:199-214 | the line loop carrying `pad` yields the laid-out lines joined by newlines |
| PrettyPrinter.BreaksText | modules/htmlProcessor.js:200 | breaking between tags changes only whitespace |
| PrettyPrinter.LayoutLine | modules/htmlProcessor.js:202-212 | each line is written after twice its indentation level in spaces, the level being what the lines before it leave |
| PrettyPrinter.PadAtBound | modules/htmlProcessor.js:205-208 | the level never exceeds the number of opening lines seen |
| PrettyPrinter.FormattedText | modules/htmlProcessor.js:199-214 | apart from whitespace the laid-out markup is the input |
| PrettyPrinter.ClosingLinesFlush | modules/htmlProcessor.js:204-205 | a line with a closing tag is written without indentation |
| PrettyPrinter.LineExamples | modules/htmlProcessor.js:204-208 | `<ul>` opens a level, `<p>` opens none, `</p>` closes one, `<li>a</li>` is flush |
| MsuToday.FormatHtml | modules/msutoday.js:17-75 | the output is the adjusted body's markup followed by the two footer paragraphs |
| MsuToday.RewriteLinks | modules/msutoday.js:23-29 | the loop over the links equals the tree with every link's media `href` made absolute |
| MsuToday.RewriteImages | modules/msutoday.js:32-57 | the loop over the images, carrying whether the last element was an image link, equals the tree with sources rewritten and captions marked |
| MsuToday.RewriteImageElement | modules/msutoday.js:33-55 | one element gets its source rewritten if an image and the `line` class if a caption `div` |
| MsuToday.RewriteMediaUrl | modules/msutoday.js:26-27 | a media path gets the site's origin in front, anything else is kept, and the result is no media path |
| MsuToday.RewriteMediaUrlIdempotent | modules/msutoday.js:26-27 | an absolute address is not rewritten again |
| MsuToday.RewriteAttr | modules/msutoday.js:25-28 | the named attribute reads as its rewritten value, a missing one stays missing, and every other attribute reads as before |
| MsuToday.RewriteAttrIdempotent | modules/msutoday.js:25-28 | rewriting twice is rewriting once |
| MsuToday.TokensJoin | modules/msutoday.js:53 | a class list written space-separated reads back as the same list |
| MsuToday.ClassAddSpec | modules/msutoday.js:53 | after `classList.add` the token is present, every earlier class stays, and nothing else is added |
| MsuToday.ClassAddIdempotent | modules/msutoday.js:53 | adding the caption class again, once per image in the same link, changes nothing |
| MsuToday.CaptionMarked | modules/msutoday.js:48-55 | a `div` right after an image link has the `line` class; no other element's class attribute changes |
| MsuToday.RewriteImageAt | modules/msutoday.js:32-57 | one step of the image loop produces the rewritten node and the new "after an image link" flag |
| MsuToday.FormattedFooters | modules/msutoday.js:63-74 | the media paragraph and then the "Read more news" paragraph follow the body |
| MsuToday.AdjustedSkeleton | modules/msutoday.js:22-57 | the passes move, add and remove no node |
| MsuToday.AdjustedOtherAttrs | modules/msutoday.js:22-57 | every attribute other than `href`, `src` and `class` reads as before on every element |

## Left out

- Parsing: the browser's HTML parser is not modelled. `process` and `formatHTML` take the parsed tree.
- Re-parsing: when `formatParagraphs` re-reads its rewritten markup (modules/htmlProcessor.js:157-162), the result is the function parameter `split`. The model does not state how blank lines become paragraph boundaries; no `<br>` is left to be replaced at that point (HtmlProcessor.CleanedNoLineBreak). Because `split` is not constrained, the allowed-tags and `href`-only properties (HtmlProcessor.CleanedSpec) are proved up to the end of the two cleaning stages, not for the final output of `process`.
- `Raw` markup: a string assigned to `innerHTML` (cleaned paragraphs, the list markup, the footers) stays a `Raw` string and is not parsed into elements. `TextContent` of such markup removes tags but does not decode entities.
- Serialisation: a void element is written as its start tag alone, as the browser does. Attribute values and text are written without entity escaping. The browser writes `&` as `&amp;` and a no-break space (U+00A0) as `&nbsp;` in both text and attribute values; it writes `"` as `&quot;` only in attribute values, and `<` and `>` as `&lt;` and `&gt;` only in text.
- Unescaped text: because of this, a literal `<` in text is read as the start of a tag when a paragraph's text is taken from its markup. The model removes the paragraph `<p><3</p>` (Paragraphs.UnescapedLessThan), where the browser keeps it. The same difference reaches the bullet test, which reads the text of a cleaned paragraph from its markup.
- Unescaped no-break space: in the browser, the whitespace collapse and `trim` of `formatParagraphs` (modules/htmlProcessor.js:166-173) see the entity `&nbsp;`, not a U+00A0 character, so they never collapse or trim a no-break space. The model's markup holds the character itself, which counts as whitespace. So the model turns `<p>a&nbsp;&nbsp;b</p>` into `<p>a b</p>` and `<p>&nbsp;x</p>` into `<p>x</p>` (Paragraphs.UnescapedNoBreakSpace), where the browser keeps both unchanged. The bullet strip on a child's markup (modules/htmlProcessor.js:41,54) likewise sees U+00A0 where the browser's markup starts with `&nbsp;`.
- Top-level text: `convertBulletsToLists` reads `container.children`, which holds only elements. Top-level text nodes are dropped, as in the code.
- Letter case: tags are compared in lower case, as `tagName.toLowerCase()` gives them. The MSU Today test `tagName === 'DIV'` becomes a test for `div`.
- MSU Today re-parse: copying `doc.body.innerHTML` into a fresh container is taken as giving back the same tree. What the parser moves into `head` is not modelled.
- MsuToday.ClassAdd: `classList.add` throws for an empty token or one containing whitespace; the model requires a valid token instead, and the code only passes `line`.
- Logging: the `console.log` calls in modules/msutoday.js are output only and are left out.
- The other modules: the clipboard, the notification and UI modules, the URL generator and `MSUTodayArticleProcessor` are I/O around the core. `processAndCopy` is not part of this model.
