/**
 * The fixed configuration the sanitiser reads: the tag allow-list and the
 * "Read more" footer link (modules/config.js).
 */
module Config {

  /** `Config.ALLOWED_TAGS`: the only tags that survive `filterTags`. */
  const AllowedTags: seq<string> := ["p", "a", "em", "strong", "ul", "li", "ol", "h3", "h4", "h5", "h6"]

  /** `Config.READ_MORE_LINK`. */
  const ReadMoreHref: string := "/news-events/news"
  const ReadMoreClass: string := "cta"
  const ReadMoreText: string := "Read more news"
}
