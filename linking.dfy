/**
 * `linkLinks` (index.js:69-90) and `linkHashtagsAndMentions` (index.js:92-119).
 *
 * Both hand their work to twitter-text. Its calls are taken as parameters
 * (`TwitterText`), so what is proved here holds whatever the library does:
 * which call is made, on which text, with which entities and options.
 */
module Linking {
  import opened Wrappers

  /** An entity given to `autoLinkEntities`. */
  datatype Entity =
    | UrlEntity(url: string, displayUrl: string, expandedUrl: string, indices: (int, int))
    | MentionEntity(screenName: string, indices: (int, int))
    | HashtagEntity(hashtag: string, indices: (int, int))

  /** The option object handed to twitter-text; an absent property is `None`. */
  datatype AutoLinkOptions = AutoLinkOptions(
    htmlEscapeNonEntities: bool,
    target: string,
    hashtagClass: Option<string>,
    usernameClass: Option<string>,
    usernameIncludeSymbol: bool,
    hashtagUrlBase: Option<string>,
    usernameUrlBase: Option<string>)

  /** The twitter-text calls the module makes. */
  datatype TwitterText = TwitterText(
    autoLinkUrlsCustom: (string, AutoLinkOptions) -> string,
    autoLinkEntities: (string, seq<Entity>, AutoLinkOptions) -> string,
    htmlEscape: string -> string,
    extractMentionsWithIndices: string -> seq<Entity>,
    extractHashtagsWithIndices: string -> seq<Entity>)

  /** A caller's link: `{href, text, description, index}`; a missing description is `None`. */
  datatype LinkDescriptor = LinkDescriptor(href: string, text: string, description: Option<string>, index: (int, int))

  /** The `links` argument: `undefined`, an array of descriptors, or any other value. */
  datatype LinksArgument = Unset | Descriptors(links: seq<LinkDescriptor>) | Other

  /** The fallback of index.js:84-88 and index.js:108-112: the text, HTML-escaped when asked. */
  function EscapedOrPlain(tt: TwitterText, text: string, htmlEscape: bool): (r: string)
    ensures htmlEscape ==> r == tt.htmlEscape(text)
    ensures !htmlEscape ==> r == text
  {
    if htmlEscape then tt.htmlEscape(text) else text
  }

  /** The options of index.js:70-73. */
  function LinkOptions(htmlEscape: bool): (o: AutoLinkOptions)
    ensures o.htmlEscapeNonEntities == htmlEscape && o.target == "_blank"
    ensures o.hashtagUrlBase.None? && o.usernameUrlBase.None? && o.hashtagClass.None? && o.usernameClass.None?
  {
    AutoLinkOptions(htmlEscape, "_blank", None, None, false, None, None)
  }

  /** `link.description || link.href`: an absent or empty description falls back to the href. */
  function ExpandedUrl(link: LinkDescriptor): (u: string)
    ensures link.description.Some? && link.description.value != "" ==> u == link.description.value
    ensures link.description.None? || link.description.value == "" ==> u == link.href
  {
    match link.description
    case Some(d) => if d != "" then d else link.href
    case None => link.href
  }

  /** The `links.map` of index.js:79-81. */
  function ToEntities(links: seq<LinkDescriptor>): (es: seq<Entity>)
    ensures |es| == |links|
    ensures forall i :: 0 <= i < |links| ==>
      es[i] == UrlEntity(links[i].href, links[i].text, ExpandedUrl(links[i]), links[i].index)
  {
    seq(|links|, i requires 0 <= i < |links| =>
      UrlEntity(links[i].href, links[i].text, ExpandedUrl(links[i]), links[i].index))
  }

  function LinkLinks(tt: TwitterText, text: string, links: LinksArgument, htmlEscape: bool): (r: string)
    ensures links.Unset? ==> r == tt.autoLinkUrlsCustom(text, LinkOptions(htmlEscape))
    ensures links.Descriptors? ==> r == tt.autoLinkEntities(text, ToEntities(links.links), LinkOptions(htmlEscape))
    ensures links.Other? ==> r == EscapedOrPlain(tt, text, htmlEscape)
  {
    match links
    case Unset => tt.autoLinkUrlsCustom(text, LinkOptions(htmlEscape))
    case Descriptors(ls) => tt.autoLinkEntities(text, ToEntities(ls), LinkOptions(htmlEscape))
    case Other => EscapedOrPlain(tt, text, htmlEscape)
  }

  /** The URL bases a provider sets (index.js:100-105). */
  datatype UrlBases = UrlBases(hashtagUrlBase: string, usernameUrlBase: string)

  function ProviderBases(provider: string): (r: Option<UrlBases>)
    ensures r.Some? <==> provider == "instagram" || provider == "twitter"
    ensures provider == "instagram" ==>
      r == Some(UrlBases("https://instagram.com/explore/tags/", "https://instagram.com/"))
    ensures provider == "twitter" ==>
      r == Some(UrlBases("https://twitter.com/hashtag/", "https://twitter.com/"))
  {
    if provider == "instagram" then Some(UrlBases("https://instagram.com/explore/tags/", "https://instagram.com/"))
    else if provider == "twitter" then Some(UrlBases("https://twitter.com/hashtag/", "https://twitter.com/"))
    else None
  }

  /** The options of index.js:93-105. */
  function MentionOptions(htmlEscape: bool, bases: UrlBases): (o: AutoLinkOptions)
    ensures o.htmlEscapeNonEntities == htmlEscape && o.target == "_blank" && o.usernameIncludeSymbol
    ensures o.hashtagClass == Some("tagplay-hashtag") && o.usernameClass == Some("tagplay-mention")
    ensures o.hashtagUrlBase == Some(bases.hashtagUrlBase) && o.usernameUrlBase == Some(bases.usernameUrlBase)
  {
    AutoLinkOptions(htmlEscape, "_blank", Some("tagplay-hashtag"), Some("tagplay-mention"), true,
                    Some(bases.hashtagUrlBase), Some(bases.usernameUrlBase))
  }

  function LinkHashtagsAndMentions(tt: TwitterText, text: string, provider: string, htmlEscape: bool): (r: string)
    ensures ProviderBases(provider).None? ==> r == EscapedOrPlain(tt, text, htmlEscape)
    ensures ProviderBases(provider).Some? ==>
      r == tt.autoLinkEntities(text,
                               tt.extractMentionsWithIndices(text) + tt.extractHashtagsWithIndices(text),
                               MentionOptions(htmlEscape, ProviderBases(provider).value))
  {
    match ProviderBases(provider)
    case None => EscapedOrPlain(tt, text, htmlEscape)
    case Some(bases) =>
      var entities := tt.extractMentionsWithIndices(text) + tt.extractHashtagsWithIndices(text);
      tt.autoLinkEntities(text, entities, MentionOptions(htmlEscape, bases))
  }

  /**
   * A malformed `links` argument and an unknown provider both fall back
   * without consulting any twitter-text linker or extractor: two libraries
   * that escape alike give the same result.
   */
  lemma FallbacksIgnoreLinkers(tt1: TwitterText, tt2: TwitterText, text: string, provider: string, htmlEscape: bool)
    requires tt1.htmlEscape(text) == tt2.htmlEscape(text)
    requires provider != "instagram" && provider != "twitter"
    ensures LinkLinks(tt1, text, Other, htmlEscape) == LinkLinks(tt2, text, Other, htmlEscape)
    ensures LinkHashtagsAndMentions(tt1, text, provider, htmlEscape)
            == LinkHashtagsAndMentions(tt2, text, provider, htmlEscape)
    ensures LinkLinks(tt1, text, Other, htmlEscape) == LinkHashtagsAndMentions(tt1, text, provider, htmlEscape)
    ensures !htmlEscape ==> LinkHashtagsAndMentions(tt1, text, provider, htmlEscape) == text
  {
  }
}
