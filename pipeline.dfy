/** `htmlize` (index.js:121-138): the stages in their fixed order, then line breaks. */
module Pipeline {
  import opened Stripping
  import opened Normalizing
  import opened Linking

  /** `replace(/\n/g, '<br>')`. */
  function ReplaceNewlines(s: string): (r: string)
    ensures forall i :: 0 <= i < |r| ==> r[i] != '\n'
  {
    if s == [] then []
    else (if s[0] == '\n' then "<br>" else [s[0]]) + ReplaceNewlines(s[1..])
  }

  /** A text without line feeds comes out unchanged. */
  lemma {:induction false} ReplaceNewlinesWithoutNewline(s: string)
    requires forall i :: 0 <= i < |s| ==> s[i] != '\n'
    ensures ReplaceNewlines(s) == s
  {
    if s != [] {
      assert s[0] != '\n';
      ReplaceNewlinesWithoutNewline(s[1..]);
      assert s == [s[0]] + s[1..];
    }
  }

  /** The replacement works piece by piece: each line feed becomes `<br>` wherever the text is cut. */
  lemma {:induction false} ReplaceNewlinesConcat(a: string, b: string)
    ensures ReplaceNewlines(a + b) == ReplaceNewlines(a) + ReplaceNewlines(b)
  {
    if a != [] {
      ReplaceNewlinesConcat(a[1..], b);
      assert (a + b)[1..] == a[1..] + b;
    } else {
      assert a + b == b;
    }
  }

  /** Each line feed becomes `<br>`, wherever it stands, and the text around it is replaced on its own. */
  lemma ReplaceNewlinesLineFeed(a: string, b: string)
    ensures ReplaceNewlines("\n") == "<br>"
    ensures ReplaceNewlines(a + "\n" + b) == ReplaceNewlines(a) + "<br>" + ReplaceNewlines(b)
  {
    ReplaceNewlinesConcat(a, "\n" + b);
    ReplaceNewlinesConcat("\n", b);
    assert a + "\n" + b == a + ("\n" + b);
  }

  /** The stripping stage: only `true` or an array strip; `undefined` and any other value do not. */
  function StripStage(text: string, strippedTags: StripSelector): (r: string)
    ensures strippedTags.AllTags? ==> r == StripTrailingHashtags(text, StripSelector.Unset)
    ensures strippedTags.TagList? ==> r == StripTrailingHashtags(text, strippedTags)
    ensures strippedTags.Unset? || strippedTags.Other? ==> r == text
  {
    match strippedTags
    case AllTags => StripTrailingHashtags(text, StripSelector.Unset)
    case TagList(_) => StripTrailingHashtags(text, strippedTags)
    case _ => text
  }

  /**
   * `htmlize(text, provider, links, strippedTags, normalize)`: links first
   * (always escaping), then stripping, then normalizing, then mentions and
   * hashtags (without escaping), and finally `<br>` for every line feed.
   */
  method Htmlize(tt: TwitterText, text: string, provider: string, links: LinksArgument,
                 strippedTags: StripSelector, normalize: bool) returns (html: string)
    ensures var linked := LinkLinks(tt, text, links, true);
            var stripped := StripStage(linked, strippedTags);
            var normalized := if normalize then NormalizeHashtags(stripped) else stripped;
            html == ReplaceNewlines(LinkHashtagsAndMentions(tt, normalized, provider, false))
    ensures forall i :: 0 <= i < |html| ==> html[i] != '\n'
  {
    var result := LinkLinks(tt, text, links, true);
    if strippedTags.AllTags? {
      result := StripTrailingHashtags(result, StripSelector.Unset);
    } else if strippedTags.TagList? {
      result := StripTrailingHashtags(result, strippedTags);
    }
    if normalize {
      result := NormalizeHashtags(result);
    }
    result := LinkHashtagsAndMentions(tt, result, provider, false);
    html := ReplaceNewlines(result);
  }
}
