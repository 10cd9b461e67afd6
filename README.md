# tagplay-text: trailing hashtags and the htmlize pipeline in Dafny

This project models `index.js` of tagplay-text, a small library that turns
social-media text (tweets, captions) into linked HTML. The model covers:

- **Trailing-hashtag scan** (`_getTrailingHashtagsIndex`): the library finds
  where the run of hashtags at the end of a text begins. It applies an
  end-anchored pattern (`\s*` + hashtag + `\s*$`) to ever shorter prefixes.
  This is module `TrailingScan`:
  - `FindTrailing` is the end-anchored regex step;
  - `TrailingStart` is the boundary as a function;
  - `TrailingTagsStart` is the loop itself, as a method proved equal to
    `TrailingStart`.
- **Stripping** (`stripTrailingHashtags`), module `Stripping`. With
  `undefined`/`true` it cuts the text at the boundary. With an array of names,
  it rewrites only the part after the boundary and drops each listed tag.
  Any other value returns the text unchanged.
- **Normalizing** (`normalizeHashtags`), module `Normalizing`: every hashtag
  loses its `#` marker.
- **Hashtag grammar and global replacement**, module `Hashtags`:
  - `IsMatch` is the declarative form of the simplified grammar below, which
    stands for twitter-text's `validHashtag`.
  - `MatchAt`/`FindFrom` are the executable matcher.
  - `Rewrite` models `String.prototype.replace` with a global regex: a
    leftmost scan that resumes after each match.
- **Linking** (`linkLinks`, `linkHashtagsAndMentions`), module `Linking`. The
  twitter-text functions are fields of the `TwitterText` datatype. They are
  therefore uninterpreted, and the model states which one is called with
  which text, entities and options.
- **Pipeline** (`htmlize`), module `Pipeline`. It runs the fixed stage order:
  links (escaping), stripping, normalizing, mentions/hashtags, then `<br>`
  for every line feed.

Module `Chars` holds the character classes:

- `IsSpace`: the exact ECMAScript whitespace and line-terminator set of `\s`.
- `IsWordChar`: `[A-Za-z0-9_]`.
- `ToLower`/`LowerCase`: ASCII case folding, for `toLowerCase`.
- The maximal-run helpers.

Module `Wrappers` holds `Option`.

The hashtag grammar is a simplification of twitter-text's:

- `before` is either the start of the string (empty) or one character outside
  `[&A-Za-z0-9_]`.
- Then comes `#`.
- Then comes the maximal run of word characters, at least one of them.

Two consequences of the code are worth stating, because a reader might expect
otherwise:

- After a hashtag preceded by a non-space character, the scan sets the
  boundary to `match.index + 1` (index.js:30). `match.index` is where the
  leading `\s*` starts, not where that character stands. When whitespace
  precedes the character, the boundary therefore lands inside the whitespace.
  Stripping all tags then drops the separator and keeps the space:
  `Stripping.StripSeparatorAfterSpace` proves that `"a .#b"` becomes `"a "`.
- Normalizing is not idempotent, because `#` is a valid `before` character:
  `"##a"` becomes `"#a"`, which becomes `"a"` (`Normalizing.NormalizeNotIdempotent`).

## Model

| member | source | states |
|---|---|---|
| Chars.LowerCase | index.js:50 | `toLowerCase` keeps the length and folds each character on its own; only `A`-`Z` change |
| Hashtags.IsMatch | index.js:16 | the recogniser's grammar stated declaratively: optional `before` (start of string, or one character outside `[&A-Za-z0-9_]`), `#`, and a maximal non-empty run of word characters; the `#` sits right after `before` |
| Hashtags.MatchAt | index.js:16 | a hashtag found at position i is a match of the grammar that starts at i |
| Hashtags.MatchAtComplete | index.js:16 | every match of the grammar is what the matcher returns at its start: the regex misses no hashtag and picks the unique greedy one |
| Hashtags.FindFrom | index.js:16 | the global regex's next match is a grammar match at or after the resume point, and no match starts earlier; when none is found, no position from there on matches |
| Hashtags.FindFromLeftmost | index.js:16 | whenever some hashtag starts at or after the resume point, a match is found, and it starts no later than that one |
| Hashtags.ListedIgnoringCase | index.js:49-58 | the loop over `strippedTags` accepts a tag exactly when some entry equals it case-insensitively |
| Hashtags.Replacement | index.js:16-18 | the value a callback returns for one match: it differs from the match exactly when the `#` is dropped (normalizing, or a listed tag), and is then strictly shorter |
| Hashtags.ReplacementStripsSuffix | index.js:48-61 | the strip callback keeps a prefix of the match: for a listed tag the name and `#` go, together with a whitespace `before`; a non-whitespace `before` stays; an unlisted match is kept whole |
| Hashtags.Rewrite | index.js:16 | a global `replace` over the recogniser shortens the text by at least one character per dropped `#` |
| Hashtags.RewriteStripLength | index.js:48-62 | a global replace with the strip callback shortens the text by exactly the characters the listed tags lose: `#`, name and whitespace `before` |
| Hashtags.ReplacementIsSubsequence | index.js:16-18 | every replacement (normalize, strip a listed tag, keep an unlisted one) deletes characters of the match and inserts none |
| Hashtags.RewriteIsSubsequence | index.js:48-62 | a global replace with these callbacks only deletes characters of the text |
| Hashtags.RewriteMarkers | index.js:48-62 | the replace leaves as many `#` fewer as there are matches whose `#` the callback drops (which characters go is fixed per match by `Hashtags.ReplacementStripsSuffix` and `Normalizing.NormalizeRemovesMarkers`) |
| Hashtags.RewriteKeepsUnchangedMatches | index.js:60-61 | when no match is dropped (every tag unlisted), the replace returns the text unchanged |
| Normalizing.NormalizeHashtags | index.js:15-19 | normalizing shortens the text by exactly the number of hashtags the recogniser finds |
| Normalizing.NormalizeMarkerCount | index.js:15-19 | normalizing only deletes characters: the result is a subsequence, and its characters plus one `#` per hashtag are those of the input |
| Normalizing.NormalizeRemovesMarkers | index.js:15-19 | normalizing equals deleting exactly the marker positions (a `#` followed by a word character and preceded by the start or a `before` character) and keeping every other character in order: each match `before#tag` becomes `before + tag`, and text outside matches is untouched |
| Normalizing.NormalizeKeepsEntities | index.js:15-19 | an escaped entity keeps its `#`: `"&#39; #a"` normalizes to `"&#39; a"`, since `&` may not precede a hashtag |
| Normalizing.NormalizeUnchangedIff | index.js:15-19 | normalizing leaves the text unchanged exactly when it contains no hashtag |
| Normalizing.NormalizeExample | index.js:15-19 | `"check #Foo out"` normalizes to `"check Foo out"`: `before` is kept and the marker is dropped |
| Normalizing.NormalizeNotIdempotent | index.js:15-19 | normalizing is not idempotent: `"##a"` becomes `"#a"`, which becomes `"a"` |
| TrailingScan.TrailingShape | index.js:5 | the trailing pattern `\s*(^\|[^&a-z0-9_])#\w+\s*$` stated declaratively, with its `#` inside the prefix |
| TrailingScan.NextBoundary | index.js:27-31 | after a match the boundary moves to `match.index`, or to `match.index + 1` when `before` holds a non-space character |
| TrailingScan.FindTrailing | index.js:5 | a match of the trailing pattern leaves a strictly shorter prefix to scan, so the scan terminates |
| TrailingScan.ShapeForced | index.js:5 | the `\s*$`, the greedy tag and the `before` group leave only one shape for a match starting at a given index |
| TrailingScan.FindTrailingSound | index.js:5 | what the exec returns is a match of the end-anchored pattern (optional `before`, `\s*`, `#tag`, `\s*`, end) |
| TrailingScan.FindTrailingLeftmost | index.js:5 | when any match of the trailing pattern exists, exec returns one, and it starts at the leftmost index |
| TrailingScan.TrailingStartFrom | index.js:25-32 | the boundary never moves right while the scan shrinks the prefix |
| TrailingScan.TrailingStart | index.js:21-34 | the boundary the scan returns lies within the text |
| TrailingScan.TrailingTagsStart | index.js:21-34 | the loop returns the boundary `TrailingStart(text)`; this is the corrected scan, stopping when exec returns null |
| TrailingScan.TrailingStartExhausts | index.js:25-33 | the prefix before the returned boundary has no trailing hashtag left |
| TrailingScan.TrailingMatchInRun | index.js:5 | every character a match of the trailing pattern covers is whitespace, a `#` before a tag name, a name character after a `#`, or the character right before a `#` |
| TrailingScan.TrailingStartFromInRun | index.js:25-32 | everything the scan passes over between its result and its starting boundary consists of such characters |
| TrailingScan.TrailingStartInRun | index.js:21-34 | after the returned boundary the text consists only of a run of hashtags: whitespace, `#`, tag names and the character before each `#` |
| TrailingScan.TrailingStartIsEndIff | index.js:23-42 | the boundary is the text's length exactly when the text has no trailing hashtag |
| TrailingScan.TrailingStartIdempotent | index.js:21-34 | scanning the prefix before the boundary returns the same boundary |
| TrailingScan.ScanAsWritten | index.js:24-32 | the loop as written returns only when entered with `match === null`; otherwise it throws at a boundary whose prefix has no trailing hashtag |
| TrailingScan.ScanAsWrittenAlwaysThrows | index.js:24-33 | as written, the scan throws a TypeError on every text, at the boundary the corrected loop returns |
| Stripping.StripTrailingHashtags | index.js:36-67 | an invalid selector returns the text; `undefined`/`true` cut it at the boundary; a list keeps the text before the boundary unchanged (what it deletes after it: `Hashtags.ReplacementStripsSuffix` per match) |
| Stripping.StripWithoutTrailingTag | index.js:39-42 | a text without trailing hashtags is returned untouched, whatever the selector |
| Stripping.StripAllLeavesNoTrailingTag | index.js:44-46 | strip-all changes the text exactly when it has a trailing hashtag; the result has none and stripping again changes nothing |
| Stripping.StripAllCutsTrailingRun | index.js:44-46 | strip-all keeps a prefix of the text and drops only characters of the trailing run of hashtags |
| Stripping.StripListedOnlyDeletes | index.js:47-62 | strip-by-list only deletes characters: as many `#` as there are listed trailing hashtags, and as many characters in all as their `#`, names and whitespace `before` hold (which characters go is fixed per match by `Hashtags.ReplacementStripsSuffix`) |
| Stripping.StripListedKeepsUnlisted | index.js:60-61 | when no trailing hashtag is listed, strip-by-list returns the text unchanged |
| Stripping.StripExamples | index.js:36-62 | `"hello #a #b"`: strip-all gives `"hello"`, and stripping `["b"]` gives `"hello #a"` |
| Stripping.StripSeparatorAfterSpace | index.js:27-62 | `"a .#b"`: strip-all gives `"a "` because of `match.index + 1`, and stripping `["b"]` gives `"a ."` |
| Linking.EscapedOrPlain | index.js:84-88 | the fallback returns the HTML-escaped text when asked to escape, and the text itself otherwise |
| Linking.LinkOptions | index.js:70-73 | the link options pass the escape flag and `target: '_blank'`, and set no classes or URL bases |
| Linking.ExpandedUrl | index.js:80 | `description \|\| href`: a non-empty description wins, otherwise the href |
| Linking.ToEntities | index.js:79-81 | descriptors map one to one onto URL entities carrying href, text, expanded URL and indices |
| Linking.LinkLinks | index.js:69-90 | `undefined` links auto-link free URLs; an array links exactly its descriptors; anything else escapes or returns the text |
| Linking.ProviderBases | index.js:100-113 | only `instagram` and `twitter` are recognised, each with its two URL bases |
| Linking.MentionOptions | index.js:93-105 | the mention/hashtag options carry the tagplay classes, `_blank`, the `@` symbol and the provider's bases |
| Linking.LinkHashtagsAndMentions | index.js:92-119 | an unknown provider escapes or returns the text; a known one links the mentions and then the hashtags, extracted from the same text |
| Linking.FallbacksIgnoreLinkers | index.js:82-112 | both fallbacks call no linker, agree with each other, and return the text itself when not escaping |
| Pipeline.ReplaceNewlines | index.js:138 | the result contains no line feed |
| Pipeline.ReplaceNewlinesWithoutNewline | index.js:138 | a text without line feeds is left unchanged |
| Pipeline.ReplaceNewlinesConcat | index.js:138 | the replacement distributes over concatenation |
| Pipeline.ReplaceNewlinesLineFeed | index.js:138 | every line feed becomes `<br>`, wherever it stands in the text |
| Pipeline.StripStage | index.js:124-130 | `true` strips all (called without a selector), an array strips those names, anything else skips the stage |
| Pipeline.Htmlize | index.js:121-138 | the stages run in the order links (escaping), strip, normalize, mentions/hashtags (not escaping), `<br>`, and the HTML has no line feed |

## Findings

| source | as written | input that shows it | evidently intended | confidence | as-written member | corrected member |
|---|---|---|---|---|---|---|
| index.js:24-28 | `match` starts `undefined`, so the loop is entered. When exec returns `null`, `match[1]` on line 27 is read before the loop test, which throws a TypeError. The loop therefore never reaches the `null` test, and `stripTrailingHashtags` and `htmlize` with `strippedTags` throw | any text, e.g. `""` or `"hello #a"`: the last exec returns `null` | stop when exec returns `null` and return the last boundary | high (not executed) | TrailingScan.ScanAsWrittenAlwaysThrows | TrailingScan.TrailingTagsStart |

Everything else (`Stripping`, `Pipeline`) uses the corrected boundary `TrailingScan.TrailingStart`.

## Left out

- twitter-text (`autoLinkUrlsCustom`, `autoLinkEntities`, `htmlEscape`, `extractMentionsWithIndices`, `extractHashtagsWithIndices`) is not part of this model. These become uninterpreted function fields of `Linking.TwitterText`; what they produce is not modelled.
- Hashtags.MatchAt: the hashtag grammar is a simplified `validHashtag`. Tag names are ASCII word characters only, with no Unicode letter classes and no rule that a name contain a letter. Only `#` is a marker; the fullwidth sign `＃` is not. Nothing after the name is examined beyond the end of the word run.
- Chars.LowerCase: ASCII case folding only, not Unicode `toLowerCase`. Strings are sequences of code points, not UTF-16 code units.
- `console.error` on an invalid `strippedTags` or `links` argument (index.js:64, 83) is I/O and is left out; only the returned value is modelled.
- Regex backtracking cost, the reason for the loop in `_getTrailingHashtagsIndex`, is not modelled. Only termination is (`TrailingScan.FindTrailing` shrinks the prefix).
- JavaScript's dynamic typing is reduced to datatypes. Examples: `StripSelector`, `LinksArgument`, and the provider as a string, where `undefined` is any unrecognised string. Array entries that are not strings, or descriptors without an `href`, are not modelled.
- `link.description || link.href`: a description that is any other falsy value than `undefined` or `""` is not modelled.
- The richer `htmlize` variant (markdown formatting, paragraphs, further providers) is not part of this model.
