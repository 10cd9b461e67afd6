/**
 * The hashtag recogniser and the global `String.prototype.replace` over it
 * (index.js:15-19 and the callback of index.js:48-62).
 *
 * The recogniser is twitter-text's `validHashtag`, taken here as a simplified
 * grammar: a `before` part that is either the start of the string (and empty)
 * or one character outside `[&A-Za-z0-9_]`, then `#`, then the longest run of
 * `[A-Za-z0-9_]` (at least one character), the hashtag's name.
 */
module Hashtags {
  import opened Wrappers
  import opened Chars

  /** One match of the recogniser: `before + "#" + tag`, starting at `start`. */
  datatype HashtagMatch = HashtagMatch(start: nat, before: string, tag: string)
  {
    function Text(): string { before + "#" + tag }
    function HashAt(): nat { start + |before| }
    function End(): nat { start + |before| + 1 + |tag| }
  }

  /** The grammar, stated declaratively: `m` is a match of the recogniser in `s`. */
  ghost predicate IsMatch(s: string, m: HashtagMatch)
    ensures IsMatch(s, m) ==> m.HashAt() < |s| && s[m.HashAt()] == '#'
  {
    && m.End() <= |s|
    && s[m.start..m.End()] == m.Text()
    && |m.tag| > 0 && AllWord(m.tag)
    && (m.End() == |s| || !IsWordChar(s[m.End()]))
    && (if m.before == [] then m.start == 0 else |m.before| == 1 && IsBeforeChar(m.before[0]))
  }

  /**
   * The match that starts at position `i`, if any, trying the alternatives of
   * `(^|[^&a-z0-9_])` in order.
   */
  function MatchAt(s: string, i: nat): (r: Option<HashtagMatch>)
    ensures r.Some? ==> r.value.start == i && IsMatch(s, r.value)
  {
    if i == 0 && 1 < |s| && s[0] == '#' && WordsFrom(s, 1) > 0 then
      Some(HashtagMatch(0, "", s[1..1 + WordsFrom(s, 1)]))
    else if i + 2 < |s| && IsBeforeChar(s[i]) && s[i + 1] == '#' && WordsFrom(s, i + 2) > 0 then
      Some(HashtagMatch(i, [s[i]], s[i + 2..i + 2 + WordsFrom(s, i + 2)]))
    else
      None
  }

  /** `MatchAt` finds every match the grammar admits: the two agree exactly. */
  lemma MatchAtComplete(s: string, m: HashtagMatch)
    requires IsMatch(s, m)
    ensures MatchAt(s, m.start) == Some(m)
  {
    var h := m.HashAt();
    assert s[h + 1..m.End()] == m.tag by { assert m.Text()[|m.before| + 1..] == m.tag; }
    WordsFromUnique(s, h + 1, |m.tag|);
    if m.before == [] {
      MatchAtCompleteAtStart(s, m);
    } else {
      MatchAtCompleteAfterBefore(s, m);
    }
  }

  /** A match at the start of the text, through the `^` alternative. */
  lemma MatchAtCompleteAtStart(s: string, m: HashtagMatch)
    requires IsMatch(s, m) && m.before == []
    requires WordsFrom(s, 1) == |m.tag| && s[1..m.End()] == m.tag
    ensures MatchAt(s, m.start) == Some(m)
  {
    assert m.End() == 1 + |m.tag|;
  }

  /** A match with a one-character `before`, through the second alternative. */
  lemma MatchAtCompleteAfterBefore(s: string, m: HashtagMatch)
    requires IsMatch(s, m) && m.before != []
    requires WordsFrom(s, m.HashAt() + 1) == |m.tag| && s[m.HashAt() + 1..m.End()] == m.tag
    ensures MatchAt(s, m.start) == Some(m)
  {
    var i := m.start;
    assert s[i] == m.before[0] by { assert m.Text()[0] == m.before[0]; }
    assert m.before == [s[i]];
    assert i == 0 ==> !IsWordChar(s[1]);
    assert m.End() == i + 2 + |m.tag|;
  }

  /** `exec` from position `from`: the leftmost match that starts at or after `from`. */
  function FindFrom(s: string, from: nat): (r: Option<HashtagMatch>)
    ensures r.Some? ==> from <= r.value.start && IsMatch(s, r.value)
    ensures r.Some? ==> forall i :: from <= i < r.value.start ==> MatchAt(s, i).None?
    ensures r.None? ==> forall i :: from <= i ==> MatchAt(s, i).None?
    decreases |s| - from
  {
    if from >= |s| then None
    else if MatchAt(s, from).Some? then MatchAt(s, from)
    else FindFrom(s, from + 1)
  }

  /** No match the grammar admits lies between `from` and the match `FindFrom` returns. */
  lemma FindFromLeftmost(s: string, from: nat, m: HashtagMatch)
    requires IsMatch(s, m) && from <= m.start
    ensures FindFrom(s, from).Some? && FindFrom(s, from).value.start <= m.start
  {
    MatchAtComplete(s, m);
  }

  /** The two `replace` callbacks of the repository. */
  datatype Rewriter =
    | DropMarker                        // normalizeHashtags: before + hashText
    | StripListed(names: seq<string>)   // stripTrailingHashtags with an array of names

  /** The `for` loop of index.js:49-58: some entry equals `tag`, compared in lower case. */
  function ListedIgnoringCase(names: seq<string>, tag: string): (b: bool)
    ensures b <==> exists i :: 0 <= i < |names| && LowerCase(names[i]) == LowerCase(tag)
  {
    if names == [] then false
    else if LowerCase(names[0]) == LowerCase(tag) then true
    else
      var rest := ListedIgnoringCase(names[1..], tag);
      assert forall i :: 1 <= i < |names| ==> names[i] == names[1..][i - 1];
      rest
  }

  /** What the callback returns for one match. */
  function Replacement(rw: Rewriter, m: HashtagMatch): (r: string)
    ensures DropsMarker(rw, m) <==> |r| < |m.Text()|
    ensures !DropsMarker(rw, m) ==> r == m.Text()
  {
    match rw
    case DropMarker => m.before + m.tag
    case StripListed(names) =>
      if ListedIgnoringCase(names, m.tag) then
        if |m.before| > 0 && AllSpace(m.before) then "" else m.before
      else
        m.Text()
  }

  /** Whether the callback removes the match's `#`. */
  predicate DropsMarker(rw: Rewriter, m: HashtagMatch) {
    rw.DropMarker? || ListedIgnoringCase(rw.names, m.tag)
  }

  /**
   * A global `replace` over the recogniser, from position `from`: text between
   * matches is copied, each leftmost match is replaced by the callback's value,
   * and the scan resumes right after the match.
   */
  function Rewrite(s: string, from: nat, rw: Rewriter): (r: string)
    requires from <= |s|
    ensures |r| + DroppedCount(s, from, rw) <= |s| - from
    decreases |s| - from
  {
    match FindFrom(s, from)
    case None => s[from..]
    case Some(m) => s[from..m.start] + Replacement(rw, m) + Rewrite(s, m.End(), rw)
  }

  /** One step of the global replace: the text before the match, its replacement, then the rest. */
  lemma RewriteStepAt(s: string, from: nat, m: HashtagMatch, rw: Rewriter)
    requires from <= |s| && FindFrom(s, from) == Some(m)
    ensures Rewrite(s, from, rw) == s[from..m.start] + Replacement(rw, m) + Rewrite(s, m.End(), rw)
  {
  }

  /** The number of matches whose `#` the callback removes. */
  function DroppedCount(s: string, from: nat, rw: Rewriter): nat
    requires from <= |s|
    decreases |s| - from
  {
    match FindFrom(s, from)
    case None => 0
    case Some(m) => (if DropsMarker(rw, m) then 1 else 0) + DroppedCount(s, m.End(), rw)
  }

  /**
   * How many characters the strip callback deletes from a match: a listed tag
   * loses its `#`, its name and a `before` made of whitespace; an unlisted one
   * loses nothing.
   */
  function StrippedLength(names: seq<string>, m: HashtagMatch): nat {
    if ListedIgnoringCase(names, m.tag) then
      (if |m.before| > 0 && AllSpace(m.before) then |m.before| else 0) + 1 + |m.tag|
    else 0
  }

  /** The characters the strip callback deletes over a whole global replace from `from`. */
  function StrippedTotal(s: string, from: nat, names: seq<string>): nat
    requires from <= |s|
    decreases |s| - from
  {
    match FindFrom(s, from)
    case None => 0
    case Some(m) => StrippedLength(names, m) + StrippedTotal(s, m.End(), names)
  }

  /**
   * The strip callback keeps a prefix of the match and deletes the rest: for a
   * listed tag the name and the `#` always go, and a whitespace `before` goes
   * with them; an unlisted match is kept whole.
   */
  lemma ReplacementStripsSuffix(names: seq<string>, m: HashtagMatch)
    ensures StrippedLength(names, m) <= |m.Text()|
    ensures Replacement(StripListed(names), m) == m.Text()[..|m.Text()| - StrippedLength(names, m)]
  {
    var t := m.Text();
    if ListedIgnoringCase(names, m.tag) {
      if |m.before| > 0 && AllSpace(m.before) {
        assert t[..0] == "";
      } else {
        assert t[..|m.before|] == m.before;
      }
    } else {
      assert t[..|t|] == t;
    }
  }

  /** A global replace with the strip callback shortens the text by exactly the characters it strips. */
  lemma {:induction false} RewriteStripLength(s: string, from: nat, names: seq<string>)
    requires from <= |s|
    ensures |Rewrite(s, from, StripListed(names))| + StrippedTotal(s, from, names) == |s| - from
    decreases |s| - from
  {
    match FindFrom(s, from)
    case None =>
    case Some(m) =>
      RewriteStripLength(s, m.End(), names);
      ReplacementStripsSuffix(names, m);
  }

  lemma SplitAtMatch(s: string, from: nat, m: HashtagMatch)
    requires IsMatch(s, m) && from <= m.start
    ensures s[from..] == s[from..m.start] + m.Text() + s[m.End()..]
  {
    assert s[from..] == s[from..m.start] + s[m.start..m.End()] + s[m.End()..];
  }

  /** Every callback value is the match with some characters deleted. */
  lemma ReplacementIsSubsequence(rw: Rewriter, m: HashtagMatch)
    ensures IsSubsequence(Replacement(rw, m), m.Text())
  {
    SubsequenceRefl(m.before);
    SubsequenceRefl(m.tag);
    SubsequenceSkip(m.tag, '#', m.tag);
    assert m.Text() == m.before + (['#'] + m.tag);
    if rw.DropMarker? || ListedIgnoringCase(rw.names, m.tag) {
      if Replacement(rw, m) == m.before + m.tag {
        SubsequenceConcat(m.before, m.before, m.tag, ['#'] + m.tag);
      } else if Replacement(rw, m) == m.before {
        SubsequenceConcat(m.before, m.before, [], ['#'] + m.tag);
        assert m.before + [] == m.before;
      }
    } else {
      SubsequenceRefl(m.Text());
    }
  }

  /** A callback value holds one `#` fewer than the match exactly when it drops the marker. */
  lemma ReplacementMarkers(rw: Rewriter, m: HashtagMatch)
    requires |m.tag| > 0 && AllWord(m.tag)
    requires |m.before| <= 1
    ensures multiset(Replacement(rw, m))['#'] + (if DropsMarker(rw, m) then 1 else 0)
            == multiset(m.Text())['#']
  {
    assert !IsWordChar('#');
    assert multiset(m.tag)['#'] == 0;
    assert multiset(m.Text()) == multiset(m.before) + multiset{'#'} + multiset(m.tag);
    if rw.StripListed? && ListedIgnoringCase(rw.names, m.tag) && |m.before| > 0 && AllSpace(m.before) {
      assert m.before == [m.before[0]];
      SpaceIsBeforeChar(m.before[0]);
      assert multiset(m.before)['#'] == 0;
    }
  }

  /** A global replace only ever deletes characters. */
  lemma {:induction false} RewriteIsSubsequence(s: string, from: nat, rw: Rewriter)
    requires from <= |s|
    ensures IsSubsequence(Rewrite(s, from, rw), s[from..])
    decreases |s| - from
  {
    match FindFrom(s, from)
    case None =>
      SubsequenceRefl(s[from..]);
    case Some(m) =>
      RewriteIsSubsequence(s, m.End(), rw);
      ReplacementIsSubsequence(rw, m);
      SubsequenceRefl(s[from..m.start]);
      SubsequenceConcat(s[from..m.start], s[from..m.start], Replacement(rw, m), m.Text());
      SubsequenceConcat(s[from..m.start] + Replacement(rw, m), s[from..m.start] + m.Text(),
                        Rewrite(s, m.End(), rw), s[m.End()..]);
      SplitAtMatch(s, from, m);
  }

  /** A global replace removes exactly one `#` per match whose marker the callback drops, and no other `#`. */
  lemma {:induction false} RewriteMarkers(s: string, from: nat, rw: Rewriter)
    requires from <= |s|
    ensures multiset(Rewrite(s, from, rw))['#'] + DroppedCount(s, from, rw) == multiset(s[from..])['#']
    decreases |s| - from
  {
    match FindFrom(s, from)
    case None =>
    case Some(m) =>
      RewriteMarkers(s, m.End(), rw);
      ReplacementMarkers(rw, m);
      SplitAtMatch(s, from, m);
  }

  /** A global replace whose callback returns every match unchanged returns its input. */
  lemma {:induction false} RewriteKeepsUnchangedMatches(s: string, from: nat, rw: Rewriter)
    requires from <= |s|
    requires forall m :: IsMatch(s, m) && from <= m.start ==> Replacement(rw, m) == m.Text()
    ensures Rewrite(s, from, rw) == s[from..]
    decreases |s| - from
  {
    match FindFrom(s, from)
    case None =>
    case Some(m) =>
      RewriteKeepsUnchangedMatches(s, m.End(), rw);
      SplitAtMatch(s, from, m);
  }
}
