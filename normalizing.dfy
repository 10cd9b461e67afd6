/** `normalizeHashtags` (index.js:15-19): every hashtag loses its `#`. */
module Normalizing {
  import opened Wrappers
  import opened Chars
  import opened Hashtags

  /** Replaces every match `before#tag` by `before + tag`. */
  function NormalizeHashtags(text: string): (r: string)
    ensures |r| + HashtagCount(text) == |text|
  {
    RewriteDropsMarkersOnly(text, 0);
    assert text[0..] == text;
    var r := Rewrite(text, 0, DropMarker);
    assert |multiset(r)| + |multiset(Markers(HashtagCount(text)))| == |multiset(text)|;
    r
  }

  /** The number of hashtags the recogniser finds, scanning left to right. */
  function HashtagCount(text: string): nat {
    DroppedCount(text, 0, DropMarker)
  }

  /** A string of `n` markers. */
  function Markers(n: nat): (r: string)
    ensures |r| == n && multiset(r) == multiset{}['#' := n]
  {
    if n == 0 then [] else Markers(n - 1) + ['#']
  }

  lemma {:induction false} RewriteDropsMarkersOnly(s: string, from: nat)
    requires from <= |s|
    ensures multiset(Rewrite(s, from, DropMarker)) + multiset(Markers(DroppedCount(s, from, DropMarker)))
            == multiset(s[from..])
    decreases |s| - from
  {
    match FindFrom(s, from)
    case None =>
    case Some(m) =>
      RewriteDropsMarkersOnly(s, m.End());
      DropStepMultiset(s, from, m);
  }

  lemma DropStepMultiset(s: string, from: nat, m: HashtagMatch)
    requires from <= |s| && FindFrom(s, from) == Some(m)
    requires multiset(Rewrite(s, m.End(), DropMarker)) + multiset(Markers(DroppedCount(s, m.End(), DropMarker)))
             == multiset(s[m.End()..])
    ensures multiset(Rewrite(s, from, DropMarker)) + multiset(Markers(DroppedCount(s, from, DropMarker)))
            == multiset(s[from..])
  {
    var e := m.End();
    var r, k := Rewrite(s, e, DropMarker), DroppedCount(s, e, DropMarker);
    RewriteDropStep(s, from, m);
    DroppedStep(s, from, m);
    SplitAtMatch(s, from, m);
    DropStepCount(Rewrite(s, from, DropMarker), s[from..], s[from..m.start], m.before, m.tag, r, s[e..], k);
  }

  lemma DroppedStep(s: string, from: nat, m: HashtagMatch)
    requires from <= |s| && FindFrom(s, from) == Some(m)
    ensures DroppedCount(s, from, DropMarker) == DroppedCount(s, m.End(), DropMarker) + 1
  {
  }

  /** The multiset bookkeeping of one dropped `#`, on plain strings. */
  lemma DropStepCount(x: string, y: string, a: string, before: string, tag: string, r: string, rest: string, k: nat)
    requires x == a + (before + (tag + r)) && y == a + (before + "#" + tag) + rest
    requires multiset(r) + multiset(Markers(k)) == multiset(rest)
    ensures multiset(x) + multiset(Markers(k + 1)) == multiset(y)
  {
    assert multiset(Markers(k + 1)) == multiset(Markers(k)) + multiset{'#'};
    assert multiset(before + "#" + tag) == multiset(before) + multiset{'#'} + multiset(tag);
  }

  /**
   * Normalizing only deletes characters, in order, and what it deletes is as
   * many `#` as there are hashtags (which ones: `NormalizeRemovesMarkers`).
   */
  lemma NormalizeMarkerCount(text: string)
    ensures IsSubsequence(NormalizeHashtags(text), text)
    ensures multiset(NormalizeHashtags(text)) + multiset(Markers(HashtagCount(text))) == multiset(text)
    ensures |NormalizeHashtags(text)| + HashtagCount(text) == |text|
  {
    RewriteIsSubsequence(text, 0, DropMarker);
    RewriteDropsMarkersOnly(text, 0);
    assert text[0..] == text;
    assert |multiset(NormalizeHashtags(text))| + |multiset(Markers(HashtagCount(text)))| == |multiset(text)|;
  }

  /**
   * Position `k` holds a hashtag's marker: a `#` followed by a word character
   * and preceded by the start of the text or by a character that may stand
   * before a `#`.
   */
  predicate IsMarker(s: string, k: nat)
    requires k < |s|
  {
    s[k] == '#' && k + 1 < |s| && IsWordChar(s[k + 1]) && (k == 0 || IsBeforeChar(s[k - 1]))
  }

  /** The text from `from` on with every marker position deleted and every other character kept. */
  function WithoutMarkers(s: string, from: nat): string
    requires from <= |s|
    decreases |s| - from
  {
    if from == |s| then []
    else (if IsMarker(s, from) then [] else [s[from]]) + WithoutMarkers(s, from + 1)
  }

  lemma {:induction false} WithoutMarkersKeeps(s: string, a: nat, b: nat)
    requires a <= b <= |s|
    requires forall k :: a <= k < b ==> !IsMarker(s, k)
    ensures WithoutMarkers(s, a) == s[a..b] + WithoutMarkers(s, b)
    decreases b - a
  {
    if a < b {
      var w := WithoutMarkers(s, b);
      WithoutMarkersKeeps(s, a + 1, b);
      assert !IsMarker(s, a);
      assert WithoutMarkers(s, a) == [s[a]] + (s[a + 1..b] + w);
      assert s[a..b] == [s[a]] + s[a + 1..b];
    }
  }

  /** A position where no match starts, with no match right before it either, holds no marker. */
  lemma NoMatchNoMarker(s: string, k: nat)
    requires k < |s|
    requires k == 0 ==> MatchAt(s, 0).None?
    requires k > 0 ==> MatchAt(s, k - 1).None?
    ensures !IsMarker(s, k)
  {
  }

  /**
   * Between `from` and the first match found from there, there is no marker,
   * provided the scan did not resume right after a `before` character.
   */
  lemma NoMarkerBeforeMatch(s: string, from: nat, upto: nat)
    requires from <= upto <= |s|
    requires from == 0 || IsWordChar(s[from - 1])
    requires forall i :: from <= i < upto ==> MatchAt(s, i).None?
    ensures forall k :: from <= k < upto ==> !IsMarker(s, k)
  {
    forall k | from <= k < upto
      ensures !IsMarker(s, k)
    {
      if k == from && k > 0 {
        assert IsWordChar(s[k - 1]);
      } else {
        NoMatchNoMarker(s, k);
      }
    }
  }

  /** A marker position is dropped. */
  lemma MarkerSkipped(s: string, k: nat)
    requires k < |s| && IsMarker(s, k)
    ensures WithoutMarkers(s, k) == WithoutMarkers(s, k + 1)
  {
    assert WithoutMarkers(s, k) == [] + WithoutMarkers(s, k + 1);
  }

  /** The tag of a match holds no marker, so it is kept whole. */
  lemma TagWithoutMarkers(s: string, m: HashtagMatch)
    requires IsMatch(s, m)
    ensures IsWordChar(s[m.HashAt() + 1]) && IsWordChar(s[m.End() - 1])
    ensures WithoutMarkers(s, m.HashAt() + 1) == m.tag + WithoutMarkers(s, m.End())
  {
    var h, e := m.HashAt(), m.End();
    assert s[h + 1..e] == m.tag by { assert m.Text()[|m.before| + 1..] == m.tag; }
    forall k | h + 1 <= k < e
      ensures !IsMarker(s, k)
    {
      assert s[k] == m.tag[k - h - 1];
    }
    assert s[h + 1] == m.tag[0] && s[e - 1] == m.tag[|m.tag| - 1];
    WithoutMarkersKeeps(s, h + 1, e);
  }

  /** The `#` of a match is a marker. */
  lemma HashIsMarker(s: string, m: HashtagMatch)
    requires IsMatch(s, m) && IsWordChar(s[m.HashAt() + 1])
    ensures IsMarker(s, m.HashAt())
  {
    if m.before != [] {
      assert s[m.HashAt() - 1] == m.before[0] by { assert m.Text()[0] == m.before[0]; }
    }
  }

  /** The `before` of a match is kept. */
  lemma BeforeWithoutMarkers(s: string, m: HashtagMatch)
    requires IsMatch(s, m)
    ensures WithoutMarkers(s, m.start) == m.before + WithoutMarkers(s, m.HashAt())
  {
    if m.before != [] {
      var i := m.start;
      assert s[i] == m.before[0] && s[i + 1] == '#' by {
        assert m.Text()[0] == m.before[0] && m.Text()[1] == '#';
      }
      assert !IsMarker(s, i);
      assert WithoutMarkers(s, i) == [s[i]] + WithoutMarkers(s, i + 1);
      assert m.before == [s[i]];
    }
  }

  /** Over one match, only the `#` is a marker: `before` and the tag are kept. */
  lemma MatchWithoutMarkers(s: string, m: HashtagMatch)
    requires IsMatch(s, m)
    ensures IsWordChar(s[m.End() - 1])
    ensures WithoutMarkers(s, m.start) == m.before + (m.tag + WithoutMarkers(s, m.End()))
  {
    TagWithoutMarkers(s, m);
    HashIsMarker(s, m);
    MarkerSkipped(s, m.HashAt());
    BeforeWithoutMarkers(s, m);
  }

  lemma RewriteNoMatchMarkers(s: string, from: nat)
    requires from <= |s|
    requires from == 0 || IsWordChar(s[from - 1])
    requires FindFrom(s, from).None?
    ensures Rewrite(s, from, DropMarker) == WithoutMarkers(s, from)
  {
    NoMarkerBeforeMatch(s, from, |s|);
    WithoutMarkersKeeps(s, from, |s|);
    assert s[from..|s|] == s[from..];
  }

  lemma RewriteDropStep(s: string, from: nat, m: HashtagMatch)
    requires from <= |s| && FindFrom(s, from) == Some(m)
    ensures Rewrite(s, from, DropMarker) == s[from..m.start] + (m.before + (m.tag + Rewrite(s, m.End(), DropMarker)))
  {
    var r := Rewrite(s, m.End(), DropMarker);
    assert Rewrite(s, from, DropMarker) == s[from..m.start] + Replacement(DropMarker, m) + r;
    ConcatRegroup(s[from..m.start], m.before, m.tag, r);
  }

  lemma ConcatRegroup(a: string, b: string, c: string, d: string)
    ensures a + (b + c) + d == a + (b + (c + d))
  {
  }

  lemma WithoutMarkersStep(s: string, from: nat, m: HashtagMatch)
    requires from <= |s| && FindFrom(s, from) == Some(m)
    requires from == 0 || IsWordChar(s[from - 1])
    ensures WithoutMarkers(s, from) == s[from..m.start] + (m.before + (m.tag + WithoutMarkers(s, m.End())))
  {
    MatchWithoutMarkers(s, m);
    NoMarkerBeforeMatch(s, from, m.start);
    WithoutMarkersKeeps(s, from, m.start);
  }

  lemma RewriteStepMarkers(s: string, from: nat, m: HashtagMatch)
    requires from <= |s|
    requires from == 0 || IsWordChar(s[from - 1])
    requires FindFrom(s, from) == Some(m)
    requires Rewrite(s, m.End(), DropMarker) == WithoutMarkers(s, m.End())
    ensures Rewrite(s, from, DropMarker) == WithoutMarkers(s, from)
  {
    RewriteDropStep(s, from, m);
    WithoutMarkersStep(s, from, m);
  }

  /** A global replace with the normalizing callback deletes exactly the marker positions. */
  lemma {:induction false} RewriteRemovesMarkers(s: string, from: nat)
    requires from <= |s|
    requires from == 0 || IsWordChar(s[from - 1])
    ensures Rewrite(s, from, DropMarker) == WithoutMarkers(s, from)
    decreases |s| - from
  {
    match FindFrom(s, from)
    case None =>
      RewriteNoMatchMarkers(s, from);
    case Some(m) =>
      MatchWithoutMarkers(s, m);
      RewriteRemovesMarkers(s, m.End());
      RewriteStepMarkers(s, from, m);
  }

  /**
   * Normalizing deletes the marker of every hashtag and keeps every other
   * character, in order: each match `before#tag` becomes `before + tag`.
   */
  lemma NormalizeRemovesMarkers(text: string)
    ensures NormalizeHashtags(text) == WithoutMarkers(text, 0)
  {
    RewriteRemovesMarkers(text, 0);
  }

  /**
   * An HTML entity such as `&#39;`, which escaping puts into the text before
   * normalizing, keeps its `#`: `&` may not stand before a hashtag.
   */
  lemma NormalizeKeepsEntities()
    ensures NormalizeHashtags("&#39; #a") == "&#39; a"
  {
    NormalizeRemovesMarkers("&#39; #a");
    EntityWithoutMarkers();
  }

  lemma EntityWithoutMarkers()
    ensures WithoutMarkers("&#39; #a", 0) == "&#39; a"
  {
    var s := "&#39; #a";
    forall k | 0 <= k < 6
      ensures !IsMarker(s, k)
    {
      if k == 1 {
        assert s[0] == '&';
      } else {
        assert s[k] != '#';
      }
    }
    WithoutMarkersKeeps(s, 0, 6);
    MarkerSkipped(s, 6);
    WithoutMarkersKeeps(s, 7, 8);
    assert s[0..6] + s[7..8] == "&#39; a";
  }

  /** Normalizing changes the text exactly when the recogniser finds a hashtag in it. */
  lemma NormalizeUnchangedIff(text: string)
    ensures NormalizeHashtags(text) == text <==> forall m :: !IsMatch(text, m)
  {
    NormalizeMarkerCount(text);
    assert text[0..] == text;
    if exists m :: IsMatch(text, m) {
      var m :| IsMatch(text, m);
      FindFromLeftmost(text, 0, m);
      assert HashtagCount(text) >= 1;
    } else {
      assert FindFrom(text, 0).None?;
    }
  }

  /** Normalizing a text in which the recogniser finds exactly one hashtag. */
  lemma NormalizeOneHashtag(s: string, m: HashtagMatch)
    requires FindFrom(s, 0) == Some(m) && FindFrom(s, m.End()).None?
    ensures NormalizeHashtags(s) == s[..m.start] + (m.before + m.tag) + s[m.End()..]
  {
    RewriteStepAt(s, 0, m, DropMarker);
    assert s[0..m.start] == s[..m.start];
  }

  lemma ExampleFindFoo()
    ensures FindFrom("check #Foo out", 0) == Some(HashtagMatch(5, " ", "Foo"))
    ensures FindFrom("check #Foo out", 10).None?
  {
    var s := "check #Foo out";
    WordsFromUnique(s, 7, 3);
    assert s[7..10] == "Foo";
    assert MatchAt(s, 5) == Some(HashtagMatch(5, " ", "Foo"));
  }

  lemma ExampleFooSplits()
    ensures "check #Foo out"[..5] + (" " + "Foo") + "check #Foo out"[10..] == "check Foo out"
  {
  }

  /** A hashtag in mid-sentence keeps its `before` and loses only its `#`. */
  lemma NormalizeExample()
    ensures NormalizeHashtags("check #Foo out") == "check Foo out"
  {
    ExampleFindFoo();
    NormalizeOneHashtag("check #Foo out", HashtagMatch(5, " ", "Foo"));
    ExampleFooSplits();
  }

  lemma ExampleFindTwice()
    ensures FindFrom("##a", 0) == Some(HashtagMatch(0, "#", "a"))
    ensures FindFrom("##a", 3).None?
  {
    var s := "##a";
    WordsFromUnique(s, 1, 0);
    WordsFromUnique(s, 2, 1);
    assert s[2..3] == "a" && [s[0]] == "#";
    assert MatchAt(s, 0) == Some(HashtagMatch(0, "#", "a"));
  }

  lemma ExampleFindOnce()
    ensures FindFrom("#a", 0) == Some(HashtagMatch(0, "", "a"))
    ensures FindFrom("#a", 2).None?
  {
    var s := "#a";
    WordsFromUnique(s, 1, 1);
    assert s[1..2] == "a";
    assert MatchAt(s, 0) == Some(HashtagMatch(0, "", "a"));
  }

  /** Normalizing twice is not normalizing once: a `#` can be the `before` of another hashtag. */
  lemma NormalizeNotIdempotent()
    ensures NormalizeHashtags("##a") == "#a"
    ensures NormalizeHashtags("#a") == "a"
  {
    ExampleFindTwice();
    NormalizeOneHashtag("##a", HashtagMatch(0, "#", "a"));
    assert "##a"[..0] + ("#" + "a") + "##a"[3..] == "#a";
    ExampleFindOnce();
    NormalizeOneHashtag("#a", HashtagMatch(0, "", "a"));
    assert "#a"[..0] + ("" + "a") + "#a"[2..] == "a";
  }
}
