/** `stripTrailingHashtags` (index.js:36-67). */
module Stripping {
  import opened Wrappers
  import opened Chars
  import opened Hashtags
  import opened TrailingScan

  /**
   * The `strippedTags` argument: `undefined`, `true`, an array of tag names,
   * or any other value (`false`, `null`, a string, ...).
   */
  datatype StripSelector = Unset | AllTags | TagList(names: seq<string>) | Other

  /**
   * Cuts the text at its trailing-hashtag boundary (`undefined` or `true`),
   * deletes the listed tags from the trailing run (an array), or leaves the
   * text alone (any other value, which the source reports as an error).
   */
  function StripTrailingHashtags(text: string, sel: StripSelector): (r: string)
    ensures sel.Other? ==> r == text
    ensures (sel.Unset? || sel.AllTags?) ==> r == text[..TrailingStart(text)]
    ensures sel.TagList? ==> text[..TrailingStart(text)] <= r
  {
    var b := TrailingStart(text);
    if b == |text| then text
    else
      match sel
      case Unset => text[..b]
      case AllTags => text[..b]
      case TagList(names) => text[..b] + Rewrite(text[b..], 0, StripListed(names))
      case Other => text
  }

  /** A text that does not end in a hashtag is returned unchanged, whatever the selector. */
  lemma StripWithoutTrailingTag(text: string, sel: StripSelector)
    requires FindTrailing(text).None?
    ensures StripTrailingHashtags(text, sel) == text
  {
    TrailingStartIsEndIff(text);
  }

  /**
   * Stripping all tags changes the text exactly when it ends in a hashtag, and
   * leaves no trailing hashtag behind, so stripping again changes nothing.
   */
  lemma StripAllLeavesNoTrailingTag(text: string)
    ensures StripTrailingHashtags(text, AllTags) == text <==> FindTrailing(text).None?
    ensures FindTrailing(StripTrailingHashtags(text, AllTags)).None?
    ensures StripTrailingHashtags(StripTrailingHashtags(text, AllTags), AllTags)
            == StripTrailingHashtags(text, AllTags)
  {
    var r := StripTrailingHashtags(text, AllTags);
    TrailingStartIsEndIff(text);
    TrailingStartExhausts(text);
    TrailingStartIdempotent(text);
    TrailingStartIsEndIff(r);
  }

  /**
   * Stripping all tags cuts off only a run of hashtags: the result is a prefix
   * of the text, and every character it drops belongs to the trailing run.
   */
  lemma StripAllCutsTrailingRun(text: string)
    ensures StripTrailingHashtags(text, AllTags) <= text
    ensures forall k :: |StripTrailingHashtags(text, AllTags)| <= k < |text| ==> InTrailingRun(text, k)
  {
    TrailingStartInRun(text);
  }

  /** The number of listed hashtags in the trailing run, the ones whose `#` the array selector removes. */
  function ListedTrailingCount(text: string, names: seq<string>): nat {
    var b := TrailingStart(text);
    if b == |text| then 0 else DroppedCount(text[b..], 0, StripListed(names))
  }

  /** The number of characters the array selector deletes from the trailing run. */
  function ListedTrailingLength(text: string, names: seq<string>): nat {
    var b := TrailingStart(text);
    if b == |text| then 0 else StrippedTotal(text[b..], 0, names)
  }

  /**
   * With an array of names, stripping only deletes characters: one `#` for each
   * listed tag of the trailing run and no other `#`, and in all the `#`, the
   * name and any whitespace `before` of each listed tag.
   */
  lemma StripListedOnlyDeletes(text: string, names: seq<string>)
    ensures IsSubsequence(StripTrailingHashtags(text, TagList(names)), text)
    ensures multiset(StripTrailingHashtags(text, TagList(names)))['#'] + ListedTrailingCount(text, names)
            == multiset(text)['#']
    ensures |StripTrailingHashtags(text, TagList(names))| + ListedTrailingLength(text, names) == |text|
  {
    var b := TrailingStart(text);
    if b == |text| {
      SubsequenceRefl(text);
    } else {
      StripListedSplit(text, b, names);
      KeepPrefixThenRewrite(text, b, StripListed(names));
      assert text[b..][0..] == text[b..];
      RewriteStripLength(text[b..], 0, names);
    }
  }

  lemma StripListedSplit(text: string, b: nat, names: seq<string>)
    requires b < |text| && b == TrailingStart(text)
    ensures StripTrailingHashtags(text, TagList(names)) == text[..b] + Rewrite(text[b..], 0, StripListed(names))
    ensures ListedTrailingCount(text, names) == DroppedCount(text[b..], 0, StripListed(names))
    ensures ListedTrailingLength(text, names) == StrippedTotal(text[b..], 0, names)
  {
  }

  lemma KeepPrefixThenRewrite(text: string, b: nat, rw: Rewriter)
    requires b <= |text|
    ensures IsSubsequence(text[..b] + Rewrite(text[b..], 0, rw), text)
    ensures multiset(text[..b] + Rewrite(text[b..], 0, rw))['#'] + DroppedCount(text[b..], 0, rw)
            == multiset(text)['#']
  {
    var prefix, suffix := text[..b], text[b..];
    assert text == prefix + suffix;
    assert suffix[0..] == suffix;
    RewriteIsSubsequence(suffix, 0, rw);
    RewriteMarkers(suffix, 0, rw);
    SubsequenceRefl(prefix);
    SubsequenceConcat(prefix, prefix, Rewrite(suffix, 0, rw), suffix);
  }

  /** With an array that names none of the trailing run's tags, the text is returned unchanged. */
  lemma StripListedKeepsUnlisted(text: string, names: seq<string>)
    requires forall m :: IsMatch(text[TrailingStart(text)..], m) ==> !ListedIgnoringCase(names, m.tag)
    ensures StripTrailingHashtags(text, TagList(names)) == text
  {
    var b := TrailingStart(text);
    if b < |text| {
      var suffix := text[b..];
      UnlistedUnchanged(suffix, names);
      StripListedSplit(text, b, names);
      assert text == text[..b] + suffix;
    }
  }

  lemma UnlistedUnchanged(s: string, names: seq<string>)
    requires forall m :: IsMatch(s, m) ==> !ListedIgnoringCase(names, m.tag)
    ensures Rewrite(s, 0, StripListed(names)) == s
  {
    var rw := StripListed(names);
    forall m | IsMatch(s, m) && 0 <= m.start
      ensures Replacement(rw, m) == m.Text()
    {
    }
    RewriteKeepsUnchangedMatches(s, 0, rw);
    assert s[0..] == s;
  }

  /** A text ending in `#` and one name character, after a character that may precede a hashtag. */
  lemma FindTrailingOneLetter(p: string)
    requires 3 <= |p| && IsWordChar(p[|p| - 1]) && p[|p| - 2] == '#' && IsBeforeChar(p[|p| - 3])
    ensures FindTrailing(p) == Some(TrailingMatch(|p| - 3 - SpacesBefore(p, |p| - 3), [p[|p| - 3]]))
  {
    var n := |p|;
    assert !IsSpace(p[n - 1]) by { WordIsNotSpace(p[n - 1]); }
    assert SpacesBefore(p, n) == 0;
    assert WordsBefore(p, n - 1) == 0;
    assert WordsBefore(p, n) == 1;
  }

  lemma WordIsNotSpace(c: char)
    requires IsWordChar(c)
    ensures !IsSpace(c)
  {
  }

  /** The first step of the scan, on the whole text. */
  lemma ScanFirstStep(text: string, m: TrailingMatch)
    requires FindTrailing(text) == Some(m)
    ensures TrailingStart(text) == TrailingStartFrom(text, NextBoundary(m))
  {
    assert text[..|text|] == text;
  }

  /** One step of the scan: the boundary moves from `b` to after the match found in `p == text[..b]`. */
  lemma ScanStep(text: string, b: nat, p: string, m: TrailingMatch)
    requires b <= |text| && p == text[..b] && FindTrailing(p) == Some(m)
    ensures TrailingStartFrom(text, b) == TrailingStartFrom(text, NextBoundary(m))
  {
  }

  /** The last step of the scan: nothing matches in `p == text[..b]`. */
  lemma ScanStop(text: string, b: nat, p: string)
    requires b <= |text| && p == text[..b] && FindTrailing(p).None?
    ensures TrailingStartFrom(text, b) == b
  {
  }

  /** Cutting at the boundary: the result in terms of the kept prefix and the scanned suffix. */
  lemma StripAt(text: string, prefix: string, suffix: string, sel: StripSelector)
    requires text == prefix + suffix && suffix != [] && TrailingStart(text) == |prefix|
    ensures sel.AllTags? ==> StripTrailingHashtags(text, sel) == prefix
    ensures sel.TagList? ==> StripTrailingHashtags(text, sel) == prefix + Rewrite(suffix, 0, StripListed(sel.names))
  {
    assert text[..|prefix|] == prefix;
    assert text[|prefix|..] == suffix;
  }

  lemma ExampleScanFirst()
    ensures FindTrailing("hello #a #b") == Some(TrailingMatch(8, " "))
  {
    var p := "hello #a #b";
    FindTrailingOneLetter(p);
    assert SpacesBefore(p, 8) == 0;
  }

  lemma ExampleScanSecond()
    ensures FindTrailing("hello #a") == Some(TrailingMatch(5, " "))
  {
    var p := "hello #a";
    FindTrailingOneLetter(p);
    assert SpacesBefore(p, 5) == 0;
  }

  lemma ExampleScanLast()
    ensures FindTrailing("hello").None?
  {
    var p := "hello";
    assert SpacesBefore(p, 5) == 0 && WordsBefore(p, 5) == 5;
  }

  /** A match after whitespace leaves the boundary at its own index; one after another character, right after it. */
  lemma BoundaryAfter(m: TrailingMatch, c: char)
    requires m.before == [c]
    ensures NextBoundary(m) == if IsSpace(c) then m.index else m.index + 1
  {
    assert IsSpace(c) <==> AllSpace(m.before) by {
      assert m.before[0] == c;
    }
  }

  lemma ExampleScanFrom5()
    ensures TrailingStartFrom("hello #a #b", 5) == 5
  {
    var text, p := "hello #a #b", "hello";
    ExampleScanLast();
    assert text[..5] == p;
    ScanStop(text, 5, p);
  }

  lemma ExampleScanFrom8()
    ensures TrailingStartFrom("hello #a #b", 8) == 5
  {
    var text, p := "hello #a #b", "hello #a";
    var m := TrailingMatch(5, " ");
    ExampleScanSecond();
    assert text[..8] == p;
    ScanStep(text, 8, p, m);
    BoundaryAfter(m, ' ');
    ExampleScanFrom5();
  }

  lemma ExampleScanAll()
    ensures TrailingStart("hello #a #b") == 5
  {
    var text := "hello #a #b";
    var m := TrailingMatch(8, " ");
    ExampleScanFirst();
    ScanFirstStep(text, m);
    BoundaryAfter(m, ' ');
    ExampleScanFrom8();
  }

  lemma ExampleFindFirst()
    ensures FindFrom(" #a #b", 0) == Some(HashtagMatch(0, " ", "a"))
  {
    var s := " #a #b";
    WordsFromUnique(s, 2, 1);
    assert s[2..3] == "a";
    assert MatchAt(s, 0) == Some(HashtagMatch(0, " ", "a"));
  }

  lemma ExampleFindSecond()
    ensures FindFrom(" #a #b", 3) == Some(HashtagMatch(3, " ", "b"))
    ensures FindFrom(" #a #b", 6).None?
  {
    var s := " #a #b";
    WordsFromUnique(s, 5, 1);
    assert s[5..6] == "b";
    assert MatchAt(s, 3) == Some(HashtagMatch(3, " ", "b"));
  }

  /** With `["b"]`, `#a` stays and `#b` goes together with the space before it. */
  lemma ExampleReplacements()
    ensures Replacement(StripListed(["b"]), HashtagMatch(0, " ", "a")) == " #a"
    ensures Replacement(StripListed(["b"]), HashtagMatch(3, " ", "b")) == ""
  {
    assert !ListedIgnoringCase(["b"], "a") by {
      assert LowerCase("b") == "b" && LowerCase("a") == "a";
    }
    assert ListedIgnoringCase(["b"], "b");
    assert AllSpace(" ");
  }

  lemma ExampleRewrite()
    ensures Rewrite(" #a #b", 0, StripListed(["b"])) == " #a"
  {
    var s := " #a #b";
    var rw := StripListed(["b"]);
    var a, b := HashtagMatch(0, " ", "a"), HashtagMatch(3, " ", "b");
    ExampleFindFirst();
    ExampleFindSecond();
    ExampleReplacements();
    RewriteStepAt(s, 0, a, rw);
    RewriteStepAt(s, 3, b, rw);
    assert Rewrite(s, 6, rw) == [];
  }

  lemma ExampleSplits()
    ensures "hello #a #b" == "hello" + " #a #b"
    ensures "hello" + " #a" == "hello #a"
  {
  }

  lemma StripAllExample()
    ensures StripTrailingHashtags("hello #a #b", AllTags) == "hello"
  {
    ExampleSplits();
    ExampleScanAll();
    StripAt("hello #a #b", "hello", " #a #b", AllTags);
  }

  lemma StripListedExample()
    ensures StripTrailingHashtags("hello #a #b", TagList(["b"])) == "hello #a"
  {
    ExampleSplits();
    ExampleScanAll();
    StripAt("hello #a #b", "hello", " #a #b", TagList(["b"]));
    ExampleRewrite();
  }

  /** `hello #a #b`: all tags go with `true`; with `["b"]` only `#b` and the space before it go. */
  lemma StripExamples()
    ensures StripTrailingHashtags("hello #a #b", AllTags) == "hello"
    ensures StripTrailingHashtags("hello #a #b", TagList(["b"])) == "hello #a"
  {
    StripAllExample();
    StripListedExample();
  }

  lemma SeparatorScanFirst()
    ensures FindTrailing("a .#b") == Some(TrailingMatch(1, "."))
  {
    var p := "a .#b";
    FindTrailingOneLetter(p);
    assert SpacesBefore(p, 2) == 1;
  }

  lemma SeparatorScanFrom2()
    ensures TrailingStartFrom("a .#b", 2) == 2
  {
    var text, p := "a .#b", "a ";
    assert FindTrailing(p).None? by {
      assert SpacesBefore(p, 2) == 1 && WordsBefore(p, 1) == 1;
    }
    assert text[..2] == p;
    ScanStop(text, 2, p);
  }

  lemma SeparatorScan()
    ensures TrailingStart("a .#b") == 2
  {
    var text := "a .#b";
    var m := TrailingMatch(1, ".");
    SeparatorScanFirst();
    ScanFirstStep(text, m);
    BoundaryAfter(m, '.');
    SeparatorScanFrom2();
  }

  lemma SeparatorSplits()
    ensures "a .#b" == "a " + ".#b"
    ensures "a " + "." == "a ."
  {
  }

  lemma SeparatorRewrite()
    ensures Rewrite(".#b", 0, StripListed(["b"])) == "."
  {
    var suffix := ".#b";
    var m := HashtagMatch(0, ".", "b");
    WordsFromUnique(suffix, 2, 1);
    assert suffix[2..3] == "b";
    assert MatchAt(suffix, 0) == Some(m);
    assert FindFrom(suffix, 3).None?;
    assert Replacement(StripListed(["b"]), m) == "." by {
      assert ListedIgnoringCase(["b"], "b");
      assert !IsSpace(m.before[0]);
    }
  }

  /**
   * `match.index + 1` (index.js:30) lands inside the whitespace when spaces
   * precede a non-space `before`: stripping all tags of `a .#b` also drops the
   * `.`, which stripping the listed tag `b` keeps.
   */
  lemma StripSeparatorAfterSpace()
    ensures StripTrailingHashtags("a .#b", AllTags) == "a "
    ensures StripTrailingHashtags("a .#b", TagList(["b"])) == "a ."
  {
    SeparatorSplits();
    SeparatorScan();
    StripAt("a .#b", "a ", ".#b", AllTags);
    StripAt("a .#b", "a ", ".#b", TagList(["b"]));
    SeparatorRewrite();
  }
}
