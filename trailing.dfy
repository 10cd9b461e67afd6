/**
 * `_getTrailingHashtagsIndex` (index.js:21-34): where the run of hashtags at
 * the end of a text begins.
 *
 * The pattern of index.js:5 is `\s*` + the hashtag recogniser + `\s*$`, that
 * is `\s*(^|[^&a-z0-9_])#(\w+)\s*$`, and `exec` returns its leftmost match.
 */
module TrailingScan {
  import opened Wrappers
  import opened Chars

  /** A match of the trailing pattern: its start (`match.index`) and its `before` group (`match[1]`). */
  datatype TrailingMatch = TrailingMatch(index: nat, before: string)

  /**
   * The trailing pattern, stated declaratively: it matches `p` from `i`, with
   * `\s*` on `[i, j)`, the `before` group on `[j, h)`, `#` at `h`, the tag on
   * `(h, e)` and the final `\s*` on `[e, |p|)`.
   */
  ghost predicate TrailingShape(p: string, i: nat, j: nat, h: nat, e: nat)
    ensures TrailingShape(p, i, j, h, e) ==> i <= h < |p| && p[h] == '#'
  {
    && i <= j <= h && h + 1 < e <= |p|
    && (forall k :: i <= k < j ==> IsSpace(p[k]))
    && (if j == h then h == 0 else j + 1 == h && IsBeforeChar(p[j]))
    && p[h] == '#'
    && (forall k :: h < k < e ==> IsWordChar(p[k]))
    && (forall k :: e <= k < |p| ==> IsSpace(p[k]))
  }

  ghost predicate TrailingMatchAt(p: string, i: nat) {
    exists j: nat, h: nat, e: nat :: TrailingShape(p, i, j, h, e)
  }

  /** Where the text ends once its final whitespace is set aside. */
  function TagEnd(p: string): (e: nat)
    ensures e <= |p|
  {
    |p| - SpacesBefore(p, |p|)
  }

  /** Where the run of word characters that ends at `TagEnd(p)` begins. */
  function TagStart(p: string): (t: nat)
    ensures t <= TagEnd(p)
  {
    TagEnd(p) - WordsBefore(p, TagEnd(p))
  }

  /** The boundary index.js:27-31 moves to after a match. */
  function NextBoundary(m: TrailingMatch): (r: nat)
    ensures m.index <= r <= m.index + 1
  {
    if m.before == [] || AllSpace(m.before) then m.index else m.index + 1
  }

  /** `trailingHashtagRegex.exec(p)`: the leftmost match of the trailing pattern, or `null`. */
  function FindTrailing(p: string): (r: Option<TrailingMatch>)
    ensures r.Some? ==> NextBoundary(r.value) < |p|
  {
    var e := TagEnd(p);
    var t := TagStart(p);
    if t == e || t == 0 || p[t - 1] != '#' then None
    else if t == 1 then Some(TrailingMatch(0, ""))
    else if IsBeforeChar(p[t - 2]) then Some(TrailingMatch(t - 2 - SpacesBefore(p, t - 2), [p[t - 2]]))
    else None
  }

  /** A match of the trailing pattern can sit in one place only: its `#`, its tag and its `before` are forced. */
  lemma ShapeForced(p: string, i: nat, j: nat, h: nat, e: nat)
    requires TrailingShape(p, i, j, h, e)
    ensures e == TagEnd(p) && h + 1 == TagStart(p)
    ensures h == 0 ==> i == 0 && j == 0
    ensures h > 0 ==> j == h - 1 && h - 1 - SpacesBefore(p, h - 1) <= i
  {
    assert IsWordChar(p[e - 1]);
  }

  /** What `FindTrailing` returns is a match of the pattern, with the right `before` group. */
  lemma FindTrailingSound(p: string)
    requires FindTrailing(p).Some?
    ensures exists j: nat, h: nat, e: nat :: TrailingShape(p, FindTrailing(p).value.index, j, h, e)
                              && FindTrailing(p).value.before == p[j..h]
  {
    var m := FindTrailing(p);
    var e := TagEnd(p);
    var h := TagStart(p) - 1;
    var j := if h == 0 then 0 else h - 1;
    assert TrailingShape(p, m.value.index, j, h, e);
  }

  /** Wherever the pattern matches, `FindTrailing` finds a match, and one that starts no later. */
  lemma FindTrailingLeftmost(p: string, i: nat)
    requires TrailingMatchAt(p, i)
    ensures FindTrailing(p).Some? && FindTrailing(p).value.index <= i
  {
    var j, h, e :| TrailingShape(p, i, j, h, e);
    ShapeForced(p, i, j, h, e);
  }

  /** The boundary the scan reaches from boundary `b`: it stops when the prefix `text[..b]` has no match. */
  function TrailingStartFrom(text: string, b: nat): (r: nat)
    requires b <= |text|
    ensures r <= b
    decreases b
  {
    match FindTrailing(text[..b])
    case None => b
    case Some(m) => TrailingStartFrom(text, NextBoundary(m))
  }

  function TrailingStart(text: string): (r: nat)
    ensures r <= |text|
  {
    TrailingStartFrom(text, |text|)
  }

  /** The loop of index.js:25-32, with the `null` test made before `match[1]` is read. */
  method TrailingTagsStart(text: string) returns (start: nat)
    ensures start == TrailingStart(text)
  {
    start := |text|;
    var found := FindTrailing(text[..start]);
    while found.Some?
      invariant start <= |text|
      invariant found == FindTrailing(text[..start])
      invariant TrailingStartFrom(text, start) == TrailingStart(text)
      decreases start
    {
      start := NextBoundary(found.value);
      found := FindTrailing(text[..start]);
    }
  }

  /** The scan stops only at a boundary before which no trailing hashtag is left. */
  lemma {:induction false} TrailingStartFromExhausts(text: string, b: nat)
    requires b <= |text|
    ensures FindTrailing(text[..TrailingStartFrom(text, b)]).None?
    decreases b
  {
    match FindTrailing(text[..b])
    case None =>
    case Some(m) => TrailingStartFromExhausts(text, NextBoundary(m));
  }

  lemma TrailingStartExhausts(text: string)
    ensures FindTrailing(text[..TrailingStart(text)]).None?
  {
    TrailingStartFromExhausts(text, |text|);
  }

  /** The boundary is the end of the text exactly when the text does not end in a hashtag. */
  lemma TrailingStartIsEndIff(text: string)
    ensures TrailingStart(text) == |text| <==> FindTrailing(text).None?
  {
    assert text[..|text|] == text;
  }

  /** Scanning the text cut at its boundary finds the same boundary. */
  lemma TrailingStartIdempotent(text: string)
    ensures TrailingStart(text[..TrailingStart(text)]) == TrailingStart(text)
  {
    var r := TrailingStart(text);
    TrailingStartExhausts(text);
    assert text[..r][..r] == text[..r];
  }

  /**
   * Position `k` of `text` can belong to a trailing run of hashtags: it is
   * whitespace, a `#` that starts a tag name, a character of a tag name that
   * follows a `#`, or the one character that precedes a `#`.
   */
  ghost predicate InTrailingRun(text: string, k: nat)
    requires k < |text|
  {
    || IsSpace(text[k])
    || (text[k] == '#' && k + 1 < |text| && IsWordChar(text[k + 1]))
    || (IsWordChar(text[k]) && WordsBefore(text, k) < k && text[k - WordsBefore(text, k) - 1] == '#')
    || (IsBeforeChar(text[k]) && k + 1 < |text| && text[k + 1] == '#')
  }

  lemma {:induction false} WordsBeforeAfterMarker(s: string, h: nat, k: nat)
    requires h < k <= |s| && s[h] == '#'
    requires forall q :: h < q < k ==> IsWordChar(s[q])
    ensures WordsBefore(s, k) == k - h - 1
    decreases k
  {
    if k == h + 1 {
      assert !IsWordChar(s[h]);
    } else {
      assert IsWordChar(s[k - 1]);
      WordsBeforeAfterMarker(s, h, k - 1);
    }
  }

  /** Everything a match of the trailing pattern covers in the prefix `text[..b]` belongs to the run. */
  lemma TrailingMatchInRun(text: string, b: nat)
    requires b <= |text| && FindTrailing(text[..b]).Some?
    ensures forall k :: FindTrailing(text[..b]).value.index <= k < b ==> InTrailingRun(text, k)
  {
    var p := text[..b];
    var m := FindTrailing(p).value;
    FindTrailingSound(p);
    var j: nat, h: nat, e: nat :| TrailingShape(p, m.index, j, h, e) && m.before == p[j..h];
    forall k | m.index <= k < b
      ensures InTrailingRun(text, k)
    {
      ShapeInRun(text, p, m.index, j, h, e, k);
    }
  }

  /** One position covered by a match of the trailing pattern in a prefix `p` of `text`. */
  lemma ShapeInRun(text: string, p: string, i: nat, j: nat, h: nat, e: nat, k: nat)
    requires |p| <= |text| && p == text[..|p|]
    requires TrailingShape(p, i, j, h, e) && i <= k < |p|
    ensures InTrailingRun(text, k)
  {
    assert text[k] == p[k];
    if k < j || e <= k {
      assert IsSpace(p[k]);
    } else if k < h {
      assert k + 1 == h && IsBeforeChar(p[k]);
      assert text[k + 1] == p[h];
    } else if k == h {
      assert text[k + 1] == p[h + 1] && IsWordChar(p[h + 1]);
    } else {
      TagCharInRun(text, p, h, e, k);
    }
  }

  /** A character of a tag name: the run of word characters before it reaches back to the `#`. */
  lemma TagCharInRun(text: string, p: string, h: nat, e: nat, k: nat)
    requires |p| <= |text| && p == text[..|p|] && e <= |p|
    requires h < k < e && p[h] == '#'
    requires forall q :: h < q < e ==> IsWordChar(p[q])
    ensures InTrailingRun(text, k)
  {
    forall q | h < q < k
      ensures IsWordChar(text[q])
    {
      assert text[q] == p[q];
    }
    assert text[h] == p[h] && text[k] == p[k];
    WordsBeforeAfterMarker(text, h, k);
  }

  /** The part the scan cuts off between its result and boundary `b` is made of the run's characters only. */
  lemma {:induction false} TrailingStartFromInRun(text: string, b: nat)
    requires b <= |text|
    ensures forall k :: TrailingStartFrom(text, b) <= k < b ==> InTrailingRun(text, k)
    decreases b
  {
    match FindTrailing(text[..b])
    case None =>
    case Some(m) =>
      TrailingMatchInRun(text, b);
      TrailingStartFromInRun(text, NextBoundary(m));
  }

  /** After the boundary there is only a run of hashtags: tag names, their `#`, what precedes each `#`, and whitespace. */
  lemma TrailingStartInRun(text: string)
    ensures forall k :: TrailingStart(text) <= k < |text| ==> InTrailingRun(text, k)
  {
    TrailingStartFromInRun(text, |text|);
  }

  /** What the variable `match` of index.js:24-26 holds: `undefined`, `null` or a match. */
  datatype ExecResult = Unassigned | Null | Matched(m: TrailingMatch)

  datatype ScanOutcome = Returned(start: nat) | ThrewTypeError(at: nat)

  /**
   * The loop of index.js:23-33 as written, from boundary `start`, with `last`
   * the value of `match` at the loop test: `match[1]` is read before the `null` test.
   */
  function ScanAsWritten(text: string, start: nat, last: ExecResult): (r: ScanOutcome)
    requires start <= |text|
    ensures r.Returned? <==> last.Null?
    ensures r.ThrewTypeError? ==> r.at <= start && FindTrailing(text[..r.at]).None?
    decreases start
  {
    if last.Null? then Returned(start)
    else
      match FindTrailing(text[..start])
      case None => ThrewTypeError(start)
      case Some(m) => ScanAsWritten(text, NextBoundary(m), Matched(m))
  }

  lemma {:induction false} ScanAsWrittenThrowsFrom(text: string, start: nat, last: ExecResult)
    requires start <= |text| && !last.Null?
    ensures ScanAsWritten(text, start, last) == ThrewTypeError(TrailingStartFrom(text, start))
    decreases start
  {
    match FindTrailing(text[..start])
    case None =>
    case Some(m) => ScanAsWrittenThrowsFrom(text, NextBoundary(m), Matched(m));
  }

  /**
   * As written, `_getTrailingHashtagsIndex` throws on every text, at the very
   * boundary the corrected loop returns.
   */
  lemma ScanAsWrittenAlwaysThrows(text: string)
    ensures ScanAsWritten(text, |text|, Unassigned) == ThrewTypeError(TrailingStart(text))
  {
    ScanAsWrittenThrowsFrom(text, |text|, Unassigned);
  }
}
