/**
 * The pieces of Python's built-in string behaviour that the ingestion code relies on:
 * whitespace, `sep.join`, `str.split()`, `str.split(sep)`, `str.strip()`, `str.replace(p, "")`,
 * `s[:n]`, `p in s`, `s.startswith(p)`, `os.path.basename` and `str(n)` for a natural number.
 */
module Strings {
  import opened Wrappers

  /** Python's `str.isspace()` for one character, which is also what `\s` and `str.split()` use. */
  predicate IsSpace(c: char)
  {
    var n := c as int;
    n == 0x20 || 0x09 <= n <= 0x0D || 0x1C <= n <= 0x1F || n == 0x85 || n == 0xA0
    || n == 0x1680 || 0x2000 <= n <= 0x200A || n == 0x2028 || n == 0x2029
    || n == 0x202F || n == 0x205F || n == 0x3000
  }

  predicate NoSpace(s: string)
  {
    forall i :: 0 <= i < |s| ==> !IsSpace(s[i])
  }

  predicate AllSpace(s: string)
  {
    forall i :: 0 <= i < |s| ==> IsSpace(s[i])
  }

  /** `sep.join(parts)`. */
  function Join(parts: seq<string>, sep: string): string
    decreases |parts|
  {
    if |parts| == 0 then ""
    else if |parts| == 1 then parts[0]
    else parts[0] + sep + Join(parts[1..], sep)
  }

  /** The summed length of the parts, separators not included. */
  function Size(parts: seq<string>): nat
    decreases |parts|
  {
    if |parts| == 0 then 0 else |parts[0]| + Size(parts[1..])
  }

  lemma {:induction false} SizeAppend(parts: seq<string>, p: string)
    ensures Size(parts + [p]) == Size(parts) + |p|
    decreases |parts|
  {
    if |parts| > 0 {
      assert (parts + [p])[1..] == parts[1..] + [p];
      SizeAppend(parts[1..], p);
    }
  }

  /** A joined non-empty list is as long as its parts plus one separator between each pair. */
  lemma {:induction false} JoinLength(parts: seq<string>, sep: string)
    requires |parts| > 0
    ensures |Join(parts, sep)| == Size(parts) + (|parts| - 1) * |sep|
    decreases |parts|
  {
    if |parts| > 1 {
      JoinLength(parts[1..], sep);
    }
  }

  /** `outer[0] + inner[0] + outer[1] + ... + inner[n - 1] + outer[n]`. */
  function Interleave(outer: seq<string>, inner: seq<string>): string
    requires |outer| == |inner| + 1
    decreases |inner|
  {
    if inner == [] then outer[0] else outer[0] + inner[0] + Interleave(outer[1..], inner[1..])
  }

  // ---------------------------------------------------------------------------------------
  // Substring search

  predicate OccursAt(s: string, pat: string, k: nat)
  {
    k + |pat| <= |s| && s[k..k + |pat|] == pat
  }

  /** The leftmost occurrence of `pat` in `s` at or after `from`, as `str.find` reports it. */
  function FindFrom(s: string, pat: string, from: nat): (r: Option<nat>)
    ensures r.Some? ==> from <= r.value && OccursAt(s, pat, r.value)
    ensures r.Some? ==> forall j :: from <= j < r.value ==> !OccursAt(s, pat, j)
    ensures r.None? ==> forall j :: from <= j ==> !OccursAt(s, pat, j)
    decreases |s| - from
  {
    if from + |pat| > |s| then None
    else if s[from..from + |pat|] == pat then Some(from)
    else FindFrom(s, pat, from + 1)
  }

  function Find(s: string, pat: string): Option<nat>
  {
    FindFrom(s, pat, 0)
  }

  /** `pat in s`. */
  predicate Contains(s: string, pat: string)
  {
    Find(s, pat).Some?
  }

  /** `s.startswith(p)`. */
  predicate StartsWith(s: string, p: string)
  {
    |p| <= |s| && s[..|p|] == p
  }

  /** `s.split(sep)` for a non-empty separator: the pieces between non-overlapping occurrences. */
  function SplitOn(s: string, sep: string): (r: seq<string>)
    requires |sep| > 0
    ensures |r| >= 1
    decreases |s|
  {
    match Find(s, sep)
    case None => [s]
    case Some(k) => [s[..k]] + SplitOn(s[k + |sep|..], sep)
  }

  /** `s.split(sep)[0]`: everything before the first occurrence of `sep`. */
  function Before(s: string, sep: string): (r: string)
    requires |sep| > 0
  {
    SplitOn(s, sep)[0]
  }

  /** Splitting on a separator and joining back with it gives the original string. */
  lemma {:induction false} SplitOnJoin(s: string, sep: string)
    requires |sep| > 0
    ensures Join(SplitOn(s, sep), sep) == s
    decreases |s|
  {
    var f := Find(s, sep);
    if f.Some? {
      var k := f.value;
      var rest := s[k + |sep|..];
      SplitOnAt(s, sep, k);
      SplitOnJoin(rest, sep);
      JoinCons(s[..k], SplitOn(rest, sep), sep);
      SliceJoin(s, k, k + |sep|);
    }
  }

  /** No piece of `s.split(sep)` contains the separator. */
  lemma {:induction false} SplitOnPiecesFree(s: string, sep: string)
    requires |sep| > 0
    ensures forall i :: 0 <= i < |SplitOn(s, sep)| ==> !Contains(SplitOn(s, sep)[i], sep)
    decreases |s|
  {
    match Find(s, sep)
    case None =>
    case Some(k) =>
      var rest := s[k + |sep|..];
      SplitOnPiecesFree(rest, sep);
      var r := SplitOn(s, sep);
      assert r == [s[..k]] + SplitOn(rest, sep);
      PrefixBeforeFirstIsFree(s, sep, k);
  }

  /** The text before the first occurrence of a pattern does not contain it. */
  lemma {:induction false} PrefixBeforeFirstIsFree(s: string, pat: string, k: nat)
    requires |pat| > 0 && k <= |s|
    requires forall j :: 0 <= j < k ==> !OccursAt(s, pat, j)
    ensures !Contains(s[..k], pat)
  {
    var p := s[..k];
    if Find(p, pat).Some? {
      var j := Find(p, pat).value;
      assert p[j..j + |pat|] == s[j..j + |pat|];
      assert OccursAt(s, pat, j);
    }
  }

  /**
   * The cuts are the leftmost ones: every piece but the last ends where the first occurrence of
   * the separator in the rest of the string starts.
   */
  lemma {:induction false} SplitOnLeftmost(s: string, sep: string)
    requires |sep| > 0
    ensures forall i :: 0 <= i < |SplitOn(s, sep)| - 1 ==>
      CutAtFirst(Join(SplitOn(s, sep)[i..], sep), SplitOn(s, sep)[i], sep)
  {
    forall i | 0 <= i < |SplitOn(s, sep)| - 1
      ensures CutAtFirst(Join(SplitOn(s, sep)[i..], sep), SplitOn(s, sep)[i], sep)
    {
      SplitOnLeftmostAt(s, sep, i);
    }
  }

  /** The cut after piece `i` is the leftmost one in what follows the earlier pieces. */
  lemma {:induction false} SplitOnLeftmostAt(s: string, sep: string, i: nat)
    requires |sep| > 0 && i + 1 < |SplitOn(s, sep)|
    ensures CutAtFirst(Join(SplitOn(s, sep)[i..], sep), SplitOn(s, sep)[i], sep)
    decreases |s|
  {
    var r := SplitOn(s, sep);
    var f := Find(s, sep);
    assert f.Some?;
    var k := f.value;
    var rest := s[k + |sep|..];
    var tail := SplitOn(rest, sep);
    assert r == [s[..k]] + tail;
    if i == 0 {
      SplitOnJoin(s, sep);
      assert r[0..] == r;
    } else {
      SplitOnLeftmostAt(rest, sep, i - 1);
      assert r[i..] == tail[i - 1..];
      assert r[i] == tail[i - 1];
    }
  }

  /** `piece` runs from the start of `rest` up to the first occurrence of `sep` in it. */
  predicate CutAtFirst(rest: string, piece: string, sep: string)
  {
    var f := Find(rest, sep);
    f.Some? && f.value == |piece|
  }

  lemma {:induction false} BeforeAtFirst(s: string, sep: string, k: nat)
    requires |sep| > 0 && Find(s, sep) == Some(k)
    ensures Before(s, sep) == s[..k]
  {
  }

  // ---------------------------------------------------------------------------------------
  // Whitespace handling

  /** `s.lstrip()`: the suffix left after dropping leading whitespace. */
  function DropLeadingSpace(s: string): (r: string)
    ensures |r| <= |s| && r == s[|s| - |r|..]
    ensures r == [] || !IsSpace(r[0])
    decreases |s|
  {
    if |s| > 0 && IsSpace(s[0]) then DropLeadingSpace(s[1..]) else s
  }

  /** What `s.lstrip()` drops is whitespace. */
  lemma {:induction false} LeadingRunIsSpace(s: string)
    ensures AllSpace(s[..|s| - |DropLeadingSpace(s)|])
    decreases |s|
  {
    if |s| > 0 && IsSpace(s[0]) {
      LeadingRunIsSpace(s[1..]);
      LeadingSpaceStep(s, s[1..], DropLeadingSpace(s[1..]));
    }
  }

  /** A space in front of a suffix whose prefix is all space keeps the prefix all space. */
  lemma {:induction false} LeadingSpaceStep(s: string, t: string, r: string)
    requires |s| > 0 && IsSpace(s[0]) && t == s[1..]
    requires |r| <= |t| && r == t[|t| - |r|..] && AllSpace(t[..|t| - |r|])
    ensures r == s[|s| - |r|..] && AllSpace(s[..|s| - |r|])
  {
    var n := |s| - |r|;
    assert t[n - 1..] == s[n..];
    forall k | 0 <= k < n ensures IsSpace(s[..n][k]) {
      if k > 0 {
        assert s[..n][k] == t[..n - 1][k - 1];
      }
    }
  }

  /** `s.rstrip()`: the prefix left after dropping trailing whitespace. */
  function DropTrailingSpace(s: string): (r: string)
    ensures |r| <= |s| && r == s[..|r|] && AllSpace(s[|r|..])
    ensures r == [] || !IsSpace(r[|r| - 1])
    decreases |s|
  {
    if |s| > 0 && IsSpace(s[|s| - 1]) then
      var r := DropTrailingSpace(s[..|s| - 1]);
      TrailingSpaceStep(s, s[..|s| - 1], r);
      r
    else s
  }

  /** A space behind a prefix whose suffix is all space keeps the suffix all space. */
  lemma {:induction false} TrailingSpaceStep(s: string, t: string, r: string)
    requires |s| > 0 && IsSpace(s[|s| - 1]) && t == s[..|s| - 1]
    requires |r| <= |t| && r == t[..|r|] && AllSpace(t[|r|..])
    ensures r == s[..|r|] && AllSpace(s[|r|..])
  {
    assert t[..|r|] == s[..|r|];
    forall k | 0 <= k < |s| - |r| ensures IsSpace(s[|r|..][k]) {
      if k < |t| - |r| {
        assert s[|r|..][k] == t[|r|..][k];
      }
    }
  }

  /** `s.strip()`: the middle of `s` once whitespace is dropped from both ends. */
  function Strip(s: string): (r: string)
    ensures exists i, j :: 0 <= i <= j <= |s| && r == s[i..j] && AllSpace(s[..i]) && AllSpace(s[j..])
    ensures r == [] || (!IsSpace(r[0]) && !IsSpace(r[|r| - 1]))
  {
    StripSlice(s);
    StripEnds(s);
    DropTrailingSpace(DropLeadingSpace(s))
  }

  /** Dropping both ends leaves a slice of the input with only whitespace outside it. */
  lemma {:induction false} StripSlice(s: string)
    ensures var t := DropLeadingSpace(s); var r := DropTrailingSpace(t);
      exists i, j :: 0 <= i <= j <= |s| && r == s[i..j] && AllSpace(s[..i]) && AllSpace(s[j..])
  {
    var t := DropLeadingSpace(s);
    var r := DropTrailingSpace(t);
    var i := |s| - |t|;
    LeadingRunIsSpace(s);
    PrefixOfSuffix(s, t, r);
    SameSpace(t[|r|..], s[i + |r|..]);
    SpaceAroundSlice(s, r, i, i + |r|);
  }

  lemma {:induction false} SameSpace(x: string, y: string)
    requires AllSpace(x) && x == y
    ensures AllSpace(y)
  {
  }

  /** A slice with only whitespace on either side of it. */
  lemma {:induction false} SpaceAroundSlice(s: string, r: string, i: nat, j: nat)
    requires i <= j <= |s| && r == s[i..j] && AllSpace(s[..i]) && AllSpace(s[j..])
    ensures exists i, j :: 0 <= i <= j <= |s| && r == s[i..j] && AllSpace(s[..i]) && AllSpace(s[j..])
  {
  }

  /** A prefix `r` of a suffix `t` of `s` is a slice of `s`, and what follows it in `t` ends `s`. */
  lemma {:induction false} PrefixOfSuffix(s: string, t: string, r: string)
    requires |t| <= |s| && t == s[|s| - |t|..] && |r| <= |t| && r == t[..|r|]
    ensures r == s[|s| - |t|..|s| - |t| + |r|] && s[|s| - |t| + |r|..] == t[|r|..]
  {
  }

  /** What is left after dropping both ends starts and ends with a non-space. */
  lemma {:induction false} StripEnds(s: string)
    ensures var r := DropTrailingSpace(DropLeadingSpace(s));
      r == [] || (!IsSpace(r[0]) && !IsSpace(r[|r| - 1]))
  {
    var t := DropLeadingSpace(s);
    var r := DropTrailingSpace(t);
    if r != [] {
      assert r[0] == t[0];
    }
  }

  /** The index of the first whitespace character at or after `i` (or the end). */
  function WordEnd(s: string, i: nat): (r: nat)
    requires i <= |s|
    ensures i <= r <= |s| && (r < |s| ==> IsSpace(s[r]))
    decreases |s| - i
  {
    if i == |s| || IsSpace(s[i]) then i else WordEnd(s, i + 1)
  }

  /** The characters from `i` up to `WordEnd(s, i)` hold no whitespace. */
  lemma {:induction false} WordEndNoSpace(s: string, i: nat)
    requires i <= |s|
    ensures NoSpace(s[i..WordEnd(s, i)])
    decreases |s| - i
  {
    if i < |s| && !IsSpace(s[i]) {
      var r := WordEnd(s, i);
      WordEndNoSpace(s, i + 1);
      forall k | 0 < k < r - i ensures !IsSpace(s[i..r][k]) {
        assert s[i..r][k] == s[i + 1..r][k - 1];
      }
    }
  }

  /** `s.split()`: the maximal runs of non-whitespace characters, in order. */
  function Words(s: string): (r: seq<string>)
    decreases |s|
  {
    var t := DropLeadingSpace(s);
    if t == [] then []
    else
      var k := WordEnd(t, 0);
      [t[..k]] + Words(t[k..])
  }

  /** The whitespace runs around and between the words of `s.split()`, the outer two possibly empty. */
  function WordGaps(s: string): (r: seq<string>)
    ensures |r| == |Words(s)| + 1
    ensures AllSpaceRuns(r)
    decreases |s|
  {
    var t := DropLeadingSpace(s);
    var lead := s[..|s| - |t|];
    LeadingRunIsSpace(s);
    if t == [] then
      AllSpaceSingle(lead);
      [lead]
    else
      var gaps := WordGaps(t[WordEnd(t, 0)..]);
      AllSpaceCons(lead, gaps);
      [lead] + gaps
  }

  /** A single whitespace run. */
  lemma {:induction false} AllSpaceSingle(x: string)
    requires AllSpace(x)
    ensures AllSpaceRuns([x])
  {
    assert [x][0] == x;
  }

  /** Every string of the list is whitespace only. */
  predicate AllSpaceRuns(gaps: seq<string>)
  {
    forall i :: 0 <= i < |gaps| ==> AllSpace(gaps[i])
  }

  /** A whitespace run in front of whitespace runs. */
  lemma {:induction false} AllSpaceCons(x: string, xs: seq<string>)
    requires AllSpace(x) && AllSpaceRuns(xs)
    ensures AllSpaceRuns([x] + xs)
  {
    forall i | 0 < i < |[x] + xs| ensures AllSpace(([x] + xs)[i]) {
      assert ([x] + xs)[i] == xs[i - 1];
    }
  }

  /**
   * `s.split()` cuts `s` into words and whitespace: the words are non-empty and hold no
   * whitespace, the runs between them are non-empty whitespace, the runs at either end are
   * whitespace, and all of them interleaved give `s` back.
   */
  lemma {:induction false} WordsAreWords(s: string)
    ensures forall i :: 0 <= i < |Words(s)| ==> |Words(s)[i]| > 0 && NoSpace(Words(s)[i])
    ensures Interleave(WordGaps(s), Words(s)) == s
    ensures forall i :: 0 <= i < |WordGaps(s)| ==> AllSpace(WordGaps(s)[i])
    ensures forall i :: 0 < i < |Words(s)| ==> WordGaps(s)[i] != []
  {
    WordsNonEmpty(s);
    WordsInterleave(s);
    WordGapsInterior(s);
  }

  lemma {:induction false} WordsNonEmpty(s: string)
    ensures forall i :: 0 <= i < |Words(s)| ==> |Words(s)[i]| > 0 && NoSpace(Words(s)[i])
    decreases |s|
  {
    var t := DropLeadingSpace(s);
    if t != [] {
      var k := WordEnd(t, 0);
      var w, rest := t[..k], t[k..];
      assert k > 0;
      assert NoSpace(w) by { WordEndNoSpace(t, 0); assert w == t[0..k]; }
      WordsNonEmpty(rest);
      var tail := Words(rest);
      assert Words(s) == [w] + tail;
      forall i | 0 <= i < |Words(s)|
        ensures |Words(s)[i]| > 0 && NoSpace(Words(s)[i])
      {
        if i > 0 {
          assert Words(s)[i] == tail[i - 1];
        }
      }
    }
  }

  lemma {:induction false} WordsInterleave(s: string)
    ensures Interleave(WordGaps(s), Words(s)) == s
    decreases |s|
  {
    var t := DropLeadingSpace(s);
    var n := |s| - |t|;
    var lead := s[..n];
    if t == [] {
      assert lead == s;
    } else {
      var k := WordEnd(t, 0);
      WordsInterleave(t[k..]);
      InterleaveCons(lead, t[..k], WordGaps(t[k..]), Words(t[k..]));
      ThreeSlices(s, n, k);
    }
  }

  /** Cutting `s` at `n` and its suffix again at `k` loses nothing. */
  lemma {:induction false} ThreeSlices(s: string, n: nat, k: nat)
    requires n + k <= |s|
    ensures s[..n] + s[n..][..k] + s[n..][k..] == s
  {
    assert s[n..][..k] + s[n..][k..] == s[n..];
  }

  /** Cutting a string at two points and putting the three parts together gives it back. */
  lemma {:induction false} SliceJoin(s: string, i: nat, j: nat)
    requires i <= j <= |s|
    ensures s[..i] + s[i..j] + s[j..] == s
  {
    assert s[..i] + s[i..j] == s[..j];
  }

  /** One more pair of pieces put in front of an interleaving. */
  lemma {:induction false} InterleaveCons(x: string, y: string, outer: seq<string>, inner: seq<string>)
    requires |outer| == |inner| + 1
    ensures Interleave([x] + outer, [y] + inner) == x + y + Interleave(outer, inner)
  {
    assert ([x] + outer)[1..] == outer && ([y] + inner)[1..] == inner;
  }

  lemma {:induction false} WordGapsInterior(s: string)
    ensures forall i :: 0 < i < |Words(s)| ==> WordGaps(s)[i] != []
    decreases |s|
  {
    var t := DropLeadingSpace(s);
    if t != [] {
      var k := WordEnd(t, 0);
      var rest := t[k..];
      WordGapsInterior(rest);
      var gaps := WordGaps(rest);
      assert |Words(s)| == 1 + |Words(rest)|;
      assert WordGaps(s)[1..] == gaps;
      if rest != [] {
        RunBeforeWordIsSpace(rest);
      }
    }
  }

  /** A string that starts with whitespace and has a word has a non-empty leading run. */
  lemma {:induction false} RunBeforeWordIsSpace(s: string)
    requires |s| > 0 && IsSpace(s[0])
    ensures WordGaps(s)[0] != []
  {
  }

  // ---------------------------------------------------------------------------------------
  // Slicing, replacing and paths

  /** `s[:n]` for a non-negative `n`. */
  function Take<T>(s: seq<T>, n: nat): (r: seq<T>)
    ensures |r| == if |s| <= n then |s| else n
    ensures r == s[..|r|]
  {
    if |s| <= n then s else s[..n]
  }

  /** `s.replace(pat, "")`: every non-overlapping occurrence, scanning left to right, removed. */
  function RemoveAll(s: string, pat: string): (r: string)
    requires |pat| > 0
    ensures |r| <= |s|
    ensures r == Join(SplitOn(s, pat), "")
    decreases |s|
  {
    if |s| < |pat| then s
    else if s[..|pat|] == pat then
      JoinSplitStep(s, pat);
      RemoveAll(s[|pat|..], pat)
    else
      JoinSplitStep(s, pat);
      [s[0]] + RemoveAll(s[1..], pat)
  }

  /** `"".join(s.split(pat))` loses a leading occurrence of `pat`, and keeps any other first character. */
  lemma {:induction false} JoinSplitStep(s: string, pat: string)
    requires |pat| > 0 && |s| >= |pat|
    ensures s[..|pat|] == pat ==> Join(SplitOn(s, pat), "") == Join(SplitOn(s[|pat|..], pat), "")
    ensures s[..|pat|] != pat ==> Join(SplitOn(s, pat), "") == [s[0]] + Join(SplitOn(s[1..], pat), "")
  {
    if s[..|pat|] == pat {
      assert OccursAt(s, pat, 0);
      assert SplitOn(s, pat) == [""] + SplitOn(s[|pat|..], pat);
      JoinCons("", SplitOn(s[|pat|..], pat), "");
    } else {
      JoinSplitShift(s, pat);
    }
  }

  /** Without an occurrence at the front, the first character stays in front of the joined split. */
  lemma {:induction false} JoinSplitShift(s: string, pat: string)
    requires |pat| > 0 && |s| >= |pat| && !OccursAt(s, pat, 0)
    ensures Join(SplitOn(s, pat), "") == [s[0]] + Join(SplitOn(s[1..], pat), "")
  {
    FindShift(s, pat);
    var f := Find(s, pat);
    if f.Some? {
      var m := f.value;
      var tail := SplitOn(s[m + |pat|..], pat);
      SplitOnShift(s, pat, m);
      calc {
        Join(SplitOn(s, pat), "");
        { JoinCons(s[..m], tail, ""); }
        s[..m] + "" + Join(tail, "");
        { HeadRest(s, m, Join(tail, "")); }
        [s[0]] + (s[1..m] + "" + Join(tail, ""));
        { JoinCons(s[1..m], tail, ""); }
        [s[0]] + Join(SplitOn(s[1..], pat), "");
      }
    } else {
      HeadRest(s, |s|, "");
    }
  }

  /** A non-empty prefix followed by anything is its first character followed by the rest. */
  lemma {:induction false} HeadRest(s: string, m: nat, y: string)
    requires 1 <= m <= |s|
    ensures s[..m] + "" + y == [s[0]] + (s[1..m] + "" + y)
  {
    assert s[..m] == [s[0]] + s[1..m];
  }

  /** The first piece of a split that does not start at the front loses its first character in `s[1..]`. */
  lemma {:induction false} SplitOnShift(s: string, pat: string, m: nat)
    requires |pat| > 0 && |s| > 0 && !OccursAt(s, pat, 0)
    requires Find(s, pat).Some? && Find(s, pat).value == m
    ensures m >= 1 && m + |pat| <= |s|
    ensures SplitOn(s, pat) == [s[..m]] + SplitOn(s[m + |pat|..], pat)
    ensures SplitOn(s[1..], pat) == [s[1..m]] + SplitOn(s[m + |pat|..], pat)
  {
    FindShift(s, pat);
    SplitOnAt(s, pat, m);
    SplitOnAt(s[1..], pat, m - 1);
    TailSlices(s, m, m + |pat|);
  }

  /** `s.split(sep)` when the first occurrence of `sep` is at `k`. */
  lemma {:induction false} SplitOnAt(s: string, sep: string, k: nat)
    requires |sep| > 0 && Find(s, sep).Some? && Find(s, sep).value == k
    ensures k + |sep| <= |s|
    ensures SplitOn(s, sep) == [s[..k]] + SplitOn(s[k + |sep|..], sep)
  {
  }

  /** Slices of `s[1..]` are the slices of `s` one place later. */
  lemma {:induction false} TailSlices(s: string, i: nat, j: nat)
    requires 1 <= i <= j <= |s|
    ensures s[1..][..i - 1] == s[1..i] && s[1..][j - 1..] == s[j..]
  {
  }

  /** Joining a list with one more part in front. */
  lemma {:induction false} JoinCons(a: string, parts: seq<string>, sep: string)
    requires |parts| > 0
    ensures Join([a] + parts, sep) == a + sep + Join(parts, sep)
  {
    assert ([a] + parts)[1..] == parts;
  }

  /** With no occurrence at the front, the occurrences of `s[1..]` are those of `s`, one place earlier. */
  lemma {:induction false} FindShift(s: string, pat: string)
    requires |pat| > 0 && |s| > 0 && !OccursAt(s, pat, 0)
    ensures var a, b := Find(s, pat), Find(s[1..], pat);
      (a.None? <==> b.None?) && (a.Some? ==> a.value >= 1 && b.value == a.value - 1)
  {
    forall j: nat | OccursAt(s[1..], pat, j) ensures OccursAt(s, pat, j + 1) {
      assert s[1..][j..j + |pat|] == s[j + 1..j + 1 + |pat|];
    }
    forall j: nat | j >= 1 && OccursAt(s, pat, j) ensures OccursAt(s[1..], pat, j - 1) {
      assert s[1..][j - 1..j - 1 + |pat|] == s[j..j + |pat|];
    }
  }

  /** A string without the pattern is left as it is by `replace`. */
  lemma {:induction false} RemoveAllFree(s: string, pat: string)
    requires |pat| > 0 && !Contains(s, pat)
    ensures RemoveAll(s, pat) == s
    decreases |s|
  {
    if |s| >= |pat| {
      assert !OccursAt(s, pat, 0);
      assert !Contains(s[1..], pat) by {
        if Find(s[1..], pat).Some? {
          var j := Find(s[1..], pat).value;
          assert s[1..][j..j + |pat|] == s[j + 1..j + 1 + |pat|];
          assert OccursAt(s, pat, j + 1);
        }
      }
      RemoveAllFree(s[1..], pat);
    }
  }

  /** POSIX `os.path.basename(path)`: the part after the last `/`. */
  function Basename(path: string): string
    decreases |path|
  {
    if |path| == 0 || path[|path| - 1] == '/' then []
    else Basename(path[..|path| - 1]) + [path[|path| - 1]]
  }

  /** The base name is the longest suffix of the path without a `/`. */
  lemma {:induction false} BasenameIsLastComponent(path: string)
    ensures var r := Basename(path);
      |r| <= |path| && r == path[|path| - |r|..]
      && (forall i :: 0 <= i < |r| ==> r[i] != '/')
      && (|r| < |path| ==> path[|path| - |r| - 1] == '/')
    decreases |path|
  {
    if |path| > 0 && path[|path| - 1] != '/' {
      var init := path[..|path| - 1];
      var c := path[|path| - 1];
      BasenameIsLastComponent(init);
      var r0 := Basename(init);
      var r := r0 + [c];
      assert Basename(path) == r;
      assert path[|path| - |r|..] == init[|init| - |r0|..] + [c];
      forall i | 0 <= i < |r| ensures r[i] != '/' {
        if i < |r0| {
          assert r[i] == r0[i];
        }
      }
      if |r| < |path| {
        assert path[|path| - |r| - 1] == init[|init| - |r0| - 1];
      }
    }
  }

  // ---------------------------------------------------------------------------------------
  // Decimal rendering of natural numbers

  function DigitChar(d: nat): char
    requires d < 10
  {
    "0123456789"[d]
  }

  /** `str(n)` for a natural number. */
  function NatToString(n: nat): (r: string)
    ensures |r| >= 1 && (n < 10 <==> |r| == 1)
    decreases n
  {
    if n < 10 then [DigitChar(n)] else NatToString(n / 10) + [DigitChar(n % 10)]
  }

  /** Different numbers are rendered differently, so chunk ids `<id>_chunk_<i>` never collide. */
  lemma {:induction false} NatToStringInjective(a: nat, b: nat)
    requires NatToString(a) == NatToString(b)
    ensures a == b
    decreases a
  {
    if a >= 10 && b >= 10 {
      var sa, sb := NatToString(a), NatToString(b);
      assert sa[..|sa| - 1] == NatToString(a / 10);
      assert sb[..|sb| - 1] == NatToString(b / 10);
      NatToStringInjective(a / 10, b / 10);
      assert DigitChar(a % 10) == sa[|sa| - 1] == sb[|sb| - 1] == DigitChar(b % 10);
    }
  }
}
