/**
 * The few operations on Python `str` values that the subtitle tool relies on:
 * `startswith`, `find`, `rfind`, `split` (with an explicit separator) and
 * `join`, with Python's semantics, over Dafny strings.
 */
module PyStr {

  datatype Option<T> = None | Some(value: T)

  /** The separator `d` occurs in `s` starting at index `i`. */
  predicate OccursAt(s: string, d: string, i: nat)
  {
    i + |d| <= |s| && s[i..i + |d|] == d
  }

  /** `d in s` */
  predicate Contains(s: string, d: string)
  {
    exists i: nat | i <= |s| :: OccursAt(s, d, i)
  }

  /** `s.startswith(p)` */
  predicate StartsWith(s: string, p: string)
  {
    |p| <= |s| && s[..|p|] == p
  }

  /**
   * `s.find(d, k)`: the least index at or after `k` where `d` occurs, or None
   * where Python answers -1 (FindFromIsFirst).
   */
  function FindFrom(s: string, d: string, k: nat): (r: Option<nat>)
    decreases |s| + 1 - k
    ensures r.Some? ==> k <= r.value && OccursAt(s, d, r.value)
  {
    if |s| < k + |d| then None
    else if OccursAt(s, d, k) then Some(k)
    else FindFrom(s, d, k + 1)
  }

  /** `s.find(d)`: the first occurrence of `d` in `s` (FindIsFirst). */
  function Find(s: string, d: string): (r: Option<nat>)
    ensures r.Some? ==> OccursAt(s, d, r.value)
  {
    FindFrom(s, d, 0)
  }

  /** The greatest index below `k` where `d` occurs (FindLastBeforeIsLast). */
  function FindLastBefore(s: string, d: string, k: nat): (r: Option<nat>)
    ensures r.Some? ==> r.value < k && OccursAt(s, d, r.value)
  {
    if k == 0 then None
    else if OccursAt(s, d, k - 1) then Some(k - 1)
    else FindLastBefore(s, d, k - 1)
  }

  /** `s.rfind(d)`: the last occurrence of `d` in `s` (RFindIsLast). */
  function RFind(s: string, d: string): (r: Option<nat>)
    ensures r.Some? ==> OccursAt(s, d, r.value)
  {
    FindLastBefore(s, d, |s| + 1)
  }

  /**
   * `s.split(d)` for a non-empty separator (Python raises ValueError on an
   * empty one): cut at the first occurrence, then split what follows it.
   */
  function Split(s: string, d: string): (parts: seq<string>)
    requires d != ""
    decreases |s|
    ensures |parts| >= 1
  {
    match Find(s, d)
    case None => [s]
    case Some(i) => [s[..i]] + Split(s[i + |d|..], d)
  }

  /** `d.join(parts)` */
  function Join(parts: seq<string>, d: string): string
  {
    if |parts| <= 1 then (if parts == [] then "" else parts[0])
    else parts[0] + d + Join(parts[1..], d)
  }

  /** `xs[-1]` */
  function Last<T>(xs: seq<T>): T
    requires |xs| > 0
  {
    xs[|xs| - 1]
  }

  /** The text before the first occurrence of `d`, or all of `s`. */
  function BeforeFirst(s: string, d: string): string
  {
    match Find(s, d)
    case None => s
    case Some(i) => s[..i]
  }

  /** The text after the last occurrence of `d`, or all of `s`. */
  function AfterLast(s: string, d: string): string
  {
    match RFind(s, d)
    case None => s
    case Some(j) => s[j + |d|..]
  }

  /**
   * No proper suffix of `d` is also a prefix of it, so two occurrences of `d`
   * never overlap. True of every one-character separator and of "v=".
   */
  predicate NonSelfOverlapping(d: string)
  {
    forall m: nat :: 0 < m < |d| ==> d[m..] != d[..|d| - m]
  }

  // ---------------------------------------------------------------------------
  // find and rfind

  lemma {:induction false} FindFromIsFirst(s: string, d: string, k: nat)
    ensures FindFrom(s, d, k).Some? ==>
      forall j: nat :: k <= j < FindFrom(s, d, k).value ==> !OccursAt(s, d, j)
    ensures FindFrom(s, d, k).None? ==> forall j: nat :: k <= j ==> !OccursAt(s, d, j)
    decreases |s| + 1 - k
  {
    if |s| >= k + |d| && !OccursAt(s, d, k) {
      FindFromIsFirst(s, d, k + 1);
    }
  }

  /** `s.find(d)` is the least index where `d` occurs, and is -1 exactly when `d not in s`. */
  lemma FindIsFirst(s: string, d: string)
    ensures Find(s, d).Some? ==> forall j: nat :: j < Find(s, d).value ==> !OccursAt(s, d, j)
    ensures Find(s, d).None? <==> !Contains(s, d)
  {
    FindFromIsFirst(s, d, 0);
  }

  lemma {:induction false} FindLastBeforeIsLast(s: string, d: string, k: nat)
    ensures FindLastBefore(s, d, k).Some? ==>
      forall j: nat :: FindLastBefore(s, d, k).value < j < k ==> !OccursAt(s, d, j)
    ensures FindLastBefore(s, d, k).None? ==> forall j: nat :: j < k ==> !OccursAt(s, d, j)
  {
    if k > 0 && !OccursAt(s, d, k - 1) {
      FindLastBeforeIsLast(s, d, k - 1);
    }
  }

  /** `s.rfind(d)` is the greatest index where `d` occurs, and is -1 exactly when `d not in s`. */
  lemma RFindIsLast(s: string, d: string)
    ensures RFind(s, d).Some? ==> forall j: nat :: RFind(s, d).value < j ==> !OccursAt(s, d, j)
    ensures RFind(s, d).None? <==> !Contains(s, d)
  {
    FindLastBeforeIsLast(s, d, |s| + 1);
  }

  // ---------------------------------------------------------------------------
  // Occurrences

  /** Two occurrences of `d` that overlap force a suffix of `d` to equal a prefix of it. */
  lemma OverlapIsBorder(s: string, d: string, i: nat, k: nat)
    requires OccursAt(s, d, i) && OccursAt(s, d, k) && i < k < i + |d|
    ensures d[k - i..] == d[..|d| - (k - i)]
  {
    var m := k - i;
    assert s[i..i + |d|][m..] == s[k..i + |d|];
    assert s[k..k + |d|][..|d| - m] == s[k..i + |d|];
  }

  /** An occurrence of `d` in `s[off..]` is an occurrence in `s`, shifted by `off`. */
  lemma OccursInSuffix(s: string, d: string, off: nat, j: nat)
    requires off <= |s|
    ensures OccursAt(s[off..], d, j) <==> OccursAt(s, d, off + j)
  {
    if j + |d| <= |s| - off {
      assert s[off..][j..j + |d|] == s[off + j..off + j + |d|];
    }
  }

  /** An occurrence of `d` within `s[..n]` is an occurrence in `s` at the same index. */
  lemma OccursInPrefix(s: string, d: string, n: nat, j: nat)
    requires n <= |s|
    ensures OccursAt(s[..n], d, j) ==> OccursAt(s, d, j)
    ensures j + |d| <= n && OccursAt(s, d, j) ==> OccursAt(s[..n], d, j)
  {
    if j + |d| <= n {
      assert s[..n][j..j + |d|] == s[j..j + |d|];
    }
  }

  /** A string without some character of `d` does not contain `d`. */
  lemma MissingCharMeansAbsent(t: string, d: string, k: nat)
    requires k < |d| && d[k] !in t
    ensures !Contains(t, d)
  {
    forall j: nat
      ensures !OccursAt(t, d, j)
    {
      if j + |d| <= |t| {
        assert t[j..j + |d|][k] == t[j + k];
      }
    }
  }

  /** With `t` free of a non-overlapping `d`, the text after the last `d` of `p + d + t` is `t`. */
  lemma AfterLastOfJoin(p: string, d: string, t: string)
    requires d != "" && NonSelfOverlapping(d) && !Contains(t, d)
    ensures AfterLast(p + d + t, d) == t
  {
    var s := p + d + t;
    var off := |p| + |d|;
    assert s[|p|..off] == d;
    assert s[off..] == t;
    assert OccursAt(s, d, |p|);
    RFindIsLast(s, d);
    var v := RFind(s, d).value;
    if |p| < v < off {
      OverlapIsBorder(s, d, |p|, v);
      assert false;
    }
    if off <= v {
      OccursInSuffix(s, d, off, v - off);
      assert false;
    }
  }

  /** With `t` free of a non-overlapping `d`, the text before the first `d` of `t + d + u` is `t`. */
  lemma BeforeFirstOfJoin(t: string, d: string, u: string)
    requires d != "" && NonSelfOverlapping(d) && !Contains(t, d)
    ensures BeforeFirst(t + d + u, d) == t
  {
    var s := t + d + u;
    assert s[|t|..|t| + |d|] == d;
    assert s[..|t|] == t;
    assert OccursAt(s, d, |t|);
    FindIsFirst(s, d);
    var i := Find(s, d).value;
    if i + |d| <= |t| {
      OccursInPrefix(s, d, |t|, i);
      assert false;
    }
    if i < |t| {
      OverlapIsBorder(s, d, i, |t|);
      assert false;
    }
  }

  // ---------------------------------------------------------------------------
  // split and join

  /** Python's `s.split(d)[0]`: the text before the first occurrence of `d`. */
  lemma SplitFirstIsBeforeFirst(s: string, d: string)
    requires d != ""
    ensures Split(s, d)[0] == BeforeFirst(s, d)
    ensures Contains(s, d) ==> OccursAt(s, d, |Split(s, d)[0]|)
  {
    FindIsFirst(s, d);
  }

  /** When `s[off..]` still holds `d`, the last occurrence in `s` lies there. */
  lemma LastOccurrenceInRest(s: string, d: string, off: nat, j: nat)
    requires off <= |s|
    requires RFind(s[off..], d) == Some(j)
    ensures RFind(s, d) == Some(off + j)
  {
    OccursInSuffix(s, d, off, j);
    RFindIsLast(s, d);
    RFindIsLast(s[off..], d);
    var v := RFind(s, d).value;
    if v > off + j {
      OccursInSuffix(s, d, off, v - off);
      assert false;
    }
  }

  /** ... and then the text after it is the same in `s` and in `s[off..]`. */
  lemma AfterLastInRest(s: string, d: string, off: nat)
    requires off <= |s|
    requires Contains(s[off..], d)
    ensures AfterLast(s, d) == AfterLast(s[off..], d)
  {
    RFindIsLast(s[off..], d);
    var j := RFind(s[off..], d).value;
    LastOccurrenceInRest(s, d, off, j);
    assert s[off..][j + |d|..] == s[off + j + |d|..];
  }

  /**
   * When `s[i + |d|..]` no longer holds a non-overlapping `d`, the first
   * occurrence `i` is also the last.
   */
  lemma LastOccurrenceIsFirst(s: string, d: string, i: nat)
    requires NonSelfOverlapping(d)
    requires OccursAt(s, d, i)
    requires !Contains(s[i + |d|..], d)
    ensures RFind(s, d) == Some(i)
  {
    var off := i + |d|;
    RFindIsLast(s, d);
    var v := RFind(s, d).value;
    if v >= off {
      OccursInSuffix(s, d, off, v - off);
      assert false;
    }
    if i < v {
      OverlapIsBorder(s, d, i, v);
      assert false;
    }
  }

  /**
   * Cutting `s` after an occurrence of a non-overlapping `d` keeps the text
   * after the last occurrence.
   */
  lemma AfterLastPastFirst(s: string, d: string, i: nat)
    requires NonSelfOverlapping(d)
    requires OccursAt(s, d, i)
    ensures AfterLast(s, d) == AfterLast(s[i + |d|..], d)
  {
    if Contains(s[i + |d|..], d) {
      AfterLastInRest(s, d, i + |d|);
    } else {
      LastOccurrenceIsFirst(s, d, i);
      RFindIsLast(s[i + |d|..], d);
    }
  }

  lemma SplitStep(s: string, d: string, i: nat)
    requires d != "" && Find(s, d) == Some(i)
    ensures Split(s, d) == [s[..i]] + Split(s[i + |d|..], d)
  {
  }

  lemma LastOfCons(x: string, xs: seq<string>)
    requires |xs| > 0
    ensures Last([x] + xs) == Last(xs)
  {
  }

  /**
   * Python's `s.split(d)[-1]` is the text after the last occurrence of `d`
   * (all of `s` when `d` does not occur), for a separator whose occurrences
   * cannot overlap.
   */
  lemma {:induction false} SplitLastIsAfterLast(s: string, d: string)
    requires d != "" && NonSelfOverlapping(d)
    ensures Last(Split(s, d)) == AfterLast(s, d)
    decreases |s|
  {
    match Find(s, d)
    case None =>
      FindIsFirst(s, d);
      RFindIsLast(s, d);
    case Some(i) =>
      var rest := s[i + |d|..];
      SplitStep(s, d, i);
      LastOfCons(s[..i], Split(rest, d));
      SplitLastIsAfterLast(rest, d);
      AfterLastPastFirst(s, d, i);
  }

  /** No piece of `s.split(d)` contains the separator. */
  lemma {:induction false} SplitPartsAvoidSeparator(s: string, d: string)
    requires d != ""
    ensures forall k :: 0 <= k < |Split(s, d)| ==> !Contains(Split(s, d)[k], d)
    decreases |s|
  {
    FindIsFirst(s, d);
    match Find(s, d)
    case None =>
    case Some(i) =>
      var rest := s[i + |d|..];
      SplitPartsAvoidSeparator(rest, d);
      forall j: nat
        ensures !OccursAt(s[..i], d, j)
      {
        OccursInPrefix(s, d, i, j);
      }
      SplitStep(s, d, i);
  }

  /** `d.join(s.split(d)) == s`: splitting loses nothing. */
  lemma {:induction false} JoinSplit(s: string, d: string)
    requires d != ""
    ensures Join(Split(s, d), d) == s
    decreases |s|
  {
    match Find(s, d)
    case None =>
    case Some(i) =>
      var rest := s[i + |d|..];
      JoinSplit(rest, d);
      SplitStep(s, d, i);
      var parts := Split(s, d);
      assert parts[1..] == Split(rest, d);
      assert s == s[..i] + d + rest;
  }
}
