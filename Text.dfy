/**
 * Character and string helpers shared by both scripts, and a leftmost
 * scanner that stands for Ruby's `=~` / `Regexp#match` on one fixed pattern:
 * the pattern is given as a function that says whether (and with which
 * captures) it matches at the start of a string.
 */
module Text {
  import opened Wrappers

  predicate IsDigit(c: char) { '0' <= c <= '9' }

  function DigitValue(c: char): (n: nat)
    requires IsDigit(c)
    ensures n < 10
  {
    (c as int) - ('0' as int)
  }

  predicate AllDigits(s: string) { forall k | 0 <= k < |s| :: IsDigit(s[k]) }

  /** The value Ruby's `String#to_i` gives a string of decimal digits. */
  function DecimalValue(s: string): nat
    requires AllDigits(s)
    decreases |s|
  {
    if s == [] then 0 else DecimalValue(s[..|s| - 1]) * 10 + DigitValue(s[|s| - 1])
  }

  predicate StartsWith(s: string, prefix: string) {
    |prefix| <= |s| && s[..|prefix|] == prefix
  }

  predicate EndsWith(s: string, suffix: string) {
    |suffix| <= |s| && s[|s| - |suffix|..] == suffix
  }

  /** Literal substring search, as `grep` with a pattern free of special characters does it. */
  predicate Contains(s: string, t: string) {
    exists i | 0 <= i <= |s| :: StartsWith(s[i..], t)
  }

  /** The end of the longest run of characters in `inClass` starting at `i`. */
  function RunEnd(s: string, i: nat, inClass: char -> bool): (j: nat)
    requires i <= |s|
    ensures i <= j <= |s|
    ensures forall k | i <= k < j :: inClass(s[k])
    ensures j == |s| || !inClass(s[j])
    decreases |s| - i
  {
    if i < |s| && inClass(s[i]) then RunEnd(s, i + 1, inClass) else i
  }

  /** The run is the longest one: any stretch of class members from `i` ends within it. */
  lemma {:induction false} RunEndMaximal(s: string, i: nat, a: nat, inClass: char -> bool)
    requires i <= a <= |s|
    requires forall k | i <= k < a :: inClass(s[k])
    ensures a <= RunEnd(s, i, inClass)
    decreases a - i
  {
    if i < a {
      RunEndMaximal(s, i + 1, a, inClass);
    }
  }

  /** A stretch of class members that ends at the end of `s` or at a non-member is exactly the run from `i`. */
  lemma RunEndAt(s: string, i: nat, a: nat, inClass: char -> bool)
    requires i <= a <= |s|
    requires forall k | i <= k < a :: inClass(s[k])
    requires a == |s| || !inClass(s[a])
    ensures RunEnd(s, i, inClass) == a
  {
    RunEndMaximal(s, i, a, inClass);
  }

  /** The end of the greedy run `\d*` that starts at position `i`. */
  function DigitRunEnd(s: string, i: nat): (j: nat)
    requires i <= |s|
    ensures i <= j <= |s|
    ensures forall k | i <= k < j :: IsDigit(s[k])
    ensures j == |s| || !IsDigit(s[j])
  {
    RunEnd(s, i, IsDigit)
  }

  /**
   * Leftmost match: the captures of the first position `i` (scanning from
   * the left) at which the pattern `at` matches `s[i..]`.
   */
  function FirstMatch<T>(s: string, at: string -> Option<T>): (r: Option<T>)
    decreases |s|
  {
    match at(s)
    case Some(v) => Some(v)
    case None => if s == [] then None else FirstMatch(s[1..], at)
  }

  /**
   * The scan finds nothing exactly when no position matches, and what it
   * finds is the match at a position before which none matches.
   */
  lemma {:induction false} FirstMatchSpec<T>(s: string, at: string -> Option<T>)
    ensures var r := FirstMatch(s, at);
      && (r.None? <==> forall i | 0 <= i <= |s| :: at(s[i..]).None?)
      && (r.Some? ==> exists i | 0 <= i <= |s| :: at(s[i..]) == r && forall j | 0 <= j < i :: at(s[j..]).None?)
    decreases |s|
  {
    assert s[0..] == s;
    if at(s).None? && s != [] {
      FirstMatchSpec(s[1..], at);
      assert forall i | 1 <= i <= |s| :: s[1..][i - 1..] == s[i..];
      var r := FirstMatch(s[1..], at);
      if r.Some? {
        var i :| 0 <= i <= |s| - 1 && at(s[1..][i..]) == r && forall j | 0 <= j < i :: at(s[1..][j..]).None?;
        assert at(s[i + 1..]) == r;
        forall j | 0 <= j < i + 1
          ensures at(s[j..]).None?
        {
          if j > 0 {
            assert at(s[1..][j - 1..]).None?;
          }
        }
      }
    }
  }

  lemma AppendAssoc<T>(a: seq<T>, b: seq<T>, c: seq<T>)
    ensures a + (b + c) == (a + b) + c
  {
  }

  /**
   * A pattern preceded by a greedy `.*` over positions `lo..hi` of `s`: the
   * match of `at` at the last of those positions where it matches.
   */
  function LastMatch<T>(s: string, lo: nat, hi: nat, at: string -> Option<T>): (r: Option<T>)
    requires lo <= hi <= |s|
    decreases hi
  {
    if at(s[hi..]).Some? then at(s[hi..])
    else if hi == lo then None
    else LastMatch(s, lo, hi - 1, at)
  }

  /** LastMatch finds nothing exactly when no position matches, and otherwise the match at the last position that does. */
  lemma {:induction false} LastMatchSpec<T>(s: string, lo: nat, hi: nat, at: string -> Option<T>)
    requires lo <= hi <= |s|
    ensures var r := LastMatch(s, lo, hi, at);
      && (r.None? <==> forall p | lo <= p <= hi :: at(s[p..]).None?)
      && (r.Some? ==> exists p | lo <= p <= hi :: at(s[p..]) == r && forall q | p < q <= hi :: at(s[q..]).None?)
    decreases hi
  {
    var r := LastMatch(s, lo, hi, at);
    if at(s[hi..]).Some? {
      assert at(s[hi..]) == r;
    } else if hi > lo {
      LastMatchSpec(s, lo, hi - 1, at);
      assert r == LastMatch(s, lo, hi - 1, at);
      if r.Some? {
        var p :| lo <= p <= hi - 1 && at(s[p..]) == r && forall q | p < q <= hi - 1 :: at(s[q..]).None?;
        assert forall q | p < q <= hi :: at(s[q..]).None?;
      }
    }
  }

  /** Positions above `mid` where nothing matches do not change the last match. */
  lemma {:induction false} LastMatchSkip<T>(s: string, lo: nat, mid: nat, hi: nat, at: string -> Option<T>)
    requires lo <= mid <= hi <= |s|
    requires forall q | mid < q <= hi :: at(s[q..]).None?
    ensures LastMatch(s, lo, hi, at) == LastMatch(s, lo, mid, at)
    decreases hi
  {
    if mid < hi {
      LastMatchSkip(s, lo, mid, hi - 1, at);
    }
  }

  /** The digits of `/(\d+)/` matched at the start of a string. */
  function DigitsAt(t: string): (r: Option<string>)
    ensures r.Some? ==> r.value != [] && AllDigits(r.value) && StartsWith(t, r.value)
    ensures r.Some? ==> |r.value| == |t| || !IsDigit(t[|r.value|])
  {
    if |t| > 0 && IsDigit(t[0]) then Some(t[..DigitRunEnd(t, 0)]) else None
  }

  /**
   * `/(\d+)/.match(s)[1]`: the first maximal run of digits, if any. It starts
   * at the first digit of `s` and runs up to the next non-digit.
   */
  function FirstDigits(s: string): (r: Option<string>)
    ensures r.None? <==> forall k | 0 <= k < |s| :: !IsDigit(s[k])
    ensures r.Some? ==> r.value != [] && AllDigits(r.value) && Contains(s, r.value)
    ensures r.Some? ==> FirstRun(s, r.value)
  {
    FirstDigitsFacts(s);
    FirstMatch(s, DigitsAt)
  }

  /** `run` occurs at `i` in `s`, and ends at a non-digit or the end of `s`. */
  predicate RunAt(s: string, run: string, i: nat) {
    && i + |run| <= |s| && s[i..i + |run|] == run
    && (i + |run| == |s| || !IsDigit(s[i + |run|]))
  }

  /** `run` starts at the first digit of `s` and ends at a non-digit or the end. */
  ghost predicate FirstRun(s: string, run: string) {
    exists i | 0 <= i < |s| :: (forall k | 0 <= k < i :: !IsDigit(s[k])) && RunAt(s, run, i)
  }

  lemma FirstDigitsFacts(s: string)
    ensures var r := FirstMatch(s, DigitsAt);
      && (r.None? <==> forall k | 0 <= k < |s| :: !IsDigit(s[k]))
      && (r.Some? ==> r.value != [] && AllDigits(r.value) && Contains(s, r.value) && FirstRun(s, r.value))
  {
    var r := FirstMatch(s, DigitsAt);
    FirstMatchSpec(s, DigitsAt);
    if r.None? {
      forall k | 0 <= k < |s| ensures !IsDigit(s[k]) {
        NoDigitsAt(s, k);
      }
    } else {
      var i :| 0 <= i <= |s| && DigitsAt(s[i..]) == r && forall j | 0 <= j < i :: DigitsAt(s[j..]).None?;
      DigitsAtRun(s, i);
      forall k | 0 <= k < i ensures !IsDigit(s[k]) {
        NoDigitsAt(s, k);
      }
    }
  }

  /** Where `/(\d+)/` does not match, there is no digit. */
  lemma NoDigitsAt(s: string, k: nat)
    requires k < |s| && DigitsAt(s[k..]).None?
    ensures !IsDigit(s[k])
  {
    assert s[k..][0] == s[k];
  }

  /** A match of `/(\d+)/` at `i` is a maximal run of digits at `i`. */
  lemma DigitsAtRun(s: string, i: nat)
    requires i <= |s| && DigitsAt(s[i..]).Some?
    ensures Contains(s, DigitsAt(s[i..]).value) && RunAt(s, DigitsAt(s[i..]).value, i)
  {
    var run := DigitsAt(s[i..]).value;
    var n := |run|;
    assert StartsWith(s[i..], run);
    assert s[i..][..n] == s[i..i + n];
    assert i + n == |s| || s[i..][n] == s[i + n];
  }
}
