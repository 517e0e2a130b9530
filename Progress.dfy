/**
 * The progress scrapers of mp4maker.rb. Both read the tool's output as the
 * chunks `pipe.each("\r")` yields. `execute_ffmpeg` turns `Duration:` and
 * `time=` fields into a percentage in tenths of a second and prints it only
 * when it changes; `execute_mencoder` prints a status line for every chunk
 * that carries percent, speed and remaining time. Both raise when the
 * tool's exit status is not zero.
 */
module Progress {
  import opened Wrappers
  import opened Text

  /* ---------- execute_ffmpeg ---------- */

  /** The two numbers `/time=(\d+).(\d+)/` captures; ffmpeg's elapsed time is `whole * 10 + fraction` tenths. */
  datatype Time = Time(whole: nat, fraction: nat)

  function Tenths(t: Time): nat { t.whole * 10 + t.fraction }

  const DurationLabel := "Duration: "
  const TimeLabel := "time="

  function TwoDigits(t: string, i: nat): nat
    requires i + 1 < |t| && IsDigit(t[i]) && IsDigit(t[i + 1])
  {
    DigitValue(t[i]) * 10 + DigitValue(t[i + 1])
  }

  /** Two digits read by `to_i` are the tens and the units. */
  lemma TwoDigitsValue(t: string, i: nat)
    requires i + 1 < |t| && IsDigit(t[i]) && IsDigit(t[i + 1])
    ensures AllDigits(t[i..i + 2]) && DecimalValue(t[i..i + 2]) == TwoDigits(t, i)
  {
    var s := t[i..i + 2];
    assert s[..1][..0] == [];
    assert s[..1] == [t[i]] && s[1] == t[i + 1];
    assert DecimalValue(s[..1]) == DigitValue(t[i]);
  }

  /** One digit read by `to_i` is its own value. */
  lemma OneDigitValue(t: string, i: nat)
    requires i < |t| && IsDigit(t[i])
    ensures AllDigits(t[i..i + 1]) && DecimalValue(t[i..i + 1]) == DigitValue(t[i])
  {
    assert t[i..i + 1][..0] == [];
  }

  /** The text at the start of `t` has the shape `Duration: dd:dd:dd.d` (the `.` any character but a newline). */
  predicate DurationField(t: string)
  {
    && |t| >= 20 && StartsWith(t, DurationLabel)
    && AllDigits(t[10..12]) && t[12] == ':' && AllDigits(t[13..15]) && t[15] == ':'
    && AllDigits(t[16..18]) && t[18] != '\n' && AllDigits(t[19..20])
  }

  /**
   * `/Duration: (\d{2}):(\d{2}):(\d{2}).(\d{1})/` at the start of `t`: the
   * duration in tenths of a second, `(($1.to_i * 60 + $2.to_i) * 60 + $3.to_i) * 10 + $4.to_i`.
   */
  function DurationAt(t: string): (r: Option<nat>)
    ensures r.Some? <==> DurationField(t)
    ensures r.Some? ==>
      r.value == ((DecimalValue(t[10..12]) * 60 + DecimalValue(t[13..15])) * 60 + DecimalValue(t[16..18])) * 10 + DecimalValue(t[19..20])
  {
    if DurationField(t) then
      DurationFieldDigits(t);
      Some(((TwoDigits(t, 10) * 60 + TwoDigits(t, 13)) * 60 + TwoDigits(t, 16)) * 10 + DigitValue(t[19]))
    else None
  }

  /** The shape of a duration field, checked character by character. */
  lemma DurationFieldOfChars(t: string)
    requires && |t| >= 20 && t[..10] == DurationLabel
             && IsDigit(t[10]) && IsDigit(t[11]) && t[12] == ':'
             && IsDigit(t[13]) && IsDigit(t[14]) && t[15] == ':'
             && IsDigit(t[16]) && IsDigit(t[17]) && t[18] != '\n' && IsDigit(t[19])
    ensures DurationField(t)
  {
    TwoDigitsValue(t, 10);
    TwoDigitsValue(t, 13);
    TwoDigitsValue(t, 16);
    OneDigitValue(t, 19);
  }

  /** The digits of a duration field, read one by one, have the values `to_i` gives the captures. */
  lemma DurationFieldDigits(t: string)
    requires DurationField(t)
    ensures && IsDigit(t[10]) && IsDigit(t[11]) && IsDigit(t[13]) && IsDigit(t[14])
            && IsDigit(t[16]) && IsDigit(t[17]) && IsDigit(t[19])
    ensures && DecimalValue(t[10..12]) == TwoDigits(t, 10) && DecimalValue(t[13..15]) == TwoDigits(t, 13)
            && DecimalValue(t[16..18]) == TwoDigits(t, 16) && DecimalValue(t[19..20]) == DigitValue(t[19])
  {
    assert t[10..12][0] == t[10] && t[10..12][1] == t[11];
    assert t[13..15][0] == t[13] && t[13..15][1] == t[14];
    assert t[16..18][0] == t[16] && t[16..18][1] == t[17];
    assert t[19..20][0] == t[19];
    TwoDigitsValue(t, 10);
    TwoDigitsValue(t, 13);
    TwoDigitsValue(t, 16);
    OneDigitValue(t, 19);
  }

  /**
   * `/time=(\d+).(\d+)/` can match at the start of `t` with the first group
   * ending at `a`: `time=`, digits up to `a`, any character but a newline at
   * `a`, and a digit after it.
   */
  predicate TimeSplitAt(t: string, a: nat)
  {
    && 5 < a && a + 1 < |t| && StartsWith(t, TimeLabel)
    && AllDigits(t[5..a]) && t[a] != '\n' && IsDigit(t[a + 1])
  }

  /**
   * `/time=(\d+).(\d+)/` at the start of `t`. The regex matches exactly when
   * some split works; the greedy first group takes the last split that does,
   * and the second group the whole digit run after the separator.
   */
  function TimeAt(t: string): (r: Option<Time>)
    ensures r.Some? <==> exists a: nat :: TimeSplitAt(t, a)
    ensures r.Some? ==> exists a: nat ::
      && TimeSplitAt(t, a) && (forall b: nat | a < b :: !TimeSplitAt(t, b))
      && r.value == Time(DecimalValue(t[5..a]), DecimalValue(t[a + 1..DigitRunEnd(t, a + 1)]))
  {
    if !(|t| > 5 && t[..5] == TimeLabel && IsDigit(t[5])) then
      NoTimeSplit(t);
      None
    else
      var j := DigitRunEnd(t, 5);
      if j + 1 < |t| && t[j] != '\n' && IsDigit(t[j + 1]) then
        TimeWholeRun(t, j);
        Some(Time(DecimalValue(t[5..j]), DecimalValue(t[j + 1..DigitRunEnd(t, j + 1)])))
      else if j - 5 >= 3 then
        TimeBacktrack(t, j);
        Some(Time(DecimalValue(t[5..j - 2]), DigitValue(t[j - 1])))
      else
        TimeShortRun(t, j);
        None
  }

  /** When a separator and a digit follow the whole run, the first group is the whole run. */
  lemma TimeWholeRun(t: string, j: nat)
    requires 5 <= |t| && StartsWith(t, TimeLabel) && j == DigitRunEnd(t, 5) && 5 < j
    requires j + 1 < |t| && t[j] != '\n' && IsDigit(t[j + 1])
    ensures TimeSplitAt(t, j) && forall b: nat | j < b :: !TimeSplitAt(t, b)
  {
    TimeSplitsEndByRun(t, j);
    RunIsDigits(t, 5, j);
  }

  /**
   * When nothing follows the whole run and it has fewer than three digits,
   * no split works: the separator would have to be one of its last two characters.
   */
  lemma TimeShortRun(t: string, j: nat)
    requires 5 <= |t| && j == DigitRunEnd(t, 5) && j - 5 < 3
    requires !(j + 1 < |t| && t[j] != '\n' && IsDigit(t[j + 1]))
    ensures forall a: nat :: !TimeSplitAt(t, a)
  {
    TimeSplitsEndByRun(t, j);
    forall a: nat ensures !TimeSplitAt(t, a) {
      assert TimeSplitAt(t, a) ==> a == j || a == j - 1;
    }
  }

  /** Without `time=` and a digit at the start, no split works. */
  lemma NoTimeSplit(t: string)
    requires !(|t| > 5 && t[..5] == TimeLabel && IsDigit(t[5]))
    ensures forall a: nat :: !TimeSplitAt(t, a)
  {
    forall a: nat | TimeSplitAt(t, a) ensures false {
    }
  }

  /** Every split lies within the digit run after `time=`. */
  lemma TimeSplitsEndByRun(t: string, j: nat)
    requires 5 <= |t| && j == DigitRunEnd(t, 5)
    ensures forall a: nat | TimeSplitAt(t, a) :: a <= j
  {
    forall a: nat | TimeSplitAt(t, a) ensures a <= j {
      forall k | 5 <= k < a ensures IsDigit(t[k]) {
        assert t[5..a][k - 5] == t[k];
      }
      RunEndMaximal(t, 5, a, IsDigit);
    }
  }

  /** A run found by `DigitRunEnd` is a string of digits. */
  lemma RunIsDigits(t: string, i: nat, j: nat)
    requires i <= |t| && j == DigitRunEnd(t, i)
    ensures AllDigits(t[i..j])
  {
    forall k | 0 <= k < j - i ensures IsDigit(t[i..j][k]) {
      assert t[i..j][k] == t[i + k];
    }
  }

  /**
   * When the whole run cannot be the first group, the regex gives back two
   * digits: the separator is the second-last digit and the second group the last.
   */
  lemma TimeBacktrack(t: string, j: nat)
    requires |t| > 5 && t[..5] == TimeLabel && IsDigit(t[5]) && j == DigitRunEnd(t, 5) && j - 5 >= 3
    requires !(j + 1 < |t| && t[j] != '\n' && IsDigit(t[j + 1]))
    ensures TimeSplitAt(t, j - 2) && forall b: nat | j - 2 < b :: !TimeSplitAt(t, b)
    ensures DigitRunEnd(t, j - 1) == j && AllDigits(t[j - 1..j]) && DecimalValue(t[j - 1..j]) == DigitValue(t[j - 1])
  {
    TimeSplitsEndByRun(t, j);
    RunIsDigits(t, 5, j);
    assert t[5..j - 2] == t[5..j][..j - 7];
    OneDigitValue(t, j - 1);
  }

  /**
   * The percentage of `elapsed` tenths out of `duration` tenths, as integer
   * division, capped at 100; 0 when the duration is nil or 0.
   */
  function Percent(elapsed: nat, duration: Option<nat>): (p: nat)
    ensures p <= 100
    ensures duration.None? || duration.value == 0 ==> p == 0
    ensures duration.Some? && 0 < duration.value && elapsed <= duration.value ==>
      p * duration.value <= elapsed * 100 < (p + 1) * duration.value
    ensures duration.Some? && 0 < duration.value && duration.value <= elapsed ==> p == 100
  {
    if duration.None? || duration.value == 0 then 0
    else
      ClampedQuotient(elapsed, duration.value);
      var q := elapsed * 100 / duration.value;
      if q > 100 then 100 else q
  }

  /** The quotient capped at 100 is the rounded-down percentage while elapsed is within the duration, and 100 from then on. */
  lemma ClampedQuotient(elapsed: nat, duration: nat)
    requires 0 < duration
    ensures var q := elapsed * 100 / duration;
      var p := if q > 100 then 100 else q;
      && p <= 100
      && (elapsed <= duration ==> p * duration <= elapsed * 100 < (p + 1) * duration)
      && (duration <= elapsed ==> p == 100)
  {
    DivisionBounds(elapsed, duration);
  }

  /** Integer division by a positive duration rounds down; the quotient reaches 100 exactly when elapsed does the duration. */
  lemma DivisionBounds(elapsed: nat, duration: nat)
    requires 0 < duration
    ensures var q := elapsed * 100 / duration;
      && q * duration <= elapsed * 100 < (q + 1) * duration
      && (elapsed <= duration ==> q <= 100)
      && (duration <= elapsed ==> 100 <= q)
  {
    var n := elapsed * 100;
    var q := n / duration;
    assert n == q * duration + n % duration;
    assert (q + 1) * duration == q * duration + duration;
    if elapsed <= duration {
      MultiplyMonotone(elapsed, duration, 100);
      if q > 100 {
        MultiplyMonotone(101, q, duration);
      }
    }
    if duration <= elapsed {
      MultiplyMonotone(duration, elapsed, 100);
      if q < 100 {
        MultiplyMonotone(q + 1, 100, duration);
      }
    }
  }

  lemma MultiplyMonotone(a: nat, b: nat, c: nat)
    requires a <= b
    ensures a * c <= b * c
  {
  }

  /**
   * The percentage one chunk reports, if it has a `time=` field. The duration
   * is the one found in the same chunk: in the Ruby block `duration` is a
   * block-local variable, so it starts out nil for every chunk.
   */
  function ChunkPercent(chunk: string): Option<nat>
  {
    match FirstMatch(chunk, TimeAt)
    case None => None
    case Some(time) => Some(Percent(Tenths(time), FirstMatch(chunk, DurationAt)))
  }

  /** The percentages computed for the chunks, in order, before de-duplication. */
  function Percents(chunks: seq<string>): (ps: seq<nat>)
    ensures forall k | 0 <= k < |ps| :: ps[k] <= 100
    ensures |ps| <= |chunks|
  {
    if chunks == [] then []
    else
      var rest := Percents(chunks[1..]);
      match ChunkPercent(chunks[0])
      case None => rest
      case Some(p) => [p] + rest
  }

  /** Some percentage is computed exactly when some chunk carries a `time=` field. */
  lemma {:induction false} PercentsEmpty(chunks: seq<string>)
    ensures Percents(chunks) == [] <==> forall k | 0 <= k < |chunks| :: ChunkPercent(chunks[k]).None?
  {
    if chunks != [] {
      PercentsEmpty(chunks[1..]);
      assert forall k | 1 <= k < |chunks| :: chunks[1..][k - 1] == chunks[k];
    }
  }

  /** No two neighbouring values are equal. */
  ghost predicate NoRepeats(s: seq<nat>)
  {
    forall i, j | 0 <= i < j < |s| && j == i + 1 :: s[i] != s[j]
  }

  /**
   * The values printed as `PROGRESS: p`, given the value printed last
   * (`progress`, nil at the start): a value is printed only when it differs
   * from the previous one.
   */
  function Dedup(ps: seq<nat>, last: Option<nat>): (r: seq<nat>)
    ensures |r| <= |ps|
    decreases |ps|
  {
    if ps == [] then []
    else if last == Some(ps[0]) then Dedup(ps[1..], last)
    else [ps[0]] + Dedup(ps[1..], Some(ps[0]))
  }

  /**
   * What is printed comes from the computed values, never repeats the value
   * just before it, and starts with the first value when nothing was printed yet.
   */
  lemma {:induction false} DedupShape(ps: seq<nat>, last: Option<nat>)
    ensures var r := Dedup(ps, last);
      && (forall k | 0 <= k < |r| :: r[k] in ps)
      && NoRepeats(r)
      && (last.Some? && r != [] ==> r[0] != last.value)
      && (last.None? && ps != [] ==> r != [] && r[0] == ps[0])
    decreases |ps|
  {
    if ps != [] {
      var tail := ps[1..];
      assert forall x | x in tail :: x in ps;
      if last == Some(ps[0]) {
        DedupShape(tail, last);
      } else {
        DedupShape(tail, Some(ps[0]));
        var r := Dedup(ps, last);
        var t := Dedup(tail, Some(ps[0]));
        assert r == [ps[0]] + t;
        forall i, j | 0 <= i < j < |r| && j == i + 1
          ensures r[i] != r[j]
        {
          if i > 0 {
            assert r[i] == t[i - 1] && r[j] == t[j - 1];
          }
        }
      }
    }
  }

  /** One step of the loop over chunks: the chunk's own percentage, then the rest. */
  lemma PercentsStep(chunks: seq<string>, i: nat)
    requires i < |chunks|
    ensures Percents(chunks[i..]) ==
      (match ChunkPercent(chunks[i]) case None => [] case Some(p) => [p]) + Percents(chunks[i + 1..])
  {
    assert chunks[i..][1..] == chunks[i + 1..];
  }

  /** One step of the printing: a value equal to the last printed one is skipped, another one is printed. */
  lemma DedupStep(p: nat, rest: seq<nat>, last: Option<nat>)
    ensures Dedup([p] + rest, last) == if last == Some(p) then Dedup(rest, last) else [p] + Dedup(rest, Some(p))
  {
    assert ([p] + rest)[1..] == rest;
  }

  /** The value printed last, nil before the first one. */
  function LastPrinted(printed: seq<nat>): Option<nat>
  {
    if printed == [] then None else Some(printed[|printed| - 1])
  }

  /**
   * The loop's bookkeeping after one more percentage `p`: what has been
   * printed, followed by what the rest prints, is still everything.
   */
  lemma PrintStep(printed: seq<nat>, p: nat, rest: seq<nat>, all: seq<nat>)
    requires printed + Dedup([p] + rest, LastPrinted(printed)) == all
    ensures LastPrinted(printed) == Some(p) ==> printed + Dedup(rest, LastPrinted(printed)) == all
    ensures LastPrinted(printed) != Some(p) ==>
      && LastPrinted(printed + [p]) == Some(p)
      && (printed + [p]) + Dedup(rest, Some(p)) == all
  {
    var last := LastPrinted(printed);
    DedupStep(p, rest, last);
    if last != Some(p) {
      var more := printed + [p];
      assert more[|more| - 1] == p;
      AppendAssoc(printed, [p], Dedup(rest, Some(p)));
    }
  }

  /** A sequence with no two equal neighbours, starting away from `last`, is printed in full. */
  lemma {:induction false} DedupKeepsChanges(ps: seq<nat>, last: Option<nat>)
    requires NoRepeats(ps)
    requires last.None? || ps == [] || ps[0] != last.value
    ensures Dedup(ps, last) == ps
    decreases |ps|
  {
    if ps != [] {
      DedupKeepsChanges(ps[1..], Some(ps[0]));
    }
  }

  /** A value repeated by the next chunk is printed once. */
  lemma DedupDropsRepeat(p: nat, ps: seq<nat>, last: Option<nat>)
    ensures Dedup([p, p] + ps, last) == Dedup([p] + ps, last)
  {
    assert ([p, p] + ps)[1..] == [p] + ps;
    assert ([p] + ps)[1..] == ps;
  }

  /**
   * execute_ffmpeg: scan the chunks, print each new percentage, and raise
   * MediaFormatException when the exit status is not zero.
   */
  method ExecuteFfmpeg(chunks: seq<string>, exitStatus: int) returns (printed: seq<nat>, raised: bool)
    ensures printed == Dedup(Percents(chunks), None)
    ensures forall k | 0 <= k < |printed| :: printed[k] <= 100
    ensures NoRepeats(printed)
    ensures Percents(chunks) != [] ==> printed != [] && printed[0] == Percents(chunks)[0]
    ensures raised <==> exitStatus != 0
  {
    ghost var all := Dedup(Percents(chunks), None);
    var progress: Option<nat> := None;
    printed := [];
    for i := 0 to |chunks|
      invariant progress == LastPrinted(printed)
      invariant printed + Dedup(Percents(chunks[i..]), progress) == all
    {
      PercentsStep(chunks, i);
      var chunk := chunks[i];
      var duration: Option<nat> := FirstMatch(chunk, DurationAt);
      var time := FirstMatch(chunk, TimeAt);
      if time.Some? {
        var p := Percent(Tenths(time.value), duration);
        assert ChunkPercent(chunk) == Some(p);
        PrintStep(printed, p, Percents(chunks[i + 1..]), all);
        if progress != Some(p) {
          progress := Some(p);
          printed := printed + [p];
        }
      }
    }
    assert chunks[|chunks|..] == [];
    DedupShape(Percents(chunks), None);
    raised := exitStatus != 0;
  }

  /* ---------- the same scraper with the duration kept across chunks ---------- */

  /**
   * The percentages when a `Duration:` seen in one chunk stays in force for
   * the chunks after it (until another `Duration:` replaces it).
   */
  function PercentsCarried(chunks: seq<string>, duration: Option<nat>): (ps: seq<nat>)
    ensures forall k | 0 <= k < |ps| :: ps[k] <= 100
    ensures |ps| <= |chunks|
  {
    if chunks == [] then []
    else
      var d := CarriedDuration(chunks[0], duration);
      match FirstMatch(chunks[0], TimeAt)
      case None => PercentsCarried(chunks[1..], d)
      case Some(time) => [Percent(Tenths(time), d)] + PercentsCarried(chunks[1..], d)
  }

  /** The duration in force after a chunk: its own `Duration:` if it has one, the earlier one otherwise. */
  function CarriedDuration(chunk: string, duration: Option<nat>): Option<nat>
  {
    match FirstMatch(chunk, DurationAt)
    case Some(v) => Some(v)
    case None => duration
  }

  lemma PercentsCarriedStep(chunks: seq<string>, i: nat, duration: Option<nat>)
    requires i < |chunks|
    ensures var d := CarriedDuration(chunks[i], duration);
      PercentsCarried(chunks[i..], duration) ==
        (match FirstMatch(chunks[i], TimeAt) case None => [] case Some(t) => [Percent(Tenths(t), d)])
        + PercentsCarried(chunks[i + 1..], d)
  {
    assert chunks[i..][1..] == chunks[i + 1..];
  }

  /** execute_ffmpeg with `duration` declared before the loop, so that it carries over. */
  method ExecuteFfmpegCarried(chunks: seq<string>, exitStatus: int) returns (printed: seq<nat>, raised: bool)
    ensures printed == Dedup(PercentsCarried(chunks, None), None)
    ensures forall k | 0 <= k < |printed| :: printed[k] <= 100
    ensures NoRepeats(printed)
    ensures raised <==> exitStatus != 0
  {
    ghost var all := Dedup(PercentsCarried(chunks, None), None);
    var progress: Option<nat> := None;
    var duration: Option<nat> := None;
    printed := [];
    for i := 0 to |chunks|
      invariant progress == LastPrinted(printed)
      invariant printed + Dedup(PercentsCarried(chunks[i..], duration), progress) == all
    {
      PercentsCarriedStep(chunks, i, duration);
      var chunk := chunks[i];
      var found := FirstMatch(chunk, DurationAt);
      if found.Some? {
        duration := found;
      }
      var time := FirstMatch(chunk, TimeAt);
      if time.Some? {
        var p := Percent(Tenths(time.value), duration);
        PrintStep(printed, p, PercentsCarried(chunks[i + 1..], duration), all);
        if progress != Some(p) {
          progress := Some(p);
          printed := printed + [p];
        }
      }
    }
    assert chunks[|chunks|..] == [];
    DedupShape(PercentsCarried(chunks, None), None);
    raised := exitStatus != 0;
  }

  /**
   * As written, a `Duration:` chunk followed by a `time=` chunk reports 0,
   * whatever the elapsed time: the second chunk sees a nil duration.
   */
  lemma DurationForgottenBetweenChunks(header: string, status: string, d: nat, elapsed: Time)
    requires FirstMatch(header, DurationAt) == Some(d) && FirstMatch(header, TimeAt).None?
    requires FirstMatch(status, DurationAt).None? && FirstMatch(status, TimeAt) == Some(elapsed)
    ensures Percents([header, status]) == [0]
  {
    assert [header, status][1..] == [status];
    assert [status][1..] == [];
  }

  /** With the duration carried over, the same two chunks report the true percentage. */
  lemma DurationCarriedBetweenChunks(header: string, status: string, d: nat, elapsed: Time)
    requires FirstMatch(header, DurationAt) == Some(d) && FirstMatch(header, TimeAt).None?
    requires FirstMatch(status, DurationAt).None? && FirstMatch(status, TimeAt) == Some(elapsed)
    ensures PercentsCarried([header, status], None) == [Percent(Tenths(elapsed), Some(d))]
  {
    assert [header, status][1..] == [status];
    assert [status][1..] == [];
  }

  /**
   * A concrete pair of chunks: a ten-second duration, then five seconds
   * elapsed. As written this prints 0; carried over it prints 50.
   */
  lemma DurationExample()
    ensures DurationAt("Duration: 00:00:10.0") == Some(100)
    ensures TimeAt("time=5.0") == Some(Time(5, 0))
    ensures Percent(50, None) == 0 && Percent(50, Some(100)) == 50
  {
    DurationFieldExample();
    TimeExample();
  }

  lemma DurationFieldExample()
    ensures DurationAt("Duration: 00:00:10.0") == Some(100)
  {
    var t := "Duration: 00:00:10.0";
    assert |t| == 20 && t[..10] == DurationLabel;
    assert t[10] == '0' && t[11] == '0' && t[12] == ':' && t[13] == '0' && t[14] == '0';
    assert t[15] == ':' && t[16] == '1' && t[17] == '0' && t[18] == '.' && t[19] == '0';
    DurationFieldOfChars(t);
    DurationFieldDigits(t);
  }

  lemma TimeExample()
    ensures TimeAt("time=5.0") == Some(Time(5, 0))
  {
    var t := "time=5.0";
    assert DigitRunEnd(t, 5) == 6 by {
      assert DigitRunEnd(t, 6) == 6;
    }
    assert DigitRunEnd(t, 7) == 8;
    assert t[5..6] == "5" && t[7..8] == "0";
    assert DecimalValue("5") == 5 by { assert "5"[..0] == []; }
    assert DecimalValue("0") == 0 by { assert "0"[..0] == []; }
  }

  /* ---------- execute_mencoder ---------- */

  /** Ruby's `\s`: space, tab, line feed, vertical tab, form feed, carriage return. */
  predicate IsSpace(c: char)
  {
    c == ' ' || c == '\t' || c == '\n' || c == '\U{000B}' || c == '\U{000C}' || c == '\r'
  }

  /** The character class `[0-9.]`. */
  predicate IsRateChar(c: char) { IsDigit(c) || c == '.' }

  /** The three captures of the status pattern: percent done, encoding speed, time remaining. */
  datatype Status = Status(percent: string, speed: string, remaining: string)

  const TremLabel := "Trem:"

  /**
   * `Trem:\s+(\d+min)` matches at the start of `u` with the spaces in
   * `u[5..w]` and the digits in `u[w..d]`.
   */
  predicate TremSplit(u: string, w: nat, d: nat)
  {
    && StartsWith(u, TremLabel) && 5 < w < d && d + 3 <= |u|
    && (forall k | 5 <= k < w :: IsSpace(u[k]))
    && (forall k | w <= k < d :: IsDigit(u[k]))
    && u[d..d + 3] == "min"
  }

  /** `Trem:\s+(\d+min)` at the start of `u`, giving the capture. */
  function TremAt(u: string): (r: Option<string>)
    ensures r.Some? ==> exists w: nat, d: nat :: TremSplit(u, w, d) && r.value == u[w..d + 3]
    ensures forall w: nat, d: nat | TremSplit(u, w, d) :: r == Some(u[w..d + 3])
    ensures r.Some? ==> StartsWith(u, TremLabel) && EndsWith(r.value, "min") && |r.value| > 3
    ensures r.Some? ==> AllDigits(r.value[..|r.value| - 3])
  {
    if !(|u| >= 5 && u[..5] == TremLabel) then None
    else
      var w := RunEnd(u, 5, IsSpace);
      var d := DigitRunEnd(u, w);
      TremSplitsAreRuns(u);
      if 5 < w && w < d && d + 3 <= |u| && u[d..d + 3] == "min" then
        assert TremSplit(u, w, d);
        assert u[w..d + 3][..d - w] == u[w..d];
        RunIsDigits(u, w, d);
        Some(u[w..d + 3])
      else None
  }

  /** The spaces and digits of a `Trem:` match are the whole runs, so the match is unique. */
  lemma TremSplitsAreRuns(u: string)
    requires |u| >= 5
    ensures forall w: nat, d: nat | TremSplit(u, w, d) ::
      w == RunEnd(u, 5, IsSpace) && d == DigitRunEnd(u, w)
  {
    forall w: nat, d: nat | TremSplit(u, w, d)
      ensures w == RunEnd(u, 5, IsSpace) && d == DigitRunEnd(u, w)
    {
      RunEndAt(u, 5, w, IsSpace);
      assert u[d] == u[d..d + 3][0] == 'm';
      RunEndAt(u, w, d, IsDigit);
    }
  }

  /**
   * The greedy `.*` before `Trem:`: of the positions `lo..hi`, the LAST one
   * at which `Trem:\s+(\d+min)` matches.
   */
  function LastTrem(t: string, lo: nat, hi: nat): (r: Option<string>)
    requires lo <= hi <= |t|
    ensures r.Some? ==> EndsWith(r.value, "min") && |r.value| > 3
  {
    LastMatchSpec(t, lo, hi, TremAt);
    LastMatch(t, lo, hi, TremAt)
  }

  predicate NotNewline(c: char) { c != '\n' }

  /** A stretch `t[from..to]` of a string. */
  datatype Span = Span(from: nat, to: nat)

  /**
   * `\s+([0-9.]+fps)` matches at position `i` of `t` with the spaces in
   * `t[i..k]` and the rate characters in `t[k..m]`.
   */
  predicate SpeedSplit(t: string, i: nat, k: nat, m: nat)
  {
    && i < k < m && m + 3 <= |t|
    && (forall j | i <= j < k :: IsSpace(t[j]))
    && (forall j | k <= j < m :: IsRateChar(t[j]))
    && t[m..m + 3] == "fps"
  }

  /**
   * `\s+([0-9.]+fps)` at position `i` of `t`: the span of the capture. The
   * space and rate runs are taken whole, since the character after each
   * cannot continue the pattern.
   */
  function SpeedAt(t: string, i: nat): (r: Option<Span>)
    requires i <= |t|
    ensures r.Some? ==> exists k: nat, m: nat :: SpeedSplit(t, i, k, m) && r.value == Span(k, m + 3)
    ensures forall k: nat, m: nat | SpeedSplit(t, i, k, m) :: r == Some(Span(k, m + 3))
    ensures r.Some? ==> i < r.value.from && r.value.from + 3 < r.value.to <= |t|
    ensures r.Some? ==> EndsWith(t[r.value.from..r.value.to], "fps")
  {
    var k := RunEnd(t, i, IsSpace);
    var m := RunEnd(t, k, IsRateChar);
    SpeedSplitsAreRuns(t, i);
    if i < k && k < m && m + 3 <= |t| && t[m..m + 3] == "fps" then
      SliceEndsWith(t, k, m, "fps");
      assert SpeedSplit(t, i, k, m);
      Some(Span(k, m + 3))
    else None
  }

  /** The spaces and rate characters of a speed match are the whole runs, so the match is unique. */
  lemma SpeedSplitsAreRuns(t: string, i: nat)
    requires i <= |t|
    ensures forall k: nat, m: nat | SpeedSplit(t, i, k, m) ::
      k == RunEnd(t, i, IsSpace) && m == RunEnd(t, k, IsRateChar)
  {
    forall k: nat, m: nat | SpeedSplit(t, i, k, m)
      ensures k == RunEnd(t, i, IsSpace) && m == RunEnd(t, k, IsRateChar)
    {
      assert IsRateChar(t[k]);
      RunEndAt(t, i, k, IsSpace);
      assert t[m] == t[m..m + 3][0] == 'f';
      RunEndAt(t, k, m, IsRateChar);
    }
  }

  /**
   * `.*Trem:\s+(\d+min)` at position `i` of `t`: `.*` stops at the end of
   * the line and gives back as little as it can, so the last `Trem:` of the
   * line that is followed by a match wins.
   */
  function RemainingAt(t: string, i: nat): (r: Option<string>)
    requires i <= |t|
    ensures r.Some? ==> EndsWith(r.value, "min") && |r.value| > 3
  {
    LastTrem(t, i, RunEnd(t, i, NotNewline))
  }

  /**
   * RemainingAt finds nothing exactly when no position of the rest of the
   * line starts a `Trem:` match; otherwise it is the match at the rightmost
   * such position.
   */
  lemma RemainingAtSpec(t: string, i: nat)
    requires i <= |t|
    ensures var e := RunEnd(t, i, NotNewline); var r := RemainingAt(t, i);
      && (r.None? <==> forall p | i <= p <= e :: TremAt(t[p..]).None?)
      && (r.Some? ==> exists p | i <= p <= e :: TremAt(t[p..]) == r && forall q | p < q <= e :: TremAt(t[q..]).None?)
  {
    LastMatchSpec(t, i, RunEnd(t, i, NotNewline), TremAt);
  }

  /**
   * `/(\d+%)\)\s+([0-9.]+fps).*Trem:\s+(\d+min)/` matches at the start of
   * `t` with the digits in `t[..j]`, the speed capture `sp` and the
   * remaining-time capture `rem`.
   */
  predicate StatusSplit(t: string, j: nat, sp: Span, rem: string)
  {
    && 0 < j && j + 1 < |t| && (forall k | 0 <= k < j :: IsDigit(t[k]))
    && t[j] == '%' && t[j + 1] == ')'
    && SpeedAt(t, j + 2) == Some(sp) && RemainingAt(t, sp.to) == Some(rem)
  }

  /**
   * `/(\d+%)\)\s+([0-9.]+fps).*Trem:\s+(\d+min)/` at the start of `t`. The
   * digit run before `%` is taken whole, since `%` is not a digit.
   */
  function StatusAt(t: string): (r: Option<Status>)
    ensures r.Some? ==>
      && |r.value.percent| >= 2 && EndsWith(r.value.percent, "%") && StartsWith(t, r.value.percent + ")")
      && AllDigits(r.value.percent[..|r.value.percent| - 1])
      && EndsWith(r.value.speed, "fps") && |r.value.speed| > 3
      && EndsWith(r.value.remaining, "min") && |r.value.remaining| > 3
  {
    var j := DigitRunEnd(t, 0);
    if 0 < j && j + 1 < |t| && t[j] == '%' && t[j + 1] == ')'
      && SpeedAt(t, j + 2).Some? && RemainingAt(t, SpeedAt(t, j + 2).value.to).Some?
    then
      var speed := SpeedAt(t, j + 2).value;
      PercentCapture(t, j);
      Some(Status(t[..j + 1], t[speed.from..speed.to], RemainingAt(t, speed.to).value))
    else None
  }

  /** The digits of a status match are the whole run before `%`, so a match is the one the scan finds. */
  lemma StatusSplitIsScan(t: string, j: nat, sp: Span, rem: string)
    requires StatusSplit(t, j, sp, rem)
    ensures DigitRunEnd(t, 0) == j && 0 < j && j + 1 < |t| && t[j] == '%' && t[j + 1] == ')'
    ensures SpeedAt(t, j + 2) == Some(sp) && RemainingAt(t, sp.to) == Some(rem)
  {
    RunEndAt(t, 0, j, IsDigit);
  }

  /** Wherever the status pattern matches at the start of `t`, StatusAt gives its three captures. */
  lemma StatusAtComplete(t: string, j: nat, sp: Span, rem: string)
    requires StatusSplit(t, j, sp, rem)
    ensures StatusAt(t) == Some(Status(t[..j + 1], t[sp.from..sp.to], rem))
  {
    StatusSplitIsScan(t, j, sp, rem);
    StatusAtParts(t, j, sp, rem);
  }

  /** StatusAt reports nothing but a match of the status pattern and its captures. */
  lemma StatusAtSound(t: string)
    requires StatusAt(t).Some?
    ensures exists j: nat, sp: Span, rem: string ::
      StatusSplit(t, j, sp, rem) && StatusAt(t).value == Status(t[..j + 1], t[sp.from..sp.to], rem)
  {
    var j, sp, rem := StatusAtScan(t);
    assert StatusSplit(t, j, sp, rem);
  }

  /** The positions and captures behind a status StatusAt reports. */
  lemma StatusAtScan(t: string) returns (j: nat, sp: Span, rem: string)
    requires StatusAt(t).Some?
    ensures 0 < j && j + 1 < |t| && (forall k | 0 <= k < j :: IsDigit(t[k])) && t[j] == '%' && t[j + 1] == ')'
    ensures SpeedAt(t, j + 2) == Some(sp) && RemainingAt(t, sp.to) == Some(rem)
    ensures StatusAt(t).value == Status(t[..j + 1], t[sp.from..sp.to], rem)
  {
    j := DigitRunEnd(t, 0);
    sp := SpeedAt(t, j + 2).value;
    rem := RemainingAt(t, sp.to).value;
  }

  /** The first capture: the digits before `%)` and the `%`. */
  lemma PercentCapture(t: string, j: nat)
    requires 0 < j && j + 1 < |t| && t[j] == '%' && t[j + 1] == ')'
    requires forall k | 0 <= k < j :: IsDigit(t[k])
    ensures var percent := t[..j + 1];
      && |percent| >= 2 && EndsWith(percent, "%") && StartsWith(t, percent + ")")
      && AllDigits(percent[..|percent| - 1])
  {
    var percent := t[..j + 1];
    assert percent[..j] == t[..j];
    assert percent[|percent| - 1..] == "%";
    assert percent + ")" == t[..j + 2];
  }

  /** A slice `t[k..m + |w|]` whose last characters spell `w` ends with `w`. */
  lemma SliceEndsWith(t: string, k: nat, m: nat, w: string)
    requires k <= m && m + |w| <= |t| && t[m..m + |w|] == w
    ensures EndsWith(t[k..m + |w|], w)
  {
    assert t[k..m + |w|][m - k..] == t[m..m + |w|];
  }

  /** The status a chunk reports, if the pattern matches anywhere in it. */
  function ChunkStatus(chunk: string): Option<Status>
  {
    FirstMatch(chunk, StatusAt)
  }

  /** The text printed for one status. */
  function StatusLine(s: Status): string
  {
    "\rPercent complete: " + s.percent + ".  Time remaining: " + s.remaining + ". Speed: " + s.speed + "    "
  }

  /** The line a chunk prints: its status line if the pattern matches, nothing otherwise. */
  function ChunkLines(chunk: string): (lines: seq<string>)
    ensures |lines| <= 1
  {
    match ChunkStatus(chunk)
    case None => []
    case Some(s) => [StatusLine(s)]
  }

  /** What a run of chunks prints, chunk after chunk, each printing its own lines. */
  function LinesOf(chunks: seq<string>, lines: string -> seq<string>): seq<string>
  {
    if chunks == [] then [] else lines(chunks[0]) + LinesOf(chunks[1..], lines)
  }

  /** The status lines printed for the chunks, in order: one per matching chunk. */
  function StatusLines(chunks: seq<string>): seq<string>
  {
    LinesOf(chunks, ChunkLines)
  }

  /** Two runs of chunks print what the first prints, then what the second prints. */
  lemma {:induction false} LinesOfAppend(a: seq<string>, b: seq<string>, lines: string -> seq<string>)
    ensures LinesOf(a + b, lines) == LinesOf(a, lines) + LinesOf(b, lines)
  {
    if a == [] {
      assert a + b == b;
    } else {
      assert (a + b)[0] == a[0];
      assert (a + b)[1..] == a[1..] + b;
      LinesOfAppend(a[1..], b, lines);
    }
  }

  /** One more chunk adds its own status line, if it has one. */
  lemma StatusLinesStep(chunks: seq<string>, i: nat)
    requires i < |chunks|
    ensures StatusLines(chunks[..i + 1]) ==
      StatusLines(chunks[..i]) + match ChunkStatus(chunks[i]) case None => [] case Some(s) => [StatusLine(s)]
  {
    assert chunks[..i + 1] == chunks[..i] + [chunks[i]];
    LinesOfAppend(chunks[..i], [chunks[i]], ChunkLines);
    assert [chunks[i]][1..] == [];
  }

  /** Every matching chunk prints, however many times the same status comes. */
  lemma StatusLinesRepeat(chunk: string, n: nat)
    requires ChunkStatus(chunk).Some?
    ensures StatusLines(seq(n, _ => chunk)) == seq(n, _ => StatusLine(ChunkStatus(chunk).value))
  {
    LinesOfRepeat(chunk, n, ChunkLines, StatusLine(ChunkStatus(chunk).value));
  }

  /** A chunk that prints one line, repeated, prints that line as often. */
  lemma {:induction false} LinesOfRepeat(chunk: string, n: nat, lines: string -> seq<string>, line: string)
    requires lines(chunk) == [line]
    ensures LinesOf(seq(n, _ => chunk), lines) == seq(n, _ => line)
  {
    if n > 0 {
      assert seq(n, _ => chunk)[0] == chunk;
      assert seq(n, _ => chunk)[1..] == seq(n - 1, _ => chunk);
      LinesOfRepeat(chunk, n - 1, lines, line);
      assert seq(n, _ => line) == [line] + seq(n - 1, _ => line);
    }
  }

  /**
   * execute_mencoder: print a status line for every matching chunk, then a
   * line feed, and raise unless `$?` holds exit status 0. `status` is what
   * `$?` holds once the popen3 block has ended, None for nil: then
   * `$?.exitstatus` itself raises (NoMethodError), which safe_execute
   * rescues like MediaFormatException.
   */
  method ExecuteMencoder(chunks: seq<string>, status: Option<int>) returns (printed: seq<string>, raised: bool)
    ensures printed == StatusLines(chunks) + ["\n"]
    ensures raised <==> status != Some(0)
  {
    printed := [];
    for i := 0 to |chunks|
      invariant printed == StatusLines(chunks[..i])
    {
      var line := chunks[i];
      StatusLinesStep(chunks, i);
      var status := FirstMatch(line, StatusAt);
      if status.Some? {
        printed := printed + [StatusLine(status.value)];
      }
    }
    assert chunks[..|chunks|] == chunks;
    printed := printed + ["\n"];
    raised := status.None? || status.value != 0;
  }

  /** A run of characters that are no line feed reaches the end of the text. */
  lemma {:induction false} LineRunToEnd(t: string, i: nat)
    requires i <= |t| && forall k | i <= k < |t| :: t[k] != '\n'
    ensures RunEnd(t, i, NotNewline) == |t|
    decreases |t| - i
  {
    if i < |t| {
      LineRunToEnd(t, i + 1);
    }
  }

  /** The remaining-time pattern on its own: `Trem:`, spaces, digits, `min`. */
  lemma TremExample()
    ensures TremAt("Trem: 3min") == Some("3min")
  {
    var u := "Trem: 3min";
    assert u[..5] == TremLabel;
    assert RunEnd(u, 6, IsSpace) == 6;
    assert RunEnd(u, 5, IsSpace) == 6;
    assert DigitRunEnd(u, 7) == 7;
    assert DigitRunEnd(u, 6) == 7;
    assert u[7..10] == "min";
    assert u[6..10] == "3min";
  }

  /** `StatusAt` assembled from its three captures. */
  lemma StatusAtParts(t: string, j: nat, speed: Span, remaining: string)
    requires DigitRunEnd(t, 0) == j && 0 < j && j + 1 < |t| && t[j] == '%' && t[j + 1] == ')'
    requires SpeedAt(t, j + 2) == Some(speed) && RemainingAt(t, speed.to) == Some(remaining)
    ensures StatusAt(t) == Some(Status(t[..j + 1], t[speed.from..speed.to], remaining))
  {
  }

  /** A mencoder status line, as it appears between two carriage returns. */
  const StatusExampleLine := "5%) 25.0fps Trem: 3min"

  lemma SpeedExample()
    ensures SpeedAt(StatusExampleLine, 3) == Some(Span(4, 11))
  {
    var t := StatusExampleLine;
    assert RunEnd(t, 4, IsSpace) == 4;
    assert RunEnd(t, 3, IsSpace) == 4;
    assert RunEnd(t, 8, IsRateChar) == 8;
    assert RunEnd(t, 7, IsRateChar) == 8;
    assert RunEnd(t, 6, IsRateChar) == 8;
    assert RunEnd(t, 5, IsRateChar) == 8;
    assert RunEnd(t, 4, IsRateChar) == 8;
    assert t[8..11] == "fps";
  }

  lemma RemainingExample()
    ensures RemainingAt(StatusExampleLine, 11) == Some("3min")
  {
    var t := StatusExampleLine;
    LineRunToEnd(t, 11);
    forall q | 12 < q <= |t|
      ensures TremAt(t[q..]).None?
    {
      if |t[q..]| >= 5 {
        assert t[q..][0] == t[q];
      }
    }
    LastMatchSkip(t, 11, 12, |t|, TremAt);
    assert t[12..] == "Trem: 3min";
    TremExample();
  }

  /** The three captures of the mencoder status pattern on a typical line. */
  lemma StatusExample()
    ensures StatusAt(StatusExampleLine) == Some(Status("5%", "25.0fps", "3min"))
  {
    var t := StatusExampleLine;
    assert t[1] == '%' && t[2] == ')' && !IsDigit(t[1]);
    assert t[..2] == "5%";
    assert t[4..11] == "25.0fps";
    assert DigitRunEnd(t, 1) == 1;
    assert DigitRunEnd(t, 0) == 1;
    SpeedExample();
    RemainingExample();
    StatusAtParts(t, 1, Span(4, 11), "3min");
  }

  /** Such a chunk prints exactly one status line. */
  lemma ChunkLinesExample()
    ensures ChunkLines(StatusExampleLine) == [StatusLine(Status("5%", "25.0fps", "3min"))]
  {
    StatusExample();
    assert ChunkStatus(StatusExampleLine) == Some(Status("5%", "25.0fps", "3min"));
  }
}
