/**
 * Subtitle-track selection of mkvert.rb: `mkvmerge --identify` output is
 * filtered by `grep` for a codec token, and `/Track ID (\d+)/` picks the
 * track id out of what grep printed. A UTF-8 text track wins over an ASS one.
 */
module Tracks {
  import opened Wrappers
  import opened Text

  /** One line of the identify output (lines hold no newline). */
  type Line = s: string | '\n' !in s

  const TrackIdLabel := "Track ID "
  const Utf8Codec := "S_TEXT/UTF8"
  const AssCodec := "S_TEXT/ASS"

  datatype SubtitleType = Srt | Ass

  datatype Selection = Selection(kind: SubtitleType, track: nat)

  /** `... | grep 'token'`: every line holding the token, each with its newline. */
  function Grep(lines: seq<Line>, token: string): string
  {
    if lines == [] then ""
    else (if Contains(lines[0], token) then lines[0] + "\n" else "") + Grep(lines[1..], token)
  }

  /**
   * `/Track ID (\d+)/` matched at the start of `t`, with the captured digits
   * read as a number: the value of the whole digit run after the label.
   */
  function TrackIdAt(t: string): (r: Option<nat>)
    ensures r.Some? <==> |t| > |TrackIdLabel| && StartsWith(t, TrackIdLabel) && IsDigit(t[|TrackIdLabel|])
    ensures r.Some? ==> exists j | 9 < j <= |t| ::
      AllDigits(t[9..j]) && (j == |t| || !IsDigit(t[j])) && r.value == DecimalValue(t[9..j])
  {
    if |t| > 9 && t[..9] == TrackIdLabel then
      match DigitsAt(t[9..])
      case Some(digits) =>
        DigitsAtRun(t, 9);
        Some(DecimalValue(digits))
      case None => None
    else None
  }

  /** `/Track ID (\d+)/.match(text)[1].to_i`, or None where `match` gives nil. */
  function TrackId(text: string): Option<nat>
  {
    FirstMatch(text, TrackIdAt)
  }

  /** A digit run inside the first line of `line + "\n" + rest` stops at the newline. */
  lemma DigitRunEndStopsAtNewline(line: Line, rest: string, i: nat)
    requires i <= |line|
    ensures DigitRunEnd(line + "\n" + rest, i) == DigitRunEnd(line, i)
    decreases |line| - i
  {
    var s := line + "\n" + rest;
    if i < |line| {
      assert s[i] == line[i];
      if IsDigit(line[i]) {
        DigitRunEndStopsAtNewline(line, rest, i + 1);
      }
    } else {
      assert s[i] == '\n';
    }
  }

  /** A match of `/(\d+)/` at the start of a line never crosses its newline. */
  lemma DigitsAtStopsAtNewline(line: Line, rest: string)
    ensures DigitsAt(line + "\n" + rest) == DigitsAt(line)
  {
    var s := line + "\n" + rest;
    if |line| > 0 {
      assert s[0] == line[0];
      DigitRunEndStopsAtNewline(line, rest, 0);
      assert s[..DigitRunEnd(line, 0)] == line[..DigitRunEnd(line, 0)];
    } else {
      assert s[0] == '\n';
    }
  }

  /** A match of `/Track ID (\d+)/` never crosses a newline. */
  lemma TrackIdAtStopsAtNewline(line: Line, rest: string)
    ensures TrackIdAt(line + "\n" + rest) == TrackIdAt(line)
  {
    var s := line + "\n" + rest;
    if |line| >= 10 {
      assert s[..9] == line[..9];
      var tail: Line := line[9..];
      assert s[9..] == tail + "\n" + rest;
      DigitsAtStopsAtNewline(tail, rest);
    } else if |line| == 9 {
      assert s[9..][0] == '\n';
    } else if |s| > 9 {
      assert s[|line|] == '\n';
      assert s[..9][|line|] != TrackIdLabel[|line|];
    }
  }

  /** Scanning joined lines finds the first line that has a match. */
  lemma {:induction false} TrackIdOfJoin(line: Line, rest: string)
    ensures TrackId(line + "\n" + rest) ==
      if TrackId(line).Some? then TrackId(line) else TrackId(rest)
    decreases |line|
  {
    var s := line + "\n" + rest;
    TrackIdAtStopsAtNewline(line, rest);
    if TrackIdAt(s).None? {
      if line == [] {
        assert s[1..] == rest;
      } else {
        assert s[1..] == line[1..] + "\n" + rest;
        TrackIdOfJoin(line[1..], rest);
      }
    }
  }

  /** Whether some line holding `token` also carries `Track ID <digits>`. */
  predicate HasTrack(lines: seq<Line>, token: string) {
    exists i | 0 <= i < |lines| :: Contains(lines[i], token) && TrackId(lines[i]).Some?
  }

  /** The id from the first line that holds `token` and carries `Track ID <digits>`. */
  function FirstTrackOfLines(lines: seq<Line>, token: string): (r: Option<nat>)
    ensures r.Some? <==> HasTrack(lines, token)
    ensures r.Some? ==> exists i | 0 <= i < |lines| ::
      && Contains(lines[i], token) && TrackId(lines[i]) == r
      && forall j | 0 <= j < i :: !(Contains(lines[j], token) && TrackId(lines[j]).Some?)
    decreases |lines|
  {
    if lines == [] then None
    else if Contains(lines[0], token) && TrackId(lines[0]).Some? then TrackId(lines[0])
    else
      var r := FirstTrackOfLines(lines[1..], token);
      assert forall i | 1 <= i < |lines| :: lines[1..][i - 1] == lines[i];
      r
  }

  /** What the script reads from grep's output is the id of the first matching line. */
  lemma {:induction false} TrackIdOfGrep(lines: seq<Line>, token: string)
    ensures TrackId(Grep(lines, token)) == FirstTrackOfLines(lines, token)
    decreases |lines|
  {
    if lines != [] {
      var rest := Grep(lines[1..], token);
      TrackIdOfGrep(lines[1..], token);
      if Contains(lines[0], token) {
        assert Grep(lines, token) == lines[0] + "\n" + rest;
        TrackIdOfJoin(lines[0], rest);
      } else {
        assert Grep(lines, token) == rest;
      }
    }
  }

  /**
   * The subtitle choice of mkvert.rb: the UTF-8 grep first, the ASS grep only
   * when the first yields no `Track ID`, and None when neither does.
   */
  function SelectSubtitle(identify: seq<Line>): Option<Selection>
  {
    match TrackId(Grep(identify, Utf8Codec))
    case Some(id) => Some(Selection(Srt, id))
    case None =>
      match TrackId(Grep(identify, AssCodec))
      case Some(id) => Some(Selection(Ass, id))
      case None => None
  }

  /** The selection, stated line by line: UTF-8 preferred, ASS otherwise, and the first matching line's id. */
  lemma SelectSubtitleSpec(identify: seq<Line>)
    ensures var r := SelectSubtitle(identify);
      && (r.Some? && r.value.kind == Srt <==> HasTrack(identify, Utf8Codec))
      && (r.Some? && r.value.kind == Ass <==> !HasTrack(identify, Utf8Codec) && HasTrack(identify, AssCodec))
      && (r.None? <==> !HasTrack(identify, Utf8Codec) && !HasTrack(identify, AssCodec))
      && (r.Some? && r.value.kind == Srt ==> Some(r.value.track) == FirstTrackOfLines(identify, Utf8Codec))
      && (r.Some? && r.value.kind == Ass ==> Some(r.value.track) == FirstTrackOfLines(identify, AssCodec))
  {
    TrackIdOfGrep(identify, Utf8Codec);
    TrackIdOfGrep(identify, AssCodec);
  }
}
