/**
 * mkvert.rb: turn an MKV with soft subtitles into an M4V with soft subtitles.
 * The script is a straight sequence of external tools (HandBrakeCLI, mkvmerge,
 * mkvextract, ass2srt.pl, SublerCLI) with existence checks that stop the run.
 * Here the file system is a set of existing paths, every tool is an input
 * that says what it printed or whether it wrote its output file, and the run
 * records which tools it invoked.
 */
module Mkvert {
  import opened Wrappers
  import opened Text
  import opened Names
  import opened Tracks

  /** What the external tools do, supplied from outside. */
  datatype Tools = Tools(
    identify: seq<Line>,           // `mkvmerge --identify <mkv>`, line by line
    du: string -> string,          // what `du -s <path>` prints for a path
    encodeWrites: string -> bool,  // HandBrakeCLI wrote the given output path
    extractWrites: bool,           // mkvextract wrote the requested track file
    convertWrites: bool)           // ass2srt.pl wrote the .srt next to the .ass

  /** The external commands the script runs, with the arguments that matter. */
  datatype Command =
    | Encode(input: string, output: string, sizeMb: string)  // HandBrakeCLI -i input -o output -S size
    | Extract(source: string, track: nat, dest: string)      // mkvextract tracks source track:dest
    | ConvertAss(assFile: string)                            // ass2srt.pl assFile
    | Mux(target: string, subtitles: string)                 // SublerCLI -i target -s subtitles

  /** Why the script called `exit` (always with status 0). */
  datatype Stop = Usage | TargetMissing | NoSubtitleTrack | ExportFailed | ConvertFailed

  /**
   * How the run ended: after the last cleanup, by `exit`, or by the exception
   * raised when `du` printed no number (Ruby then exits with status 1).
   */
  datatype Outcome = Finished | Exited(stop: Stop) | SizeUnknown

  datatype Run = Run(outcome: Outcome, commands: seq<Command>, files: set<string>)

  /** `ARGV.delete(x)`: every occurrence of `x` removed, the rest kept in order. */
  function Without(args: seq<string>, x: string): (r: seq<string>)
    ensures x !in r
    ensures forall y | y in args && y != x :: y in r
    ensures |r| <= |args|
    ensures multiset(r) == multiset(args)[x := 0]
    ensures x !in args ==> r == args
  {
    if args == [] then []
    else
      assert args == [args[0]] + args[1..];
      (if args[0] == x then [] else [args[0]]) + Without(args[1..], x)
  }

  /** Deleting from a concatenation deletes from each part, so the kept arguments stay in order. */
  lemma {:induction false} WithoutAppend(a: seq<string>, b: seq<string>, x: string)
    ensures Without(a + b, x) == Without(a, x) + Without(b, x)
  {
    if a == [] {
      assert a + b == b;
    } else {
      var head: seq<string> := if a[0] == x then [] else [a[0]];
      assert (a + b)[0] == a[0] && (a + b)[1..] == a[1..] + b;
      WithoutFirst(a + b, x);
      WithoutFirst(a, x);
      WithoutAppend(a[1..], b, x);
      AppendAssoc(head, Without(a[1..], x), Without(b, x));
    }
  }

  /** Deleting from a non-empty list: the first argument unless it is `x`, then the rest deleted from. */
  lemma WithoutFirst(args: seq<string>, x: string)
    requires args != []
    ensures Without(args, x) == (if args[0] == x then [] else [args[0]]) + Without(args[1..], x)
  {
  }

  /** The positional arguments once the quiet flag `-s` is taken out. */
  function Args(argv: seq<string>): seq<string> { Without(argv, "-s") }

  /** The outputs HandBrakeCLI wrote for the first `n` inputs. */
  ghost function Written(inputs: seq<string>, tools: Tools, n: nat): set<string>
    requires n <= |inputs|
  {
    set k | 0 <= k < n && tools.encodeWrites(SwapExtension(inputs[k])) :: SwapExtension(inputs[k])
  }

  lemma WrittenStep(inputs: seq<string>, tools: Tools, i: nat)
    requires i < |inputs|
    ensures Written(inputs, tools, i + 1) == Written(inputs, tools, i) +
      (if tools.encodeWrites(SwapExtension(inputs[i])) then {SwapExtension(inputs[i])} else {})
  {
  }

  /**
   * quick_encode: for each input, read its size in MiB from `du` and run
   * HandBrakeCLI with that size towards the input's name with `.m4v`. A `du`
   * report without digits raises, which ends the loop (and the script).
   */
  method QuickEncode(inputs: seq<string>, tools: Tools, files: set<string>)
    returns (ok: bool, commands: seq<Command>, files': set<string>)
    ensures ok <==> forall k | 0 <= k < |inputs| :: FirstDigits(tools.du(inputs[k])).Some?
    ensures ok ==> |commands| == |inputs|
    ensures !ok ==> |commands| < |inputs| && FirstDigits(tools.du(inputs[|commands|])).None?
    ensures forall k | 0 <= k < |commands| ::
      && FirstDigits(tools.du(inputs[k])).Some?
      && commands[k] == Encode(inputs[k], SwapExtension(inputs[k]), FirstDigits(tools.du(inputs[k])).value)
    ensures |commands| <= |inputs| && files' == files + Written(inputs, tools, |commands|)
  {
    commands, files' := [], files;
    for i := 0 to |inputs|
      invariant |commands| == i
      invariant forall k | 0 <= k < i ::
        && FirstDigits(tools.du(inputs[k])).Some?
        && commands[k] == Encode(inputs[k], SwapExtension(inputs[k]), FirstDigits(tools.du(inputs[k])).value)
      invariant files' == files + Written(inputs, tools, i)
    {
      var output := SwapExtension(inputs[i]);
      var size := FirstDigits(tools.du(inputs[i]));
      if size.None? {
        return false, commands, files';
      }
      WrittenStep(inputs, tools, i);
      commands := commands + [Encode(inputs[i], output, size.value)];
      if tools.encodeWrites(output) {
        files' := files' + {output};
      }
    }
    ok := true;
  }

  /** The source name with `.mkv` completed (mkv_file). */
  function SourceFile(args: seq<string>): string
    requires |args| >= 1
  {
    Normalise(args[0], MkvSuffix)
  }

  /** The source name without `.mkv` (mkv_base_name), the stem of every sidecar file. */
  function BaseName(args: seq<string>): string
    requires |args| >= 1
  {
    StripSuffix(args[0], MkvSuffix)
  }

  /** The M4V the subtitles go into (m4v_file): the given one with `.m4v` completed, or the derived one. */
  function TargetFile(args: seq<string>): string
    requires |args| >= 1
  {
    if |args| >= 2 then Normalise(args[1], M4vSuffix) else BaseName(args) + M4vSuffix
  }

  /** The run gets past the target decision and the transcoding step. */
  predicate PastTranscode(args: seq<string>, files: set<string>, tools: Tools)
  {
    && |args| >= 1
    && (|args| >= 2 ==> TargetFile(args) in files)
    && (|args| == 1 ==> FirstDigits(tools.du(SourceFile(args))).Some?)
  }

  /** The files present once the target decision and transcoding are done. */
  function FilesAfterTranscode(args: seq<string>, files: set<string>, tools: Tools): set<string>
    requires |args| >= 1
  {
    if |args| == 1 && tools.encodeWrites(TargetFile(args)) then files + {TargetFile(args)} else files
  }

  /** The commands up to the mux step, by subtitle type: extraction, and for ASS the conversion too. */
  function SubtitleCommands(source: string, base: string, sel: Selection): seq<Command>
  {
    if sel.kind == Ass
    then [Extract(source, sel.track, base + ".ass"), ConvertAss(base + ".ass")]
    else [Extract(source, sel.track, base + ".srt")]
  }

  /** The sidecar files the cleanup deletes: always the .srt, and the .ass on the ASS path. */
  function Sidecars(base: string, kind: SubtitleType): set<string>
  {
    if kind == Ass then {base + ".srt", base + ".ass"} else {base + ".srt"}
  }

  /**
   * Extraction (and for ASS the conversion), each followed by the existence
   * check that stops the script, then the mux step and the cleanup.
   */
  method SubtitleSteps(source: string, base: string, target: string, sel: Selection,
                       tools: Tools, files: set<string>)
    returns (outcome: Outcome, commands: seq<Command>, files': set<string>)
    ensures outcome == Finished || outcome == Exited(ExportFailed) || outcome == Exited(ConvertFailed)
    ensures forall k | 0 <= k < |commands| :: !commands[k].Encode?
    ensures outcome != Finished ==> forall k | 0 <= k < |commands| :: !commands[k].Mux?
    ensures outcome == Exited(ExportFailed) <==>
      !tools.extractWrites && SubtitleCommands(source, base, sel)[0].dest !in files
    ensures outcome == Exited(ConvertFailed) <==>
      && sel.kind == Ass && (tools.extractWrites || base + ".ass" in files)
      && !tools.convertWrites && base + ".srt" !in files
    ensures outcome == Exited(ExportFailed) ==>
      commands == SubtitleCommands(source, base, sel)[..1] && files' == files
    ensures outcome == Exited(ConvertFailed) ==>
      && commands == SubtitleCommands(source, base, sel)
      && files' == files + {base + ".ass"} && base + ".srt" !in files'
    ensures outcome == Finished ==>
      && commands == SubtitleCommands(source, base, sel) + [Mux(target, base + ".srt")]
      && files' == files - Sidecars(base, sel.kind)
  {
    var srtFile := base + ".srt";
    var assFile := base + ".ass";
    assert srtFile[|base| + 1] != assFile[|base| + 1];
    files' := files;
    if sel.kind == Ass {
      commands := [Extract(source, sel.track, assFile)];
      if tools.extractWrites {
        files' := files' + {assFile};
      }
      if assFile !in files' {
        return Exited(ExportFailed), commands, files';
      }
      commands := commands + [ConvertAss(assFile)];
      if tools.convertWrites {
        files' := files' + {srtFile};
      }
      if srtFile !in files' {
        return Exited(ConvertFailed), commands, files';
      }
    } else {
      commands := [Extract(source, sel.track, srtFile)];
      if tools.extractWrites {
        files' := files' + {srtFile};
      }
      if srtFile !in files' {
        return Exited(ExportFailed), commands, files';
      }
    }

    // The subtitle file is in place: the mux step
    commands := commands + [Mux(target, srtFile)];

    // Cleanup: each deletion finds its file, so neither raises
    if sel.kind == Ass {
      assert assFile in files';
      files' := files' - {assFile};
    }
    assert srtFile in files';
    files' := files' - {srtFile};
    outcome := Finished;
  }

  /**
   * The target decision: a named target that does not exist stops the
   * script; no target means deriving one and transcoding towards it; an
   * existing target is used as it is.
   */
  method TargetDecision(args: seq<string>, files: set<string>, tools: Tools)
    returns (stop: Option<Outcome>, m4vFile: string, commands: seq<Command>, files': set<string>)
    requires |args| >= 1
    ensures stop == Some(Exited(TargetMissing)) <==> |args| >= 2 && TargetFile(args) !in files
    ensures stop == Some(SizeUnknown) <==> |args| == 1 && FirstDigits(tools.du(SourceFile(args))).None?
    ensures stop.None? || stop == Some(Exited(TargetMissing)) || stop == Some(SizeUnknown)
    ensures stop.Some? ==> commands == [] && files' == files
    ensures stop.None? ==> m4vFile == TargetFile(args)
    ensures stop.None? && |args| >= 2 ==> commands == [] && files' == files
    ensures stop.None? && |args| == 1 ==>
      && commands == [Encode(SourceFile(args), TargetFile(args), FirstDigits(tools.du(SourceFile(args))).value)]
      && files' == if tools.encodeWrites(TargetFile(args)) then files + {TargetFile(args)} else files
  {
    var mkvBase := StripSuffix(args[0], MkvSuffix);
    var mkvFile := Normalise(args[0], MkvSuffix);
    commands, files' := [], files;
    if |args| >= 2 && Normalise(args[1], M4vSuffix) !in files {
      return Some(Exited(TargetMissing)), "", [], files;
    } else if |args| < 2 {
      // No target named: derive its name and encode the source towards it
      m4vFile := mkvBase + M4vSuffix;
      SwapExtensionOfNormalised(args[0]);
      var ok;
      ok, commands, files' := QuickEncode([mkvFile], tools, files);
      assert [mkvFile][0] == mkvFile;
      if !ok {
        return Some(SizeUnknown), m4vFile, [], files;
      }
      WrittenStep([mkvFile], tools, 0);
      assert Written([mkvFile], tools, 0) == {};
    } else {
      m4vFile := Normalise(args[1], M4vSuffix);
    }
    stop := None;
  }

  /** The HandBrakeCLI call made before the subtitle steps: one when no target is named and `du` gave a size. */
  function TranscodeCommands(args: seq<string>, tools: Tools): seq<Command>
    requires |args| >= 1
  {
    if |args| == 1 && FirstDigits(tools.du(SourceFile(args))).Some?
    then [Encode(SourceFile(args), TargetFile(args), FirstDigits(tools.du(SourceFile(args))).value)]
    else []
  }

  /** A track was chosen, but its extraction left no sidecar file: the script stops with ExportFailed. */
  predicate ExportFails(args: seq<string>, files: set<string>, tools: Tools)
    requires |args| >= 1
  {
    var sel := SelectSubtitle(tools.identify);
    && PastTranscode(args, files, tools) && sel.Some? && !tools.extractWrites
    && SubtitleCommands(SourceFile(args), BaseName(args), sel.value)[0].dest !in FilesAfterTranscode(args, files, tools)
  }

  /** An ASS track was extracted, but the conversion left no .srt file: the script stops with ConvertFailed. */
  predicate ConvertFails(args: seq<string>, files: set<string>, tools: Tools)
    requires |args| >= 1
  {
    var sel := SelectSubtitle(tools.identify);
    var after := FilesAfterTranscode(args, files, tools);
    var base := BaseName(args);
    && PastTranscode(args, files, tools) && sel.Some? && sel.value.kind == Ass
    && (tools.extractWrites || base + ".ass" in after)
    && !tools.convertWrites && base + ".srt" !in after
  }

  /**
   * What a run of the script from the target decision on does, for the
   * positional arguments `args` (at least the source name): which exit it
   * takes and exactly when, and the commands and files it leaves for each.
   */
  ghost predicate RunFrom(args: seq<string>, files: set<string>, tools: Tools, r: Run)
    requires |args| >= 1
  {
    var past := PastTranscode(args, files, tools);
    var sel := SelectSubtitle(tools.identify);
    var after := FilesAfterTranscode(args, files, tools);
    var pre := TranscodeCommands(args, tools);
    var source := SourceFile(args);
    var base := BaseName(args);
    && r.outcome in {Exited(TargetMissing), SizeUnknown, Exited(NoSubtitleTrack),
                     Exited(ExportFailed), Exited(ConvertFailed), Finished}
    // target decision and transcoding
    && (r.outcome == Exited(TargetMissing) <==> |args| >= 2 && TargetFile(args) !in files)
    && (r.outcome == SizeUnknown <==> |args| == 1 && FirstDigits(tools.du(SourceFile(args))).None?)
    && (r.outcome == Exited(TargetMissing) || r.outcome == SizeUnknown ==> r.commands == [] && r.files == files)
    // subtitle selection
    && (r.outcome == Exited(NoSubtitleTrack) <==> past && sel.None?)
    && (r.outcome == Exited(NoSubtitleTrack) ==> r.commands == pre && r.files == after)
    // the sidecar steps
    && (r.outcome == Exited(ExportFailed) <==> ExportFails(args, files, tools))
    && (r.outcome == Exited(ExportFailed) ==>
         r.commands == pre + SubtitleCommands(source, base, sel.value)[..1] && r.files == after)
    && (r.outcome == Exited(ConvertFailed) <==> ConvertFails(args, files, tools))
    && (r.outcome == Exited(ConvertFailed) ==>
         && r.commands == pre + SubtitleCommands(source, base, sel.value)
         && r.files == after + {base + ".ass"} && base + ".srt" !in r.files)
    // the mux step and the cleanup run only when every step before them succeeded
    && (r.outcome == Finished <==>
         past && sel.Some? && !ExportFails(args, files, tools) && !ConvertFails(args, files, tools))
    && (r.outcome == Finished ==>
         && r.commands == pre + SubtitleCommands(source, base, sel.value) + [Mux(TargetFile(args), base + ".srt")]
         && r.files == after - Sidecars(base, sel.value.kind))
  }

  /** `RunFrom` leaves no freedom: at most one run meets it. */
  lemma RunFromDetermined(args: seq<string>, files: set<string>, tools: Tools, r1: Run, r2: Run)
    requires |args| >= 1 && RunFrom(args, files, tools, r1) && RunFrom(args, files, tools, r2)
    ensures r1 == r2
  {
  }

  /** The script once it has a source name: target decision, subtitles, mux and cleanup. */
  method Convert(args: seq<string>, files: set<string>, tools: Tools) returns (r: Run)
    requires |args| >= 1
    ensures RunFrom(args, files, tools, r)
  {
    var stop, m4vFile, commands, fs := TargetDecision(args, files, tools);
    if stop.Some? {
      return Run(stop.value, commands, fs);
    }
    r := SubtitlesAndMux(args, files, tools, m4vFile, commands, fs);
  }

  /** The script once the target is settled: subtitle selection, the sidecar steps, the mux step and the cleanup. */
  method SubtitlesAndMux(args: seq<string>, files: set<string>, tools: Tools, m4vFile: string, commands: seq<Command>, fs: set<string>)
    returns (r: Run)
    requires |args| >= 1 && PastTranscode(args, files, tools)
    requires m4vFile == TargetFile(args)
    requires fs == FilesAfterTranscode(args, files, tools)
    requires commands ==
      if |args| == 1 then [Encode(SourceFile(args), TargetFile(args), FirstDigits(tools.du(SourceFile(args))).value)] else []
    ensures RunFrom(args, files, tools, r)
  {
    var selection := SelectSubtitle(tools.identify);
    if selection.None? {
      return Run(Exited(NoSubtitleTrack), commands, fs);
    }
    var outcome, steps, after;
    outcome, steps, after :=
      SubtitleSteps(SourceFile(args), BaseName(args), m4vFile, selection.value, tools, fs);
    return Run(outcome, commands + steps, after);
  }

  /** The whole script: `-s` taken out of the arguments, the usage check, then the conversion. */
  method Mkvert(argv: seq<string>, files: set<string>, tools: Tools) returns (r: Run)
    ensures r.outcome == Exited(Usage) <==> |Args(argv)| == 0
    ensures |Args(argv)| == 0 ==> r.commands == [] && r.files == files
    ensures |Args(argv)| >= 1 ==> RunFrom(Args(argv), files, tools, r)
  {
    var args := Without(argv, "-s");
    if |args| == 0 {
      return Run(Exited(Usage), [], files);
    }
    r := Convert(args, files, tools);
  }
}
