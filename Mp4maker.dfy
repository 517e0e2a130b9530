/**
 * mp4maker.rb: encode each input file to an iPod / Apple TV MP4 with
 * mencoder. Options select two-pass encoding and the encoder profile; the
 * profile names a fixed x264 option string; each input gets one mencoder
 * command line, run with its status lines shown, and the first failing run
 * prints ERROR and ends the whole batch with exit status 1.
 */
module Mp4maker {
  import opened Wrappers
  import opened Text
  import opened Names
  import opened Progress

  /* ---------- options ---------- */

  /** The OpenStruct the option parser fills: `twopass` and `profile` (nil when `-p` got no value). */
  datatype Options = Options(twopass: bool, profile: Option<string>)

  /** The defaults set before parsing: one pass, profile "ipod". */
  const DefaultOptions := Options(false, Some("ipod"))

  /** What `parse!` leaves: the options and the arguments that are not options, in order. */
  datatype Parsed = Parsed(options: Options, inputs: seq<string>)

  /** OptionParser's test for an argument that is itself an option: `/\A-./`. */
  predicate LooksLikeOption(a: string) { |a| >= 2 && a[0] == '-' }

  /**
   * The text after its leading dashes (the pattern `\A-*` removed). What follows `-2`
   * in a flag is requeued as the short option `-` + this, and not at all when
   * only dashes followed.
   */
  function StripDashes(s: string): (r: string)
    ensures |r| <= |s| && r == s[|s| - |r|..]
    ensures forall k | 0 <= k < |s| - |r| :: s[k] == '-'
    ensures r == [] || r[0] != '-'
  {
    if s != [] && s[0] == '-' then StripDashes(s[1..]) else s
  }

  /**
   * `parse!` over the remaining arguments, options anywhere among the
   * inputs. `-2`/`--two-pass` sets two-pass; in `-2x` the rest `x`, its
   * leading dashes dropped, is read as the next short option `-x`.
   * `-p`/`--profile` takes its value attached (`-pX`, `--profile=X`) or
   * from the next argument unless that one looks like an option, and is nil
   * otherwise. `--` ends the options. Any other
   * argument that looks like an option is an InvalidOption error.
   */
  function ParseFrom(args: seq<string>, opts: Options): (r: Result<Parsed, string>)
    ensures r.Ok? ==> |r.value.inputs| <= |args|
    decreases |args|, if args == [] then 0 else |args[0]|
  {
    if args == [] then Ok(Parsed(opts, []))
    else
      var a := args[0];
      var rest := args[1..];
      if a == "--" then Ok(Parsed(opts, rest))
      else if a == "-2" || a == "--two-pass" then ParseFrom(rest, opts.(twopass := true))
      else if |a| > 2 && a[..2] == "-2" && a[2] != '=' then
        var more := StripDashes(a[2..]);
        if more == [] then ParseFrom(rest, opts.(twopass := true))
        else ParseFrom(["-" + more] + rest, opts.(twopass := true))
      else if a == "-p" || a == "--profile" then
        if rest != [] && !LooksLikeOption(rest[0]) then ParseFrom(rest[1..], opts.(profile := Some(rest[0])))
        else ParseFrom(rest, opts.(profile := None))
      else if |a| > 2 && a[..2] == "-p" then ParseFrom(rest, opts.(profile := Some(a[2..])))
      else if |a| >= 10 && a[..10] == "--profile=" then ParseFrom(rest, opts.(profile := Some(a[10..])))
      else if LooksLikeOption(a) then Err(a)
      else
        match ParseFrom(rest, opts)
        case Ok(p) => Ok(Parsed(p.options, [a] + p.inputs))
        case Err(e) => Err(e)
  }

  /** `OptionParser.parse(ARGV)`: parsing from the defaults. */
  function ParseOptions(argv: seq<string>): Result<Parsed, string>
  {
    ParseFrom(argv, DefaultOptions)
  }

  /** No option among the arguments: every argument is an input and the options are left as they were. */
  lemma {:induction false} ParseWithoutOptions(args: seq<string>, opts: Options)
    requires forall k | 0 <= k < |args| :: !LooksLikeOption(args[k])
    ensures ParseFrom(args, opts) == Ok(Parsed(opts, args))
  {
    if args != [] {
      var a := args[0];
      assert !LooksLikeOption(a);
      assert a != "--" && a != "-2" && a != "--two-pass" && a != "-p" && a != "--profile";
      assert !(|a| > 2 && a[..2] == "-2") && !(|a| > 2 && a[..2] == "-p") && !(|a| >= 10 && a[..10] == "--profile=") by {
        if |a| >= 2 { assert a[..2][0] == a[0]; }
      }
      ParseWithoutOptions(args[1..], opts);
      assert [a] + args[1..] == args;
    }
  }

  /** Without options the defaults stand: one pass with the "ipod" profile. */
  lemma ParseDefaults(argv: seq<string>)
    requires forall k | 0 <= k < |argv| :: !LooksLikeOption(argv[k])
    ensures ParseOptions(argv) == Ok(Parsed(Options(false, Some("ipod")), argv))
  {
    ParseWithoutOptions(argv, DefaultOptions);
  }

  /** Once two-pass is on, nothing later in the arguments turns it off. */
  lemma {:induction false} ParseKeepsTwoPass(args: seq<string>, opts: Options)
    requires opts.twopass
    ensures ParseFrom(args, opts).Ok? ==> ParseFrom(args, opts).value.options.twopass
    decreases |args|, if args == [] then 0 else |args[0]|
  {
    if args != [] {
      var a := args[0];
      var rest := args[1..];
      if a == "--" {
      } else if a == "-2" || a == "--two-pass" {
        ParseKeepsTwoPass(rest, opts.(twopass := true));
      } else if |a| > 2 && a[..2] == "-2" && a[2] != '=' {
        var more := StripDashes(a[2..]);
        if more == [] {
          ParseKeepsTwoPass(rest, opts.(twopass := true));
        } else {
          ParseKeepsTwoPass(["-" + more] + rest, opts.(twopass := true));
        }
      } else if a == "-p" || a == "--profile" {
        if rest != [] && !LooksLikeOption(rest[0]) {
          ParseKeepsTwoPass(rest[1..], opts.(profile := Some(rest[0])));
        } else {
          ParseKeepsTwoPass(rest, opts.(profile := None));
        }
      } else if |a| > 2 && a[..2] == "-p" {
        ParseKeepsTwoPass(rest, opts.(profile := Some(a[2..])));
      } else if |a| >= 10 && a[..10] == "--profile=" {
        ParseKeepsTwoPass(rest, opts.(profile := Some(a[10..])));
      } else if !LooksLikeOption(a) {
        ParseKeepsTwoPass(rest, opts);
      }
    }
  }

  /** `-2` or `--two-pass` before the inputs turns two-pass on and keeps the default profile. */
  lemma ParseTwoPass(flag: string, inputs: seq<string>)
    requires flag == "-2" || flag == "--two-pass"
    requires forall k | 0 <= k < |inputs| :: !LooksLikeOption(inputs[k])
    ensures ParseOptions([flag] + inputs) == Ok(Parsed(Options(true, Some("ipod")), inputs))
  {
    assert ([flag] + inputs)[1..] == inputs;
    ParseWithoutOptions(inputs, Options(true, Some("ipod")));
  }

  /** `-p NAME` and `--profile NAME` select the profile NAME, which is consumed. */
  lemma ParseProfileSeparate(flag: string, name: string, inputs: seq<string>)
    requires flag == "-p" || flag == "--profile"
    requires !LooksLikeOption(name)
    requires forall k | 0 <= k < |inputs| :: !LooksLikeOption(inputs[k])
    ensures ParseOptions([flag, name] + inputs) == Ok(Parsed(Options(false, Some(name)), inputs))
  {
    var args := [flag, name] + inputs;
    assert args[0] == flag && args[1..] == [name] + inputs;
    assert ([name] + inputs)[0] == name && ([name] + inputs)[1..] == inputs;
    assert flag != "--" && flag != "-2" && flag != "--two-pass";
    assert !(|flag| > 2 && flag[..2] == "-2") by {
      if flag == "--profile" { assert flag[1] == '-'; }
    }
    var selected := Options(false, Some(name));
    ParseWithoutOptions(inputs, selected);
    assert ParseFrom(args, DefaultOptions) == ParseFrom(inputs, selected);
  }

  /** `-pNAME` selects the profile NAME. */
  lemma ParseProfileAttached(name: string, inputs: seq<string>)
    requires name != ""
    requires forall k | 0 <= k < |inputs| :: !LooksLikeOption(inputs[k])
    ensures ParseOptions(["-p" + name] + inputs) == Ok(Parsed(Options(false, Some(name)), inputs))
  {
    var flag := "-p" + name;
    var args := [flag] + inputs;
    assert args[0] == flag && args[1..] == inputs;
    assert flag[0] == '-' && flag[1] == 'p' && |flag| > 2;
    assert flag[..2] == "-p" && flag[2..] == name;
    assert flag != "--" && flag != "-2" && flag != "--two-pass" && flag != "-p" && flag != "--profile";
    var selected := Options(false, Some(name));
    ParseWithoutOptions(inputs, selected);
    assert ParseFrom(args, DefaultOptions) == ParseFrom(inputs, selected);
  }

  /** `--profile=NAME` selects the profile NAME, even an empty one. */
  lemma ParseProfileLong(name: string, inputs: seq<string>)
    requires forall k | 0 <= k < |inputs| :: !LooksLikeOption(inputs[k])
    ensures ParseOptions(["--profile=" + name] + inputs) == Ok(Parsed(Options(false, Some(name)), inputs))
  {
    var flag := "--profile=" + name;
    var args := [flag] + inputs;
    assert args[0] == flag && args[1..] == inputs;
    assert flag[..10] == "--profile=" && flag[10..] == name;
    ParseLongProfileStep(flag, inputs, DefaultOptions);
    ParseWithoutOptions(inputs, Options(false, Some(name)));
  }

  /** An argument `--profile=...` sets the profile to the text after `=` and parsing goes on with the rest. */
  lemma ParseLongProfileStep(a: string, rest: seq<string>, opts: Options)
    requires |a| >= 10 && a[..10] == "--profile="
    ensures ParseFrom([a] + rest, opts) == ParseFrom(rest, opts.(profile := Some(a[10..])))
  {
    assert a[1] == a[..10][1] == '-' && a[2] == a[..10][2] == 'p';
    assert a != "--" && a != "-2" && a != "-p" && a != "--profile";
    assert a != "--two-pass" by { assert "--two-pass"[2] == 't'; }
    assert a[..2] != "-2" && a[..2] != "-p" by { assert a[..2][1] == a[1]; }
    assert ([a] + rest)[0] == a && ([a] + rest)[1..] == rest;
  }

  /** `-p` with nothing after it leaves the profile nil. */
  lemma ParseProfileAtEnd()
    ensures ParseOptions(["-p"]) == Ok(Parsed(Options(false, None), []))
  {
    assert ["-p"][1..] == [];
  }

  /** `-p` followed by an option does not consume it: the profile is nil and the option still applies. */
  lemma ParseProfileBeforeOption(inputs: seq<string>)
    requires forall k | 0 <= k < |inputs| :: !LooksLikeOption(inputs[k])
    ensures ParseOptions(["-p", "-2"] + inputs) == Ok(Parsed(Options(true, None), inputs))
  {
    var args := ["-p", "-2"] + inputs;
    var rest := ["-2"] + inputs;
    assert args[0] == "-p" && args[1..] == rest;
    assert rest[0] == "-2" && rest[1..] == inputs;
    assert LooksLikeOption(rest[0]);
    assert ParseFrom(args, DefaultOptions) == ParseFrom(rest, Options(false, None));
    assert ParseFrom(rest, Options(false, None)) == ParseFrom(inputs, Options(true, None));
    ParseWithoutOptions(inputs, Options(true, None));
  }

  /** Flags run together: `-2p NAME` is `-2` then `-p NAME`. */
  lemma ParseCombinedFlags(name: string)
    requires !LooksLikeOption(name)
    ensures ParseOptions(["-2p", name]) == Ok(Parsed(Options(true, Some(name)), []))
  {
    ParseCombinedRequeue([name]);
    ParseProfileSeparateStep([name], Options(true, Some("ipod")));
    assert ["-2p", name] == ["-2p"] + [name] && [name][1..] == [];
  }

  /** `-2p` sets two-pass and requeues `-p`. */
  lemma ParseCombinedRequeue(rest: seq<string>)
    ensures ParseFrom(["-2p"] + rest, DefaultOptions) == ParseFrom(["-p"] + rest, Options(true, Some("ipod")))
  {
    assert "-2p"[..2] == "-2" && "-2p"[2] == 'p' && "-2p"[2..] == "p" && "-" + "p" == "-p";
    StripDashesExamples();
    ParseTwoPassRequeueStep("-2p", "p", rest, DefaultOptions);
  }

  /** Dashes after `-2` are dropped before requeueing: `-2-p NAME` is `-2` then `-p NAME`. */
  lemma ParseDashedCombinedFlags(name: string)
    requires !LooksLikeOption(name)
    ensures ParseOptions(["-2-p", name]) == Ok(Parsed(Options(true, Some(name)), []))
  {
    ParseDashedRequeue([name]);
    ParseProfileSeparateStep([name], Options(true, Some("ipod")));
    assert ["-2-p", name] == ["-2-p"] + [name] && [name][1..] == [];
  }

  /** `-2-p` sets two-pass and requeues `-p`. */
  lemma ParseDashedRequeue(rest: seq<string>)
    ensures ParseFrom(["-2-p"] + rest, DefaultOptions) == ParseFrom(["-p"] + rest, Options(true, Some("ipod")))
  {
    assert "-2-p"[..2] == "-2" && "-2-p"[2] == '-' && "-2-p"[2..] == "-p" && "-" + "p" == "-p";
    StripDashesExamples();
    ParseTwoPassRequeueStep("-2-p", "p", rest, DefaultOptions);
  }

  /** Only dashes after `-2` requeue nothing: `-2- -p foo x` is two-pass with profile foo and input x. */
  lemma ParseTwoPassTrailingDash()
    ensures ParseOptions(["-2-", "-p", "foo", "x"]) == Ok(Parsed(Options(true, Some("foo")), ["x"]))
  {
    var rest := ["-p", "foo", "x"];
    ParseTrailingDashRequeue(rest);
    assert ["-2-", "-p", "foo", "x"] == ["-2-"] + rest;
    assert rest == ["-p"] + ["foo", "x"];
    assert ["foo", "x"][0] == "foo" && ["foo", "x"][1..] == ["x"] && !LooksLikeOption("foo");
    ParseProfileSeparateStep(["foo", "x"], Options(true, Some("ipod")));
    ParseWithoutOptions(["x"], Options(true, Some("foo")));
  }

  /** `-2-` sets two-pass and requeues nothing. */
  lemma ParseTrailingDashRequeue(rest: seq<string>)
    ensures ParseFrom(["-2-"] + rest, DefaultOptions) == ParseFrom(rest, Options(true, Some("ipod")))
  {
    assert "-2-"[..2] == "-2" && "-2-"[2] == '-' && "-2-"[2..] == "-";
    StripDashesExamples();
    ParseTwoPassRequeueStep("-2-", "", rest, DefaultOptions);
  }

  /** The leading dashes dropped from `-p`, `p` and `-`. */
  lemma StripDashesExamples()
    ensures StripDashes("-p") == StripDashes("p") == "p"
    ensures StripDashes("-") == ""
  {
    assert "-p"[0] == '-' && "-p"[1..] == "p" && "p"[0] != '-';
    assert "-"[0] == '-' && "-"[1..] == "";
  }

  /**
   * `-2x`: two-pass is set and `x`, its leading dashes dropped (`more`), is
   * requeued as a short option unless nothing is left.
   */
  lemma ParseTwoPassRequeueStep(a: string, more: string, rest: seq<string>, opts: Options)
    requires |a| > 2 && a[..2] == "-2" && a[2] != '=' && StripDashes(a[2..]) == more
    ensures more == [] ==> ParseFrom([a] + rest, opts) == ParseFrom(rest, opts.(twopass := true))
    ensures more != [] ==> ParseFrom([a] + rest, opts) == ParseFrom(["-" + more] + rest, opts.(twopass := true))
  {
    TwoPassFlag(a);
    HeadAndRest(a, rest);
  }

  /** An argument starting with `-2` and longer than it is none of the other whole-argument options. */
  lemma TwoPassFlag(a: string)
    requires |a| > 2 && a[..2] == "-2"
    ensures a != "--" && a != "-2" && a != "--two-pass"
  {
    assert a[1] == a[..2][1] == '2' && "--"[1] == '-' && "--two-pass"[1] == '-';
  }

  /** The first argument and the rest of `[a] + rest`. */
  lemma HeadAndRest(a: string, rest: seq<string>)
    ensures ([a] + rest)[0] == a && ([a] + rest)[1..] == rest
  {
  }

  /** `-p NAME`, NAME not looking like an option: the profile is NAME and parsing goes on after it. */
  lemma ParseProfileSeparateStep(rest: seq<string>, opts: Options)
    requires rest != [] && !LooksLikeOption(rest[0])
    ensures ParseFrom(["-p"] + rest, opts) == ParseFrom(rest[1..], opts.(profile := Some(rest[0])))
  {
    var a := "-p";
    assert a != "--" && a != "-2" && a != "--two-pass";
    assert a[..2] != "-2" by { assert a[..2][1] == 'p'; }
    assert ([a] + rest)[0] == a && ([a] + rest)[1..] == rest;
  }

  /** An unknown option stops the parse with InvalidOption naming it. */
  lemma ParseInvalid(a: string, args: seq<string>)
    requires LooksLikeOption(a) && a[1] != '2' && a[1] != 'p' && a[1] != '-'
    ensures ParseOptions([a] + args) == Err(a)
  {
    assert ([a] + args)[0] == a;
  }

  /* ---------- profile tables and command composition ---------- */

  /** The entries of the `video` table: one x264 option string each. */
  datatype VideoPreset =
    | Ipod | IpodPass1 | IpodPass2
    | AppleTvHd | AppleTvHdPass1 | AppleTvHdPass2

  /** The `video` table: profile name to preset. */
  const Video: map<string, VideoPreset> := map[
    "ipod" := Ipod, "ipod-pass1" := IpodPass1, "ipod-pass2" := IpodPass2,
    "appletv-hd" := AppleTvHd, "appletv-hd-pass1" := AppleTvHdPass1, "appletv-hd-pass2" := AppleTvHdPass2
  ]

  /** The mencoder video options each preset stands for. */
  function PresetOptions(preset: VideoPreset): string
  {
    match preset
    case Ipod => "-ovc x264 -x264encopts global_header:vbv_maxrate=1500:vbv_bufsize=2000:keyint=500:threads=auto:subq=6:me=umh:cabac=0:psnr=yes:bitrate=1200:level=3 -vf harddup -vf scale=w=640:h=-1:noup=1"
    case IpodPass1 => "-ovc x264 -x264encopts global_header:vbv_maxrate=1500:vbv_bufsize=2000:keyint=500:threads=auto:subq=1:cabac=0:psnr=yes:bitrate=1000:level=3:pass=1 -vf harddup -vf scale=w=640:h=-1:noup=1"
    case IpodPass2 => "-ovc x264 -x264encopts global_header:vbv_maxrate=1500:vbv_bufsize=2000:keyint=500:threads=auto:subq=6:me=umh:cabac=0:psnr=yes:bitrate=1000:level=3:pass=2 -vf harddup -vf scale=w=640:h=-1:noup=1"
    case AppleTvHd => "-ovc x264 -x264encopts global_header:vbv_maxrate=5000:vbv_bufsize=2000:bitrate=2500:keyint=500:threads=auto:bframes=0:ref=1:subq=6:me=umh:no-fast-pskip=1:trellis=2:cabac=0:level=3.1 -vf harddup -vf scale=w=1280:h=-1:noup=1"
    case AppleTvHdPass1 => "-ovc x264 -x264encopts global_header:vbv_maxrate=5000:vbv_bufsize=2000:bitrate=2500:keyint=500:threads=auto:bframes=0:frameref=1:subq=1:no-fast-pskip=1:trellis=2:cabac=0:level=3.1:pass=1 -vf harddup -vf scale=w=1280:h=-1:noup=1"
    case AppleTvHdPass2 => "-ovc x264 -x264encopts global_header:vbv_maxrate=5000:vbv_bufsize=2000:bitrate=2500:keyint=500:threads=auto:bframes=0:frameref=1:subq=5:me=umh:partitions=all:no-fast-pskip=1:trellis=2:cabac=0:level=3.1:pass=2 -vf harddup -vf scale=w=1280:h=-1:noup=1"
  }

  /** The one audio option string, `audio['aac']`. */
  const Aac := "-oac faac -faacopts mpeg=4:object=2:br=128:raw=yes -af lavcresample=44100 -of lavf -lavfopts format=mp4"

  /**
   * One input's mencoder command line: for two-pass encoding an analysis
   * pass with the `analysis` preset whose output is thrown away, then, after
   * `&&`, the full encode (aac audio, the `video` preset) into `output`.
   */
  datatype CommandLine = CommandLine(input: string, analysis: Option<VideoPreset>, video: VideoPreset, output: string)

  /** The text of a full encode of `input` into `output` with the given audio and video options. */
  function EncodeText(input: string, audio: string, video: string, output: string): string
  {
    "nice mencoder \"" + input + "\" " + audio + " " + video + " -o \"" + output + "\""
  }

  /** The text of an analysis pass over `input` with the given video options. */
  function AnalysisText(input: string, video: string): string
  {
    "nice mencoder \"" + input + "\" -nosound " + video + " -o /dev/null"
  }

  /**
   * The command line as the shell receives it: it starts by running mencoder
   * on the quoted input and, with or without an analysis pass in front, ends
   * by naming the quoted output file.
   */
  function Render(command: CommandLine): (r: string)
    ensures StartsWith(r, "nice mencoder \"" + command.input + "\" ")
    ensures EndsWith(r, " -o \"" + command.output + "\"")
  {
    var encode := EncodeText(command.input, Aac, PresetOptions(command.video), command.output);
    match command.analysis
    case None =>
      RenderedEnds(command.input, Aac, PresetOptions(command.video), command.output, None);
      encode
    case Some(first) =>
      RenderedEnds(command.input, Aac, PresetOptions(command.video), command.output, Some(PresetOptions(first)));
      AnalysisText(command.input, PresetOptions(first)) + " && " + encode
  }

  /** Whatever the option strings, a command line starts with the input and ends with the output. */
  lemma RenderedEnds(input: string, audio: string, video: string, output: string, analysis: Option<string>)
    ensures var encode := EncodeText(input, audio, video, output);
      var r := if analysis.None? then encode else AnalysisText(input, analysis.value) + " && " + encode;
      StartsWith(r, "nice mencoder \"" + input + "\" ") && EndsWith(r, " -o \"" + output + "\"")
  {
    var encode := EncodeText(input, audio, video, output);
    var head := "nice mencoder \"" + input + "\" ";
    EncodeTextNamesOutput(input, audio, video, output);
    assert encode == head + (audio + " " + video + " -o \"" + output + "\"");
    assert encode[..|head|] == head;
    if analysis.Some? {
      AnalysisTextDiscardsOutput(input, analysis.value);
      AppendKeepsEnds(AnalysisText(input, analysis.value) + " && ", encode, head, " -o \"" + output + "\"");
    }
  }

  /** A prefix of the front and a suffix of the back are a prefix and a suffix of the concatenation. */
  lemma AppendKeepsEnds(front: string, back: string, prefix: string, suffix: string)
    requires StartsWith(front, prefix) && EndsWith(back, suffix)
    ensures StartsWith(front + back, prefix) && EndsWith(front + back, suffix)
  {
    assert (front + back)[..|prefix|] == front[..|prefix|];
    assert (front + back)[|front + back| - |suffix|..] == back[|back| - |suffix|..];
  }

  /**
   * The command line for one input, or None where the Ruby code would add
   * nil to a string (a profile missing from the table) and crash. It encodes
   * the input with the profile's own preset into the input's name with
   * `.m4v`, after an analysis pass exactly when two-pass is on.
   */
  function Compose(input: string, twopass: bool, profile: string, video: map<string, VideoPreset>): (r: Option<CommandLine>)
    ensures r.Some? ==> profile in video
    ensures r.Some? ==> r.value.input == input && r.value.video == video[profile] && r.value.output == SwapExtension(input)
    ensures r.Some? ==> (r.value.analysis.Some? <==> twopass)
  {
    var output := SwapExtension(input);
    if twopass then
      if profile + "-pass1" in video && profile in video then
        Some(CommandLine(input, Some(video[profile + "-pass1"]), video[profile], output))
      else None
    else if profile in video then Some(CommandLine(input, None, video[profile], output))
    else None
  }

  /**
   * The profiles a command line exists for with the script's table: any
   * name in it for one pass, only "ipod" and "appletv-hd" for two passes.
   */
  lemma ComposeDefined(input: string, profile: string)
    ensures Compose(input, false, profile, Video).Some? <==> profile in Video
    ensures Compose(input, true, profile, Video).Some? <==> profile == "ipod" || profile == "appletv-hd"
  {
    var suffixed := profile + "-pass1";
    if profile in Video && suffixed in Video {
      assert suffixed[..|profile|] == profile;
      assert |suffixed| == |profile| + 6;
    }
    if profile == "ipod" {
      assert suffixed == "ipod-pass1";
    } else if profile == "appletv-hd" {
      assert suffixed == "appletv-hd-pass1";
    }
  }

  /**
   * A two-pass command line is the single-pass one with the analysis pass of
   * the `-pass1` preset in front: the second pass uses the base profile's
   * preset, not the `-pass2` one.
   */
  lemma TwoPassThenSinglePass(input: string, profile: string, video: map<string, VideoPreset>)
    requires Compose(input, true, profile, video).Some?
    ensures Compose(input, false, profile, video).Some?
    ensures Compose(input, true, profile, video).value ==
      Compose(input, false, profile, video).value.(analysis := Some(video[profile + "-pass1"]))
  {
  }

  /** An encode pass, and so the command line it ends, names its output file last, in quotes. */
  lemma EncodeTextNamesOutput(input: string, audio: string, video: string, output: string)
    ensures EndsWith(EncodeText(input, audio, video, output), " -o \"" + output + "\"")
  {
    var tail := " -o \"" + output + "\"";
    var head := "nice mencoder \"" + input + "\" " + audio + " " + video;
    assert EncodeText(input, audio, video, output) == head + tail;
    assert (head + tail)[|head + tail| - |tail|..] == tail;
  }

  /** An analysis pass reads the input without sound and throws its output away. */
  lemma AnalysisTextDiscardsOutput(input: string, video: string)
    ensures StartsWith(AnalysisText(input, video), "nice mencoder \"" + input + "\" -nosound ")
    ensures EndsWith(AnalysisText(input, video), " -o /dev/null")
  {
    var head := "nice mencoder \"" + input + "\" -nosound ";
    var tail := " -o /dev/null";
    var r := AnalysisText(input, video);
    assert r == head + video + tail;
    assert r[..|head|] == head;
    assert r[|r| - |tail|..] == tail;
  }

  /* ---------- the batch ---------- */

  /**
   * What running one command line gives: the output chunks, and what `$?`
   * holds after the popen3 block (None for nil). That is not mencoder's own
   * status: which value it is depends on the Ruby version running the script.
   */
  datatype Capture = Capture(chunks: seq<string>, status: Option<int>)

  /** How the script ends: normally, by `exit 1` in safe_execute, or by an uncaught exception. */
  datatype Exit = Completed | Failed | Crashed

  /** Everything the script printed, in order, the commands it ran, and how it ended. */
  datatype BatchRun = BatchRun(output: seq<string>, commands: seq<CommandLine>, exit: Exit)

  /** What one input adds to the output once its command line runs. */
  function InputOutput(command: CommandLine, capture: Capture): seq<string>
  {
    ["Encoding " + command.output + "\n"] + StatusLines(capture.chunks) + ["\n"]
    + (if capture.status != Some(0) then ["ERROR\n"] else [])
  }

  /** The output of the inputs that were encoded, one after the other. */
  ghost function BatchOutput(commands: seq<CommandLine>, mencoder: CommandLine -> Capture): seq<string>
  {
    if commands == [] then []
    else
      var n := |commands| - 1;
      BatchOutput(commands[..n], mencoder) + InputOutput(commands[n], mencoder(commands[n]))
  }

  /** After every one of the commands `$?` held exit status 0. */
  ghost predicate AllSucceeded(commands: seq<CommandLine>, mencoder: CommandLine -> Capture)
  {
    forall k | 0 <= k < |commands| :: mencoder(commands[k]).status == Some(0)
  }

  /** The commands are those composed for the first inputs, one each, in order. */
  ghost predicate ComposedFor(inputs: seq<string>, commands: seq<CommandLine>, twopass: bool, profile: string, video: map<string, VideoPreset>)
  {
    && |commands| <= |inputs|
    && forall k | 0 <= k < |commands| :: Compose(inputs[k], twopass, profile, video) == Some(commands[k])
  }

  /** The input has a command line, and after running it `$?` holds exit status 0. */
  ghost predicate Encodes(input: string, twopass: bool, profile: string, video: map<string, VideoPreset>, mencoder: CommandLine -> Capture)
  {
    var line := Compose(input, twopass, profile, video);
    line.Some? && mencoder(line.value).status == Some(0)
  }

  /** How many inputs, from the first, encode one after the other before one does not. */
  ghost function Encoded(
    inputs: seq<string>, twopass: bool, profile: string, video: map<string, VideoPreset>, mencoder: CommandLine -> Capture): (n: nat)
    ensures n <= |inputs|
  {
    if inputs == [] || !Encodes(inputs[0], twopass, profile, video, mencoder) then 0
    else 1 + Encoded(inputs[1..], twopass, profile, video, mencoder)
  }

  /** Every input before position `Encoded` encodes and the one at it, if any, does not. */
  lemma {:induction false} EncodedSpec(
    inputs: seq<string>, twopass: bool, profile: string, video: map<string, VideoPreset>, mencoder: CommandLine -> Capture)
    ensures var n := Encoded(inputs, twopass, profile, video, mencoder);
      && (forall k | 0 <= k < n :: Encodes(inputs[k], twopass, profile, video, mencoder))
      && (n < |inputs| ==> !Encodes(inputs[n], twopass, profile, video, mencoder))
  {
    if inputs != [] && Encodes(inputs[0], twopass, profile, video, mencoder) {
      EncodedSpec(inputs[1..], twopass, profile, video, mencoder);
      var n := Encoded(inputs, twopass, profile, video, mencoder);
      forall k | 0 <= k < n
        ensures Encodes(inputs[k], twopass, profile, video, mencoder)
      {
        if k > 0 {
          assert inputs[k] == inputs[1..][k - 1];
        }
      }
    }
  }

  /** `Encoded` is the first position whose input does not encode. */
  lemma EncodedAt(
    inputs: seq<string>, twopass: bool, profile: string, video: map<string, VideoPreset>, mencoder: CommandLine -> Capture, i: nat)
    requires i <= |inputs|
    requires forall k | 0 <= k < i :: Encodes(inputs[k], twopass, profile, video, mencoder)
    requires i < |inputs| ==> !Encodes(inputs[i], twopass, profile, video, mencoder)
    ensures Encoded(inputs, twopass, profile, video, mencoder) == i
  {
    EncodedSpec(inputs, twopass, profile, video, mencoder);
  }

  /** How the batch ends once `n` inputs have encoded: normally, with ERROR after a failing run, or crashed on a missing profile. */
  ghost function BatchExit(
    inputs: seq<string>, twopass: bool, profile: string, video: map<string, VideoPreset>, n: nat): Exit
    requires n <= |inputs|
  {
    if n == |inputs| then Completed
    else if Compose(inputs[n], twopass, profile, video).None? then Crashed
    else Failed
  }

  /**
   * safe_execute around execute_mencoder: the status lines and the line
   * feed, then ERROR when execute_mencoder raises; `failed` stands for the
   * `exit 1` that follows.
   */
  method SafeExecute(capture: Capture) returns (printed: seq<string>, failed: bool)
    ensures failed <==> capture.status != Some(0)
    ensures printed == StatusLines(capture.chunks) + ["\n"] + (if failed then ["ERROR\n"] else [])
  {
    var raised;
    printed, raised := ExecuteMencoder(capture.chunks, capture.status);
    if raised {
      printed := printed + ["ERROR\n"];
    }
    failed := raised;
  }

  /**
   * The loop over the inputs: each input's command line is built (a missing
   * profile crashes here, before anything is printed for it), announced and
   * run under safe_execute; the first run that fails stops the batch with
   * exit status 1.
   */
  method EncodeAll(
    inputs: seq<string>, twopass: bool, profile: string, video: map<string, VideoPreset>, mencoder: CommandLine -> Capture)
    returns (output: seq<string>, commands: seq<CommandLine>, exit: Exit)
    ensures ComposedFor(inputs, commands, twopass, profile, video)
    ensures output == BatchOutput(commands, mencoder)
    ensures var n := Encoded(inputs, twopass, profile, video, mencoder);
      && exit == BatchExit(inputs, twopass, profile, video, n)
      && |commands| == (if exit == Failed then n + 1 else n)
  {
    output, commands := [], [];
    for i := 0 to |inputs|
      invariant |commands| == i
      invariant ComposedFor(inputs, commands, twopass, profile, video)
      invariant forall k | 0 <= k < i :: Encodes(inputs[k], twopass, profile, video, mencoder)
      invariant output == BatchOutput(commands, mencoder)
    {
      var outputFile := SwapExtension(inputs[i]);
      var line := Compose(inputs[i], twopass, profile, video);
      if line.None? {
        EncodedAt(inputs, twopass, profile, video, mencoder, i);
        return output, commands, Crashed;
      }
      assert outputFile == line.value.output;
      output := output + ["Encoding " + outputFile + "\n"];
      var printed, failed := SafeExecute(mencoder(line.value));
      output := output + printed;
      BatchOutputStep(commands, line.value, mencoder);
      ComposedForStep(inputs, commands, line.value, twopass, profile, video);
      commands := commands + [line.value];
      if failed {
        EncodedAt(inputs, twopass, profile, video, mencoder, i);
        return output, commands, Failed;
      }
      assert Encodes(inputs[i], twopass, profile, video, mencoder);
    }
    EncodedAt(inputs, twopass, profile, video, mencoder, |inputs|);
    exit := Completed;
  }

  /**
   * What the end of the batch means: it completes exactly when every input
   * encodes; after ERROR the last command is the one that failed and all
   * before it succeeded; after a crash every command ran succeeded and the
   * next input has no command line.
   */
  lemma BatchEnd(
    inputs: seq<string>, commands: seq<CommandLine>, exit: Exit,
    twopass: bool, profile: string, video: map<string, VideoPreset>, mencoder: CommandLine -> Capture)
    requires ComposedFor(inputs, commands, twopass, profile, video)
    requires var n := Encoded(inputs, twopass, profile, video, mencoder);
      && exit == BatchExit(inputs, twopass, profile, video, n)
      && |commands| == (if exit == Failed then n + 1 else n)
    ensures exit == Completed <==> forall k | 0 <= k < |inputs| :: Encodes(inputs[k], twopass, profile, video, mencoder)
    ensures exit == Completed ==> |commands| == |inputs|
    ensures exit == Failed ==>
      && |commands| > 0
      && AllSucceeded(commands[..|commands| - 1], mencoder)
      && mencoder(commands[|commands| - 1]).status != Some(0)
    ensures exit == Crashed ==>
      && |commands| < |inputs|
      && AllSucceeded(commands, mencoder)
      && Compose(inputs[|commands|], twopass, profile, video).None?
  {
    EncodedSpec(inputs, twopass, profile, video, mencoder);
    var n := Encoded(inputs, twopass, profile, video, mencoder);
    EncodedSucceeded(inputs, commands, n, twopass, profile, video, mencoder);
    if exit == Failed {
      FailedAfterEncoded(inputs, commands, n, twopass, profile, video, mencoder);
    } else if exit == Crashed {
      assert commands[..n] == commands;
    }
  }

  /** The command after the inputs that encode is the one whose run left `$?` at another value. */
  lemma FailedAfterEncoded(
    inputs: seq<string>, commands: seq<CommandLine>, n: nat,
    twopass: bool, profile: string, video: map<string, VideoPreset>, mencoder: CommandLine -> Capture)
    requires ComposedFor(inputs, commands, twopass, profile, video) && |commands| == n + 1
    requires !Encodes(inputs[n], twopass, profile, video, mencoder)
    ensures commands[..|commands| - 1] == commands[..n]
    ensures mencoder(commands[|commands| - 1]).status != Some(0)
  {
    assert Compose(inputs[n], twopass, profile, video) == Some(commands[n]);
  }

  /** The commands of inputs that encode all left `$?` at exit status 0. */
  lemma EncodedSucceeded(
    inputs: seq<string>, commands: seq<CommandLine>, n: nat,
    twopass: bool, profile: string, video: map<string, VideoPreset>, mencoder: CommandLine -> Capture)
    requires ComposedFor(inputs, commands, twopass, profile, video) && n <= |commands|
    requires forall k | 0 <= k < n :: Encodes(inputs[k], twopass, profile, video, mencoder)
    ensures AllSucceeded(commands[..n], mencoder)
  {
    forall k | 0 <= k < n
      ensures mencoder(commands[..n][k]).status == Some(0)
    {
      assert Compose(inputs[k], twopass, profile, video) == Some(commands[k]);
      assert Encodes(inputs[k], twopass, profile, video, mencoder);
    }
  }

  /**
   * When `$?` is nil after every run (the main thread's `$?` under Ruby 1.9
   * and later, since popen3 waits in another thread), the first input that
   * has a command line prints ERROR and ends the batch: nothing after it is
   * encoded.
   */
  lemma StatusNilStopsAtFirst(
    inputs: seq<string>, twopass: bool, profile: string, video: map<string, VideoPreset>, mencoder: CommandLine -> Capture)
    requires forall c :: mencoder(c).status.None?
    ensures Encoded(inputs, twopass, profile, video, mencoder) == 0
    ensures inputs != [] ==>
      BatchExit(inputs, twopass, profile, video, 0) == (if Compose(inputs[0], twopass, profile, video).Some? then Failed else Crashed)
  {
  }

  /**
   * When `$?` holds 0 after every run (the forked child's status under Ruby
   * 1.8, whatever mencoder returned), no run raises: the batch never ends
   * with ERROR.
   */
  lemma {:induction false} StatusZeroNeverFails(
    inputs: seq<string>, twopass: bool, profile: string, video: map<string, VideoPreset>, mencoder: CommandLine -> Capture)
    requires forall c :: mencoder(c).status == Some(0)
    ensures BatchExit(inputs, twopass, profile, video, Encoded(inputs, twopass, profile, video, mencoder)) != Failed
  {
    EncodedSpec(inputs, twopass, profile, video, mencoder);
  }

  /** One more input's command line extends the commands composed so far. */
  lemma ComposedForStep(
    inputs: seq<string>, commands: seq<CommandLine>, line: CommandLine, twopass: bool, profile: string, video: map<string, VideoPreset>)
    requires ComposedFor(inputs, commands, twopass, profile, video)
    requires |commands| < |inputs| && Compose(inputs[|commands|], twopass, profile, video) == Some(line)
    ensures ComposedFor(inputs, commands + [line], twopass, profile, video)
  {
  }

  /** The output of one more input: the earlier output, then the `Encoding` line, the status lines and, on failure, ERROR. */
  lemma BatchOutputStep(commands: seq<CommandLine>, line: CommandLine, mencoder: CommandLine -> Capture)
    ensures var capture := mencoder(line);
      BatchOutput(commands + [line], mencoder) == BatchOutput(commands, mencoder) + ["Encoding " + line.output + "\n"]
        + (StatusLines(capture.chunks) + ["\n"] + (if capture.status != Some(0) then ["ERROR\n"] else []))
  {
    var capture := mencoder(line);
    assert (commands + [line])[..|commands|] == commands;
    SeqRegroup(BatchOutput(commands, mencoder), ["Encoding " + line.output + "\n"], StatusLines(capture.chunks), ["\n"],
      if capture.status != Some(0) then ["ERROR\n"] else []);
  }

  /** Regrouping a concatenation of five sequences. */
  lemma SeqRegroup<T>(a: seq<T>, b: seq<T>, c: seq<T>, d: seq<T>, e: seq<T>)
    ensures a + (b + c + d + e) == a + b + (c + d + e)
  {
  }

  /** The lines printed before the first input: the profile, and the two-pass notice when it is on. */
  function Header(opts: Options): seq<string>
    requires opts.profile.Some?
  {
    ["Using " + opts.profile.value + " profile.\n"] + (if opts.twopass then ["Two-pass encoding enabled.\n"] else [])
  }

  /**
   * The whole script: parse the options (an invalid option crashes), print
   * the profile (a nil profile crashes on `"Using " + nil`), announce
   * two-pass, then encode the inputs in order.
   */
  method Mp4maker(argv: seq<string>, mencoder: CommandLine -> Capture) returns (run: BatchRun)
    ensures ParseOptions(argv).Err? || ParseOptions(argv).value.options.profile.None? <==> run.output == []
    ensures run.output == [] ==> run == BatchRun([], [], Crashed)
    ensures run.output != [] ==>
      var opts := ParseOptions(argv).value.options;
      var inputs := ParseOptions(argv).value.inputs;
      var n := Encoded(inputs, opts.twopass, opts.profile.value, Video, mencoder);
      && run.output[0] == "Using " + opts.profile.value + " profile.\n"
      && (opts.twopass <==> |run.output| >= 2 && run.output[1] == "Two-pass encoding enabled.\n")
      && ComposedFor(inputs, run.commands, opts.twopass, opts.profile.value, Video)
      && run.exit == BatchExit(inputs, opts.twopass, opts.profile.value, Video, n)
      && |run.commands| == (if run.exit == Failed then n + 1 else n)
      && run.output == Header(opts) + BatchOutput(run.commands, mencoder)
  {
    var parsed := ParseOptions(argv);
    if parsed.Err? || parsed.value.options.profile.None? {
      return BatchRun([], [], Crashed);
    }
    var opts := parsed.value.options;
    var profile := opts.profile.value;
    var output := ["Using " + profile + " profile.\n"];
    if opts.twopass {
      output := output + ["Two-pass encoding enabled.\n"];
    }
    assert output == Header(opts);
    var encoded, commands, exit := EncodeAll(parsed.value.inputs, opts.twopass, profile, Video, mencoder);
    if !opts.twopass && encoded != [] {
      BatchOutputStarts(commands, mencoder);
      assert encoded[0][0] == 'E';
    }
    run := BatchRun(output + encoded, commands, exit);
  }

  /** The batch output, when there is any, starts with an `Encoding` line. */
  lemma {:induction false} BatchOutputStarts(commands: seq<CommandLine>, mencoder: CommandLine -> Capture)
    ensures var out := BatchOutput(commands, mencoder);
      out != [] ==> out[0] == "Encoding " + commands[0].output + "\n"
    decreases |commands|
  {
    if commands != [] {
      BatchOutputStarts(commands[..|commands| - 1], mencoder);
    }
  }
}
