# mp4maker in Dafny

A model of the two Ruby scripts of mp4maker, with proofs about it.

- **mkvert.rb** turns an MKV with soft subtitles into an M4V with soft subtitles. In order, it:
  - completes the `.mkv` / `.m4v` names;
  - decides whether to transcode;
  - picks a subtitle track from `mkvmerge --identify`;
  - extracts that track and, for ASS, converts it to SRT;
  - muxes the subtitles into the M4V;
  - deletes the sidecar files.
- **mp4maker.rb** parses `-2` / `-p` and builds one mencoder command line per input. It runs each line and shows mencoder's status lines. The first failing run prints `ERROR` and ends the batch with exit status 1. The same file also holds `execute_ffmpeg`, a progress scraper for ffmpeg.

Every external tool is an input of the model:
- what `mkvmerge --identify` and `du` print;
- whether HandBrakeCLI, mkvextract or ass2srt.pl wrote their file;
- the carriage-return chunks mencoder or ffmpeg print, ffmpeg's exit status, and what `$?` holds after each mencoder run.

The file system is a set of existing paths. Each run records the commands it issued and the files that exist afterwards.

Modules:
- `Wrappers`: Option and Result.
- `Text`: digit runs and prefixes.
- `Text.FirstMatch` and `Text.LastMatch`: the leftmost and the greedy-`.*` (rightmost) scan of one fixed pattern.
- `Names`: the file-name rewrites.
- `Tracks`: grep and `/Track ID (\d+)/`.
- `Mkvert`: the mkvert script as methods over the file set.
- `Progress`: the two scrapers as loops over the chunks.
- `Mp4maker`: option parsing, the profile table, command composition and the batch.

In mkvert.rb every stop is a plain `exit`. A stop therefore runs no cleanup, leaves any sidecar file already created in place, and ends with status 0 (`Mkvert.RunFrom`). In execute_ffmpeg the duration is forgotten between chunks; see Findings.

execute_mencoder reads `$?` after the block form of `Open3.popen3`, which does not set it to mencoder's status. Under Ruby 1.8 it holds the status 0 of the intermediate forked process. Under Ruby 1.9 and later it is nil in the main thread, and `$?.exitstatus` raises. The model takes what `$?` holds as an input of each run (`Capture.status`, None for nil). `Mp4maker.StatusZeroNeverFails` and `Mp4maker.StatusNilStopsAtFirst` state what the batch does in each case.

## Model

| member | source | states |
|---|---|---|
| Text.FirstDigits | mkvert.rb:20-21 | `/(\d+)/` finds nothing exactly when the text has no digit. Otherwise it yields the first maximal run of digits: no digit comes before it and no digit follows it. |
| Text.FirstDigitsFacts | mkvert.rb:20 | The leftmost scan for a digit run finds nothing exactly when there is no digit, and otherwise finds the first maximal run. |
| Text.NoDigitsAt | mkvert.rb:20 | A position where no digit run starts holds no digit. |
| Text.DigitsAtRun | mkvert.rb:20 | A digit run found at a position occurs there in the text and is maximal. |
| Text.DigitsAt | mkvert.rb:20 | A match at the start is a non-empty, maximal digit prefix. |
| Text.FirstMatchSpec | mkvert.rb:89 | The leftmost scan finds nothing exactly when the pattern matches at no position. Otherwise its captures are those of a matching position with no match before it. |
| Text.LastMatchSpec | mp4maker.rb:46 | The greedy `.*` scan finds nothing exactly when no position in the range matches. Otherwise it yields the match at a position with no match after it in the range. |
| Text.LastMatchSkip | mp4maker.rb:46 | Positions at the end of the range where nothing matches do not change what the greedy scan finds. |
| Text.DigitRunEnd | mkvert.rb:20 | `\d*` from a position covers only digits and stops at a non-digit or the end. |
| Text.RunEnd | mp4maker.rb:46 | A character-class run such as `\s+` or `[0-9.]+` covers only class members and stops at a non-member or the end. |
| Text.RunEndMaximal | mp4maker.rb:46 | The run is the longest one: any stretch of class members from the same position ends within it. |
| Text.RunEndAt | mp4maker.rb:46 | A stretch of class members that ends at the end of the text or at a non-member is exactly the run. |
| Names.StripSuffix | mkvert.rb:68 | `gsub(/\.mkv$/, '')` removes the suffix when the name ends in it, so base + suffix is the name. Otherwise the name is unchanged. |
| Names.Normalise | mkvert.rb:68-72 | The completed name always ends in the suffix and is the stripped name plus the suffix. A name that already ends in it is returned unchanged. |
| Names.NormaliseIdempotent | mkvert.rb:68-72 | Normalising twice equals normalising once. |
| Names.LastDot | mkvert.rb:18 | A position found for the last dot lies inside the name. |
| Names.LastDotSpec | mkvert.rb:18 | No dot is found exactly when the name has none. A found dot has no dot after it. |
| Names.SwapExtension | mp4maker.rb:105 | `gsub(/\.[^.]*$/, '.m4v')`; what it returns is stated by `Names.SwapExtensionSpec`. |
| Names.SwapExtensionSpec | mp4maker.rb:105 | A name without `.` is unchanged. Otherwise the result ends in `.m4v` and is the name up to its last `.`, then `.m4v`. |
| Names.LastDotAt | mkvert.rb:18 | A dot with no dot after it is the one `\.[^.]*$` matches. |
| Names.SwapExtensionOfNormalised | mkvert.rb:79-83 | For a normalised source name, quick_encode's output name is the base name + `.m4v`. That is the `m4v_file` the script derives and later muxes into. |
| Names.SwapExtensionIdempotent | mp4maker.rb:105 | Replacing the extension of an output name again changes nothing. |
| Names.SwapExtensionKeepsInnerDots | mp4maker.rb:105 | Only the last extension is replaced (`movie.tar.mkv` → `movie.tar.m4v`). A name without a dot is left alone. |
| Tracks.Grep | mkvert.rb:88 | `grep` keeps each line holding the token, with its newline; `Tracks.FirstTrackOfLines` states what is then read from it. |
| Tracks.TrackIdAt | mkvert.rb:100 | A match exists exactly when the text starts with `Track ID ` and a digit. Its value is `to_i` of the whole digit run after the label. |
| Tracks.TrackId | mkvert.rb:89-100 | The leftmost `Track ID` match and its number; `Tracks.TrackIdOfJoin` and `Tracks.TrackIdOfGrep` state which id it finds. |
| Tracks.DigitsAtStopsAtNewline | mkvert.rb:88-89 | The digit run at the start of a line is the same whatever follows the line's newline. |
| Tracks.DigitRunEndStopsAtNewline | mkvert.rb:88 | A digit run inside one line of grep's output ends inside that line. |
| Tracks.TrackIdAtStopsAtNewline | mkvert.rb:89 | A `Track ID` match never reaches past the line it starts in. |
| Tracks.TrackIdOfJoin | mkvert.rb:89 | On joined lines, `/Track ID (\d+)/` finds the first line's id if it has one, else what it finds in the rest. |
| Tracks.FirstTrackOfLines | mkvert.rb:88-89 | There is a result exactly when some line has both the token and a track id. The result is the id of the first such line. |
| Tracks.TrackIdOfGrep | mkvert.rb:88-100 | The id read from grep's output for a codec token is the id of the first identify line that has both the token and a track id. |
| Tracks.SelectSubtitle | mkvert.rb:87-101 | The choice between the UTF-8 and the ASS grep; `Tracks.SelectSubtitleSpec` states it. |
| Tracks.SelectSubtitleSpec | mkvert.rb:87-101 | UTF-8 (SRT) is chosen exactly when some UTF-8 line carries a track id, even if an ASS track exists. ASS is chosen exactly when only ASS lines do. Nothing is chosen when neither does. The id is that of the first matching line of the chosen codec. |
| Mkvert.Without | mkvert.rb:58 | `ARGV.delete("-s")` leaves no `-s` and keeps every other argument: as a multiset the result is the arguments with every `-s` taken out, and without a `-s` it is the arguments themselves. |
| Mkvert.WithoutFirst | mkvert.rb:58 | Deleting from a non-empty list keeps its first argument unless it is `-s`, then deletes from the rest. |
| Mkvert.WithoutAppend | mkvert.rb:58 | Deleting from a concatenation deletes from each part, so the kept arguments stay in their order. |
| Mkvert.WrittenStep | mkvert.rb:17-42 | One more input adds its output to the files HandBrakeCLI wrote exactly when HandBrakeCLI writes it. |
| Mkvert.QuickEncode | mkvert.rb:16-50 | Each input is encoded with the size `du` reports, towards its name with the last extension replaced by `.m4v`. The loop stops at the first input whose `du` report has no digits. It succeeds exactly when every report has digits. The new files are exactly the outputs written. |
| Mkvert.TargetDecision | mkvert.rb:75-84 | A named target that does not exist stops the run before any transcoding. No target means one HandBrakeCLI command towards base + `.m4v`, or a stop when `du` gives no size. An existing target is used as is, with no command. |
| Mkvert.SubtitleSteps | mkvert.rb:103-139 | The extract step stops the run exactly when the track file neither was written nor existed. On the ASS path the convert step stops it exactly when the `.srt` neither was written nor existed. A stop runs neither mux nor cleanup and leaves the created `.ass` in place. Otherwise the commands are extraction, conversion for ASS, then the mux of base + `.srt` into the target. The cleanup removes the `.srt`, and the `.ass` only for ASS. |
| Mkvert.RunFrom | mkvert.rb:75-139 | A run from the target decision on: it takes one of six exits, each exactly under its condition. A missing target or an unknown size stops it with no command. No track stops it after the transcode commands. A failed extraction stops it after the extract command. A failed conversion stops it after extract and convert, leaving the `.ass`. Otherwise it runs extraction, conversion for ASS and the mux, then deletes the sidecars. |
| Mkvert.RunFromDetermined | mkvert.rb:75-139 | At most one run meets `RunFrom`: outcome, commands and files are all fixed by the inputs. |
| Mkvert.Convert | mkvert.rb:75-139 | The run from the target decision on is the one `RunFrom` describes. |
| Mkvert.SubtitlesAndMux | mkvert.rb:86-139 | Once the target is settled, selection, sidecar steps, mux and cleanup together give the run `RunFrom` describes. |
| Mkvert.Mkvert | mkvert.rb:58-139 | The usage stop happens exactly when no argument is left after removing `-s`, and it changes nothing. Otherwise the run is the one `RunFrom` describes. |
| Progress.TwoDigitsValue | mp4maker.rb:22 | Two digits read by `to_i` are tens and units. |
| Progress.OneDigitValue | mp4maker.rb:22 | One digit read by `to_i` is its own value. |
| Progress.DurationAt | mp4maker.rb:21-22 | `Duration: (\d{2}):(\d{2}):(\d{2}).(\d{1})` matches exactly when the field has that shape, with any character but a newline for the `.`. The value is `(($1*60 + $2)*60 + $3)*10 + $4` over the `to_i` of the captures. |
| Progress.DurationFieldDigits | mp4maker.rb:21-22 | In a duration field, the captures read by `to_i` are the two-digit hours, minutes and seconds and the one-digit tenths. |
| Progress.DurationFieldOfChars | mp4maker.rb:21 | The duration pattern is matched by checking the label and each character in turn. |
| Progress.TimeAt | mp4maker.rb:24-26 | `time=(\d+).(\d+)` matches exactly when some split of digits, separator and digit works. The first group ends at the last split that works, as the greedy `\d+` does. The value is the `to_i` of both groups, the second being the whole digit run after the separator. |
| Progress.NoTimeSplit | mp4maker.rb:24 | Without `time=` and a digit, no split works. |
| Progress.TimeSplitsEndByRun | mp4maker.rb:24 | Every split lies within the digit run after `time=`. |
| Progress.RunIsDigits | mp4maker.rb:24 | A run found by `\d*` consists of digits. |
| Progress.TimeWholeRun | mp4maker.rb:24 | When a non-newline and a digit follow the whole digit run after `time=`, the first group of `/time=(\d+).(\d+)/` is that whole run and no later split works. |
| Progress.TimeShortRun | mp4maker.rb:24 | When nothing usable follows a run of one or two digits after `time=`, `/time=(\d+).(\d+)/` does not match at that position. |
| Progress.TimeBacktrack | mp4maker.rb:24 | When the whole run cannot be the first group, the last split that works gives back two digits: the separator and a one-digit second group. |
| Progress.Percent | mp4maker.rb:25-30 | The percentage is in 0..100. It is 0 when the duration is nil or 0. Within the duration it is the rounded-down `elapsed*100/duration`. At or past the duration it is 100. |
| Progress.ClampedQuotient | mp4maker.rb:26-30 | The quotient capped at 100 is at most 100, rounds down while elapsed is within the duration, and is 100 from the duration on. |
| Progress.DivisionBounds | mp4maker.rb:26 | The integer quotient rounds down. It is at most 100 within the duration and at least 100 from the duration on. |
| Progress.Percents | mp4maker.rb:20-30 | The per-chunk percentages are each at most 100, at most one per chunk. |
| Progress.PercentsEmpty | mp4maker.rb:24 | No percentage is computed exactly when no chunk has a `time=` field. |
| Progress.Dedup | mp4maker.rb:31-35 | De-duplication never prints more values than were computed. |
| Progress.DedupShape | mp4maker.rb:18-35 | Every printed value was computed, and no two neighbours are equal. The first value printed after a previous one differs from it. With nothing printed before, the first computed value is always printed. |
| Progress.PercentsStep | mp4maker.rb:20-30 | A chunk contributes its own percentage, if it has one, ahead of the rest. |
| Progress.DedupStep | mp4maker.rb:31-35 | A value equal to the last printed one is skipped; any other is printed and becomes the last. |
| Progress.PrintStep | mp4maker.rb:31-35 | Printing or skipping one value keeps "printed so far + what the rest prints" equal to the whole output. |
| Progress.DedupKeepsChanges | mp4maker.rb:31-35 | Values that change at every step are all printed. |
| Progress.DedupDropsRepeat | mp4maker.rb:31-35 | Two chunks with the same percentage in a row print it once. |
| Progress.ExecuteFfmpeg | mp4maker.rb:17-40 | The `PROGRESS:` values printed are the de-duplicated per-chunk percentages. Each is at most 100, and no two neighbours are equal. The first computed value is always printed. The call raises exactly when the exit status is not 0. |
| Progress.PercentsCarried | mp4maker.rb:21-30 | With the duration carried across chunks, each percentage is at most 100 and there is at most one per chunk. |
| Progress.PercentsCarriedStep | mp4maker.rb:21-30 | A chunk contributes its percentage under the duration in force after it, ahead of the rest. |
| Progress.ExecuteFfmpegCarried | mp4maker.rb:17-40 | The corrected scraper prints the de-duplicated carried-duration percentages, each at most 100 and with no repeats. It raises exactly on a non-zero exit status. |
| Progress.DurationForgottenBetweenChunks | mp4maker.rb:21-26 | As written, a `Duration:` chunk followed by a `time=` chunk reports 0, whatever the elapsed time. |
| Progress.DurationCarriedBetweenChunks | mp4maker.rb:21-26 | With the duration carried over, the same chunks report the elapsed share of the duration. |
| Progress.DurationExample | mp4maker.rb:21-30 | `Duration: 00:00:10.0` is 100 tenths and `time=5.0` is 5.0 s. The percentage is 0 with a nil duration and 50 with that one. |
| Progress.DurationFieldExample | mp4maker.rb:21-22 | `Duration: 00:00:10.0` is 100 tenths. |
| Progress.TimeExample | mp4maker.rb:24 | `time=5.0` captures 5 and 0. |
| Progress.TremAt | mp4maker.rb:46 | Whenever `Trem:\s+(\d+min)` matches at the start (`TremSplit`: `Trem:`, one or more spaces, one or more digits, `min`), the result is that capture; a result comes only from such a match. The capture is digits then `min`. |
| Progress.TremSplitsAreRuns | mp4maker.rb:46 | In any `Trem:` match the spaces and the digits are the whole runs, so the match is unique. |
| Progress.LastTrem | mp4maker.rb:46 | The capture of the last `Trem:` match on the line ends in `min`. |
| Progress.SpeedAt | mp4maker.rb:46 | Whenever `\s+([0-9.]+fps)` matches at the position (`SpeedSplit`: one or more spaces, one or more of `[0-9.]`, `fps`), the result is the span of that capture; a result comes only from such a match. |
| Progress.SpeedSplitsAreRuns | mp4maker.rb:46 | In any speed match the spaces and the `[0-9.]` characters are the whole runs, so the match is unique. |
| Progress.RemainingAt | mp4maker.rb:46 | `.*Trem:\s+(\d+min)` within the line captures a text ending in `min`. |
| Progress.RemainingAtSpec | mp4maker.rb:46 | `.*Trem:\s+(\d+min)` from a position fails exactly when no position up to the end of the line starts a `Trem:` match. Otherwise its capture is the `Trem:` match at the rightmost such position, because `.*` gives back as little as it can. |
| Progress.StatusAt | mp4maker.rb:46 | A status match starts with its percent capture, then `)`. The percent is digits followed by `%`. The speed ends in `fps` and the remaining time in `min`. The match itself is stated by `Progress.StatusAtComplete` and `Progress.StatusAtSound`. |
| Progress.StatusSplitIsScan | mp4maker.rb:46 | In any status match the digits before `%` are the whole digit run. |
| Progress.StatusAtComplete | mp4maker.rb:46 | Wherever the status pattern matches at the start (`StatusSplit`: one or more digits, `%)`, a speed match, then a remaining-time match after `.*`), StatusAt gives its three captures. |
| Progress.StatusAtSound | mp4maker.rb:46 | StatusAt gives nothing but a status match, with its three captures. |
| Progress.PercentCapture | mp4maker.rb:46 | The digits before `%)` and the `%` form the first capture. |
| Progress.SliceEndsWith | mp4maker.rb:46 | A capture whose last characters are `fps` ends in `fps`. |
| Progress.ChunkPercent | mp4maker.rb:20-30 | One chunk's percentage, with the duration found in that same chunk; `Progress.DurationForgottenBetweenChunks` states the consequence. |
| Progress.ChunkStatus | mp4maker.rb:46 | The leftmost status match of a chunk; `Progress.StatusAtComplete`, `Progress.StatusAtSound` and `Text.FirstMatchSpec` state its captures. |
| Progress.StatusLine | mp4maker.rb:47 | The printed text `\rPercent complete: <percent>.  Time remaining: <remaining>. Speed: <speed>` and four spaces; `Progress.ChunkLinesExample` pins one. |
| Progress.ChunkLines | mp4maker.rb:45-49 | A chunk prints at most one status line. |
| Progress.LinesOfAppend | mp4maker.rb:45-49 | Two runs of chunks print what the first prints, then what the second prints. |
| Progress.StatusLinesStep | mp4maker.rb:45-49 | One more chunk adds its own status line, if it matches. |
| Progress.StatusLinesRepeat | mp4maker.rb:45-49 | n equal matching chunks print n equal status lines: there is no de-duplication. |
| Progress.ExecuteMencoder | mp4maker.rb:42-54 | The output is one status line per matching chunk, in order, then a line feed. The call raises exactly when `$?` does not hold status 0: a non-zero status, or nil, whose `exitstatus` raises. |
| Progress.LineRunToEnd | mp4maker.rb:46 | On a text without line feeds, `.*` reaches the end. |
| Progress.TremExample | mp4maker.rb:46 | `Trem: 3min` captures `3min`. |
| Progress.StatusAtParts | mp4maker.rb:46 | The three captures, found in turn, make up the status match. |
| Progress.SpeedExample | mp4maker.rb:46 | In `5%) 25.0fps Trem: 3min`, the speed capture is `25.0fps`. |
| Progress.RemainingExample | mp4maker.rb:46 | In the same line, the remaining-time capture is `3min`. |
| Progress.StatusExample | mp4maker.rb:46 | That line's captures are `5%`, `25.0fps` and `3min`. |
| Progress.ChunkLinesExample | mp4maker.rb:45-47 | That chunk prints exactly one status line, built from those captures. |
| Mp4maker.StripDashes | mp4maker.rb:68-70 | The text after its leading dashes: a suffix of the text, everything before it a dash, and itself not starting with one. |
| Mp4maker.ParseFrom | mp4maker.rb:62-75 | Parsing never yields more inputs than there were arguments. |
| Mp4maker.ParseOptions | mp4maker.rb:57-77 | Parsing from the defaults; the `Mp4maker.Parse…` lemmas state its results. |
| Mp4maker.ParseWithoutOptions | mp4maker.rb:75 | Arguments with no option among them are all inputs, in order, and leave the options unchanged. |
| Mp4maker.ParseDefaults | mp4maker.rb:58-60 | Without options the result is one pass with the profile `ipod`. |
| Mp4maker.ParseKeepsTwoPass | mp4maker.rb:68-70 | Once two-pass is on, nothing later turns it off. |
| Mp4maker.ParseTwoPass | mp4maker.rb:68-70 | `-2` or `--two-pass` turns two-pass on and keeps the default profile. |
| Mp4maker.ParseProfileSeparate | mp4maker.rb:72-74 | `-p NAME` and `--profile NAME` select NAME and consume it. |
| Mp4maker.ParseProfileAttached | mp4maker.rb:72-74 | `-pNAME` selects NAME. |
| Mp4maker.ParseProfileLong | mp4maker.rb:72-74 | `--profile=NAME` selects NAME, even an empty one. |
| Mp4maker.ParseProfileAtEnd | mp4maker.rb:72-74 | `-p` with nothing after it makes the profile nil. |
| Mp4maker.ParseProfileBeforeOption | mp4maker.rb:72-74 | `-p` before another option leaves the profile nil, and that option still applies. |
| Mp4maker.ParseCombinedFlags | mp4maker.rb:68-74 | `-2p NAME` is `-2` followed by `-p NAME`. |
| Mp4maker.ParseDashedCombinedFlags | mp4maker.rb:68-74 | `-2-p NAME` is also `-2` followed by `-p NAME`: the dashes after `-2` are dropped. |
| Mp4maker.ParseTwoPassTrailingDash | mp4maker.rb:68-74 | `-2- -p foo x` is two-pass with profile `foo` and input `x`: only dashes after `-2` requeue nothing. |
| Mp4maker.ParseInvalid | mp4maker.rb:75 | An unknown option ends the parse with an error naming it. |
| Mp4maker.Compose | mp4maker.rb:105-110 | A command line exists only for a profile in the table. It encodes the input with that profile's preset into the input's name with the last extension replaced by `.m4v`. It has an analysis pass exactly when two-pass is on. |
| Mp4maker.ComposeDefined | mp4maker.rb:93-110 | With the script's table, every profile name in it works for one pass. Only `ipod` and `appletv-hd` work for two passes. |
| Mp4maker.TwoPassThenSinglePass | mp4maker.rb:106-110 | A two-pass command line is the single-pass one with a `-pass1` analysis pass in front. Its second pass uses the base profile, not `-pass2`. |
| Mp4maker.Render | mp4maker.rb:107-109 | The command line starts by running `nice mencoder` on the quoted input and ends with `-o` and the quoted output, with or without the analysis pass. |
| Mp4maker.RenderedEnds | mp4maker.rb:107-109 | The same for any option strings. |
| Mp4maker.EncodeTextNamesOutput | mp4maker.rb:109 | The encode pass ends by naming the output file, quoted, after `-o`. |
| Mp4maker.AnalysisTextDiscardsOutput | mp4maker.rb:107 | The analysis pass reads the input with `-nosound` and writes to `/dev/null`. |
| Mp4maker.InputOutput | mp4maker.rb:112-116 | One input's output: the `Encoding` line, the status lines, a line feed, and `ERROR` when `$?` does not hold 0; `Mp4maker.BatchOutputStep` states it as a step of the batch. |
| Mp4maker.BatchOutput | mp4maker.rb:104-117 | The batch output of the commands run, one input after the other; `Mp4maker.BatchOutputStep` and `Mp4maker.BatchOutputStarts` state its shape. |
| Mp4maker.Encoded | mp4maker.rb:104-117 | The count of inputs that encode in a row from the first is at most the number of inputs. |
| Mp4maker.EncodedSpec | mp4maker.rb:104-117 | Every input before that count encodes; the input at it, if any, does not. |
| Mp4maker.EncodedAt | mp4maker.rb:104-117 | The first position whose input does not encode is that count. |
| Mp4maker.EncodeAll | mp4maker.rb:104-117 | The commands are those composed for the first inputs, in order. The output is, per command, an `Encoding` line, the status lines, a line feed and, on failure, `ERROR`. The batch completes, fails or crashes on a missing profile right after the inputs that encode in a row. A failed batch has run one command more than the inputs that encoded. |
| Mp4maker.SafeExecute | mp4maker.rb:10-15 | One mencoder run inside safe_execute. It fails exactly when `$?` does not hold status 0. It prints the status lines and a line feed, then `ERROR` when it fails. |
| Mp4maker.EncodedSucceeded | mp4maker.rb:104-117 | Every command run for an input that encodes left status 0 behind. |
| Mp4maker.FailedAfterEncoded | mp4maker.rb:10-15 | When the command after the encoding inputs is the last one run, the commands before it are those inputs' commands and its run left another status than 0. |
| Mp4maker.BatchEnd | mp4maker.rb:10-15 | The batch completes exactly when every input encodes, and then it ran a command for every input. After `ERROR` the last command failed and all before it succeeded, so no later input is encoded. After a crash every command succeeded and the next input has no command line. |
| Mp4maker.ComposedForStep | mp4maker.rb:104-110 | One more composed command line extends the commands for the inputs so far. |
| Mp4maker.BatchOutputStep | mp4maker.rb:112-116 | One more input appends its `Encoding` line, its status lines and line feed and, when `$?` does not hold 0, `ERROR`. |
| Mp4maker.StatusNilStopsAtFirst | mp4maker.rb:44-53 | With `$?` nil after every run, no input encodes: the first input with a command line ends the batch with `ERROR`. |
| Mp4maker.StatusZeroNeverFails | mp4maker.rb:44-53 | With `$?` holding 0 after every run, the batch never ends with `ERROR`, whatever mencoder did. |
| Mp4maker.Mp4maker | mp4maker.rb:80-117 | The script prints nothing exactly when the options are invalid or the profile is nil: both crash. Otherwise it prints `Using <profile> profile.` first. The two-pass line follows exactly when two-pass is on. Then comes the batch output of exactly the commands run, composed for the inputs in order: as many as encoded in a row, plus the failing one after `ERROR`. It ends as `BatchExit` says. |
| Mp4maker.BatchOutputStarts | mp4maker.rb:112 | A non-empty batch output starts with the `Encoding` line of the first input. |

## Left out

- Process spawning and capture are left out: backticks, `system`, `IO.popen` and `Open3.popen3`. Every tool is an input of the model: its printed text or chunks, its exit status (for mencoder, what `$?` holds afterwards), and whether it wrote its output file.
- The real file system is a set of paths. `File.exists?` is membership and `File.delete` is removal.
- The Logger is left out: its messages, its level and the `-s` switch's effect on it. Only the removal of `-s` from the arguments is modelled.
- Progress.ExecuteMencoder follows Ruby 1.8 for `$defout.flush` (mp4maker.rb:48). There `$defout` is `$stdout`, and the flush does not change what is printed. Under Ruby 1.9 and later `$defout` is an unset global, so the flush after the first status line raises NoMethodError. The output then stops after that line: the later status lines and the `"\n"` of mp4maker.rb:52 are not printed, and safe_execute prints `ERROR`. The model does not capture that output. The end of the batch is the same under both: it fails at that input, as `Mp4maker.StatusNilStopsAtFirst` states for the nil `$?` of Ruby 1.9.
- Progress.ExecuteFfmpeg and Progress.ExecuteFfmpegCarried follow Ruby 1.8 for `$defout.flush` (mp4maker.rb:34). There `$defout` is `$stdout`, and the flush does not change what is printed. Under Ruby 1.9 and later `$defout` is an unset global, so the flush after the first `PROGRESS:` line raises NoMethodError. At most one value is printed then, and the call raises whenever a value was printed, whatever the exit status. Only a run that prints no value raises exactly on a non-zero exit status. The model does not capture that behaviour. Nothing in mp4maker.rb calls execute_ffmpeg.
- The internals of `du` are left out. Its report is an input, and only the `/(\d+).*/` and `/\d+/` checks on it are modelled.
- The exact HandBrakeCLI, mencoder and ffmpeg option strings are not used in any proof. The HandBrakeCLI command is reduced to input, output and size.
- Mp4maker.Render is proved only to start with the input and end with the output. The mencoder presets are kept verbatim in `PresetOptions`, and the other proofs about command lines work on the preset names.
- Mp4maker.ParseFrom models only part of Ruby's OptionParser:
  - modelled: `-2`/`--two-pass`, `-p`/`--profile` with an attached, separate or missing value, `--profile=`, `--`, and short flags run together after `-2` (with the dashes after `-2` dropped);
  - not modelled: unique-prefix abbreviation of long options (`--two`, `--prof`); a short option with no switch of its own, which OptionParser completes against the long options (`-t` becomes `--two-pass`, `-h` becomes `--help`); `--no-` negation; `-h`/`--help`, `-v`/`--version`; and short flags run together other than after `-2` (for example `-x2`). These are treated as an invalid option.
- Mp4maker.ParseInvalid states an error for every short option other than `-2` and `-p`. That includes `-t`, where OptionParser's completion sets two-pass, and `-h`, where it prints the help.
- The ffmpeg PCM pre-pass of quick_encode is left out. It is commented out, and `pcm_input` is always nil, so its cleanup branch never runs.
- Exit status values are reduced to the `Exit` / `Outcome` tags:
  - `exit` in mkvert is status 0;
  - an exception ends the script with status 1;
  - safe_execute calls `exit 1`.
- In execute_ffmpeg, `$?.exitstatus` is taken to be ffmpeg's exit status, as the block form of `IO.popen` sets it. An ffmpeg killed by a signal, which makes it nil, is not modelled.
- What `$?` holds after a mencoder run (`Capture.status`) depends on the Ruby version. It is an input of the model, not derived from mencoder's own exit status.
- File names are assumed to hold no line feed. The identify output is a sequence of lines without line feeds, and the grep token is matched literally.
- execute_ffmpeg is modelled and proved, but mp4maker.rb never calls it. Only execute_mencoder runs in the batch.
- The `ipod-pass2` and `appletv-hd-pass2` table entries are in the model's table, but the two-pass path never looks them up: it uses `<profile>-pass1` and then `<profile>`. They are reached only when named as the profile, as in `-p ipod-pass2`.

## Findings

| source | as written | input that shows it | evidently intended | confidence | as-written member | corrected member |
|---|---|---|---|---|---|---|
| mp4maker.rb:21-26 | `duration` is first assigned inside the `pipe.each` block, so it is block-local and nil again for every chunk. A `time=` chunk without its own `Duration:` always reports 0. | chunks `Duration: 00:00:10.0`, then `time=5.0`: prints `PROGRESS: 0` | the duration from the earlier chunk stays in force, so the same chunks print `PROGRESS: 50` | high; not executed | Progress.DurationForgottenBetweenChunks | Progress.DurationCarriedBetweenChunks |
