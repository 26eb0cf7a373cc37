# fpga-tool-perf benchmark driver, modelled in Dafny

fpga-tool-perf times open-source FPGA toolchains on small designs. Its driver,
`main.py`, does several things:

- It picks a toolchain class (`Arachne` or `VPR`) for an `ice40`/`hx8k` target.
- It runs the class's synthesis, place-and-route, packing and timing commands
  one after the other. Each command is timed with the `Timed` context manager
  into an insertion-ordered runtime record. The first three or four stages sit
  inside an outer `bit-all` span.
- It parses the timing report of `icetime` for the maximum frequency.
- It parses the report of `icebox_stat` for resource counts.
- It extracts the tool versions, and for VPR that means `vpr --version`.
- It prints a summary and writes a metadata record.

This project models that bookkeeping as pure functions over immutable data.
External commands are not executed. An environment value says which commands
exit with status 0, what each one prints, and how long each timed span takes.

Modules:

- `Wrappers`: `Option` and `Result`.
- `Errors`: one constructor per exception the driver can raise.
- `Text`: the Python string operations the driver uses. These are `strip`,
  `split`, `join`, `replace` and iteration over a file's lines.
- `Runtimes`: the ordered runtime record and `add_runtime`.
- `Parsers`: `icetime_parse`, the parsing half of `icebox_stat`, and `vpr_version`.
- `Pipeline`: the `Toolchain` base class, `Timed`, `cmd`, and the stage lists
  of `Arachne.run` and `VPR.run`.
- `Driver`: the rest of the driver.
  - `run` with its family/device guard and toolchain table.
  - The default output directory.
  - `get_project`.
  - `print_stats`, `max_freq`, `resources` and `versions`.
  - `write_metadata` with its source canonicalization.

A command that fails raises `CalledProcessError` in the source. The model turns
that into a `Failure` result that stops the sequence. The runtime record is
still updated first, because `Timed.__exit__` runs even when the block raises.

Three behaviours of the code deserve a note:

- **Log header.** `cmd` writes `Running: <cmd> <argstr>` and an empty line to
  the stage log first. Without `--verbose`, the redirection `>&` then truncates
  the file, so only verbose logs keep the header (`Pipeline.LogKeepsOutput`).
- **Durations.** A duration is the difference of two `time.time()` readings.
  The model assumes nothing about its sign.
- **Canonical paths.** `write_metadata` rewrites every occurrence of the
  working directory in a source path, not only the leading one (see Findings).

## Model

| member | source | states |
|---|---|---|
| Runtimes.AddRuntime | main.py:71-72 | assigning a name appends it when new and keeps its position when known; the name then maps to the new duration, every other name keeps its value, and keys stay distinct |
| Runtimes.AddRuntimeRefinesMap | main.py:71-72 | on the record seen as a plain dictionary, the ordered assignment is ordinary dictionary update |
| Runtimes.Seeded | main.py:68-69 | the record the constructor leaves has the single key `nop`, holding the span's duration |
| Pipeline.Create | main.py:55-69 | a new toolchain object has the keys `[nop]` with `nop` timed even if `true` fails, has run only `true`, holds no project, is not verbose, and raises exactly when `true` fails |
| Pipeline.SetProject | main.py:74-81 | `project(...)` stores the configuration and changes nothing else |
| Pipeline.CheckCall | main.py:88-90 | `check_call` succeeds exactly when the command exits 0, and otherwise raises for that command |
| Pipeline.Cmd | main.py:83-90 | `cmd` runs exactly its command after the earlier ones, succeeds exactly when the command does, and raises for that command otherwise |
| Pipeline.CmdRecords | main.py:83-90 | whether the command fails or not, its duration is recorded under its name at the ordered-dictionary position, no other entry changes, and its log holds the header plus output (verbose) or the output alone |
| Pipeline.LogKeepsOutput | main.py:85-90 | every stage log ends with the command's whole output; a verbose log holds exactly the header before it, a quiet one nothing |
| Pipeline.VerboseLogLines | main.py:85-88 | read back line by line, a verbose log is `Running: <cmd> <argstr>`, an empty line, then the command's output lines |
| Pipeline.Executed | main.py:133-139 | the commands a fail-fast sequence executes are a prefix in which all but the last succeeded, ending early only at a failure; it is all of them exactly when all succeed |
| Pipeline.RanFailFastUnique | main.py:133-139 | a fail-fast run is determined by the commands and their exit statuses |
| Pipeline.RunCmds | main.py:134-137 | a block of `cmd` calls executes exactly the fail-fast prefix and succeeds exactly when every command does |
| Pipeline.RunCmdsError | main.py:86-90 | a failing block raises for the last command it executed |
| Pipeline.RunCmdsKeys | main.py:44-46 | each executed command assigns its name in the record, in execution order |
| Pipeline.RunCmdsLookup | main.py:44-46 | a name that no executed command uses keeps its recorded duration |
| Pipeline.RunPlan | main.py:133-139 | `run()` executes the inner stages fail-fast, records `bit-all` after them even when one raised, then runs `icetime` only if none raised; it succeeds exactly when every stage does |
| Pipeline.RunPlanRecordsBitAll | main.py:44-46 | after `run()` returns or raises, `bit-all` holds the time of the wrapping span |
| Pipeline.FreshRunKeys | main.py:133-139 | on a fresh toolchain the keys are `nop`, the executed inner stages, `bit-all`, then the executed later stages |
| Pipeline.Yosys | main.py:129-131 | the `yosys` command passes the script quoted after `-p`, and splitting the rest at single spaces gives back the sources when no source path holds a space |
| Pipeline.ArachnePlan | main.py:129-139 | `Arachne.run` runs `yosys`, `arachne-pnr`, `icepack` inside `bit-all` and `icetime` after it; the `yosys` stage synthesizes the project's top from the project's sources |
| Pipeline.VprPlan | main.py:166-184 | `VPR.run` runs `yosys`, `vpr`, `icebox_hlc2asc.py`, `icepack` inside `bit-all` and `icetime` after it; `yosys` synthesizes the project's top from its sources, and `vpr` reads the architecture and routing graph of the architecture build |
| Pipeline.StageNamesFresh | main.py:133-184 | the stage names of either variant are distinct and differ from `nop` and `bit-all` |
| Pipeline.IcetimePlanKeys | main.py:133-184 | for any outcome, the keys are `nop`, the stages up to the first failure, `bit-all`, and `icetime` only when every inner stage succeeded |
| Pipeline.ArachneRunKeys | main.py:133-139 | the key order of `Arachne.run` for every pattern of stage failures |
| Pipeline.VprRunKeys | main.py:171-184 | the key order of `VPR.run` for every pattern of stage failures |
| Pipeline.ArachneRunKeysOnSuccess | main.py:133-139 | a successful `Arachne.run` leaves the keys `nop, yosys, arachne-pnr, icepack, bit-all, icetime` |
| Pipeline.VprRunKeysOnSuccess | main.py:171-184 | a successful `VPR.run` leaves the keys `nop, yosys, vpr, icebox_hlc2asc.py, icepack, bit-all, icetime` |
| Pipeline.RunPlanIcetimeLog | main.py:139 | after a successful `run()` the `icetime` report holds what `cmd` wrote for `icetime` |
| Text.Strip | main.py:254 | `strip()` removes exactly the leading and trailing whitespace |
| Text.StripIdempotent | main.py:250-254 | stripping an already stripped line changes nothing |
| Text.Split | main.py:253 | `split('\n')` gives pieces without the separator that join back to the input |
| Text.SplitJoin | main.py:253 | splitting a joined list of separator-free pieces gives back the pieces |
| Text.LinesUnlines | main.py:115 | reading back a file written line by line gives those lines, each without its terminating `\n` |
| Text.LinesAfter | main.py:95 | the first line of a file is read before the lines of the rest |
| Text.Lines | main.py:115 | the model's lines are the file's lines without their terminating `\n`: none holds a newline, and a final newline adds no empty line |
| Text.ReplaceAll | main.py:286 | replacing a string by itself changes nothing, and a replacement of the same length as a non-empty target keeps the length |
| Text.ReplaceFirst | main.py:286 | `replace` keeps everything before the first occurrence of a non-empty target, puts the replacement in its place and carries on after it, so every non-overlapping occurrence, left to right, is replaced |
| Text.ReplaceAbsent | main.py:286 | `replace` leaves a string without the target unchanged |
| Parsers.MatchDelayLineNewline | main.py:95-97 | the `\n` that Python's file iteration leaves on a line does not change the timing match |
| Parsers.MatchDelayLine | main.py:97 | `re.match` anchors at the start, so a line that does not start with `Total path delay: ` never matches; the unit group never holds a space |
| Parsers.MatchDelayLineGreedy | main.py:97 | the timing-line match fails exactly when the pattern cannot match, and otherwise yields the groups of the right-most (greedy) way of matching |
| Parsers.MatchDelayLineRendered | main.py:96-97 | a line `Total path delay: <d> ns (<f> <u>)` yields the frequency `f` and unit `u` |
| Parsers.SelectFrequency | main.py:95-101 | no frequency when no line matched; otherwise the last match's value; the first match whose unit is not `MHz` fails the assertion |
| Parsers.IcetimeParseResult | main.py:92-101 | over the report's lines: success exactly when every timing line is in `MHz`, else the unit of the first one that is not; no frequency exactly when no line is a timing line; otherwise the frequency of the last timing line |
| Parsers.IcetimeParseSkips | main.py:95-98 | lines that do not start with `Total path delay: ` do not affect the result |
| Parsers.IcetimeParseExample | main.py:96 | the report line quoted in the source yields `124.28` |
| Parsers.MaxFreq | main.py:141-142 | `max_freq()` succeeds exactly when parsing succeeded with a match, raises the parse's own error (the failed `MHz` assertion) when parsing fails, and raises `KeyError` when no line matched |
| Parsers.ParseStatLineResult | main.py:117-119 | a report line fails to match exactly when it contains no `s:`; the count is missing exactly when no digit follows the spaces after the last `s:`; otherwise the name is everything before the last `s:` and the count is the value of those digits |
| Parsers.ParseStatLineNewline | main.py:115-119 | the `\n` that Python's file iteration leaves on a line changes neither whether the report line parses nor its name and count |
| Parsers.ParseStatLineShape | main.py:117-119 | every line that parses is a report line: the name, `s:`, spaces, the digits of the count, and a rest that does not continue the digits |
| Parsers.ParseStatLineRendered | main.py:106-119 | a line `<Name>s:<spaces><digits>` parses to that name and count |
| Parsers.FoldStats | main.py:115-120 | the loop succeeds exactly when every line parses, raises the error of the first line that does not, and on success holds every parsed name |
| Parsers.FoldStatsLastWins | main.py:120 | each name maps to the count of its last line |
| Parsers.IceboxStatParse | main.py:114-122 | parsing succeeds exactly when every line parses and some line names `LUT`; the result then holds `LUT` |
| Parsers.IceboxStatParseRendered | main.py:114-122 | a report of rendered lines that include `LUT` parses to the map from each name to its last count |
| Parsers.IceboxStatParseExample | main.py:105-113 | the report in the docstring parses to `{DFF:22, LUT:24, CARRY:20, BRAM:0, IOB:4, PLL:0, GLB:1}` |
| Parsers.LastWithPrefix | main.py:253-258 | the loop keeps the last stripped line starting with the tag, and finds none exactly when no line does |
| Parsers.VersionLines | main.py:250-254 | the lines `vpr_version` inspects are stripped and never absent |
| Parsers.VprVersion | main.py:250-261 | the result is the last `Version:` line, `, `, then the last `Revision:` line; it fails on a missing `Version:` line first, then on a missing `Revision:` line |
| Parsers.VprVersionOfLines | main.py:250-261 | for output made of stripped lines, the result is built from the last line with each tag |
| Parsers.VprVersionExample | main.py:238-249 | the banner quoted in the docstring yields its `Version:` and `Revision:` lines |
| Driver.LookupVariant | main.py:329-334 | the toolchain table knows exactly `arachne` and `vpr`, the class found reports that name, and VPR's architecture build lies below `HOME` |
| Driver.DefaultOutDir | main.py:337-338 | the default directory is `build/` followed by the run's `print_stats` name |
| Driver.DefaultOutDirInjective | main.py:337-338 | runs the guard admits share a default directory only when toolchain and project are the same |
| Driver.FindProject | main.py:322-323 | a name is found exactly when some project has it, the last such project wins, and a missing name raises |
| Driver.Registry | main.py:296-320 | the table has two projects with different names, each with sources, all under `<cwd>/src/` |
| Driver.GetProject | main.py:296-323 | a found project carries the name looked up, is the table's entry and has sources under `<cwd>/src/`; a name no project has raises `KeyError` for that name |
| Driver.GetProjectKnown | main.py:296-323 | the registry knows exactly `blinky` and `picosoc-hx8kdemo`, with their tops and sources below the working directory |
| Driver.CanonicalizeAsWritten | main.py:286 | the list comprehension keeps the length and order of the sources |
| Driver.AsWrittenKeepsOthers | main.py:286 | a source that does not contain the working directory is unchanged |
| Driver.AsWrittenRewritesInside | main.py:286 | checked out at `/src`, the registry path `/src/src/blinky.v` is recorded as `../blinky.v` |
| Driver.CanonicalPath | main.py:285-286 | a path below the working directory becomes `./<relative path>`, and prefixing the directory gives it back |
| Driver.Canonicalize | main.py:286 | the corrected canonicalization maps each source, in order, to its path relative to the working directory |
| Driver.CanonicalAgrees | main.py:286 | both canonicalizations agree when the working directory occurs only at the start |
| Driver.RegistryDotted | main.py:286 | the registry's sources are recorded as `./src/...` whatever the working directory |
| Driver.MaxFreqOf | main.py:141-142 | reading a report that was never written raises |
| Driver.IcetimeLogFrequency | main.py:85-101 | the header verbose mode leaves in the `icetime` report does not change the frequency |
| Driver.MaxFreqAfterRun | main.py:139-142 | after a successful `run()`, `max_freq()` is what `icetime` printed, verbose or not |
| Driver.RunToolchain | main.py:348 | `t.run()` keeps the configuration, toolchain and verbosity and only adds to the commands executed |
| Driver.Resources | main.py:103-122 | `icebox_stat` is run and not timed; its report is parsed only if it succeeded, and a result holds `LUT` |
| Driver.ReportsDistinct | main.py:104 | the `icebox_stat` report never overwrites the `icetime` report |
| Driver.PrintStats | main.py:269-277 | `print_stats` reads the frequency first and raises its error before running `icebox_stat` if that fails; otherwise it raises the error of `icebox_stat` or of its parse, or reports the run's name, record, frequency and resources |
| Driver.CheckOutput | main.py:52 | `check_output` returns the output exactly when the command exits 0 |
| Driver.Versions | main.py:155-159 | `versions()` queries `yosys -V` first, then the toolchain; a failing query raises `CalledProcessError` for that command and a failing VPR extraction raises its own error; otherwise the result has exactly the keys `yosys` and the toolchain name, with stripped output (or the VPR extraction) |
| Driver.WriteMetadata | main.py:279-294 | the record's values are computed in dictionary order: the first failure, whether of the frequency, the resources or the versions, is what `write_metadata` raises, and no later command runs |
| Driver.Prepare | main.py:325-346 | the family guard, then the device guard, then the toolchain table; a rejected configuration runs no command; otherwise the fresh, configured toolchain with the chosen or default directory |
| Driver.Run | main.py:325-350 | `run` executes no command exactly when the guard rejects, raises the guard's error in guard order, and starts with `true` otherwise |
| Driver.Report | main.py:349-350 | `print_stats` then `write_metadata`, each only adding commands |
| Driver.Finish | main.py:348-350 | statistics are only reached after a successful `run()`, and metadata only after statistics |
| Driver.ReportSuccess | main.py:269-294 | a completed report runs `icebox_stat` twice, then the two version queries; with the environment answering a repeated command the same way, the printed and written frequency and resources agree |
| Driver.FinishSuccess | main.py:348-350 | a completed `run` ran every stage, and its record holds the final runtime record, the frequency `icetime` printed and the sources as the corrected canonicalization gives them |
| Driver.FinishStopsAtFailedStage | main.py:348-350 | when a stage fails, `run` raises that error, `print_stats` and `write_metadata` are never reached, and `icebox_stat` never runs |
| Driver.RunSuccessKeys | main.py:325-350 | a completed `run` of `arachne` records `nop, yosys, arachne-pnr, icepack, bit-all, icetime`, and one of `vpr` records `nop, yosys, vpr, icebox_hlc2asc.py, icepack, bit-all, icetime` |
| Driver.RunSuccessRecord | main.py:279-350 | a completed `run` writes the toolchain and project it was given and the frequency `icetime` printed; with the corrected canonicalization its sources are the project's `./src/...` paths |

## Left out

- Process execution, shell syntax (`|&`, `tee -a`, `$PIPESTATUS`, `>&`), `cwd=` and the console output are not modelled. A command is an exit status and an output text taken from the environment.
- Pipeline.Yosys: the sources are recovered by splitting at single spaces, not by the shell's word splitting. The shell also splits at tabs and newlines, drops empty words, and treats quotes, `$`, `*` and `?` specially.
- Standard output and standard error are not told apart. `>&` captures both, while `check_output` and `>icebox_stat.txt` capture only standard output. One output text per command stands for both.
- Files are modelled as a map from path to contents that only `cmd` and `icebox_stat` write. `mkdir`, existing files, and the `Writing to` message are left out.
- `json.dump` of `meta.json` is left out. `Metadata` holds the dictionary's values and not its serialisation, and the misspelt key `verions` is not modelled. With `sort_keys=True` the file lists every dictionary's keys sorted, the nested runtime record included (`arachne-pnr, bit-all, icepack, icetime, nop, yosys`). The insertion order `Driver.RunSuccessKeys` proves is that of the record in memory and of `print_stats`, not of the file.
- Clock readings are left out. A duration is whatever `end - start` the environment supplies, with no sign assumed.
- Frequencies stay text. `float(m.group(1)) * 1e6` is left out, and so is its `ValueError` on a malformed number. The `%0.3f` formatting and the sorted printing in `print_stats` are left out too.
- Text.Lines: a line of the model lacks the `\n` that Python's `for l in f` keeps on every line but possibly the last. Neither regular expression can see it, because `.`, ` *` and `[0-9]*` do not match `\n` and `re.match` need not reach the end of the line. `Parsers.MatchDelayLineNewline` and `Parsers.ParseStatLineNewline` prove that the model's parsers give the same result with the terminator.
- Universal-newline translation is not modelled: only `\n` ends a line. `strip()` removes exactly the characters of Python's `str.isspace` (`Text.IsSpace`).
- `os.getenv("HOME")` is a parameter. An unset `HOME`, which raises a `TypeError` in `VPR.__init__`, is not modelled.
- `os.getcwd()` is a parameter of `run`.
- The `argparse` glue in `main` is left out, and `run` takes its arguments directly.
- The commented-out `resource_parse` code (main.py:189-231) is dead and left out.
- Driver.ReportSuccess: the environment gives one exit status and one output per command and one duration per timed name. So the second `icebox_stat`, run by `write_metadata`, repeats the first one, run by `print_stats`, and a name timed twice gets the same duration. The agreement of printed and written values rests on that.
- Driver.FinishSuccess: the sources are those of the corrected `Canonicalize`, not of the `replace` at main.py:286 (see Findings).
- Driver.RunSuccessRecord: the sources are those of the corrected `Canonicalize`. The `replace` at main.py:286 gives `../blinky.v` for the working directory `/src`, and `..src.blinky.v` for `/` (see Findings).
- Driver.WriteMetadata: the record lists the sources as `Canonicalize` gives them, not as the source's `replace` does (see Findings); `CanonicalizeAsWritten` keeps the source's behaviour.

## Findings

| source | as written | input that shows it | evidently intended | confidence | as-written member | corrected member |
|---|---|---|---|---|---|---|
| main.py:286 | `x.replace(os.getcwd(), '.')` replaces every occurrence of the working directory in a source path, not just the leading one | working directory `/src` and the registry path `/src/src/blinky.v` give `../blinky.v` | the path relative to the working directory, `./src/blinky.v` | medium, not executed | Driver.AsWrittenRewritesInside | Driver.RegistryDotted |
