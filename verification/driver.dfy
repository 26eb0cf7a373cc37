/** The benchmark driver: `run` with its configuration guard, the project
    registry `get_project`, and what `run` does once the toolchain has
    finished (`print_stats`, `write_metadata`, `max_freq`, `resources`,
    `versions`). Printing, directory creation and the JSON file are not
    modelled; what would be printed or dumped is returned instead. */
module Driver {
  import opened Wrappers
  import opened Errors
  import opened Text
  import opened Runtimes
  import opened Pipeline
  import opened Parsers

  // ---------------------------------------------------------------------------
  // Configuration

  /** Where `VPR.__init__` expects the architecture build, below `$HOME`.
      Written as three literals joined by `+` only to keep each literal short
      for the verifier; the path is the one in the program. */
  const SfadSuffix := "/symbiflow-arch-defs" + "/tests/build" + "/ice40-top-routing-virt-hx8k"

  /** The toolchain table of `run`, looked up by name; `VPR` finds its
      architecture build under the home directory. */
  function LookupVariant(name: string, home: string): (r: Option<Variant>)
    ensures r.Some? <==> name == "arachne" || name == "vpr"
    ensures r.Some? ==> ToolchainName(r.value) == name
    ensures r.Some? && r.value.Vpr? ==> r.value.sfadBuild == home + SfadSuffix
  {
    if name == "arachne" then Some(Arachne)
    else if name == "vpr" then Some(Vpr(home + SfadSuffix))
    else None
  }

  /** The name `print_stats` gives a run: `<family>-<device>_<toolchain>_<project>`. */
  function RunLabel(family: string, device: string, toolchain: string, project: string): string
  {
    family + "-" + device + "_" + toolchain + "_" + project
  }

  /** The output directory `run` picks when none is given: the run's label
      below `build/`. */
  function DefaultOutDir(family: string, device: string, toolchain: string, project: string): (d: string)
    ensures |d| >= 6 && d[..6] == "build/" && d[6..] == RunLabel(family, device, toolchain, project)
  {
    "build/" + family + "-" + device + "_" + toolchain + "_" + project
  }

  /** Two runs the guard admits share a default output directory only when
      they use the same toolchain on the same project. */
  lemma DefaultOutDirInjective(toolchain1: string, project1: string, toolchain2: string, project2: string)
    requires toolchain1 in ["arachne", "vpr"] && toolchain2 in ["arachne", "vpr"]
    requires DefaultOutDir("ice40", "hx8k", toolchain1, project1) == DefaultOutDir("ice40", "hx8k", toolchain2, project2)
    ensures toolchain1 == toolchain2 && project1 == project2
  {
    var common := "build/" + "ice40" + "-" + "hx8k" + "_";
    var rest1, rest2 := toolchain1 + "_" + project1, toolchain2 + "_" + project2;
    assert DefaultOutDir("ice40", "hx8k", toolchain1, project1) == common + rest1;
    assert DefaultOutDir("ice40", "hx8k", toolchain2, project2) == common + rest2;
    assert rest1 == (common + rest1)[|common|..];
    assert rest1 == rest2;
    assert rest1[0] == toolchain1[0] && rest2[0] == toolchain2[0];
    assert project1 == rest1[|toolchain1| + 1..];
  }

  // ---------------------------------------------------------------------------
  // The project registry

  /** One entry of `get_project`'s table. */
  datatype Project = Project(name: string, srcs: seq<string>, top: string)

  /** The sources of each project, relative to the working directory. The
      `picosoc` paths are the checkout directory `/src/picorv32/` followed by
      the file, as `get_project` builds them. */
  const BlinkySources: seq<string> := ["/src/blinky.v"]
  const PicosocSources: seq<string> := [
    "/src/picorv32/" + "picosoc/picosoc.v",
    "/src/picorv32/" + "picorv32.v",
    "/src/picorv32/" + "picosoc/spimemio.v",
    "/src/picorv32/" + "picosoc/simpleuart.v",
    "/src/picorv32/" + "picosoc/hx8kdemo.v"]

  /** The table `get_project` builds from the working directory. */
  function Registry(cwd: string): (ps: seq<Project>)
    ensures |ps| == 2 && ps[0].name != ps[1].name
    ensures forall i :: 0 <= i < |ps| ==> ps[i].srcs != []
    ensures forall i, j :: 0 <= i < |ps| && 0 <= j < |ps[i].srcs| ==>
      StartsWith(ps[i].srcs[j], cwd + "/src/")
  {
    var d := cwd + "/src/picorv32/";
    var ps := [ Project("blinky", [cwd + "/src/blinky.v"], "top"),
      Project("picosoc-hx8kdemo",
              [ d + "picosoc/picosoc.v", d + "picorv32.v", d + "picosoc/spimemio.v",
                d + "picosoc/simpleuart.v", d + "picosoc/hx8kdemo.v" ],
              "hx8kdemo") ];
    assert ps[0].name[0] != ps[1].name[0];
    UnderSrc(cwd, "/src/blinky.v");
    UnderPicorv32(cwd, "picosoc/picosoc.v");
    UnderPicorv32(cwd, "picorv32.v");
    UnderPicorv32(cwd, "picosoc/spimemio.v");
    UnderPicorv32(cwd, "picosoc/simpleuart.v");
    UnderPicorv32(cwd, "picosoc/hx8kdemo.v");
    ps
  }

  /** A path below `/src/`, put after the working directory, lies under the
      working directory's `src`. */
  lemma UnderSrc(cwd: string, rel: string)
    requires StartsWith(rel, "/src/")
    ensures StartsWith(cwd + rel, cwd + "/src/")
  {
    assert (cwd + rel)[..|cwd| + 5] == cwd + rel[..5];
  }

  /** The same for the files of the `picorv32` checkout. */
  lemma UnderPicorv32(cwd: string, file: string)
    ensures StartsWith(cwd + "/src/picorv32/" + file, cwd + "/src/")
  {
    var p := cwd + "/src/picorv32/" + file;
    assert p[..|cwd| + 5] == cwd + "/src/picorv32/"[..5];
  }


  /** Looking a name up in `dict([(p['name'], p) for p in projects])`: the last
      project of that name wins, and a missing name is a `KeyError`. */
  function FindProject(ps: seq<Project>, name: string): (r: Result<Project, Error>)
    ensures r.Success? <==> exists i :: 0 <= i < |ps| && ps[i].name == name
    ensures r.Success? ==>
      exists i :: && 0 <= i < |ps| && ps[i] == r.value && r.value.name == name
                  && forall j :: i < j < |ps| ==> ps[j].name != name
    ensures r.Failure? ==> r.error == UnknownProject(name)
  {
    if ps == [] then Failure(UnknownProject(name))
    else
      var n := |ps| - 1;
      if ps[n].name == name then Success(ps[n])
      else
        var r := FindProject(ps[..n], name);
        assert forall i :: 0 <= i < n ==> ps[..n][i] == ps[i];
        r
  }

  /** `get_project(name)`: the registry's project of that name, whose
      sources lie under the working directory's `src`, or a `KeyError`. */
  function GetProject(cwd: string, name: string): (r: Result<Project, Error>)
    ensures r.Success? ==> r.value.name == name && r.value in Registry(cwd)
    ensures r.Success? ==>
      r.value.srcs != [] && forall j :: 0 <= j < |r.value.srcs| ==> StartsWith(r.value.srcs[j], cwd + "/src/")
    ensures r.Failure? <==> forall i :: 0 <= i < |Registry(cwd)| ==> Registry(cwd)[i].name != name
    ensures r.Failure? ==> r.error == UnknownProject(name)
  {
    FindProject(Registry(cwd), name)
  }

  /** Every source a project lists is the working directory followed by a
      fixed relative path. */
  function Prefixed(cwd: string, rel: seq<string>): (r: seq<string>)
    ensures |r| == |rel| && forall i :: 0 <= i < |rel| ==> r[i] == cwd + rel[i]
  {
    seq(|rel|, i requires 0 <= i < |rel| => cwd + rel[i])
  }

  /** The registry knows exactly `blinky` and `picosoc-hx8kdemo`, with their
      tops and their sources below the working directory. */
  lemma GetProjectKnown(cwd: string, name: string)
    ensures GetProject(cwd, name).Success? <==> name == "blinky" || name == "picosoc-hx8kdemo"
    ensures name == "blinky" ==>
      GetProject(cwd, name) == Success(Project("blinky", Prefixed(cwd, BlinkySources), "top"))
    ensures name == "picosoc-hx8kdemo" ==>
      GetProject(cwd, name) == Success(Project("picosoc-hx8kdemo", Prefixed(cwd, PicosocSources), "hx8kdemo"))
  {
    var ps := Registry(cwd);
    var d := cwd + "/src/picorv32/";
    assert Prefixed(cwd, BlinkySources) == ps[0].srcs;
    assert forall k :: 0 <= k < 5 ==> ps[1].srcs[k] == d + PicosocSources[k][14..] by {
      assert PicosocSources[0][14..] == "picosoc/picosoc.v";
      assert PicosocSources[1][14..] == "picorv32.v";
      assert PicosocSources[2][14..] == "picosoc/spimemio.v";
      assert PicosocSources[3][14..] == "picosoc/simpleuart.v";
      assert PicosocSources[4][14..] == "picosoc/hx8kdemo.v";
    }
    forall k | 0 <= k < 5
      ensures ps[1].srcs[k] == cwd + PicosocSources[k]
    {
      var rel := PicosocSources[k];
      assert rel == "/src/picorv32/" + rel[14..];
      AppendAssoc(cwd, "/src/picorv32/", rel[14..]);
    }
    assert Prefixed(cwd, PicosocSources) == ps[1].srcs;
  }

  // ---------------------------------------------------------------------------
  // Canonicalizing source paths

  /** The `sources` entry of `write_metadata` as the program computes it:
      every occurrence of the working directory in each path becomes `.`. */
  function CanonicalizeAsWritten(cwd: string, srcs: seq<string>): (r: seq<string>)
    ensures |r| == |srcs|
    ensures forall i :: 0 <= i < |srcs| ==> r[i] == ReplaceAll(srcs[i], cwd, ".")
  {
    seq(|srcs|, i requires 0 <= i < |srcs| => ReplaceAll(srcs[i], cwd, "."))
  }

  /** Paths that do not mention the working directory pass through unchanged,
      in their original order. */
  lemma AsWrittenKeepsOthers(cwd: string, srcs: seq<string>, i: nat)
    requires cwd != [] && i < |srcs| && !Contains(srcs[i], cwd)
    ensures CanonicalizeAsWritten(cwd, srcs)[i] == srcs[i]
  {
    ReplaceAbsent(srcs[i], cwd, ".");
  }

  /** A working directory that occurs again right after itself is replaced
      twice. */
  lemma AsWrittenRepeated(cwd: string, rest: string)
    requires cwd != [] && !Contains(rest, cwd)
    ensures ReplaceAll(cwd + cwd + rest, cwd, ".") == ".." + rest
  {
    var x := cwd + cwd + rest;
    assert StartsWith(x, cwd) && x[|cwd|..] == cwd + rest;
    assert StartsWith(cwd + rest, cwd) && (cwd + rest)[|cwd|..] == rest;
    ReplaceAbsent(rest, cwd, ".");
  }

  /** Checked out at `/src`, the registry's own `/src/src/blinky.v` becomes
      `../blinky.v` rather than `./src/blinky.v`. */
  lemma AsWrittenRewritesInside()
    ensures CanonicalizeAsWritten("/src", Prefixed("/src", BlinkySources)) == [".." + "/blinky.v"]
  {
    var rest := "/blinky.v";
    assert !Contains(rest, "/src") by {
      forall i | 0 <= i <= |rest|
        ensures !OccursAt(rest, "/src", i)
      {
        if i + 4 <= |rest| {
          assert rest[i..i + 4][1] == rest[i + 1] != 's';
        }
      }
    }
    AsWrittenRepeated("/src", rest);
    assert BlinkySources[0] == "/src" + rest;
    assert Prefixed("/src", BlinkySources)[0] == "/src" + "/src" + rest;
  }

  /** A source path with a leading working directory replaced by `.`, and
      nothing else changed: what the `# canonicalize` step is for. */
  function CanonicalPath(cwd: string, x: string): (r: string)
    ensures StartsWith(x, cwd + "/") ==> StartsWith(r, "./") && cwd + r[1..] == x
    ensures !StartsWith(x, cwd + "/") ==> r == x
  {
    if StartsWith(x, cwd + "/") then
      var r := "." + x[|cwd|..];
      assert x == x[..|cwd|] + x[|cwd|..];
      assert x[..|cwd|] == (cwd + "/")[..|cwd|] == cwd;
      r
    else x
  }

  /** `CanonicalPath` applied to each source, in order. */
  function Canonicalize(cwd: string, srcs: seq<string>): (r: seq<string>)
    ensures |r| == |srcs| && forall i :: 0 <= i < |srcs| ==> r[i] == CanonicalPath(cwd, srcs[i])
  {
    seq(|srcs|, i requires 0 <= i < |srcs| => CanonicalPath(cwd, srcs[i]))
  }

  /** The two canonicalizations agree on a path that holds the working
      directory once, at its start. */
  lemma CanonicalAgrees(cwd: string, x: string)
    requires cwd != [] && StartsWith(x, cwd + "/") && !Contains(x[|cwd|..], cwd)
    ensures ReplaceAll(x, cwd, ".") == CanonicalPath(cwd, x)
  {
    assert x[..|cwd|] == (cwd + "/")[..|cwd|] == cwd;
    assert StartsWith(x, cwd);
    ReplaceAbsent(x[|cwd|..], cwd, ".");
  }

  /** Every registry source canonicalizes to `.` followed by its path
      relative to the working directory, whatever that directory is. */
  lemma CanonicalRegistry(cwd: string, rel: seq<string>)
    requires forall i :: 0 <= i < |rel| ==> StartsWith(rel[i], "/")
    ensures Canonicalize(cwd, Prefixed(cwd, rel)) == seq(|rel|, i requires 0 <= i < |rel| => "." + rel[i])
  {
    forall i | 0 <= i < |rel|
      ensures CanonicalPath(cwd, cwd + rel[i]) == "." + rel[i]
    {
      var x := cwd + rel[i];
      assert x[..|cwd| + 1] == cwd + rel[i][..1] == cwd + "/";
      assert x[|cwd|..] == rel[i];
    }
  }

  // ---------------------------------------------------------------------------
  // After the run: statistics and metadata

  /** A step after the run: the toolchain with what the step added to its
      trace and files, and the value it computed or the exception it raised. */
  datatype Step<T> = Step(t: Toolchain, res: Result<T, Error>)

  /** `b` is `a` followed by further commands. */
  predicate Extends(a: seq<Invocation>, b: seq<Invocation>) {
    |a| <= |b| && b[..|a|] == a
  }

  lemma ExtendsTrans(a: seq<Invocation>, b: seq<Invocation>, c: seq<Invocation>)
    requires Extends(a, b) && Extends(b, c)
    ensures Extends(a, c)
  {
    assert c[..|a|] == c[..|b|][..|a|];
  }

  /** `t.run()`: the `run` method of the toolchain's own class. It only adds
      to what the toolchain has executed. */
  function RunToolchain(t: Toolchain, env: Env): (o: Outcome)
    requires t.config.Some?
    ensures o.t.config == t.config && o.t.variant == t.variant && o.t.verbose == t.verbose
    ensures Extends(t.trace, o.t.trace)
  {
    RunPlanExtends(t, env, PlanOf(t.variant, t.config.value));
    RunPlan(t, env, PlanOf(t.variant, t.config.value))
  }

  lemma RunPlanExtends(t: Toolchain, env: Env, p: Plan)
    requires t.config.Some?
    ensures Extends(t.trace, RunPlan(t, env, p).t.trace)
  {
    ExtendsAppend(t.trace, Executed(env, p.inner), ExecutedAfter(env, p));
  }

  lemma ExtendsAppend(a: seq<Invocation>, b: seq<Invocation>, c: seq<Invocation>)
    ensures Extends(a, a + b + c)
  {
    assert a + b + c == a + (b + c);
  }

  /** `max_freq()`: `icetime_parse` of `<out_dir>/icetime.txt` read as a file,
      then its `max_freq` entry; opening a report nothing has written raises. */
  function MaxFreqOf(t: Toolchain): (r: Result<string, Error>)
    requires t.config.Some?
    ensures LogPath(t.config.value.outDir, Icetime.cmd) !in t.logs ==>
      r == Failure(LogMissing(LogPath(t.config.value.outDir, Icetime.cmd)))
  {
    var path := LogPath(t.config.value.outDir, Icetime.cmd);
    if path !in t.logs then Failure(LogMissing(path)) else MaxFreq(Lines(t.logs[path]))
  }

  /** The header verbose mode leaves in the `icetime` report is not a timing
      line, so the frequency is the one in what `icetime` printed. */
  lemma IcetimeLogFrequency(verbose: bool, out: string)
    ensures MaxFreq(Lines(LogContents(verbose, Icetime, out))) == MaxFreq(Lines(out))
  {
    if verbose {
      VerboseLogLines(Icetime, out);
      var header := ["Running: " + Icetime.cmd + " " + Icetime.argstr, ""];
      assert !StartsWith(header[0], DelayPrefix) by {
        assert header[0][0] == 'R' && DelayPrefix[0] == 'T';
      }
      IcetimeParseSkips(header, Lines(out));
    }
  }

  /** After a successful run of a plan that ends with `icetime`, `max_freq()`
      reads the frequency from what `icetime` printed. */
  lemma MaxFreqAfterPlan(t: Toolchain, env: Env, p: Plan)
    requires t.config.Some? && p.after == [Icetime]
    requires RunPlan(t, env, p).status.Success?
    ensures MaxFreqOf(RunPlan(t, env, p).t) == MaxFreq(Lines(env.output(Icetime)))
  {
    RunPlanIcetimeLog(t, env, p);
    IcetimeLogFrequency(t.verbose, env.output(Icetime));
  }

  /** After a successful `t.run()`, `max_freq()` reads the frequency from what
      `icetime` printed, whether or not `cmd` ran in verbose mode. */
  lemma MaxFreqAfterRun(t: Toolchain, env: Env)
    requires t.config.Some?
    requires RunToolchain(t, env).status.Success?
    ensures MaxFreqOf(RunToolchain(t, env).t) == MaxFreq(Lines(env.output(Icetime)))
  {
    PlanNames(t.variant, t.config.value);
    MaxFreqAfterPlan(t, env, PlanOf(t.variant, t.config.value));
  }

  /** The command `resources()` runs on the packed design. */
  const StatCmd := Invocation("icebox_stat", "my.asc")

  /** `resources()`, that is `icebox_stat("my.asc", out_dir)`: run the command
      with its output in `<out_dir>/icebox_stat.txt`, then parse that file.
      Nothing is timed. */
  function Resources(t: Toolchain, env: Env): (s: Step<map<string, nat>>)
    requires t.config.Some?
    ensures s.t == t.(trace := t.trace + [StatCmd],
                      logs := t.logs[LogPath(t.config.value.outDir, StatCmd.cmd) := env.output(StatCmd)])
    ensures !env.exitOk(StatCmd) ==> s.res == Failure(CommandFailed(StatCmd.cmd, StatCmd.argstr))
    ensures env.exitOk(StatCmd) ==> s.res == IceboxStatParse(Lines(env.output(StatCmd)))
    ensures s.res.Success? ==> "LUT" in s.res.value
  {
    var path := LogPath(t.config.value.outDir, StatCmd.cmd);
    var t' := t.(trace := t.trace + [StatCmd], logs := t.logs[path := env.output(StatCmd)]);
    if !env.exitOk(StatCmd) then Step(t', Failure(CommandFailed(StatCmd.cmd, StatCmd.argstr)))
    else Step(t', IceboxStatParse(Lines(t'.logs[path])))
  }

  /** The report of `icebox_stat` is a different file from the one of `icetime`. */
  lemma ReportsDistinct(outDir: string)
    ensures LogPath(outDir, StatCmd.cmd) != LogPath(outDir, Icetime.cmd)
  {
    var i := |outDir| + 4;
    assert LogPath(outDir, StatCmd.cmd)[i] == 'b';
    assert LogPath(outDir, Icetime.cmd)[i] == 't';
  }

  /** What `print_stats` prints: the run's name, the runtime record, the
      maximum frequency and the resource counts. */
  datatype Stats = Stats(name: string, runtimes: Runtimes, maxFreq: string, resources: map<string, nat>)

  /** `print_stats(t)`: the maximum frequency first, so a missing one raises
      before `icebox_stat` runs, then the resources. */
  function PrintStats(t: Toolchain, env: Env): (s: Step<Stats>)
    requires t.config.Some?
    ensures MaxFreqOf(t).Failure? ==> s == Step(t, Failure(MaxFreqOf(t).error))
    ensures MaxFreqOf(t).Success? ==> s.t == Resources(t, env).t
    ensures s.t.config == t.config && s.t.variant == t.variant && s.t.runtimes == t.runtimes
    ensures Extends(t.trace, s.t.trace)
    ensures MaxFreqOf(t).Success? && Resources(t, env).res.Failure? ==>
      s.res == Failure(Resources(t, env).res.error)
    ensures s.res.Success? <==> MaxFreqOf(t).Success? && Resources(t, env).res.Success?
    ensures s.res.Success? ==>
      var c := t.config.value;
      s.res.value == Stats(RunLabel(c.family, c.device, ToolchainName(t.variant), c.projectName),
                           t.runtimes, MaxFreqOf(t).value, Resources(t, env).res.value)
  {
    var c := t.config.value;
    var name := RunLabel(c.family, c.device, ToolchainName(t.variant), c.projectName);
    match MaxFreqOf(t)
    case Failure(e) => Step(t, Failure(e))
    case Success(freq) =>
      var res := Resources(t, env);
      match res.res
      case Failure(e) => Step(res.t, Failure(e))
      case Success(counts) => Step(res.t, Success(Stats(name, t.runtimes, freq, counts)))
  }

  /** `subprocess.check_output(...)`: what the command prints, or the
      exception for a non-zero exit status. */
  function CheckOutput(env: Env, inv: Invocation): (r: Result<string, Error>)
    ensures r.Success? <==> env.exitOk(inv)
    ensures r.Success? ==> r.value == env.output(inv)
    ensures r.Failure? ==> r.error == CommandFailed(inv.cmd, inv.argstr)
  {
    if env.exitOk(inv) then Success(env.output(inv)) else Failure(CommandFailed(inv.cmd, inv.argstr))
  }

  /** `yosys_ver()`'s command. */
  const YosysVersionCmd := Invocation("yosys", "-V")

  /** The version query of each toolchain class. */
  function VersionCmd(v: Variant): Invocation
  {
    match v
    case Arachne => Invocation("arachne-pnr", "-v")
    case Vpr(_) => Invocation("vpr", "--version")
  }

  /** The toolchain's own version text: `arachne-pnr -v` stripped, or the
      lines `vpr_version` extracts. */
  function ToolVersion(v: Variant, out: string): Result<string, Error>
  {
    match v
    case Arachne => Success(Strip(out))
    case Vpr(_) => VprVersion(out)
  }

  /** `versions()`: `yosys -V` first, then the toolchain's own query. */
  function Versions(t: Toolchain, env: Env): (s: Step<map<string, string>>)
    ensures s.t == t.(trace := s.t.trace)
    ensures s.t.trace == t.trace + [YosysVersionCmd] + (if env.exitOk(YosysVersionCmd) then [VersionCmd(t.variant)] else [])
    ensures s.res.Success? <==>
      env.exitOk(YosysVersionCmd) && env.exitOk(VersionCmd(t.variant))
      && ToolVersion(t.variant, env.output(VersionCmd(t.variant))).Success?
    ensures !env.exitOk(YosysVersionCmd) ==>
      s.res == Failure(CommandFailed(YosysVersionCmd.cmd, YosysVersionCmd.argstr))
    ensures env.exitOk(YosysVersionCmd) && !env.exitOk(VersionCmd(t.variant)) ==>
      s.res == Failure(CommandFailed(VersionCmd(t.variant).cmd, VersionCmd(t.variant).argstr))
    ensures var v := ToolVersion(t.variant, env.output(VersionCmd(t.variant)));
      env.exitOk(YosysVersionCmd) && env.exitOk(VersionCmd(t.variant)) && v.Failure? ==>
        s.res == Failure(v.error)
    ensures s.res.Success? ==>
      && s.res.value.Keys == {"yosys", ToolchainName(t.variant)}
      && s.res.value["yosys"] == Strip(env.output(YosysVersionCmd))
      && s.res.value[ToolchainName(t.variant)] == ToolVersion(t.variant, env.output(VersionCmd(t.variant))).value
  {
    var t1 := t.(trace := t.trace + [YosysVersionCmd]);
    match CheckOutput(env, YosysVersionCmd)
    case Failure(e) => Step(t1, Failure(e))
    case Success(yosysOut) =>
      var inv := VersionCmd(t.variant);
      var t2 := t1.(trace := t1.trace + [inv]);
      match CheckOutput(env, inv)
      case Failure(e) => Step(t2, Failure(e))
      case Success(out) =>
        match ToolVersion(t.variant, out)
        case Failure(e) => Step(t2, Failure(e))
        case Success(version) =>
          assert "yosys" != ToolchainName(t.variant);
          Step(t2, Success(map["yosys" := Strip(yosysOut), ToolchainName(t.variant) := version]))
  }

  /** The record `write_metadata` dumps to `<out_dir>/meta.json`. The file
      itself, written with sorted keys, lists the runtime record's names in
      alphabetical order rather than in the record's insertion order. */
  datatype Metadata = Metadata(
    toolchain: string, family: string, device: string, projectName: string,
    sources: seq<string>, top: string, runtime: Runtimes, maxFreq: string,
    resources: map<string, nat>, versions: map<string, string>)

  /** `write_metadata(t, out_dir)`: the values are computed in the order the
      dictionary lists them, so the first failing one raises before the later
      commands run. The sources are canonicalized by `CanonicalPath`. */
  function WriteMetadata(t: Toolchain, env: Env, cwd: string): (s: Step<Metadata>)
    requires t.config.Some?
    ensures MaxFreqOf(t).Failure? ==> s == Step(t, Failure(MaxFreqOf(t).error))
    ensures Extends(t.trace, s.t.trace)
    ensures MaxFreqOf(t).Success? && Resources(t, env).res.Failure? ==>
      s == Step(Resources(t, env).t, Failure(Resources(t, env).res.error))
    ensures MaxFreqOf(t).Success? && Resources(t, env).res.Success? && Versions(Resources(t, env).t, env).res.Failure? ==>
      s == Step(Versions(Resources(t, env).t, env).t, Failure(Versions(Resources(t, env).t, env).res.error))
    ensures s.res.Success? <==>
      MaxFreqOf(t).Success? && Resources(t, env).res.Success? && Versions(Resources(t, env).t, env).res.Success?
    ensures s.res.Success? ==>
      var c := t.config.value;
      && s.t == Versions(Resources(t, env).t, env).t
      && s.res.value == Metadata(ToolchainName(t.variant), c.family, c.device, c.projectName,
                                 Canonicalize(cwd, c.srcs), c.top, t.runtimes, MaxFreqOf(t).value,
                                 Resources(t, env).res.value, Versions(Resources(t, env).t, env).res.value)
  {
    match MaxFreqOf(t)
    case Failure(e) => Step(t, Failure(e))
    case Success(freq) => MetadataAfterTiming(t, env, cwd, freq)
  }

  /** The rest of `write_metadata` once the frequency `freq` is known: the
      resource counts, then the versions, then the record. */
  function MetadataAfterTiming(t: Toolchain, env: Env, cwd: string, freq: string): (s: Step<Metadata>)
    requires t.config.Some?
    ensures Extends(t.trace, s.t.trace)
    ensures Resources(t, env).res.Failure? ==>
      s == Step(Resources(t, env).t, Failure(Resources(t, env).res.error))
    ensures Resources(t, env).res.Success? && Versions(Resources(t, env).t, env).res.Failure? ==>
      s == Step(Versions(Resources(t, env).t, env).t, Failure(Versions(Resources(t, env).t, env).res.error))
    ensures s.res.Success? <==> Resources(t, env).res.Success? && Versions(Resources(t, env).t, env).res.Success?
    ensures s.res.Success? ==>
      var c := t.config.value;
      && s.t == Versions(Resources(t, env).t, env).t
      && s.res.value == Metadata(ToolchainName(t.variant), c.family, c.device, c.projectName,
                                 Canonicalize(cwd, c.srcs), c.top, t.runtimes, freq,
                                 Resources(t, env).res.value, Versions(Resources(t, env).t, env).res.value)
  {
    var c := t.config.value;
    var res := Resources(t, env);
    assert Extends(t.trace, res.t.trace);
    match res.res
    case Failure(e) => Step(res.t, Failure(e))
    case Success(counts) =>
      var vers := Versions(res.t, env);
      assert Extends(res.t.trace, vers.t.trace);
      ExtendsTrans(t.trace, res.t.trace, vers.t.trace);
      match vers.res
      case Failure(e) => Step(vers.t, Failure(e))
      case Success(vs) =>
        Step(vers.t, Success(Metadata(ToolchainName(t.variant), c.family, c.device, c.projectName,
                                      Canonicalize(cwd, c.srcs), c.top, t.runtimes, freq, counts, vs)))
  }


  // ---------------------------------------------------------------------------
  // run

  /** The checks `run` makes before creating a toolchain object. */
  predicate Admitted(family: string, device: string, toolchain: string) {
    family == "ice40" && device == "hx8k" && (toolchain == "arachne" || toolchain == "vpr")
  }

  /** How far `run` gets before `t.run()`: either the configured toolchain
      object, or the commands executed so far and the exception raised. */
  datatype Setup = Ready(t: Toolchain) | Stopped(trace: seq<Invocation>, error: Error)

  /** `run` up to `t.project(...)`: the asserts on family and device, the
      toolchain table, the constructor (which times `true`), `verbose`, the
      output directory and the project. */
  function Prepare(env: Env, cwd: string, family: string, device: string, toolchain: string,
                   project: string, outDir: Option<string>, verbose: bool): (s: Setup)
    ensures (s.Stopped? && s.trace == []) <==> !Admitted(family, device, toolchain)
    ensures family != "ice40" ==> s == Stopped([], UnsupportedFamily(family))
    ensures family == "ice40" && device != "hx8k" ==> s == Stopped([], UnsupportedDevice(device))
    ensures family == "ice40" && device == "hx8k" && toolchain != "arachne" && toolchain != "vpr" ==>
      s == Stopped([], UnknownToolchain(toolchain))
    ensures s.Ready? <==>
      Admitted(family, device, toolchain) && env.exitOk(Probe) && GetProject(cwd, project).Success?
    ensures s.Stopped? && Admitted(family, device, toolchain) ==> s.trace == [Probe]
    ensures s.Ready? ==>
      && s.t.trace == [Probe] && Keys(s.t.runtimes) == [Nop] && s.t.logs == map[]
      && ToolchainName(s.t.variant) == toolchain && s.t.verbose == verbose && s.t.config.Some?
    ensures s.Ready? ==>
      var c := s.t.config.value;
      && c.family == family && c.device == device
      && c.outDir == (if outDir.Some? then outDir.value else DefaultOutDir(family, device, toolchain, project))
      && GetProject(cwd, project) == Success(Project(c.projectName, c.srcs, c.top))
  {
    if family != "ice40" then Stopped([], UnsupportedFamily(family))
    else if device != "hx8k" then Stopped([], UnsupportedDevice(device))
    else match LookupVariant(toolchain, env.home)
      case None => Stopped([], UnknownToolchain(toolchain))
      case Some(v) =>
        var created := Create(env, v);
        if created.status.Failure? then Stopped(created.t.trace, created.status.error)
        else
          var t := created.t.(verbose := verbose);
          var dir := if outDir.Some? then outDir.value else DefaultOutDir(family, device, toolchain, project);
          match GetProject(cwd, project)
          case Failure(e) => Stopped(t.trace, e)
          case Success(p) => Ready(SetProject(t, Config(p.name, family, device, p.srcs, p.top, dir)))
  }

  /** What `run` leaves behind: every command executed, in order, what
      `print_stats` printed and what `write_metadata` wrote, if they got that
      far, and the exception that ended the run, if any. */
  datatype RunResult = RunResult(
    trace: seq<Invocation>, stats: Option<Stats>, meta: Option<Metadata>, status: Result<(), Error>)

  /** `print_stats(t)` then `write_metadata(t, out_dir)`, once `t.run()` has
      returned; the first exception ends it. */
  function Report(u: Toolchain, env: Env, cwd: string): (r: RunResult)
    requires u.config.Some?
    ensures Extends(u.trace, r.trace)
    ensures r.status.Success? <==> r.meta.Some?
    ensures r.meta.Some? ==> r.stats.Some?
    ensures r.stats.None? ==> r.trace == PrintStats(u, env).t.trace
  {
    var stats := PrintStats(u, env);
    if stats.res.Failure? then RunResult(stats.t.trace, None, None, Failure(stats.res.error))
    else
      var meta := WriteMetadata(stats.t, env, cwd);
      ExtendsTrans(u.trace, stats.t.trace, meta.t.trace);
      if meta.res.Failure? then RunResult(meta.t.trace, Some(stats.res.value), None, Failure(meta.res.error))
      else RunResult(meta.t.trace, Some(stats.res.value), Some(meta.res.value), Success(()))
  }

  /** `run` from `t.run()` on: the toolchain's stages, then the report unless
      a stage raised. */
  function Finish(t: Toolchain, env: Env, cwd: string): (r: RunResult)
    requires t.config.Some?
    ensures Extends(t.trace, r.trace)
    ensures r.status.Success? <==> r.meta.Some?
    ensures r.meta.Some? ==> r.stats.Some?
    ensures r.stats.Some? ==> RunToolchain(t, env).status.Success?
  {
    var ran := RunToolchain(t, env);
    if ran.status.Failure? then RunResult(ran.t.trace, None, None, ran.status)
    else
      var r := Report(ran.t, env, cwd);
      ExtendsTrans(t.trace, ran.t.trace, r.trace);
      r
  }

  lemma StartsWithProbe(a: seq<Invocation>, b: seq<Invocation>)
    requires a == [Probe] && Extends(a, b)
    ensures b != [] && b[0] == Probe
  {
    assert b[0] == b[..1][0];
  }

  /** `run(family, device, toolchain, project, out_dir, verbose)`. A run the
      guard rejects executes no command at all. */
  function Run(env: Env, cwd: string, family: string, device: string, toolchain: string,
               project: string, outDir: Option<string>, verbose: bool): (r: RunResult)
    ensures r.trace == [] <==> !Admitted(family, device, toolchain)
    ensures family != "ice40" ==> r.status == Failure(UnsupportedFamily(family))
    ensures family == "ice40" && device != "hx8k" ==> r.status == Failure(UnsupportedDevice(device))
    ensures family == "ice40" && device == "hx8k" && toolchain != "arachne" && toolchain != "vpr" ==>
      r.status == Failure(UnknownToolchain(toolchain))
    ensures r.trace != [] ==> r.trace[0] == Probe
    ensures r.status.Success? <==> r.meta.Some?
  {
    var s := Prepare(env, cwd, family, device, toolchain, project, outDir, verbose);
    if s.Stopped? then RunResult(s.trace, None, None, Failure(s.error))
    else
      var r := Finish(s.t, env, cwd);
      StartsWithProbe(s.t.trace, r.trace);
      r
  }

  /** A report that completes executes `icebox_stat` twice (once for
      `print_stats`, once for `write_metadata`) and then the two version
      queries; what it prints and what it writes agree on the record, the
      frequency and the resources, and the sources are canonicalized. */
  lemma ReportSuccess(u: Toolchain, env: Env, cwd: string)
    requires u.config.Some?
    requires Report(u, env, cwd).status.Success?
    ensures var r := Report(u, env, cwd);
      && r.trace == u.trace + [StatCmd, StatCmd, YosysVersionCmd, VersionCmd(u.variant)]
      && r.meta.value.runtime == u.runtimes && r.stats.value.runtimes == u.runtimes
      && r.meta.value.sources == Canonicalize(cwd, u.config.value.srcs)
      && r.meta.value.toolchain == ToolchainName(u.variant)
      && r.meta.value.projectName == u.config.value.projectName
      && MaxFreqOf(u) == Success(r.meta.value.maxFreq)
      && r.stats.value.maxFreq == r.meta.value.maxFreq
      && r.stats.value.resources == r.meta.value.resources
  {
    var stats := PrintStats(u, env);
    var res := Resources(u, env);
    MaxFreqIgnoresStat(u, env);
    var res2 := Resources(stats.t, env);
    var vers := Versions(res2.t, env);
    ReportTrace(u.trace, vers.t.trace, res.t.trace, res2.t.trace, VersionCmd(u.variant));
  }

  /** Running `icebox_stat` leaves the `icetime` report alone. */
  lemma MaxFreqIgnoresStat(u: Toolchain, env: Env)
    requires u.config.Some?
    ensures MaxFreqOf(Resources(u, env).t) == MaxFreqOf(u)
  {
    ReportsDistinct(u.config.value.outDir);
  }

  lemma ReportTrace(a: seq<Invocation>, d: seq<Invocation>, b: seq<Invocation>, c: seq<Invocation>, v: Invocation)
    requires b == a + [StatCmd] && c == b + [StatCmd] && d == c + [YosysVersionCmd] + [v]
    ensures d == a + [StatCmd, StatCmd, YosysVersionCmd, v]
  {
  }

  /** A `run` that completes has run every stage of its toolchain, and the
      frequency it reports is the one `icetime` printed. */
  lemma FinishSuccess(t: Toolchain, env: Env, cwd: string)
    requires t.config.Some?
    requires Finish(t, env, cwd).status.Success?
    ensures var r := Finish(t, env, cwd);
      var ran := RunToolchain(t, env);
      && ran.status.Success?
      && r.trace == ran.t.trace + [StatCmd, StatCmd, YosysVersionCmd, VersionCmd(t.variant)]
      && r.meta.value.runtime == ran.t.runtimes
      && r.meta.value.sources == Canonicalize(cwd, t.config.value.srcs)
      && r.meta.value.toolchain == ToolchainName(t.variant)
      && r.meta.value.projectName == t.config.value.projectName
      && MaxFreq(Lines(env.output(Icetime))) == Success(r.meta.value.maxFreq)
  {
    var ran := RunToolchain(t, env);
    MaxFreqAfterRun(t, env);
    ReportSuccess(ran.t, env, cwd);
  }

  /** No stage of a plan is `icebox_stat` when none of its inner stages is. */
  lemma PlanNeverStats(env: Env, p: Plan, inner: seq<string>)
    requires Names(p.inner) == inner && "icebox_stat" !in inner && p.after == [Icetime]
    ensures StatCmd !in Executed(env, p.inner) + ExecutedAfter(env, p)
  {
    var ran := Executed(env, p.inner);
    forall i | 0 <= i < |ran|
      ensures ran[i] != StatCmd
    {
      assert ran[i] == p.inner[i] && p.inner[i].cmd == inner[i];
    }
    assert StatCmd.cmd != Icetime.cmd;
  }

  /** When a stage of the toolchain fails, `run` ends with that exception:
      `print_stats` and `write_metadata` are never reached, so `icebox_stat`
      does not run and nothing is printed or written. */
  lemma FinishStopsAtFailedStage(t: Toolchain, env: Env, cwd: string)
    requires t.config.Some?
    requires RunToolchain(t, env).status.Failure?
    ensures var r := Finish(t, env, cwd);
      && r.stats.None? && r.meta.None?
      && r.status == RunToolchain(t, env).status
      && r.trace == RunToolchain(t, env).t.trace
      && StatCmd !in r.trace[|t.trace|..]
  {
    RunToolchainNeverStats(t, env);
  }

  /** Neither toolchain's `run()` executes `icebox_stat`. */
  lemma RunToolchainNeverStats(t: Toolchain, env: Env)
    requires t.config.Some?
    ensures StatCmd !in RunToolchain(t, env).t.trace[|t.trace|..]
  {
    var c := t.config.value;
    match t.variant
    case Arachne =>
      assert "icebox_stat" !in ArachneInner;
      RunPlanNeverStats(t, env, ArachnePlan(c), ArachneInner);
    case Vpr(sfad) =>
      assert "icebox_stat" !in VprInner;
      RunPlanNeverStats(t, env, VprPlan(sfad, c), VprInner);
  }

  /** What a plan adds to the trace holds no `icebox_stat`. */
  lemma RunPlanNeverStats(t: Toolchain, env: Env, p: Plan, inner: seq<string>)
    requires t.config.Some?
    requires Names(p.inner) == inner && "icebox_stat" !in inner && p.after == [Icetime]
    ensures StatCmd !in RunPlan(t, env, p).t.trace[|t.trace|..]
  {
    PlanNeverStats(env, p, inner);
    var tr := RunPlan(t, env, p).t.trace;
    AppendAssoc(t.trace, Executed(env, p.inner), ExecutedAfter(env, p));
    assert tr[|t.trace|..] == Executed(env, p.inner) + ExecutedAfter(env, p);
  }

  /** The relative sources as the record lists them, each below `.`. */
  function Dotted(rel: seq<string>): (r: seq<string>)
    ensures |r| == |rel| && forall i :: 0 <= i < |rel| ==> r[i] == "." + rel[i]
  {
    seq(|rel|, i requires 0 <= i < |rel| => "." + rel[i])
  }

  /** A `run` gets past its setup only for an admitted configuration, a
      known project and a successful `true`; from there it is `Finish`. */
  lemma RunReachesFinish(env: Env, cwd: string, family: string, device: string, toolchain: string,
                         project: string, outDir: Option<string>, verbose: bool)
    requires Run(env, cwd, family, device, toolchain, project, outDir, verbose).status.Success?
    ensures var s := Prepare(env, cwd, family, device, toolchain, project, outDir, verbose);
      && s.Ready?
      && Run(env, cwd, family, device, toolchain, project, outDir, verbose) == Finish(s.t, env, cwd)
  {
  }

  /** A completed `run` records `nop`, its toolchain's stages in order,
      `bit-all` after them, and `icetime` last. */
  lemma RunSuccessKeys(env: Env, cwd: string, family: string, device: string, toolchain: string,
                       project: string, outDir: Option<string>, verbose: bool)
    requires Run(env, cwd, family, device, toolchain, project, outDir, verbose).status.Success?
    ensures Admitted(family, device, toolchain)
    ensures var m := Run(env, cwd, family, device, toolchain, project, outDir, verbose).meta.value;
      Keys(m.runtime) ==
        if toolchain == "arachne" then ["nop", "yosys", "arachne-pnr", "icepack", "bit-all", "icetime"]
        else ["nop", "yosys", "vpr", "icebox_hlc2asc.py", "icepack", "bit-all", "icetime"]
  {
    RunReachesFinish(env, cwd, family, device, toolchain, project, outDir, verbose);
    var t := Prepare(env, cwd, family, device, toolchain, project, outDir, verbose).t;
    var c := t.config.value;
    FinishSuccess(t, env, cwd);
    match t.variant
    case Arachne => ArachneRunKeysOnSuccess(t, env, c);
    case Vpr(sfad) => VprRunKeysOnSuccess(t, env, sfad, c);
  }

  /** A completed `run` writes the record of the toolchain and project it
      was given, with the frequency `icetime` printed and the sources as the
      corrected canonicalization gives them: the project's `./src/...` paths. */
  lemma RunSuccessRecord(env: Env, cwd: string, family: string, device: string, toolchain: string,
                         project: string, outDir: Option<string>, verbose: bool)
    requires Run(env, cwd, family, device, toolchain, project, outDir, verbose).status.Success?
    ensures project == "blinky" || project == "picosoc-hx8kdemo"
    ensures var m := Run(env, cwd, family, device, toolchain, project, outDir, verbose).meta.value;
      && m.toolchain == toolchain && m.projectName == project
      && MaxFreq(Lines(env.output(Icetime))) == Success(m.maxFreq)
      && m.sources == Dotted(if project == "blinky" then BlinkySources else PicosocSources)
  {
    RunReachesFinish(env, cwd, family, device, toolchain, project, outDir, verbose);
    var t := Prepare(env, cwd, family, device, toolchain, project, outDir, verbose).t;
    FinishSuccess(t, env, cwd);
    RegistryDotted(cwd, project);
  }

  /** The registry's sources, canonicalized, whatever the working directory. */
  lemma RegistryDotted(cwd: string, project: string)
    requires GetProject(cwd, project).Success?
    ensures project == "blinky" || project == "picosoc-hx8kdemo"
    ensures Canonicalize(cwd, GetProject(cwd, project).value.srcs) ==
      Dotted(if project == "blinky" then BlinkySources else PicosocSources)
  {
    GetProjectKnown(cwd, project);
    var rel := if project == "blinky" then BlinkySources else PicosocSources;
    forall i | 0 <= i < |rel|
      ensures StartsWith(rel[i], "/")
    {
      assert rel[i][0] == '/';
    }
    CanonicalRegistry(cwd, rel);
  }
}
