/** A toolchain run: the `Toolchain` base class (`__init__`, `add_runtime`,
    `project`, `cmd`), the `Timed` context manager, and the stage lists of
    `Arachne.run` and `VPR.run`. External commands are not executed: the
    environment says which of them exit with status 0, what each one writes,
    and how long each timed span takes. */
module Pipeline {
  import opened Wrappers
  import opened Errors
  import opened Text
  import opened Runtimes

  /** One external command as `cmd(cmd, argstr)` names it. */
  datatype Invocation = Invocation(cmd: string, argstr: string)

  /** Everything the model takes from outside the program. */
  datatype Env = Env(
    exitOk: Invocation -> bool,    // the command exits with status 0
    output: Invocation -> string,  // what the command writes to its log
    elapsed: string -> Duration,   // `end - start` of the span of that name
    home: string)                  // `os.getenv("HOME")`

  /** The two subclasses of `Toolchain`; `VPR` remembers its architecture
      build directory. */
  datatype Variant = Arachne | Vpr(sfadBuild: string)

  /** What `project(...)` stores. */
  datatype Config = Config(
    projectName: string, family: string, device: string,
    srcs: seq<string>, top: string, outDir: string)

  /** A toolchain object: the fields of `Toolchain`, the files `cmd` has
      written (path to contents) and the commands run so far, in order. */
  datatype Toolchain = Toolchain(
    variant: Variant,
    verbose: bool,
    config: Option<Config>,
    runtimes: Runtimes,
    logs: map<string, string>,
    trace: seq<Invocation>)

  /** A toolchain after a step, with the exception that step raised, if any. */
  datatype Outcome = Outcome(t: Toolchain, status: Result<(), Error>)

  /** `self.toolchain`. */
  function ToolchainName(v: Variant): string
  {
    match v
    case Arachne => "arachne"
    case Vpr(_) => "vpr"
  }

  /** The span `Timed` opens in the constructor and the one around the
      synthesis, place-and-route and packing stages of `run`. */
  const Nop := "nop"
  const BitAll := "bit-all"

  /** The shell command the constructor times. */
  const Probe := Invocation("true", "")

  /** `CalledProcessError` when the command exits with a non-zero status. */
  function CheckCall(env: Env, inv: Invocation): (r: Result<(), Error>)
    ensures r.Success? <==> env.exitOk(inv)
    ensures r.Failure? ==> r.error == CommandFailed(inv.cmd, inv.argstr)
  {
    if env.exitOk(inv) then Success(()) else Failure(CommandFailed(inv.cmd, inv.argstr))
  }

  /** `Toolchain.__init__` followed by the subclass's own: an empty record,
      then `nop` timed around `true`. `Timed.__exit__` records the span even
      when `true` fails. */
  function Create(env: Env, v: Variant): (o: Outcome)
    ensures Keys(o.t.runtimes) == [Nop]
    ensures Lookup(o.t.runtimes, Nop) == Some(env.elapsed(Nop))
    ensures o.t.trace == [Probe] && o.t.config.None? && !o.t.verbose && o.t.logs == map[]
    ensures o.t.variant == v
    ensures o.status.Success? <==> env.exitOk(Probe)
  {
    var t := Toolchain(v, false, None, Seeded(env.elapsed(Nop)), map[], [Probe]);
    Outcome(t, CheckCall(env, Probe))
  }

  /** `project(name, family, device, srcs, top, out_dir)`. */
  function SetProject(t: Toolchain, c: Config): (t': Toolchain)
    ensures t'.config == Some(c)
    ensures t'.runtimes == t.runtimes && t'.trace == t.trace && t'.logs == t.logs
    ensures t'.variant == t.variant && t'.verbose == t.verbose
  {
    t.(config := Some(c))
  }

  /** The file `cmd` writes: `<out_dir>/<cmd>.txt`. */
  function LogPath(outDir: string, cmd: string): string
  {
    outDir + "/" + cmd + ".txt"
  }

  /** The first thing `cmd` writes to the log: `Running: <cmd> <argstr>` and an
      empty line. */
  function LogHeader(inv: Invocation): string
  {
    "Running: " + inv.cmd + " " + inv.argstr + "\n\n"
  }

  /** Read back as a file, a verbose log is the line `Running: <cmd> <argstr>`,
      an empty line, and then the lines of the command's output. */
  lemma VerboseLogLines(inv: Invocation, out: string)
    requires '\n' !in inv.cmd && '\n' !in inv.argstr
    ensures Lines(LogContents(true, inv, out)) == ["Running: " + inv.cmd + " " + inv.argstr, ""] + Lines(out)
  {
    var first := "Running: " + inv.cmd + " " + inv.argstr;
    assert '\n' !in first by {
      forall i | 0 <= i < |first| ensures first[i] != '\n' {
        if i < 9 {
          assert first[i] == "Running: "[i];
        } else if i < 9 + |inv.cmd| {
          assert first[i] == inv.cmd[i - 9];
        } else if i > 9 + |inv.cmd| {
          assert first[i] == inv.argstr[i - 10 - |inv.cmd|];
        }
      }
    }
    assert LogContents(true, inv, out) == first + "\n" + ([] + "\n" + out);
    LinesAfter(first, [] + "\n" + out);
    LinesAfter([], out);
  }

  /** What the log holds once the command has finished. With `verbose` the
      output is appended to the header (`tee -a`); otherwise the redirection
      `>&` truncates the file and the header is lost. */
  function LogContents(verbose: bool, inv: Invocation, out: string): string
  {
    if verbose then LogHeader(inv) + out else out
  }

  /** Every log ends with the command's whole output; a verbose log holds the
      header and nothing else before it, a quiet one nothing at all. */
  lemma LogKeepsOutput(verbose: bool, inv: Invocation, out: string)
    ensures var log := LogContents(verbose, inv, out);
      |out| <= |log| && log[|log| - |out|..] == out
    ensures var log := LogContents(verbose, inv, out);
      verbose ==> StartsWith(log, LogHeader(inv)) && |log| == |LogHeader(inv)| + |out|
    ensures !verbose ==> LogContents(verbose, inv, out) == out
  {
    var log := LogContents(verbose, inv, out);
    if verbose {
      assert log[..|LogHeader(inv)|] == LogHeader(inv);
    }
  }

  /** `cmd(cmd, argstr)`: write the log header, then run the command inside
      `Timed(self, cmd)`. */
  function Cmd(t: Toolchain, env: Env, inv: Invocation): (o: Outcome)
    requires t.config.Some?
    ensures o.t.trace == t.trace + [inv]
    ensures o.t.config == t.config && o.t.verbose == t.verbose && o.t.variant == t.variant
    ensures o.status.Success? <==> env.exitOk(inv)
    ensures o.status.Failure? ==> o.status.error == CommandFailed(inv.cmd, inv.argstr)
  {
    var path := LogPath(t.config.value.outDir, inv.cmd);
    var t' := t.(logs := t.logs[path := LogContents(t.verbose, inv, env.output(inv))],
                 trace := t.trace + [inv],
                 runtimes := AddRuntime(t.runtimes, inv.cmd, env.elapsed(inv.cmd)));
    Outcome(t', CheckCall(env, inv))
  }

  /** Whether or not the command succeeds, its duration is recorded under its
      name (a new name goes last, a known one keeps its place), no other entry
      changes, and its log holds what `cmd` and the shell wrote. */
  lemma CmdRecords(t: Toolchain, env: Env, inv: Invocation)
    requires t.config.Some?
    ensures var r := Cmd(t, env, inv).t.runtimes;
      && Keys(r) == AddKey(Keys(t.runtimes), inv.cmd)
      && Lookup(r, inv.cmd) == Some(env.elapsed(inv.cmd))
      && forall k :: k != inv.cmd ==> Lookup(r, k) == Lookup(t.runtimes, k)
    ensures var path := LogPath(t.config.value.outDir, inv.cmd);
      Cmd(t, env, inv).t.logs == t.logs[path := LogContents(t.verbose, inv, env.output(inv))]
  {
  }

  // ---------------------------------------------------------------------------
  // Fail-fast sequences of commands

  /** Every command exits with status 0. */
  predicate AllOk(env: Env, cmds: seq<Invocation>) {
    forall i :: 0 <= i < |cmds| ==> env.exitOk(cmds[i])
  }

  /** `ran` is what a fail-fast run of `cmds` executes: a prefix of `cmds` in
      which every command but the last succeeded, and which stops short of
      the end only because its last command failed. */
  predicate RanFailFast(env: Env, cmds: seq<Invocation>, ran: seq<Invocation>) {
    && |ran| <= |cmds| && ran == cmds[..|ran|]
    && (forall i :: 0 <= i < |ran| - 1 ==> env.exitOk(ran[i]))
    && (|ran| < |cmds| ==> ran != [] && !env.exitOk(ran[|ran| - 1]))
  }

  /** The commands a fail-fast run executes: up to and including the first
      one that fails. */
  function Executed(env: Env, cmds: seq<Invocation>): (ran: seq<Invocation>)
    ensures RanFailFast(env, cmds, ran)
    ensures AllOk(env, ran) <==> AllOk(env, cmds)
  {
    if cmds == [] then []
    else if !env.exitOk(cmds[0]) then [cmds[0]]
    else
      var rest := Executed(env, cmds[1..]);
      assert cmds[..1 + |rest|] == [cmds[0]] + cmds[1..][..|rest|];
      [cmds[0]] + rest
  }

  /** After a first command that succeeds, the run goes on with the rest. */
  lemma ExecutedCons(env: Env, cmds: seq<Invocation>)
    requires cmds != [] && env.exitOk(cmds[0])
    ensures Executed(env, cmds) == [cmds[0]] + Executed(env, cmds[1..])
    ensures AllOk(env, cmds) <==> AllOk(env, cmds[1..])
  {
    assert forall i :: 1 <= i < |cmds| ==> cmds[1..][i - 1] == cmds[i];
  }

  /** A fail-fast run is determined by the commands and their outcomes. */
  lemma {:induction false} RanFailFastUnique(env: Env, cmds: seq<Invocation>, ran: seq<Invocation>)
    requires RanFailFast(env, cmds, ran)
    ensures ran == Executed(env, cmds)
    decreases |cmds|
  {
    if cmds != [] {
      assert ran != [] && ran[0] == cmds[0];
      if env.exitOk(cmds[0]) {
        ExecutedCons(env, cmds);
        var rest := ran[1..];
        assert rest == cmds[1..][..|rest|];
        assert forall i :: 0 <= i < |rest| - 1 ==> rest[i] == ran[i + 1];
        RanFailFastUnique(env, cmds[1..], rest);
        assert ran == [ran[0]] + rest;
      }
    }
  }

  /** The command names of a list of commands, which are also the names the
      run records. */
  function Names(cmds: seq<Invocation>): (ns: seq<string>)
    ensures |ns| == |cmds|
    ensures forall i :: 0 <= i < |cmds| ==> ns[i] == cmds[i].cmd
  {
    seq(|cmds|, i requires 0 <= i < |cmds| => cmds[i].cmd)
  }

  /** The keys after assigning each name in turn. */
  function AddKeys(ks: seq<string>, names: seq<string>): seq<string>
    decreases |names|
  {
    if names == [] then ks else AddKeys(AddKey(ks, names[0]), names[1..])
  }

  /** Assigning fresh, pairwise distinct names appends them in order. */
  lemma {:induction false} AddKeysFresh(ks: seq<string>, names: seq<string>)
    requires forall i :: 0 <= i < |names| ==> names[i] !in ks
    requires forall i, j :: 0 <= i < j < |names| ==> names[i] != names[j]
    ensures AddKeys(ks, names) == ks + names
    decreases |names|
  {
    if names != [] {
      var ks' := ks + [names[0]];
      assert AddKey(ks, names[0]) == ks';
      forall i | 0 <= i < |names[1..]|
        ensures names[1..][i] !in ks'
      {
        assert names[1..][i] == names[i + 1];
      }
      AddKeysFresh(ks', names[1..]);
      assert ks' + names[1..] == ks + names;
    }
  }

  lemma {:induction false} AddKeysAppend(ks: seq<string>, xs: seq<string>, ys: seq<string>)
    ensures AddKeys(ks, xs + ys) == AddKeys(AddKeys(ks, xs), ys)
    decreases |xs|
  {
    if xs != [] {
      assert (xs + ys)[0] == xs[0] && (xs + ys)[1..] == xs[1..] + ys;
      AddKeysAppend(AddKey(ks, xs[0]), xs[1..], ys);
    } else {
      assert xs + ys == ys;
    }
  }

  lemma NamesCons(c: Invocation, rest: seq<Invocation>)
    ensures Names([c] + rest) == [c.cmd] + Names(rest)
  {
  }

  lemma AddKeysCons(ks: seq<string>, name: string, names: seq<string>)
    ensures AddKeys(ks, [name] + names) == AddKeys(AddKey(ks, name), names)
  {
    assert ([name] + names)[0] == name && ([name] + names)[1..] == names;
  }

  lemma AppendAssoc<T>(a: seq<T>, b: seq<T>, c: seq<T>)
    ensures a + b + c == a + (b + c)
  {
  }

  /** The statements of a `with Timed(...)` block or a method body, one `cmd`
      after the other: the first command that fails raises, so no later one
      runs. */
  function RunCmds(t: Toolchain, env: Env, cmds: seq<Invocation>): (o: Outcome)
    requires t.config.Some?
    ensures o.t.trace == t.trace + Executed(env, cmds)
    ensures o.t.config == t.config && o.t.verbose == t.verbose && o.t.variant == t.variant
    ensures o.status.Success? <==> AllOk(env, cmds)
    decreases |cmds|
  {
    if cmds == [] then Outcome(t, Success(()))
    else
      var first := Cmd(t, env, cmds[0]);
      if first.status.Failure? then first
      else
        ExecutedCons(env, cmds);
        var rest := RunCmds(first.t, env, cmds[1..]);
        AppendAssoc(t.trace, [cmds[0]], Executed(env, cmds[1..]));
        rest
  }

  /** A failed run raises for the last command it executed. */
  lemma {:induction false} RunCmdsError(t: Toolchain, env: Env, cmds: seq<Invocation>)
    requires t.config.Some?
    requires !AllOk(env, cmds)
    ensures var ran := Executed(env, cmds);
      RunCmds(t, env, cmds).status == Failure(CommandFailed(ran[|ran| - 1].cmd, ran[|ran| - 1].argstr))
    decreases |cmds|
  {
    var first := Cmd(t, env, cmds[0]);
    if first.status.Success? {
      ExecutedCons(env, cmds);
      RunCmdsError(first.t, env, cmds[1..]);
    }
  }

  /** Each executed command assigns its name in the record, in order. */
  lemma {:induction false} RunCmdsKeys(t: Toolchain, env: Env, cmds: seq<Invocation>)
    requires t.config.Some?
    ensures Keys(RunCmds(t, env, cmds).t.runtimes) == AddKeys(Keys(t.runtimes), Names(Executed(env, cmds)))
    decreases |cmds|
  {
    if cmds != [] {
      var first := Cmd(t, env, cmds[0]);
      CmdRecords(t, env, cmds[0]);
      if first.status.Success? {
        ExecutedCons(env, cmds);
        RunCmdsKeys(first.t, env, cmds[1..]);
        var rest := Executed(env, cmds[1..]);
        NamesCons(cmds[0], rest);
        AddKeysCons(Keys(t.runtimes), cmds[0].cmd, Names(rest));
      } else {
        assert Executed(env, cmds) == [cmds[0]] + [];
        NamesCons(cmds[0], []);
        AddKeysCons(Keys(t.runtimes), cmds[0].cmd, []);
      }
    }
  }

  /** A command that has run keeps its recorded duration through the rest of
      a fail-fast run unless a later command has the same name. */
  lemma {:induction false} RunCmdsLookup(t: Toolchain, env: Env, cmds: seq<Invocation>, k: string)
    requires t.config.Some?
    requires k !in Names(Executed(env, cmds))
    ensures Lookup(RunCmds(t, env, cmds).t.runtimes, k) == Lookup(t.runtimes, k)
    decreases |cmds|
  {
    if cmds != [] {
      var first := Cmd(t, env, cmds[0]);
      CmdRecords(t, env, cmds[0]);
      assert Executed(env, cmds)[0] == cmds[0];
      if first.status.Success? {
        ExecutedCons(env, cmds);
        NamesCons(cmds[0], Executed(env, cmds[1..]));
        RunCmdsLookup(first.t, env, cmds[1..], k);
      }
    }
  }

  // ---------------------------------------------------------------------------
  // The two `run` methods

  /** A `run` method: the stages inside `with Timed(self, 'bit-all')`, then the
      stages after it. */
  datatype Plan = Plan(inner: seq<Invocation>, after: seq<Invocation>)

  /** `yosys -p '<script>' <srcs joined by spaces>`. Splitting what follows the
      quoted script at single spaces gives back the sources as long as none of
      them holds a space. */
  function Yosys(script: string, srcs: seq<string>): (inv: Invocation)
    ensures inv.cmd == "yosys"
    ensures StartsWith(inv.argstr, "-p '" + script + "' ")
    ensures srcs != [] && (forall i :: 0 <= i < |srcs| ==> ' ' !in srcs[i]) ==>
      Split(inv.argstr[|script| + 6..], ' ') == srcs
  {
    var head := "-p '" + script + "' ";
    var arg := head + JoinWith(srcs, " ");
    assert |head| == |script| + 6 && arg[|head|..] == JoinWith(srcs, " ");
    assert srcs != [] && (forall i :: 0 <= i < |srcs| ==> ' ' !in srcs[i]) ==>
      Split(JoinWith(srcs, " "), ' ') == srcs by {
      if srcs != [] && (forall i :: 0 <= i < |srcs| ==> ' ' !in srcs[i]) {
        assert [' '] == " ";
        SplitJoin(srcs, ' ');
      }
    }
    Invocation("yosys", arg)
  }

  /** `inv` is the `yosys` stage that synthesizes the design with top module
      `top` from the files `srcs`. */
  ghost predicate Synthesizes(inv: Invocation, top: string, srcs: seq<string>) {
    exists script :: inv == Yosys(script, srcs) && StartsWith(script, "synth_ice40 -top " + top + " ")
  }

  const Icetime := Invocation("icetime", "-tmd hx8k my.asc")

  /** `Arachne.run`: synthesis of the project's sources, placement and
      routing, bitstream packing, then the timing analysis. */
  function ArachnePlan(c: Config): (p: Plan)
    ensures Names(p.inner) == ArachneInner && p.after == [Icetime]
    ensures Synthesizes(p.inner[0], c.top, c.srcs)
  {
    var script := "synth_ice40 -top " + c.top + " -blif my.blif";
    assert script == "synth_ice40 -top " + c.top + " " + "-blif my.blif";
    var p := Plan([ Yosys(script, c.srcs),
           Invocation("arachne-pnr", "-d 8k -P cm81 -o my.asc my.blif"),
           Invocation("icepack", "my.asc my.bin") ],
         [ Icetime ]);
    assert p.inner[1].cmd == "arachne-pnr" && p.inner[2].cmd == "icepack";
    p
  }

  /** `VPR.run`, with the architecture and routing-graph files of the
      architecture build directory. */
  function VprPlan(sfadBuild: string, c: Config): (p: Plan)
    ensures Names(p.inner) == VprInner && p.after == [Icetime]
    ensures Synthesizes(p.inner[0], c.top, c.srcs)
    ensures StartsWith(p.inner[1].argstr, sfadBuild + "/arch.xml ")
    ensures Contains(p.inner[1].argstr, "--read_rr_graph " + sfadBuild + "/rr_graph.real.xml ")
  {
    var archXml := sfadBuild + "/arch.xml";
    var script := "synth_ice40 -top " + c.top + " " + VprScriptTail;
    var head := archXml + " " + VprArgsMiddle;
    var graphArg := "--read_rr_graph " + sfadBuild + "/rr_graph.real.xml ";
    var vprArgs := head + graphArg + VprArgsTail;
    assert vprArgs[..|archXml| + 1] == archXml + " ";
    assert Contains(vprArgs, graphArg) by {
      assert vprArgs[|head|..|head| + |graphArg|] == graphArg;
      assert OccursAt(vprArgs, graphArg, |head|);
    }
    var p := Plan([ Yosys(script, c.srcs),
           Invocation("vpr", vprArgs),
           Invocation("icebox_hlc2asc.py", "top.hlc > my.asc"),
           Invocation("icepack", "my.asc my.bin") ],
         [ Icetime ]);
    assert p.inner[1].cmd == "vpr" && p.inner[2].cmd == "icebox_hlc2asc.py" && p.inner[3].cmd == "icepack";
    p
  }

  /** The pieces of the `VPR.run` command lines that do not depend on the
      project, kept apart so each literal stays short for the verifier. */
  const VprScriptTail := "-nocarry; ice40_opt -unlut; abc -lut 4; opt_clean; write_blif -attr -cname -param my.eblif"
  const VprArgsMiddle := "my.eblif --device hx8k-cm81 --min_route_chan_width_hint 100 --route_chan_width 100 "
  const VprArgsTail := "--debug_clustering on --pack --place --route"

  /** The plan of the toolchain's own `run`. */
  function PlanOf(v: Variant, c: Config): Plan
  {
    match v
    case Arachne => ArachnePlan(c)
    case Vpr(sfad) => VprPlan(sfad, c)
  }

  /** The stages of the plan that execute: the inner ones up to the first
      failure, and the later ones only if all inner ones succeeded. */
  function ExecutedAfter(env: Env, p: Plan): seq<Invocation>
  {
    if AllOk(env, p.inner) then Executed(env, p.after) else []
  }

  /** `run()`: the inner stages inside `Timed(self, 'bit-all')`, whose
      `__exit__` records `bit-all` after them even when one of them raised;
      the later stages run only when no inner stage failed. */
  function RunPlan(t: Toolchain, env: Env, p: Plan): (o: Outcome)
    requires t.config.Some?
    ensures o.t.trace == t.trace + Executed(env, p.inner) + ExecutedAfter(env, p)
    ensures Keys(o.t.runtimes) ==
      AddKeys(Keys(t.runtimes), Names(Executed(env, p.inner)) + [BitAll] + Names(ExecutedAfter(env, p)))
    ensures o.t.config == t.config && o.t.verbose == t.verbose && o.t.variant == t.variant
    ensures o.status.Success? <==> AllOk(env, p.inner) && AllOk(env, p.after)
  {
    var inside := RunCmds(t, env, p.inner);
    RunCmdsKeys(t, env, p.inner);
    var t1 := inside.t.(runtimes := AddRuntime(inside.t.runtimes, BitAll, env.elapsed(BitAll)));
    var before := Names(Executed(env, p.inner));
    AddKeysAppend(Keys(t.runtimes), before, [BitAll]);
    if inside.status.Failure? then
      assert before + [BitAll] + [] == before + [BitAll];
      Outcome(t1, inside.status)
    else
      var o := RunCmds(t1, env, p.after);
      RunCmdsKeys(t1, env, p.after);
      AddKeysAppend(Keys(t.runtimes), before + [BitAll], Names(Executed(env, p.after)));
      o
  }

  /** `bit-all` holds the time of the wrapping span once `run` returns or
      raises, unless a later stage is also called `bit-all`. */
  lemma RunPlanRecordsBitAll(t: Toolchain, env: Env, p: Plan)
    requires t.config.Some?
    requires BitAll !in Names(p.after)
    ensures Lookup(RunPlan(t, env, p).t.runtimes, BitAll) == Some(env.elapsed(BitAll))
  {
    var inside := RunCmds(t, env, p.inner);
    var t1 := inside.t.(runtimes := AddRuntime(inside.t.runtimes, BitAll, env.elapsed(BitAll)));
    if inside.status.Success? {
      var ran := Executed(env, p.after);
      assert BitAll !in Names(ran) by {
        assert forall i :: 0 <= i < |ran| ==> ran[i] == p.after[i];
      }
      RunCmdsLookup(t1, env, p.after, BitAll);
    }
  }

  /** No name occurs twice. */
  predicate Distinct(ns: seq<string>) {
    forall i, j :: 0 <= i < j < |ns| ==> ns[i] != ns[j]
  }

  lemma NamesAppend(xs: seq<Invocation>, ys: seq<Invocation>)
    ensures Names(xs + ys) == Names(xs) + Names(ys)
  {
  }

  lemma NamesPrefix(cmds: seq<Invocation>, n: nat)
    requires n <= |cmds|
    ensures Names(cmds[..n]) == Names(cmds)[..n]
  {
  }

  /** Prefixes of two lists of distinct names, with a fresh name between them,
      are distinct and avoid every other fresh name. */
  lemma PrefixesFresh(a: seq<string>, b: seq<string>, n: nat, m: nat, x: string, y: string)
    requires n <= |a| && m <= |b|
    requires Distinct(a + b) && x !in a + b && y !in a + b && x != y
    ensures Distinct(a[..n] + [x] + b[..m])
    ensures forall i :: 0 <= i < |a[..n] + [x] + b[..m]| ==> (a[..n] + [x] + b[..m])[i] !in [y]
  {
    var ns := a[..n] + [x] + b[..m];
    assert forall i :: 0 <= i < n ==> ns[i] == (a + b)[i];
    assert ns[n] == x;
    assert forall i :: n < i < |ns| ==> ns[i] == (a + b)[|a| + i - n - 1];
    forall i | 0 <= i < |ns|
      ensures ns[i] != y
    {
      if i < n {
        assert (a + b)[i] in a + b;
      } else if i > n {
        assert (a + b)[|a| + i - n - 1] in a + b;
      }
    }
    forall i, j | 0 <= i < j < |ns|
      ensures ns[i] != ns[j]
    {
      if j < n {
      } else if j == n {
        assert (a + b)[i] in a + b;
      } else if i < n {
      } else if i == n {
        assert (a + b)[|a| + j - n - 1] in a + b;
      }
    }
  }

  /** `run` on a freshly created toolchain: the record's keys are `nop`, the
      inner stages that ran, `bit-all`, and the later stages that ran — in
      that order, whether or not some stage failed. */
  lemma FreshRunKeys(t: Toolchain, env: Env, p: Plan)
    requires t.config.Some? && Keys(t.runtimes) == [Nop]
    requires Distinct(Names(p.inner + p.after))
    requires Nop !in Names(p.inner + p.after) && BitAll !in Names(p.inner + p.after)
    ensures Keys(RunPlan(t, env, p).t.runtimes) ==
      [Nop] + Names(Executed(env, p.inner)) + [BitAll] + Names(ExecutedAfter(env, p))
  {
    var ranIn, ranAfter := Executed(env, p.inner), ExecutedAfter(env, p);
    NamesAppend(p.inner, p.after);
    NamesPrefix(p.inner, |ranIn|);
    assert ranAfter == p.after[..|ranAfter|];
    NamesPrefix(p.after, |ranAfter|);
    PrefixesFresh(Names(p.inner), Names(p.after), |ranIn|, |ranAfter|, BitAll, Nop);
    var names := Names(ranIn) + [BitAll] + Names(ranAfter);
    AddKeysFresh([Nop], names);
  }

  /** The stage names of `Arachne.run`, inside and after `bit-all`. */
  const ArachneInner: seq<string> := ["yosys", "arachne-pnr", "icepack"]
  /** The stage names of `VPR.run`, inside and after `bit-all`. */
  const VprInner: seq<string> := ["yosys", "vpr", "icebox_hlc2asc.py", "icepack"]

  lemma StageNamesFresh(inner: seq<string>)
    requires inner == ArachneInner || inner == VprInner
    ensures Distinct(inner + ["icetime"])
    ensures Nop !in inner + ["icetime"] && BitAll !in inner + ["icetime"]
  {
    assert "icetime"[3] != "icepack"[3];
  }

  lemma PlanNames(v: Variant, c: Config)
    ensures Names(PlanOf(v, c).inner) == (if v.Arachne? then ArachneInner else VprInner)
    ensures PlanOf(v, c).after == [Icetime]
  {
  }

  /** `run` of a plan whose only later stage is `icetime`, on a fresh
      toolchain: `nop`, the inner stages up to the first failure, `bit-all`,
      and `icetime` only when every inner stage succeeded. */
  lemma IcetimePlanKeys(t: Toolchain, env: Env, p: Plan, inner: seq<string>)
    requires t.config.Some? && Keys(t.runtimes) == [Nop]
    requires Names(p.inner) == inner && inner != [] && p.after == [Icetime]
    requires Distinct(inner + ["icetime"]) && Nop !in inner + ["icetime"] && BitAll !in inner + ["icetime"]
    ensures var n := |Executed(env, p.inner)|;
      && 1 <= n <= |inner|
      && Keys(RunPlan(t, env, p).t.runtimes) ==
           [Nop] + inner[..n] + [BitAll] + (if AllOk(env, p.inner) then ["icetime"] else [])
  {
    NamesAppend(p.inner, p.after);
    assert Names(p.after) == ["icetime"];
    FreshRunKeys(t, env, p);
    var ranIn := Executed(env, p.inner);
    NamesPrefix(p.inner, |ranIn|);
    if AllOk(env, p.inner) {
      assert Executed(env, p.after) == [Icetime];
    }
  }

  /** The key order of `Arachne.run` on a fresh toolchain: `nop`, the stages
      up to the first failure, `bit-all`, and `icetime` only on success. */
  lemma ArachneRunKeys(t: Toolchain, env: Env, c: Config)
    requires t.config == Some(c) && Keys(t.runtimes) == [Nop]
    ensures var p := ArachnePlan(c);
      var n := |Executed(env, p.inner)|;
      && 1 <= n <= |ArachneInner|
      && Keys(RunPlan(t, env, p).t.runtimes) ==
           [Nop] + ArachneInner[..n] + [BitAll] + (if AllOk(env, p.inner) then ["icetime"] else [])
  {
    StageNamesFresh(ArachneInner);
    IcetimePlanKeys(t, env, ArachnePlan(c), ArachneInner);
  }

  /** The key order of `VPR.run` on a fresh toolchain, as for Arachne. */
  lemma VprRunKeys(t: Toolchain, env: Env, sfad: string, c: Config)
    requires t.config == Some(c) && Keys(t.runtimes) == [Nop]
    ensures var p := VprPlan(sfad, c);
      var n := |Executed(env, p.inner)|;
      && 1 <= n <= |VprInner|
      && Keys(RunPlan(t, env, p).t.runtimes) ==
           [Nop] + VprInner[..n] + [BitAll] + (if AllOk(env, p.inner) then ["icetime"] else [])
  {
    StageNamesFresh(VprInner);
    IcetimePlanKeys(t, env, VprPlan(sfad, c), VprInner);
  }

  /** A successful `run` of such a plan records every stage. */
  lemma IcetimePlanKeysOnSuccess(t: Toolchain, env: Env, p: Plan, inner: seq<string>)
    requires t.config.Some? && Keys(t.runtimes) == [Nop]
    requires Names(p.inner) == inner && inner != [] && p.after == [Icetime]
    requires Distinct(inner + ["icetime"]) && Nop !in inner + ["icetime"] && BitAll !in inner + ["icetime"]
    requires RunPlan(t, env, p).status.Success?
    ensures Keys(RunPlan(t, env, p).t.runtimes) == [Nop] + inner + [BitAll, "icetime"]
  {
    IcetimePlanKeys(t, env, p, inner);
    var o := RunPlan(t, env, p);
    assert AllOk(env, p.inner);
    ExecutedAllOk(env, p.inner);
    assert inner[..|inner|] == inner;
  }

  /** When every command succeeds, every command runs. */
  lemma ExecutedAllOk(env: Env, cmds: seq<Invocation>)
    requires AllOk(env, cmds)
    ensures Executed(env, cmds) == cmds
  {
    assert cmds[..|cmds|] == cmds;
    RanFailFastUnique(env, cmds, cmds);
  }

  /** A successful `Arachne.run` on a fresh toolchain leaves the keys
      `nop, yosys, arachne-pnr, icepack, bit-all, icetime`. */
  lemma ArachneRunKeysOnSuccess(t: Toolchain, env: Env, c: Config)
    requires t.config == Some(c) && Keys(t.runtimes) == [Nop]
    requires RunPlan(t, env, ArachnePlan(c)).status.Success?
    ensures Keys(RunPlan(t, env, ArachnePlan(c)).t.runtimes) ==
      ["nop", "yosys", "arachne-pnr", "icepack", "bit-all", "icetime"]
  {
    ArachneSuccessKeys(t, env, c);
    StageKeyLists();
  }

  lemma ArachneSuccessKeys(t: Toolchain, env: Env, c: Config)
    requires t.config == Some(c) && Keys(t.runtimes) == [Nop]
    requires RunPlan(t, env, ArachnePlan(c)).status.Success?
    ensures Keys(RunPlan(t, env, ArachnePlan(c)).t.runtimes) == [Nop] + ArachneInner + [BitAll, "icetime"]
  {
    StageNamesFresh(ArachneInner);
    IcetimePlanKeysOnSuccess(t, env, ArachnePlan(c), ArachneInner);
  }

  lemma StageKeyLists()
    ensures [Nop] + ArachneInner + [BitAll, "icetime"] ==
      ["nop", "yosys", "arachne-pnr", "icepack", "bit-all", "icetime"]
    ensures [Nop] + VprInner + [BitAll, "icetime"] ==
      ["nop", "yosys", "vpr", "icebox_hlc2asc.py", "icepack", "bit-all", "icetime"]
  {
  }

  /** A successful `VPR.run` on a fresh toolchain leaves the keys
      `nop, yosys, vpr, icebox_hlc2asc.py, icepack, bit-all, icetime`. */
  lemma VprRunKeysOnSuccess(t: Toolchain, env: Env, sfad: string, c: Config)
    requires t.config == Some(c) && Keys(t.runtimes) == [Nop]
    requires RunPlan(t, env, VprPlan(sfad, c)).status.Success?
    ensures Keys(RunPlan(t, env, VprPlan(sfad, c)).t.runtimes) ==
      ["nop", "yosys", "vpr", "icebox_hlc2asc.py", "icepack", "bit-all", "icetime"]
  {
    VprSuccessKeys(t, env, sfad, c);
    StageKeyLists();
  }

  lemma VprSuccessKeys(t: Toolchain, env: Env, sfad: string, c: Config)
    requires t.config == Some(c) && Keys(t.runtimes) == [Nop]
    requires RunPlan(t, env, VprPlan(sfad, c)).status.Success?
    ensures Keys(RunPlan(t, env, VprPlan(sfad, c)).t.runtimes) == [Nop] + VprInner + [BitAll, "icetime"]
  {
    StageNamesFresh(VprInner);
    IcetimePlanKeysOnSuccess(t, env, VprPlan(sfad, c), VprInner);
  }

  /** After a successful `run` whose last stage is `icetime`, the `icetime`
      report holds what `cmd` wrote for it. */
  lemma RunPlanIcetimeLog(t: Toolchain, env: Env, p: Plan)
    requires t.config.Some? && p.after == [Icetime]
    requires RunPlan(t, env, p).status.Success?
    ensures var logs := RunPlan(t, env, p).t.logs;
      var path := LogPath(t.config.value.outDir, Icetime.cmd);
      path in logs && logs[path] == LogContents(t.verbose, Icetime, env.output(Icetime))
  {
    var inside := RunCmds(t, env, p.inner);
    var t1 := inside.t.(runtimes := AddRuntime(inside.t.runtimes, BitAll, env.elapsed(BitAll)));
    CmdRecords(t1, env, Icetime);
    var first := Cmd(t1, env, Icetime);
    assert RunCmds(t1, env, [Icetime]).t == first.t by {
      assert [Icetime][1..] == [];
    }
  }
}
