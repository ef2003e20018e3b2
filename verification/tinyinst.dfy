/** The Rust session of tinyinst.rs: `TinyInst::new`, `run` and the
    extract-then-ignore protocol of `vec_coverage`, over the abstract
    engine of `AflCov`. The bridge methods of the C++ shim are not part
    of this model; each is represented by the effect stated where it is
    used. */
module TinyInst {
  import opened Wrappers
  import opened BoundedInts
  import opened ModuleNames
  import opened OrderedSets
  import Cov = Coverage
  import opened AflCov
  import opened Marshal

  /** `litecov::RunResult`, a `#[repr(u32)]` enumeration of four
      outcomes. */
  datatype RunResult = Ok | Crash | Hang | OtherError

  /** The `u32` the bridge passes for an outcome: declaration order. */
  function Repr(r: RunResult): (n: uint32)
    ensures n < 4
  {
    match r
    case Ok => 0
    case Crash => 1
    case Hang => 2
    case OtherError => 3
  }

  /** The outcome a `u32` stands for; any other value names none of the
      four. */
  function FromRepr(n: uint32): (r: Option<RunResult>)
    ensures r.Some? <==> n < 4
  {
    if n == 0 then Some(Ok)
    else if n == 1 then Some(Crash)
    else if n == 2 then Some(Hang)
    else if n == 3 then Some(OtherError)
    else None
  }

  lemma ReprRoundTrip(r: RunResult)
    ensures FromRepr(Repr(r)) == Some(r)
  {
  }

  lemma FromReprRoundTrip(n: uint32)
    ensures FromRepr(n).Some? ==> Repr(FromRepr(n).value) == n
  {
  }

  /** Why `new` or `run` panics. */
  datatype Panic =
    | TinyInstArgNul(index: nat)
    | ProgramArgNul(index: nat)
    | ArgcOverflow(count: nat)

  /** The arguments of the bridge's `Init` call. */
  datatype InitCall = InitCall(argc: int32, argv: ArgVector)

  /** The arguments of the bridge's `Run` call. */
  datatype RunCall = RunCall(argc: int32, argv: ArgVector, initTimeout: uint32, timeout: uint32)

  /** The `TinyInst` struct: the engine (its instrumented modules), the
      `Init` call it received, the stored program arguments, the
      persistent coverage buffer behind `coverage_ptr`, and the timeout. */
  datatype Session = Session(
    engine: Engine,
    init: InitCall,
    programArgs: ArgVector,
    buffer: Cov.VecCoverage,
    timeout: uint32)

  /** An engine before any run: the modules to instrument, nothing
      loaded, collected or ignored. */
  function FreshEngine(modules: seq<Name>): (r: Engine)
    ensures |r| == |modules|
    ensures forall j | 0 <= j < |r| :: r[j] == EngineModule(modules[j], false, {}, {}, {})
  {
    seq(|modules|, j requires 0 <= j < |modules| => EngineModule(modules[j], false, {}, {}, {}))
  }

  /** `TinyInst::new(tinyinst_args, program_args, timeout)`; `modules`
      stands for the modules the engine's options select. The tinyinst
      arguments are marshalled and counted before `Init`, and the program
      arguments after it, so the panics come in that order. */
  function New(tinyinstArgs: seq<Arg>, programArgs: seq<Arg>, timeout: uint32, modules: seq<Name>): (r: Result<Session, Panic>)
    ensures r.Success? ==>
              && r.value.init.argc as int == |tinyinstArgs|
              && ReadArgv(r.value.init.argv) == tinyinstArgs
              && ReadArgv(r.value.programArgs) == programArgs
              && |r.value.programArgs.cstrings| == |programArgs|
              && r.value.timeout == timeout
              && r.value.buffer == []
              && r.value.engine == FreshEngine(modules)
  {
    match MarshalArgs(tinyinstArgs)
    case Failure(i) => Failure(TinyInstArgNul(i))
    case Success(tinyinstArgv) =>
      MarshalRoundTrip(tinyinstArgs);
      match Argc(|tinyinstArgs|)
      case None => Failure(ArgcOverflow(|tinyinstArgs|))
      case Some(argc) =>
        match MarshalArgs(programArgs)
        case Failure(i) => Failure(ProgramArgNul(i))
        case Success(programArgv) =>
          MarshalRoundTrip(programArgs);
          Success(Session(FreshEngine(modules), InitCall(argc, tinyinstArgv), programArgv, [], timeout))
  }

  predicate NulFree(args: seq<Arg>) {
    forall i | 0 <= i < |args| :: NUL_BYTE !in args[i]
  }

  /** When construction panics, and with what. */
  lemma NewPanics(tinyinstArgs: seq<Arg>, programArgs: seq<Arg>, timeout: uint32, modules: seq<Name>)
    ensures var r := New(tinyinstArgs, programArgs, timeout, modules);
      && (r.Success? <==> NulFree(tinyinstArgs) && |tinyinstArgs| < TWO_TO_THE_31 && NulFree(programArgs))
      && (r.Failure? && r.error.TinyInstArgNul? ==>
            r.error.index < |tinyinstArgs| && NUL_BYTE in tinyinstArgs[r.error.index])
      && (r.Failure? && r.error.ArgcOverflow? ==> NulFree(tinyinstArgs) && r.error.count == |tinyinstArgs| >= TWO_TO_THE_31)
      && (r.Failure? && r.error.ProgramArgNul? ==>
            && NulFree(tinyinstArgs) && |tinyinstArgs| < TWO_TO_THE_31
            && r.error.index < |programArgs| && NUL_BYTE in programArgs[r.error.index])
  {
    MarshalArgsFails(tinyinstArgs);
    MarshalArgsFails(programArgs);
  }

  // ---------------------------------------------------------------------
  // run

  /** The offsets a run reaches in engine module `j`. */
  function HitsAt(hits: seq<set<uint64>>, j: nat): set<uint64> {
    if j < |hits| then hits[j] else {}
  }

  /** The engine's effect of one run, taken as: every module is loaded
      and instrumented, and the offsets reached that are not ignored
      (ignored offsets carry no instrumentation) join its collected
      coverage. */
  function RunEngine(engine: Engine, hits: seq<set<uint64>>): (r: Engine)
    ensures SameModules(engine, r)
  {
    seq(|engine|, j requires 0 <= j < |engine| =>
      engine[j].(instrumented := true, collected := engine[j].collected + (HitsAt(hits, j) - engine[j].ignored)))
  }

  /** `TinyInst::run`: the bridge's `Run` with the stored program
      arguments, their count, and the one timeout as both bounds; the
      outcome is the engine's. Panics when the count does not fit an
      `i32`. */
  function Run(s: Session, hits: seq<set<uint64>>, outcome: RunResult): (r: Result<(Session, RunCall, RunResult), Panic>)
    ensures r.Success? <==> |s.programArgs.cstrings| < TWO_TO_THE_31
    ensures r.Failure? ==> r.error == ArgcOverflow(|s.programArgs.cstrings|)
    ensures r.Success? ==>
              var (s', call, result) := r.value;
              && call.argc as int == |s.programArgs.cstrings|
              && call.argv == s.programArgs
              && call.initTimeout == call.timeout == s.timeout
              && result == outcome
              && s' == s.(engine := s'.engine)
              && SameModules(s.engine, s'.engine)
  {
    match Argc(|s.programArgs.cstrings|)
    case None => Failure(ArgcOverflow(|s.programArgs.cstrings|))
    case Some(argc) =>
      var call := RunCall(argc, s.programArgs, s.timeout, s.timeout);
      Success((s.(engine := RunEngine(s.engine, hits)), call, outcome))
  }

  // ---------------------------------------------------------------------
  // vec_coverage

  /** The locations the bridge's `GetCoverage` appends to `afl_coverage`:
      each collected offset, module by module in engine order, offsets
      ascending. */
  function Report(engine: Engine): seq<Cov.Location>
    decreases |engine|
  {
    if engine == [] then []
    else Report(engine[..|engine| - 1]) + ModuleReport(engine[|engine| - 1])
  }

  function ModuleReport(m: EngineModule): seq<Cov.Location> {
    var xs := Ascending(m.collected);
    seq(|xs|, i requires 0 <= i < |xs| => Cov.Location(m.moduleName, xs[i]))
  }

  /** Module `m` has collected location `l`. */
  predicate Collects(m: EngineModule, l: Cov.Location) {
    m.moduleName == l.moduleName && l.offset in m.collected
  }

  lemma ModuleReportMembers(m: EngineModule, l: Cov.Location)
    ensures l in ModuleReport(m) <==> Collects(m, l)
  {
    var xs := Ascending(m.collected);
    var ls := ModuleReport(m);
    if l in ls {
      var i :| 0 <= i < |ls| && ls[i] == l;
      assert xs[i] in xs;
    }
    if Collects(m, l) {
      var i :| 0 <= i < |xs| && xs[i] == l.offset;
      assert ls[i] == l;
    }
  }

  /** Appending the report `b` of module `last` to the report `a` of `front`. */
  lemma ReportStep(front: Engine, last: EngineModule, l: Cov.Location, a: seq<Cov.Location>, b: seq<Cov.Location>)
    requires l in a <==> exists j | 0 <= j < |front| :: Collects(front[j], l)
    requires l in b <==> Collects(last, l)
    ensures l in a + b <==> exists j | 0 <= j < |front + [last]| :: Collects((front + [last])[j], l)
  {
    var engine := front + [last];
    if exists j | 0 <= j < |engine| :: Collects(engine[j], l) {
      var j :| 0 <= j < |engine| && Collects(engine[j], l);
      if j < |front| {
        assert engine[j] == front[j];
      }
    }
    if l in a {
      var j :| 0 <= j < |front| && Collects(front[j], l);
      assert engine[j] == front[j];
    }
    if l in b {
      assert engine[|front|] == last;
    }
  }

  /** A location is reported exactly when some module of that name has
      collected its offset. */
  lemma {:induction false} ReportMembers(engine: Engine, l: Cov.Location)
    ensures l in Report(engine) <==> exists j | 0 <= j < |engine| :: Collects(engine[j], l)
    decreases |engine|
  {
    if engine != [] {
      var front := engine[..|engine| - 1];
      var last := engine[|engine| - 1];
      assert front + [last] == engine;
      assert l in Report(front) + ModuleReport(last) <==>
             exists j | 0 <= j < |front + [last]| :: Collects((front + [last])[j], l) by {
        ReportMembers(front, l);
        ModuleReportMembers(last, l);
        ReportStep(front, last, l, Report(front), ModuleReport(last));
      }
    }
  }

  /** `vec_coverage(afl_coverage, clear_coverage)`: the caller's vector
      is emptied, the bridge's `GetCoverage` runs `AFLCov::GetCoverage`
      on the persistent buffer and appends this call's locations, and
      `ignore_coverage` then hands the whole buffer to `IgnoreCoverage`. */
  function VecCoverage(s: Session, aflCoverage: seq<Cov.Location>, clearCoverage: bool): (r: (Session, seq<Cov.Location>))
    ensures r.0.init == s.init && r.0.programArgs == s.programArgs && r.0.timeout == s.timeout
    ensures SameModules(s.engine, r.0.engine)
  {
    var cleared: seq<Cov.Location> := [];
    var (engine', buffer') := GetCoverage(s.engine, s.buffer, clearCoverage);
    var reported := cleared + Report(s.engine);
    (IgnoreCoverageOf(s.(engine := engine', buffer := buffer')), reported)
  }

  /** `ignore_coverage`: the buffer's contents go to `IgnoreCoverage`. */
  function IgnoreCoverageOf(s: Session): (r: Session)
    ensures r == s.(engine := r.engine)
    ensures SameModules(s.engine, r.engine)
  {
    s.(engine := IgnoreCoverage(s.engine, s.buffer))
  }

  /** The caller's old vector never shows through: the result is the
      same whatever it held. */
  lemma VecCoverageDiscardsOldContents(s: Session, a: seq<Cov.Location>, b: seq<Cov.Location>, clearCoverage: bool)
    ensures VecCoverage(s, a, clearCoverage) == VecCoverage(s, b, clearCoverage)
  {
  }

  /** The locations reported are exactly those collected since the last
      clear. */
  lemma VecCoverageReports(s: Session, a: seq<Cov.Location>, clearCoverage: bool, l: Cov.Location)
    ensures l in VecCoverage(s, a, clearCoverage).1 <==> exists j | 0 <= j < |s.engine| :: Collects(s.engine[j], l)
  {
    ReportMembers(s.engine, l);
  }

  // ---------------------------------------------------------------------
  // The protocol

  /** `l` is ignored by the module of its name. */
  predicate Suppressed(engine: Engine, l: Cov.Location) {
    exists j | 0 <= j < |engine| :: engine[j].moduleName == l.moduleName && l.offset in engine[j].ignored
  }

  /** What the protocol keeps: module names are distinct, no module has
      collected an offset it ignores, and everything reported so far is
      suppressed. */
  predicate Invariant(s: Session, seen: set<Cov.Location>) {
    && EngineDistinct(s.engine)
    && (forall j | 0 <= j < |s.engine| :: s.engine[j].collected !! s.engine[j].ignored)
    && (forall l | l in seen :: Suppressed(s.engine, l))
  }

  /** Under the invariant nothing reported earlier is reported again. */
  lemma FreshReport(s: Session, seen: set<Cov.Location>, l: Cov.Location)
    requires Invariant(s, seen) && l in seen
    ensures l !in Report(s.engine)
  {
    ReportMembers(s.engine, l);
    if l in Report(s.engine) {
      var j :| 0 <= j < |s.engine| && Collects(s.engine[j], l);
      var k :| 0 <= k < |s.engine| && s.engine[k].moduleName == l.moduleName && l.offset in s.engine[k].ignored;
      assert SameModule(s.engine[j].moduleName, s.engine[k].moduleName);
    }
  }

  lemma SuppressedKept(engine: Engine, engine': Engine, l: Cov.Location)
    requires SameModules(engine, engine')
    requires forall j | 0 <= j < |engine| :: engine[j].ignored <= engine'[j].ignored
    requires Suppressed(engine, l)
    ensures Suppressed(engine', l)
  {
    var j :| 0 <= j < |engine| && engine[j].moduleName == l.moduleName && l.offset in engine[j].ignored;
    assert engine'[j].moduleName == l.moduleName && l.offset in engine'[j].ignored;
  }

  /** A run keeps the invariant: it adds only offsets not ignored. */
  lemma RunKeepsInvariant(s: Session, seen: set<Cov.Location>, hits: seq<set<uint64>>, outcome: RunResult)
    requires Invariant(s, seen) && Run(s, hits, outcome).Success?
    ensures Invariant(Run(s, hits, outcome).value.0, seen)
  {
    var s' := Run(s, hits, outcome).value.0;
    assert s'.engine == RunEngine(s.engine, hits);
    forall l | l in seen
      ensures Suppressed(s'.engine, l)
    {
      SuppressedKept(s.engine, s'.engine, l);
    }
  }

  /** What a collection with `clear_coverage` set does to each module
      of an engine without repeated names: its collected coverage is
      emptied and all of it joins the ignored offsets. */
  lemma CollectClearsAndIgnores(s: Session, j: int)
    requires EngineDistinct(s.engine) && 0 <= j < |s.engine|
    ensures var e := VecCoverage(s, [], true).0.engine;
      && e[j].collected == {}
      && s.engine[j].ignored + s.engine[j].collected <= e[j].ignored
  {
    var (engine1, buffer1) := GetCoverage(s.engine, s.buffer, true);
    assert VecCoverage(s, [], true).0.engine == IgnoreCoverage(engine1, buffer1);
    assert EngineDistinct(engine1) by {
      assert forall k | 0 <= k < |engine1| :: engine1[k].moduleName == s.engine[k].moduleName;
    }
    IgnoreCoverageDistinct(engine1, buffer1, j);
    var name := s.engine[j].moduleName;
    GetCoverageLookup(s.engine, s.buffer, true, name);
    Cov.LookupWithinOffsetsNamed(buffer1, name);
    forall o | o in s.engine[j].collected
      ensures o in CollectedNamed(s.engine, name)
    {
      CollectedNamedMembers(s.engine, j, o);
    }
  }

  /** A collection with `clear_coverage` set keeps the invariant and
      suppresses everything it reported. */
  lemma CollectKeepsInvariant(s: Session, seen: set<Cov.Location>)
    requires Invariant(s, seen)
    ensures var (s', out) := VecCoverage(s, [], true);
      Invariant(s', seen + set l | l in out)
  {
    var (s', out) := VecCoverage(s, [], true);
    assert EngineDistinct(s'.engine) by {
      assert forall j | 0 <= j < |s'.engine| :: s'.engine[j].moduleName == s.engine[j].moduleName;
    }
    assert forall j | 0 <= j < |s'.engine| :: s'.engine[j].collected !! s'.engine[j].ignored by {
      forall j | 0 <= j < |s'.engine|
        ensures s'.engine[j].collected == {}
      {
        CollectClearsAndIgnores(s, j);
      }
    }
    assert forall l | l in seen + (set l | l in out) :: Suppressed(s'.engine, l) by {
      forall j | 0 <= j < |s.engine|
        ensures s.engine[j].ignored + s.engine[j].collected <= s'.engine[j].ignored
      {
        CollectClearsAndIgnores(s, j);
      }
      forall l | l in seen + set l | l in out
        ensures Suppressed(s'.engine, l)
      {
        if l in seen {
          SuppressedKept(s.engine, s'.engine, l);
        } else {
          ReportMembers(s.engine, l);
          var j :| 0 <= j < |s.engine| && Collects(s.engine[j], l);
          assert s'.engine[j].moduleName == l.moduleName && l.offset in s'.engine[j].ignored;
        }
      }
    }
  }

  /** Whatever a module collected is among the offsets `GetCoverage`
      merges for its name. */
  lemma {:induction false} CollectedNamedMembers(engine: Engine, j: int, o: uint64)
    requires 0 <= j < |engine| && o in engine[j].collected
    ensures o in CollectedNamed(engine, engine[j].moduleName)
    decreases |engine|
  {
    var front := engine[..|engine| - 1];
    var m := engine[|engine| - 1];
    var t := CollectedEntries(front);
    if j < |front| {
      assert front[j] == engine[j];
      CollectedNamedMembers(front, j, o);
    }
    if m.collected != {} {
      var t' := t + [Cov.ModuleCoverage(m.moduleName, m.collected)];
      assert CollectedEntries(engine) == t';
      assert t'[..|t'| - 1] == t;
    } else {
      assert CollectedEntries(engine) == t;
    }
  }

  /** Once a collection with `clear_coverage` set has run, a second one
      with no run in between reports nothing. */
  lemma SecondCollectReportsNothing(s: Session, a: seq<Cov.Location>, b: seq<Cov.Location>, clearCoverage: bool)
    ensures VecCoverage(VecCoverage(s, a, true).0, b, clearCoverage).1 == []
  {
    var s1 := VecCoverage(s, a, true).0;
    var (engine1, buffer1) := GetCoverage(s.engine, s.buffer, true);
    assert s1.engine == IgnoreCoverage(engine1, buffer1);
    forall j | 0 <= j < |s1.engine|
      ensures s1.engine[j].collected == {}
    {
      IgnoreCoverageEffect(engine1, buffer1, j);
    }
    var out := VecCoverage(s1, b, clearCoverage).1;
    if out != [] {
      VecCoverageReports(s1, b, clearCoverage, out[0]);
    }
  }

  /** Without `clear_coverage` the engine keeps its collected coverage,
      which ignoring does not touch, so a second collection with no run
      in between reports the same locations again. */
  lemma RepeatsWithoutClear(s: Session, a: seq<Cov.Location>, b: seq<Cov.Location>)
    ensures VecCoverage(VecCoverage(s, a, false).0, b, false).1 == VecCoverage(s, a, false).1
  {
    var s1 := VecCoverage(s, a, false).0;
    var (engine1, buffer1) := GetCoverage(s.engine, s.buffer, false);
    assert engine1 == s.engine;
    forall j | 0 <= j < |s.engine|
      ensures s1.engine[j].collected == s.engine[j].collected
    {
      IgnoreCoverageEffect(engine1, buffer1, j);
    }
    assert s1.engine == IgnoreCoverage(engine1, buffer1);
    ReportSameCollected(s.engine, s1.engine);
  }

  lemma {:induction false} ReportSameCollected(engine: Engine, engine': Engine)
    requires SameModules(engine, engine')
    requires forall j | 0 <= j < |engine| :: engine'[j].collected == engine[j].collected
    ensures Report(engine') == Report(engine)
    decreases |engine|
  {
    if engine != [] {
      ReportSameCollected(engine[..|engine| - 1], engine'[..|engine| - 1]);
    }
  }

  // ---------------------------------------------------------------------
  // Sessions over time

  datatype Step = RunStep(hits: seq<set<uint64>>, outcome: RunResult) | CollectStep(clearCoverage: bool)

  /** The session after `steps`, the `Run` calls made and the reports of
      the collections, in order; a panicking run ends the replay. */
  function Replay(s: Session, steps: seq<Step>): (r: (Session, seq<RunCall>, seq<seq<Cov.Location>>))
    ensures r.0.programArgs == s.programArgs && r.0.timeout == s.timeout
    decreases |steps|
  {
    if steps == [] then (s, [], [])
    else
      match steps[0]
      case RunStep(hits, outcome) =>
        (match Run(s, hits, outcome)
         case Failure(_) => (s, [], [])
         case Success((s', call, _)) =>
           var (s'', calls, reports) := Replay(s', steps[1..]);
           (s'', [call] + calls, reports))
      case CollectStep(clearCoverage) =>
        var (s', out) := VecCoverage(s, [], clearCoverage);
        var (s'', calls, reports) := Replay(s', steps[1..]);
        (s'', calls, [out] + reports)
  }

  predicate AlwaysClears(steps: seq<Step>) {
    forall i | 0 <= i < |steps| :: steps[i].CollectStep? ==> steps[i].clearCoverage
  }

  /** Every run of a session passes the program arguments fixed at
      construction, their count and the stored timeout. */
  lemma {:induction false} RunsUseStoredArguments(s: Session, steps: seq<Step>)
    ensures forall c | c in Replay(s, steps).1 ::
              && c.argv == s.programArgs
              && c.argc as int == |s.programArgs.cstrings|
              && c.initTimeout == c.timeout == s.timeout
    decreases |steps|
  {
    if steps != [] {
      match steps[0]
      case RunStep(hits, outcome) =>
        if Run(s, hits, outcome).Success? {
          RunsUseStoredArguments(Run(s, hits, outcome).value.0, steps[1..]);
        }
      case CollectStep(clearCoverage) =>
        RunsUseStoredArguments(VecCoverage(s, [], clearCoverage).0, steps[1..]);
    }
  }

  /** Reports that avoid `seen` and each other. */
  predicate FreshReports(reports: seq<seq<Cov.Location>>, seen: set<Cov.Location>) {
    && (forall i, l | 0 <= i < |reports| && l in reports[i] :: l !in seen)
    && (forall i, k, l | 0 <= i < k < |reports| && l in reports[i] :: l !in reports[k])
  }

  lemma ConsFreshReports(out: seq<Cov.Location>, rest: seq<seq<Cov.Location>>, seen: set<Cov.Location>)
    requires forall l | l in out :: l !in seen
    requires FreshReports(rest, seen + (set l | l in out))
    ensures FreshReports([out] + rest, seen)
  {
    var reports := [out] + rest;
    forall i, k, l | 0 <= i < k < |reports| && l in reports[i]
      ensures l !in reports[k]
    {
      assert reports[k] == rest[k - 1];
      if i > 0 {
        assert reports[i] == rest[i - 1];
      }
    }
    forall i, l | 0 <= i < |reports| && l in reports[i]
      ensures l !in seen
    {
      if i > 0 {
        assert reports[i] == rest[i - 1];
      }
    }
  }

  lemma {:induction false} ReplayFresh(s: Session, seen: set<Cov.Location>, steps: seq<Step>)
    requires Invariant(s, seen) && AlwaysClears(steps)
    ensures FreshReports(Replay(s, steps).2, seen)
    decreases |steps|
  {
    if steps != [] {
      assert AlwaysClears(steps[1..]) by {
        forall i | 0 <= i < |steps[1..]| ensures steps[1..][i] == steps[i + 1] { }
      }
      match steps[0]
      case RunStep(hits, outcome) =>
        if Run(s, hits, outcome).Success? {
          var s' := Run(s, hits, outcome).value.0;
          RunKeepsInvariant(s, seen, hits, outcome);
          ReplayFresh(s', seen, steps[1..]);
          assert Replay(s, steps).2 == Replay(s', steps[1..]).2;
        }
      case CollectStep(clearCoverage) =>
        assert clearCoverage;
        var (s', out) := VecCoverage(s, [], true);
        CollectKeepsInvariant(s, seen);
        ReplayFresh(s', seen + (set l | l in out), steps[1..]);
        assert Replay(s, steps).2 == [out] + Replay(s', steps[1..]).2;
        forall l | l in out
          ensures l !in seen
        {
          if l in seen {
            FreshReport(s, seen, l);
          }
        }
        ConsFreshReports(out, Replay(s', steps[1..]).2, seen);
    }
  }

  /** The promise of `vec_coverage`: in a session whose engine has no
      two modules of one name and whose every collection clears the
      engine's coverage, no location is reported by two collections. */
  lemma NeverReportedTwice(
    tinyinstArgs: seq<Arg>, programArgs: seq<Arg>, timeout: uint32, modules: seq<Name>, steps: seq<Step>)
    requires New(tinyinstArgs, programArgs, timeout, modules).Success?
    requires forall j, k | 0 <= j < k < |modules| :: !SameModule(modules[j], modules[k])
    requires AlwaysClears(steps)
    ensures forall i, k, l |
              && 0 <= i < k < |Replay(New(tinyinstArgs, programArgs, timeout, modules).value, steps).2|
              && l in Replay(New(tinyinstArgs, programArgs, timeout, modules).value, steps).2[i] ::
              l !in Replay(New(tinyinstArgs, programArgs, timeout, modules).value, steps).2[k]
  {
    var s := New(tinyinstArgs, programArgs, timeout, modules).value;
    ReplayFresh(s, {}, steps);
  }
}
