/** `AFLCov::GetCoverage` and `AFLCov::IgnoreCoverage` (aflcov.cpp)
    against an abstract engine. The engine's own code (`CollectCoverage`,
    `ClearCoverage`, `GetModuleByName`, `ClearCoverageInstrumentation`)
    is not part of this model; the engine is its list of instrumented
    modules, each with the per-module data these two methods touch. */
module AflCov {
  import opened Wrappers
  import opened BoundedInts
  import opened ModuleNames
  import opened Coverage
  import opened CoverageMerge

  /** One entry of the engine's `instrumented_modules` with its
      `ModuleCovData`: whether it is currently instrumented, the offsets
      collected since the last clear, the offsets to ignore, and the
      offsets whose instrumentation `IgnoreCoverage` removed. */
  datatype EngineModule = EngineModule(
    moduleName: Name,
    instrumented: bool,
    collected: set<uint64>,
    ignored: set<uint64>,
    uninstrumented: set<uint64>)

  type Engine = seq<EngineModule>

  predicate EngineHasModule(engine: Engine, name: Name) {
    exists j | 0 <= j < |engine| :: SameModule(engine[j].moduleName, name)
  }

  predicate IsFirstModule(engine: Engine, name: Name, j: int) {
    && 0 <= j < |engine|
    && SameModule(engine[j].moduleName, name)
    && forall k | 0 <= k < j :: !SameModule(engine[k].moduleName, name)
  }

  /** No two instrumented modules share a name (under `_stricmp`). */
  predicate EngineDistinct(engine: Engine) {
    forall j, k | 0 <= j < k < |engine| :: !SameModule(engine[j].moduleName, engine[k].moduleName)
  }

  /** Two engine states list the same modules in the same order. */
  predicate SameModules(engine: Engine, engine': Engine) {
    |engine| == |engine'| && forall j | 0 <= j < |engine| :: engine'[j].moduleName == engine[j].moduleName
  }

  /** The engine's `GetModuleByName`, taken to return the first
      instrumented module whose name equals `name` ignoring case. */
  function GetModuleByName(engine: Engine, name: Name): (r: Option<nat>)
    ensures r.Some? ==> IsFirstModule(engine, name, r.value)
    ensures r.None? <==> !EngineHasModule(engine, name)
  {
    FindModuleFrom(engine, name, 0)
  }

  function FindModuleFrom(engine: Engine, name: Name, start: nat): (r: Option<nat>)
    requires start <= |engine|
    requires forall k | 0 <= k < start :: !SameModule(engine[k].moduleName, name)
    ensures r.Some? ==> IsFirstModule(engine, name, r.value)
    ensures r.None? <==> !EngineHasModule(engine, name)
    decreases |engine| - start
  {
    if start == |engine| then None
    else if SameModule(engine[start].moduleName, name) then Some(start)
    else FindModuleFrom(engine, name, start + 1)
  }

  lemma FirstModuleUnique(engine: Engine, name: Name, j: int, k: int)
    requires IsFirstModule(engine, name, j) && IsFirstModule(engine, name, k)
    ensures j == k
  {
  }

  /** The lookup depends only on the module names. */
  lemma GetModuleByNameSameModules(engine: Engine, engine': Engine, name: Name)
    requires SameModules(engine, engine')
    ensures GetModuleByName(engine', name) == GetModuleByName(engine, name)
  {
    var r := GetModuleByName(engine, name);
    var r' := GetModuleByName(engine', name);
    if r.Some? {
      assert IsFirstModule(engine', name, r.value);
      FirstModuleUnique(engine', name, r.value, r'.value);
    }
  }

  /** In an engine without repeated names, each module is the one its
      own name finds. */
  lemma GetModuleByNameDistinct(engine: Engine, j: int)
    requires EngineDistinct(engine) && 0 <= j < |engine|
    ensures GetModuleByName(engine, engine[j].moduleName) == Some(j)
  {
    var name := engine[j].moduleName;
    assert IsFirstModule(engine, name, j) by {
      forall k | 0 <= k < j
        ensures !SameModule(engine[k].moduleName, name)
      {
      }
    }
    FirstModuleUnique(engine, name, j, GetModuleByName(engine, name).value);
  }

  // ---------------------------------------------------------------------
  // GetCoverage

  /** The records the `GetCoverage` loop merges: one per module with
      non-empty collected coverage, in engine order. */
  function CollectedEntries(engine: Engine): (r: VecCoverage)
    ensures |r| <= |engine|
    decreases |engine|
  {
    if engine == [] then []
    else
      var m := engine[|engine| - 1];
      CollectedEntries(engine[..|engine| - 1])
        + (if m.collected == {} then [] else [ModuleCoverage(m.moduleName, m.collected)])
  }

  /** The loop of `GetCoverage` over `instrumented_modules`: a module
      with nothing collected is skipped; otherwise its offsets join the
      first record naming it, or a new record is pushed. */
  function MergeCollected(coverage: VecCoverage, engine: Engine): (r: VecCoverage)
    ensures |coverage| <= |r|
    decreases |engine|
  {
    if engine == [] then coverage
    else
      var c := MergeCollected(coverage, engine[..|engine| - 1]);
      var m := engine[|engine| - 1];
      if m.collected == {} then c else MergeOne(c, ModuleCoverage(m.moduleName, m.collected))
  }

  /** The engine's `ClearCoverage`: every module's collected coverage is
      emptied; nothing else changes. */
  function ClearCoverage(engine: Engine): (r: Engine)
    ensures SameModules(engine, r)
    ensures forall j | 0 <= j < |r| :: r[j] == engine[j].(collected := {})
  {
    seq(|engine|, j requires 0 <= j < |engine| => engine[j].(collected := {}))
  }

  /** `AFLCov::GetCoverage(coverage, clear_coverage)`, after the
      engine's `CollectCoverage` (whose effect is already in `engine`):
      the new coverage vector and the engine afterwards. */
  function GetCoverage(engine: Engine, coverage: VecCoverage, clearCoverage: bool): (r: (Engine, VecCoverage))
    ensures SameModules(engine, r.0)
    ensures forall j | 0 <= j < |engine| ::
              && r.0[j].ignored == engine[j].ignored
              && r.0[j].collected == (if clearCoverage then {} else engine[j].collected)
    ensures |coverage| <= |r.1| <= |coverage| + |engine|
  {
    GetCoverageIsMerge(engine, coverage);
    MergeShape(coverage, CollectedEntries(engine));
    (if clearCoverage then ClearCoverage(engine) else engine, MergeCollected(coverage, engine))
  }

  /** The loop is `MergeCoverage` of the collected records. */
  lemma {:induction false} GetCoverageIsMerge(engine: Engine, coverage: VecCoverage)
    ensures MergeCollected(coverage, engine) == MergeCoverage(coverage, CollectedEntries(engine))
    decreases |engine|
  {
    if engine != [] {
      var front := engine[..|engine| - 1];
      GetCoverageIsMerge(front, coverage);
      var m := engine[|engine| - 1];
      var t := CollectedEntries(front);
      if m.collected != {} {
        var t' := t + [ModuleCoverage(m.moduleName, m.collected)];
        assert CollectedEntries(engine) == t';
        assert t'[..|t'| - 1] == t;
      } else {
        assert CollectedEntries(engine) == t;
      }
    }
  }

  /** Every offset collected for a module, over all modules of that
      name. */
  function CollectedNamed(engine: Engine, name: Name): set<uint64> {
    OffsetsNamed(CollectedEntries(engine), name)
  }

  /** What a `GetCoverage` call holds for each module afterwards: what
      the vector held before together with everything collected for it;
      and a module is present exactly when it was before or something
      was collected for it. */
  lemma GetCoverageLookup(engine: Engine, coverage: VecCoverage, clearCoverage: bool, name: Name)
    ensures var r := GetCoverage(engine, coverage, clearCoverage).1;
      && Lookup(r, name) == Lookup(coverage, name) + CollectedNamed(engine, name)
      && (HasModule(r, name) <==> HasModule(coverage, name) || CollectedNamed(engine, name) != {})
  {
    var t := CollectedEntries(engine);
    GetCoverageIsMerge(engine, coverage);
    MergeLookup(coverage, t, name);
    if HasModule(t, name) {
      var i :| 0 <= i < |t| && SameModule(t[i].moduleName, name);
      CollectedEntriesNonEmpty(engine, i);
      var o :| o in t[i].offsets;
      OffsetsNamedMembers(t, name, o);
    } else if CollectedNamed(engine, name) != {} {
      var o :| o in CollectedNamed(engine, name);
      OffsetsNamedMembers(t, name, o);
    }
  }

  lemma {:induction false} CollectedEntriesNonEmpty(engine: Engine, i: int)
    requires 0 <= i < |CollectedEntries(engine)|
    ensures CollectedEntries(engine)[i].offsets != {}
    decreases |engine|
  {
    var front := engine[..|engine| - 1];
    if i < |CollectedEntries(front)| {
      CollectedEntriesNonEmpty(front, i);
    }
  }

  // ---------------------------------------------------------------------
  // IgnoreCoverage

  /** What `IgnoreCoverage` may do to one module: its flag and collected
      coverage stay as they were, and its ignored and uninstrumented
      offsets only grow. */
  predicate Untouched(m: EngineModule, m': EngineModule) {
    && m'.instrumented == m.instrumented
    && m'.collected == m.collected
    && m.ignored <= m'.ignored
    && m.uninstrumented <= m'.uninstrumented
  }

  /** The loop body of `IgnoreCoverage` for one record: a record naming
      no instrumented module is skipped; otherwise its offsets join that
      module's ignore set and, if the module is instrumented, have their
      instrumentation removed. */
  function IgnoreOne(engine: Engine, e: ModuleCoverage): (r: Engine)
    ensures SameModules(engine, r)
  {
    match GetModuleByName(engine, e.moduleName)
    case None => engine
    case Some(j) =>
      var m := engine[j];
      engine[j := m.(ignored := m.ignored + e.offsets,
                     uninstrumented := if m.instrumented then m.uninstrumented + e.offsets else m.uninstrumented)]
  }

  lemma IgnoreOneEffect(engine: Engine, e: ModuleCoverage, j: int)
    requires 0 <= j < |engine|
    ensures var m := engine[j];
      IgnoreOne(engine, e)[j] ==
        if GetModuleByName(engine, e.moduleName) == Some(j)
        then m.(ignored := m.ignored + e.offsets,
                uninstrumented := if m.instrumented then m.uninstrumented + e.offsets else m.uninstrumented)
        else m
  {
  }

  /** `AFLCov::IgnoreCoverage(coverage)`. */
  function IgnoreCoverage(engine: Engine, coverage: VecCoverage): (r: Engine)
    ensures SameModules(engine, r)
    ensures forall j | 0 <= j < |r| :: Untouched(engine[j], r[j])
    decreases |coverage|
  {
    if coverage == [] then engine
    else IgnoreOne(IgnoreCoverage(engine, coverage[..|coverage| - 1]), coverage[|coverage| - 1])
  }

  /** What `IgnoreCoverage` does to one module: the offsets of every
      record naming it are added to its ignore set (and, when it is
      instrumented, to the offsets whose instrumentation is removed) —
      provided it is the module its name finds; its collected coverage
      and flag are untouched. */
  /** A record's name finds module `j` exactly when module `j` is the
      one its own name finds and the two names compare equal. */
  lemma FindsModule(engine: Engine, name: Name, j: int)
    requires 0 <= j < |engine|
    ensures GetModuleByName(engine, name) == Some(j) <==>
              GetModuleByName(engine, engine[j].moduleName) == Some(j) && SameModule(name, engine[j].moduleName)
  {
    var own := engine[j].moduleName;
    if GetModuleByName(engine, name) == Some(j) {
      assert IsFirstModule(engine, own, j);
      FirstModuleUnique(engine, own, j, GetModuleByName(engine, own).value);
    }
    if GetModuleByName(engine, own) == Some(j) && SameModule(name, own) {
      assert IsFirstModule(engine, name, j);
      FirstModuleUnique(engine, name, j, GetModuleByName(engine, name).value);
    }
  }

  lemma {:induction false} IgnoreCoverageEffect(engine: Engine, coverage: VecCoverage, j: int)
    requires 0 <= j < |engine|
    ensures var r := IgnoreCoverage(engine, coverage);
      var added := if GetModuleByName(engine, engine[j].moduleName) == Some(j)
                   then OffsetsNamed(coverage, engine[j].moduleName) else {};
      && r[j].moduleName == engine[j].moduleName
      && r[j].instrumented == engine[j].instrumented
      && r[j].collected == engine[j].collected
      && r[j].ignored == engine[j].ignored + added
      && r[j].uninstrumented == engine[j].uninstrumented + (if engine[j].instrumented then added else {})
    decreases |coverage|
  {
    if coverage != [] {
      var front := coverage[..|coverage| - 1];
      var last := coverage[|coverage| - 1];
      var name := engine[j].moduleName;
      IgnoreCoverageEffect(engine, front, j);
      var e0 := IgnoreCoverage(engine, front);
      assert IgnoreCoverage(engine, coverage) == IgnoreOne(e0, last);
      GetModuleByNameSameModules(engine, e0, last.moduleName);
      IgnoreOneEffect(e0, last, j);
      FindsModule(engine, last.moduleName, j);
      assert OffsetsNamed(coverage, name) ==
        OffsetsNamed(front, name) + (if SameModule(last.moduleName, name) then last.offsets else {});
    }
  }

  /** With no repeated module names, every module gains exactly the
      offsets the vector holds for it. */
  lemma IgnoreCoverageDistinct(engine: Engine, coverage: VecCoverage, j: int)
    requires EngineDistinct(engine) && 0 <= j < |engine|
    ensures var r := IgnoreCoverage(engine, coverage);
      && r[j].collected == engine[j].collected
      && r[j].ignored == engine[j].ignored + OffsetsNamed(coverage, engine[j].moduleName)
  {
    GetModuleByNameDistinct(engine, j);
    IgnoreCoverageEffect(engine, coverage, j);
  }

  /** A second `IgnoreCoverage` of the same vector changes nothing. */
  lemma IgnoreCoverageIdempotent(engine: Engine, coverage: VecCoverage)
    ensures IgnoreCoverage(IgnoreCoverage(engine, coverage), coverage) == IgnoreCoverage(engine, coverage)
  {
    var r := IgnoreCoverage(engine, coverage);
    var r2 := IgnoreCoverage(r, coverage);
    forall j | 0 <= j < |engine|
      ensures r2[j] == r[j]
    {
      IgnoreCoverageEffect(engine, coverage, j);
      IgnoreCoverageEffect(r, coverage, j);
      GetModuleByNameSameModules(engine, r, engine[j].moduleName);
    }
  }
}
