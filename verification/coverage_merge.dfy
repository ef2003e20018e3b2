/** `MergeCoverage` (aflcov.cpp): folding one coverage vector into
    another, record by record. */
module CoverageMerge {
  import opened Wrappers
  import opened ModuleNames
  import opened Coverage

  /** One step of the merge loop: unite `e`'s offsets into the first
      record naming its module, or append a copy of `e` when none does. */
  function MergeOne(c: VecCoverage, e: ModuleCoverage): VecCoverage {
    match GetModuleCoverage(c, e.moduleName)
    case Some(i) => c[i := ModuleCoverage(c[i].moduleName, c[i].offsets + e.offsets)]
    case None => c + [ModuleCoverage(e.moduleName, e.offsets)]
  }

  /** `MergeCoverage(coverage, toAdd)`: the records of `toAdd`, in order,
      merged one by one into `coverage`. */
  function MergeCoverage(coverage: VecCoverage, toAdd: VecCoverage): (r: VecCoverage)
    ensures |coverage| <= |r| <= |coverage| + |toAdd|
    decreases |toAdd|
  {
    if toAdd == [] then coverage
    else MergeOne(MergeCoverage(coverage, toAdd[..|toAdd| - 1]), toAdd[|toAdd| - 1])
  }

  /** The record changed by one merge step is the first one naming `e`'s
      module, and only its offsets change; otherwise `e` is appended. */
  lemma MergeOneShape(c: VecCoverage, e: ModuleCoverage)
    ensures |MergeOne(c, e)| == if HasModule(c, e.moduleName) then |c| else |c| + 1
    ensures forall i | 0 <= i < |c| ::
              MergeOne(c, e)[i].moduleName == c[i].moduleName && c[i].offsets <= MergeOne(c, e)[i].offsets
    ensures forall i | 0 <= i < |c| && !SameModule(c[i].moduleName, e.moduleName) :: MergeOne(c, e)[i] == c[i]
    ensures |MergeOne(c, e)| > |c| ==> MergeOne(c, e)[|c|] == e
  {
  }

  /** Records already present keep their place and their name and their
      offsets only grow; records whose module `toAdd` does not name stay
      as they were; every appended record names a module of `toAdd` that
      `coverage` did not have. */
  lemma {:induction false} MergeShape(coverage: VecCoverage, toAdd: VecCoverage)
    ensures |coverage| <= |MergeCoverage(coverage, toAdd)|
    ensures forall i | 0 <= i < |coverage| ::
              && MergeCoverage(coverage, toAdd)[i].moduleName == coverage[i].moduleName
              && coverage[i].offsets <= MergeCoverage(coverage, toAdd)[i].offsets
    ensures forall i | 0 <= i < |coverage| && !HasModule(toAdd, coverage[i].moduleName) ::
              MergeCoverage(coverage, toAdd)[i] == coverage[i]
    ensures forall i | |coverage| <= i < |MergeCoverage(coverage, toAdd)| ::
              && HasModule(toAdd, MergeCoverage(coverage, toAdd)[i].moduleName)
              && !HasModule(coverage, MergeCoverage(coverage, toAdd)[i].moduleName)
    decreases |toAdd|
  {
    if toAdd != [] {
      var front := toAdd[..|toAdd| - 1];
      var last := toAdd[|toAdd| - 1];
      var c := MergeCoverage(coverage, front);
      var r := MergeOne(c, last);
      assert toAdd == front + [last];
      forall name
        ensures HasModule(toAdd, name) <==> HasModule(front, name) || SameModule(last.moduleName, name)
      {
        HasModuleSnoc(front, last, name);
      }
      MergeShape(coverage, front);
      MergeOneShape(c, last);
      forall i | |coverage| <= i < |r|
        ensures HasModule(toAdd, r[i].moduleName) && !HasModule(coverage, r[i].moduleName)
      {
        if i == |c| {
          assert r[i] == last;
          assert !HasModule(c, last.moduleName);
        }
      }
    }
  }

  lemma MergeOneLookup(c: VecCoverage, e: ModuleCoverage, name: Name)
    ensures HasModule(MergeOne(c, e), name) <==> HasModule(c, name) || SameModule(e.moduleName, name)
    ensures Lookup(MergeOne(c, e), name) ==
              Lookup(c, name) + if SameModule(e.moduleName, name) then e.offsets else {}
  {
    var r := MergeOne(c, e);
    if SameModule(e.moduleName, name) {
      LookupSameKey(c, e.moduleName, name);
    }
    match GetModuleCoverage(c, e.moduleName)
    case Some(i) =>
      if SameModule(e.moduleName, name) {
        assert IsFirstMatch(r, name, i);
        FirstMatchUnique(r, name, i, GetModuleCoverage(r, name).value);
      } else if HasModule(c, name) {
        var j := GetModuleCoverage(c, name).value;
        assert IsFirstMatch(r, name, j);
        FirstMatchUnique(r, name, j, GetModuleCoverage(r, name).value);
      }
    case None =>
      assert r == c + [e];
      LookupAppend(c, [e], name);
      if SameModule(e.moduleName, name) {
        assert IsFirstMatch([e], name, 0);
      }
  }

  /** The merge is set union under lookup, for every input: afterwards a
      module's offsets are its old offsets together with every offset any
      record of `toAdd` holds for it. */
  lemma {:induction false} MergeLookup(coverage: VecCoverage, toAdd: VecCoverage, name: Name)
    ensures HasModule(MergeCoverage(coverage, toAdd), name) <==>
              HasModule(coverage, name) || HasModule(toAdd, name)
    ensures Lookup(MergeCoverage(coverage, toAdd), name) ==
              Lookup(coverage, name) + OffsetsNamed(toAdd, name)
    decreases |toAdd|
  {
    if toAdd != [] {
      var front := toAdd[..|toAdd| - 1];
      var last := toAdd[|toAdd| - 1];
      assert toAdd == front + [last];
      HasModuleSnoc(front, last, name);
      MergeLookup(coverage, front, name);
      MergeOneLookup(MergeCoverage(coverage, front), last, name);
    }
  }

  /** Merging never introduces a second record for a module. */
  lemma {:induction false} MergePreservesDistinct(coverage: VecCoverage, toAdd: VecCoverage)
    requires Distinct(coverage)
    ensures Distinct(MergeCoverage(coverage, toAdd))
    decreases |toAdd|
  {
    if toAdd != [] {
      var front := toAdd[..|toAdd| - 1];
      var last := toAdd[|toAdd| - 1];
      MergePreservesDistinct(coverage, front);
      var c := MergeCoverage(coverage, front);
      MergeOneShape(c, last);
    }
  }

  /** When `toAdd` names each module once, exactly its records for
      modules new to `coverage` are appended, unchanged and in order. */
  lemma {:induction false} MergeAppendsUnmatched(coverage: VecCoverage, toAdd: VecCoverage)
    requires Distinct(toAdd)
    ensures |coverage| <= |MergeCoverage(coverage, toAdd)|
    ensures MergeCoverage(coverage, toAdd)[|coverage|..] == MissingFrom(toAdd, coverage)
    decreases |toAdd|
  {
    if toAdd != [] {
      var front := toAdd[..|toAdd| - 1];
      var last := toAdd[|toAdd| - 1];
      var c := MergeCoverage(coverage, front);
      var r := MergeOne(c, last);
      DistinctFront(toAdd, last.moduleName);
      MergeAppendsUnmatched(coverage, front);
      assert HasModule(c, last.moduleName) <==> HasModule(coverage, last.moduleName) by {
        MergeLookup(coverage, front, last.moduleName);
      }
      assert MissingFrom(toAdd, coverage) ==
             MissingFrom(front, coverage) + if HasModule(coverage, last.moduleName) then [] else [last];
      if HasModule(coverage, last.moduleName) {
        var i := GetModuleCoverage(c, last.moduleName).value;
        assert i < |coverage| by {
          MergeShape(coverage, front);
          var k := GetModuleCoverage(coverage, last.moduleName).value;
          assert SameModule(c[k].moduleName, last.moduleName);
        }
        assert r[|coverage|..] == c[|coverage|..];
      } else {
        assert r == c + [last];
        assert r[|coverage|..] == c[|coverage|..] + [last];
      }
    }
  }
}
