/** Intersection, difference, symmetric difference and containment of
    coverage vectors (aflcov.cpp). Each operation appends to a caller's
    `result` vector; its meaning is stated through `Lookup`, the offsets
    a vector holds for a module. */
module CoverageSetOps {
  import opened Wrappers
  import opened BoundedInts
  import opened ModuleNames
  import opened Coverage
  import opened CoverageMerge

  // ---------------------------------------------------------------------
  // CoverageIntersection

  /** What the intersection loop appends for one record of `coverage1`:
      its offsets that the matching `coverage2` record also holds, or
      nothing when no record matches or the common part is empty. */
  function IntersectOne(e: ModuleCoverage, coverage2: VecCoverage): VecCoverage {
    match GetModuleCoverage(coverage2, e.moduleName)
    case None => []
    case Some(j) =>
      var offsets := e.offsets * coverage2[j].offsets;
      if offsets == {} then [] else [ModuleCoverage(e.moduleName, offsets)]
  }

  function IntersectionEntries(coverage1: VecCoverage, coverage2: VecCoverage): (r: VecCoverage)
    ensures |r| <= |coverage1|
    decreases |coverage1|
  {
    if coverage1 == [] then []
    else
      var front := coverage1[..|coverage1| - 1];
      IntersectionEntries(front, coverage2) + IntersectOne(coverage1[|coverage1| - 1], coverage2)
  }

  /** `CoverageIntersection(coverage1, coverage2, result)`: appends to
      `result`, never removing what it held. */
  function CoverageIntersection(coverage1: VecCoverage, coverage2: VecCoverage, result: VecCoverage): (r: VecCoverage)
    ensures |result| <= |r| <= |result| + |coverage1|
    ensures r[..|result|] == result
  {
    result + IntersectionEntries(coverage1, coverage2)
  }

  /** Every appended record is non-empty, names a module both sides
      have, and holds only offsets `coverage2` has for it. */
  lemma {:induction false} IntersectionShape(coverage1: VecCoverage, coverage2: VecCoverage, result: VecCoverage)
    ensures var r := CoverageIntersection(coverage1, coverage2, result);
      forall i | |result| <= i < |r| ::
        && r[i].offsets != {}
        && HasModule(coverage1, r[i].moduleName)
        && HasModule(coverage2, r[i].moduleName)
        && r[i].offsets <= Lookup(coverage2, r[i].moduleName)
    decreases |coverage1|
  {
    if coverage1 != [] {
      var front := coverage1[..|coverage1| - 1];
      var last := coverage1[|coverage1| - 1];
      assert coverage1 == front + [last];
      var r0 := CoverageIntersection(front, coverage2, result);
      var one := IntersectOne(last, coverage2);
      var r := CoverageIntersection(coverage1, coverage2, result);
      assert r == r0 + one;
      forall i | |result| <= i < |r|
        ensures && r[i].offsets != {}
                && HasModule(coverage1, r[i].moduleName)
                && HasModule(coverage2, r[i].moduleName)
                && r[i].offsets <= Lookup(coverage2, r[i].moduleName)
      {
        if i < |r0| {
          assert r[i] == r0[i];
          IntersectionShape(front, coverage2, result);
        } else {
          assert r[i] == one[0];
          IntersectOneShape(last, coverage2);
        }
        HasModuleSnoc(front, last, r[i].moduleName);
      }
    }
  }

  lemma IntersectOneLookup(e: ModuleCoverage, coverage2: VecCoverage, name: Name)
    ensures Lookup(IntersectOne(e, coverage2), name) ==
              if SameModule(e.moduleName, name) then e.offsets * Lookup(coverage2, name) else {}
    ensures HasModule(IntersectOne(e, coverage2), name) <==>
              SameModule(e.moduleName, name) && e.offsets * Lookup(coverage2, name) != {}
  {
    if SameModule(e.moduleName, name) {
      LookupSameKey(coverage2, e.moduleName, name);
    }
    var one := IntersectOne(e, coverage2);
    if one != [] {
      LookupSingle(one[0], name);
    }
  }

  lemma IntersectOneShape(e: ModuleCoverage, coverage2: VecCoverage)
    ensures var one := IntersectOne(e, coverage2);
      && |one| <= 1
      && (one != [] ==>
            && one[0].moduleName == e.moduleName
            && one[0].offsets != {}
            && HasModule(coverage2, e.moduleName)
            && one[0].offsets <= Lookup(coverage2, e.moduleName))
  {
  }

  /** With `coverage1` naming each module once, the intersection holds
      for every module exactly the offsets both sides hold for it, and
      has a record for it exactly when that set is non-empty. */
  lemma {:induction false} IntersectionLookup(coverage1: VecCoverage, coverage2: VecCoverage, name: Name)
    requires Distinct(coverage1)
    ensures var r := CoverageIntersection(coverage1, coverage2, []);
      && Lookup(r, name) == Lookup(coverage1, name) * Lookup(coverage2, name)
      && (HasModule(r, name) <==> Lookup(coverage1, name) * Lookup(coverage2, name) != {})
    decreases |coverage1|
  {
    if coverage1 != [] {
      var front := coverage1[..|coverage1| - 1];
      var last := coverage1[|coverage1| - 1];
      DistinctFront(coverage1, name);
      IntersectionLookup(front, coverage2, name);
      var e0 := IntersectionEntries(front, coverage2);
      var one := IntersectOne(last, coverage2);
      assert CoverageIntersection(front, coverage2, []) == e0;
      assert CoverageIntersection(coverage1, coverage2, []) == e0 + one;
      LookupAppend(e0, one, name);
      LookupAppend(front, [last], name);
      LookupSingle(last, name);
      IntersectOneLookup(last, coverage2, name);
    }
  }

  // ---------------------------------------------------------------------
  // CoverageDifference

  /** What the difference loop appends for one record of `coverage2`: a
      copy when `coverage1` lacks its module, otherwise its offsets that
      `coverage1`'s record lacks, or nothing when there are none. */
  function DifferenceOne(coverage1: VecCoverage, e: ModuleCoverage): VecCoverage {
    match GetModuleCoverage(coverage1, e.moduleName)
    case None => [ModuleCoverage(e.moduleName, e.offsets)]
    case Some(j) =>
      var offsets := e.offsets - coverage1[j].offsets;
      if offsets == {} then [] else [ModuleCoverage(e.moduleName, offsets)]
  }

  function DifferenceEntries(coverage1: VecCoverage, coverage2: VecCoverage): (r: VecCoverage)
    ensures |r| <= |coverage2|
    decreases |coverage2|
  {
    if coverage2 == [] then []
    else
      var front := coverage2[..|coverage2| - 1];
      DifferenceEntries(coverage1, front) + DifferenceOne(coverage1, coverage2[|coverage2| - 1])
  }

  /** `CoverageDifference(coverage1, coverage2, result)`: the coverage of
      `coverage2` not present in `coverage1`, appended to `result`. */
  function CoverageDifference(coverage1: VecCoverage, coverage2: VecCoverage, result: VecCoverage): (r: VecCoverage)
    ensures |result| <= |r| <= |result| + |coverage2|
    ensures r[..|result|] == result
  {
    result + DifferenceEntries(coverage1, coverage2)
  }

  /** Every appended record names a module of `coverage2` and shares no
      offset with `coverage1`'s record for it; it is empty only when it
      copies a record of a module `coverage1` lacks. */
  lemma {:induction false} DifferenceShape(coverage1: VecCoverage, coverage2: VecCoverage, result: VecCoverage)
    ensures var r := CoverageDifference(coverage1, coverage2, result);
      forall i | |result| <= i < |r| ::
        && HasModule(coverage2, r[i].moduleName)
        && r[i].offsets !! Lookup(coverage1, r[i].moduleName)
        && (r[i].offsets == {} ==> !HasModule(coverage1, r[i].moduleName))
    decreases |coverage2|
  {
    if coverage2 != [] {
      var front := coverage2[..|coverage2| - 1];
      var last := coverage2[|coverage2| - 1];
      assert coverage2 == front + [last];
      var r0 := CoverageDifference(coverage1, front, result);
      var one := DifferenceOne(coverage1, last);
      var r := CoverageDifference(coverage1, coverage2, result);
      assert r == r0 + one;
      forall i | |result| <= i < |r|
        ensures && HasModule(coverage2, r[i].moduleName)
                && r[i].offsets !! Lookup(coverage1, r[i].moduleName)
                && (r[i].offsets == {} ==> !HasModule(coverage1, r[i].moduleName))
      {
        if i < |r0| {
          assert r[i] == r0[i];
          DifferenceShape(coverage1, front, result);
        } else {
          assert r[i] == one[0];
          DifferenceOneShape(coverage1, last);
        }
        HasModuleSnoc(front, last, r[i].moduleName);
      }
    }
  }

  lemma DifferenceOneLookup(coverage1: VecCoverage, e: ModuleCoverage, name: Name)
    ensures Lookup(DifferenceOne(coverage1, e), name) ==
              if SameModule(e.moduleName, name) then e.offsets - Lookup(coverage1, name) else {}
    ensures HasModule(DifferenceOne(coverage1, e), name) <==>
              && SameModule(e.moduleName, name)
              && (!HasModule(coverage1, name) || e.offsets - Lookup(coverage1, name) != {})
  {
    if SameModule(e.moduleName, name) {
      LookupSameKey(coverage1, e.moduleName, name);
    }
    var one := DifferenceOne(coverage1, e);
    if one != [] {
      LookupSingle(one[0], name);
    }
  }

  lemma DifferenceOneShape(coverage1: VecCoverage, e: ModuleCoverage)
    ensures var one := DifferenceOne(coverage1, e);
      && |one| <= 1
      && (one != [] ==>
            && one[0].moduleName == e.moduleName
            && one[0].offsets !! Lookup(coverage1, e.moduleName)
            && (one[0].offsets == {} ==> !HasModule(coverage1, e.moduleName)))
  {
  }

  /** With `coverage2` naming each module once, the difference holds for
      every module the offsets of `coverage2` that `coverage1` lacks; it
      has a record for a module of `coverage2` unless `coverage1` has the
      module and that set is empty. */
  lemma {:induction false} DifferenceLookup(coverage1: VecCoverage, coverage2: VecCoverage, name: Name)
    requires Distinct(coverage2)
    ensures var r := CoverageDifference(coverage1, coverage2, []);
      && Lookup(r, name) == Lookup(coverage2, name) - Lookup(coverage1, name)
      && (HasModule(r, name) <==>
            HasModule(coverage2, name)
            && (!HasModule(coverage1, name) || Lookup(coverage2, name) - Lookup(coverage1, name) != {}))
    decreases |coverage2|
  {
    if coverage2 != [] {
      var front := coverage2[..|coverage2| - 1];
      var last := coverage2[|coverage2| - 1];
      DistinctFront(coverage2, name);
      DifferenceLookup(coverage1, front, name);
      var e0 := DifferenceEntries(coverage1, front);
      var one := DifferenceOne(coverage1, last);
      assert CoverageDifference(coverage1, front, []) == e0;
      assert CoverageDifference(coverage1, coverage2, []) == e0 + one;
      LookupAppend(e0, one, name);
      LookupAppend(front, [last], name);
      LookupSingle(last, name);
      DifferenceOneLookup(coverage1, last, name);
    }
  }

  // ---------------------------------------------------------------------
  // CoverageSymmetricDifference

  /** What the first loop of the symmetric difference appends for one
      record of `coverage1`: a copy when `coverage2` lacks its module,
      otherwise the offsets held by exactly one of the two records, or
      nothing when there are none. */
  function SymmetricOne(e: ModuleCoverage, coverage2: VecCoverage): VecCoverage {
    match GetModuleCoverage(coverage2, e.moduleName)
    case None => [ModuleCoverage(e.moduleName, e.offsets)]
    case Some(j) =>
      var offsets := (e.offsets - coverage2[j].offsets) + (coverage2[j].offsets - e.offsets);
      if offsets == {} then [] else [ModuleCoverage(e.moduleName, offsets)]
  }

  function SymmetricEntries(coverage1: VecCoverage, coverage2: VecCoverage): (r: VecCoverage)
    ensures |r| <= |coverage1|
    decreases |coverage1|
  {
    if coverage1 == [] then []
    else
      var front := coverage1[..|coverage1| - 1];
      SymmetricEntries(front, coverage2) + SymmetricOne(coverage1[|coverage1| - 1], coverage2)
  }

  /** `CoverageSymmetricDifference(coverage1, coverage2, result)`: first
      one pass over `coverage1`, then the records of modules only
      `coverage2` has, appended to `result`. */
  function CoverageSymmetricDifference(coverage1: VecCoverage, coverage2: VecCoverage, result: VecCoverage): (r: VecCoverage)
    ensures |result| <= |r| <= |result| + |coverage1| + |coverage2|
    ensures r[..|result|] == result
  {
    MissingFromMembers(coverage2, coverage1);
    result + SymmetricEntries(coverage1, coverage2) + MissingFrom(coverage2, coverage1)
  }

  /** The symmetric difference lists first records for modules of
      `coverage1`, then records for modules only `coverage2` has. */
  lemma {:induction false} SymmetricDifferenceOrder(coverage1: VecCoverage, coverage2: VecCoverage, result: VecCoverage)
    returns (n: nat)
    ensures var r := CoverageSymmetricDifference(coverage1, coverage2, result);
      && |result| <= n <= |r|
      && (forall i | |result| <= i < n :: HasModule(coverage1, r[i].moduleName))
      && (forall i | n <= i < |r| ::
            !HasModule(coverage1, r[i].moduleName) && HasModule(coverage2, r[i].moduleName))
    decreases |coverage1|
  {
    var r := CoverageSymmetricDifference(coverage1, coverage2, result);
    var s := SymmetricEntries(coverage1, coverage2);
    var m := MissingFrom(coverage2, coverage1);
    n := |result| + |s|;
    assert r == (result + s) + m;
    forall i | |result| <= i < n
      ensures HasModule(coverage1, r[i].moduleName)
    {
      assert r[i] == s[i - |result|];
      SymmetricEntriesNames(coverage1, coverage2);
    }
    forall i | n <= i < |r|
      ensures !HasModule(coverage1, r[i].moduleName) && HasModule(coverage2, r[i].moduleName)
    {
      assert r[i] == m[i - n];
      MissingFromNames(coverage2, coverage1);
    }
  }

  /** The records of modules only `coverage2` has name such modules. */
  lemma MissingFromNames(c: VecCoverage, other: VecCoverage)
    ensures forall i | 0 <= i < |MissingFrom(c, other)| ::
      && !HasModule(other, MissingFrom(c, other)[i].moduleName)
      && HasModule(c, MissingFrom(c, other)[i].moduleName)
    ensures forall i | 0 <= i < |c| && !HasModule(other, c[i].moduleName) :: c[i] in MissingFrom(c, other)
  {
    MissingFromMembers(c, other);
    var m := MissingFrom(c, other);
    forall i | 0 <= i < |c| && !HasModule(other, c[i].moduleName)
      ensures c[i] in m
    {
      assert c[i] in c;
    }
    forall i | 0 <= i < |m|
      ensures !HasModule(other, m[i].moduleName) && HasModule(c, m[i].moduleName)
    {
      MissingFromMembers(c, other);
      assert m[i] in m;
      var k :| 0 <= k < |c| && c[k] == m[i];
      assert SameModule(c[k].moduleName, m[i].moduleName);
    }
  }

  lemma {:induction false} SymmetricEntriesNames(coverage1: VecCoverage, coverage2: VecCoverage)
    ensures forall i | 0 <= i < |SymmetricEntries(coverage1, coverage2)| ::
      HasModule(coverage1, SymmetricEntries(coverage1, coverage2)[i].moduleName)
    decreases |coverage1|
  {
    if coverage1 != [] {
      var front := coverage1[..|coverage1| - 1];
      var last := coverage1[|coverage1| - 1];
      SymmetricEntriesNames(front, coverage2);
      var s0 := SymmetricEntries(front, coverage2);
      var s := SymmetricEntries(coverage1, coverage2);
      assert s == s0 + SymmetricOne(last, coverage2);
      forall i | 0 <= i < |s|
        ensures HasModule(coverage1, s[i].moduleName)
      {
        if i < |s0| {
          assert s[i] == s0[i];
          assert HasModule(front, s0[i].moduleName);
          var k :| 0 <= k < |front| && SameModule(front[k].moduleName, s0[i].moduleName);
          assert coverage1[k] == front[k];
        } else {
          assert SameModule(last.moduleName, s[i].moduleName);
        }
      }
    }
  }

  lemma SymmetricOneLookup(e: ModuleCoverage, coverage2: VecCoverage, name: Name)
    ensures var l2 := Lookup(coverage2, name);
      && Lookup(SymmetricOne(e, coverage2), name) ==
           (if SameModule(e.moduleName, name) then (e.offsets - l2) + (l2 - e.offsets) else {})
      && (HasModule(SymmetricOne(e, coverage2), name) <==>
           && SameModule(e.moduleName, name)
           && (!HasModule(coverage2, name) || (e.offsets - l2) + (l2 - e.offsets) != {}))
  {
    if SameModule(e.moduleName, name) {
      LookupSameKey(coverage2, e.moduleName, name);
    }
    var one := SymmetricOne(e, coverage2);
    if one != [] {
      LookupSingle(one[0], name);
    }
  }

  /** The first pass on its own: for a module of `coverage1` it holds the
      offsets on exactly one side, and it says nothing of other modules. */
  lemma {:induction false} SymmetricEntriesLookup(coverage1: VecCoverage, coverage2: VecCoverage, name: Name)
    requires Distinct(coverage1)
    ensures var s := SymmetricEntries(coverage1, coverage2);
      var l1 := Lookup(coverage1, name);
      var l2 := Lookup(coverage2, name);
      && Lookup(s, name) == (if HasModule(coverage1, name) then (l1 - l2) + (l2 - l1) else {})
      && (HasModule(s, name) <==>
            HasModule(coverage1, name) && (!HasModule(coverage2, name) || (l1 - l2) + (l2 - l1) != {}))
    decreases |coverage1|
  {
    if coverage1 != [] {
      var front := coverage1[..|coverage1| - 1];
      var last := coverage1[|coverage1| - 1];
      DistinctFront(coverage1, name);
      SymmetricEntriesLookup(front, coverage2, name);
      var s0 := SymmetricEntries(front, coverage2);
      var one := SymmetricOne(last, coverage2);
      LookupAppend(s0, one, name);
      LookupAppend(front, [last], name);
      LookupSingle(last, name);
      SymmetricOneLookup(last, coverage2, name);
    }
  }

  /** With both sides naming each module once, the symmetric difference
      holds for every module the offsets exactly one side holds. */
  lemma SymmetricDifferenceLookup(coverage1: VecCoverage, coverage2: VecCoverage, name: Name)
    requires Distinct(coverage1) && Distinct(coverage2)
    ensures var l1 := Lookup(coverage1, name);
      var l2 := Lookup(coverage2, name);
      Lookup(CoverageSymmetricDifference(coverage1, coverage2, []), name) == (l1 - l2) + (l2 - l1)
  {
    var s := SymmetricEntries(coverage1, coverage2);
    var m := MissingFrom(coverage2, coverage1);
    assert CoverageSymmetricDifference(coverage1, coverage2, []) == s + m;
    SymmetricEntriesLookup(coverage1, coverage2, name);
    MissingFromLookup(coverage2, coverage1, name);
    SymmetricCombine(s, m, name, Lookup(coverage1, name), Lookup(coverage2, name), HasModule(coverage1, name));
  }

  /** The two passes together, over abstract lookups. */
  lemma SymmetricCombine(s: VecCoverage, m: VecCoverage, name: Name, l1: set<uint64>, l2: set<uint64>, has1: bool)
    requires !has1 ==> l1 == {}
    requires Lookup(s, name) == if has1 then (l1 - l2) + (l2 - l1) else {}
    requires !HasModule(s, name) ==> Lookup(s, name) == {}
    requires HasModule(s, name) ==> has1
    requires Lookup(m, name) == if has1 then {} else l2
    ensures Lookup(s + m, name) == (l1 - l2) + (l2 - l1)
  {
    LookupAppend(s, m, name);
  }

  /** It has a record for every module only one side has, and for a
      shared module exactly when the offsets differ. */
  lemma SymmetricDifferenceHasModule(coverage1: VecCoverage, coverage2: VecCoverage, name: Name)
    requires Distinct(coverage1) && Distinct(coverage2)
    ensures var l1 := Lookup(coverage1, name);
      var l2 := Lookup(coverage2, name);
      HasModule(CoverageSymmetricDifference(coverage1, coverage2, []), name) <==>
        if HasModule(coverage1, name) && HasModule(coverage2, name) then (l1 - l2) + (l2 - l1) != {}
        else HasModule(coverage1, name) || HasModule(coverage2, name)
  {
    var s := SymmetricEntries(coverage1, coverage2);
    var m := MissingFrom(coverage2, coverage1);
    assert CoverageSymmetricDifference(coverage1, coverage2, []) == s + m;
    SymmetricEntriesLookup(coverage1, coverage2, name);
    MissingFromLookup(coverage2, coverage1, name);
    LookupAppend(s, m, name);
  }

  /** The documented promise: `coverage2` not in `coverage1` and vice
      versa, so swapping the arguments changes the order of the records
      but not what they hold. */
  lemma SymmetricDifferenceCommutes(coverage1: VecCoverage, coverage2: VecCoverage, name: Name)
    requires Distinct(coverage1) && Distinct(coverage2)
    ensures Lookup(CoverageSymmetricDifference(coverage1, coverage2, []), name) ==
            Lookup(CoverageSymmetricDifference(coverage2, coverage1, []), name)
    ensures HasModule(CoverageSymmetricDifference(coverage1, coverage2, []), name) ==
            HasModule(CoverageSymmetricDifference(coverage2, coverage1, []), name)
  {
    SymmetricDifferenceLookup(coverage1, coverage2, name);
    SymmetricDifferenceLookup(coverage2, coverage1, name);
    SymmetricDifferenceHasModule(coverage1, coverage2, name);
    SymmetricDifferenceHasModule(coverage2, coverage1, name);
  }

  /** With two records for one module, the symmetric difference is not
      symmetric: the later record of `c1` is compared against `c2`, while
      `c2`'s record is only ever compared against the first one of `c1`. */
  lemma SymmetricDifferenceNotSymmetricWithDuplicates()
    ensures var c1 := [ModuleCoverage("a", {1}), ModuleCoverage("A", {2})];
      var c2 := [ModuleCoverage("a", {1})];
      && Lookup(CoverageSymmetricDifference(c1, c2, []), "a") == {1, 2}
      && !HasModule(CoverageSymmetricDifference(c2, c1, []), "a")
  {
    var c1 := [ModuleCoverage("a", {1}), ModuleCoverage("A", {2})];
    var c2 := [ModuleCoverage("a", {1})];
    assert SameModule("A", "a") by {
      assert Key("A") == Key("a") == "a";
    }
    assert GetModuleCoverage(c2, "a") == Some(0);
    assert GetModuleCoverage(c1, "a") == Some(0);
    assert SymmetricOne(c1[0], c2) == [];
    assert SymmetricOne(c1[1], c2) == [ModuleCoverage("A", {1, 2})] by {
      assert GetModuleCoverage(c2, "A") == Some(0);
      assert ({2} - {1}) + ({1} - {2}) == {1, 2};
    }
    assert c1[..1][..0] == [];
    assert SymmetricEntries(c1, c2) == [ModuleCoverage("A", {1, 2})];
    assert MissingFrom(c2, c1) == [] by {
      assert c2[..0] == [];
      assert HasModule(c1, "a");
    }
    assert CoverageSymmetricDifference(c1, c2, []) == [ModuleCoverage("A", {1, 2})];
    assert IsFirstMatch([ModuleCoverage("A", {1, 2})], "a", 0);
    assert SymmetricOne(c2[0], c1) == [];
    assert c2[..0] == [];
    assert SymmetricEntries(c2, c1) == [];
    assert MissingFrom(c1, c2) == [] by {
      assert c1[..1][..0] == [];
      assert HasModule(c2, "A");
    }
  }

  // ---------------------------------------------------------------------
  // CoverageContains

  /** `CoverageContains(coverage1, coverage2)`: whether `coverage1`
      contains `coverage2` — every record of `coverage2` has a matching
      record in `coverage1` holding all of its offsets. */
  function CoverageContains(coverage1: VecCoverage, coverage2: VecCoverage): (r: bool)
    ensures r <==> forall i | 0 <= i < |coverage2| ::
                     && HasModule(coverage1, coverage2[i].moduleName)
                     && coverage2[i].offsets <= Lookup(coverage1, coverage2[i].moduleName)
    decreases |coverage2|
  {
    if coverage2 == [] then true
    else
      match GetModuleCoverage(coverage1, coverage2[0].moduleName)
      case None => false
      case Some(j) => coverage2[0].offsets <= coverage1[j].offsets && CoverageContains(coverage1, coverage2[1..])
  }

  /** A vector naming each module once contains itself. */
  lemma ContainsReflexive(c: VecCoverage)
    requires Distinct(c)
    ensures CoverageContains(c, c)
  {
    forall i | 0 <= i < |c|
      ensures c[i].offsets <= Lookup(c, c[i].moduleName)
    {
      LookupDistinct(c, i);
    }
  }

  /** With two records for one module, a vector can fail to contain
      itself: the second record is checked against the first. */
  lemma ContainsNotReflexiveWithDuplicates()
    ensures var c := [ModuleCoverage("a", {}), ModuleCoverage("A", {1})];
      !CoverageContains(c, c)
  {
    var c := [ModuleCoverage("a", {}), ModuleCoverage("A", {1})];
    assert SameModule(c[1].moduleName, c[0].moduleName) by {
      assert Key("A") == Key("a") == "a";
    }
    assert IsFirstMatch(c, c[1].moduleName, 0);
    FirstMatchUnique(c, c[1].moduleName, 0, GetModuleCoverage(c, c[1].moduleName).value);
    assert 1 in c[1].offsets;
  }

  lemma ContainsTransitive(a: VecCoverage, b: VecCoverage, c: VecCoverage)
    requires CoverageContains(a, b) && CoverageContains(b, c)
    ensures CoverageContains(a, c)
  {
    forall i | 0 <= i < |c|
      ensures HasModule(a, c[i].moduleName) && c[i].offsets <= Lookup(a, c[i].moduleName)
    {
      var name := c[i].moduleName;
      var j := GetModuleCoverage(b, name).value;
      LookupSameKey(a, b[j].moduleName, name);
    }
  }

  /** For a `coverage2` naming each module once, containment is inclusion
      of the module-to-offsets view. */
  lemma ContainsLookup(coverage1: VecCoverage, coverage2: VecCoverage)
    requires Distinct(coverage2)
    ensures CoverageContains(coverage1, coverage2) <==>
              forall name | HasModule(coverage2, name) ::
                HasModule(coverage1, name) && Lookup(coverage2, name) <= Lookup(coverage1, name)
  {
    if CoverageContains(coverage1, coverage2) {
      forall name | HasModule(coverage2, name)
        ensures HasModule(coverage1, name) && Lookup(coverage2, name) <= Lookup(coverage1, name)
      {
        var j := GetModuleCoverage(coverage2, name).value;
        LookupSameKey(coverage1, coverage2[j].moduleName, name);
      }
    }
    if forall name | HasModule(coverage2, name) ::
         HasModule(coverage1, name) && Lookup(coverage2, name) <= Lookup(coverage1, name)
    {
      forall i | 0 <= i < |coverage2|
        ensures HasModule(coverage1, coverage2[i].moduleName)
        ensures coverage2[i].offsets <= Lookup(coverage1, coverage2[i].moduleName)
      {
        LookupDistinct(coverage2, i);
      }
    }
  }

  /** A merge result contains what was merged into it, and, when the
      original named each module once, the original as well. */
  lemma MergeContains(coverage: VecCoverage, toAdd: VecCoverage)
    ensures CoverageContains(MergeCoverage(coverage, toAdd), toAdd)
    ensures Distinct(coverage) ==> CoverageContains(MergeCoverage(coverage, toAdd), coverage)
  {
    var r := MergeCoverage(coverage, toAdd);
    forall i | 0 <= i < |toAdd|
      ensures HasModule(r, toAdd[i].moduleName) && toAdd[i].offsets <= Lookup(r, toAdd[i].moduleName)
    {
      var name := toAdd[i].moduleName;
      MergeLookup(coverage, toAdd, name);
      forall o | o in toAdd[i].offsets
        ensures o in OffsetsNamed(toAdd, name)
      {
        OffsetsNamedMembers(toAdd, name, o);
      }
    }
    if Distinct(coverage) {
      forall i | 0 <= i < |coverage|
        ensures HasModule(r, coverage[i].moduleName) && coverage[i].offsets <= Lookup(r, coverage[i].moduleName)
      {
        MergeLookup(coverage, toAdd, coverage[i].moduleName);
        LookupDistinct(coverage, i);
      }
    }
  }

  /** Every intersection record comes from a record of `coverage1` with
      the same name and at least its offsets. */
  lemma {:induction false} IntersectionOrigin(coverage1: VecCoverage, coverage2: VecCoverage, i: nat)
    returns (k: nat)
    requires i < |IntersectionEntries(coverage1, coverage2)|
    ensures var r := IntersectionEntries(coverage1, coverage2);
      && k < |coverage1|
      && coverage1[k].moduleName == r[i].moduleName
      && r[i].offsets <= coverage1[k].offsets
    decreases |coverage1|
  {
    var front := coverage1[..|coverage1| - 1];
    var e0 := IntersectionEntries(front, coverage2);
    var r := IntersectionEntries(coverage1, coverage2);
    assert r == e0 + IntersectOne(coverage1[|coverage1| - 1], coverage2);
    if i < |e0| {
      k := IntersectionOrigin(front, coverage2, i);
      assert coverage1[k] == front[k];
    } else {
      k := |coverage1| - 1;
    }
  }

  /** The intersection is contained in `coverage2`. */
  lemma IntersectionContainedInSecond(coverage1: VecCoverage, coverage2: VecCoverage)
    ensures CoverageContains(coverage2, CoverageIntersection(coverage1, coverage2, []))
  {
    var r := CoverageIntersection(coverage1, coverage2, []);
    forall i | 0 <= i < |r|
      ensures HasModule(coverage2, r[i].moduleName)
      ensures r[i].offsets <= Lookup(coverage2, r[i].moduleName)
    {
      IntersectionShape(coverage1, coverage2, []);
    }
  }

  /** The intersection is contained in `coverage1` when that names each
      module once. */
  lemma IntersectionContainedInFirst(coverage1: VecCoverage, coverage2: VecCoverage)
    requires Distinct(coverage1)
    ensures CoverageContains(coverage1, CoverageIntersection(coverage1, coverage2, []))
  {
    var r := CoverageIntersection(coverage1, coverage2, []);
    assert r == IntersectionEntries(coverage1, coverage2);
    forall i | 0 <= i < |r|
      ensures HasModule(coverage1, r[i].moduleName)
      ensures r[i].offsets <= Lookup(coverage1, r[i].moduleName)
    {
      var k := IntersectionOrigin(coverage1, coverage2, i);
      LookupDistinct(coverage1, k);
    }
  }
}
