/** The coverage value of `aflcov.h`: an ordered vector of per-module
    records, each a module name and a set of 64-bit code offsets, and the
    case-insensitive lookup every operation on it goes through. */
module Coverage {
  import opened Wrappers
  import opened BoundedInts
  import opened ModuleNames

  datatype ModuleCoverage = ModuleCoverage(moduleName: Name, offsets: set<uint64>)

  /** A vector, not a map: two records may name the same module, and
      their order is observable. */
  type VecCoverage = seq<ModuleCoverage>

  /** One covered code location: a module and an offset in it. */
  datatype Location = Location(moduleName: Name, offset: uint64)

  predicate HasModule(c: VecCoverage, name: Name) {
    exists i | 0 <= i < |c| :: SameModule(c[i].moduleName, name)
  }

  /** `i` is the first record of `c` that names `name`. */
  predicate IsFirstMatch(c: VecCoverage, name: Name, i: int) {
    && 0 <= i < |c|
    && SameModule(c[i].moduleName, name)
    && forall j | 0 <= j < i :: !SameModule(c[j].moduleName, name)
  }

  /** No two records name the same module (under `_stricmp`). */
  predicate Distinct(c: VecCoverage) {
    forall i, j | 0 <= i < j < |c| :: !SameModule(c[i].moduleName, c[j].moduleName)
  }

  /** `GetModuleCoverage`: the position of the first record whose name
      equals `name` ignoring case, or `None` (the null pointer) when no
      record does. */
  function GetModuleCoverage(c: VecCoverage, name: Name): (r: Option<nat>)
    ensures r.Some? ==> IsFirstMatch(c, name, r.value)
    ensures r.None? <==> !HasModule(c, name)
  {
    FindFrom(c, name, 0)
  }

  function FindFrom(c: VecCoverage, name: Name, start: nat): (r: Option<nat>)
    requires start <= |c|
    requires forall j | 0 <= j < start :: !SameModule(c[j].moduleName, name)
    ensures r.Some? ==> IsFirstMatch(c, name, r.value)
    ensures r.None? <==> !HasModule(c, name)
    decreases |c| - start
  {
    if start == |c| then None
    else if SameModule(c[start].moduleName, name) then Some(start)
    else FindFrom(c, name, start + 1)
  }

  /** The offsets `c` holds for a module, as every operation on coverage
      sees them: those of the first record naming it, or none. */
  function Lookup(c: VecCoverage, name: Name): set<uint64> {
    match GetModuleCoverage(c, name)
    case Some(i) => c[i].offsets
    case None => {}
  }

  /** Every offset any record of `c` holds for the module `name`. */
  function OffsetsNamed(c: VecCoverage, name: Name): set<uint64>
    decreases |c|
  {
    if c == [] then {}
    else
      var last := c[|c| - 1];
      OffsetsNamed(c[..|c| - 1], name) + (if SameModule(last.moduleName, name) then last.offsets else {})
  }

  /** The records of `c` whose module `other` does not name, in order. */
  function MissingFrom(c: VecCoverage, other: VecCoverage): VecCoverage
    decreases |c|
  {
    if c == [] then []
    else
      var last := c[|c| - 1];
      MissingFrom(c[..|c| - 1], other) + (if HasModule(other, last.moduleName) then [] else [last])
  }

  /** `OffsetsNamed` collects the offsets of every record naming the
      module, wherever it stands. */
  lemma {:induction false} OffsetsNamedMembers(c: VecCoverage, name: Name, o: uint64)
    ensures o in OffsetsNamed(c, name) <==>
              exists i | 0 <= i < |c| :: SameModule(c[i].moduleName, name) && o in c[i].offsets
    decreases |c|
  {
    if c != [] {
      var front := c[..|c| - 1];
      OffsetsNamedMembers(front, name, o);
      if o in OffsetsNamed(front, name) {
        var i :| 0 <= i < |front| && SameModule(front[i].moduleName, name) && o in front[i].offsets;
        assert c[i] == front[i];
      }
      if exists i | 0 <= i < |c| :: SameModule(c[i].moduleName, name) && o in c[i].offsets {
        var i :| 0 <= i < |c| && SameModule(c[i].moduleName, name) && o in c[i].offsets;
        if i < |front| {
          assert c[i] == front[i];
        }
      }
    }
  }

  /** `MissingFrom` keeps exactly the records whose module the other
      vector lacks. */
  lemma {:induction false} MissingFromMembers(c: VecCoverage, other: VecCoverage)
    ensures forall e :: e in MissingFrom(c, other) <==> e in c && !HasModule(other, e.moduleName)
    ensures |MissingFrom(c, other)| <= |c|
    decreases |c|
  {
    if c != [] {
      MissingFromMembers(c[..|c| - 1], other);
      assert c == c[..|c| - 1] + [c[|c| - 1]];
    }
  }

  lemma HasModuleSnoc(front: VecCoverage, last: ModuleCoverage, name: Name)
    ensures HasModule(front + [last], name) <==> HasModule(front, name) || SameModule(last.moduleName, name)
  {
    var c := front + [last];
    assert forall k | 0 <= k < |front| :: c[k] == front[k];
    assert c[|front|] == last;
  }

  /** The first match of a name is unique. */
  lemma FirstMatchUnique(c: VecCoverage, name: Name, i: int, j: int)
    requires IsFirstMatch(c, name, i) && IsFirstMatch(c, name, j)
    ensures i == j
  {
  }

  /** Lookup depends on a name only through its `_stricmp` key. */
  lemma LookupSameKey(c: VecCoverage, a: Name, b: Name)
    requires SameModule(a, b)
    ensures GetModuleCoverage(c, a) == GetModuleCoverage(c, b)
    ensures HasModule(c, a) == HasModule(c, b)
    ensures Lookup(c, a) == Lookup(c, b)
  {
    if GetModuleCoverage(c, a).Some? {
      assert IsFirstMatch(c, b, GetModuleCoverage(c, a).value);
    }
  }

  /** Looking a module up in `a + b` finds it in `a` if `a` names it, and
      otherwise in `b`. */
  lemma LookupAppend(a: VecCoverage, b: VecCoverage, name: Name)
    ensures HasModule(a + b, name) <==> HasModule(a, name) || HasModule(b, name)
    ensures Lookup(a + b, name) == if HasModule(a, name) then Lookup(a, name) else Lookup(b, name)
  {
    var ab := a + b;
    if HasModule(a, name) {
      var i := GetModuleCoverage(a, name).value;
      assert IsFirstMatch(ab, name, i);
      assert ab[i] == a[i];
      FirstMatchUnique(ab, name, i, GetModuleCoverage(ab, name).value);
    } else if HasModule(b, name) {
      var j := GetModuleCoverage(b, name).value;
      assert ab[|a| + j] == b[j];
      assert IsFirstMatch(ab, name, |a| + j);
      FirstMatchUnique(ab, name, |a| + j, GetModuleCoverage(ab, name).value);
    }
  }

  /** In a vector without duplicate modules every record is the one a
      lookup of its name finds. */
  lemma LookupDistinct(c: VecCoverage, i: int)
    requires Distinct(c) && 0 <= i < |c|
    ensures GetModuleCoverage(c, c[i].moduleName) == Some(i)
    ensures Lookup(c, c[i].moduleName) == c[i].offsets
  {
    assert IsFirstMatch(c, c[i].moduleName, i);
    FirstMatchUnique(c, c[i].moduleName, i, GetModuleCoverage(c, c[i].moduleName).value);
  }

  /** What a lookup finds is among all offsets recorded for the module,
      and in a vector without duplicates it is all of them. */
  lemma LookupWithinOffsetsNamed(c: VecCoverage, name: Name)
    ensures Lookup(c, name) <= OffsetsNamed(c, name)
    ensures Distinct(c) ==> Lookup(c, name) == OffsetsNamed(c, name)
  {
    if HasModule(c, name) {
      var i := GetModuleCoverage(c, name).value;
      forall o | o in c[i].offsets
        ensures o in OffsetsNamed(c, name)
      {
        OffsetsNamedMembers(c, name, o);
      }
    }
    if Distinct(c) && HasModule(c, name) {
      var i := GetModuleCoverage(c, name).value;
      forall o | o in OffsetsNamed(c, name)
        ensures o in c[i].offsets
      {
        OffsetsNamedMembers(c, name, o);
        var j :| 0 <= j < |c| && SameModule(c[j].moduleName, name) && o in c[j].offsets;
        assert i == j;
      }
    }
  }

  /** Dropping the last record of a vector without duplicates leaves one
      without duplicates, none of whose modules the last record names. */
  lemma DistinctFront(c: VecCoverage, name: Name)
    requires Distinct(c) && c != []
    ensures c == c[..|c| - 1] + [c[|c| - 1]]
    ensures Distinct(c[..|c| - 1])
    ensures HasModule(c[..|c| - 1], name) ==> !SameModule(c[|c| - 1].moduleName, name)
  {
    var front := c[..|c| - 1];
    assert forall k | 0 <= k < |front| :: front[k] == c[k];
    if HasModule(front, name) {
      var k :| 0 <= k < |front| && SameModule(front[k].moduleName, name);
      assert !SameModule(c[k].moduleName, c[|c| - 1].moduleName);
    }
  }

  lemma LookupSingle(e: ModuleCoverage, name: Name)
    ensures HasModule([e], name) <==> SameModule(e.moduleName, name)
    ensures Lookup([e], name) == if SameModule(e.moduleName, name) then e.offsets else {}
  {
    if SameModule(e.moduleName, name) {
      assert IsFirstMatch([e], name, 0);
    }
  }

  /** Lookup in the records of `c` that `other` lacks. */
  lemma {:induction false} MissingFromLookup(c: VecCoverage, other: VecCoverage, name: Name)
    requires Distinct(c)
    ensures HasModule(MissingFrom(c, other), name) <==> HasModule(c, name) && !HasModule(other, name)
    ensures Lookup(MissingFrom(c, other), name) == if HasModule(other, name) then {} else Lookup(c, name)
    decreases |c|
  {
    if c != [] {
      var front := c[..|c| - 1];
      var last := c[|c| - 1];
      assert c == front + [last];
      assert Distinct(front);
      MissingFromLookup(front, other, name);
      LookupAppend(front, [last], name);
      LookupSingle(last, name);
      var tail := if HasModule(other, last.moduleName) then [] else [last];
      LookupAppend(MissingFrom(front, other), tail, name);
      if tail != [] {
        LookupSingle(last, name);
      }
      if SameModule(last.moduleName, name) {
        LookupSameKey(other, last.moduleName, name);
      }
    }
  }
}
