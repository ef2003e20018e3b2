/** The iteration order of a C++ `std::set<uint64_t>`: ascending. */
module OrderedSets {
  import opened BoundedInts

  predicate IsMinimum(s: set<uint64>, m: uint64) {
    m in s && forall x | x in s :: m <= x
  }

  predicate StrictlyAscending(xs: seq<uint64>) {
    forall i, j | 0 <= i < j < |xs| :: xs[i] < xs[j]
  }

  /** A finite non-empty set of integers has a least element. */
  lemma {:induction false} HasMinimum(s: set<uint64>)
    requires s != {}
    ensures exists m :: IsMinimum(s, m)
    decreases |s|
  {
    var m :| m in s;
    if s == {m} {
      assert IsMinimum(s, m);
    } else {
      HasMinimum(s - {m});
      var m' :| IsMinimum(s - {m}, m');
      assert forall x | x in s :: x == m || x in s - {m};
      if m' < m {
        assert IsMinimum(s, m');
      } else {
        assert IsMinimum(s, m);
      }
    }
  }

  function Minimum(s: set<uint64>): (m: uint64)
    requires s != {}
    ensures IsMinimum(s, m)
  {
    HasMinimum(s);
    var m :| IsMinimum(s, m);
    m
  }

  /** The elements of `s` in the order a `std::set` iterator visits
      them: each once, smallest first. */
  function Ascending(s: set<uint64>): (r: seq<uint64>)
    ensures |r| == |s|
    ensures forall x :: x in r <==> x in s
    ensures StrictlyAscending(r)
    decreases |s|
  {
    if s == {} then []
    else
      var m := Minimum(s);
      var rest := Ascending(s - {m});
      ConsAscending(m, rest);
      [m] + rest
  }

  /** Putting an element below all others in front keeps the order. */
  lemma ConsAscending(m: uint64, xs: seq<uint64>)
    requires StrictlyAscending(xs) && forall x | x in xs :: m < x
    ensures StrictlyAscending([m] + xs)
  {
    var r := [m] + xs;
    forall i, j | 0 <= i < j < |r|
      ensures r[i] < r[j]
    {
      assert r[j] == xs[j - 1] && xs[j - 1] in xs;
      if i > 0 {
        assert r[i] == xs[i - 1];
      }
    }
  }

  /** The set of the elements of `xs`, as repeated `insert`s build it. */
  function Elements(xs: seq<uint64>): (r: set<uint64>)
    ensures forall x :: x in r <==> x in xs
  {
    if xs == [] then {} else {xs[0]} + Elements(xs[1..])
  }
}
