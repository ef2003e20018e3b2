/** The binary coverage file of aflcov.cpp (`WriteCoverageBinary`,
    `ReadCoverageBinary`) as a byte string, and the text listing of
    `WriteCoverage`. Every `uint64_t` is written in host byte order,
    taken here to be little-endian (x86 and x64). */
module CoverageBinary {
  import opened Wrappers
  import opened BoundedInts
  import opened CStrings
  import opened ModuleNames
  import opened Coverage
  import opened OrderedSets

  // ---------------------------------------------------------------------
  // Little-endian integers

  function Pow256(n: nat): (r: nat)
    ensures r > 0
  {
    if n == 0 then 1 else 256 * Pow256(n - 1)
  }

  /** The width of a `uint64_t` in bytes. */
  const WORD: nat := 8

  lemma Pow256OfWord()
    ensures Pow256(WORD) == TWO_TO_THE_64
  {
    assert Pow256(8) == TWO_TO_THE_64;
  }

  /** `v` as `n` little-endian bytes, least significant first. */
  function LeBytes(v: nat, n: nat): (r: Bytes)
    requires v < Pow256(n)
    ensures |r| == n
  {
    if n == 0 then [] else [(v % 256) as uint8] + LeBytes(v / 256, n - 1)
  }

  /** The number whose little-endian bytes are `b`. */
  function LeValue(b: Bytes): (r: nat)
    ensures r < Pow256(|b|)
  {
    if b == [] then 0 else b[0] + 256 * LeValue(b[1..])
  }

  lemma {:induction false} LeValueOfLeBytes(v: nat, n: nat)
    requires v < Pow256(n)
    ensures LeValue(LeBytes(v, n)) == v
  {
    if n > 0 {
      LeValueOfLeBytes(v / 256, n - 1);
      assert LeBytes(v, n)[1..] == LeBytes(v / 256, n - 1);
    }
  }

  lemma {:induction false} LeBytesOfLeValue(b: Bytes)
    ensures LeBytes(LeValue(b), |b|) == b
  {
    if b != [] {
      LeBytesOfLeValue(b[1..]);
      assert LeValue(b) / 256 == LeValue(b[1..]);
      assert b == [b[0]] + b[1..];
    }
  }

  /** A `uint64_t` as `fwrite` stores it: eight bytes. */
  function U64Bytes(v: uint64): (r: Bytes)
    ensures |r| == 8
  {
    Pow256OfWord();
    LeBytes(v, WORD)
  }

  /** One `fread` of a `uint64_t`: the value and the bytes after it, or
      `None` when fewer than eight bytes are left. */
  function ReadU64(b: Bytes): (r: Option<(uint64, Bytes)>)
    ensures r.Some? <==> |b| >= 8
    ensures r.Some? ==> r.value.1 == b[8..]
  {
    if |b| < 8 then None
    else
      Pow256OfWord();
      Some((LeValue(b[..WORD]) as uint64, b[8..]))
  }

  lemma ReadU64OfU64Bytes(v: uint64, rest: Bytes)
    ensures ReadU64(U64Bytes(v) + rest) == Some((v, rest))
  {
    var b := U64Bytes(v) + rest;
    assert b[..8] == U64Bytes(v);
    assert b[8..] == rest;
    Pow256OfWord();
    LeValueOfLeBytes(v, WORD);
  }

  // ---------------------------------------------------------------------
  // Names

  /** The bytes of `module_name.data()`, all `size()` of them, NULs
      included. */
  function NameBytes(name: Name): (r: Bytes)
    ensures |r| == |name|
  {
    seq(|name|, i requires 0 <= i < |name| => name[i] as int)
  }

  /** `std::string(str_data, str_size)`: one character per byte. */
  function BytesName(b: Bytes): (r: Name)
    ensures |r| == |b|
  {
    seq(|b|, i requires 0 <= i < |b| => b[i] as char)
  }

  lemma NameBytesRoundTrip(name: Name)
    ensures BytesName(NameBytes(name)) == name
  {
  }

  // ---------------------------------------------------------------------
  // Writing

  /** Every count the writer stores fits its `uint64_t` field. */
  predicate Serializable(coverage: VecCoverage) {
    && |coverage| < TWO_TO_THE_64
    && forall i | 0 <= i < |coverage| :: ModuleSerializable(coverage[i])
  }

  predicate ModuleSerializable(e: ModuleCoverage) {
    |e.moduleName| < TWO_TO_THE_64 && |e.offsets| < TWO_TO_THE_64
  }

  function OffsetsBytes(xs: seq<uint64>): (r: Bytes)
    ensures |r| == 8 * |xs|
  {
    if xs == [] then [] else U64Bytes(xs[0]) + OffsetsBytes(xs[1..])
  }

  /** One record: name length, name bytes, offset count, then the
      offsets in the set's (ascending) iteration order. */
  function EncodeModule(e: ModuleCoverage): (r: Bytes)
    requires ModuleSerializable(e)
    ensures |r| == 16 + |e.moduleName| + 8 * |e.offsets|
  {
    U64Bytes(|e.moduleName|) + (NameBytes(e.moduleName)
      + (U64Bytes(|e.offsets|) + OffsetsBytes(Ascending(e.offsets))))
  }

  function EncodeModules(coverage: VecCoverage): (r: Bytes)
    requires forall i | 0 <= i < |coverage| :: ModuleSerializable(coverage[i])
    ensures |r| >= 16 * |coverage|
  {
    if coverage == [] then [] else EncodeModule(coverage[0]) + EncodeModules(coverage[1..])
  }

  /** `WriteCoverageBinary(coverage, fp)`: the record count, then the
      records in vector order. */
  function WriteCoverageBinary(coverage: VecCoverage): (r: Bytes)
    requires Serializable(coverage)
    ensures |r| >= 8 + 16 * |coverage|
    ensures r[..8] == U64Bytes(|coverage|)
  {
    U64Bytes(|coverage|) + EncodeModules(coverage)
  }

  // ---------------------------------------------------------------------
  // Reading

  /** `rest` is what is left of `b` after a reader consumed a prefix. */
  predicate Suffix(rest: Bytes, b: Bytes) {
    |rest| <= |b| && rest == b[|b| - |rest|..]
  }

  /** `fread` of `n` raw bytes. */
  function ReadBytes(b: Bytes, n: nat): (r: Option<(Bytes, Bytes)>)
    ensures r.Some? <==> n <= |b|
    ensures r.Some? ==> r.value.0 + r.value.1 == b && |r.value.0| == n
  {
    if |b| < n then None else Some((b[..n], b[n..]))
  }

  /** Reads `n` offsets and inserts each into a set, so repeated values
      collapse and their order is forgotten. */
  function ReadOffsets(b: Bytes, n: nat): (r: Option<(set<uint64>, Bytes)>)
    ensures r.Some? <==> 8 * n <= |b|
    ensures r.Some? ==> |r.value.0| <= n && r.value.1 == b[8 * n..]
    decreases n
  {
    if n == 0 then Some(({}, b))
    else
      match ReadU64(b)
      case None => None
      case Some((x, rest)) =>
        match ReadOffsets(rest, n - 1)
        case None => None
        case Some((xs, rest')) => Some(({x} + xs, rest'))
  }

  /** A name field: its length, then that many bytes. */
  function ReadName(b: Bytes): (r: Option<(Name, Bytes)>)
    ensures r.Some? ==> 8 + |r.value.0| + |r.value.1| == |b| && Suffix(r.value.1, b)
  {
    var (size, b1) :- ReadU64(b);
    var (nameBytes, b2) :- ReadBytes(b1, size);
    Some((BytesName(nameBytes), b2))
  }

  /** An offsets field: its count, then that many offsets. */
  function ReadOffsetSet(b: Bytes): (r: Option<(set<uint64>, Bytes)>)
    ensures r.Some? ==> 8 + 8 * |r.value.0| <= |b| && Suffix(r.value.1, b)
  {
    var (count, b1) :- ReadU64(b);
    ReadOffsets(b1, count)
  }

  /** One record as the loop body reads it. */
  function ReadModule(b: Bytes): (r: Option<(ModuleCoverage, Bytes)>)
    ensures r.Some? ==>
              && 16 + |r.value.0.moduleName| + 8 * |r.value.0.offsets| + |r.value.1| <= |b|
              && Suffix(r.value.1, b)
  {
    var (name, b1) :- ReadName(b);
    var (offsets, b2) :- ReadOffsetSet(b1);
    Some((ModuleCoverage(name, offsets), b2))
  }

  /** Reads `n` records, pushing each onto `acc`. */
  function ReadModules(b: Bytes, n: nat, acc: VecCoverage): (r: Option<(VecCoverage, Bytes)>)
    ensures r.Some? ==> |acc| + n == |r.value.0| && r.value.0[..|acc|] == acc
    decreases n
  {
    if n == 0 then Some((acc, b))
    else
      match ReadModule(b)
      case None => None
      case Some((e, rest)) =>
        var r := ReadModules(rest, n - 1, acc + [e]);
        assert r.Some? ==> r.value.0[..|acc|] == r.value.0[..|acc| + 1][..|acc|] == (acc + [e])[..|acc|];
        r
  }

  /** `ReadCoverageBinary(coverage, fp)`: appends the file's records to
      `coverage`; bytes after the last record are not looked at. `None`
      marks a file that ends before a field is complete, where the
      source goes on with whatever `fread` left in its buffers. */
  function ReadCoverageBinary(coverage: VecCoverage, b: Bytes): (r: Option<VecCoverage>)
    ensures r.Some? ==> |coverage| <= |r.value| && r.value[..|coverage|] == coverage
    ensures |b| < 8 ==> r.None?
  {
    match ReadU64(b)
    case None => None
    case Some((n, rest)) =>
      match ReadModules(rest, n, coverage)
      case None => None
      case Some((result, _)) => Some(result)
  }

  // ---------------------------------------------------------------------
  // Round trip

  /** Regrouping a concatenation; stated once so that the byte-level
      proofs below need not rediscover it. */
  lemma Regroup<T>(a: seq<T>, b: seq<T>, c: seq<T>)
    ensures (a + b) + c == a + (b + c)
  {
  }

  lemma {:induction false} ReadOffsetsOfBytes(xs: seq<uint64>, rest: Bytes)
    ensures ReadOffsets(OffsetsBytes(xs) + rest, |xs|) == Some((Elements(xs), rest))
  {
    if xs != [] {
      var b' := OffsetsBytes(xs[1..]) + rest;
      Regroup(U64Bytes(xs[0]), OffsetsBytes(xs[1..]), rest);
      ReadU64OfU64Bytes(xs[0], b');
      ReadOffsetsOfBytes(xs[1..], rest);
    } else {
      assert OffsetsBytes(xs) + rest == rest;
    }
  }

  lemma ReadNameOfBytes(name: Name, rest: Bytes)
    requires |name| < TWO_TO_THE_64
    ensures ReadName(U64Bytes(|name|) + (NameBytes(name) + rest)) == Some((name, rest))
  {
    var b1 := NameBytes(name) + rest;
    ReadU64OfU64Bytes(|name|, b1);
    assert b1[..|name|] == NameBytes(name);
    assert b1[|name|..] == rest;
    NameBytesRoundTrip(name);
  }

  lemma ReadOffsetSetOfBytes(xs: seq<uint64>, rest: Bytes)
    requires |xs| < TWO_TO_THE_64
    ensures ReadOffsetSet(U64Bytes(|xs|) + (OffsetsBytes(xs) + rest)) == Some((Elements(xs), rest))
  {
    var b1 := OffsetsBytes(xs) + rest;
    ReadU64OfU64Bytes(|xs|, b1);
    ReadOffsetsOfBytes(xs, rest);
    ReadOffsetSetStep(U64Bytes(|xs|) + b1, b1, |xs|, Elements(xs), rest);
  }

  lemma ReadOffsetSetStep(b: Bytes, b1: Bytes, count: uint64, offsets: set<uint64>, rest: Bytes)
    requires ReadU64(b) == Some((count, b1))
    requires ReadOffsets(b1, count) == Some((offsets, rest))
    ensures ReadOffsetSet(b) == Some((offsets, rest))
  {
  }

  lemma ReadModuleStep(b: Bytes, name: Name, b1: Bytes, offsets: set<uint64>, rest: Bytes)
    requires ReadName(b) == Some((name, b1))
    requires ReadOffsetSet(b1) == Some((offsets, rest))
    ensures ReadModule(b) == Some((ModuleCoverage(name, offsets), rest))
  {
  }

  lemma ReadModuleOfEncode(e: ModuleCoverage, rest: Bytes)
    requires ModuleSerializable(e)
    ensures ReadModule(EncodeModule(e) + rest) == Some((e, rest))
  {
    var xs := Ascending(e.offsets);
    var n := NameBytes(e.moduleName);
    var o := U64Bytes(|xs|) + OffsetsBytes(xs);
    var b1 := U64Bytes(|xs|) + (OffsetsBytes(xs) + rest);
    Regroup(U64Bytes(|xs|), OffsetsBytes(xs), rest);
    Regroup(n, o, rest);
    Regroup(U64Bytes(|e.moduleName|), n + o, rest);
    assert EncodeModule(e) + rest == U64Bytes(|e.moduleName|) + (n + b1);
    ReadNameOfBytes(e.moduleName, b1);
    ReadOffsetSetOfBytes(xs, rest);
    assert Elements(xs) == e.offsets;
    ReadModuleStep(EncodeModule(e) + rest, e.moduleName, b1, e.offsets, rest);
  }

  lemma ReadModulesStep(b: Bytes, n: nat, acc: VecCoverage, e: ModuleCoverage, b1: Bytes)
    requires n > 0
    requires ReadModule(b) == Some((e, b1))
    ensures ReadModules(b, n, acc) == ReadModules(b1, n - 1, acc + [e])
  {
  }

  /** One record more in front, given the records after it read back. */
  lemma ReadModulesCons(e: ModuleCoverage, later: VecCoverage, rest: Bytes, acc: VecCoverage)
    requires ModuleSerializable(e) && forall i | 0 <= i < |later| :: ModuleSerializable(later[i])
    requires ReadModules(EncodeModules(later) + rest, |later|, acc + [e]) == Some((acc + [e] + later, rest))
    ensures ReadModules(EncodeModules([e] + later) + rest, |later| + 1, acc) == Some((acc + ([e] + later), rest))
  {
    var coverage := [e] + later;
    assert coverage[0] == e && coverage[1..] == later;
    var b := EncodeModules(coverage) + rest;
    var tail := EncodeModules(later) + rest;
    assert b == EncodeModule(e) + tail by {
      Regroup(EncodeModule(e), EncodeModules(later), rest);
    }
    assert ReadModule(b) == Some((e, tail)) by {
      ReadModuleOfEncode(e, tail);
    }
    ReadModulesStep(b, |coverage|, acc, e, tail);
    Regroup(acc, [e], later);
  }

  lemma {:induction false} ReadModulesOfEncode(coverage: VecCoverage, rest: Bytes, acc: VecCoverage)
    requires forall i | 0 <= i < |coverage| :: ModuleSerializable(coverage[i])
    ensures ReadModules(EncodeModules(coverage) + rest, |coverage|, acc) == Some((acc + coverage, rest))
  {
    if coverage != [] {
      var e := coverage[0];
      var later := coverage[1..];
      assert [e] + later == coverage;
      assert forall i | 0 <= i < |later| :: later[i] == coverage[i + 1];
      ReadModulesOfEncode(later, rest, acc + [e]);
      ReadModulesCons(e, later, rest, acc);
    } else {
      assert EncodeModules(coverage) + rest == rest;
      assert acc + coverage == acc;
    }
  }

  /** Reading back what `WriteCoverageBinary` wrote appends exactly the
      written vector — names byte for byte, offsets as sets, records in
      order — whatever follows in the file. */
  lemma ReadWriteRoundTrip(prefix: VecCoverage, coverage: VecCoverage, rest: Bytes)
    requires Serializable(coverage)
    ensures ReadCoverageBinary(prefix, WriteCoverageBinary(coverage) + rest) == Some(prefix + coverage)
  {
    var tail := EncodeModules(coverage) + rest;
    Regroup(U64Bytes(|coverage|), EncodeModules(coverage), rest);
    ReadU64OfU64Bytes(|coverage|, tail);
    ReadModulesOfEncode(coverage, rest, prefix);
  }

  // ---------------------------------------------------------------------
  // Text listing

  /** One line `name+offset` of `WriteCoverage`; the name is what `%s`
      prints of `c_str()` (up to the first NUL); hexadecimal formatting
      is not modelled. */
  datatype TextLine = TextLine(moduleName: Name, offset: uint64)

  /** Bit 63 marks cmp and other special coverage kinds. */
  predicate IsSpecial(offset: uint64) {
    offset >= TWO_TO_THE_63
  }

  /** The offsets, in order, that are not special. */
  function PlainOffsets(xs: seq<uint64>): (r: seq<uint64>)
    ensures forall x :: x in r <==> x in xs && !IsSpecial(x)
    decreases |xs|
  {
    if xs == [] then []
    else
      var tail := PlainOffsets(xs[1..]);
      assert forall x | x in xs[1..] :: x in xs;
      if IsSpecial(xs[0]) then tail else [xs[0]] + tail
  }

  function ModuleLines(e: ModuleCoverage): seq<TextLine> {
    var xs := PlainOffsets(Ascending(e.offsets));
    seq(|xs|, i requires 0 <= i < |xs| => TextLine(View(e.moduleName, NUL), xs[i]))
  }

  /** `WriteCoverage(coverage, filename)`: the lines in file order. */
  function WriteCoverage(coverage: VecCoverage): (r: seq<TextLine>)
    decreases |coverage|
  {
    if coverage == [] then []
    else WriteCoverage(coverage[..|coverage| - 1]) + ModuleLines(coverage[|coverage| - 1])
  }

  /** `line` is one of the lines written for record `e`. */
  predicate LineOf(e: ModuleCoverage, line: TextLine) {
    && line.moduleName == View(e.moduleName, NUL)
    && line.offset in e.offsets
    && !IsSpecial(line.offset)
  }

  /** One record's lines are its non-special offsets under its name. */
  lemma ModuleLinesMembers(e: ModuleCoverage, line: TextLine)
    ensures line in ModuleLines(e) <==> LineOf(e, line)
  {
    var ls := ModuleLines(e);
    var xs := PlainOffsets(Ascending(e.offsets));
    if line in ls {
      var k :| 0 <= k < |ls| && ls[k] == line;
      assert xs[k] in xs;
    }
    if LineOf(e, line) {
      assert line.offset in xs;
      var k :| 0 <= k < |xs| && xs[k] == line.offset;
      assert ls[k] == line;
    }
  }

  /** Appending one record's lines `b` to the lines `a` of `front`. */
  lemma LinesStep(front: VecCoverage, last: ModuleCoverage, line: TextLine, a: seq<TextLine>, b: seq<TextLine>)
    requires line in a <==> exists i | 0 <= i < |front| :: LineOf(front[i], line)
    requires line in b <==> LineOf(last, line)
    ensures line in a + b <==> exists i | 0 <= i < |front + [last]| :: LineOf((front + [last])[i], line)
  {
    var coverage := front + [last];
    if exists i | 0 <= i < |coverage| :: LineOf(coverage[i], line) {
      var i :| 0 <= i < |coverage| && LineOf(coverage[i], line);
      if i < |front| {
        assert coverage[i] == front[i];
      }
    }
    if line in a {
      var i :| 0 <= i < |front| && LineOf(front[i], line);
      assert coverage[i] == front[i];
    }
    if line in b {
      assert coverage[|front|] == last;
    }
  }

  /** A line is written exactly for each non-special offset of each
      record, under the record's name cut at its first NUL. */
  lemma {:induction false} WriteCoverageLines(coverage: VecCoverage, line: TextLine)
    ensures line in WriteCoverage(coverage) <==> exists i | 0 <= i < |coverage| :: LineOf(coverage[i], line)
    decreases |coverage|
  {
    if coverage != [] {
      var front := coverage[..|coverage| - 1];
      var last := coverage[|coverage| - 1];
      assert front + [last] == coverage;
      assert WriteCoverage(coverage) == WriteCoverage(front) + ModuleLines(last);
      assert line in WriteCoverage(front) + ModuleLines(last) <==>
             exists i | 0 <= i < |front + [last]| :: LineOf((front + [last])[i], line) by {
        WriteCoverageLines(front, line);
        ModuleLinesMembers(last, line);
        LinesStep(front, last, line, WriteCoverage(front), ModuleLines(last));
      }
    }
  }
}
