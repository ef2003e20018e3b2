# tinyinst-rs coverage core in Dafny

This project models the coverage core of tinyinst-rs, the Rust binding of the TinyInst
dynamic instrumentation library, and proves properties of the model. The core has two
layers.

- **The C++ coverage helpers** (`aflcov.cpp`, `aflcov.h`).
  - A coverage value is a `VecCoverage`: an ordered vector of per-module records. Each
    record holds a module name and a set of 64-bit code offsets.
  - Records are matched by module name with `_stricmp`. `GetModuleCoverage` returns the
    first match.
  - Operations on it: merge, intersection, difference, symmetric difference and
    containment.
  - A binary file format (`WriteCoverageBinary` / `ReadCoverageBinary`) and a text
    listing (`WriteCoverage`). The text listing skips offsets with bit 63 set.
  - Two methods of the `AFLCov` engine, `GetCoverage` and `IgnoreCoverage`.
- **The Rust session** (`tinyinst.rs`).
  - `TinyInst::new` marshals two argument lists into `argc`/`argv` pairs. It panics on an
    argument holding a NUL byte, or on a count that does not fit an `i32`.
  - `run` passes the stored arguments and the timeout.
  - `vec_coverage` empties the caller's vector, collects coverage, and then hands the
    persistent buffer to `IgnoreCoverage`, so that what was reported "won't be reported
    again".
  - The `RunResult` enumeration.

## Modules

| module | file | content |
|---|---|---|
| `Wrappers` | `wrappers.dfy` | `Option` and `Result` |
| `BoundedInts` | `bounded_ints.dfy` | `uint8`, `int32`, `uint32` and `uint64`, each as a subset of `int` |
| `CStrings` | `c_strings.dfy` | what C sees of a buffer: the prefix before the first terminator |
| `ModuleNames` | `module_names.dfy` | names as byte strings; `_stricmp` equality as equality of the case-folded `c_str()` views |
| `Coverage` | `coverage.dfy` | `ModuleCoverage`, `VecCoverage`, `GetModuleCoverage`, and `Lookup` (the offsets of the first record naming a module) |
| `CoverageMerge` | `coverage_merge.dfy` | `MergeCoverage` |
| `CoverageSetOps` | `coverage_set_ops.dfy` | intersection, difference, symmetric difference, containment |
| `OrderedSets` | `ordered_sets.dfy` | the ascending iteration order of a `std::set<uint64_t>` |
| `CoverageBinary` | `coverage_binary.dfy` | the binary file as a byte string, its reader, and the text listing |
| `AflCov` | `aflcov.dfy` | `AFLCov::GetCoverage` and `AFLCov::IgnoreCoverage` over an abstract engine |
| `Marshal` | `marshal.dfy` | `CString` construction, pointer arrays, and the `i32` count |
| `TinyInst` | `tinyinst.dfy` | `RunResult`, `new`, `run`, `vec_coverage`, and sessions of several steps |

### How the model is set up

**Mutation becomes functions.**
- Every C++ operation that mutates a vector in place is a function that returns the new
  vector.
- The operations that append to a caller's `result` take `result` as an argument. Their
  contracts state that `result` stays a prefix of the answer.

**Lookup.**
- `_stricmp` finds the first match, so a vector may hold two records for one module, and
  the later one is then invisible to every lookup.
- The set-algebra laws are therefore stated through `Lookup`, the offsets of the first
  match. They hold exactly for vectors without duplicate module names (`Distinct`).
- `ContainsNotReflexiveWithDuplicates` shows that the restriction is needed.

**The engine** (`AflCov.Engine`) is the list of instrumented modules. Each module carries:
- its name;
- the `instrumented` flag;
- `collected_coverage`;
- `ignore_coverage`;
- the offsets whose instrumentation `IgnoreCoverage` removed.

**The Rust side.** The bridge's `GetCoverage` reports this call's collected locations to
`afl_coverage`, module by module, with offsets ascending. A run adds the reached offsets
that are not ignored to `collected`. Both of these are assumptions.

**What the protocol guarantees.**
- `NeverReportedTwice` proves the promise of `vec_coverage`: when every collection
  clears, no location appears in two reports.
- `RepeatsWithoutClear` shows the other side: with `clear_coverage == false`, a second
  collection with no run in between reports the same locations again. `IgnoreCoverage`
  never touches `collected_coverage`.

## Model

| member | source | states |
|---|---|---|
| `Coverage.GetModuleCoverage` | src/aflcov.cpp:58-68 | finds the first record whose name `_stricmp`-equals `name`; `None` (NULL) exactly when no record names the module |
| `ModuleNames.SameModule` | src/aflcov.cpp:62 | `_stricmp(a.c_str(), b.c_str()) == 0` holds iff the two `c_str()` views have equal length and agree at every position after `tolower` |
| `ModuleNames.SameModuleIsCaseFolding` | src/aflcov.cpp:62 | for NUL-free names, `_stricmp` equality is equal length and equal characters up to ASCII case |
| `ModuleNames.SameModuleIgnoresTailAfterNul` | src/aflcov.cpp:62 | bytes after an embedded NUL take no part in the comparison (`c_str()`) |
| `Coverage.LookupSameKey` | src/aflcov.cpp:58-68 | two names that compare equal find the same record and the same offsets |
| `Coverage.LookupAppend` | src/aflcov.cpp:60-66 | searching `a + b` finds the module in `a` if `a` names it, otherwise in `b` |
| `Coverage.LookupDistinct` | src/aflcov.cpp:58-68 | in a vector without duplicate names every record is the one its own name finds |
| `CoverageMerge.MergeOneLookup` | src/aflcov.cpp:74-84 | one merge step unites the record's offsets into the module's lookup and adds the module if missing |
| `CoverageMerge.MergeCoverage` | src/aflcov.cpp:70-86 | the vector never shrinks, and grows by at most one record per record of `toAdd` |
| `CoverageMerge.MergeShape` | src/aflcov.cpp:70-86 | existing records keep place and name, and their offsets only grow; records of modules `toAdd` does not name are unchanged; appended records name modules of `toAdd` that were missing |
| `CoverageMerge.MergeLookup` | src/aflcov.cpp:70-86 | for all inputs: a module is present after the merge iff it was present before or `toAdd` names it; its offsets become the old offsets united with every offset any `toAdd` record holds for it |
| `CoverageMerge.MergePreservesDistinct` | src/aflcov.cpp:70-86 | merging into a vector without duplicate names never creates a duplicate |
| `CoverageMerge.MergeAppendsUnmatched` | src/aflcov.cpp:81-84 | for a duplicate-free `toAdd`, the appended tail is exactly `toAdd`'s records for modules new to `coverage`, unchanged and in order |
| `CoverageSetOps.IntersectOneLookup` | src/aflcov.cpp:94-110 | one loop iteration contributes, for its module, its offsets that `coverage2` also holds, and a record only when that set is non-empty |
| `CoverageSetOps.CoverageIntersection` | src/aflcov.cpp:88-112 | `result` stays a prefix of the answer, and at most one record per record of `coverage1` is appended |
| `CoverageSetOps.IntersectionShape` | src/aflcov.cpp:88-112 | every appended record is non-empty, names a module of both vectors, and holds only offsets `coverage2` has for it |
| `CoverageSetOps.IntersectionLookup` | src/aflcov.cpp:88-112 | with `coverage1` duplicate-free, each module gets the offsets both sides hold, and has a record iff that set is non-empty |
| `CoverageSetOps.IntersectionContainedInSecond` | src/aflcov.cpp:88-112 | `coverage2` contains the intersection |
| `CoverageSetOps.IntersectionContainedInFirst` | src/aflcov.cpp:88-112 | a duplicate-free `coverage1` contains the intersection |
| `CoverageSetOps.DifferenceOneLookup` | src/aflcov.cpp:171-191 | one iteration copies a record whose module `coverage1` lacks, otherwise keeps the offsets `coverage1` lacks, and drops the record if none are left |
| `CoverageSetOps.CoverageDifference` | src/aflcov.cpp:164-194 | `result` stays a prefix of the answer, and at most one record per record of `coverage2` is appended |
| `CoverageSetOps.DifferenceShape` | src/aflcov.cpp:164-194 | every appended record names a module of `coverage2`, shares no offset with `coverage1`'s record for it, and is empty only when copying a module `coverage1` lacks |
| `CoverageSetOps.DifferenceLookup` | src/aflcov.h:25-28 | "coverage2 not present in coverage1": with `coverage2` duplicate-free, each module gets `coverage2`'s offsets minus `coverage1`'s; it is present iff `coverage2` has it and either `coverage1` lacks it or the difference is non-empty |
| `CoverageSetOps.SymmetricOneLookup` | src/aflcov.cpp:120-148 | one first-loop iteration copies a record whose module `coverage2` lacks, otherwise keeps the offsets on exactly one side, and drops the record if there are none |
| `CoverageSetOps.CoverageSymmetricDifference` | src/aflcov.cpp:114-162 | `result` stays a prefix of the answer, and at most one record per record of either input is appended |
| `CoverageSetOps.MissingFromNames` | src/aflcov.cpp:153-161 | the second loop appends only records of `coverage2` whose module `coverage1` lacks, and every such record |
| `CoverageSetOps.SymmetricDifferenceOrder` | src/aflcov.cpp:114-162 | the result lists records of `coverage1`'s modules first, then records of modules only `coverage2` has |
| `CoverageSetOps.SymmetricDifferenceLookup` | src/aflcov.cpp:114-162 | with both sides duplicate-free, each module gets the offsets held by exactly one side |
| `CoverageSetOps.SymmetricDifferenceHasModule` | src/aflcov.cpp:114-162 | a module only one side has always gets a record; a shared module gets one iff the two sides' offsets differ |
| `CoverageSetOps.SymmetricDifferenceCommutes` | src/aflcov.h:29-32 | "coverage2 not present in coverage1 and vice versa": for duplicate-free inputs, swapping the arguments changes no module's offsets or presence |
| `CoverageSetOps.SymmetricDifferenceNotSymmetricWithDuplicates` | src/aflcov.cpp:118-161 | with a second record for one module in `coverage1`, swapping the arguments changes the result: one order yields offsets `{1, 2}` for the module, the other yields no record |
| `CoverageSetOps.CoverageContains` | src/aflcov.cpp:196-216 | true iff every record of `coverage2` names a module `coverage1` has, and its offsets are among the ones `coverage1` holds for it |
| `CoverageSetOps.ContainsReflexive` | src/aflcov.cpp:196-216 | a duplicate-free vector contains itself |
| `CoverageSetOps.ContainsNotReflexiveWithDuplicates` | src/aflcov.cpp:201 | with a second record for one module, a vector does not contain itself |
| `CoverageSetOps.ContainsTransitive` | src/aflcov.cpp:196-216 | containment is transitive |
| `CoverageSetOps.ContainsLookup` | src/aflcov.cpp:196-216 | for a duplicate-free `coverage2`, containment is inclusion of the module-to-offsets view, module by module |
| `CoverageSetOps.MergeContains` | src/aflcov.cpp:70-86 | the merge result contains what was merged, and contains the original when that had no duplicates |
| `OrderedSets.Ascending` | src/aflcov.cpp:254-258 | iterating a `std::set` visits every element exactly once, in strictly ascending order |
| `OrderedSets.Elements` | src/aflcov.cpp:293-296 | repeated `insert`s build the set of the values read |
| `CoverageBinary.ReadU64` | src/aflcov.cpp:279 | reading a `uint64_t` succeeds iff eight bytes are left, and consumes exactly those eight |
| `CoverageBinary.ReadU64OfU64Bytes` | src/aflcov.cpp:243-244 | a `uint64_t` written little-endian reads back as itself |
| `CoverageBinary.LeValueOfLeBytes` | src/aflcov.cpp:244 | decoding the little-endian bytes of a value gives the value back |
| `CoverageBinary.LeBytesOfLeValue` | src/aflcov.cpp:279 | encoding the decoded value of any bytes gives the same bytes back |
| `CoverageBinary.NameBytesRoundTrip` | src/aflcov.cpp:286-287 | `std::string(str_data, str_size)` rebuilds the written name byte for byte, NULs included |
| `CoverageBinary.WriteCoverageBinary` | src/aflcov.cpp:241-262 | the file starts with the record count as eight bytes, and each record takes at least sixteen more |
| `CoverageBinary.EncodeModule` | src/aflcov.cpp:247-260 | one record takes 8 bytes of name length, the name, 8 bytes of offset count and 8 bytes per offset |
| `CoverageBinary.ReadCoverageBinary` | src/aflcov.cpp:276-300 | reading only appends to the caller's vector, and fails on a file shorter than its count field |
| `CoverageBinary.ReadOffsets` | src/aflcov.cpp:289-296 | reading `n` offsets succeeds iff `8 * n` bytes are left; it consumes exactly those, and the set has at most `n` elements |
| `CoverageBinary.ReadName` | src/aflcov.cpp:282-287 | a name field consumes its 8-byte length and exactly as many bytes as the name has, leaving the rest of the input |
| `CoverageBinary.ReadModule` | src/aflcov.cpp:280-298 | a record read consumes at least 16 bytes plus the name and 8 bytes per distinct offset, and leaves a suffix of the input |
| `CoverageBinary.ReadOffsetsOfBytes` | src/aflcov.cpp:289-296 | the offsets written in order read back as the set of their values |
| `CoverageBinary.ReadModuleOfEncode` | src/aflcov.cpp:282-298 | one written record (name length, name, offset count, offsets) reads back as the same record |
| `CoverageBinary.ReadModulesOfEncode` | src/aflcov.cpp:280-299 | the written records read back, in order, pushed onto the accumulator |
| `CoverageBinary.ReadWriteRoundTrip` | src/aflcov.cpp:241-300 | reading what `WriteCoverageBinary` wrote appends exactly the written vector, whatever bytes follow |
| `CoverageBinary.PlainOffsets` | src/aflcov.cpp:231-233 | offsets with bit 63 set are skipped and all others are kept |
| `CoverageBinary.ModuleLinesMembers` | src/aflcov.cpp:228-236 | one record yields a line for each non-special offset, under its name cut at the first NUL |
| `CoverageBinary.WriteCoverageLines` | src/aflcov.cpp:218-239 | a line is written iff some record holds the offset with bit 63 clear, under that record's `c_str()` name |
| `AflCov.GetModuleByName` | src/aflcov.cpp:38 | finds the first instrumented module whose name matches, or none |
| `AflCov.GetModuleByNameSameModules` | src/aflcov.cpp:38 | the lookup depends only on the module names, which neither method changes |
| `AflCov.GetCoverage` | src/aflcov.cpp:5-31 | modules and ignore sets are unchanged; collected coverage is emptied exactly when `clear_coverage` is set; the vector only grows, by at most one record per module |
| `AflCov.GetCoverageIsMerge` | src/aflcov.cpp:8-28 | the loop is `MergeCoverage` of one record per module with non-empty collected coverage, in engine order |
| `AflCov.CollectedEntriesNonEmpty` | src/aflcov.cpp:12-13 | modules with nothing collected contribute no record |
| `AflCov.GetCoverageLookup` | src/aflcov.cpp:5-31 | each module's offsets become the old offsets plus everything collected for it; a module is present iff it was before or something was collected for it |
| `AflCov.IgnoreCoverage` | src/aflcov.cpp:34-56 | the module list is unchanged; every module keeps its flag and collected coverage, and its ignored and uninstrumented offsets only grow |
| `AflCov.IgnoreCoverageEffect` | src/aflcov.cpp:34-56 | each module gains in its ignore set the offsets of every record naming it, provided its name finds it; collected coverage, flag and name are untouched |
| `AflCov.IgnoreCoverageDistinct` | src/aflcov.cpp:34-56 | with distinct module names every module gains exactly the offsets the vector holds for it |
| `AflCov.IgnoreCoverageIdempotent` | src/aflcov.cpp:34-56 | ignoring the same vector twice is the same as ignoring it once |
| `Marshal.CStringNew` | src/tinyinst.rs:151 | `CString::new` succeeds iff the argument has no NUL byte; the C view of the result is the argument |
| `Marshal.CStringList` | src/tinyinst.rs:149-152 | on success one C string per argument; a failure names an argument that holds a NUL |
| `Marshal.MarshalArgs` | src/tinyinst.rs:149-158 | on success one C string per argument and a pointer array one slot longer; a failure names an argument that holds a NUL |
| `Marshal.MarshalArgsFails` | src/tinyinst.rs:149-152 | marshalling succeeds iff no argument holds a NUL; otherwise it names the first argument that does |
| `Marshal.CStringListContents` | src/tinyinst.rs:149-152 | each stored C string views as its argument |
| `Marshal.ReadArgvFromMarshalled` | src/tinyinst.rs:154-158 | walking `argv` from slot `i` up to the null pointer yields the arguments from `i` on |
| `Marshal.MarshalRoundTrip` | src/tinyinst.rs:149-158 | a C callee reading `argv` sees exactly the argument list |
| `TinyInst.Repr` | src/tinyinst.rs:19-26 | `#[repr(u32)]` numbers the four outcomes below 4 |
| `TinyInst.FromRepr` | src/tinyinst.rs:19-26 | a `u32` names an outcome iff it is below 4 |
| `TinyInst.ReprRoundTrip` | src/tinyinst.rs:19-26 | each outcome's `u32` representation maps back to that outcome |
| `TinyInst.FromReprRoundTrip` | src/tinyinst.rs:19-26 | a `u32` that decodes to an outcome is that outcome's representation, so decoding is the exact inverse of `Repr` |
| `TinyInst.New` | src/tinyinst.rs:139-184 | a constructed session passes `Init` the tinyinst-argument count and an `argv` reading back as those arguments; it stores the program arguments as an `argv` reading back as them, keeps the timeout, and starts with an empty buffer |
| `TinyInst.NewPanics` | src/tinyinst.rs:149-175 | construction succeeds iff both lists are NUL-free and the tinyinst-argument count fits an `i32`; each panic names its cause, checked in source order |
| `TinyInst.Run` | src/tinyinst.rs:186-193 | `Run` gets the stored program `argv`, its count, and the stored timeout as both bounds; it panics iff the count does not fit an `i32`; only the engine changes |
| `TinyInst.RunsUseStoredArguments` | src/tinyinst.rs:186-193 | over any sequence of steps, every `Run` call uses the arguments and timeout fixed at construction |
| `TinyInst.ReportMembers` | src/tinyinst.rs:86-91 | a location is reported iff some module of that name has collected its offset |
| `TinyInst.VecCoverage` | src/tinyinst.rs:207-217 | the session keeps its `Init` call, program arguments and timeout, and its list of modules |
| `TinyInst.VecCoverageDiscardsOldContents` | src/tinyinst.rs:208-209 | the caller's previous vector never shows in the result |
| `TinyInst.VecCoverageReports` | src/tinyinst.rs:207-217 | a location is reported iff some module has it in its collected coverage when the call is made |
| `TinyInst.IgnoreCoverageOf` | src/tinyinst.rs:218-222 | `ignore_coverage` changes only the engine, and keeps its modules |
| `TinyInst.FreshReport` | src/tinyinst.rs:215 | under the protocol invariant, nothing reported before is reported again |
| `TinyInst.RunKeepsInvariant` | src/tinyinst.rs:186-193 | a run keeps the protocol invariant |
| `TinyInst.CollectClearsAndIgnores` | src/tinyinst.rs:210-216 | for distinct module names, a clearing collection empties each module's collected coverage and adds all of it, with the old ignore set, to the new ignore set |
| `TinyInst.CollectKeepsInvariant` | src/tinyinst.rs:207-217 | a clearing collection keeps the invariant, with everything it reported now suppressed |
| `TinyInst.SecondCollectReportsNothing` | src/tinyinst.rs:215 | after a clearing collection, a second collection with no run between reports nothing |
| `TinyInst.RepeatsWithoutClear` | src/tinyinst.rs:210-216 | without `clear_coverage`, a second collection reports the same locations again |
| `TinyInst.ReplayFresh` | src/tinyinst.rs:215 | over any steps whose collections all clear, the reports avoid everything seen before and are pairwise disjoint |
| `TinyInst.NeverReportedTwice` | src/tinyinst.rs:245-284 | from a fresh session over distinct modules, runs and clearing collections never report a location twice |

## Left out

- File I/O: `fopen`/`fclose`/`fwrite`/`fread` become byte strings. The overloads taking a
  file name (aflcov.cpp:264-274, 302-312) only open and close the file and print on
  failure.
- `PrintCoverage` is console output only. The `%llx` hexadecimal text of `WriteCoverage`
  is left out too: a `TextLine` holds the name and the offset value.
- `CoverageBinary.ReadCoverageBinary`: a file that ends early gives `None`. The source
  carries on with whatever `fread` left in its buffers, which is indeterminate. Short
  reads are not otherwise modelled.
- Byte order: `uint64_t` fields are modelled as little-endian, the byte order of the x86
  and x64 hosts TinyInst runs on.
- `malloc`/`free` of the offset buffers: allocation failure is not modelled.
- The engine internals are not part of this model: `CollectCoverage`, `ClearCoverage`,
  `GetModuleByName` and `ClearCoverageInstrumentation` (from LiteCov and TinyInst).
  - `AflCov.GetModuleByName`: the engine's lookup is assumed to return the first module
    whose name matches case-insensitively.
  - `ClearCoverageInstrumentation` is recorded as the set of offsets whose
    instrumentation was removed.
  - `AflCov.ClearCoverage`: the engine's `ClearCoverage` is assumed to empty every
    module's collected coverage and to change nothing else.
- `TinyInst.RunEngine`: the effect of a run on the engine is an assumption. Every module
  becomes instrumented, and the offsets reached minus the ignored ones join
  `collected_coverage`. Target execution, timeouts and crash detection are outside the
  model. The outcome is a parameter.
- `TinyInst.ReportMembers`: the C++ shim behind the bridge's `GetCoverage` (`shim.h`) is
  not part of this model. It is assumed to run `AFLCov::GetCoverage` into the persistent
  buffer and report this call's collected locations, module by module, with offsets
  ascending. Locations are pairs of module name and offset, not the shim's `u64`
  encoding of them.
- `get_coverage_map`, `GetCurTime`, `RunWithCrashAnalysis`, `CleanTarget`,
  `HasNewCoverage`, `ClearInstrumentationData` and `ClearCmpCoverageData` are declared
  in the bridge, but none of them is called by the modelled Rust code.
- Pointer lifetimes, `Pin`, `UniquePtr` and the `Debug` impl are left out. A pointer is
  the index of the `CString` it points to.
- Rust `String`s are taken as their UTF-8 bytes; UTF-8 validity is not modelled.
- Duplicate module names: with duplicates, the later records are invisible to every
  lookup. The laws below are therefore stated only for inputs without duplicates. The
  operations themselves are total, and the `Shape` lemmas hold for all inputs.
- `CoverageSetOps.IntersectionLookup`: stated only for a duplicate-free `coverage1`.
- `CoverageSetOps.DifferenceLookup`: stated only for a duplicate-free `coverage2`.
- `CoverageSetOps.SymmetricDifferenceLookup`: stated only for duplicate-free inputs.
- `CoverageSetOps.SymmetricDifferenceHasModule`: stated only for duplicate-free inputs.
- `CoverageSetOps.SymmetricDifferenceCommutes`: stated only for duplicate-free inputs.
  With duplicates the source's symmetric difference is not symmetric, which
  `SymmetricDifferenceNotSymmetricWithDuplicates` exhibits. `ContainsNotReflexiveWithDuplicates`
  does the same for containment.
- Aliasing: the C++ set operations `push_back` into `result` while they iterate their
  inputs. Passing one vector both as `result` and as an input is therefore undefined
  behaviour. The model has value semantics and takes the three vectors as separate.
- Unknown outcome codes: a cxx shared enum can carry any `u32` across the bridge.
  `TinyInst.FromRepr` maps unknown codes to `None`, but `TinyInst.Run` takes one of the
  four declared outcomes, so a `Run` returning an undeclared code is not modelled.
- `TinyInst.NeverReportedTwice` assumes distinct module names and that every collection
  clears. `TinyInst.RepeatsWithoutClear` shows that it fails without clearing.
