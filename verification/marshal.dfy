/** How `TinyInst::new` (tinyinst.rs) turns a list of Rust strings into
    the `argc`/`argv` pair a C++ entry point reads: one `CString` per
    argument, then an array of pointers to them closed by a null
    pointer. Memory is a sequence of owned byte strings; a pointer is
    the index of the string it refers to. */
module Marshal {
  import opened Wrappers
  import opened BoundedInts
  import opened CStrings

  /** A Rust `String` argument, as its UTF-8 bytes. */
  type Arg = Bytes

  const NUL_BYTE: uint8 := 0

  /** One slot of the `Vec<*mut c_char>`: the null pointer or a pointer
      to the start of one of the stored `CString`s. */
  datatype Pointer = Null | ArgPtr(index: nat)

  /** A marshalled list kept whole: the `Vec<CString>` and the pointer
      array into it, stored side by side as the `TinyInst` struct does. */
  datatype ArgVector = ArgVector(cstrings: seq<Bytes>, pointers: seq<Pointer>)

  /** `CString::new(arg)`: the bytes with a NUL appended, or `None` when
      `arg` already holds a NUL (the `NulError` that `unwrap` turns into
      a panic). */
  function CStringNew(arg: Arg): (r: Option<Bytes>)
    ensures r.Some? <==> NUL_BYTE !in arg
    ensures r.Some? ==> |r.value| == |arg| + 1 && r.value[|arg|] == NUL_BYTE && View(r.value, NUL_BYTE) == arg
  {
    if NUL_BYTE in arg then None
    else
      ViewStopsAtTerminator(arg, NUL_BYTE, []);
      assert arg + [NUL_BYTE] + [] == arg + [NUL_BYTE];
      Some(arg + [NUL_BYTE])
  }

  /** The `iter().map(CString::new(..).unwrap()).collect()` step: the
      strings in order, or the position of the first argument that
      panics. */
  function CStringList(args: seq<Arg>): (r: Result<seq<Bytes>, nat>)
    ensures r.Success? ==> |r.value| == |args|
    ensures r.Failure? ==> r.error < |args| && NUL_BYTE in args[r.error]
    decreases |args|
  {
    if args == [] then Success([])
    else
      var front := args[..|args| - 1];
      match CStringList(front)
      case Failure(i) => Failure(i)
      case Success(cs) =>
        match CStringNew(args[|args| - 1])
        case None => Failure(|front|)
        case Some(c) => Success(cs + [c])
  }

  /** The pointer array built from `n` strings: slot `i` points to
      string `i`, and one more slot holds the null pointer. */
  function PointerArray(n: nat): (r: seq<Pointer>)
    ensures |r| == n + 1
    ensures forall i | 0 <= i < n :: r[i] == ArgPtr(i)
    ensures r[n] == Null
  {
    seq(n + 1, i requires 0 <= i <= n => if i < n then ArgPtr(i) else Null)
  }

  /** Marshals one argument list, or reports the first argument holding
      a NUL. */
  function MarshalArgs(args: seq<Arg>): (r: Result<ArgVector, nat>)
    ensures r.Success? ==> |r.value.cstrings| == |args| && r.value.pointers == PointerArray(|args|)
    ensures r.Failure? ==> r.error < |args| && NUL_BYTE in args[r.error]
  {
    match CStringList(args)
    case Failure(i) => Failure(i)
    case Success(cs) => Success(ArgVector(cs, PointerArray(|args|)))
  }

  /** Marshalling fails exactly when some argument holds a NUL, and then
      names the first such argument. */
  lemma {:induction false} MarshalArgsFails(args: seq<Arg>)
    ensures MarshalArgs(args).Success? <==> forall i | 0 <= i < |args| :: NUL_BYTE !in args[i]
    ensures MarshalArgs(args).Failure? ==>
              var i := MarshalArgs(args).error;
              && i < |args| && NUL_BYTE in args[i]
              && forall k | 0 <= k < i :: NUL_BYTE !in args[k]
    decreases |args|
  {
    if args != [] {
      var front := args[..|args| - 1];
      MarshalArgsFails(front);
      assert forall k | 0 <= k < |front| :: args[k] == front[k];
    }
  }

  // ---------------------------------------------------------------------
  // The callee's view

  /** What a C callee reads from `argv` starting at slot `i`: each
      pointed-to string up to its NUL, stopping at the null pointer. */
  function ReadArgvFrom(v: ArgVector, i: nat): seq<Bytes>
    decreases |v.pointers| - i
  {
    if i >= |v.pointers| then []
    else
      match v.pointers[i]
      case Null => []
      case ArgPtr(k) =>
        [if k < |v.cstrings| then View(v.cstrings[k], NUL_BYTE) else []] + ReadArgvFrom(v, i + 1)
  }

  function ReadArgv(v: ArgVector): seq<Bytes> {
    ReadArgvFrom(v, 0)
  }

  lemma {:induction false} ReadArgvFromMarshalled(args: seq<Arg>, i: nat)
    requires MarshalArgs(args).Success? && i <= |args|
    ensures ReadArgvFrom(MarshalArgs(args).value, i) == args[i..]
    decreases |args| - i
  {
    var v := MarshalArgs(args).value;
    if i < |args| {
      ReadArgvFromMarshalled(args, i + 1);
      CStringListContents(args);
      assert args[i..] == [args[i]] + args[i + 1..];
    }
  }

  lemma {:induction false} CStringListContents(args: seq<Arg>)
    requires CStringList(args).Success?
    ensures forall i | 0 <= i < |args| :: View(CStringList(args).value[i], NUL_BYTE) == args[i]
    decreases |args|
  {
    if args != [] {
      var front := args[..|args| - 1];
      CStringListContents(front);
      var cs := CStringList(front).value;
      var c := CStringNew(args[|args| - 1]).value;
      assert CStringList(args).value == cs + [c];
    }
  }

  /** Marshalling round trip: a callee walking the pointer array sees
      exactly the arguments, each unchanged in content and length. */
  lemma MarshalRoundTrip(args: seq<Arg>)
    requires MarshalArgs(args).Success?
    ensures ReadArgv(MarshalArgs(args).value) == args
  {
    ReadArgvFromMarshalled(args, 0);
  }

  /** `i32::try_from(n)`: the count as an `i32`, or `None` (a panic after
      `unwrap`) when it does not fit. */
  function Argc(n: nat): (r: Option<int32>)
    ensures r.Some? <==> n < TWO_TO_THE_31
    ensures r.Some? ==> r.value as int == n
  {
    if n < TWO_TO_THE_31 then Some(n as int32) else None
  }
}
