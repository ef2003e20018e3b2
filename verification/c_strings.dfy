/** What a C string function sees of a sequence: the characters before
    the first terminator. */
module CStrings {

  /** The longest prefix of `s` that holds no `nul`: what `strlen`,
      `_stricmp` or a C `argv` reader sees of a buffer starting at `s`. */
  function View<T(==)>(s: seq<T>, nul: T): (r: seq<T>)
    ensures r <= s
    ensures nul !in r
    ensures |r| < |s| ==> s[|r|] == nul
    decreases |s|
  {
    if s == [] || s[0] == nul then [] else [s[0]] + View(s[1..], nul)
  }

  /** A terminator-free sequence is seen whole. */
  lemma ViewOfTerminatorFree<T>(s: seq<T>, nul: T)
    requires nul !in s
    ensures View(s, nul) == s
  {
  }

  /** Whatever follows the first terminator is invisible. */
  lemma ViewStopsAtTerminator<T>(s: seq<T>, nul: T, tail: seq<T>)
    requires nul !in s
    ensures View(s + [nul] + tail, nul) == s
  {
    var r := View(s + [nul] + tail, nul);
    assert |r| == |s| by {
      assert (s + [nul] + tail)[|s|] == nul;
      assert forall i | 0 <= i < |s| :: (s + [nul] + tail)[i] == s[i];
    }
    assert r == (s + [nul] + tail)[..|s|];
  }
}
