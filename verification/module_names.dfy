/** Module names and the case-insensitive comparison (`_stricmp`) the
    coverage code uses to decide whether two records name one module. */
module ModuleNames {
  import opened BoundedInts
  import CStrings

  /** A `std::string` module name: a sequence of bytes. */
  type Name = seq<Char8>

  const NUL: Char8 := '\0'

  /** `tolower` in the "C" locale: only 'A'..'Z' change. */
  function Lower(c: Char8): Char8 {
    if 'A' <= c <= 'Z' then (c as int + 32) as char else c
  }

  function Fold(s: Name): Name {
    seq(|s|, i requires 0 <= i < |s| => Lower(s[i]))
  }

  /** What `_stricmp` compares of a name: its `c_str()` view, folded to
      lower case. */
  function Key(s: Name): Name {
    Fold(CStrings.View(s, NUL))
  }

  /** `_stricmp(a.c_str(), b.c_str()) == 0`: the two `c_str()` views
      have the same length and agree character by character up to
      ASCII case. */
  predicate SameModule(a: Name, b: Name): (r: bool)
    ensures r <==> CaseInsensitiveEqual(CStrings.View(a, NUL), CStrings.View(b, NUL))
  {
    var va, vb := CStrings.View(a, NUL), CStrings.View(b, NUL);
    assert Key(a) == Key(b) <==> CaseInsensitiveEqual(va, vb) by {
      if CaseInsensitiveEqual(va, vb) {
        assert Fold(va) == Fold(vb);
      }
      if Key(a) == Key(b) {
        forall i | 0 <= i < |va|
          ensures Lower(va[i]) == Lower(vb[i])
        {
          assert Fold(va)[i] == Fold(vb)[i];
        }
      }
    }
    Key(a) == Key(b)
  }

  /** Strings that `_stricmp` reports equal: same length, and each pair
      of characters equal after `tolower`. */
  predicate CaseInsensitiveEqual(a: Name, b: Name) {
    |a| == |b| && forall i | 0 <= i < |a| :: Lower(a[i]) == Lower(b[i])
  }

  /** For names without an embedded NUL, `_stricmp` equality is equality
      of the names up to ASCII case, character by character. */
  lemma SameModuleIsCaseFolding(a: Name, b: Name)
    requires NUL !in a && NUL !in b
    ensures SameModule(a, b) <==>
              |a| == |b| && forall i | 0 <= i < |a| :: Lower(a[i]) == Lower(b[i])
  {
    CStrings.ViewOfTerminatorFree(a, NUL);
    CStrings.ViewOfTerminatorFree(b, NUL);
    if |a| == |b| && forall i | 0 <= i < |a| :: Lower(a[i]) == Lower(b[i]) {
      assert Fold(a) == Fold(b);
    }
    if SameModule(a, b) {
      assert |Fold(a)| == |Fold(b)|;
      forall i | 0 <= i < |a|
        ensures Lower(a[i]) == Lower(b[i])
      {
        assert Fold(a)[i] == Fold(b)[i];
      }
    }
  }

  /** The comparison goes through `c_str()`, so bytes after an embedded
      NUL never take part in it. */
  lemma SameModuleIgnoresTailAfterNul(a: Name, tail: Name)
    requires NUL !in a
    ensures SameModule(a, a + [NUL] + tail)
  {
    CStrings.ViewOfTerminatorFree(a, NUL);
    CStrings.ViewStopsAtTerminator(a, NUL, tail);
  }
}
