/** Vocabulary shared by the other modules. */
module Basics {

  /** A value that may be missing. */
  datatype Option<T> = None | Some(value: T)

  function Max(a: nat, b: nat): nat {
    if a < b then b else a
  }

  ghost predicate Distinct<T>(s: seq<T>) {
    forall i, j | 0 <= i < j < |s| :: s[i] != s[j]
  }

  ghost function Below(n: nat): (r: set<nat>)
    ensures forall k: nat :: k in r <==> k < n
    ensures |r| == n
  {
    if n == 0 then {} else Below(n - 1) + {n - 1}
  }

  /** `g_keep_stressing_flag`: a signal may clear it at any time, and nothing sets it again. */
  class Flag {
    var go: bool

    method Read() returns (r: bool)
      modifies this
      ensures r == go && (go ==> old(go))
    {
      var cleared: bool := *;
      if cleared { go := false; }
      return go;
    }
  }

  lemma MulMono(a: nat, b: nat, c: nat, d: nat)
    requires a <= c && b <= d
    ensures a * b <= c * d
  {
    assert c * d == a * b + a * (d - b) + (c - a) * d;
  }
}
