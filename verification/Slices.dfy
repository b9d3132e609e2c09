/** Byte strings inside a larger memory. */
module Slices {
  import opened Bytes

  datatype Option<T> = None | Some(value: T)

  predicate NulFree(s: seq<byte>) { forall i :: 0 <= i < |s| ==> s[i] != 0 }

  /** Text and its terminator. */
  predicate CString(s: seq<byte>) { s != [] && s[|s| - 1] == 0 && forall i :: 0 <= i < |s| - 1 ==> s[i] != 0 }

  /** `s` lies at `p`. */
  predicate At(b: seq<byte>, p: nat, s: seq<byte>) { p + |s| <= |b| && b[p..p + |s|] == s }

  lemma AtSplit(b: seq<byte>, p: nat, s: seq<byte>, t: seq<byte>)
    requires At(b, p, s + t)
    ensures At(b, p, s) && At(b, p + |s|, t)
  {
    assert b[p..p + |s + t|][..|s|] == b[p..p + |s|];
    assert b[p..p + |s + t|][|s|..] == b[p + |s|..p + |s| + |t|];
  }

  lemma AtByte(b: seq<byte>, p: nat, s: seq<byte>, i: nat)
    requires At(b, p, s) && i < |s|
    ensures b[p + i] == s[i]
  {
    assert b[p..p + |s|][i] == b[p + i];
  }

  lemma SubSlice(b: seq<byte>, p: nat, n: nat, i: nat, j: nat)
    requires p + n <= |b| && i <= j <= n
    ensures b[p..p + n][i..j] == b[p + i..p + j]
  {
    var (x, y) := (b[p..p + n][i..j], b[p + i..p + j]);
    forall k | 0 <= k < j - i ensures x[k] == y[k] {
      assert x[k] == b[p..p + n][i + k] == b[p + (i + k)] && y[k] == b[(p + i) + k];
    }
  }
}
