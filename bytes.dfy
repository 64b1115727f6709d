/** Byte strings as the codec handles them, and the byte sum the area checksum is built on. */
module Bytes {

  /** One octet of a serialized FRU image. */
  type byte = x: int | 0 <= x < 256

  /** The plain sum of the bytes, as Python's `sum(payload)` computes it. */
  function Sum(bs: seq<byte>): nat
  {
    if |bs| == 0 then 0 else bs[0] + Sum(bs[1..])
  }

  lemma {:induction false} SumConcat(a: seq<byte>, b: seq<byte>)
    ensures Sum(a + b) == Sum(a) + Sum(b)
  {
    if |a| == 0 {
      assert a + b == b;
    } else {
      assert (a + b)[1..] == a[1..] + b;
      SumConcat(a[1..], b);
    }
  }

  lemma ConcatAssoc<T>(a: seq<T>, b: seq<T>, c: seq<T>)
    ensures (a + b) + c == a + (b + c)
  {
  }

  lemma ConcatSplit<T>(a: seq<T>, b: seq<T>)
    ensures (a + b)[..|a|] == a && (a + b)[|a|..] == b
    ensures |a + b| - |b| == |a|
  {
  }

  lemma FrontLast<T>(s: seq<T>)
    requires |s| > 0
    ensures s[..|s| - 1] + [s[|s| - 1]] == s
  {
  }

  lemma ConcatUpdate<T>(a: seq<T>, b: seq<T>, k: nat, x: T)
    requires |a| <= k < |a| + |b|
    ensures (a + b)[k := x] == a + b[k - |a| := x]
  {
  }

  /** The prefix of `s` in front of its suffix `r`, extended by `r`'s own prefix `e`. */
  lemma PrefixThrough<T>(s: seq<T>, r: seq<T>, e: seq<T>)
    requires |r| <= |s| && r == s[|s| - |r|..] && |e| <= |r| && r[..|e|] == e
    ensures s[..|s| - |r[|e|..]|] == s[..|s| - |r|] + e
  {
  }

  /** `n` zero bytes: the padding of an area epilogue. */
  function Zeros(n: nat): (z: seq<byte>)
    ensures |z| == n
    ensures forall i :: 0 <= i < n ==> z[i] == 0
    ensures Sum(z) == 0
  {
    if n == 0 then [] else [0] + Zeros(n - 1)
  }

  /** `s` read back to front (Python's `s[::-1]`). */
  function Reverse<T>(s: seq<T>): (r: seq<T>)
    ensures |r| == |s|
    ensures forall i :: 0 <= i < |s| ==> r[i] == s[|s| - 1 - i]
  {
    if |s| == 0 then [] else Reverse(s[1..]) + [s[0]]
  }

  lemma ReverseReverse<T>(s: seq<T>)
    ensures Reverse(Reverse(s)) == s
  {
    assert forall i :: 0 <= i < |s| ==> Reverse(Reverse(s))[i] == s[i];
  }
}
