/** Alignment and chunking helpers shared by the string encodings and the area framing. */
module Align {

  /** `_sizeAlign`: the padding that brings `size` up to a multiple of `alignment`, and the padded size. */
  function SizeAlign(size: nat, alignment: nat): (r: (nat, nat))
    requires alignment > 0
    ensures r.0 < alignment
    ensures (size + r.0) % alignment == 0
    ensures r.1 == size + r.0
  {
    // Python's `-size % alignment`; with a positive divisor Dafny's `%` agrees with Python's.
    var pad := (-(size as int)) % alignment;
    NegModPad(size, alignment);
    (pad, size + pad)
  }

  lemma NegModPad(size: nat, alignment: nat)
    requires alignment > 0
    ensures (size + (-(size as int)) % alignment) % alignment == 0
  {
    var q, pad := (-(size as int)) / alignment, (-(size as int)) % alignment;
    assert size + pad == (-q) * alignment + 0;
    DivModUnique(size + pad, alignment, -q, 0);
  }

  /** Euclidean division is unique: a quotient and remainder in range are `/` and `%`. */
  lemma DivModUnique(n: int, m: int, q: int, r: int)
    requires m > 0 && 0 <= r < m && n == q * m + r
    ensures n / m == q && n % m == r
  {
    var q', r' := n / m, n % m;
    assert (q - q') * m == r' - r;
    if q - q' >= 1 {
      MulAtLeast(q - q', m);
    } else if q' - q >= 1 {
      MulAtLeast(q' - q, m);
    }
  }

  lemma {:induction false} MulAtLeast(k: int, m: int)
    requires k >= 1 && m > 0
    ensures k * m >= m
    decreases k
  {
    if k > 1 {
      MulAtLeast(k - 1, m);
      assert k * m == (k - 1) * m + m;
    }
  }

  /** The padding `SizeAlign` returns is the only one below `alignment` that aligns `size`. */
  lemma {:induction false} SizeAlignUnique(size: nat, alignment: nat, pad: nat)
    requires alignment > 0 && pad < alignment && (size + pad) % alignment == 0
    ensures pad == SizeAlign(size, alignment).0
  {
    var p := SizeAlign(size, alignment).0;
    var a := (size + pad) / alignment;
    assert size + pad == a * alignment + 0;
    // size == a * alignment - pad == (a - 1) * alignment + (alignment - pad)
    if pad == 0 {
      DivModUnique(-(size as int), alignment, -a, 0);
    } else {
      assert -(size as int) == (-a) * alignment + pad;
      DivModUnique(-(size as int), alignment, -a, pad);
    }
  }

  /** `k` copies of `x`. */
  function Repeat<T>(x: T, k: nat): (r: seq<T>)
    ensures |r| == k
    ensures forall i :: 0 <= i < k ==> r[i] == x
  {
    if k == 0 then [] else [x] + Repeat(x, k - 1)
  }

  /** The concatenation of a sequence of chunks (`b''.join`). */
  function Concat<T>(ss: seq<seq<T>>): seq<T>
  {
    if |ss| == 0 then [] else ss[0] + Concat(ss[1..])
  }

  lemma {:induction false} ConcatAppend<T>(ss: seq<seq<T>>, s: seq<T>)
    ensures Concat(ss + [s]) == Concat(ss) + s
  {
    if |ss| == 0 {
      assert ss + [s] == [s];
    } else {
      assert (ss + [s])[1..] == ss[1..] + [s];
      ConcatAppend(ss[1..], s);
    }
  }

  /**
   * `_grouper(n, s, pad)` (itertools' `zip_longest` recipe): `s` cut into chunks of
   * `n`, the last one filled up with `pad`.
   */
  function Grouper<T>(n: nat, s: seq<T>, pad: T): (r: seq<seq<T>>)
    requires n > 0
    ensures |r| == SizeAlign(|s|, n).1 / n
    ensures forall i :: 0 <= i < |r| ==> |r[i]| == n
    ensures Concat(r) == s + Repeat(pad, SizeAlign(|s|, n).0)
    decreases |s|
  {
    if |s| == 0 then
      []
    else if |s| <= n then
      GrouperLast(|s|, n);
      var chunk := s + Repeat(pad, n - |s|);
      assert Concat([chunk]) == chunk + Concat([chunk][1..]);
      [chunk]
    else
      var rest := Grouper(n, s[n..], pad);
      GrouperStep(|s|, n);
      var r := [s[..n]] + rest;
      assert r[1..] == rest;
      assert s == s[..n] + s[n..];
      r
  }

  lemma GrouperLast(len: nat, n: nat)
    requires 0 < len <= n
    ensures SizeAlign(len, n).0 == n - len && SizeAlign(len, n).1 / n == 1
  {
    DivModUnique(n, n, 1, 0);
    SizeAlignUnique(len, n, n - len);
  }

  lemma GrouperStep(len: nat, n: nat)
    requires 0 < n < len
    ensures SizeAlign(len, n).0 == SizeAlign(len - n, n).0
    ensures SizeAlign(len, n).1 / n == SizeAlign(len - n, n).1 / n + 1
  {
    var p := SizeAlign(len - n, n).0;
    var t := len - n + p;
    var q := t / n;
    DivModUnique(t, n, q, 0);
    assert len + p == (q + 1) * n + 0;
    DivModUnique(len + p, n, q + 1, 0);
    SizeAlignUnique(len, n, p);
  }

  /** A text that starts with a full chunk is grouped as that chunk followed by the grouping of the rest. */
  lemma GrouperCons<T>(n: nat, a: seq<T>, b: seq<T>, pad: T)
    requires n > 0 && |a| == n
    ensures Grouper(n, a + b, pad) == [a] + Grouper(n, b, pad)
  {
    var s := a + b;
    if |b| == 0 {
      assert s == a && a + Repeat(pad, 0) == a;
    } else {
      assert s[..n] == a && s[n..] == b;
    }
  }
}
