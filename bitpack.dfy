/**
 * Unsigned bit packing as the `bitstruct` library does it for formats made only of
 * `uN` groups: the groups are laid out most-significant-bit first in one bit stream,
 * which is read as big-endian bytes. Under the format's `'<'` suffix each value's own
 * bytes are swapped, least significant first, cut at the stream's byte boundaries.
 * A layout is written as its sequence of widths
 * (`'u4u4'` is `[4, 4]`).
 */
module BitPack {
  import opened Bytes
  import opened Wrappers
  import opened Align

  function Pow2(n: nat): (r: nat)
    ensures r >= 1
  {
    if n == 0 then 1 else 2 * Pow2(n - 1)
  }

  lemma {:induction false} Pow2Add(a: nat, b: nat)
    ensures Pow2(a + b) == Pow2(a) * Pow2(b)
    decreases a
  {
    if a > 0 {
      Pow2Add(a - 1, b);
      assert Pow2(a + b) == 2 * Pow2(a - 1 + b);
    }
  }

  lemma Pow2Small()
    ensures Pow2(2) == 4 && Pow2(4) == 16 && Pow2(6) == 64 && Pow2(8) == 256
  {
  }

  /** The widths of a bit layout, in declaration order. */
  type Layout = seq<nat>

  function TotalBits(layout: Layout): nat
  {
    if |layout| == 0 then 0 else layout[0] + TotalBits(layout[1..])
  }

  /** One value per group, each within its unsigned width. */
  predicate Fits(layout: Layout, vals: seq<int>)
  {
    |vals| == |layout| && forall i :: 0 <= i < |vals| ==> 0 <= vals[i] < Pow2(layout[i])
  }

  lemma FitsTail(layout: Layout, vals: seq<int>)
    requires Fits(layout, vals) && |layout| > 0
    ensures Fits(layout[1..], vals[1..]) && 0 <= vals[0] < Pow2(layout[0])
  {
    assert forall i :: 0 <= i < |vals| - 1 ==> vals[1..][i] == vals[i + 1] && layout[1..][i] == layout[i + 1];
  }

  lemma FitsCons(layout: Layout, x: int, vals: seq<int>)
    requires |layout| > 0 && Fits(layout[1..], vals) && 0 <= x < Pow2(layout[0])
    ensures Fits(layout, [x] + vals)
  {
    var r := [x] + vals;
    assert forall i :: 0 < i < |r| ==> r[i] == vals[i - 1] && layout[i] == layout[1..][i - 1];
  }

  lemma MulMonotone(a: nat, b: nat, c: nat)
    requires a <= b
    ensures a * c <= b * c
  {
    if a < b && c > 0 {
      MulAtLeast(c, b - a);
      assert b * c == a * c + (b - a) * c;
    }
  }

  /** `hi` shifted above `l` low bits, plus those low bits, stays below `2^(h + l)`. */
  lemma ShiftBound(hi: nat, lo: nat, h: nat, l: nat)
    requires hi < Pow2(h) && lo < Pow2(l)
    ensures hi * Pow2(l) + lo < Pow2(h + l)
  {
    Pow2Add(h, l);
    MulMonotone(hi, Pow2(h) - 1, Pow2(l));
    assert (Pow2(h) - 1) * Pow2(l) == Pow2(h) * Pow2(l) - Pow2(l);
  }

  lemma QuotientBound(n: nat, h: nat, l: nat)
    requires n < Pow2(h + l)
    ensures n / Pow2(l) < Pow2(h)
  {
    Pow2Add(h, l);
    var p := Pow2(l);
    if n / p >= Pow2(h) {
      MulMonotone(Pow2(h), n / p, p);
    }
  }

  /**
   * The groups' values concatenated into one unsigned number, most significant
   * bits first: the first group is shifted above all the bits of the later ones.
   */
  function PackBits(layout: Layout, vals: seq<int>): (n: nat)
    requires Fits(layout, vals)
    ensures n < Pow2(TotalBits(layout))
  {
    if |layout| == 0 then
      0
    else
      FitsTail(layout, vals);
      var low := PackBits(layout[1..], vals[1..]);
      ShiftBound(vals[0], low, layout[0], TotalBits(layout[1..]));
      vals[0] * Pow2(TotalBits(layout[1..])) + low
  }
  /** The first group sits above all the others. */
  lemma PackBitsCons(layout: Layout, vals: seq<int>)
    requires Fits(layout, vals) && |layout| > 0
    ensures Fits(layout[1..], vals[1..])
    ensures PackBits(layout, vals) == vals[0] * Pow2(TotalBits(layout[1..])) + PackBits(layout[1..], vals[1..])
  {
    FitsTail(layout, vals);
  }


  /** A number cut back into the groups of the layout, first group = highest bits. */
  function UnpackBits(layout: Layout, n: nat): (vals: seq<int>)
    ensures Fits(layout, vals)
  {
    if |layout| == 0 then
      []
    else
      var p := Pow2(TotalBits(layout[1..]));
      var low := UnpackBits(layout[1..], n % p);
      var first := (n / p) % Pow2(layout[0]);
      FitsCons(layout, first, low);
      [first] + low
  }

  lemma {:induction false} UnpackPack(layout: Layout, vals: seq<int>)
    requires Fits(layout, vals)
    ensures UnpackBits(layout, PackBits(layout, vals)) == vals
  {
    if |layout| > 0 {
      FitsTail(layout, vals);
      var p := Pow2(TotalBits(layout[1..]));
      var low := PackBits(layout[1..], vals[1..]);
      DivModUnique(vals[0] * p + low, p, vals[0], low);
      DivModUnique(vals[0], Pow2(layout[0]), 0, vals[0]);
      UnpackPack(layout[1..], vals[1..]);
      assert vals == [vals[0]] + vals[1..];
    }
  }

  lemma {:induction false} PackUnpack(layout: Layout, n: nat)
    requires n < Pow2(TotalBits(layout))
    ensures PackBits(layout, UnpackBits(layout, n)) == n
  {
    if |layout| > 0 {
      var t := TotalBits(layout[1..]);
      var p := Pow2(t);
      var q, r := n / p, n % p;
      DivModSplit(n, p);
      QuotientBound(n, layout[0], t);
      DivModUnique(q, Pow2(layout[0]), 0, q);
      PackUnpack(layout[1..], r);
      var vals := UnpackBits(layout, n);
      assert vals[0] == q && vals[1..] == UnpackBits(layout[1..], r);
    }
  }

  lemma DivModSplit(n: nat, p: nat)
    requires p > 0
    ensures n == (n / p) * p + n % p
  {
  }

  /** `n` as `k` little-endian bytes. */
  function ToLE(n: nat, k: nat): (bs: seq<byte>)
    ensures |bs| == k
  {
    if k == 0 then [] else [n % 256] + ToLE(n / 256, k - 1)
  }

  /** The number whose little-endian bytes are `bs`. */
  function FromLE(bs: seq<byte>): (n: nat)
    ensures n < Pow2(8 * |bs|)
  {
    if |bs| == 0 then
      0
    else
      var rest := FromLE(bs[1..]);
      Pow2Small();
      ShiftBound(rest, bs[0], 8 * (|bs| - 1), 8);
      bs[0] + 256 * rest
  }

  /** `n` as `k` big-endian bytes. */
  function ToBE(n: nat, k: nat): (bs: seq<byte>)
    ensures |bs| == k
  {
    if k == 0 then [] else ToBE(n / 256, k - 1) + [n % 256]
  }

  /** The number whose big-endian bytes are `bs`. */
  function FromBE(bs: seq<byte>): nat
  {
    if |bs| == 0 then 0 else FromBE(bs[..|bs| - 1]) * 256 + bs[|bs| - 1]
  }

  lemma {:induction false} FromToLE(n: nat, k: nat)
    requires n < Pow2(8 * k)
    ensures FromLE(ToLE(n, k)) == n
  {
    if k > 0 {
      Pow2Small();
      QuotientBound(n, 8 * (k - 1), 8);
      FromToLE(n / 256, k - 1);
      assert ToLE(n, k)[1..] == ToLE(n / 256, k - 1);
    }
  }

  lemma {:induction false} ToFromLE(bs: seq<byte>)
    ensures ToLE(FromLE(bs), |bs|) == bs
  {
    if |bs| > 0 {
      DivModUnique(FromLE(bs), 256, FromLE(bs[1..]), bs[0]);
      ToFromLE(bs[1..]);
      assert bs == [bs[0]] + bs[1..];
    }
  }

  lemma ReverseSnoc<T>(a: seq<T>, x: T)
    ensures Reverse(a + [x]) == [x] + Reverse(a)
  {
    var l, r := Reverse(a + [x]), [x] + Reverse(a);
    assert forall i :: 0 <= i < |l| ==> l[i] == r[i];
  }

  lemma {:induction false} ReverseToBE(n: nat, k: nat)
    ensures Reverse(ToBE(n, k)) == ToLE(n, k)
  {
    if k > 0 {
      ReverseSnoc(ToBE(n / 256, k - 1), n % 256);
      ReverseToBE(n / 256, k - 1);
    }
  }

  lemma {:induction false} FromBEReverse(bs: seq<byte>)
    ensures FromBE(Reverse(bs)) == FromLE(bs)
  {
    if |bs| > 0 {
      var r := Reverse(bs);
      assert r == Reverse(bs[1..]) + [bs[0]];
      assert r[..|r| - 1] == Reverse(bs[1..]);
      FromBEReverse(bs[1..]);
    }
  }

  lemma FromToBE(n: nat, k: nat)
    requires n < Pow2(8 * k)
    ensures FromBE(ToBE(n, k)) == n
  {
    ReverseToBE(n, k);
    ReverseReverse(ToBE(n, k));
    FromBEReverse(ToLE(n, k));
    FromToLE(n, k);
  }

  /** The values `bitstruct.pack` packs: one per group, taken from the front; any further ones are ignored. */
  function Used(layout: Layout, vals: seq<int>): seq<int>
    requires |vals| >= |layout|
  {
    vals[..|layout|]
  }

  lemma UsedAll(layout: Layout, vals: seq<int>)
    requires |vals| == |layout|
    ensures Used(layout, vals) == vals
  {
  }

  /**
   * The checks `bitstruct.pack` makes before packing: at least one value per group, and
   * each value used within its group's width. A layout that does not fill whole bytes is
   * refused here as well (see `FixedSize`).
   */
  function PackCheck(layout: Layout, vals: seq<int>): Outcome
  {
    if |vals| < |layout| then Fail(ValueCount)
    else if !Fits(layout, Used(layout, vals)) then Fail(ValueRange)
    else if TotalBits(layout) % 8 != 0 then Fail(BitAlignment)
    else Pass
  }

  /** `bitstruct.pack(fmt, *vals)`: the MSB-first stream as big-endian bytes. */
  function PackBE(layout: Layout, vals: seq<int>): (r: Result<seq<byte>>)
    ensures r.Ok? <==> PackCheck(layout, vals).Pass?
    ensures r.Err? ==> r.error == PackCheck(layout, vals).error
    ensures r.Ok? ==> 8 * |r.value| == TotalBits(layout) && FromBE(r.value) == PackBits(layout, Used(layout, vals))
  {
    match PackCheck(layout, vals)
    case Fail(e) => Err(e)
    case Pass =>
      var k := TotalBits(layout) / 8;
      var n := PackBits(layout, Used(layout, vals));
      FromToBE(n, k);
      Ok(ToBE(n, k))
  }

  /** `bitstruct.unpack(fmt, bs)` on exactly the layout's bytes. */
  function UnpackBE(layout: Layout, bs: seq<byte>): (vals: seq<int>)
    ensures Fits(layout, vals)
  {
    UnpackBits(layout, FromBE(bs))
  }

  /** A bit stream, most significant bit first. */
  type Bits = seq<bool>

  /** `v` as `n` bits, most significant first. */
  function ToBits(v: nat, n: nat): (bs: Bits)
    ensures |bs| == n
  {
    if n == 0 then [] else ToBits(v / 2, n - 1) + [v % 2 == 1]
  }

  /** The number whose bits, most significant first, are `bs`. */
  function BitsValue(bs: Bits): (v: nat)
    ensures v < Pow2(|bs|)
  {
    if |bs| == 0 then 0 else 2 * BitsValue(bs[..|bs| - 1]) + (if bs[|bs| - 1] then 1 else 0)
  }

  lemma {:induction false} BitsValueToBits(v: nat, n: nat)
    requires v < Pow2(n)
    ensures BitsValue(ToBits(v, n)) == v
  {
    if n > 0 {
      var bs := ToBits(v, n);
      assert bs[..n - 1] == ToBits(v / 2, n - 1);
      BitsValueToBits(v / 2, n - 1);
    }
  }

  lemma {:induction false} ToBitsValue(bs: Bits)
    ensures ToBits(BitsValue(bs), |bs|) == bs
  {
    if |bs| > 0 {
      var front := bs[..|bs| - 1];
      var b := if bs[|bs| - 1] then 1 else 0;
      DivModUnique(BitsValue(bs), 2, BitsValue(front), b);
      ToBitsValue(front);
      FrontLast(bs);
    }
  }

  /** The bits of `a` sit above all the bits of `b`. */
  lemma {:induction false} BitsValueConcat(a: Bits, b: Bits)
    ensures BitsValue(a + b) == BitsValue(a) * Pow2(|b|) + BitsValue(b)
    decreases |b|
  {
    if |b| == 0 {
      assert a + b == a;
    } else {
      var s, b' := a + b, b[..|b| - 1];
      var bit := if b[|b| - 1] then 1 else 0;
      var x, p := BitsValue(a), Pow2(|b'|);
      calc {
        BitsValue(s);
      == { assert s[..|s| - 1] == a + b' && s[|s| - 1] == b[|b| - 1]; }
        2 * BitsValue(a + b') + bit;
      == { BitsValueConcat(a, b'); }
        2 * (x * p + BitsValue(b')) + bit;
      == { MulDouble(x, p); }
        x * (2 * p) + (2 * BitsValue(b') + bit);
      }
    }
  }

  lemma MulDouble(x: nat, p: nat)
    ensures 2 * (x * p) == x * (2 * p)
  {
  }

  /** The top `a` bits of an `a + b`-bit number are its quotient by `2^b`, the low `b` its remainder. */
  lemma ToBitsSplit(v: nat, a: nat, b: nat)
    requires v < Pow2(a + b)
    ensures v / Pow2(b) >= 0
    ensures ToBits(v, a + b) == ToBits(v / Pow2(b), a) + ToBits(v % Pow2(b), b)
  {
    var p := Pow2(b);
    QuotientBound(v, a, b);
    DivModSplit(v, p);
    QuotientNat(v, p);
    var hi: nat, lo: nat := v / p, v % p;
    var s := ToBits(hi, a) + ToBits(lo, b);
    assert BitsValue(s) == v by {
      BitsValueConcat(ToBits(hi, a), ToBits(lo, b));
      BitsValueToBits(hi, a);
      BitsValueToBits(lo, b);
    }
    ToBitsValue(s);
  }

  lemma QuotientNat(v: nat, p: nat)
    requires p > 0
    ensures v / p >= 0
  {
  }

  /** A stream of whole bytes cut into bytes, each read most significant bit first. */
  function StreamBytes(s: Bits): (bs: seq<byte>)
    requires |s| % 8 == 0
    ensures 8 * |bs| == |s|
  {
    if |s| == 0 then
      []
    else
      Pow2Small();
      [BitsValue(s[..8])] + StreamBytes(s[8..])
  }

  /** The bit stream of a byte string. */
  function ByteBits(bs: seq<byte>): (s: Bits)
    ensures |s| == 8 * |bs|
  {
    if |bs| == 0 then [] else ToBits(bs[0], 8) + ByteBits(bs[1..])
  }

  lemma {:induction false} StreamBytesOfBits(bs: seq<byte>)
    ensures StreamBytes(ByteBits(bs)) == bs
  {
    if |bs| > 0 {
      Pow2Small();
      var s := ByteBits(bs);
      assert s[..8] == ToBits(bs[0], 8) && s[8..] == ByteBits(bs[1..]);
      BitsValueToBits(bs[0], 8);
      StreamBytesOfBits(bs[1..]);
      assert bs == [bs[0]] + bs[1..];
    }
  }

  lemma {:induction false} BitsOfStreamBytes(s: Bits)
    requires |s| % 8 == 0
    ensures ByteBits(StreamBytes(s)) == s
  {
    if |s| > 0 {
      var bs := StreamBytes(s);
      assert bs[0] == BitsValue(s[..8]) && bs[1..] == StreamBytes(s[8..]);
      ToBitsValue(s[..8]);
      BitsOfStreamBytes(s[8..]);
      assert s == s[..8] + s[8..];
    }
  }

  /** The bits still free in the stream's current byte once `offset` bits are written. */
  function Room(offset: nat): (r: nat)
    ensures 0 < r <= 8
  {
    8 - offset % 8
  }

  /**
   * One value's bits as `bitstruct` writes them under `'<'`, when `room` bits are left in
   * the current byte: the value's last `room` bits fill that byte, and every later byte
   * takes the next eight bits counted from the end, so the value's bytes come out
   * least significant first, cut at the stream's byte boundaries.
   */
  function SwapBytes(room: nat, v: Bits): (s: Bits)
    requires 0 < room
    ensures |s| == |v|
    decreases |v|
  {
    if |v| <= room then v else v[|v| - room..] + SwapBytes(8, v[..|v| - room])
  }

  /** The value's bits put back in order from the bits `SwapBytes` wrote. */
  function UnswapBytes(room: nat, s: Bits): (v: Bits)
    requires 0 < room
    ensures |v| == |s|
    decreases |s|
  {
    if |s| <= room then s else UnswapBytes(8, s[room..]) + s[..room]
  }

  lemma {:induction false} UnswapSwap(room: nat, v: Bits)
    requires 0 < room
    ensures UnswapBytes(room, SwapBytes(room, v)) == v
    decreases |v|
  {
    if |v| > room {
      var s := SwapBytes(room, v);
      assert s[..room] == v[|v| - room..] && s[room..] == SwapBytes(8, v[..|v| - room]);
      UnswapSwap(8, v[..|v| - room]);
      assert v == v[..|v| - room] + v[|v| - room..];
    }
  }

  lemma {:induction false} SwapUnswap(room: nat, s: Bits)
    requires 0 < room
    ensures SwapBytes(room, UnswapBytes(room, s)) == s
    decreases |s|
  {
    if |s| > room {
      var v := UnswapBytes(room, s);
      var n := |v|;
      assert v[n - room..] == s[..room] && v[..n - room] == UnswapBytes(8, s[room..]);
      SwapUnswap(8, s[room..]);
      assert s == s[..room] + s[room..];
    }
  }

  /** The bit stream `bitstruct.pack(fmt + '<', ...)` builds, the first value starting at `offset`. */
  function LEStream(layout: Layout, vals: seq<int>, offset: nat): (s: Bits)
    requires Fits(layout, vals)
    ensures |s| == TotalBits(layout)
  {
    if |layout| == 0 then
      []
    else
      FitsTail(layout, vals);
      SwapBytes(Room(offset), ToBits(vals[0], layout[0])) + LEStream(layout[1..], vals[1..], offset + layout[0])
  }

  /** The values `bitstruct.unpack(fmt + '<', ...)` reads from the bit stream `s` starting at `offset`. */
  function LEValues(layout: Layout, s: Bits, offset: nat): (vals: seq<int>)
    requires |s| == TotalBits(layout)
    ensures Fits(layout, vals)
  {
    if |layout| == 0 then
      []
    else
      var first := BitsValue(UnswapBytes(Room(offset), s[..layout[0]]));
      var rest := LEValues(layout[1..], s[layout[0]..], offset + layout[0]);
      FitsCons(layout, first, rest);
      [first] + rest
  }

  lemma {:induction false} LEValuesOfStream(layout: Layout, vals: seq<int>, offset: nat)
    requires Fits(layout, vals)
    ensures LEValues(layout, LEStream(layout, vals, offset), offset) == vals
  {
    if |layout| > 0 {
      FitsTail(layout, vals);
      var head := SwapBytes(Room(offset), ToBits(vals[0], layout[0]));
      var tail := LEStream(layout[1..], vals[1..], offset + layout[0]);
      ConcatSplit(head, tail);
      UnswapSwap(Room(offset), ToBits(vals[0], layout[0]));
      BitsValueToBits(vals[0], layout[0]);
      LEValuesOfStream(layout[1..], vals[1..], offset + layout[0]);
      assert vals == [vals[0]] + vals[1..];
    }
  }

  lemma {:induction false} LEStreamOfValues(layout: Layout, s: Bits, offset: nat)
    requires |s| == TotalBits(layout)
    ensures LEStream(layout, LEValues(layout, s, offset), offset) == s
  {
    if |layout| > 0 {
      var n, room := layout[0], Room(offset);
      var head, tail := s[..n], s[n..];
      var vals := LEValues(layout, s, offset);
      LEValuesCons(layout, s, offset);
      LEStreamCons(layout, vals, offset);
      assert SwapBytes(room, ToBits(vals[0], n)) == head by {
        ToBitsValue(UnswapBytes(room, head));
        SwapUnswap(room, head);
      }
      LEStreamOfValues(layout[1..], tail, offset + n);
      assert s == head + tail;
    }
  }

  lemma LEStreamCons(layout: Layout, vals: seq<int>, offset: nat)
    requires Fits(layout, vals) && |layout| > 0
    ensures Fits(layout[1..], vals[1..]) && vals[0] >= 0
    ensures LEStream(layout, vals, offset)
         == SwapBytes(Room(offset), ToBits(vals[0], layout[0])) + LEStream(layout[1..], vals[1..], offset + layout[0])
  {
    FitsTail(layout, vals);
  }

  lemma LEValuesCons(layout: Layout, s: Bits, offset: nat)
    requires |s| == TotalBits(layout) && |layout| > 0
    ensures layout[0] <= |s| && |s[layout[0]..]| == TotalBits(layout[1..])
    ensures LEValues(layout, s, offset)[0] == BitsValue(UnswapBytes(Room(offset), s[..layout[0]]))
    ensures LEValues(layout, s, offset)[1..] == LEValues(layout[1..], s[layout[0]..], offset + layout[0])
  {
  }

  /**
   * `bitstruct.pack(fmt + '<', *vals)`: the same checks as `PackBE`; each value's bytes are
   * swapped in place, and the stream is then cut into bytes.
   */
  function PackLE(layout: Layout, vals: seq<int>): (r: Result<seq<byte>>)
    ensures r.Ok? <==> PackCheck(layout, vals).Pass?
    ensures r.Err? ==> r.error == PackCheck(layout, vals).error
    ensures r.Ok? ==> 8 * |r.value| == TotalBits(layout)
  {
    match PackCheck(layout, vals)
    case Fail(e) => Err(e)
    case Pass => Ok(StreamBytes(LEStream(layout, Used(layout, vals), 0)))
  }

  /** `bitstruct.unpack(fmt + '<', bs)` on exactly the layout's bytes. */
  function UnpackLE(layout: Layout, bs: seq<byte>): (vals: seq<int>)
    requires 8 * |bs| == TotalBits(layout)
    ensures Fits(layout, vals)
  {
    LEValues(layout, ByteBits(bs), 0)
  }

  /** Repacking what was unpacked from whole bytes gives those bytes back. */
  lemma UnpackLERepacks(layout: Layout, bs: seq<byte>)
    requires 8 * |bs| == TotalBits(layout)
    ensures PackLE(layout, UnpackLE(layout, bs)) == Ok(bs)
  {
    var vals := UnpackLE(layout, bs);
    assert PackCheck(layout, vals).Pass? by {
      UsedAll(layout, vals);
      DivModUnique(TotalBits(layout), 8, |bs|, 0);
    }
    assert StreamBytes(LEStream(layout, Used(layout, vals), 0)) == bs by {
      UsedAll(layout, vals);
      LEStreamOfValues(layout, ByteBits(bs), 0);
      StreamBytesOfBits(bs);
    }
  }

  /** The bit stream of the values side by side, with no bytes swapped. */
  function BEStream(layout: Layout, vals: seq<int>): (s: Bits)
    requires Fits(layout, vals)
    ensures |s| == TotalBits(layout)
  {
    if |layout| == 0 then
      []
    else
      FitsTail(layout, vals);
      ToBits(vals[0], layout[0]) + BEStream(layout[1..], vals[1..])
  }

  lemma {:induction false} BEStreamValue(layout: Layout, vals: seq<int>)
    requires Fits(layout, vals)
    ensures BitsValue(BEStream(layout, vals)) == PackBits(layout, vals)
  {
    if |layout| > 0 {
      PackBitsCons(layout, vals);
      var head := ToBits(vals[0], layout[0]);
      var tail := BEStream(layout[1..], vals[1..]);
      BitsValueConcat(head, tail);
      BitsValueToBits(vals[0], layout[0]);
      BEStreamValue(layout[1..], vals[1..]);
    }
  }

  /** While no value crosses a byte boundary, `'<'` swaps nothing. */
  lemma {:induction false} LEStreamWithinByte(layout: Layout, vals: seq<int>, offset: nat)
    requires Fits(layout, vals) && offset % 8 + TotalBits(layout) <= 8
    ensures LEStream(layout, vals, offset) == BEStream(layout, vals)
  {
    if |layout| > 0 {
      FitsTail(layout, vals);
      var next := offset + layout[0];
      if offset % 8 + layout[0] < 8 {
        DivModUnique(next, 8, offset / 8, offset % 8 + layout[0]);
      } else {
        DivModUnique(next, 8, offset / 8 + 1, 0);
      }
      LEStreamWithinByte(layout[1..], vals[1..], next);
    }
  }

  /** A layout of one byte packs the same bytes in both byte orders (the format-version byte `'u4u4'`). */
  lemma OneByteLayout(layout: Layout, vals: seq<int>)
    requires TotalBits(layout) == 8
    ensures PackLE(layout, vals) == PackBE(layout, vals)
  {
    if PackCheck(layout, vals).Pass? {
      var used := Used(layout, vals);
      var s := BEStream(layout, used);
      var n := PackBits(layout, used);
      assert LEStream(layout, used, 0) == s by {
        LEStreamWithinByte(layout, used, 0);
      }
      assert StreamBytes(s) == [n] by {
        BEStreamValue(layout, used);
        assert s[..8] == s && s[8..] == [];
      }
      assert ToBE(n, 1) == [n] by {
        Pow2Small();
      }
    }
  }

  /** Every group a whole number of bytes: each value written alone, least significant byte first. */
  function WholeBytesLE(layout: Layout, vals: seq<int>): seq<byte>
    requires Fits(layout, vals)
  {
    if |layout| == 0 then
      []
    else
      FitsTail(layout, vals);
      ToLE(vals[0], layout[0] / 8) + WholeBytesLE(layout[1..], vals[1..])
  }

  /** Every group of the layout is a whole number of bytes wide. */
  predicate WholeByteGroups(layout: Layout)
  {
    |layout| == 0 || (layout[0] % 8 == 0 && WholeByteGroups(layout[1..]))
  }

  /** One whole-byte value under `'<'` is the bits of its little-endian bytes. */
  lemma {:induction false} SwapWholeBytes(v: nat, k: nat)
    requires v < Pow2(8 * k)
    ensures SwapBytes(8, ToBits(v, 8 * k)) == ByteBits(ToLE(v, k))
  {
    if k > 0 {
      Pow2Small();
      ToBitsSplit(v, 8 * (k - 1), 8);
      var hi, lo := ToBits(v / 256, 8 * (k - 1)), ToBits(v % 256, 8);
      assert SwapBytes(8, hi + lo) == lo + SwapBytes(8, hi) by {
        var w := hi + lo;
        assert w[|w| - 8..] == lo && w[..|w| - 8] == hi;
        if k == 1 {
          assert hi == [];
        }
      }
      QuotientBound(v, 8 * (k - 1), 8);
      SwapWholeBytes(v / 256, k - 1);
      var le := ToLE(v, k);
      assert le[0] == v % 256 && le[1..] == ToLE(v / 256, k - 1);
    }
  }

  lemma {:induction false} ByteBitsConcat(a: seq<byte>, b: seq<byte>)
    ensures ByteBits(a + b) == ByteBits(a) + ByteBits(b)
  {
    if |a| == 0 {
      assert a + b == b;
    } else {
      assert (a + b)[0] == a[0] && (a + b)[1..] == a[1..] + b;
      ByteBitsConcat(a[1..], b);
    }
  }

  lemma {:induction false} LEStreamWholeBytes(layout: Layout, vals: seq<int>, offset: nat)
    requires Fits(layout, vals) && WholeByteGroups(layout) && offset % 8 == 0
    ensures LEStream(layout, vals, offset) == ByteBits(WholeBytesLE(layout, vals))
  {
    if |layout| > 0 {
      WholeBytesCons(layout, vals);
      LEStreamCons(layout, vals, offset);
      var n, k, v := layout[0], layout[0] / 8, vals[0];
      AlignedSum(offset, n);
      SwapWholeBytes(v, k);
      LEStreamWholeBytes(layout[1..], vals[1..], offset + n);
      ByteBitsConcat(ToLE(v, k), WholeBytesLE(layout[1..], vals[1..]));
    }
  }

  /** Two whole numbers of bytes add up to a whole number of bytes. */
  lemma AlignedSum(a: nat, b: nat)
    requires a % 8 == 0 && b % 8 == 0
    ensures (a + b) % 8 == 0 && Room(a) == 8
  {
    DivModUnique(a + b, 8, a / 8 + b / 8, 0);
  }

  lemma WholeBytesCons(layout: Layout, vals: seq<int>)
    requires Fits(layout, vals) && WholeByteGroups(layout) && |layout| > 0
    ensures Fits(layout[1..], vals[1..]) && WholeByteGroups(layout[1..]) && vals[0] >= 0
    ensures layout[0] == 8 * (layout[0] / 8) && TotalBits(layout) == layout[0] + TotalBits(layout[1..])
    ensures vals[0] < Pow2(8 * (layout[0] / 8))
    ensures WholeBytesLE(layout, vals) == ToLE(vals[0], layout[0] / 8) + WholeBytesLE(layout[1..], vals[1..])
  {
    FitsTail(layout, vals);
  }

  /**
   * When every group is a whole number of bytes, `'<'` stores each value in its own
   * bytes, least significant byte first: `'u8u8'` keeps the values' order, `'u16'`
   * reverses the bytes of its one value.
   */
  lemma PackLEWholeBytes(layout: Layout, vals: seq<int>)
    requires WholeByteGroups(layout) && PackCheck(layout, vals).Pass?
    ensures PackLE(layout, vals) == Ok(WholeBytesLE(layout, Used(layout, vals)))
  {
    LEStreamWholeBytes(layout, Used(layout, vals), 0);
    StreamBytesOfBits(WholeBytesLE(layout, Used(layout, vals)));
  }

  /** Unpacking what was packed gives back the values used, in either byte order. */
  lemma PackRoundTrip(layout: Layout, vals: seq<int>)
    requires PackCheck(layout, vals).Pass?
    ensures UnpackLE(layout, PackLE(layout, vals).value) == Used(layout, vals)
    ensures UnpackBE(layout, PackBE(layout, vals).value) == Used(layout, vals)
  {
    UnpackPack(layout, Used(layout, vals));
    LEValuesOfStream(layout, Used(layout, vals), 0);
    BitsOfStreamBytes(LEStream(layout, Used(layout, vals), 0));
  }
}
