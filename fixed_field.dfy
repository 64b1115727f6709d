/**
 * `FixedField`: a number or bit field with a fixed layout of unsigned groups
 * (`'u8'`, `'u4u4'`, ...), packed MSB-first with each value's bytes stored least
 * significant first.
 */
module FixedFields {
  import opened Bytes
  import opened Wrappers
  import opened BitPack

  /** What a FixedField holds: Python's `None`, an int, or a tuple of ints. */
  datatype FixedValue = Unset | Scalar(n: int) | Tuple(items: seq<int>)

  /** The numbers `serialize` hands to bitstruct: `*value` for a tuple, `value` otherwise. */
  function PackArgs(v: FixedValue): seq<int>
  {
    match v
    case Unset => []
    case Scalar(n) => [n]
    case Tuple(xs) => xs
  }

  /** `FixedField.size()`: the layout's width in bytes, or the alignment error. */
  function FixedSize(layout: Layout): (r: Result<nat>)
    ensures r.Ok? <==> TotalBits(layout) % 8 == 0
    ensures r.Ok? ==> 8 * r.value == TotalBits(layout)
    ensures r.Err? ==> r.error == BitAlignment
  {
    if TotalBits(layout) % 8 != 0 then Err(BitAlignment) else Ok(TotalBits(layout) / 8)
  }

  /**
   * `FixedField.serialize()`: `bitstruct.pack(format + '<', ...)`. Packing `None`
   * fails; so do fewer values than groups and a value outside its width. Values beyond
   * the layout's groups are ignored.
   */
  function FixedSerialize(layout: Layout, v: FixedValue): (r: Result<seq<byte>>)
    ensures r.Ok? <==>
      (!v.Unset? && |PackArgs(v)| >= |layout| && Fits(layout, Used(layout, PackArgs(v))) && TotalBits(layout) % 8 == 0)
    ensures r.Ok? ==> |r.value| == FixedSize(layout).value
  {
    match v
    case Unset => Err(TypeMismatch)
    case Scalar(n) => PackLE(layout, [n])
    case Tuple(xs) => PackLE(layout, xs)
  }

  /** What `deserialize` stores for the unpacked numbers: a scalar for one group, a tuple for several. */
  function Stored(vals: seq<int>): (v: FixedValue)
    requires |vals| > 0
    ensures PackArgs(v) == vals
    ensures v.Scalar? <==> |vals| == 1
  {
    if |vals| > 1 then Tuple(vals) else Scalar(vals[0])
  }

  /**
   * `FixedField.deserialize(input)`: the field's new value and the remainder of the
   * input. A failure leaves the value as it was.
   */
  function FixedDeserialize(layout: Layout, value: FixedValue, input: seq<byte>): (r: (FixedValue, Result<seq<byte>>))
    ensures r.1.Ok? <==> TotalBits(layout) % 8 == 0 && |layout| > 0 && |input| >= FixedSize(layout).value
    ensures TotalBits(layout) % 8 != 0 ==> r.1 == Err(BitAlignment)
    ensures r.1.Ok? ==> r.1.value == input[FixedSize(layout).value..]
    ensures r.1.Ok? ==> Fits(layout, PackArgs(r.0)) && (r.0.Scalar? <==> |layout| == 1)
    ensures r.1.Err? ==> r.0 == value
  {
    match FixedSize(layout)
    case Err(e) => (value, Err(e))
    case Ok(n) =>
      if |input| < n then
        (value, Err(ShortInput))
      else
        var vals := UnpackLE(layout, input[..n]);
        if |vals| == 0 then (value, Err(ValueCount)) else (Stored(vals), Ok(input[n..]))
  }

  /** Writing back a value that was read gives exactly the bytes it was read from. */
  lemma DeserializeRepacks(layout: Layout, value: FixedValue, input: seq<byte>)
    requires FixedDeserialize(layout, value, input).1.Ok?
    ensures FixedSerialize(layout, FixedDeserialize(layout, value, input).0)
         == Ok(input[..FixedSize(layout).value])
  {
    var n := FixedSize(layout).value;
    var vals := UnpackLE(layout, input[..n]);
    UnpackLERepacks(layout, input[..n]);
    UsedAll(layout, vals);
  }

  /** Reading back what was written restores the value, in its stored (scalar or tuple) shape. */
  lemma SerializeRoundTrip(layout: Layout, v: FixedValue, current: FixedValue, rest: seq<byte>)
    requires FixedSerialize(layout, v).Ok? && |layout| > 0
    ensures FixedDeserialize(layout, current, FixedSerialize(layout, v).value + rest)
         == (Stored(Used(layout, PackArgs(v))), Ok(rest))
  {
    var vals := PackArgs(v);
    var bytes := FixedSerialize(layout, v).value;
    assert bytes == PackLE(layout, vals).value;
    PackRoundTrip(layout, vals);
    var input := bytes + rest;
    assert input[..|bytes|] == bytes && input[|bytes|..] == rest;
  }

  /**
   * The stored shape is the written one exactly when the value has one number per group
   * and is a scalar for one group, a tuple for several.
   */
  lemma StoredShape(layout: Layout, v: FixedValue)
    requires FixedSerialize(layout, v).Ok? && |layout| > 0
    ensures Stored(Used(layout, PackArgs(v))) == v <==> |PackArgs(v)| == |layout| && (v.Scalar? <==> |layout| == 1)
  {
    if |PackArgs(v)| == |layout| {
      UsedAll(layout, PackArgs(v));
    }
  }

  /**
   * When every group of the layout is a whole number of bytes, each value used is
   * written in its own bytes, least significant byte first.
   */
  lemma SerializeWholeBytes(layout: Layout, v: FixedValue)
    requires WholeByteGroups(layout) && !v.Unset? && PackCheck(layout, PackArgs(v)).Pass?
    ensures FixedSerialize(layout, v) == Ok(WholeBytesLE(layout, Used(layout, PackArgs(v))))
  {
    PackLEWholeBytes(layout, PackArgs(v));
  }

  /** Numbers beyond the layout's groups are not written: `'u8'` holding `(1, 2)` is the byte 0x01. */
  lemma ExtraValuesExample()
    ensures FixedSerialize([8], Tuple([1, 2])) == Ok([0x01])
  {
    assert [8][1..] == [] && [1][1..] == [];
    assert Used([8], [1, 2]) == [1];
    assert PackCheck([8], [1, 2]).Pass? by {
      Pow2Small();
    }
    assert WholeBytesLE([8], [1]) == ToLE(1, 1) + [];
    assert ToLE(1, 1) == [1];
    SerializeWholeBytes([8], Tuple([1, 2]));
  }

  /** The format-version prologue `'u4u4'` holding `(0, 1)` is the single byte 0x01. */
  lemma VersionByteExample()
    ensures FixedSerialize([4, 4], Tuple([0, 1])) == Ok([0x01])
  {
    assert TotalBits([4, 4]) == 8 by {
      assert [4, 4][1..] == [4] && [4][1..] == [];
    }
    assert PackBE([4, 4], [0, 1]) == Ok([0x01]) by {
      Pow2Small();
      assert Used([4, 4], [0, 1]) == [0, 1];
      assert PackBits([4, 4], [0, 1]) == 1 by {
        assert [4, 4][1..] == [4] && [0, 1][1..] == [1];
        assert [4][1..] == [] && [1][1..] == [];
      }
      assert ToBE(1, 1) == [1];
    }
    OneByteLayout([4, 4], [0, 1]);
  }

  /** Two one-byte groups keep their order: `'u8u8'` holding `(0xAA, 0xBB)` is AA BB. */
  lemma TwoByteGroupsExample()
    ensures FixedSerialize([8, 8], Tuple([0xAA, 0xBB])) == Ok([0xAA, 0xBB])
  {
    var layout, vals := [8, 8], [0xAA, 0xBB];
    assert layout[1..] == [8] && [8][1..] == [] && vals[1..] == [0xBB] && [0xBB][1..] == [];
    assert Used(layout, vals) == vals;
    assert PackCheck(layout, vals).Pass? by {
      Pow2Small();
    }
    assert WholeBytesLE([8], [0xBB]) == [0xBB] by {
      assert ToLE(0xBB, 1) == [0xBB];
    }
    assert WholeBytesLE(layout, vals) == [0xAA, 0xBB] by {
      assert ToLE(0xAA, 1) == [0xAA];
    }
    SerializeWholeBytes(layout, Tuple(vals));
  }

  /** One two-byte group is stored low byte first: `'u16'` holding 0x1234 is 34 12. */
  lemma SixteenBitExample()
    ensures FixedSerialize([16], Scalar(0x1234)) == Ok([0x34, 0x12])
  {
    assert [16][1..] == [] && [0x1234][1..] == [];
    assert Used([16], [0x1234]) == [0x1234];
    assert PackCheck([16], [0x1234]).Pass? by {
      Pow2Small();
      Pow2Add(8, 8);
    }
    assert WholeBytesLE([16], [0x1234]) == ToLE(0x1234, 2) + [];
    assert ToLE(0x1234, 2) == [0x34, 0x12];
    SerializeWholeBytes([16], Scalar(0x1234));
  }

  class FixedField {
    const layout: Layout
    var value: FixedValue

    constructor (layout: Layout, value: FixedValue)
      ensures this.layout == layout && this.value == value
    {
      this.layout := layout;
      this.value := value;
    }

    method Size() returns (r: Result<nat>)
      ensures r == FixedSize(layout)
    {
      var numBits := TotalBits(layout);
      if numBits % 8 != 0 {
        return Err(BitAlignment);
      }
      return Ok(numBits / 8);
    }

    method Serialize() returns (r: Result<seq<byte>>)
      ensures r == FixedSerialize(layout, value)
    {
      if value.Tuple? {
        r := PackLE(layout, value.items);
      } else if value.Scalar? {
        r := PackLE(layout, [value.n]);
      } else {
        r := Err(TypeMismatch);
      }
    }

    method Deserialize(input: seq<byte>) returns (r: Result<seq<byte>>)
      modifies this
      ensures (value, r) == FixedDeserialize(layout, old(value), input)
    {
      var n := Size();
      if n.Err? {
        return Err(n.error);
      }
      if |input| < n.value {
        return Err(ShortInput);
      }
      var tmp, remainder := input[..n.value], input[n.value..];
      var result := UnpackLE(layout, tmp);
      if |result| > 1 {
        value := Tuple(result);
      } else if |result| == 1 {
        value := Scalar(result[0]);
      } else {
        return Err(ValueCount);
      }
      return Ok(remainder);
    }
  }
}
