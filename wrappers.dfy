/** Results of the codec's operations: a value, or the error the Python code raises. */
module Wrappers {
  import opened Bytes

  datatype Option<+T> = None | Some(value: T)

  /** The failures the field and area code can raise. */
  datatype Error =
    | BitAlignment          // FixedField.size: the layout's bit widths do not sum to a multiple of 8
    | ValueCount            // bitstruct: number of values differs from the number of groups
    | ValueRange            // bitstruct: a value does not fit its unsigned width
    | ShortInput            // bitstruct.unpack: fewer bytes than the layout needs
    | BcdLookup             // BCD plus: character or nibble outside the 13-entry table
    | SixBitLength          // 6-bit ASCII payload whose length is not a multiple of 3
    | TextDecode            // UTF-8 decoding of a BIN / 8-bit ASCII payload failed
    | Checksum(expected: seq<byte>, received: seq<byte>)  // area epilogue mismatch
    | AreaLengthAlignment   // area_length set to a value that is not a multiple of 8
    | UnknownField          // key neither special nor in the schema
    | TypeMismatch          // a value of the wrong kind for the field it is stored in

  datatype Result<+T> = Ok(value: T) | Err(error: Error)

  /** `p` followed by the sequence in `r`, or `r`'s error. */
  function Prepend<T>(p: seq<T>, r: Result<seq<T>>): Result<seq<T>>
  {
    match r
    case Ok(s) => Ok(p + s)
    case Err(e) => Err(e)
  }

  lemma PrependNil<T>(r: Result<seq<T>>)
    ensures Prepend([], r) == r
  {
    if r.Ok? {
      assert [] + r.value == r.value;
    }
  }

  lemma PrependEmpty<T>(p: seq<T>, whole: Result<seq<T>>)
    requires whole == Prepend(p, Ok([]))
    ensures whole == Ok(p)
  {
    assert p + [] == p;
  }

  lemma PrependPrepend<T>(a: seq<T>, b: seq<T>, r: Result<seq<T>>)
    ensures Prepend(a, Prepend(b, r)) == Prepend(a + b, r)
  {
    if r.Ok? {
      assert a + (b + r.value) == (a + b) + r.value;
    }
  }

  /** One step of a loop that joins results: `whole` is what the loop must end with. */
  lemma PrependStep<T>(head: Result<seq<T>>, tail: Result<seq<T>>, done: seq<T>, whole: Result<seq<T>>)
    requires whole == Prepend(done, match head case Err(e) => Err(e) case Ok(b) => Prepend(b, tail))
    ensures head.Err? ==> whole == Err(head.error)
    ensures head.Ok? ==> whole == Prepend(done + head.value, tail)
  {
    if head.Ok? {
      PrependPrepend(done, head.value, tail);
    }
  }

  /** A remainder left from a remainder is a remainder of the whole input. */
  lemma SuffixOfSuffix<T>(s: seq<T>, r0: seq<T>, r: Result<seq<T>>)
    requires |r0| <= |s| && r0 == s[|s| - |r0|..]
    ensures r.Ok? && |r.value| <= |r0| && r.value == r0[|r0| - |r.value|..] ==>
      |r.value| <= |s| && r.value == s[|s| - |r.value|..]
  {
  }

  /** Success or failure of an operation that returns nothing (`update`). */
  datatype Outcome = Pass | Fail(error: Error)
}
