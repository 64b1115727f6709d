/**
 * `StringField`: a type/length byte `[selector:2][length:6]` followed by the text
 * in one of four encodings (binary, BCD plus, 6-bit packed ASCII, 8-bit text).
 */
module StringFields {
  import opened Bytes
  import opened Wrappers
  import opened Align
  import opened BitPack
  import Utf8

  /** `StringFmt`: the encoding named by the two selector bits. */
  datatype StringFmt = Bin | BcdPlus | Ascii6Bit | Ascii8Bit

  /** `StringFmt.value`. */
  function Selector(f: StringFmt): (c: nat)
    ensures c < 4
  {
    match f
    case Bin => 0
    case BcdPlus => 1
    case Ascii6Bit => 2
    case Ascii8Bit => 3
  }

  /** `StringFmt(c)`: every two-bit selector names a format. */
  function FormatOf(c: nat): (f: StringFmt)
    requires c < 4
    ensures Selector(f) == c
  {
    if c == 0 then Bin else if c == 1 then BcdPlus else if c == 2 then Ascii6Bit else Ascii8Bit
  }

  lemma FormatOfSelector(f: StringFmt)
    ensures FormatOf(Selector(f)) == f
  {
  }

  // ---------------------------------------------------------------- bit layouts

  /** The header layout `'u2u6'`. */
  const HeaderLayout: Layout := [2, 6]
  /** The BCD plus pair layout `'u4u4'`. */
  const NibbleLayout: Layout := [4, 4]
  /** The 6-bit chunk layout `'u6u6u6u6'`. */
  const SixBitLayout: Layout := [6, 6, 6, 6]

  /** A layout of 8 bits packs into the single byte that holds the packed number. */
  lemma OneBytePack(layout: Layout, vals: seq<int>)
    requires PackCheck(layout, vals).Pass? && |vals| == |layout| && TotalBits(layout) == 8
    ensures PackBE(layout, vals) == Ok([PackBits(layout, vals)])
  {
    UsedAll(layout, vals);
    var v := PackBE(layout, vals).value;
    assert v[..0] == [];
    assert v == [v[0]];
  }

  /** Packing two groups `[h, l]` of one byte: the first value in the high bits. */
  lemma HeaderPack(a: int, b: int)
    requires 0 <= a < 4 && 0 <= b < 64
    ensures PackBE(HeaderLayout, [a, b]) == Ok([a * 64 + b])
    ensures UnpackBE(HeaderLayout, [a * 64 + b]) == [a, b]
  {
    Pow2Small();
    assert HeaderLayout[1..] == [6] && [6][1..] == [];
    assert TotalBits(HeaderLayout) == 8;
    assert PackBits(HeaderLayout, [a, b]) == a * 64 + b;
    OneBytePack(HeaderLayout, [a, b]);
    PackRoundTrip(HeaderLayout, [a, b]);
  }

  lemma NibblePack(a: int, b: int)
    requires 0 <= a < 16 && 0 <= b < 16
    ensures PackBE(NibbleLayout, [a, b]) == Ok([a * 16 + b])
    ensures UnpackBE(NibbleLayout, [a * 16 + b]) == [a, b]
  {
    Pow2Small();
    assert NibbleLayout[1..] == [4] && [4][1..] == [];
    assert TotalBits(NibbleLayout) == 8;
    assert PackBits(NibbleLayout, [a, b]) == a * 16 + b;
    OneBytePack(NibbleLayout, [a, b]);
    PackRoundTrip(NibbleLayout, [a, b]);
  }

  /** Every byte splits into its two nibbles, the high one first. */
  lemma NibbleSplit(v: byte)
    ensures UnpackBE(NibbleLayout, [v]) == [v / 16, v % 16]
  {
    NibblePack(v / 16, v % 16);
  }

  /** Every header byte splits into a two-bit selector and a six-bit length. */
  lemma HeaderSplit(v: byte)
    ensures UnpackBE(HeaderLayout, [v]) == [v / 64, v % 64]
  {
    HeaderPack(v / 64, v % 64);
  }

  // ---------------------------------------------------------------- BCD plus

  /** `bcdplus_lookup`: the nibble of a BCD plus character. */
  function BcdCode(c: char): Option<nat>
  {
    if '0' <= c <= '9' then Some(c as int - '0' as int)
    else if c == ' ' then Some(10)
    else if c == '-' then Some(11)
    else if c == '.' then Some(12)
    else None
  }

  /** `bcdplus_lookup_rev`: the character of a nibble. */
  function BcdChar(x: int): Option<char>
  {
    if 0 <= x <= 9 then Some(('0' as int + x) as char)
    else if x == 10 then Some(' ')
    else if x == 11 then Some('-')
    else if x == 12 then Some('.')
    else None
  }

  /** The two tables are inverse to each other; the codes are the nibbles 0..12. */
  lemma BcdTablesInverse(c: char, x: nat)
    ensures BcdCode(c) == Some(x) <==> BcdChar(x) == Some(c)
    ensures BcdCode(c).Some? ==> BcdCode(c).value <= 12
  {
  }

  predicate IsBcd(c: char)
  {
    BcdCode(c).Some?
  }

  predicate AllBcd(s: string)
  {
    forall i :: 0 <= i < |s| ==> IsBcd(s[i])
  }

  lemma AllBcdConcat(a: string, b: string)
    ensures AllBcd(a + b) <==> AllBcd(a) && AllBcd(b)
  {
    assert forall i :: 0 <= i < |a| ==> (a + b)[i] == a[i];
    assert forall i :: 0 <= i < |b| ==> (a + b)[|a| + i] == b[i];
  }

  /** One two-character chunk of `ser_bcd_plus`: the first character's nibble is the high one. */
  function BcdPair(chunk: seq<char>): (r: Result<seq<byte>>)
    requires |chunk| == 2
    ensures r.Ok? <==> IsBcd(chunk[0]) && IsBcd(chunk[1])
    ensures r.Ok? ==> r.value == [BcdCode(chunk[0]).value * 16 + BcdCode(chunk[1]).value]
    ensures r.Err? ==> r.error == BcdLookup
  {
    match (BcdCode(chunk[0]), BcdCode(chunk[1]))
    case (Some(hi), Some(lo)) =>
      BcdTablesInverse(chunk[0], hi);
      BcdTablesInverse(chunk[1], lo);
      NibblePack(hi, lo);
      PackBE(NibbleLayout, [hi, lo])
    case _ => Err(BcdLookup)
  }

  function BcdPairs(chunks: seq<seq<char>>): Result<seq<byte>>
    requires forall i :: 0 <= i < |chunks| ==> |chunks[i]| == 2
  {
    if |chunks| == 0 then
      Ok([])
    else
      match BcdPair(chunks[0])
      case Err(e) => Err(e)
      case Ok(b) => Prepend(b, BcdPairs(chunks[1..]))
  }

  /** `ser_bcd_plus`: the text, space-padded to even length, two characters per byte. */
  function BcdPlusEncode(text: string): Result<seq<byte>>
  {
    BcdPairs(Grouper(2, text, ' '))
  }

  /**
   * One byte of `deser_bcd_plus`: its high nibble's character, then its low one's.
   * The nibbles are those `bitstruct.unpack('u4u4')` gives (`NibbleSplit`).
   */
  function BcdByte(v: byte): Result<string>
  {
    var nibbles := [v / 16, v % 16];
    match (BcdChar(nibbles[0]), BcdChar(nibbles[1]))
    case (Some(a), Some(b)) => Ok([a, b])
    case _ => Err(BcdLookup)
  }

  /** `deser_bcd_plus`: fails on a nibble outside the table (13, 14, 15). */
  function BcdPlusDecode(payload: seq<byte>): Result<string>
  {
    if |payload| == 0 then
      Ok([])
    else
      match BcdByte(payload[0])
      case Err(e) => Err(e)
      case Ok(s) => Prepend(s, BcdPlusDecode(payload[1..]))
  }

  /** The byte of an encodable pair reads back as the pair. */
  lemma BcdPairDecode(c: seq<char>)
    requires |c| == 2 && BcdPair(c).Ok?
    ensures |BcdPair(c).value| == 1 && BcdByte(BcdPair(c).value[0]) == Ok(c)
  {
    var b := BcdPair(c).value;
    var hi, lo := BcdCode(c[0]).value, BcdCode(c[1]).value;
    BcdTablesInverse(c[0], hi);
    BcdTablesInverse(c[1], lo);
    NibblePack(hi, lo);
    NibbleSplit(b[0]);
    assert [c[0], c[1]] == c;
  }

  lemma {:induction false} BcdPairsSpec(chunks: seq<seq<char>>)
    requires forall i :: 0 <= i < |chunks| ==> |chunks[i]| == 2
    ensures BcdPairs(chunks).Ok? <==> AllBcd(Concat(chunks))
    ensures BcdPairs(chunks).Err? ==> BcdPairs(chunks).error == BcdLookup
    ensures BcdPairs(chunks).Ok? ==> |BcdPairs(chunks).value| == |chunks|
    ensures BcdPairs(chunks).Ok? ==> BcdPlusDecode(BcdPairs(chunks).value) == Ok(Concat(chunks))
  {
    if |chunks| > 0 {
      var c := chunks[0];
      BcdPairsSpec(chunks[1..]);
      assert AllBcd(Concat(chunks)) <==> IsBcd(c[0]) && IsBcd(c[1]) && AllBcd(Concat(chunks[1..])) by {
        AllBcdConcat(c, Concat(chunks[1..]));
        assert AllBcd(c) <==> IsBcd(c[0]) && IsBcd(c[1]);
      }
      if BcdPair(c).Ok? && BcdPairs(chunks[1..]).Ok? {
        var b, rest := BcdPair(c).value, BcdPairs(chunks[1..]).value;
        assert BcdPairs(chunks) == Ok(b + rest);
        assert BcdPlusDecode(b + rest) == Ok(Concat(chunks)) by {
          BcdPairDecode(c);
          assert (b + rest)[0] == b[0] && (b + rest)[1..] == rest;
        }
      }
    }
  }

  /**
   * `ser_bcd_plus` fails exactly when the text holds a character outside the table;
   * otherwise it gives one byte per two characters, and decoding gives the text back
   * padded with a space to even length.
   */
  lemma BcdPlusRoundTrip(text: string)
    ensures BcdPlusEncode(text).Ok? <==> AllBcd(text)
    ensures BcdPlusEncode(text).Err? ==> BcdPlusEncode(text).error == BcdLookup
    ensures BcdPlusEncode(text).Ok? ==> |BcdPlusEncode(text).value| == SizeAlign(|text|, 2).1 / 2
    ensures BcdPlusEncode(text).Ok? ==>
      BcdPlusDecode(BcdPlusEncode(text).value) == Ok(text + Repeat(' ', SizeAlign(|text|, 2).0))
  {
    var pad := Repeat(' ', SizeAlign(|text|, 2).0);
    BcdPairsSpec(Grouper(2, text, ' '));
    AllBcdConcat(text, pad);
  }

  /** The two characters a byte reads as encode back to that byte. */
  lemma BcdByteEncode(v: byte)
    requires BcdByte(v).Ok?
    ensures |BcdByte(v).value| == 2 && BcdPair(BcdByte(v).value) == Ok([v])
  {
    var pair := BcdByte(v).value;
    BcdTablesInverse(pair[0], v / 16);
    BcdTablesInverse(pair[1], v % 16);
  }

  /** Encoding what `deser_bcd_plus` read gives the payload back: every decoded text is a canonical one. */
  lemma {:induction false} BcdPlusDecodeEncode(payload: seq<byte>)
    requires BcdPlusDecode(payload).Ok?
    ensures BcdPlusEncode(BcdPlusDecode(payload).value) == Ok(payload)
    decreases |payload|
  {
    if |payload| > 0 {
      var v := payload[0];
      var pair := BcdByte(v).value;
      var text := BcdPlusDecode(payload[1..]).value;
      assert BcdPlusDecode(payload).value == pair + text;
      assert BcdPairs(Grouper(2, text, ' ')) == Ok(payload[1..]) by {
        BcdPlusDecodeEncode(payload[1..]);
      }
      assert BcdPairs(Grouper(2, pair + text, ' ')) == Prepend([v], BcdPairs(Grouper(2, text, ' '))) by {
        BcdByteEncode(v);
        GrouperCons(2, pair, text, ' ');
        var chunks := [pair] + Grouper(2, text, ' ');
        assert chunks[0] == pair && chunks[1..] == Grouper(2, text, ' ');
      }
      assert payload == [v] + payload[1..];
    }
  }

  // ---------------------------------------------------------------- 6-bit ASCII

  /** `str.upper()` on the ASCII letters. */
  function UpperChar(c: char): char
  {
    if 'a' <= c <= 'z' then (c as int - 32) as char else c
  }

  function Upper(s: string): (u: string)
    ensures |u| == |s| && forall i :: 0 <= i < |s| ==> u[i] == UpperChar(s[i])
  {
    seq(|s|, i requires 0 <= i < |s| => UpperChar(s[i]))
  }

  /** `ord(x) - 0x20`. */
  function SixBitCode(c: char): int
  {
    c as int - 0x20
  }

  /** The characters 6-bit ASCII can hold: space (0x20) up to underscore (0x5F). */
  predicate IsSixBit(c: char)
  {
    0 <= SixBitCode(c) < 64
  }

  predicate AllSixBit(s: string)
  {
    forall i :: 0 <= i < |s| ==> IsSixBit(s[i])
  }

  lemma AllSixBitConcat(a: string, b: string)
    ensures AllSixBit(a + b) <==> AllSixBit(a) && AllSixBit(b)
  {
    assert forall i :: 0 <= i < |a| ==> (a + b)[i] == a[i];
    assert forall i :: 0 <= i < |b| ==> (a + b)[|a| + i] == b[i];
  }

  /** `list(map(lambda x: ord(x) - 0x20, chunk))`. */
  function SixBitCodes(chunk: seq<char>): (codes: seq<int>)
    requires |chunk| == 4
    ensures |codes| == 4 && forall i :: 0 <= i < 4 ==> codes[i] == SixBitCode(chunk[i])
  {
    [SixBitCode(chunk[0]), SixBitCode(chunk[1]), SixBitCode(chunk[2]), SixBitCode(chunk[3])]
  }

  /** The 24-bit word of a chunk: the first character in the lowest six bits. */
  function SixBitWord(chunk: seq<char>): int
    requires |chunk| == 4
  {
    SixBitCode(chunk[0]) + 64 * SixBitCode(chunk[1]) + 4096 * SixBitCode(chunk[2]) + 262144 * SixBitCode(chunk[3])
  }

  lemma SixBitFits(v: seq<int>)
    requires |v| == 4
    ensures TotalBits(SixBitLayout) == 24
    ensures Fits(SixBitLayout, v) <==> forall i :: 0 <= i < 4 ==> 0 <= v[i] < 64
  {
    Pow2Small();
    assert forall i :: 0 <= i < 4 ==> SixBitLayout[i] == 6;
    assert SixBitLayout[1..] == [6, 6, 6] && [6, 6, 6][1..] == [6, 6] && [6, 6][1..] == [6] && [6][1..] == [];
  }

  /** The tails of the six-bit layout and their widths. */
  lemma SixBitTails()
    ensures SixBitLayout[1..] == [6, 6, 6] && [6, 6, 6][1..] == [6, 6] && [6, 6][1..] == [6]
    ensures TotalBits([6]) == 6 && TotalBits([6, 6]) == 12 && TotalBits([6, 6, 6]) == 18
  {
    assert [6][1..] == [];
  }

  /** Four codes packed MSB-first: the last code ends up in the lowest six bits. */
  lemma SixBitPackBits(v: seq<int>)
    requires |v| == 4 && Fits(SixBitLayout, v)
    ensures PackBits(SixBitLayout, v) == v[3] + 64 * v[2] + 4096 * v[1] + 262144 * v[0]
  {
    SixBitTails();
    Pow2Small();
    Pow2Add(6, 6);
    Pow2Add(12, 6);
    assert v[1..][1..] == v[2..] && v[2..][1..] == v[3..];
    PackBitsCons(SixBitLayout, v);
    PackBitsCons([6, 6, 6], v[1..]);
    PackBitsCons([6, 6], v[2..]);
    var p1 := PackBits([6], v[3..]);
    assert p1 == v[3] by {
      PackBitsCons([6], v[3..]);
      assert [6][1..] == [] && PackBits([6][1..], v[3..][1..]) == 0;
    }
    var p2 := PackBits([6, 6], v[2..]);
    assert p2 == v[2] * 64 + p1;
    var p3 := PackBits([6, 6, 6], v[1..]);
    assert p3 == v[1] * 4096 + p2;
  }

  /** `bitstruct.pack('u6' * 4, *v)`: fails on a code outside 0..63, else three big-endian bytes. */
  lemma SixBitPack(v: seq<int>)
    requires |v| == 4
    ensures PackBE(SixBitLayout, v).Ok? <==> forall i :: 0 <= i < 4 ==> 0 <= v[i] < 64
    ensures PackBE(SixBitLayout, v).Err? ==> PackBE(SixBitLayout, v).error == ValueRange
    ensures PackBE(SixBitLayout, v).Ok? ==>
      PackBE(SixBitLayout, v).value == ToBE(v[3] + 64 * v[2] + 4096 * v[1] + 262144 * v[0], 3)
  {
    SixBitFits(v);
    UsedAll(SixBitLayout, v);
    if Fits(SixBitLayout, v) {
      SixBitPackBits(v);
    }
  }

  /**
   * One four-character chunk of `ser_6bit`: the codes `ord(x) - 0x20`, reversed,
   * packed `'u6u6u6u6'`, the three bytes reversed. This is the little-endian 24-bit
   * word whose lowest six bits hold the first character.
   */
  function SixBitChunk(chunk: seq<char>): (r: Result<seq<byte>>)
    requires |chunk| == 4
    ensures r.Ok? <==> AllSixBit(chunk)
    ensures r.Err? ==> r.error == ValueRange
    ensures r.Ok? ==> r.value == ToLE(SixBitWord(chunk), 3)
  {
    var codes := SixBitCodes(chunk);
    var reversed := Reverse(codes);
    SixBitPack(reversed);
    match PackBE(SixBitLayout, reversed)
    case Err(e) => Err(e)
    case Ok(tmp) =>
      ReverseToBE(SixBitWord(chunk), 3);
      Ok(Reverse(tmp))
  }

  function SixBitChunks(chunks: seq<seq<char>>): Result<seq<byte>>
    requires forall i :: 0 <= i < |chunks| ==> |chunks[i]| == 4
  {
    if |chunks| == 0 then
      Ok([])
    else
      match SixBitChunk(chunks[0])
      case Err(e) => Err(e)
      case Ok(b) => Prepend(b, SixBitChunks(chunks[1..]))
  }

  /** `ser_6bit`: the text uppercased, space-padded to a multiple of four, three bytes per chunk. */
  function SixBitEncode(text: string): Result<seq<byte>>
  {
    SixBitChunks(Grouper(4, Upper(text), ' '))
  }

  /** `bytes((x + 0x20,)).decode('utf-8')` for a 6-bit code: always one ASCII character. */
  function SixBitChar(x: int): char
    requires 0 <= x < 64
  {
    (x + 0x20) as char
  }

  /**
   * One three-byte chunk of `deser_6bit`: the bytes reversed, unpacked `'u6u6u6u6'`,
   * the codes reversed, each turned back into a character.
   */
  function SixBitTriple(t: seq<byte>): (s: string)
    requires |t| == 3
    ensures |s| == 4
  {
    var codes := SixBitTripleCodes(t);
    seq(4, i requires 0 <= i < 4 => SixBitChar(codes[i]))
  }

  /** `bitstruct.unpack('u6' * 4, bytearray(reversed(chunk)))[::-1]`. */
  function SixBitTripleCodes(t: seq<byte>): (codes: seq<int>)
    requires |t| == 3
    ensures |codes| == 4 && forall i :: 0 <= i < 4 ==> 0 <= codes[i] < 64
  {
    Pow2Small();
    assert forall i :: 0 <= i < 4 ==> SixBitLayout[i] == 6;
    Reverse(UnpackBE(SixBitLayout, Reverse(t)))
  }

  /** The payload read three bytes at a time (a shorter tail is not read). */
  function SixBitTriples(payload: seq<byte>): string
  {
    if |payload| < 3 then "" else SixBitTriple(payload[..3]) + SixBitTriples(payload[3..])
  }

  /**
   * `deser_6bit`. On a payload whose length is not a multiple of three the source's
   * last chunk holds its `' '` fill value and unpacking it raises; here that is an error.
   */
  function SixBitDecode(payload: seq<byte>): (r: Result<string>)
    ensures r.Ok? <==> |payload| % 3 == 0
    ensures r.Err? ==> r.error == SixBitLength
  {
    if |payload| % 3 != 0 then Err(SixBitLength) else Ok(SixBitTriples(payload))
  }

  /** Unpacking the three bytes of a chunk gives back its four codes. */
  lemma SixBitChunkCodes(chunk: seq<char>)
    requires |chunk| == 4 && AllSixBit(chunk)
    ensures SixBitTripleCodes(ToLE(SixBitWord(chunk), 3)) == SixBitCodes(chunk)
  {
    var codes := SixBitCodes(chunk);
    var reversed := Reverse(codes);
    var w := SixBitWord(chunk);
    SixBitFits(reversed);
    SixBitPackBits(reversed);
    assert w == PackBits(SixBitLayout, reversed);
    ReverseToBE(w, 3);
    ReverseReverse(ToBE(w, 3));
    FromToBE(w, 3);
    UnpackPack(SixBitLayout, reversed);
    assert UnpackBE(SixBitLayout, ToBE(w, 3)) == reversed;
    ReverseReverse(codes);
  }

  lemma SixBitChunkDecode(chunk: seq<char>)
    requires |chunk| == 4 && AllSixBit(chunk)
    ensures SixBitTriple(SixBitChunk(chunk).value) == chunk
  {
    var t := ToLE(SixBitWord(chunk), 3);
    SixBitChunkCodes(chunk);
    var codes := SixBitCodes(chunk);
    var s := SixBitTriple(t);
    forall i | 0 <= i < 4
      ensures s[i] == chunk[i]
    {
      assert codes[i] == SixBitCode(chunk[i]) && IsSixBit(chunk[i]);
      assert s[i] == SixBitChar(SixBitTripleCodes(t)[i]);
    }
  }

  /** The four characters read from three bytes are 6-bit ASCII, already uppercase, with the codes read. */
  lemma SixBitTripleChars(t: seq<byte>)
    requires |t| == 3
    ensures AllSixBit(SixBitTriple(t)) && Upper(SixBitTriple(t)) == SixBitTriple(t)
    ensures SixBitCodes(SixBitTriple(t)) == SixBitTripleCodes(t)
  {
    var chunk := SixBitTriple(t);
    var codes := SixBitTripleCodes(t);
    forall i | 0 <= i < 4
      ensures SixBitCode(chunk[i]) == codes[i] && UpperChar(chunk[i]) == chunk[i]
    {
      assert chunk[i] == SixBitChar(codes[i]);
    }
  }

  /** The word of the four characters read from three bytes is those bytes read little-endian. */
  lemma SixBitTripleWord(t: seq<byte>)
    requires |t| == 3
    ensures SixBitWord(SixBitTriple(t)) == FromLE(t)
  {
    SixBitTripleBits(t);
    SixBitRepack(t);
  }

  /** The word of the four characters read is the packing of the codes unpacked. */
  lemma SixBitTripleBits(t: seq<byte>)
    requires |t| == 3
    ensures SixBitWord(SixBitTriple(t)) == PackBits(SixBitLayout, UnpackBE(SixBitLayout, Reverse(t)))
  {
    var u := UnpackBE(SixBitLayout, Reverse(t));
    SixBitTripleChars(t);
    var c := SixBitCodes(SixBitTriple(t));
    assert c == Reverse(u);
    assert c[0] == u[3] && c[1] == u[2] && c[2] == u[1] && c[3] == u[0];
    SixBitFits(u);
    SixBitPackBits(u);
  }

  /** Packing the codes unpacked from three reversed bytes gives those bytes read little-endian. */
  lemma SixBitRepack(t: seq<byte>)
    requires |t| == 3
    ensures PackBits(SixBitLayout, UnpackBE(SixBitLayout, Reverse(t))) == FromLE(t)
  {
    FromBEReverse(t);
    SixBitFits([0, 0, 0, 0]);
    PackUnpack(SixBitLayout, FromLE(t));
  }

  /** Re-encoding the four characters read from three bytes gives those bytes back. */
  lemma SixBitTripleChunk(t: seq<byte>)
    requires |t| == 3
    ensures AllSixBit(SixBitTriple(t)) && Upper(SixBitTriple(t)) == SixBitTriple(t)
    ensures SixBitChunk(SixBitTriple(t)) == Ok(t)
  {
    SixBitTripleChars(t);
    SixBitTripleWord(t);
    ToFromLE(t);
  }

  lemma SixBitTriplesCons(t: seq<byte>, rest: seq<byte>)
    requires |t| == 3
    ensures SixBitTriples(t + rest) == SixBitTriple(t) + SixBitTriples(rest)
  {
    assert (t + rest)[..3] == t && (t + rest)[3..] == rest;
  }

  lemma {:induction false} SixBitChunksSpec(chunks: seq<seq<char>>)
    requires forall i :: 0 <= i < |chunks| ==> |chunks[i]| == 4
    ensures SixBitChunks(chunks).Ok? <==> AllSixBit(Concat(chunks))
    ensures SixBitChunks(chunks).Err? ==> SixBitChunks(chunks).error == ValueRange
    ensures SixBitChunks(chunks).Ok? ==> |SixBitChunks(chunks).value| == 3 * |chunks|
    ensures SixBitChunks(chunks).Ok? ==> SixBitTriples(SixBitChunks(chunks).value) == Concat(chunks)
  {
    if |chunks| > 0 {
      var c := chunks[0];
      AllSixBitConcat(c, Concat(chunks[1..]));
      SixBitChunksSpec(chunks[1..]);
      if SixBitChunk(c).Ok? && SixBitChunks(chunks[1..]).Ok? {
        var b := SixBitChunk(c).value;
        var rest := SixBitChunks(chunks[1..]).value;
        SixBitChunkDecode(c);
        SixBitTriplesCons(b, rest);
      }
    }
  }

  lemma UpperConcat(a: string, b: string)
    ensures Upper(a + b) == Upper(a) + Upper(b)
  {
    assert forall i :: 0 <= i < |a| ==> (a + b)[i] == a[i];
    assert forall i :: |a| <= i < |a| + |b| ==> (a + b)[i] == b[i - |a|];
  }

  /** The text `deser_6bit` reads is uppercase already. */
  lemma {:induction false} SixBitTriplesUpper(payload: seq<byte>)
    ensures Upper(SixBitTriples(payload)) == SixBitTriples(payload)
    decreases |payload|
  {
    if |payload| >= 3 {
      var first := SixBitTriple(payload[..3]);
      var text := SixBitTriples(payload[3..]);
      SixBitTriplesUpper(payload[3..]);
      SixBitTripleChars(payload[..3]);
      UpperConcat(first, text);
    } else {
      assert Upper(SixBitTriples(payload)) == [];
    }
  }

  /** One chunk of re-encoding: the chunk read from `t` encodes back to `t`, in front of the rest. */
  lemma SixBitEncodeStep(t: seq<byte>, text: string, rest: seq<byte>)
    requires |t| == 3 && SixBitChunks(Grouper(4, text, ' ')) == Ok(rest)
    ensures SixBitChunks(Grouper(4, SixBitTriple(t) + text, ' ')) == Ok(t + rest)
  {
    var first := SixBitTriple(t);
    SixBitTripleChunk(t);
    GrouperCons(4, first, text, ' ');
    var chunks := [first] + Grouper(4, text, ' ');
    assert chunks[0] == first && chunks[1..] == Grouper(4, text, ' ');
  }

  /** Encoding the text `deser_6bit` reads from a payload of whole chunks gives the payload back. */
  lemma {:induction false} SixBitTriplesEncode(payload: seq<byte>)
    requires |payload| % 3 == 0
    ensures SixBitChunks(Grouper(4, SixBitTriples(payload), ' ')) == Ok(payload)
    decreases |payload|
  {
    if |payload| > 0 {
      var t, tail := payload[..3], payload[3..];
      SixBitTriplesEncode(tail);
      SixBitEncodeStep(t, SixBitTriples(tail), tail);
      assert payload == t + tail;
    } else {
      assert SixBitTriples(payload) == [];
    }
  }

  /** Encoding what `deser_6bit` read gives the payload back: every decoded text is a canonical one. */
  lemma SixBitDecodeEncode(payload: seq<byte>)
    requires SixBitDecode(payload).Ok?
    ensures SixBitEncode(SixBitDecode(payload).value) == Ok(payload)
  {
    SixBitTriplesUpper(payload);
    SixBitTriplesEncode(payload);
  }

  /** `IsSixBit` is closed under padding with spaces. */
  lemma SpacesAreSixBit(k: nat)
    ensures AllSixBit(Repeat(' ', k))
  {
  }

  /**
   * `ser_6bit` fails exactly when the uppercased text holds a character outside
   * 0x20..0x5F; otherwise it gives three bytes per four characters, and decoding gives
   * back the uppercased text padded with spaces to a multiple of four.
   */
  lemma SixBitRoundTrip(text: string)
    ensures SixBitEncode(text).Ok? <==> AllSixBit(Upper(text))
    ensures SixBitEncode(text).Err? ==> SixBitEncode(text).error == ValueRange
    ensures SixBitEncode(text).Ok? ==> |SixBitEncode(text).value| == SizeAlign(|text|, 4).1 / 4 * 3
    ensures SixBitEncode(text).Ok? ==>
      SixBitDecode(SixBitEncode(text).value) == Ok(Upper(text) + Repeat(' ', SizeAlign(|text|, 4).0))
  {
    var pad := Repeat(' ', SizeAlign(|text|, 4).0);
    var chunks := Grouper(4, Upper(text), ' ');
    assert Concat(chunks) == Upper(text) + pad;
    SixBitChunksSpec(chunks);
    AllSixBitConcat(Upper(text), pad);
    SpacesAreSixBit(|pad|);
    if SixBitChunks(chunks).Ok? {
      var b := SixBitChunks(chunks).value;
      DivModUnique(|b|, 3, |chunks|, 0);
      assert SixBitDecode(b) == Ok(SixBitTriples(b));
    }
  }

  // ---------------------------------------------------------------- the field

  /** The payload `serialize` writes for each format (`str.encode('utf-8')` for the plain ones). */
  function EncodePayload(f: StringFmt, text: string): Result<seq<byte>>
  {
    match f
    case Bin => Ok(Utf8.Encode(text))
    case Ascii8Bit => Ok(Utf8.Encode(text))
    case BcdPlus => BcdPlusEncode(text)
    case Ascii6Bit => SixBitEncode(text)
  }

  /** The text `deserialize` reads from a payload (`bytes.decode('utf-8')` for the plain ones). */
  function DecodePayload(f: StringFmt, payload: seq<byte>): Result<string>
  {
    match f
    case Bin => PlainDecode(payload)
    case Ascii8Bit => PlainDecode(payload)
    case BcdPlus => BcdPlusDecode(payload)
    case Ascii6Bit => SixBitDecode(payload)
  }

  function PlainDecode(payload: seq<byte>): (r: Result<string>)
    ensures r.Ok? <==> Utf8.Decode(payload).Some?
    ensures r.Err? ==> r.error == TextDecode
  {
    match Utf8.Decode(payload)
    case None => Err(TextDecode)
    case Some(s) => Ok(s)
  }

  /** `StringField.size()`: one header byte plus the payload size the format predicts. */
  function StringSize(f: StringFmt, text: string): nat
  {
    1 + match f
        case Bin => |text|
        case Ascii8Bit => |text|
        case BcdPlus => SizeAlign(|text|, 2).1 / 2
        case Ascii6Bit => SizeAlign(|text|, 4).1 / 4 * 3
  }

  /**
   * `StringField.serialize()`: the payload after a header byte holding the selector in
   * the top two bits and the payload length in the low six; a payload of 64 bytes or
   * more does not fit the length bits.
   */
  function StringSerialize(f: StringFmt, text: string): (r: Result<seq<byte>>)
    ensures r.Ok? <==> EncodePayload(f, text).Ok? && |EncodePayload(f, text).value| < 64
    ensures EncodePayload(f, text).Err? ==> r == EncodePayload(f, text)
    ensures EncodePayload(f, text).Ok? && |EncodePayload(f, text).value| >= 64 ==> r == Err(ValueRange)
    ensures r.Ok? ==> r.value == [Selector(f) * 64 + |EncodePayload(f, text).value|] + EncodePayload(f, text).value
  {
    match EncodePayload(f, text)
    case Err(e) => Err(e)
    case Ok(payload) =>
      Pow2Small();
      match PackBE(HeaderLayout, [Selector(f), |payload|])
      case Err(e) => Err(e)
      case Ok(header) =>
        HeaderPack(Selector(f), |payload|);
        Ok(header + payload)
  }

  /**
   * `StringField.deserialize(input)`: the new format, the new value and the remainder.
   * The format is taken from the header even when the payload then fails to decode; the
   * value changes only on success. A length beyond the input is cut short by slicing.
   */
  function StringDeserialize(f: StringFmt, text: string, input: seq<byte>): (r: (StringFmt, string, Result<seq<byte>>))
    ensures |input| == 0 ==> r == (f, text, Err(ShortInput))
    ensures |input| > 0 ==> r.0 == FormatOf(input[0] / 64)
    ensures r.2.Ok? ==> |input| > 0 && r.2.value == input[Min(1 + input[0] % 64, |input|)..]
    ensures r.2.Err? ==> r.1 == text
    ensures r.2.Ok? ==> EncodePayload(r.0, r.1) == Ok(input[1..|input| - |r.2.value|])
  {
    if |input| == 0 then
      (f, text, Err(ShortInput))
    else
      var header := UnpackBE(HeaderLayout, input[0..1]);
      HeaderSplit(input[0]);
      var format := FormatOf(header[0]);
      var remainder := input[1..];
      var k := Min(header[1], |remainder|);
      var payload, rest := remainder[..k], remainder[k..];
      assert rest == input[Min(1 + input[0] % 64, |input|)..];
      match DecodePayload(format, payload)
      case Ok(s) =>
        EncodeDecodePayload(format, payload);
        assert payload == input[1..|input| - |rest|];
        (format, s, Ok(rest))
      case Err(e) => (format, text, Err(e))
  }

  function Min(a: int, b: int): int
  {
    if a <= b then a else b
  }

  /**
   * The value `deserialize` gives back for `text` written in format `f`: the plain
   * formats keep it, BCD plus pads it with a space to even length, 6-bit ASCII
   * uppercases it and pads it with spaces to a multiple of four.
   */
  function Reloaded(f: StringFmt, text: string): string
  {
    match f
    case Bin => text
    case Ascii8Bit => text
    case BcdPlus => text + Repeat(' ', SizeAlign(|text|, 2).0)
    case Ascii6Bit => Upper(text) + Repeat(' ', SizeAlign(|text|, 4).0)
  }

  lemma DecodeEncodePayload(f: StringFmt, text: string)
    requires EncodePayload(f, text).Ok?
    ensures DecodePayload(f, EncodePayload(f, text).value) == Ok(Reloaded(f, text))
  {
    match f
    case Bin => Utf8.DecodeEncode(text);
    case Ascii8Bit => Utf8.DecodeEncode(text);
    case BcdPlus => BcdPlusRoundTrip(text);
    case Ascii6Bit => SixBitRoundTrip(text);
  }

  /** Encoding what was decoded gives the payload back, in every format. */
  lemma EncodeDecodePayload(f: StringFmt, payload: seq<byte>)
    requires DecodePayload(f, payload).Ok?
    ensures EncodePayload(f, DecodePayload(f, payload).value) == Ok(payload)
  {
    match f
    case Bin => Utf8.EncodeDecode(payload);
    case Ascii8Bit => Utf8.EncodeDecode(payload);
    case BcdPlus => BcdPlusDecodeEncode(payload);
    case Ascii6Bit => SixBitDecodeEncode(payload);
  }

  /**
   * Reading back what was written, followed by anything, restores the format and the
   * reloaded value, whatever the field held before, and returns exactly what followed.
   */
  lemma StringRoundTrip(f: StringFmt, text: string, f0: StringFmt, text0: string, rest: seq<byte>)
    requires StringSerialize(f, text).Ok?
    ensures StringDeserialize(f0, text0, StringSerialize(f, text).value + rest) == (f, Reloaded(f, text), Ok(rest))
  {
    var payload := EncodePayload(f, text).value;
    var input := StringSerialize(f, text).value + rest;
    var h := Selector(f) * 64 + |payload|;
    DivModUnique(h, 64, Selector(f), |payload|);
    assert input[0..1] == [h];
    HeaderSplit(h);
    assert UnpackBE(HeaderLayout, input[0..1]) == [Selector(f), |payload|];
    FormatOfSelector(f);
    var remainder := input[1..];
    ConcatAssoc([h], payload, rest);
    ConcatSplit([h], payload + rest);
    assert Min(|payload|, |remainder|) == |payload|;
    ConcatSplit(payload, rest);
    DecodeEncodePayload(f, text);
  }

  /**
   * The converse of the round trip: when the header's length fits in the input, what
   * `deserialize` read writes back as exactly the bytes it consumed.
   */
  lemma StringReadWrite(f0: StringFmt, text0: string, input: seq<byte>)
    requires |input| > 0 && 1 + input[0] % 64 <= |input|
    requires StringDeserialize(f0, text0, input).2.Ok?
    ensures var (f, text, rest) := StringDeserialize(f0, text0, input);
      StringSerialize(f, text) == Ok(input[..|input| - |rest.value|])
  {
    var (f, text, rest) := StringDeserialize(f0, text0, input);
    var n := input[0] % 64;
    var payload := input[1..|input| - |rest.value|];
    assert |payload| == n;
    assert Selector(f) * 64 + n == input[0];
    assert input[..|input| - |rest.value|] == [input[0]] + payload;
  }

  /** The reloaded value is the value itself exactly when it is already in canonical form. */
  lemma ReloadedFixedPoint(f: StringFmt, text: string)
    ensures f == BcdPlus ==> (Reloaded(f, text) == text <==> |text| % 2 == 0)
    ensures f == Ascii6Bit ==> (Reloaded(f, text) == text <==> |text| % 4 == 0 && Upper(text) == text)
    ensures (f == Bin || f == Ascii8Bit) ==> Reloaded(f, text) == text
  {
    if f == BcdPlus && |text| % 2 == 0 {
      SizeAlignUnique(|text|, 2, 0);
      assert Reloaded(f, text) == text + [];
    } else if f == Ascii6Bit && |text| % 4 == 0 {
      SizeAlignUnique(|text|, 4, 0);
      assert Reloaded(f, text) == Upper(text) + [];
    }
  }

  /**
   * `len(serialize()) == size()` for BCD plus and 6-bit ASCII; for the plain formats it
   * holds exactly when the text is ASCII (otherwise UTF-8 needs more bytes than characters).
   */
  lemma SerializeSize(f: StringFmt, text: string)
    requires StringSerialize(f, text).Ok?
    ensures f == BcdPlus || f == Ascii6Bit ==> |StringSerialize(f, text).value| == StringSize(f, text)
    ensures f == Bin || f == Ascii8Bit ==>
      (|StringSerialize(f, text).value| == StringSize(f, text) <==> Utf8.IsAscii(text))
  {
    match f
    case Bin => Utf8.EncodeLength(text);
    case Ascii8Bit => Utf8.EncodeLength(text);
    case BcdPlus => BcdPlusRoundTrip(text);
    case Ascii6Bit => SixBitRoundTrip(text);
  }

  /**
   * When `serialize` fails: BCD plus on a character outside `0-9 space - .`, 6-bit ASCII
   * on a character outside 0x20..0x5F after uppercasing, any format on a payload over 63 bytes.
   */
  lemma SerializeFailure(f: StringFmt, text: string)
    ensures f == BcdPlus ==>
      (BcdPlusEncode(text).Err? <==> exists i :: 0 <= i < |text| && !IsBcd(text[i]))
    ensures f == Ascii6Bit ==>
      (SixBitEncode(text).Err? <==> exists i :: 0 <= i < |text| && !IsSixBit(UpperChar(text[i])))
    ensures StringSerialize(f, text).Err? <==>
      EncodePayload(f, text).Err? || |EncodePayload(f, text).value| > 63
  {
    BcdPlusRoundTrip(text);
    SixBitRoundTrip(text);
  }

  lemma BcdPlusPayloadExample()
    ensures BcdPlusEncode("12") == Ok([0x12])
    ensures Reloaded(BcdPlus, "12") == "12"
  {
    assert Repeat(' ', 0) == [] && "12" + [] == "12";
    SizeAlignUnique(2, 2, 0);
    var chunks := Grouper(2, "12", ' ');
    assert chunks == ["12"];
    assert chunks[1..] == [];
    assert BcdPair("12") == Ok([0x12]);
    assert BcdPairs(chunks[1..]) == Ok([]);
    assert [0x12] + [] == [0x12];
  }

  /** BCD plus `"12"` is the header 0x41 and the byte 0x12. */
  lemma BcdPlusExample()
    ensures StringSerialize(BcdPlus, "12") == Ok([0x41, 0x12])
    ensures StringDeserialize(Ascii8Bit, "", [0x41, 0x12]) == (BcdPlus, "12", Ok([]))
  {
    BcdPlusPayloadExample();
    assert [1 * 64 + 1] + [0x12] == [0x41, 0x12];
    StringRoundTrip(BcdPlus, "12", Ascii8Bit, "", []);
    assert [0x41, 0x12] + [] == [0x41, 0x12];
  }

  lemma SixBitWordExample()
    ensures AllSixBit("IPMI") && SixBitWord("IPMI") == 0xA6DC29
  {
  }

  lemma SixBitBytesExample()
    ensures ToLE(0xA6DC29, 3) == [0x29, 0xDC, 0xA6]
  {
  }

  lemma SixBitPayloadExample()
    ensures SixBitEncode("IPMI") == Ok([0x29, 0xDC, 0xA6])
    ensures Reloaded(Ascii6Bit, "IPMI") == "IPMI"
  {
    assert Upper("IPMI") == "IPMI";
    assert Repeat(' ', 0) == [] && "IPMI" + [] == "IPMI";
    SizeAlignUnique(4, 4, 0);
    var chunks := Grouper(4, "IPMI", ' ');
    assert chunks == ["IPMI"];
    assert chunks[1..] == [];
    SixBitWordExample();
    SixBitBytesExample();
    assert SixBitChunk("IPMI") == Ok([0x29, 0xDC, 0xA6]);
    assert SixBitChunks(chunks[1..]) == Ok([]);
    assert [0x29, 0xDC, 0xA6] + [] == [0x29, 0xDC, 0xA6];
  }

  /** 6-bit ASCII `"IPMI"` is the header 0x83 and the bytes 29 DC A6. */
  lemma SixBitExample()
    ensures StringSerialize(Ascii6Bit, "IPMI") == Ok([0x83, 0x29, 0xDC, 0xA6])
    ensures StringDeserialize(Ascii8Bit, "", [0x83, 0x29, 0xDC, 0xA6]) == (Ascii6Bit, "IPMI", Ok([]))
  {
    SixBitPayloadExample();
    var bytes: seq<byte> := [0x83, 0x29, 0xDC, 0xA6];
    var payload: seq<byte> := [0x29, 0xDC, 0xA6];
    assert EncodePayload(Ascii6Bit, "IPMI") == Ok(payload);
    assert Selector(Ascii6Bit) * 64 + |payload| == 0x83;
    assert [0x83 as byte] + payload == bytes by {
      assert bytes == [bytes[0]] + bytes[1..] && bytes[1..] == payload;
    }
    assert StringSerialize(Ascii6Bit, "IPMI") == Ok(bytes);
    StringRoundTrip(Ascii6Bit, "IPMI", Ascii8Bit, "", []);
    assert bytes + [] == bytes;
  }

  /** 8-bit text `"Hi"` is the header 0xC2 and its two ASCII bytes. */
  lemma PlainExample()
    ensures StringSerialize(Ascii8Bit, "Hi") == Ok([0xC2, 0x48, 0x69])
  {
    assert Utf8.IsAscii("Hi");
    Utf8.EncodeAscii("Hi");
    assert Utf8.Encode("Hi") == [0x48, 0x69];
    assert [3 * 64 + 2] + [0x48, 0x69] == [0xC2, 0x48, 0x69];
  }

  // ---------------------------------------------------------------- the chunk loops

  /** One chunk of `ser_bcd_plus`: `whole` is what the loop must end with. */
  lemma BcdPairsStep(rest: seq<seq<char>>, done: seq<byte>, whole: Result<seq<byte>>)
    requires |rest| > 0 && forall i :: 0 <= i < |rest| ==> |rest[i]| == 2
    requires whole == Prepend(done, BcdPairs(rest))
    ensures BcdPair(rest[0]).Err? ==> whole == Err(BcdPair(rest[0]).error)
    ensures BcdPair(rest[0]).Ok? ==> whole == Prepend(done + BcdPair(rest[0]).value, BcdPairs(rest[1..]))
  {
    PrependStep(BcdPair(rest[0]), BcdPairs(rest[1..]), done, whole);
  }

  /** One chunk of `ser_6bit`: `head` is that chunk's bytes. */
  lemma SixBitChunksStep(rest: seq<seq<char>>, head: Result<seq<byte>>, done: seq<byte>, whole: Result<seq<byte>>)
    requires |rest| > 0 && forall i :: 0 <= i < |rest| ==> |rest[i]| == 4
    requires head == SixBitChunk(rest[0]) && whole == Prepend(done, SixBitChunks(rest))
    ensures head.Err? ==> whole == Err(head.error)
    ensures head.Ok? ==> whole == Prepend(done + head.value, SixBitChunks(rest[1..]))
  {
    PrependStep(head, SixBitChunks(rest[1..]), done, whole);
  }

  /** One byte of `deser_bcd_plus`. */
  lemma BcdDecodeStep(rest: seq<byte>, done: string, whole: Result<string>)
    requires |rest| > 0 && whole == Prepend(done, BcdPlusDecode(rest))
    ensures BcdByte(rest[0]).Err? ==> whole == Err(BcdByte(rest[0]).error)
    ensures BcdByte(rest[0]).Ok? ==> whole == Prepend(done + BcdByte(rest[0]).value, BcdPlusDecode(rest[1..]))
  {
    PrependStep(BcdByte(rest[0]), BcdPlusDecode(rest[1..]), done, whole);
  }

  /** `ser_bcd_plus`, chunk by chunk. */
  method SerializeBcdPlus(text: string) returns (r: Result<seq<byte>>)
    ensures r == BcdPlusEncode(text)
  {
    var chunks := Grouper(2, text, ' ');
    var result: seq<byte> := [];
    var i := 0;
    PrependNil(BcdPairs(chunks));
    while i < |chunks|
      invariant 0 <= i <= |chunks|
      invariant BcdPairs(chunks) == Prepend(result, BcdPairs(chunks[i..]))
    {
      assert chunks[i..][0] == chunks[i] && chunks[i..][1..] == chunks[i + 1..];
      BcdPairsStep(chunks[i..], result, BcdPairs(chunks));
      var b := BcdPair(chunks[i]);
      if b.Err? {
        return Err(b.error);
      }
      result := result + b.value;
      i := i + 1;
    }
    assert result + [] == result;
    return Ok(result);
  }

  /** `ser_6bit`, chunk by chunk. */
  method SerializeSixBit(text: string) returns (r: Result<seq<byte>>)
    ensures r == SixBitEncode(text)
  {
    var chunks := Grouper(4, Upper(text), ' ');
    var result: seq<byte> := [];
    var i := 0;
    PrependNil(SixBitChunks(chunks));
    while i < |chunks|
      invariant 0 <= i <= |chunks|
      invariant SixBitChunks(chunks) == Prepend(result, SixBitChunks(chunks[i..]))
    {
      assert chunks[i..][0] == chunks[i] && chunks[i..][1..] == chunks[i + 1..];
      var tmp := SixBitChunk(chunks[i]);
      SixBitChunksStep(chunks[i..], tmp, result, SixBitChunks(chunks));
      if tmp.Err? {
        return Err(tmp.error);
      }
      result := result + tmp.value;
      i := i + 1;
    }
    assert result + [] == result;
    return Ok(result);
  }

  /** `deser_bcd_plus`, byte by byte, each byte's two nibbles in turn. */
  method DeserializeBcdPlus(payload: seq<byte>) returns (r: Result<string>)
    ensures r == BcdPlusDecode(payload)
  {
    var result: string := "";
    var i := 0;
    PrependNil(BcdPlusDecode(payload));
    while i < |payload|
      invariant 0 <= i <= |payload|
      invariant BcdPlusDecode(payload) == Prepend(result, BcdPlusDecode(payload[i..]))
    {
      assert payload[i..][0] == payload[i] && payload[i..][1..] == payload[i + 1..];
      BcdDecodeStep(payload[i..], result, BcdPlusDecode(payload));
      var tmp := UnpackBE(NibbleLayout, [payload[i]]);
      NibbleSplit(payload[i]);
      var hi := BcdChar(tmp[0]);
      if hi.None? {
        return Err(BcdLookup);
      }
      var lo := BcdChar(tmp[1]);
      if lo.None? {
        return Err(BcdLookup);
      }
      result := result + [hi.value, lo.value];
      i := i + 1;
    }
    assert result + [] == result;
    return Ok(result);
  }

  lemma SixBitTriplesStep(payload: seq<byte>, i: nat)
    requires i + 3 <= |payload|
    ensures SixBitTriples(payload[i..]) == SixBitTriple(payload[i..i + 3]) + SixBitTriples(payload[i + 3..])
  {
    assert payload[i..] == payload[i..i + 3] + payload[i + 3..];
    SixBitTriplesCons(payload[i..i + 3], payload[i + 3..]);
  }

  /** `deser_6bit`, three bytes at a time. */
  method DeserializeSixBit(payload: seq<byte>) returns (r: Result<string>)
    ensures r == SixBitDecode(payload)
  {
    if |payload| % 3 != 0 {
      return Err(SixBitLength);
    }
    var result: string := "";
    var i, n := 0, |payload| / 3;
    assert payload[0..] == payload;
    while i < |payload|
      invariant 0 <= i <= |payload| == 3 * n && i % 3 == 0
      invariant SixBitTriples(payload) == result + SixBitTriples(payload[i..])
    {
      SixBitTriplesStep(payload, i);
      var chunk := SixBitTriple(payload[i..i + 3]);
      assert result + SixBitTriples(payload[i..]) == (result + chunk) + SixBitTriples(payload[i + 3..]);
      result := result + chunk;
      i := i + 3;
    }
    assert result + [] == result;
    return Ok(result);
  }

  /** A string field: its encoding and its text. */
  class StringField {
    var format: StringFmt
    var value: string

    constructor (value: string, format: StringFmt)
      ensures this.format == format && this.value == value
    {
      this.format := format;
      this.value := value;
    }

    /** `size()`. */
    method Size() returns (n: nat)
      ensures n == StringSize(format, value)
    {
      match format {
        case Bin => n := |value|;
        case Ascii8Bit => n := |value|;
        case BcdPlus =>
          var (_, m) := SizeAlign(|value|, 2);
          n := m / 2;
        case Ascii6Bit =>
          var (_, m) := SizeAlign(|value|, 4);
          n := (m / 4) * 3;
      }
      n := n + 1;
    }

    /** `serialize()`: the header byte followed by the payload. */
    method Serialize() returns (r: Result<seq<byte>>)
      ensures r == StringSerialize(format, value)
    {
      var result: Result<seq<byte>>;
      match format {
        case Bin => result := Ok(Utf8.Encode(value));
        case Ascii8Bit => result := Ok(Utf8.Encode(value));
        case BcdPlus => result := SerializeBcdPlus(value);
        case Ascii6Bit => result := SerializeSixBit(value);
      }
      if result.Err? {
        return result;
      }
      var header := PackBE(HeaderLayout, [Selector(format), |result.value|]);
      if header.Err? {
        return Err(header.error);
      }
      return Ok(header.value + result.value);
    }

    /** `deserialize(input)`: reads the header, then the payload; returns the remainder. */
    method Deserialize(input: seq<byte>) returns (r: Result<seq<byte>>)
      modifies this
      ensures (format, value, r) == StringDeserialize(old(format), old(value), input)
    {
      if |input| == 0 {
        return Err(ShortInput);
      }
      var header := UnpackBE(HeaderLayout, input[0..1]);
      HeaderSplit(input[0]);
      format := FormatOf(header[0]);
      var remainder := input[1..];
      var k := Min(header[1], |remainder|);
      var payload := remainder[..k];
      remainder := remainder[k..];
      var text: Result<string>;
      match format {
        case Bin => text := PlainDecode(payload);
        case Ascii8Bit => text := PlainDecode(payload);
        case BcdPlus => text := DeserializeBcdPlus(payload);
        case Ascii6Bit => text := DeserializeSixBit(payload);
      }
      if text.Err? {
        return Err(text.error);
      }
      value := text.value;
      return Ok(remainder);
    }
  }
}
