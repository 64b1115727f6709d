# frugy field and area codec in Dafny

This project models the FRU codec of `frugy/types.py`. The codec writes the area
layout of the IPMI Platform Management FRU Information Storage Definition v1.0:

- the type/length byte and the four string encodings of section 13;
- the version byte, 8-byte alignment and zero-sum checksum that the info areas of
  sections 10 to 12 share.

The model has the same parts as the Python code.

- **Alignment and grouping** (`Align`).
  - `SizeAlign` is `_sizeAlign`: the padding and the padded length.
  - `Grouper` is `_grouper`: fixed-size chunks, with the last chunk padded.
- **Bit packing** (`BitPack`). The core uses only the unsigned subset of
  `bitstruct`, and this module defines it on naturals.
  - A layout is a sequence of bit widths (`'u4u4'` is `[4, 4]`).
  - `PackBE` packs the values MSB-first and emits big-endian bytes.
  - `PackLE` is the `'<'` suffix. The groups are laid out in the same order, but each
    value's own bytes are swapped, least significant byte first, cut at the stream's
    byte boundaries. The stream is then read as bytes, most significant bit first.
    - `'u4u4'` and other one-byte layouts come out as with `PackBE`.
    - `'u8u8'` keeps its values in order.
    - `'u16'` stores its value low byte first.
  - Packing fails, as `bitstruct` does, when there are fewer values than groups or
    a value does not fit its width. Values beyond the last group are ignored.
  - A layout that does not fill whole bytes is refused (see "## Left out").
- **Fixed fields** (`FixedFields`).
  - The pure semantics are `FixedSize`, `FixedSerialize` and `FixedDeserialize`.
  - The class `FixedField` has a mutable `value`. Its methods are proved equal to
    those functions.
  - A value is Python's `None` (`Unset`), an int (`Scalar`) or a tuple (`Tuple`).
- **String fields** (`StringFields`, with `Utf8` for `str.encode`/`bytes.decode`).
  - The header byte is `selector * 64 + length`.
  - The four payload encodings are BIN, BCD plus (the 13-entry nibble table),
    6-bit ASCII and 8-bit ASCII.
  - The chunk loops of `ser_bcd_plus`, `ser_6bit`, `deser_bcd_plus` and
    `deser_6bit` are methods with `while` loops, proved equal to the recursive
    spec functions.
  - The class `StringField` has mutable `format` and `value` fields.
- **Areas** (`AreaSpec`, `AreaLaws`, `FruAreas`).
  - `AreaSpec` is the semantics of `FruArea` on values:
    - an `AreaState` holds the format version and the ordered dictionary, kept as
      a sequence of named entries;
    - the accessors, with the special names `area_length` and `format_version`;
    - `update`, `to_dict`, the prologue and epilogue, the sizes, `serialize` and
      `deserialize`.
  - `AreaLaws` holds the properties of those functions:
    - the framing;
    - the checksum;
    - length and `size_total`;
    - the round trip;
    - the error cases;
    - the accessor rules.
  - `FruAreas.FruArea` is the object:
    - its dictionary is a sequence of names and a sequence of field objects (slots);
    - every method is proved to produce the state and result that `AreaSpec` gives
      from the old state.

Errors that Python raises are values of `Wrappers.Error`, returned in a `Result`
(or an `Outcome` for operations that return nothing).

A deserialize that fails part way keeps what it has overwritten so far, as the
source does. `AreaSpec.Deserialize` returns the partly updated state next to the
error, and `AreaLaws.TamperedEpilogue` states it for a corrupted epilogue.

For BIN and 8-bit ASCII, `size()` counts characters while `serialize()` writes
UTF-8 bytes, so the two agree only on ASCII text. The model keeps the source's
character count, and `StringFields.SerializeSize` proves that the two agree exactly
on ASCII text. As a consequence, `area_length` matches the serialized length only when all plain text is ASCII
(`AreaLaws.SerializeLength`).

## Model

| member | source | states |
|---|---|---|
| Align.SizeAlign | frugy/types.py:8-11 | the padding is below the alignment, the padded size is a multiple of it, and the total is size plus padding |
| Align.SizeAlignUnique | frugy/types.py:8-11 | any padding below the alignment that makes the size a multiple of it is the one `_sizeAlign` returns |
| Align.Grouper | frugy/types.py:14-16 | there are ceil(n/k) chunks, each of exactly k items, and joined they give the input followed by the padding `_sizeAlign` computes |
| BitPack.PackBE | frugy/types.py:106-110 | packing succeeds exactly when there is a value for every group, the values used fit their widths and the widths fill whole bytes; the bytes read big-endian are the MSB-first bit stream of the values used, and extra values are ignored |
| BitPack.PackLE | frugy/types.py:32-36 | the `'<'` packing fails exactly when `PackBE` does, with the same error, and yields one byte per eight bits of the layout |
| BitPack.PackRoundTrip | frugy/types.py:32-41 | unpacking what was packed gives back the values used (one per group), in both byte orders |
| BitPack.UnpackLERepacks | frugy/types.py:38-46 | repacking the values unpacked from exactly the layout's bytes gives those bytes back, so `'<'` unpacking loses nothing |
| BitPack.OneByteLayout | frugy/types.py:162 | on a layout of one byte (the version byte `'u4u4'`), `'<'` and big-endian packing give the same result |
| BitPack.PackLEWholeBytes | frugy/types.py:32-36 | when every group is a whole number of bytes, `'<'` writes each value in its own bytes, least significant byte first, and keeps the groups in order |
| BitPack.UnswapSwap | frugy/types.py:32-41 | putting back in order the bits a `'<'` byte swap wrote returns the value's bits, at any position in the stream |
| BitPack.UnpackPack | frugy/types.py:38-46 | splitting a packed bit stream by the layout gives back the values |
| BitPack.PackUnpack | frugy/types.py:38-46 | packing the groups that unpacking yields gives back the number |
| FixedFields.FixedSize | frugy/types.py:26-30 | size fails with the alignment error exactly when the widths do not sum to a multiple of 8; otherwise it is the bit total divided by 8 |
| FixedFields.FixedSerialize | frugy/types.py:32-36 | serialization succeeds exactly when a value is set, supplies at least one number per group, the numbers used fit the layout and the layout is byte-aligned; its length is size() (the content is stated by `SerializeRoundTrip` and `SerializeWholeBytes`) |
| FixedFields.FixedDeserialize | frugy/types.py:38-46 | reading succeeds exactly on an aligned, non-empty layout with enough input; it consumes size() bytes, stores a scalar for one group and a tuple for several, and a failure keeps the old value |
| FixedFields.DeserializeRepacks | frugy/types.py:31-46 | serializing a value that was read gives back exactly the bytes it was read from |
| FixedFields.Stored | frugy/types.py:42-45 | the stored value holds the unpacked numbers and is a scalar exactly for one number |
| FixedFields.SerializeRoundTrip | frugy/types.py:32-46 | deserializing serialize() followed by any rest returns that rest and restores the numbers used, in their stored shape |
| FixedFields.StoredShape | frugy/types.py:42-45 | the round trip gives back the very value written exactly when it has one number per group and is a scalar for a one-group layout or a tuple for a longer one |
| FixedFields.ExtraValuesExample | frugy/types.py:32-36 | a `'u8'` field holding the tuple (1, 2) serializes to the single byte 01 |
| FixedFields.VersionByteExample | frugy/types.py:162 | `'u4u4'` holding `(0, 1)` serializes to the single byte 01 |
| FixedFields.SerializeWholeBytes | frugy/types.py:32-36 | on a layout of whole-byte groups, a value serializes as each number used in its own bytes, least significant byte first |
| FixedFields.TwoByteGroupsExample | frugy/types.py:32-36 | `'u8u8'` holding `(0xAA, 0xBB)` serializes to AA BB: the groups keep their order |
| FixedFields.SixteenBitExample | frugy/types.py:32-36 | `'u16'` holding 0x1234 serializes to 34 12: the one value is stored low byte first |
| FixedFields.FixedField.constructor | frugy/types.py:22-24 | a new field holds the given layout and value |
| FixedFields.FixedField.Size | frugy/types.py:26-30 | returns the field's `FixedSize` |
| FixedFields.FixedField.Serialize | frugy/types.py:32-36 | returns `FixedSerialize` of the field's current value |
| FixedFields.FixedField.Deserialize | frugy/types.py:38-46 | the new value and the returned remainder are `FixedDeserialize` of the old value and the input |
| StringFields.FormatOf | frugy/types.py:49-53 | the format read from a header selector is the one whose selector it is |
| StringFields.FormatOfSelector | frugy/types.py:49-53 | each format's selector maps back to that format |
| StringFields.HeaderPack | frugy/types.py:109-110 | the header `'u2u6'` of selector a and length b is the byte a*64+b, and unpacking it gives (a, b) back |
| StringFields.HeaderSplit | frugy/types.py:141 | unpacking a header byte gives its top two bits and its low six bits |
| StringFields.NibblePack | frugy/types.py:106 | two BCD codes pack into the byte hi*16+lo, and unpacking it gives them back |
| StringFields.NibbleSplit | frugy/types.py:136 | unpacking a byte `'u4u4'` gives its high and low nibbles |
| StringFields.BcdTablesInverse | frugy/types.py:63-67 | the reverse BCD table is the inverse of the forward one, and every code is at most 12 |
| StringFields.BcdPair | frugy/types.py:104-106 | a pair of characters encodes exactly when both are in the table, as one byte with the first in the high nibble |
| StringFields.BcdPairsSpec | frugy/types.py:102-107 | encoding a list of pairs succeeds exactly when every character is in the table, writes one byte per pair, and decodes to the joined pairs |
| StringFields.BcdPlusRoundTrip | frugy/types.py:102-107 | `ser_bcd_plus` fails exactly on a character outside the table; otherwise it writes ceil(n/2) bytes that `deser_bcd_plus` reads back as the text padded with a space to even length |
| StringFields.Upper | frugy/types.py:95 | uppercasing keeps the length and maps each character by ASCII case folding |
| StringFields.SixBitChunk | frugy/types.py:96-99 | a chunk of four characters encodes exactly when all of them are 6-bit ASCII, as the little-endian 24-bit word whose lowest six bits hold the first character |
| StringFields.SixBitChunkDecode | frugy/types.py:125-131 | decoding the three bytes of an encoded chunk gives back its four characters |
| StringFields.SixBitChunksSpec | frugy/types.py:93-100 | encoding the chunks succeeds exactly when every character is 6-bit ASCII, writes three bytes per chunk, and decodes to the joined chunks |
| StringFields.SixBitDecode | frugy/types.py:125-131 | decoding succeeds exactly on a payload whose length is a multiple of three |
| StringFields.SixBitRoundTrip | frugy/types.py:93-131 | `ser_6bit` fails exactly when the uppercased text has a character outside 0x20..0x5F; otherwise it writes ceil(n/4)*3 bytes that decode to the uppercased text space-padded to a multiple of four |
| StringFields.PlainDecode | frugy/types.py:122-123 | decoding BIN or 8-bit text fails exactly on bytes that are not UTF-8 |
| Utf8.DecodeEncode | frugy/types.py:90-91 | decoding the UTF-8 encoding of any text gives the text back |
| Utf8.EncodeLength | frugy/types.py:70-71 | the UTF-8 encoding is never shorter than the text, and has the text's length exactly when the text is ASCII |
| StringFields.StringSerialize | frugy/types.py:89-119 | serialization fails when the payload encoding fails or the payload exceeds 63 bytes; otherwise it is the header selector*64+length followed by the payload |
| StringFields.SerializeFailure | frugy/types.py:102-119 | serialization fails exactly when BCD plus meets a character outside the table, 6-bit ASCII meets one outside its range, or the payload exceeds 63 bytes |
| StringFields.SerializeSize | frugy/types.py:69-119 | the serialized length equals size() for BCD plus and 6-bit ASCII, and for BIN and 8-bit ASCII exactly when the text is ASCII |
| StringFields.StringDeserialize | frugy/types.py:121-154 | an empty input fails and changes nothing; otherwise the format comes from the header's top two bits and the remainder starts 1 + (header & 0x3F) bytes in, cut short by a short input; on success, encoding the text read in the format read gives back exactly the payload bytes consumed |
| StringFields.EncodeDecodePayload | frugy/types.py:112-152 | a payload that decodes in a format encodes back from its text to the same bytes, in every format |
| StringFields.BcdPlusDecodeEncode | frugy/types.py:102-139 | a BCD plus payload that decodes encodes back to the same bytes |
| StringFields.SixBitDecodeEncode | frugy/types.py:93-131 | a 6-bit payload that decodes encodes back, after uppercasing, to the same bytes |
| Utf8.EncodeDecode | frugy/types.py:122-123 | bytes that decode as strict UTF-8 are the encoding of the text they decode to |
| StringFields.StringReadWrite | frugy/types.py:89-154 | reading a complete string field and serializing what was read gives back exactly the bytes consumed |
| StringFields.DecodeEncodePayload | frugy/types.py:112-152 | decoding an encoded payload in the same format gives the reloaded text |
| StringFields.StringRoundTrip | frugy/types.py:89-154 | deserializing serialize() followed by any rest, from any previous state, returns that rest, restores the format and gives the reloaded text |
| StringFields.ReloadedFixedPoint | frugy/types.py:93-139 | the reloaded text is the text itself for BIN and 8-bit ASCII; for BCD plus exactly at even length; for 6-bit ASCII exactly for upper-case text whose length is a multiple of four |
| StringFields.BcdPlusExample | frugy/types.py:102-110 | BCD plus "12" serializes to 41 12 and reads back as "12" |
| StringFields.SixBitExample | frugy/types.py:93-131 | 6-bit ASCII "IPMI" serializes to 83 29 DC A6 and reads back as "IPMI" |
| StringFields.PlainExample | frugy/types.py:89-119 | 8-bit ASCII "Hi" serializes to C2 48 69 |
| StringFields.SerializeBcdPlus | frugy/types.py:102-107 | the chunk loop of `ser_bcd_plus` returns the BCD plus encoding of the text |
| StringFields.SerializeSixBit | frugy/types.py:93-100 | the chunk loop of `ser_6bit` returns the 6-bit encoding of the text |
| StringFields.DeserializeBcdPlus | frugy/types.py:133-139 | the byte loop of `deser_bcd_plus` returns the BCD plus decoding of the payload |
| StringFields.DeserializeSixBit | frugy/types.py:125-131 | the chunk loop of `deser_6bit` returns the 6-bit decoding of the payload |
| StringFields.StringField.constructor | frugy/types.py:59-61 | a new field holds the given text and format |
| StringFields.StringField.Size | frugy/types.py:69-87 | returns the size for the field's format and text |
| StringFields.StringField.Serialize | frugy/types.py:89-119 | returns `StringSerialize` of the field's format and text |
| StringFields.StringField.Deserialize | frugy/types.py:121-154 | the new format, text and remainder are `StringDeserialize` of the old ones and the input |
| AreaSpec.Initial | frugy/types.py:161-163 | a new area holds the schema as an ordered dictionary and reads format version 1 |
| AreaSpec.Insert | frugy/types.py:163 | after storing, the name is found holding the new entry; every other name keeps its index and its entry, and a new name goes last |
| AreaSpec.DictOf | frugy/types.py:163 | the dictionary of a schema has no repeated name and holds exactly the schema's names |
| AreaLaws.DictOfUnique | frugy/types.py:163 | a schema without repeated names is its own dictionary |
| AreaLaws.DictOfLastWins | frugy/types.py:163 | a repeated name holds the field it was last paired with |
| AreaSpec.IndexOf | frugy/types.py:202-203 | the lookup finds an entry under the key exactly when the key is a name of the dictionary |
| AreaSpec.GetGeneric | frugy/types.py:202-207 | the generic read fails with an unknown-field error exactly when the key is not in the dictionary |
| AreaSpec.SetGeneric | frugy/types.py:209-211 | the generic write fails on an unknown key; on success it keeps the version, the names and every other entry |
| AreaSpec.SetFieldGet | frugy/types.py:202-211 | a field accepts a value of its kind; what is stored reads back as stored, except that a tuple reads back as a list, and a list or tuple is stored as a tuple |
| AreaLaws.SetThenGet | frugy/types.py:202-211 | writing a value to a schema field changes that entry and reads back as the field's value; a refused value is refused by the write |
| AreaLaws.AreaLengthRefused | frugy/types.py:213-216 | setting `area_length` to a value not divisible by 8 fails with the alignment error and stores nothing |
| AreaLaws.AreaLengthStored | frugy/types.py:213-219 | setting `area_length` to a multiple of 8 stores it divided by 8 and reads it back as given |
| AreaLaws.AreaLengthReadsBytes | frugy/types.py:218-219 | `area_length` reads as 8 times what is stored |
| AreaLaws.FormatVersionAccessor | frugy/types.py:221-225 | setting the format version v stores (0, v) and reads back v |
| AreaLaws.ListsStoredAsTuples | frugy/types.py:202-211 | a list or a tuple written to a fixed field is stored as a tuple and reads back as a list |
| AreaLaws.UnknownKey | frugy/types.py:169-195 | a key that is neither special nor in the schema fails on read, on write and as the first pair of an update, which then changes nothing |
| AreaLaws.UpdateSequential | frugy/types.py:193-195 | updating with two lists of pairs is updating with the first and then, if it succeeded, with the second |
| AreaLaws.EntriesSpec | frugy/types.py:197-198 | reading a list of keys fails exactly when one read fails; otherwise it pairs each key, in order, with its value |
| AreaLaws.ToDictOrder | frugy/types.py:197-198 | `to_dict` lists every schema name in schema order with the value `area[name]` gives, and fails exactly when one of those reads fails |
| AreaSpec.Epilogue | frugy/types.py:233-239 | the epilogue is 1 to 8 bytes of zeros and a checksum; it brings the length to a multiple of 8 and the byte sum to 0 mod 256 |
| AreaLaws.EpilogueOfVersionByte | frugy/types.py:233-239 | the epilogue of the lone version byte 01 is six zeros and FF |
| AreaSpec.VersionByteSize | frugy/types.py:229-231 | the version layout is one byte wide |
| AreaSpec.SizeTotal | frugy/types.py:245-248 | the total size exists exactly when the payload size does; it is the smallest multiple of 8 that holds the payload and the checksum byte |
| AreaSpec.StampLength | frugy/types.py:252-253 | stamping `area_length` keeps the version, the names and every other entry |
| AreaSpec.Serialize | frugy/types.py:250-255 | the serialized area has a length that is a multiple of 8, a byte sum of 0 mod 256, and starts with the prologue; only `area_length` may change |
| AreaLaws.SerializeSteps | frugy/types.py:250-255 | serialize is the prologue, then the fields of the stamped state in schema order, then the epilogue of both |
| AreaLaws.SerializeLayout | frugy/types.py:250-255 | the bytes are payload then epilogue: the prologue first, zeros between payload and checksum, the length a multiple of 8 and the byte sum 0 mod 256 |
| AreaLaws.FieldSizeMatches | frugy/types.py:241-243 | a field's serialized length is its size(), for plain text when it is ASCII |
| AreaLaws.EncodeFieldsLength | frugy/types.py:241-254 | the joined fields are as long as the sum of their sizes when all plain text is ASCII |
| AreaLaws.SerializeLength | frugy/types.py:241-255 | the serialized area is size_total() bytes long when all plain text is ASCII |
| AreaLaws.StampedAreaLength | frugy/types.py:252-253 | after the stamp, `area_length` reads as size_total() |
| AreaLaws.SerializeStampsAreaLength | frugy/types.py:250-253 | after serialize, `area_length` reads as size_total() |
| AreaLaws.EmptyAreaExample | frugy/types.py:250-255 | an empty schema with version 1 serializes to 01 00 00 00 00 00 00 FF |
| AreaSpec.FieldDeserialize | frugy/types.py:259-260 | reading a field keeps its kind and layout, and what remains is a suffix of the input |
| AreaSpec.DecodeFields | frugy/types.py:259-260 | the loop over the fields keeps the names, and what remains is a suffix of the input |
| AreaLaws.FieldRoundTrip | frugy/types.py:259-260 | a field of the same kind reads back a serialized field, in its stored form, and returns the rest |
| AreaLaws.EncodeDecodeFields | frugy/types.py:254-260 | reading the joined serialized fields into an area of the same shape restores them all and returns the rest |
| AreaLaws.DeserializeSteps | frugy/types.py:257-266 | deserialize reads the version and the fields, then compares the remainder with the epilogue of what it read |
| AreaSpec.Deserialize | frugy/types.py:257-266 | deserializing keeps the dictionary's names |
| AreaLaws.AreaRoundTrip | frugy/types.py:250-266 | deserializing serialize() followed by any rest, into an area of the same shape, returns that rest and restores every field and the format version in stored form |
| AreaLaws.AreaRoundTripExact | frugy/types.py:250-266 | when every value already has its stored shape, the round trip restores the state exactly and the format version reads back the same |
| AreaLaws.CanonicalIsNormal | frugy/types.py:42-45 | values already in stored shape are unchanged by reading back |
| AreaLaws.DeserializeChecksFraming | frugy/types.py:257-266 | a successful deserialize consumed a whole number of 8-byte blocks whose byte sum is 0 mod 256, and returns less than it read |
| AreaLaws.FramedPrefix | frugy/types.py:261-266 | once the epilogue matches, the consumed prefix is 8-byte aligned and sums to 0 mod 256 |
| AreaLaws.MissingEpilogue | frugy/types.py:261-265 | a serialized area without its epilogue fails to deserialize |
| AreaLaws.TamperedEpilogue | frugy/types.py:257-266 | changing any pad or checksum byte makes deserialize fail, after it has overwritten every field |
| AreaLaws.ReadVersionOne | frugy/types.py:258 | the version byte 01 reads as (0, 1) from any previous value |
| AreaLaws.BadChecksumExample | frugy/types.py:257-265 | an empty area with a wrong checksum byte fails with the expected and received epilogues |
| AreaLaws.SerializeOf | frugy/types.py:250-255 | serialize joins prologue and fields of the stamped state and appends their epilogue |
| FruAreas.NewSlot | frugy/types.py:163 | a new field object holds the given field state |
| FruAreas.Instantiate | frugy/types.py:163 | one new, distinct field object per dictionary entry, each holding that entry's state |
| FruAreas.NewAreaFields | frugy/types.py:161-163 | a new format version field holding (0, 1), the dictionary of the schema, and new field objects holding its entries |
| FruAreas.FruArea.constructor | frugy/types.py:161-163 | a new area is the initial state of its schema; its format version field and every field object are newly allocated |
| FruAreas.FruArea.Contains | frugy/types.py:187-188 | `key in area` is true for the special names and the schema's names |
| FruAreas.FruArea.GetGeneric | frugy/types.py:202-207 | returns the generic read of the area's state |
| FruAreas.FruArea.Get | frugy/types.py:169-176 | returns `area[key]` of the area's state |
| FruAreas.FruArea.SetGeneric | frugy/types.py:209-211 | performs the generic write on the fields, or leaves them unchanged on failure |
| FruAreas.FruArea.Set | frugy/types.py:178-185 | performs `area[key] = v` on the fields, or leaves them unchanged on failure |
| FruAreas.FruArea.Update | frugy/types.py:193-195 | applies the pairs in order and stops at the first failure with the earlier ones applied |
| FruAreas.FruArea.ToDict | frugy/types.py:197-198 | returns `to_dict` of the area's state |
| FruAreas.FruArea.SizeSlot | frugy/types.py:243 | returns size() of one field object |
| FruAreas.FruArea.SizePayload | frugy/types.py:241-243 | the loop over the fields returns the payload size of the area's state |
| FruAreas.FruArea.SizeTotal | frugy/types.py:245-248 | returns the total size of the area's state |
| FruAreas.FruArea.Prologue | frugy/types.py:229-231 | returns the format version byte |
| FruAreas.FruArea.SerializeSlot | frugy/types.py:254 | returns serialize() of one field object |
| FruAreas.FruArea.SerializeFields | frugy/types.py:254 | the loop over the fields returns their joined serialization |
| FruAreas.FruArea.Serialize | frugy/types.py:250-255 | the bytes and the new state (with `area_length` stamped) are those of `Serialize` from the old state |
| FruAreas.FruArea.DeserializeSlot | frugy/types.py:260 | reads one field object, changing that entry only |
| FruAreas.FruArea.DeserializeFields | frugy/types.py:259-260 | the loop threads the remainder through the fields as the field-decoding function does |
| FruAreas.FruArea.Deserialize | frugy/types.py:257-266 | the new state and result are those of `Deserialize` from the old state, including the partly updated state after a failure |

## Left out

- `frugy/cli.py` is not part of this model. It is command-line and file I/O around the codec.
- The `bitstruct` library is not modelled as a library. Format strings are not parsed: a layout is a sequence of unsigned widths, and `'uN'` is the only kind the core uses.
- The `'<'` byte swap (`PackLE`, `UnpackLE`) follows what `bitstruct` does for each value: its bytes are swapped in place, cut at the stream's byte boundaries. `bitstruct`'s own source is not part of this model, so `UnpackLE` is stated as the inverse of that swap.
- FixedFields.FixedSerialize: on a layout whose widths do not fill whole bytes, `bitstruct` pads the last byte. The model refuses with the alignment error, which is what `size()` raises for the same layout.
- FixedFields.FixedDeserialize: the empty layout. `bitstruct.unpack` returns no values, and the source then fails on `result[0]`. The model gives the value-count error.
- Python's dynamic typing is not modelled.
  - A value of the wrong kind for its field (a string into a fixed field, a number into a string field, anything but an int for `area_length` or `format_version`) is refused when it is set. Python stores it and fails later, or never.
  - `_get_area_length` multiplies whatever is stored by 8 as Python's `*` does: `None` fails, and a list or string is repeated eight times.
- AreaSpec.Get: `format_version` on a stored tuple of fewer than two items gives the value-count error where Python raises IndexError.
- StringFields.Upper: case folding covers ASCII letters only. Python's `str.upper` also maps ten non-ASCII characters into ASCII: 'ı' (U+0131) to 'I', 'ſ' (U+017F) to 'S', 'ß' to 'SS', and the ligatures U+FB00 to U+FB06 to two or three letters. The source writes these in 6-bit ASCII; the model refuses them with the range error. For 'ß' and the ligatures the source's `size()` counts the characters before uppercasing, so it does not match the length `serialize()` writes, and the equality that `StringFields.SerializeSize` proves does not hold in the source for them.
- Texts holding lone surrogates cannot be written in Dafny's `char`, so the UTF-8 encoder does not meet them.
- StringFields.SixBitDecode: on a payload whose length is not a multiple of three, the source crashes on the `' '` fill value. The model returns an explicit error.
- The `hasattr`/`getattr` lookup of special accessors is a fixed set of names: `area_length` and `format_version`.
- FruAreas.FruArea.constructor: the source's `OrderedDict(self._schema)` copies the dictionary but not the field objects, so every instance of an area class shares the class-level field objects, and serializing one area re-stamps `area_length` in the others. The model builds new field objects for each area from the schema's field states, so it does not capture that sharing.
- FruAreas.FruArea.constructor: the `initdict` argument is not a constructor parameter. It is the constructor followed by `Update`, which is what the source does with it.
- `__repr__` is left out: it only formats `to_dict()`.
- Exceptions are `Result` and `Outcome` values. The messages are reduced to the error kind, plus the two epilogues for the checksum error.
