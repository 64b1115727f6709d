/**
 * What `FruArea` promises: the framing of `serialize`, the round trip through
 * `deserialize`, the checks `deserialize` makes, and the accessor rules.
 */
module AreaLaws {
  import opened Bytes
  import opened Wrappers
  import opened Align
  import opened BitPack
  import opened FixedFields
  import opened StringFields
  import opened AreaSpec
  import Utf8

  // ---------------------------------------------------------------- shapes

  /** Two field states that read the same encoding: same kind, and for numbers the same layout. */
  predicate SameKind(a: FieldState, b: FieldState)
  {
    (a.FixedState? && b.FixedState? && a.layout == b.layout) || (a.StringState? && b.StringState?)
  }

  /** Two schemas with the same names, in the same order, over the same kinds of field. */
  predicate SameShape(a: seq<Entry>, b: seq<Entry>)
  {
    |a| == |b| && forall i :: 0 <= i < |a| ==> a[i].name == b[i].name && SameKind(a[i].field, b[i].field)
  }

  /** Every numeric field has at least one group, so that reading it yields a value. */
  predicate Readable(es: seq<Entry>)
  {
    forall i :: 0 <= i < |es| && es[i].field.FixedState? ==> |es[i].field.layout| > 0
  }

  /** Every text in a BIN or 8-bit ASCII field is ASCII, so it takes one byte per character. */
  predicate AsciiText(es: seq<Entry>)
  {
    forall i :: 0 <= i < |es| && es[i].field.StringState? && (es[i].field.format == Bin || es[i].field.format == Ascii8Bit) ==>
      Utf8.IsAscii(es[i].field.text)
  }

  /**
   * A numeric value as reading it back stores it: the numbers the layout packs, as a
   * scalar for one group and a tuple for several.
   */
  function NormalValue(layout: Layout, v: FixedValue): FixedValue
  {
    if |layout| > 0 && |PackArgs(v)| >= |layout| then Stored(Used(layout, PackArgs(v))) else v
  }

  /** A field's state as `deserialize` leaves it after reading what `serialize` wrote. */
  function NormalField(fs: FieldState): FieldState
  {
    match fs
    case FixedState(layout, v) => FixedState(layout, NormalValue(layout, v))
    case StringState(f, text) => StringState(f, Reloaded(f, text))
  }

  function NormalEntries(es: seq<Entry>): (r: seq<Entry>)
    ensures |r| == |es| && forall i :: 0 <= i < |es| ==> r[i] == Entry(es[i].name, NormalField(es[i].field))
  {
    seq(|es|, i requires 0 <= i < |es| => Entry(es[i].name, NormalField(es[i].field)))
  }

  function Normalized(st: AreaState): AreaState
  {
    AreaState(NormalValue(VersionLayout, st.version), NormalEntries(st.entries))
  }

  /** Values already in the form reading them back produces. */
  predicate CanonicalValue(layout: Layout, v: FixedValue)
  {
    (v.Scalar? || (v.Tuple? && |v.items| > 1)) && |PackArgs(v)| == |layout|
  }

  predicate CanonicalField(fs: FieldState)
  {
    match fs
    case FixedState(layout, v) => CanonicalValue(layout, v)
    case StringState(f, text) =>
      (f == BcdPlus ==> |text| % 2 == 0) && (f == Ascii6Bit ==> |text| % 4 == 0 && Upper(text) == text)
  }

  predicate Canonical(st: AreaState)
  {
    CanonicalValue(VersionLayout, st.version) && forall i :: 0 <= i < |st.entries| ==> CanonicalField(st.entries[i].field)
  }

  /** Normalizing changes nothing in a canonical state. */
  lemma CanonicalIsNormal(st: AreaState)
    requires Canonical(st)
    ensures Normalized(st) == st
  {
    forall i | 0 <= i < |st.entries|
      ensures NormalField(st.entries[i].field) == st.entries[i].field
    {
      var fs := st.entries[i].field;
      if fs.StringState? {
        ReloadedFixedPoint(fs.format, fs.text);
      }
    }
    assert NormalEntries(st.entries) == st.entries;
  }

  // ---------------------------------------------------------------- the ordered dictionary

  /** A schema that names each field once is taken over as it is. */
  lemma {:induction false} DictOfUnique(schema: seq<Entry>)
    requires Unique(Names(schema))
    ensures DictOf(schema) == schema
    decreases |schema|
  {
    if |schema| > 0 {
      var n := |schema| - 1;
      UniqueFront(schema);
      DictOfUnique(schema[..n]);
      DictOfNewLast(schema);
    }
  }

  lemma UniqueFront(schema: seq<Entry>)
    requires Unique(Names(schema)) && |schema| > 0
    ensures Unique(Names(schema[..|schema| - 1]))
    ensures schema[|schema| - 1].name !in Names(schema[..|schema| - 1])
  {
    assert Names(schema[..|schema| - 1]) == Names(schema)[..|schema| - 1];
  }

  /** A last entry under a new name is appended to the dictionary of the others. */
  lemma DictOfNewLast(schema: seq<Entry>)
    requires |schema| > 0 && DictOf(schema[..|schema| - 1]) == schema[..|schema| - 1]
    requires schema[|schema| - 1].name !in Names(schema[..|schema| - 1])
    ensures DictOf(schema) == schema
  {
    var front, e := schema[..|schema| - 1], schema[|schema| - 1];
    InsertNew(front, e);
    FrontLast(schema);
  }

  /** A name not yet in the dictionary is appended. */
  lemma InsertNew(es: seq<Entry>, e: Entry)
    requires e.name !in Names(es)
    ensures Insert(es, e) == es + [e]
  {
  }

  /** The field a name was last paired with in the schema is the one the dictionary holds. */
  lemma {:induction false} DictOfLastWins(schema: seq<Entry>, j: nat)
    requires j < |schema|
    requires forall l :: j < l < |schema| ==> schema[l].name != schema[j].name
    ensures schema[j].name in Names(DictOf(schema))
    ensures DictOf(schema)[IndexOf(DictOf(schema), schema[j].name).value].field == schema[j].field
    decreases |schema|
  {
    var front := schema[..|schema| - 1];
    if j < |schema| - 1 {
      assert front[j] == schema[j];
      DictOfLastWins(front, j);
    }
  }

  // ---------------------------------------------------------------- the area_length stamp

  lemma IndexOfNames(a: seq<Entry>, b: seq<Entry>, key: string)
    requires Names(a) == Names(b)
    ensures IndexOf(a, key) == IndexOf(b, key)
  {
  }

  /** Storing a number changes one numeric field's value and nothing else. */
  lemma SetIntFrame(st: AreaState, key: string, n: int)
    requires SetGeneric(st, key, Int(n)).Ok?
    ensures var es := SetGeneric(st, key, Int(n)).value.entries;
      SameShape(es, st.entries) &&
      (forall j :: 0 <= j < |es| ==> FieldSize(es[j].field) == FieldSize(st.entries[j].field)) &&
      (forall j :: 0 <= j < |es| && es[j] != st.entries[j] ==> es[j].field.FixedState? && es[j].field.value == Scalar(n))
  {
    var i := IndexOf(st.entries, key).value;
    var f := SetField(st.entries[i].field, Int(n)).value;
    assert SetGeneric(st, key, Int(n)).value.entries == st.entries[i := Entry(key, f)];
  }

  lemma StampFrame(st: AreaState)
    requires StampLength(st).Ok?
    ensures var es := StampLength(st).value.entries;
      StampLength(st).value.version == st.version &&
      SameShape(es, st.entries) &&
      FieldsSize(es) == FieldsSize(st.entries) &&
      (forall j :: 0 <= j < |es| && es[j].field.StringState? ==> es[j] == st.entries[j])
  {
    if "area_length" in Names(st.entries) {
      var n := SizeTotal(st).value;
      SetIntFrame(st, "area_length", n / 8);
      FieldsSizeFrame(StampLength(st).value.entries, st.entries);
    }
  }

  lemma {:induction false} FieldsSizeFrame(a: seq<Entry>, b: seq<Entry>)
    requires |a| == |b| && forall j :: 0 <= j < |a| ==> FieldSize(a[j].field) == FieldSize(b[j].field)
    ensures FieldsSize(a) == FieldsSize(b)
    decreases |a|
  {
    if |a| > 0 {
      FieldsSizeFrame(a[1..], b[1..]);
    }
  }

  // ---------------------------------------------------------------- unfolding the two directions

  /** The three steps of a successful `serialize()`, named. */
  lemma SerializeSteps(st: AreaState)
    requires Serialize(st).1.Ok?
    ensures Prologue(st).Ok? && StampLength(st).Ok? && StampLength(st).value == Serialize(st).0
    ensures EncodeFields(Serialize(st).0.entries).Ok?
    ensures var payload := Prologue(st).value + EncodeFields(Serialize(st).0.entries).value;
      Serialize(st).1.value == payload + Epilogue(payload)
  {
  }

  /** `deserialize(input)` once the version and the fields are read and something remains. */
  lemma DeserializeSteps(st: AreaState, input: seq<byte>, v1: FixedValue, rest1: seq<byte>, es: seq<Entry>, remainder: seq<byte>)
    requires FixedDeserialize(VersionLayout, st.version, input) == (v1, Ok(rest1))
    requires DecodeFields(st.entries, rest1) == (es, Ok(remainder)) && |remainder| > 0
    ensures var payload := input[..|input| - |remainder|];
      var ep := Epilogue(payload);
      var vfy := remainder[..Min(|ep|, |remainder|)];
      Deserialize(st, input) == (AreaState(v1, es), if ep != vfy then Err(Checksum(ep, vfy)) else Ok(remainder[|ep|..]))
  {
    var (v, r1) := FixedDeserialize(VersionLayout, st.version, input);
    assert v == v1 && r1 == Ok(rest1);
    var (es2, r2) := DecodeFields(st.entries, rest1);
    assert es2 == es && r2 == Ok(remainder);
  }

  /**
   * Reading what `serialize` wrote, followed by `tail`, into an area of the same schema:
   * the version and fields come back normalized and `tail` is what remains for the
   * epilogue check.
   */
  lemma ReadPayload(st: AreaState, st0: AreaState, tail: seq<byte>)
    requires Serialize(st).1.Ok? && SameShape(st0.entries, st.entries) && Readable(st.entries)
    ensures var payload := SerializedPayload(st);
      FixedDeserialize(VersionLayout, st0.version, payload + tail) == (NormalValue(VersionLayout, st.version), Ok(EncodeFields(Serialize(st).0.entries).value + tail)) &&
      DecodeFields(st0.entries, EncodeFields(Serialize(st).0.entries).value + tail) == (NormalEntries(Serialize(st).0.entries), Ok(tail))
  {
    SerializeSteps(st);
    var st1 := Serialize(st).0;
    StampFrame(st);
    assert SameShape(st0.entries, st1.entries) && Readable(st1.entries);
    var prologue := Prologue(st).value;
    var body := EncodeFields(st1.entries).value;
    ConcatAssoc(prologue, body, tail);
    VersionByteSize();
    FixedFields.SerializeRoundTrip(VersionLayout, st.version, st0.version, body + tail);
    EncodeDecodeFields(st1.entries, st0.entries, tail);
  }

  // ---------------------------------------------------------------- serialize

  /** The bytes before the epilogue: the version byte and the fields (after the stamp). */
  function SerializedPayload(st: AreaState): seq<byte>
    requires Serialize(st).1.Ok?
  {
    Prologue(st).value + EncodeFields(Serialize(st).0.entries).value
  }

  /**
   * `serialize()` is the version byte, the fields in schema order, zero padding and the
   * checksum byte, and the whole is a multiple of 8 bytes whose sum is 0 modulo 256.
   */
  lemma SerializeLayout(st: AreaState)
    requires Serialize(st).1.Ok?
    ensures var bytes, payload := Serialize(st).1.value, SerializedPayload(st);
      bytes == payload + Epilogue(payload) &&
      bytes[..1] == Prologue(st).value &&
      (forall i :: |payload| <= i < |bytes| - 1 ==> bytes[i] == 0) &&
      |bytes| % 8 == 0 && Sum(bytes) % 256 == 0
  {
    var payload := SerializedPayload(st);
    var ep := Epilogue(payload);
    assert forall i :: |payload| <= i < |payload| + |ep| - 1 ==> (payload + ep)[i] == ep[i - |payload|];
  }

  lemma FieldSizeMatches(fs: FieldState)
    requires FieldSerialize(fs).Ok?
    requires fs.StringState? && (fs.format == Bin || fs.format == Ascii8Bit) ==> Utf8.IsAscii(fs.text)
    ensures FieldSize(fs).Ok? && |FieldSerialize(fs).value| == FieldSize(fs).value
  {
    if fs.StringState? {
      SerializeSize(fs.format, fs.text);
    }
  }

  lemma {:induction false} EncodeFieldsLength(es: seq<Entry>)
    requires EncodeFields(es).Ok? && AsciiText(es)
    ensures FieldsSize(es).Ok? && |EncodeFields(es).value| == FieldsSize(es).value
    decreases |es|
  {
    if |es| > 0 {
      FieldSizeMatches(es[0].field);
      assert AsciiText(es[1..]) by {
        assert forall i :: 0 <= i < |es| - 1 ==> es[1..][i] == es[i + 1];
      }
      EncodeFieldsLength(es[1..]);
    }
  }

  /**
   * `len(serialize()) == size_total()` whenever every field writes as many bytes as its
   * `size()` says, which holds unless a BIN or 8-bit text field holds non-ASCII text.
   */
  lemma SerializeLength(st: AreaState)
    requires Serialize(st).1.Ok? && AsciiText(st.entries)
    ensures SizeTotal(st).Ok? && |Serialize(st).1.value| == SizeTotal(st).value
  {
    VersionByteSize();
    var st1 := StampLength(st).value;
    StampFrame(st);
    assert AsciiText(st1.entries);
    EncodeFieldsLength(st1.entries);
    var payload := SerializedPayload(st);
    assert |payload| == SizePayload(st).value;
  }

  /** After the stamp, `area['area_length']` reads back as `size_total()`. */
  lemma StampedAreaLength(st: AreaState)
    requires "area_length" in Names(st.entries) && StampLength(st).Ok?
    ensures SizeTotal(st).Ok? && Get(StampLength(st).value, "area_length") == Ok(Int(SizeTotal(st).value))
  {
    var n := SizeTotal(st).value;
    var st1 := StampLength(st).value;
    assert n % 8 == 0;
    assert st1 == SetGeneric(st, "area_length", Int(n / 8)).value;
    var i := IndexOf(st.entries, "area_length").value;
    assert IndexOf(st1.entries, "area_length") == Some(i) by {
      IndexOfNames(st1.entries, st.entries, "area_length");
    }
    assert st1.entries[i].field == FixedState(st.entries[i].field.layout, Scalar(n / 8)) by {
      SetIntFrame(st, "area_length", n / 8);
    }
  }

  /** After `serialize()`, `area['area_length']` reads back as `size_total()`. */
  lemma SerializeStampsAreaLength(st: AreaState)
    requires "area_length" in Names(st.entries) && Serialize(st).1.Ok?
    ensures SizeTotal(st).Ok? && Get(Serialize(st).0, "area_length") == Ok(Int(SizeTotal(st).value))
  {
    SerializeSteps(st);
    StampedAreaLength(st);
  }


  // ---------------------------------------------------------------- deserialize

  lemma FieldRoundTrip(fs: FieldState, fs0: FieldState, rest: seq<byte>)
    requires FieldSerialize(fs).Ok? && SameKind(fs0, fs) && (fs.FixedState? ==> |fs.layout| > 0)
    ensures FieldDeserialize(fs0, FieldSerialize(fs).value + rest) == (NormalField(fs), Ok(rest))
  {
    match fs
    case FixedState(layout, v) =>
      FixedFields.SerializeRoundTrip(layout, v, fs0.value, rest);
    case StringState(f, text) =>
      StringRoundTrip(f, text, fs0.format, fs0.text, rest);
  }

  lemma {:induction false} EncodeDecodeFields(es: seq<Entry>, es0: seq<Entry>, tail: seq<byte>)
    requires EncodeFields(es).Ok? && SameShape(es0, es) && Readable(es)
    ensures DecodeFields(es0, EncodeFields(es).value + tail) == (NormalEntries(es), Ok(tail))
    decreases |es|
  {
    if |es| == 0 {
      assert EncodeFields(es).value + tail == tail;
      assert NormalEntries(es) == es0;
    } else {
      EncodeFieldsCons(es, tail);
      var b := FieldSerialize(es[0].field).value;
      var more := EncodeFields(es[1..]).value;
      ShapeTail(es0, es);
      FieldRoundTrip(es[0].field, es0[0].field, more + tail);
      EncodeDecodeFields(es[1..], es0[1..], tail);
      DecodeFieldsCons(es0, b + (more + tail), NormalField(es[0].field), more + tail);
      assert [Entry(es0[0].name, NormalField(es[0].field))] + NormalEntries(es[1..]) == NormalEntries(es);
    }
  }

  lemma EncodeFieldsCons(es: seq<Entry>, tail: seq<byte>)
    requires |es| > 0 && EncodeFields(es).Ok?
    ensures FieldSerialize(es[0].field).Ok? && EncodeFields(es[1..]).Ok?
    ensures EncodeFields(es).value + tail == FieldSerialize(es[0].field).value + (EncodeFields(es[1..]).value + tail)
  {
    var b, more := FieldSerialize(es[0].field).value, EncodeFields(es[1..]).value;
    assert EncodeFields(es).value == b + more;
    ConcatAssoc(b, more, tail);
  }

  lemma ShapeTail(es0: seq<Entry>, es: seq<Entry>)
    requires |es| > 0 && SameShape(es0, es) && Readable(es)
    ensures es0[0].name == es[0].name && SameKind(es0[0].field, es[0].field)
    ensures es[0].field.FixedState? ==> |es[0].field.layout| > 0
    ensures SameShape(es0[1..], es[1..]) && Readable(es[1..])
  {
    assert forall i :: 0 <= i < |es| - 1 ==> es[1..][i] == es[i + 1] && es0[1..][i] == es0[i + 1];
  }

  /** One step of the field loop of `deserialize` that succeeds. */
  lemma DecodeFieldsCons(es: seq<Entry>, input: seq<byte>, f: FieldState, rest: seq<byte>)
    requires |es| > 0 && FieldDeserialize(es[0].field, input) == (f, Ok(rest))
    ensures DecodeFields(es, input) == ([Entry(es[0].name, f)] + DecodeFields(es[1..], rest).0, DecodeFields(es[1..], rest).1)
  {
  }

  /**
   * `deserialize(serialize() + rest)` returns `rest`, and leaves any area of the same
   * schema holding the written version and field values, each in the form reading it
   * back produces.
   */
  lemma AreaRoundTrip(st: AreaState, st0: AreaState, rest: seq<byte>)
    requires Serialize(st).1.Ok? && SameShape(st0.entries, st.entries) && Readable(st.entries)
    ensures Deserialize(st0, Serialize(st).1.value + rest) == (Normalized(Serialize(st).0), Ok(rest))
  {
    SerializeSteps(st);
    var payload := SerializedPayload(st);
    var ep := Epilogue(payload);
    var remainder := ep + rest;
    var input := Serialize(st).1.value + rest;
    ConcatAssoc(payload, ep, rest);
    ReadPayload(st, st0, remainder);
    DeserializeSteps(st0, input, NormalValue(VersionLayout, st.version), EncodeFields(Serialize(st).0.entries).value + remainder,
      NormalEntries(Serialize(st).0.entries), remainder);
    ConcatSplit(payload, remainder);
    ConcatSplit(ep, rest);
  }

  /** A canonical state comes back exactly: every field and the format version are restored. */
  lemma AreaRoundTripExact(st: AreaState, st0: AreaState, rest: seq<byte>)
    requires Serialize(st).1.Ok? && SameShape(st0.entries, st.entries) && Readable(st.entries)
    requires Canonical(Serialize(st).0)
    ensures Deserialize(st0, Serialize(st).1.value + rest) == (Serialize(st).0, Ok(rest))
    ensures Get(Deserialize(st0, Serialize(st).1.value + rest).0, "format_version") == Get(st, "format_version")
  {
    AreaRoundTrip(st, st0, rest);
    CanonicalIsNormal(Serialize(st).0);
  }

  /**
   * The bytes of `input` in front of `rest` are framed as `serialize` frames an area:
   * there is at least one, their count is a multiple of 8 and they sum to 0 modulo 256.
   */
  predicate Framed(input: seq<byte>, rest: seq<byte>)
  {
    |rest| < |input| &&
    var framed := input[..|input| - |rest|];
    |framed| % 8 == 0 && Sum(framed) % 256 == 0
  }

  /** What `deserialize` accepts is framed like what `serialize` writes. */
  lemma DeserializeChecksFraming(st: AreaState, input: seq<byte>)
    requires Deserialize(st, input).1.Ok?
    ensures Framed(input, Deserialize(st, input).1.value)
  {
    var r := FixedDeserialize(VersionLayout, st.version, input);
    var d := DecodeFields(st.entries, r.1.value);
    var remainder := d.1.value;
    if |remainder| == 0 {
      assert false;
    } else {
      DeserializeSteps(st, input, r.0, r.1.value, d.0, remainder);
      var payload := input[..|input| - |remainder|];
      var ep := Epilogue(payload);
      assert |ep| <= |remainder| && remainder[..|ep|] == ep;
      assert Deserialize(st, input).1.value == remainder[|ep|..];
      FramedPrefix(input, remainder);
    }
  }

  /** The bytes in front of `remainder` and its epilogue are framed as `serialize` frames them. */
  lemma FramedPrefix(input: seq<byte>, remainder: seq<byte>)
    requires |remainder| <= |input| && remainder == input[|input| - |remainder|..]
    requires var ep := Epilogue(input[..|input| - |remainder|]); |ep| <= |remainder| && remainder[..|ep|] == ep
    ensures Framed(input, remainder[|Epilogue(input[..|input| - |remainder|])|..])
  {
    var payload := input[..|input| - |remainder|];
    var ep := Epilogue(payload);
    PrefixThrough(input, remainder, ep);
  }

  /** Without its epilogue the serialized payload is rejected. */
  lemma MissingEpilogue(st: AreaState, st0: AreaState)
    requires Serialize(st).1.Ok? && SameShape(st0.entries, st.entries) && Readable(st.entries)
    ensures Deserialize(st0, SerializedPayload(st)).1.Err?
  {
    var payload := SerializedPayload(st);
    assert payload + [] == payload;
    ReadPayload(st, st0, []);
    assert EncodeFields(Serialize(st).0.entries).value + [] == EncodeFields(Serialize(st).0.entries).value;
  }

  /**
   * `deserialize` of a payload that reads as `v` and `es`, followed by bytes `bad` in
   * place of its epilogue: the checksum error, with the fields already read.
   */
  lemma ReadBadEpilogue(st0: AreaState, payload: seq<byte>, body: seq<byte>, bad: seq<byte>, rest: seq<byte>, v: FixedValue, es: seq<Entry>)
    requires |bad| == |Epilogue(payload)| && bad != Epilogue(payload)
    requires FixedDeserialize(VersionLayout, st0.version, payload + (bad + rest)) == (v, Ok(body + (bad + rest)))
    requires DecodeFields(st0.entries, body + (bad + rest)) == (es, Ok(bad + rest))
    ensures Deserialize(st0, payload + (bad + rest)) == (AreaState(v, es), Err(Checksum(Epilogue(payload), bad)))
  {
    var remainder := bad + rest;
    ConcatSplit(payload, remainder);
    ConcatSplit(bad, rest);
    DeserializeSteps(st0, payload + remainder, v, body + remainder, es, remainder);
  }

  /**
   * Changing any byte of the padding or the checksum makes `deserialize` fail, and the
   * area still holds the version and fields it read before comparing the epilogue.
   */
  lemma TamperedEpilogue(st: AreaState, st0: AreaState, k: nat, b: byte, rest: seq<byte>)
    requires Serialize(st).1.Ok? && SameShape(st0.entries, st.entries) && Readable(st.entries)
    requires |SerializedPayload(st)| <= k < |Serialize(st).1.value| && b != Serialize(st).1.value[k]
    ensures Deserialize(st0, Serialize(st).1.value[k := b] + rest).1.Err?
    ensures Deserialize(st0, Serialize(st).1.value[k := b] + rest).0 == Normalized(Serialize(st).0)
  {
    SerializeSteps(st);
    var payload := SerializedPayload(st);
    var ep := Epilogue(payload);
    var bad: seq<byte> := ep[k - |payload| := b];
    ConcatUpdate(payload, ep, k, b);
    ConcatAssoc(payload, bad, rest);
    ReadPayload(st, st0, bad + rest);
    assert bad[k - |payload|] != ep[k - |payload|];
    ReadBadEpilogue(st0, payload, EncodeFields(Serialize(st).0.entries).value, bad, rest,
      NormalValue(VersionLayout, st.version), NormalEntries(Serialize(st).0.entries));
  }

  /** The version byte `01` read by `deserialize`. */
  lemma ReadVersionOne(current: FixedValue, rest: seq<byte>)
    ensures FixedDeserialize(VersionLayout, current, [0x01] + rest) == (Tuple([0, 1]), Ok(rest))
  {
    VersionByteExample();
    assert VersionLayout == [4, 4];
    UsedAll(VersionLayout, [0, 1]);
    FixedFields.SerializeRoundTrip(VersionLayout, Tuple([0, 1]), current, rest);
  }

  /** The epilogue after the lone version byte `01`. */
  lemma EpilogueOfVersionByte()
    ensures Epilogue([0x01]) == [0, 0, 0, 0, 0, 0, 0xFF]
  {
    SizeAlignUnique(2, 8, 6);
    assert Sum([0x01]) == 1 by {
      assert [0x01][1..] == [];
    }
    var z := Zeros(6);
    assert z == [0, 0, 0, 0, 0, 0];
  }

  /** `serialize()` from its three steps. */
  lemma SerializeOf(st: AreaState, prologue: seq<byte>, st1: AreaState, body: seq<byte>)
    requires Prologue(st) == Ok(prologue) && StampLength(st) == Ok(st1) && EncodeFields(st1.entries) == Ok(body)
    ensures Serialize(st) == (st1, Ok(prologue + body + Epilogue(prologue + body)))
  {
  }

  /** An area with no fields and format version 1 is `01 00 00 00 00 00 00 FF`. */
  lemma EmptyAreaExample()
    ensures Serialize(Initial([])) == (Initial([]), Ok([0x01, 0, 0, 0, 0, 0, 0, 0xFF]))
  {
    var version: seq<byte>, none: seq<byte>, ep: seq<byte> := [0x01], [], [0, 0, 0, 0, 0, 0, 0xFF];
    assert version + none == version && version + ep == [0x01, 0, 0, 0, 0, 0, 0, 0xFF];
    assert Epilogue(version) == ep by {
      EpilogueOfVersionByte();
    }
    assert Serialize(Initial([])) == (Initial([]), Ok(version + none + Epilogue(version + none))) by {
      EmptyAreaSteps();
      SerializeOf(Initial([]), version, Initial([]), none);
    }
  }

  /** The version byte of an empty area, with nothing to stamp and no fields to encode. */
  lemma EmptyAreaSteps()
    ensures Prologue(Initial([])) == Ok([0x01])
    ensures StampLength(Initial([])) == Ok(Initial([])) && EncodeFields(Initial([]).entries) == Ok([])
  {
    VersionByteExample();
    assert Initial([]).entries == [];
  }

  /** An empty area whose checksum byte is off by one is rejected, naming both epilogues. */
  lemma BadChecksumExample()
    ensures Deserialize(Initial([]), [0x01, 0, 0, 0, 0, 0, 0, 0xFE])
         == (AreaState(Tuple([0, 1]), []), Err(Checksum([0, 0, 0, 0, 0, 0, 0xFF], [0, 0, 0, 0, 0, 0, 0xFE])))
  {
    var input: seq<byte> := [0x01, 0, 0, 0, 0, 0, 0, 0xFE];
    var remainder: seq<byte> := [0, 0, 0, 0, 0, 0, 0xFE];
    assert input == [0x01] + remainder;
    ReadVersionOne(Tuple([0, DefaultVersion]), remainder);
    DeserializeSteps(Initial([]), input, Tuple([0, 1]), remainder, [], remainder);
    assert input[..|input| - |remainder|] == [0x01];
    EpilogueOfVersionByte();
    assert remainder[..Min(7, |remainder|)] == remainder;
  }

  // ---------------------------------------------------------------- accessors

  /**
   * `_set(key, v)` then `_get(key)` reads back what the field stored, and a value of
   * the wrong kind is refused with nothing stored.
   */
  lemma SetThenGet(st: AreaState, key: string, v: Value)
    requires key in Names(st.entries)
    ensures var i := IndexOf(st.entries, key).value;
      SetField(st.entries[i].field, v).Err? ==> SetGeneric(st, key, v) == Err(SetField(st.entries[i].field, v).error)
    ensures var i := IndexOf(st.entries, key).value;
      SetField(st.entries[i].field, v).Ok? ==>
        SetGeneric(st, key, v).Ok? &&
        SetGeneric(st, key, v).value.entries[i].field == SetField(st.entries[i].field, v).value &&
        GetGeneric(SetGeneric(st, key, v).value, key) == Ok(FieldValue(SetField(st.entries[i].field, v).value))
  {
    var i := IndexOf(st.entries, key).value;
    if SetField(st.entries[i].field, v).Ok? {
      var f := SetField(st.entries[i].field, v).value;
      var st1 := SetGeneric(st, key, v).value;
      assert st1.entries == st.entries[i := Entry(key, f)];
      IndexOfNames(st1.entries, st.entries, key);
    }
  }

  /**
   * `area['area_length'] = n`: a length that is not a multiple of 8 is refused with
   * nothing stored, and so is a key the schema lacks.
   */
  lemma AreaLengthRefused(st: AreaState, n: int)
    ensures n % 8 != 0 ==> Set(st, "area_length", Int(n)) == Err(AreaLengthAlignment)
    ensures "area_length" !in Names(st.entries) ==> Set(st, "area_length", Int(n)) == Err(if n % 8 != 0 then AreaLengthAlignment else UnknownField)
  {
  }

  /** Otherwise the numeric field stores `n // 8`, and reading it back gives `n`. */
  lemma AreaLengthStored(st: AreaState, n: int)
    requires n % 8 == 0 && "area_length" in Names(st.entries)
    requires st.entries[IndexOf(st.entries, "area_length").value].field.FixedState?
    ensures Set(st, "area_length", Int(n)).Ok?
    ensures var st1 := Set(st, "area_length", Int(n)).value;
      st1.entries[IndexOf(st.entries, "area_length").value].field.value == Scalar(n / 8) &&
      Get(st1, "area_length") == Ok(Int(n))
  {
    SetThenGet(st, "area_length", Int(n / 8));
  }

  /** A stored area length reads back multiplied by 8. */
  lemma AreaLengthReadsBytes(st: AreaState, units: int)
    requires GetGeneric(st, "area_length") == Ok(Int(units))
    ensures Get(st, "area_length") == Ok(Int(8 * units))
  {
  }

  /** `area['format_version'] = v` stores `(0, v)`, changes nothing else, and reads back `v`. */
  lemma FormatVersionAccessor(st: AreaState, v: int)
    ensures Set(st, "format_version", Int(v)) == Ok(AreaState(Tuple([0, v]), st.entries))
    ensures Get(Set(st, "format_version", Int(v)).value, "format_version") == Ok(Int(v))
  {
  }

  /** A list (or a tuple) given to a numeric field is stored as a tuple and read back as a list. */
  lemma ListsStoredAsTuples(st: AreaState, key: string, xs: seq<int>, asTuple: bool)
    requires key != "area_length" && key != "format_version" && key in Names(st.entries)
    requires st.entries[IndexOf(st.entries, key).value].field.FixedState?
    ensures var v := if asTuple then IntTuple(xs) else IntList(xs);
      Set(st, key, v).Ok? &&
      Set(st, key, v).value.entries[IndexOf(st.entries, key).value].field.value == Tuple(xs) &&
      Get(Set(st, key, v).value, key) == Ok(IntList(xs))
  {
    SetThenGet(st, key, if asTuple then IntTuple(xs) else IntList(xs));
  }

  /** A key that is neither special nor in the schema is unknown to every accessor and to `update`. */
  lemma UnknownKey(st: AreaState, key: string, v: Value, more: seq<(string, Value)>)
    requires !Contains(st, key)
    ensures Get(st, key) == Err(UnknownField)
    ensures Set(st, key, v) == Err(UnknownField)
    ensures Update(st, [(key, v)] + more) == (st, Fail(UnknownField))
  {
  }

  /** `update` applies its pairs one after the other: a sequence is one part, then the rest. */
  lemma {:induction false} UpdateSequential(st: AreaState, a: seq<(string, Value)>, b: seq<(string, Value)>)
    ensures Update(st, a + b) == (if Update(st, a).1.Pass? then Update(Update(st, a).0, b) else Update(st, a))
    decreases |a|
  {
    if |a| == 0 {
      assert a + b == b;
    } else {
      assert (a + b)[0] == a[0] && (a + b)[1..] == a[1..] + b;
      match Set(st, a[0].0, a[0].1)
      case Err(_) =>
      case Ok(st1) => UpdateSequential(st1, a[1..], b);
    }
  }

  lemma {:induction false} EntriesSpec(st: AreaState, keys: seq<string>)
    ensures Entries(st, keys).Ok? <==> forall i :: 0 <= i < |keys| ==> Get(st, keys[i]).Ok?
    ensures Entries(st, keys).Ok? ==>
      |Entries(st, keys).value| == |keys| &&
      forall i :: 0 <= i < |keys| ==> Entries(st, keys).value[i] == (keys[i], Get(st, keys[i]).value)
    decreases |keys|
  {
    if |keys| > 0 {
      EntriesSpec(st, keys[1..]);
      assert forall i :: 0 < i < |keys| ==> keys[i] == keys[1..][i - 1];
    }
  }

  /** `to_dict()` has one item per schema name, in schema order, each read through `area[k]`. */
  lemma ToDictOrder(st: AreaState)
    ensures ToDict(st).Ok? <==> forall i :: 0 <= i < |st.entries| ==> Get(st, st.entries[i].name).Ok?
    ensures ToDict(st).Ok? ==>
      |ToDict(st).value| == |st.entries| &&
      forall i :: 0 <= i < |st.entries| ==> ToDict(st).value[i] == (st.entries[i].name, Get(st, st.entries[i].name).value)
  {
    EntriesSpec(st, Names(st.entries));
  }
}
