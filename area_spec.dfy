/**
 * The semantics of `FruArea` on values: an ordered schema of named fields framed by
 * a `'u4u4'` format version byte in front and, behind, zero padding to a multiple of
 * 8 bytes and a checksum byte that makes the byte sum zero modulo 256.
 */
module AreaSpec {
  import opened Bytes
  import opened Wrappers
  import opened Align
  import opened BitPack
  import opened FixedFields
  import opened StringFields

  /** The layout `'u4u4'` of the format version byte. */
  const VersionLayout: Layout := [4, 4]

  /** `_format_version_default`. */
  const DefaultVersion: int := 1

  /** The state of one field object of the schema. */
  datatype FieldState =
    | FixedState(layout: Layout, value: FixedValue)
    | StringState(format: StringFmt, text: string)

  /** One item of the area's ordered dictionary. */
  datatype Entry = Entry(name: string, field: FieldState)

  /** `_format_version.value` and the ordered dictionary `_dict`. */
  datatype AreaState = AreaState(version: FixedValue, entries: seq<Entry>)

  /** The Python values the accessors hand in and out. */
  datatype Value = NoneValue | Int(n: int) | IntList(xs: seq<int>) | IntTuple(xs: seq<int>) | Str(s: string)

  /** A freshly constructed area: the schema's fields and format version `(0, 1)`. */
  function Initial(schema: seq<Entry>): (st: AreaState)
    ensures st.entries == DictOf(schema)
    ensures Get(st, "format_version") == Ok(Int(DefaultVersion))
  {
    AreaState(Tuple([0, DefaultVersion]), DictOf(schema))
  }

  /** No name occurs twice. */
  predicate Unique(ns: seq<string>)
  {
    forall i, j :: 0 <= i < j < |ns| ==> ns[i] != ns[j]
  }

  /**
   * `d[e.name] = e.field` on an ordered dictionary: afterwards `e.name` is found holding
   * `e`, a new name goes last, and every other key keeps its place.
   */
  function Insert(es: seq<Entry>, e: Entry): (r: seq<Entry>)
    ensures Names(r) == if e.name in Names(es) then Names(es) else Names(es) + [e.name]
    ensures IndexOf(r, e.name).Some? && r[IndexOf(r, e.name).value] == e
    ensures forall key :: key != e.name ==> IndexOf(r, key) == IndexOf(es, key)
    ensures forall k :: 0 <= k < |es| && es[k].name != e.name ==> r[k] == es[k]
  {
    match IndexOf(es, e.name)
    case None =>
      assert Names(es + [e]) == Names(es) + [e.name];
      PositionAppendAll(Names(es), e.name);
      es + [e]
    case Some(i) =>
      assert Names(es[i := e]) == Names(es);
      es[i := e]
  }

  /** A name appended after the others is found last, and moves no other key. */
  lemma {:induction false} PositionAppend(ns: seq<string>, n: string, key: string)
    requires n !in ns
    ensures Position(ns + [n], key) == if key == n then Some(|ns|) else Position(ns, key)
    decreases |ns|
  {
    if |ns| > 0 {
      assert (ns + [n])[1..] == ns[1..] + [n];
      PositionAppend(ns[1..], n, key);
    }
  }

  lemma PositionAppendAll(ns: seq<string>, n: string)
    requires n !in ns
    ensures forall key :: Position(ns + [n], key) == if key == n then Some(|ns|) else Position(ns, key)
  {
    forall key {
      PositionAppend(ns, n, key);
    }
  }

  /**
   * `OrderedDict(schema)`: every name once, at the place it first occurs, holding the
   * field it was last paired with.
   */
  function DictOf(schema: seq<Entry>): (r: seq<Entry>)
    ensures Unique(Names(r))
    ensures forall k :: k in Names(r) <==> k in Names(schema)
    decreases |schema|
  {
    if |schema| == 0 then
      []
    else
      var front := DictOf(schema[..|schema| - 1]);
      var e := schema[|schema| - 1];
      assert Names(schema) == Names(schema[..|schema| - 1]) + [e.name];
      Insert(front, e)
  }

  function Names(entries: seq<Entry>): (ns: seq<string>)
    ensures |ns| == |entries| && forall i :: 0 <= i < |entries| ==> ns[i] == entries[i].name
  {
    seq(|entries|, i requires 0 <= i < |entries| => entries[i].name)
  }

  lemma NamesCons(e: Entry, es: seq<Entry>)
    ensures Names([e] + es) == [e.name] + Names(es)
  {
  }

  /** Where `key` first occurs among the names, if it does. */
  function Position(ns: seq<string>, key: string): (r: Option<nat>)
    ensures r.Some? ==> r.value < |ns| && ns[r.value] == key && key !in ns[..r.value]
    ensures r.None? <==> key !in ns
  {
    if |ns| == 0 then
      None
    else if ns[0] == key then
      Some(0)
    else
      match Position(ns[1..], key)
      case None => None
      case Some(i) =>
        assert ns[..i + 1] == [ns[0]] + ns[1..][..i];
        Some(i + 1)
  }

  /** The position of `key` in the ordered dictionary. */
  function IndexOf(entries: seq<Entry>, key: string): (r: Option<nat>)
    ensures r.Some? ==> r.value < |entries| && entries[r.value].name == key
    ensures r.None? <==> key !in Names(entries)
  {
    Position(Names(entries), key)
  }

  // ---------------------------------------------------------------- one field

  /** `v.size()` for either kind of field. */
  function FieldSize(fs: FieldState): Result<nat>
  {
    match fs
    case FixedState(layout, _) => FixedSize(layout)
    case StringState(f, text) => Ok(StringSize(f, text))
  }

  /** `v.serialize()` for either kind of field. */
  function FieldSerialize(fs: FieldState): Result<seq<byte>>
  {
    match fs
    case FixedState(layout, v) => FixedSerialize(layout, v)
    case StringState(f, text) => StringSerialize(f, text)
  }

  /** `v.deserialize(input)` for either kind of field: the new field state and the remainder. */
  function FieldDeserialize(fs: FieldState, input: seq<byte>): (r: (FieldState, Result<seq<byte>>))
    ensures r.0.FixedState? <==> fs.FixedState?
    ensures r.0.FixedState? ==> r.0.layout == fs.layout
    ensures r.1.Ok? ==> |r.1.value| <= |input| && r.1.value == input[|input| - |r.1.value|..]
  {
    match fs
    case FixedState(layout, v) =>
      var (v1, rest) := FixedDeserialize(layout, v, input);
      (FixedState(layout, v1), rest)
    case StringState(f, text) =>
      var (f1, text1, rest) := StringDeserialize(f, text, input);
      (StringState(f1, text1), rest)
  }

  /** `_get`'s reading of a field's value: a tuple comes back as a list. */
  function FieldValue(fs: FieldState): Value
  {
    match fs
    case FixedState(_, v) =>
      (match v
       case Unset => NoneValue
       case Scalar(n) => Int(n)
       case Tuple(xs) => IntList(xs))
    case StringState(_, text) => Str(text)
  }

  /**
   * `_set`'s store into a field: a list is stored as a tuple. A value of the wrong
   * kind for the field is refused.
   */
  function SetField(fs: FieldState, v: Value): Result<FieldState>
  {
    match fs
    case FixedState(layout, _) =>
      (match v
       case NoneValue => Ok(FixedState(layout, Unset))
       case Int(n) => Ok(FixedState(layout, Scalar(n)))
       case IntList(xs) => Ok(FixedState(layout, Tuple(xs)))
       case IntTuple(xs) => Ok(FixedState(layout, Tuple(xs)))
       case Str(_) => Err(TypeMismatch))
    case StringState(f, _) =>
      (match v
       case Str(s) => Ok(StringState(f, s))
       case _ => Err(TypeMismatch))
  }

  /** Lists and tuples are both read back as lists; other values as they were stored. */
  lemma SetFieldGet(fs: FieldState, v: Value)
    ensures SetField(fs, v).Ok? <==> (fs.FixedState? && !v.Str?) || (fs.StringState? && v.Str?)
    ensures SetField(fs, v).Ok? ==> FieldValue(SetField(fs, v).value) == (if v.IntTuple? then IntList(v.xs) else v)
    ensures SetField(fs, v).Ok? && fs.FixedState? ==>
      SetField(fs, v).value.layout == fs.layout && (v.IntList? || v.IntTuple? ==> SetField(fs, v).value.value == Tuple(v.xs))
  {
  }

  // ---------------------------------------------------------------- accessors

  /** `_get(key)`. */
  function GetGeneric(st: AreaState, key: string): (r: Result<Value>)
    ensures r.Err? <==> key !in Names(st.entries)
    ensures r.Err? ==> r.error == UnknownField
  {
    match IndexOf(st.entries, key)
    case None => Err(UnknownField)
    case Some(i) => Ok(FieldValue(st.entries[i].field))
  }

  /** `_set(key, value)`: only the named field changes. */
  function SetGeneric(st: AreaState, key: string, v: Value): (r: Result<AreaState>)
    ensures key !in Names(st.entries) ==> r == Err(UnknownField)
    ensures r.Ok? ==> r.value.version == st.version && |r.value.entries| == |st.entries|
    ensures r.Ok? ==> Names(r.value.entries) == Names(st.entries)
    ensures r.Ok? ==> forall j :: 0 <= j < |st.entries| && st.entries[j].name != key ==> r.value.entries[j] == st.entries[j]
  {
    match IndexOf(st.entries, key)
    case None => Err(UnknownField)
    case Some(i) =>
      match SetField(st.entries[i].field, v)
      case Err(e) => Err(e)
      case Ok(f) =>
        var es := st.entries[i := Entry(key, f)];
        assert Names(es) == Names(st.entries);
        Ok(st.(entries := es))
  }

  /** `k` copies of `s` one after the other (Python's `s * k` on a list or a string). */
  function Cycle<T>(s: seq<T>, k: nat): seq<T>
  {
    if k == 0 then [] else s + Cycle(s, k - 1)
  }

  /** `value * 8` on whatever `_get('area_length')` returned; `None * 8` raises. */
  function Times8(v: Value): Result<Value>
  {
    match v
    case NoneValue => Err(TypeMismatch)
    case Int(n) => Ok(Int(8 * n))
    case IntList(xs) => Ok(IntList(Cycle(xs, 8)))
    case IntTuple(xs) => Ok(IntTuple(Cycle(xs, 8)))
    case Str(s) => Ok(Str(Cycle(s, 8)))
  }

  /** `area[key]`: the two special accessors, else the generic one. */
  function Get(st: AreaState, key: string): Result<Value>
  {
    if key == "area_length" then
      match GetGeneric(st, key)
      case Err(e) => Err(e)
      case Ok(v) => Times8(v)
    else if key == "format_version" then
      match st.version
      case Tuple(xs) => if |xs| >= 2 then Ok(Int(xs[1])) else Err(ValueCount)
      case _ => Err(TypeMismatch)
    else
      GetGeneric(st, key)
  }

  /**
   * `area[key] = v`. `area_length` is given in bytes and stored in units of 8 bytes;
   * `format_version` is stored as `(0, v)`. A failure stores nothing.
   */
  function Set(st: AreaState, key: string, v: Value): Result<AreaState>
  {
    if key == "area_length" then
      match v
      case Int(n) => if n % 8 != 0 then Err(AreaLengthAlignment) else SetGeneric(st, key, Int(n / 8))
      case _ => Err(TypeMismatch)
    else if key == "format_version" then
      match v
      case Int(n) => Ok(st.(version := Tuple([0, n])))
      case _ => Err(TypeMismatch)
    else
      SetGeneric(st, key, v)
  }

  /** `key in area`: the special names always count, whether or not the schema has them. */
  predicate Contains(st: AreaState, key: string)
  {
    key == "area_length" || key == "format_version" || key in Names(st.entries)
  }

  /** `update(src)`: the pairs in order; the first failure stops it, earlier ones stay applied. */
  function Update(st: AreaState, src: seq<(string, Value)>): (AreaState, Outcome)
    decreases |src|
  {
    if |src| == 0 then
      (st, Pass)
    else
      match Set(st, src[0].0, src[0].1)
      case Err(e) => (st, Fail(e))
      case Ok(st1) => Update(st1, src[1..])
  }

  function Entries(st: AreaState, keys: seq<string>): Result<seq<(string, Value)>>
  {
    if |keys| == 0 then
      Ok([])
    else
      match Get(st, keys[0])
      case Err(e) => Err(e)
      case Ok(v) => Prepend([(keys[0], v)], Entries(st, keys[1..]))
  }

  /** `to_dict()`: `area[k]` for every schema name `k`, in schema order. */
  function ToDict(st: AreaState): Result<seq<(string, Value)>>
  {
    Entries(st, Names(st.entries))
  }

  // ---------------------------------------------------------------- framing

  /** `_prologue()`: the format version byte. */
  function Prologue(st: AreaState): Result<seq<byte>>
  {
    FixedSerialize(VersionLayout, st.version)
  }

  lemma VersionByteSize()
    ensures TotalBits(VersionLayout) == 8 && FixedSize(VersionLayout) == Ok(1)
  {
    assert VersionLayout[1..] == [4] && [4][1..] == [];
  }

  /**
   * `_epilogue(payload)`: zero bytes up to one before the next multiple of 8, then
   * the two's-complement checksum of the payload.
   */
  function Epilogue(payload: seq<byte>): (ep: seq<byte>)
    ensures 1 <= |ep| <= 8 && (|payload| + |ep|) % 8 == 0
    ensures forall i :: 0 <= i < |ep| - 1 ==> ep[i] == 0
    ensures Sum(payload + ep) % 256 == 0
  {
    var pad := SizeAlign(|payload| + 1, 8).0;
    var cksum := (-(Sum(payload) as int)) % 256;
    var ep := Zeros(pad) + [cksum];
    SumConcat(payload, ep);
    SumConcat(Zeros(pad), [cksum]);
    ChecksumCancels(Sum(payload));
    ep
  }

  lemma ChecksumCancels(s: nat)
    ensures (s + (-(s as int)) % 256) % 256 == 0
  {
    var c := (-(s as int)) % 256;
    var q := (-(s as int)) / 256;
    assert -(s as int) == q * 256 + c;
    DivModUnique(s + c, 256, -q, 0);
  }

  function FieldsSize(es: seq<Entry>): Result<nat>
  {
    if |es| == 0 then
      Ok(0)
    else
      match FieldSize(es[0].field)
      case Err(e) => Err(e)
      case Ok(n) =>
        match FieldsSize(es[1..])
        case Err(e) => Err(e)
        case Ok(m) => Ok(n + m)
  }

  /** `size_payload()`: the fields' sizes plus the version byte. */
  function SizePayload(st: AreaState): Result<nat>
  {
    match FieldsSize(st.entries)
    case Err(e) => Err(e)
    case Ok(n) => Ok(n + 1)
  }

  /** `size_total()`: the payload plus checksum byte, rounded up to a multiple of 8. */
  function SizeTotal(st: AreaState): (r: Result<nat>)
    ensures r.Ok? <==> SizePayload(st).Ok?
    ensures r.Ok? ==> r.value % 8 == 0 && SizePayload(st).value + 1 <= r.value < SizePayload(st).value + 9
  {
    match SizePayload(st)
    case Err(e) => Err(e)
    case Ok(n) => Ok(SizeAlign(n + 1, 8).1)
  }

  /** The fields serialized in schema order, joined. */
  function EncodeFields(es: seq<Entry>): Result<seq<byte>>
  {
    if |es| == 0 then
      Ok([])
    else
      match FieldSerialize(es[0].field)
      case Err(e) => Err(e)
      case Ok(b) => Prepend(b, EncodeFields(es[1..]))
  }

  /** The loop of `deserialize`: each field reads from what the previous one left. */
  function DecodeFields(es: seq<Entry>, input: seq<byte>): (r: (seq<Entry>, Result<seq<byte>>))
    ensures Names(r.0) == Names(es)
    ensures r.1.Ok? ==> |r.1.value| <= |input| && r.1.value == input[|input| - |r.1.value|..]
  {
    if |es| == 0 then
      (es, Ok(input))
    else
      var d := FieldDeserialize(es[0].field, input);
      var head := Entry(es[0].name, d.0);
      if d.1.Err? then
        NamesCons(head, es[1..]);
        NamesCons(es[0], es[1..]);
        assert [es[0]] + es[1..] == es;
        ([head] + es[1..], Err(d.1.error))
      else
        var rec := DecodeFields(es[1..], d.1.value);
        NamesCons(head, rec.0);
        NamesCons(es[0], es[1..]);
        assert [es[0]] + es[1..] == es;
        SuffixOfSuffix(input, d.1.value, rec.1);
        ([head] + rec.0, rec.1)
  }

  /** The write of `self['area_length'] = self.size_total()` that `serialize` makes. */
  function StampLength(st: AreaState): (r: Result<AreaState>)
    ensures r.Ok? ==> r.value.version == st.version && Names(r.value.entries) == Names(st.entries)
    ensures r.Ok? ==> forall j :: 0 <= j < |st.entries| && st.entries[j].name != "area_length" ==> r.value.entries[j] == st.entries[j]
  {
    if "area_length" in Names(st.entries) then
      match SizeTotal(st)
      case Err(e) => Err(e)
      case Ok(n) => Set(st, "area_length", Int(n))
    else
      Ok(st)
  }

  /**
   * `serialize()`: the new area state (with `area_length` stamped) and the bytes:
   * prologue, fields, then the epilogue computed over those two.
   */
  function Serialize(st: AreaState): (r: (AreaState, Result<seq<byte>>))
    ensures r.1.Ok? ==> |r.1.value| % 8 == 0 && Sum(r.1.value) % 256 == 0
    ensures r.1.Ok? ==> Prologue(st).Ok? && |Prologue(st).value| == 1 && |r.1.value| >= 1 && r.1.value[..1] == Prologue(st).value
    ensures r.0.version == st.version && Names(r.0.entries) == Names(st.entries)
    ensures forall j :: 0 <= j < |st.entries| && st.entries[j].name != "area_length" ==> r.0.entries[j] == st.entries[j]
  {
    match Prologue(st)
    case Err(e) => (st, Err(e))
    case Ok(prologue) =>
      VersionByteSize();
      match StampLength(st)
      case Err(e) => (st, Err(e))
      case Ok(st1) =>
        match EncodeFields(st1.entries)
        case Err(e) => (st1, Err(e))
        case Ok(body) =>
          var payload := prologue + body;
          (st1, Ok(payload + Epilogue(payload)))
  }

  /**
   * `deserialize(input)`: the new area state and the remainder. The version and every
   * field are overwritten as they are read, so a later failure (a field, or the
   * padding and checksum) leaves them changed.
   */
  function Deserialize(st: AreaState, input: seq<byte>): (r: (AreaState, Result<seq<byte>>))
    ensures Names(r.0.entries) == Names(st.entries)
  {
    var (v1, r1) := FixedDeserialize(VersionLayout, st.version, input);
    if r1.Err? then
      (st, Err(r1.error))
    else
      var (es, r2) := DecodeFields(st.entries, r1.value);
      var st2 := AreaState(v1, es);
      if r2.Err? then
        (st2, Err(r2.error))
      else
        var remainder := r2.value;
        // `input[:-len(remainder)]`, which is empty when nothing remains
        var payload := if |remainder| == 0 then [] else input[..|input| - |remainder|];
        var ep := Epilogue(payload);
        var vfy := remainder[..Min(|ep|, |remainder|)];
        if ep != vfy then (st2, Err(Checksum(ep, vfy))) else (st2, Ok(remainder[|ep|..]))
  }
}
