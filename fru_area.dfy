/**
 * `FruArea` as the object it is: a format version field and an ordered dictionary
 * of field objects. Each method is proved to act on those objects exactly as the
 * value semantics of the area says.
 */
module FruAreas {
  import opened Bytes
  import opened Wrappers
  import opened Align
  import opened FixedFields
  import opened StringFields
  import opened AreaSpec

  /** One field object of a schema. */
  datatype Slot = FixedSlot(fixed: FixedField) | StringSlot(str: StringField)

  function Obj(s: Slot): object
  {
    match s
    case FixedSlot(f) => f
    case StringSlot(t) => t
  }

  /** The state of the field object behind a slot. */
  function SlotState(s: Slot): FieldState
    reads Obj(s)
  {
    match s
    case FixedSlot(f) => FixedState(f.layout, f.value)
    case StringSlot(t) => StringState(t.format, t.value)
  }

  function ObjsOf(ss: seq<Slot>): set<object>
  {
    set k | 0 <= k < |ss| :: Obj(ss[k])
  }

  /** No object stands in two slots. */
  predicate Distinct(ss: seq<Slot>)
  {
    forall a, b :: 0 <= a < |ss| && 0 <= b < |ss| && a != b ==> Obj(ss[a]) != Obj(ss[b])
  }

  /** The state of named slots, in order. */
  ghost function EntriesOf(ns: seq<string>, ss: seq<Slot>): (es: seq<Entry>)
    requires |ns| == |ss|
    reads ObjsOf(ss)
    ensures |es| == |ss| && Names(es) == ns
    ensures forall k :: 0 <= k < |ss| ==> es[k] == Entry(ns[k], SlotState(ss[k]))
  {
    var es := seq(|ss|, k requires 0 <= k < |ss| reads ObjsOf(ss) => Entry(ns[k], SlotState(ss[k])));
    assert Names(es) == ns;
    es
  }

  /** Each slot holds the state of the entry at its place. */
  predicate Holds(ss: seq<Slot>, es: seq<Entry>)
    reads ObjsOf(ss)
  {
    |ss| == |es| && forall k :: 0 <= k < |ss| ==> SlotState(ss[k]) == es[k].field
  }

  /** Slots holding the states of `es`, under the names of `es`, are `es`. */
  lemma EntriesOfIs(ns: seq<string>, ss: seq<Slot>, es: seq<Entry>)
    requires |ns| == |ss| == |es| && Names(es) == ns
    requires Holds(ss, es)
    ensures EntriesOf(ns, ss) == es
  {
    var r := EntriesOf(ns, ss);
    forall k | 0 <= k < |es|
      ensures r[k] == es[k]
    {
      assert es[k].name == Names(es)[k];
    }
  }

  /** Replacing the state behind one slot replaces that slot's entry and no other. */
  lemma EntriesOfUpdate(ns: seq<string>, ss: seq<Slot>, es0: seq<Entry>, i: nat, e: Entry)
    requires |ns| == |ss| == |es0| && i < |ss| && Names(es0) == ns && e.name == ns[i]
    requires SlotState(ss[i]) == e.field
    requires forall k :: 0 <= k < |ss| && k != i ==> SlotState(ss[k]) == es0[k].field
    ensures EntriesOf(ns, ss) == es0[i := e]
  {
    var es1 := es0[i := e];
    assert Names(es1) == ns by {
      assert forall k :: 0 <= k < |es1| ==> Names(es1)[k] == Names(es0)[k];
    }
    EntriesOfIs(ns, ss, es1);
  }

  /** `x + r` on a size that may be an error. */
  function Plus(x: nat, r: Result<nat>): Result<nat>
  {
    match r
    case Ok(n) => Ok(x + n)
    case Err(e) => Err(e)
  }

  /** A new field object holding the state `fs`. */
  method NewSlot(fs: FieldState) returns (s: Slot)
    ensures fresh(Obj(s)) && SlotState(s) == fs
  {
    match fs {
      case FixedState(layout, v) =>
        var f := new FixedField(layout, v);
        s := FixedSlot(f);
      case StringState(format, text) =>
        var t := new StringField(text, format);
        s := StringSlot(t);
    }
  }

  /** One new field object per entry, holding that entry's state. */
  method Instantiate(dict: seq<Entry>) returns (ss: seq<Slot>)
    ensures |ss| == |dict| && Distinct(ss) && forall k :: 0 <= k < |ss| ==> fresh(Obj(ss[k]))
    ensures Holds(ss, dict)
  {
    ss := [];
    var i := 0;
    while i < |dict|
      invariant 0 <= i <= |dict| && |ss| == i
      invariant Distinct(ss) && forall k :: 0 <= k < i ==> fresh(Obj(ss[k]))
      invariant forall k :: 0 <= k < i ==> SlotState(ss[k]) == dict[k].field
    {
      var s := NewSlot(dict[i].field);
      assert Obj(s) !in ObjsOf(ss);
      ss := ss + [s];
      i := i + 1;
    }
  }

  /**
   * The objects a new area starts with: a format version field holding `(0, 1)` and,
   * for each entry of `OrderedDict(schema)`, a new field object holding its state.
   */
  method NewAreaFields(schema: seq<Entry>) returns (version: FixedField, dict: seq<Entry>, ss: seq<Slot>)
    ensures fresh(version) && version.layout == AreaSpec.VersionLayout && version.value == Tuple([0, DefaultVersion])
    ensures dict == DictOf(schema) && |ss| == |dict| && Distinct(ss) && version !in ObjsOf(ss)
    ensures forall k :: 0 <= k < |ss| ==> fresh(Obj(ss[k]))
    ensures Holds(ss, dict)
  {
    version := new FixedField(AreaSpec.VersionLayout, Tuple([0, DefaultVersion]));
    dict := DictOf(schema);
    ss := Instantiate(dict);
  }

  class FruArea {
    /** `_format_version`. */
    const formatVersion: FixedField
    /** The keys of `_dict`, in order. */
    const names: seq<string>
    /** The values of `_dict`, in order. */
    const slots: seq<Slot>

    /** The field objects this area owns: its format version and one new object per schema entry. */
    ghost const Repr: set<object>

    ghost predicate Valid()
    {
      |names| == |slots| && Unique(names) && Distinct(slots) &&
      formatVersion !in ObjsOf(slots) && formatVersion.layout == AreaSpec.VersionLayout &&
      Repr == {formatVersion} + ObjsOf(slots)
    }

    ghost function State(): AreaState
      requires Valid()
      reads Repr
    {
      AreaState(formatVersion.value, EntriesOf(names, slots))
    }

    /**
     * `FruArea()`: `OrderedDict(schema)` and format version `(0, 1)`. Every name is
     * kept once, where it first occurs, with the field it was last paired with. The
     * area gets field objects of its own, holding the schema's values.
     */
    constructor (schema: seq<Entry>)
      ensures Valid() && fresh(formatVersion) && forall k :: 0 <= k < |slots| ==> fresh(Obj(slots[k]))
      ensures State() == Initial(schema)
    {
      var version, dict, ss := NewAreaFields(schema);
      names := Names(dict);
      slots := ss;
      formatVersion := version;
      Repr := {version} + ObjsOf(ss);
      new;
      assert Holds(slots, dict);
      EntriesOfIs(names, slots, dict);
    }

    /** `key in area`. */
    method Contains(key: string) returns (b: bool)
      requires Valid()
      ensures b == AreaSpec.Contains(State(), key)
    {
      b := key == "area_length" || key == "format_version" || key in names;
    }

    /** `_get(key)`: the field's value, a tuple as a list. */
    method GetGeneric(key: string) returns (r: Result<Value>)
      requires Valid()
      ensures r == AreaSpec.GetGeneric(State(), key)
    {
      match Position(names, key) {
        case None =>
          r := Err(UnknownField);
        case Some(i) =>
          match slots[i] {
            case FixedSlot(f) =>
              match f.value {
                case Unset => r := Ok(NoneValue);
                case Scalar(n) => r := Ok(Int(n));
                case Tuple(xs) => r := Ok(IntList(xs));
              }
            case StringSlot(t) =>
              r := Ok(Str(t.value));
          }
      }
    }

    /** `area[key]`. */
    method Get(key: string) returns (r: Result<Value>)
      requires Valid()
      ensures r == AreaSpec.Get(State(), key)
    {
      if key == "area_length" {
        r := GetGeneric(key);
        if r.Ok? {
          r := Times8(r.value);
        }
      } else if key == "format_version" {
        if formatVersion.value.Tuple? {
          var xs := formatVersion.value.items;
          if |xs| < 2 {
            return Err(ValueCount);
          }
          r := Ok(Int(xs[1]));
        } else {
          r := Err(TypeMismatch);
        }
      } else {
        r := GetGeneric(key);
      }
    }

    /** `_set(key, value)`: a list is stored as a tuple; only that field changes. */
    method SetGeneric(key: string, v: Value) returns (r: Outcome)
      requires Valid()
      modifies Repr
      ensures match AreaSpec.SetGeneric(old(State()), key, v)
        case Ok(st) => State() == st && r == Pass
        case Err(e) => State() == old(State()) && r == Fail(e)
    {
      ghost var st := State();
      match Position(names, key) {
        case None =>
          return Fail(UnknownField);
        case Some(i) =>
          var slot := slots[i];
          match slot {
            case FixedSlot(f) =>
              match v {
                case Str(_) => return Fail(TypeMismatch);
                case NoneValue => f.value := Unset;
                case Int(n) => f.value := Scalar(n);
                case IntList(xs) => f.value := Tuple(xs);
                case IntTuple(xs) => f.value := Tuple(xs);
              }
            case StringSlot(t) =>
              match v {
                case Str(s) => t.value := s;
                case _ => return Fail(TypeMismatch);
              }
          }
          forall k | 0 <= k < |slots| && k != i
            ensures SlotState(slots[k]) == st.entries[k].field
          {
            assert Obj(slots[k]) != Obj(slots[i]);
          }
          EntriesOfUpdate(names, slots, st.entries, i, Entry(key, SetField(st.entries[i].field, v).value));
          r := Pass;
      }
    }

    /** `area[key] = v`. */
    method Set(key: string, v: Value) returns (r: Outcome)
      requires Valid()
      modifies Repr
      ensures match AreaSpec.Set(old(State()), key, v)
        case Ok(st) => State() == st && r == Pass
        case Err(e) => State() == old(State()) && r == Fail(e)
    {
      if key == "area_length" {
        if !v.Int? {
          return Fail(TypeMismatch);
        }
        if v.n % 8 != 0 {
          return Fail(AreaLengthAlignment);
        }
        r := SetGeneric(key, Int(v.n / 8));
      } else if key == "format_version" {
        if !v.Int? {
          return Fail(TypeMismatch);
        }
        formatVersion.value := Tuple([0, v.n]);
        r := Pass;
      } else {
        r := SetGeneric(key, v);
      }
    }

    /** `update(src)`: the pairs in order, stopping at the first failure. */
    method Update(src: seq<(string, Value)>) returns (r: Outcome)
      requires Valid()
      modifies Repr
      ensures (State(), r) == AreaSpec.Update(old(State()), src)
    {
      var i := 0;
      while i < |src|
        invariant 0 <= i <= |src|
        invariant AreaSpec.Update(old(State()), src) == AreaSpec.Update(State(), src[i..])
      {
        assert src[i..][0] == src[i] && src[i..][1..] == src[i + 1..];
        r := Set(src[i].0, src[i].1);
        if r.Fail? {
          return;
        }
        i := i + 1;
      }
      r := Pass;
    }

    /** `to_dict()`: every schema name with `area[name]`, in schema order. */
    method ToDict() returns (r: Result<seq<(string, Value)>>)
      requires Valid()
      ensures r == AreaSpec.ToDict(State())
    {
      var result: seq<(string, Value)> := [];
      var i := 0;
      PrependNil(AreaSpec.Entries(State(), names));
      while i < |names|
        invariant 0 <= i <= |names|
        invariant AreaSpec.Entries(State(), names) == Prepend(result, AreaSpec.Entries(State(), names[i..]))
      {
        assert names[i..][0] == names[i] && names[i..][1..] == names[i + 1..];
        var v := Get(names[i]);
        if v.Err? {
          return Err(v.error);
        }
        PrependPrepend(result, [(names[i], v.value)], AreaSpec.Entries(State(), names[i + 1..]));
        result := result + [(names[i], v.value)];
        i := i + 1;
      }
      assert result + [] == result;
      r := Ok(result);
    }

    /** `v.size()` on the field in slot `i`. */
    method SizeSlot(i: nat) returns (m: Result<nat>)
      requires Valid() && i < |slots|
      ensures m == FieldSize(State().entries[i].field)
    {
      match slots[i] {
        case FixedSlot(f) =>
          m := f.Size();
        case StringSlot(t) =>
          var n := t.Size();
          m := Ok(n);
      }
    }

    /** `size_payload()`: the sizes of the fields plus the version byte. */
    method SizePayload() returns (r: Result<nat>)
      requires Valid()
      ensures r == AreaSpec.SizePayload(State())
    {
      ghost var es := State().entries;
      var total: nat := 0;
      var i := 0;
      while i < |slots|
        invariant 0 <= i <= |slots|
        invariant FieldsSize(es) == Plus(total, FieldsSize(es[i..]))
      {
        var m := SizeSlot(i);
        assert es[i..][0] == es[i] && es[i..][1..] == es[i + 1..];
        SizeStep(es[i..], total, m, FieldsSize(es));
        if m.Err? {
          return Err(m.error);
        }
        total := total + m.value;
        i := i + 1;
      }
      SizeDone(es, total);
      r := Ok(total + 1);
    }

    /** `size_total()`: the payload and checksum byte rounded up to a multiple of 8. */
    method SizeTotal() returns (r: Result<nat>)
      requires Valid()
      ensures r == AreaSpec.SizeTotal(State())
    {
      var payload := SizePayload();
      if payload.Err? {
        return payload;
      }
      var (_, n) := SizeAlign(payload.value + 1, 8);
      r := Ok(n);
    }

    /** `_prologue()`: the format version byte. */
    method Prologue() returns (r: Result<seq<byte>>)
      requires Valid()
      ensures r == AreaSpec.Prologue(State())
    {
      r := formatVersion.Serialize();
    }

    /** `v.serialize()` on the field in slot `i`. */
    method SerializeSlot(i: nat) returns (b: Result<seq<byte>>)
      requires Valid() && i < |slots|
      ensures b == FieldSerialize(State().entries[i].field)
    {
      match slots[i] {
        case FixedSlot(f) => b := f.Serialize();
        case StringSlot(t) => b := t.Serialize();
      }
    }

    /** The fields serialized in schema order and joined. */
    method SerializeFields() returns (r: Result<seq<byte>>)
      requires Valid()
      ensures r == EncodeFields(State().entries)
    {
      ghost var es := State().entries;
      var body: seq<byte> := [];
      var i := 0;
      PrependNil(EncodeFields(es));
      while i < |slots|
        invariant 0 <= i <= |slots|
        invariant EncodeFields(es) == Prepend(body, EncodeFields(es[i..]))
      {
        var b := SerializeSlot(i);
        EncodeStep(es, i, body, b);
        if b.Err? {
          return Err(b.error);
        }
        body := body + b.value;
        i := i + 1;
      }
      EncodeDone(es, body);
      r := Ok(body);
    }

    /** `serialize()`: stamps `area_length` when the schema has it, then frames the fields. */
    method Serialize() returns (r: Result<seq<byte>>)
      requires Valid()
      modifies Repr
      ensures (State(), r) == AreaSpec.Serialize(old(State()))
    {
      var payload := Prologue();
      if payload.Err? {
        return payload;
      }
      if "area_length" in names {
        var n := SizeTotal();
        if n.Err? {
          return Err(n.error);
        }
        var o := Set("area_length", Int(n.value));
        if o.Fail? {
          return Err(o.error);
        }
      }
      var body := SerializeFields();
      if body.Err? {
        return body;
      }
      var data := payload.value + body.value;
      r := Ok(data + Epilogue(data));
    }

    /** `v.deserialize(input)` on the field in slot `i`: only that entry changes. */
    method DeserializeSlot(i: nat, input: seq<byte>) returns (x: Result<seq<byte>>)
      requires Valid() && i < |slots|
      modifies Obj(slots[i])
      ensures EntriesOf(names, slots) == old(EntriesOf(names, slots))[i :=
        Entry(names[i], FieldDeserialize(old(SlotState(slots[i])), input).0)]
      ensures x == FieldDeserialize(old(SlotState(slots[i])), input).1
    {
      ghost var es0 := EntriesOf(names, slots);
      ghost var s0 := SlotState(slots[i]);
      match slots[i] {
        case FixedSlot(f) => x := f.Deserialize(input);
        case StringSlot(t) => x := t.Deserialize(input);
      }
      forall k | 0 <= k < |slots| && k != i
        ensures SlotState(slots[k]) == es0[k].field
      {
        assert Obj(slots[k]) != Obj(slots[i]);
      }
      EntriesOfUpdate(names, slots, es0, i, Entry(names[i], FieldDeserialize(s0, input).0));
    }

    /** The fields deserialized in schema order, each from what the previous one left. */
    method DeserializeFields(input: seq<byte>) returns (r: Result<seq<byte>>)
      requires Valid()
      modifies ObjsOf(slots)
      ensures (EntriesOf(names, slots), r) == DecodeFields(old(EntriesOf(names, slots)), input)
    {
      ghost var es0 := EntriesOf(names, slots);
      ghost var whole := DecodeFields(es0, input);
      ghost var done: seq<Entry> := [];
      var remainder := input;
      var i := 0;
      assert es0[0..] == es0;
      while i < |slots|
        invariant 0 <= i <= |slots| && |done| == i
        invariant EntriesOf(names, slots) == done + es0[i..]
        invariant whole.0 == done + DecodeFields(es0[i..], remainder).0
        invariant whole.1 == DecodeFields(es0[i..], remainder).1
      {
        assert EntriesOf(names, slots)[i] == es0[i];
        var x := DeserializeSlot(i, remainder);
        ghost var e := Entry(names[i], FieldDeserialize(es0[i].field, remainder).0);
        ReplaceNext(done, es0[i..], e);
        assert es0[i..][1..] == es0[i + 1..];
        DecodeStep(es0, i, done, remainder, whole, e.field, x);
        done := done + [e];
        if x.Err? {
          return x;
        }
        remainder := x.value;
        i := i + 1;
      }
      DecodeDone(es0, done, remainder, whole);
      r := Ok(remainder);
    }

    /**
     * `deserialize(input)`: reads the version and every field in turn, then checks the
     * padding and checksum; returns what follows them.
     */
    method Deserialize(input: seq<byte>) returns (r: Result<seq<byte>>)
      requires Valid()
      modifies Repr
      ensures (State(), r) == AreaSpec.Deserialize(old(State()), input)
    {
      var first := formatVersion.Deserialize(input);
      if first.Err? {
        return first;
      }
      var fields := DeserializeFields(first.value);
      if fields.Err? {
        return fields;
      }
      var remainder := fields.value;
      // `input[:-len(remainder)]`, which is empty when nothing remains
      var payload := if |remainder| == 0 then [] else input[..|input| - |remainder|];
      var ep := Epilogue(payload);
      var vfy := remainder[..Min(|ep|, |remainder|)];
      if ep != vfy {
        return Err(Checksum(ep, vfy));
      }
      r := Ok(remainder[|ep|..]);
    }
  }

  lemma ReplaceNext<T>(done: seq<T>, rest: seq<T>, e: T)
    requires |rest| > 0
    ensures (done + rest)[|done| := e] == (done + [e]) + rest[1..]
  {
  }

  /** One field of the decoding loop: the whole decoding in terms of what is left. */
  lemma DecodeStep(es: seq<Entry>, i: nat, done: seq<Entry>, input: seq<byte>,
                   whole: (seq<Entry>, Result<seq<byte>>), f: FieldState, x: Result<seq<byte>>)
    requires i < |es| && (f, x) == FieldDeserialize(es[i].field, input)
    requires whole.0 == done + DecodeFields(es[i..], input).0
    requires whole.1 == DecodeFields(es[i..], input).1
    ensures x.Err? ==> whole == ((done + [Entry(es[i].name, f)]) + es[i + 1..], Err(x.error))
    ensures x.Ok? ==> whole.0 == (done + [Entry(es[i].name, f)]) + DecodeFields(es[i + 1..], x.value).0
    ensures x.Ok? ==> whole.1 == DecodeFields(es[i + 1..], x.value).1
  {
    assert es[i..][0] == es[i] && es[i..][1..] == es[i + 1..];
    var head := Entry(es[i].name, f);
    if x.Err? {
      ConcatAssoc(done, [head], es[i + 1..]);
    } else {
      ConcatAssoc(done, [head], DecodeFields(es[i + 1..], x.value).0);
    }
  }

  lemma DecodeDone(es: seq<Entry>, done: seq<Entry>, input: seq<byte>, whole: (seq<Entry>, Result<seq<byte>>))
    requires whole.0 == done + DecodeFields(es[|es|..], input).0
    requires whole.1 == DecodeFields(es[|es|..], input).1
    ensures whole == (done + es[|es|..], Ok(input)) && done + es[|es|..] == done
  {
    assert es[|es|..] == [];
    assert done + [] == done;
  }

  /** One field of the size sum: `whole` is what the loop must end with. */
  lemma SizeStep(rest: seq<Entry>, total: nat, m: Result<nat>, whole: Result<nat>)
    requires |rest| > 0 && m == FieldSize(rest[0].field)
    requires whole == Plus(total, FieldsSize(rest))
    ensures m.Err? ==> whole == Err(m.error)
    ensures m.Ok? ==> whole == Plus(total + m.value, FieldsSize(rest[1..]))
  {
  }

  lemma SizeDone(es: seq<Entry>, total: nat)
    requires FieldsSize(es) == Plus(total, FieldsSize(es[|es|..]))
    ensures FieldsSize(es) == Ok(total)
  {
    assert es[|es|..] == [];
  }

  /** One field of the joined serialization. */
  lemma EncodeStep(es: seq<Entry>, i: nat, body: seq<byte>, b: Result<seq<byte>>)
    requires i < |es| && b == FieldSerialize(es[i].field)
    requires EncodeFields(es) == Prepend(body, EncodeFields(es[i..]))
    ensures b.Err? ==> EncodeFields(es) == Err(b.error)
    ensures b.Ok? ==> EncodeFields(es) == Prepend(body + b.value, EncodeFields(es[i + 1..]))
  {
    assert es[i..][0] == es[i] && es[i..][1..] == es[i + 1..];
    if b.Ok? {
      PrependPrepend(body, b.value, EncodeFields(es[i + 1..]));
    }
  }

  lemma EncodeDone(es: seq<Entry>, body: seq<byte>)
    requires EncodeFields(es) == Prepend(body, EncodeFields(es[|es|..]))
    ensures EncodeFields(es) == Ok(body)
  {
    var rest := es[|es|..];
    assert rest == [] && EncodeFields(rest) == Ok([]);
    PrependEmpty(body, EncodeFields(es));
  }
}
