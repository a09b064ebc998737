/** Fields that a stream does not bring keep what the struct had, which is the
    table's default when the struct was made for it. */
module PbAbsent {
  import opened DbFormat
  import opened PbField
  import opened FieldIter
  import opened PbEncode
  import opened PbDecode
  import opened PbRoundTrip
  import opened PbRecords

  // ---------- Slots that are not touched ----------

  /** No field that uses the slot comes. */
  ghost predicate NoneComes(fields: seq<Field>, h: nat, numbers: set<nat>) {
    forall i :: 0 <= i < |fields| && Home(fields, i) == h ==> fields[i].tag !in numbers
  }

  lemma {:induction false} RecordKeepsSlot(fields: seq<Field>, tag: nat, wireType: nat, s: Slice, st: State, h: nat)
    requires DecRecord(fields, tag, wireType, s, st).Some? && h < |st.slots| && NoneComes(fields, h, {tag})
    ensures var st' := DecRecord(fields, tag, wireType, s, st).value.state;
      |st'.slots| == |st.slots| && st'.slots[h] == st.slots[h]
  {
    hide DecValue, DecPacked, Substream, SkipField, EntriesOf, OldValue;
    var found := FindField(fields, tag, 0);
    if found.Some? {
      assert Answers(fields[found.value], tag);
      assert Home(fields, found.value) != h;
    }
  }

  lemma {:induction false} LoopKeepsSlot(fields: seq<Field>, s: Slice, st: State, h: nat)
    requires h < |st.slots| && NoneComes(fields, h, Numbers(fields, s)) && DecLoop(fields, s, st).Some?
    ensures var end := DecLoop(fields, s, st).value; |end.slots| == |st.slots| && end.slots[h] == st.slots[h]
    decreases |s|
  {
    hide DecTag, DecRecord, RecordSize;
    var r := DecTag(s);
    if r.Tag? {
      var step := DecRecord(fields, r.tag, r.wireType, s[r.size..], st).value;
      RecordTakes(fields, r.tag, r.wireType, s[r.size..], st);
      RecordKeepsSlot(fields, r.tag, r.wireType, s[r.size..], st, h);
      LoopKeepsSlot(fields, s[r.size + step.size..], step.state, h);
    }
  }

  /** Decoding into a struct leaves the slots alone of whose fields none comes. */
  lemma {:induction false} AbsentFieldsAreKept(fields: seq<Field>, s: Slice, slots: seq<Slot>, h: nat)
    requires h < |slots| && NoneComes(fields, h, Numbers(fields, s)) && DecMessage(fields, s, slots).Some?
    ensures var r := DecMessage(fields, s, slots).value; |r| == |slots| && r[h] == slots[h]
  {
    hide DecLoop, Complete, Numbers;
    LoopKeepsSlot(fields, s, State(slots, {}, None, 0), h);
  }

  // ---------- Defaults ----------

  /** The value that the table gives the field: its default, or zero, an empty
      string or text, all zero bytes, a nested struct of defaults. */
  ghost predicate IsTableDefault(f: Field, v: Value)
    decreases f, 0
  {
    match f.ptr
    case Default(d) => v == d
    case SubFields(sub) => v.Msg? && IsDefaultStruct(sub, v.slots)
    case Null =>
      if f.ltype.ByteArray? || f.ltype.CString? then v == Data([])
      else if f.ltype.FixedLengthBytes? then v.Data? && |v.bytes| == f.dataSize && forall b :: b in v.bytes ==> b == 0
      else v == Num(0)
  }

  /** Optional fields with a flag are not set, counted arrays are empty, unions have
      no active member. */
  ghost predicate IsDefaultStruct(fields: seq<Field>, slots: seq<Slot>)
    decreases fields, 0
  {
    |slots| == |fields| && forall i :: 0 <= i < |fields| ==> IsDefaultAt(fields, slots, i)
  }

  ghost predicate IsDefaultAt(fields: seq<Field>, slots: seq<Slot>, i: nat)
    requires i < |fields| == |slots|
    decreases fields[i], 1
  {
    var f, slot := fields[i], slots[i];
    if f.ltype.Extension? || Home(fields, i) != i then true
    else match f.htype
      case Required => slot.Single? && IsTableDefault(f, slot.value)
      case Optional => slot.Single? && (f.sizeOffset != 0 ==> !slot.has) && IsTableDefault(f, slot.value)
      case Repeated => slot.Array? && (f.sizeOffset != 0 ==> slot.items == [])
      case Oneof => slot.Union? && slot.which == 0
  }

  lemma {:induction false} DefaultsAreTheTables(fields: seq<Field>)
    ensures IsDefaultStruct(fields, Defaults(fields))
    decreases fields, 0
  {
    forall i | 0 <= i < |fields|
      ensures IsDefaultAt(fields, Defaults(fields), i)
    {
      ValueIsTheTables(fields[i]);
    }
  }

  lemma {:induction false} ValueIsTheTables(f: Field)
    ensures IsTableDefault(f, DefaultValue(f))
    decreases f, 1
  {
    hide IsDefaultStruct;
    if f.ptr.SubFields? {
      DefaultsAreTheTables(f.ptr.fields);
    }
  }

  /** After decoding into a new struct, what did not come reads as the table says:
      with its flag not set, and with the table's default in it all the same. */
  lemma {:induction false} AbsentFieldsAreDefault(fields: seq<Field>, s: Slice, i: nat)
    requires i < |fields| && NoneComes(fields, i, Numbers(fields, s)) && Decode(fields, s).Some?
    ensures var r := Decode(fields, s).value; |r| == |fields| && IsDefaultAt(fields, r, i)
  {
    hide DecMessage, Numbers, IsTableDefault, DefaultValue;
    DefaultsAreTheTables(fields);
    AbsentFieldsAreKept(fields, s, Defaults(fields), i);
    assert IsDefaultStruct(fields, Defaults(fields)) ==> IsDefaultAt(fields, Defaults(fields), i);
  }
}
