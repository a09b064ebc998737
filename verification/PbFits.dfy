/** Whatever stream is decoded, the struct fits its table. */
module PbFits {
  import opened DbFormat
  import opened Varint
  import opened PbField
  import opened FieldIter
  import opened PbEncode
  import opened PbDecode
  import opened PbRoundTrip
  import opened PbRecords

  // ---------- What fits ----------

  predicate SignedFits(n: int, bytes: nat) {
    match bytes
    case 1 => -0x80 <= n < 0x80
    case 2 => -0x8000 <= n < 0x8000
    case 4 => -0x8000_0000 <= n < 0x8000_0000
    case 8 => -0x8000_0000_0000_0000 <= n < 0x8000_0000_0000_0000
    case _ => false
  }

  predicate UnsignedFits(n: int, bytes: nat) {
    match bytes
    case 1 => 0 <= n < 0x100
    case 2 => 0 <= n < 0x1_0000
    case 4 => 0 <= n < 0x1_0000_0000
    case 8 => 0 <= n < 0x1_0000_0000_0000_0000
    case _ => false
  }

  /** The C type of the field can hold the value; a text ends inside its buffer. */
  predicate FitsValue(f: Field, v: Value)
    decreases f, 0
  {
    match f.ltype
    case Bool => v == Num(0) || v == Num(1)
    case VarInt => v.Num? && SignedFits(v.n, f.dataSize)
    case UVarInt => v.Num? && UnsignedFits(v.n, f.dataSize)
    case SVarInt => v.Num? && SignedFits(v.n, f.dataSize)
    case Fixed32 => v.Num? && UnsignedFits(v.n, 4)
    case Fixed64 => v.Num? && UnsignedFits(v.n, 8)
    case ByteArray => v.Data? && |v.bytes| + BYTES_OFFSET <= f.dataSize && |v.bytes| <= PB_SIZE_MAX
    case CString => v.Data? && |v.bytes| < f.dataSize && 0 !in v.bytes
    case Submessage => v.Msg? && f.ptr.SubFields? && FitsStruct(f.ptr.fields, v.slots)
    case Extension => false
    case FixedLengthBytes => v.Data? && |v.bytes| == f.dataSize
  }

  /** An array has no more entries than it has room for; a fixed-count array has
      all its places, of which some may not have been stored in. */
  predicate FitsSlot(f: Field, slot: Slot)
    decreases f, 1
  {
    match f.htype
    case Required => slot.Single? && FitsValue(f, slot.value)
    case Optional => slot.Single? && FitsValue(f, slot.value)
    case Repeated =>
      && slot.Array? && |slot.items| <= f.arraySize && (f.FixedCount() ==> |slot.items| == f.arraySize)
      && forall k :: 0 <= k < |slot.items| ==> (f.FixedCount() && slot.items[k] == Unset) || FitsValue(f, slot.items[k])
    case Oneof => slot.Union? && (slot.which == f.tag ==> FitsValue(f, slot.value))
  }

  predicate FitsStruct(fields: seq<Field>, slots: seq<Slot>)
    decreases fields, 0
  {
    |slots| == |fields| && forall i :: 0 <= i < |fields| ==> FitsAt(fields, slots, i)
  }

  predicate FitsAt(fields: seq<Field>, slots: seq<Slot>, i: nat)
    requires i < |fields| == |slots|
    decreases fields[i], 2
  {
    !fields[i].ltype.Extension? ==> FitsSlot(fields[i], slots[Home(fields, i)])
  }

  /** The defaults of the table, and of the tables nested in it, fit. */
  predicate DefaultsFit(fields: seq<Field>)
    decreases fields, 0
  {
    forall i :: 0 <= i < |fields| ==> DefaultFitsAt(fields, i)
  }

  predicate DefaultFitsAt(fields: seq<Field>, i: nat)
    requires i < |fields|
    decreases fields[i], 1
  {
    var f := fields[i];
    && (f.ltype.Submessage? && f.ptr.SubFields? ==> DefaultsFit(f.ptr.fields))
    && (!f.ltype.Submessage? && !f.ltype.Extension? && (f.htype.Required? || f.htype.Optional?) ==>
          FitsValue(f, DefaultValue(f)))
  }

  // ---------- Defaults ----------

  lemma {:induction false} DefaultsAreFitting(fields: seq<Field>)
    requires WellFormed(fields) && DefaultsFit(fields)
    ensures FitsStruct(fields, Defaults(fields))
    decreases fields, 0
  {
    hide WellFormedField, WellFormed, FitsSlot, DefaultSlot;
    forall i | 0 <= i < |fields|
      ensures FitsAt(fields, Defaults(fields), i)
    {
      TagInRange(fields, i);
      HomeKind(fields, i);
      assert DefaultFitsAt(fields, i);
      if !fields[i].ltype.Extension? {
        DefaultFits(fields, i);
      }
    }
  }

  /** A field that is no union member has its own slot; members of a union share
      that of one of them. */
  lemma {:induction false} HomeKind(fields: seq<Field>, i: nat)
    requires WellFormed(fields) && i < |fields|
    ensures 1 <= fields[i].tag
    ensures !fields[i].htype.Oneof? ==> Home(fields, i) == i
    ensures fields[i].htype.Oneof? ==>
      var h := Home(fields, i); fields[h].htype.Oneof? && !fields[h].ltype.Extension? && Home(fields, h) == h
  {
    hide WellFormedField;
    TagInRange(fields, i);
    UnionIsNoExtension(fields[i]);
    if SharesUnion(fields, i) {
      HomeKind(fields, i - 1);
    }
  }

  lemma {:induction false} UnionIsNoExtension(f: Field)
    ensures WellFormedField(f) ==> 1 <= f.tag && (f.ltype.Extension? ==> f.htype.Optional?)
  {
  }

  lemma {:induction false} DefaultFits(fields: seq<Field>, i: nat)
    requires i < |fields| && !fields[i].ltype.Extension? && WellFormedField(fields[i]) && DefaultFitsAt(fields, i)
    requires 1 <= fields[i].tag
    requires !fields[i].htype.Oneof? ==> Home(fields, i) == i
    requires fields[i].htype.Oneof? ==>
      var h := Home(fields, i); fields[h].htype.Oneof? && !fields[h].ltype.Extension? && Home(fields, h) == h
    ensures FitsSlot(fields[i], DefaultSlot(fields, Home(fields, i)))
    decreases fields[i], 1
  {
    hide FitsStruct, DefaultsFit;
    var f := fields[i];
    if f.ltype.Submessage? {
      DefaultsAreFitting(f.ptr.fields);
    }
  }

  // ---------- Values ----------

  lemma {:induction false} ValueFits(f: Field, s: Slice, base: Value)
    requires WellFormedField(f) && DecValue(f, s, base).Some?
    requires f.ltype.Submessage? ==> DefaultsFit(f.ptr.fields)
    requires f.ltype.Submessage? && !f.htype.Repeated? && base.Msg? ==> FitsStruct(f.ptr.fields, base.slots)
    ensures FitsValue(f, DecValue(f, s, base).value.value) && DecValue(f, s, base).value.value != Unset
    decreases f, 0
  {
    hide DecMessage, FitsStruct, DefaultsFit, DecodeVarint, DecodeVarint32, Substream, DecodeFixed, ToSigned,
        UnZigZag, CastInt32;
    if f.ltype.Submessage? {
      var sub := f.ptr.fields;
      var span := Substream(s).value;
      var content := s[span.from..span.to];
      var slots := if f.htype.Repeated? || !base.Msg? then Defaults(sub) else base.slots;
      DefaultsAreFitting(sub);
      StructFits(sub, content, slots);
    } else if f.ltype.CString? {
      var span := Substream(s).value;
      TextHasNoNul(s[span.from..span.to]);
    } else if f.ltype.Fixed32? {
      FixedInRange(s[..4]);
    } else if f.ltype.Fixed64? {
      FixedInRange(s[..8]);
    }
  }

  lemma {:induction false} TextHasNoNul(b: Slice)
    ensures 0 !in Text(b)
  {
    if b != [] && b[0] != 0 {
      TextHasNoNul(b[1..]);
    }
  }

  lemma {:induction false} FixedInRange(b: Slice)
    ensures |b| == 4 ==> 0 <= DecodeFixed(b) < 0x1_0000_0000
    ensures |b| == 8 ==> 0 <= DecodeFixed(b) < 0x1_0000_0000_0000_0000
  {
    hide DecodeFixed;
    Pow256Of8();
  }

  // ---------- Arrays ----------

  /** Entries that fit, of which the first `count` are stored. */
  ghost predicate FitsEntries(f: Field, e: Entries) {
    && e.count <= f.arraySize
    && (if f.FixedCount() then |e.items| == f.arraySize else |e.items| == e.count)
    && (forall k :: 0 <= k < |e.items| ==> (f.FixedCount() && e.items[k] == Unset) || FitsValue(f, e.items[k]))
    && (forall k :: 0 <= k < e.count && k < |e.items| ==> e.items[k] != Unset)
  }

  lemma {:induction false} StoreFits(f: Field, e: Entries, v: Value)
    requires FitsEntries(f, e) && e.count < f.arraySize && FitsValue(f, v) && v != Unset
    ensures FitsEntries(f, e.Store(v)) && e.Store(v).count == e.count + 1
  {
    hide FitsValue;
  }

  lemma {:induction false} PackedFits(f: Field, s: Slice, e: Entries)
    requires WellFormedField(f) && f.ltype.Packable() && FitsEntries(f, e) && DecPacked(f, s, e).Some?
    ensures FitsEntries(f, DecPacked(f, s, e).value)
    decreases f, 1, |s|
  {
    hide DecValue, FitsEntries, FitsValue, WellFormedField;
    if s != [] {
      ValueFits(f, s, Unset);
      var got := DecValue(f, s, Unset).value;
      StoreFits(f, e, got.value);
      PackedFits(f, s[got.size..], e.Store(got.value));
    }
  }

  // ---------- Fields ----------

  /** The struct fits; of a fixed-count array that has come, all entries have been
      stored, or those counted so far if it is the one being filled. */
  ghost predicate FitsState(fields: seq<Field>, st: State, came: set<nat>) {
    && FitsStruct(fields, st.slots)
    && (st.fixedField.Some? ==>
          && st.fixedField.value < |fields| && fields[st.fixedField.value].FixedCount()
          && st.fixedCount <= fields[st.fixedField.value].arraySize)
    && forall i :: 0 <= i < |fields| && IsFixed(fields, i) ==> Stored(fields, st, i, came)
  }

  predicate IsFixed(fields: seq<Field>, i: nat) {
    i < |fields| && fields[i].FixedCount() && !fields[i].ltype.Extension?
  }

  function ItemsAt(st: State, i: nat): seq<Value> {
    if i < |st.slots| && st.slots[i].Array? then st.slots[i].items else []
  }

  ghost predicate Filled(items: seq<Value>, n: nat) {
    forall k :: 0 <= k < n && k < |items| ==> items[k] != Unset
  }

  ghost predicate Stored(fields: seq<Field>, st: State, i: nat, came: set<nat>)
    requires i < |fields|
  {
    && (st.fixedField == Some(i) ==> Filled(ItemsAt(st, i), st.fixedCount))
    && (st.fixedField != Some(i) && fields[i].tag in came ==> Filled(ItemsAt(st, i), |ItemsAt(st, i)|))
  }

  /** Putting a fitting slot where a field has its own leaves the rest fitting. */
  lemma {:induction false} SetSlotFits(fields: seq<Field>, i: nat, slots: seq<Slot>, slot: Slot)
    requires WellFormed(fields) && i < |fields| && FitsStruct(fields, slots) && FitsSlot(fields[i], slot)
    requires fields[i].htype.Oneof? ==> slot.Union? && slot.which == fields[i].tag
    ensures FitsStruct(fields, slots[Home(fields, i) := slot])
  {
    hide FitsSlot, WellFormedField;
    var h := Home(fields, i);
    var slots' := slots[h := slot];
    forall j | 0 <= j < |fields|
      ensures FitsAt(fields, slots', j)
    {
      assert FitsAt(fields, slots, j);
      if j != i && Home(fields, j) == h {
        SharedHome(fields, if i < j then i else j, if i < j then j else i);
        OtherMember(fields[j], slot);
      }
    }
  }

  lemma {:induction false} OtherMember(f: Field, slot: Slot)
    requires f.htype.Oneof? && slot.Union? && slot.which != f.tag
    ensures FitsSlot(f, slot)
  {
  }

  lemma {:induction false} FittingIsSet(f: Field, v: Value)
    requires FitsValue(f, v)
    ensures v != Unset
  {
  }

  lemma {:induction false} OldValueFits(fields: seq<Field>, i: nat, st: State)
    requires WellFormed(fields) && i < |fields| && FitsStruct(fields, st.slots)
    requires fields[i].ltype.Submessage? && !fields[i].htype.Repeated?
    requires fields[i].ptr.SubFields? && DefaultsFit(fields[i].ptr.fields)
    ensures var base := OldValue(fields, i, st); base.Msg? ==> FitsStruct(fields[i].ptr.fields, base.slots)
  {
    hide WellFormed, DefaultsFit, FitsStruct;
    TagInRange(fields, i);
    assert WellFormedField(fields[i]) ==> WellFormed(fields[i].ptr.fields);
    DefaultsAreFitting(fields[i].ptr.fields);
    FitsThere(fields, st.slots, i);
    SlotValueFits(fields[i], st.slots[Home(fields, i)]);
  }

  lemma {:induction false} SlotValueFits(f: Field, slot: Slot)
    requires f.ltype.Submessage? && !f.htype.Repeated? && FitsSlot(f, slot)
    ensures slot.Single? ==> FitsValue(f, slot.value)
    ensures slot.Union? && slot.which == f.tag ==> FitsValue(f, slot.value)
    ensures slot.Union? ==> f.htype.Oneof?
  {
    hide FitsValue;
  }

  lemma {:induction false} FitsThere(fields: seq<Field>, slots: seq<Slot>, i: nat)
    requires i < |fields|
    ensures FitsStruct(fields, slots) ==> |slots| == |fields| && FitsAt(fields, slots, i)
  {
  }

  /** What is in an array the decoder is about to add to. */
  lemma {:induction false} EntriesFit(fields: seq<Field>, i: nat, st: State, came: set<nat>)
    requires WellFormed(fields) && i < |fields| && FitsState(fields, st, came)
    requires fields[i].htype.Repeated? && !fields[i].ltype.Extension?
        && (fields[i].FixedCount() ==> st.fixedField == Some(i))
    ensures FitsEntries(fields[i], EntriesOf(fields, i, st))
  {
    hide WellFormed, FitsValue, FitsStruct;
    FitsThere(fields, st.slots, i);
    HomeKind(fields, i);
    var f, items := fields[i], st.slots[i].items;
    forall k | 0 <= k < |items| && FitsValue(f, items[k])
      ensures items[k] != Unset
    {
      FittingIsSet(f, items[k]);
    }
    assert IsFixed(fields, i) ==> Stored(fields, st, i, came);
  }

  lemma {:induction false} EnterFits(fields: seq<Field>, i: nat, st: State, came: set<nat>)
    requires WellFormed(fields) && i < |fields| && FitsState(fields, st, came) && Enter(fields, i, st).Some?
    requires !fields[i].ltype.Extension?
    ensures var entered := Enter(fields, i, st).value;
      && FitsState(fields, entered, came) && entered.slots == st.slots
      && (fields[i].FixedCount() ==> entered.fixedField == Some(i))
      && (!fields[i].FixedCount() ==> entered.fixedField == st.fixedField && entered.fixedCount == st.fixedCount)
  {
    hide WellFormed, FitsStruct, FitsSlot;
    var entered := Enter(fields, i, st).value;
    forall j | 0 <= j < |fields| && IsFixed(fields, j)
      ensures Stored(fields, entered, j, came)
    {
      assert Stored(fields, st, j, came);
      FixedShape(fields, st.slots, j);
    }
  }

  lemma {:induction false} FixedShape(fields: seq<Field>, slots: seq<Slot>, j: nat)
    requires WellFormed(fields) && FitsStruct(fields, slots) && IsFixed(fields, j)
    ensures |slots| == |fields| && slots[j].Array? && |slots[j].items| == fields[j].arraySize && Home(fields, j) == j
  {
    hide WellFormed, FitsStruct, FitsValue;
    FitsThere(fields, slots, j);
    HomeKind(fields, j);
  }

  /** Another field's slot is that of no fixed-count array. */
  lemma {:induction false} OthersStored(fields: seq<Field>, i: nat, st: State, st': State, came: set<nat>, slot: Slot)
    requires WellFormed(fields) && i < |fields| && FitsState(fields, st, came) && !fields[i].FixedCount()
    requires !fields[i].ltype.Extension? && |st.slots| == |fields|
    requires st'.fixedField == st.fixedField && st'.fixedCount == st.fixedCount
        && st'.slots == st.slots[Home(fields, i) := slot]
    ensures forall j :: 0 <= j < |fields| && IsFixed(fields, j) ==> Stored(fields, st', j, came + {fields[i].tag})
  {
    hide WellFormed, FitsStruct;
    forall j | 0 <= j < |fields| && IsFixed(fields, j)
      ensures Stored(fields, st', j, came + {fields[i].tag})
    {
      assert Stored(fields, st, j, came);
      HomeKind(fields, i);
      HomeKind(fields, j);
      DistinctTag(fields, i, j);
    }
  }

  lemma {:induction false} DistinctTag(fields: seq<Field>, i: nat, j: nat)
    requires WellFormed(fields) && i < |fields| && j < |fields| && i != j
    ensures fields[i].tag != fields[j].tag
  {
    hide WellFormedField;
  }

  lemma {:induction false} ArrayFits(fields: seq<Field>, i: nat, st: State, came: set<nat>, e: Entries)
    requires WellFormed(fields) && i < |fields| && FitsState(fields, st, came) && FitsEntries(fields[i], e)
    requires fields[i].htype.Repeated? && !fields[i].ltype.Extension?
        && (fields[i].FixedCount() ==> st.fixedField == Some(i))
    ensures FitsState(fields, SetEntries(fields, i, st, e), came + {fields[i].tag})
  {
    hide WellFormed, FitsStruct, FitsValue;
    var st' := SetEntries(fields, i, st, e);
    FitsThere(fields, st.slots, i);
    HomeKind(fields, i);
    SetSlotFits(fields, i, st.slots, Array(e.items));
    if fields[i].FixedCount() {
      forall j | 0 <= j < |fields| && IsFixed(fields, j)
        ensures Stored(fields, st', j, came + {fields[i].tag})
      {
        assert Stored(fields, st, j, came);
        if j != i {
          DistinctTag(fields, i, j);
        }
      }
    } else {
      OthersStored(fields, i, st, st', came, Array(e.items));
    }
  }

  lemma {:induction false} SingularFits(fields: seq<Field>, i: nat, st: State, came: set<nat>, slot: Slot)
    requires WellFormed(fields) && i < |fields| && FitsState(fields, st, came)
    requires !fields[i].htype.Repeated? && !fields[i].ltype.Extension? && FitsSlot(fields[i], slot)
    requires fields[i].htype.Oneof? ==> slot.Union? && slot.which == fields[i].tag
    ensures FitsState(fields, SetSlot(fields, i, st, slot), came + {fields[i].tag})
  {
    hide WellFormed, FitsStruct, FitsSlot, Stored;
    FitsThere(fields, st.slots, i);
    SetSlotFits(fields, i, st.slots, slot);
    OthersStored(fields, i, st, SetSlot(fields, i, st, slot), came, slot);
  }

  lemma {:induction false} StaticFits(fields: seq<Field>, i: nat, wireType: nat, s: Slice, st: State, came: set<nat>)
    requires WellFormed(fields) && DefaultsFit(fields) && i < |fields| && FitsState(fields, st, came)
    requires !fields[i].ltype.Extension? && (fields[i].FixedCount() ==> st.fixedField == Some(i))
    requires DecStatic(fields, i, wireType, s, st).Some?
    ensures FitsState(fields, DecStatic(fields, i, wireType, s, st).value.state, came + {fields[i].tag})
    decreases fields, 1
  {
    hide WellFormed, DefaultsFit, FitsState, FitsValue, FitsEntries, DecValue, DecPacked, Substream, OldValue,
        EntriesOf,
        SetEntries, SetSlot, WellFormedField;
    var f := fields[i];
    TagInRange(fields, i);
    assert FitsState(fields, st, came) ==> FitsStruct(fields, st.slots) by { StructOfState(fields, st, came); }
    NestedDefaults(fields, i);
    if f.htype.Repeated? {
      EntriesFit(fields, i, st, came);
      var e := EntriesOf(fields, i, st);
      if wireType == WT_STRING && f.ltype.Packable() {
        var span := Substream(s).value;
        PackedFits(f, s[span.from..span.to], e);
        ArrayFits(fields, i, st, came, DecPacked(f, s[span.from..span.to], e).value);
      } else {
        ValueFits(f, s, Unset);
        var got := DecValue(f, s, Unset).value;
        StoreFits(f, e, got.value);
        ArrayFits(fields, i, st, came, e.Store(got.value));
      }
    } else {
      if f.ltype.Submessage? {
        OldValueFits(fields, i, st);
      }
      ValueFits(f, s, OldValue(fields, i, st));
      var got := DecValue(f, s, OldValue(fields, i, st)).value;
      SingularFits(fields, i, st, came, if f.htype.Oneof? then Union(f.tag, got.value) else Single(true, got.value));
    }
  }

  lemma {:induction false} StructOfState(fields: seq<Field>, st: State, came: set<nat>)
    requires FitsState(fields, st, came)
    ensures FitsStruct(fields, st.slots)
  {
  }

  lemma {:induction false} NestedDefaults(fields: seq<Field>, i: nat)
    requires WellFormed(fields) && DefaultsFit(fields) && i < |fields|
    ensures fields[i].ltype.Submessage? ==> fields[i].ptr.SubFields? && DefaultsFit(fields[i].ptr.fields)
  {
    hide WellFormed;
    TagInRange(fields, i);
    assert DefaultFitsAt(fields, i);
  }

  lemma {:induction false} RecordFits(fields: seq<Field>, tag: nat, wireType: nat, s: Slice, st: State, came: set<nat>)
    requires WellFormed(fields) && DefaultsFit(fields) && FitsState(fields, st, came)
    requires DecRecord(fields, tag, wireType, s, st).Some?
    ensures FitsState(fields, DecRecord(fields, tag, wireType, s, st).value.state, came + {tag})
    decreases fields, 2
  {
    hide WellFormed, DefaultsFit, FitsStruct, DecStatic, SkipField, DecodeVarint32, Enter, FitsState;
    var found := FindField(fields, tag, 0);
    if found.Some? {
      EnterFits(fields, found.value, st, came);
      StaticFits(fields, found.value, wireType, s, Enter(fields, found.value, st).value, came);
    } else {
      NothingCame(fields, tag, st, DecRecord(fields, tag, wireType, s, st).value.state, came);
    }
  }

  lemma {:induction false} NothingCame(fields: seq<Field>, tag: nat, st: State, st': State, came: set<nat>)
    requires FitsState(fields, st, came) && FindField(fields, tag, 0).None?
    requires st'.slots == st.slots && st'.fixedField == st.fixedField && st'.fixedCount == st.fixedCount
    ensures FitsState(fields, st', came + {tag})
  {
    hide FitsStruct, Stored;
    forall i | 0 <= i < |fields| && IsFixed(fields, i)
      ensures Stored(fields, st', i, came + {tag})
    {
      assert !Answers(fields[i], tag);
      SameStored(fields, tag, st, st', i, came);
    }
  }

  lemma SameStored(fields: seq<Field>, tag: nat, st: State, st': State, i: nat, came: set<nat>)
    requires i < |fields| && Stored(fields, st, i, came) && fields[i].tag != tag
    requires st'.slots == st.slots && st'.fixedField == st.fixedField && st'.fixedCount == st.fixedCount
    ensures Stored(fields, st', i, came + {tag})
  {
  }

  lemma {:induction false} LoopFits(fields: seq<Field>, s: Slice, st: State, came: set<nat>)
    requires WellFormed(fields) && DefaultsFit(fields) && FitsState(fields, st, came) && DecLoop(fields, s, st).Some?
    ensures FitsState(fields, DecLoop(fields, s, st).value, came + Numbers(fields, s))
    decreases fields, 3, |s|
  {
    hide WellFormed, DefaultsFit, FitsState, DecTag, DecRecord, RecordSize;
    var r := DecTag(s);
    if r.Tag? {
      var step := DecRecord(fields, r.tag, r.wireType, s[r.size..], st).value;
      RecordTakes(fields, r.tag, r.wireType, s[r.size..], st);
      RecordFits(fields, r.tag, r.wireType, s[r.size..], st, came);
      LoopFits(fields, s[r.size + step.size..], step.state, came + {r.tag});
      assert came + {r.tag} + Numbers(fields, s[r.size + step.size..]) == came + Numbers(fields, s);
    } else {
      assert came + {} == came;
    }
  }

  /** Whatever the stream, decoding it into a struct that fits its table gives one
      that fits: arrays within their size, numbers within their type, byte strings
      and texts within their buffers, in nested structs too. */
  lemma {:induction false} StructFits(fields: seq<Field>, s: Slice, slots: seq<Slot>)
    requires WellFormed(fields) && DefaultsFit(fields) && FitsStruct(fields, slots)
    ensures var r := DecMessage(fields, s, slots); r.Some? ==> FitsStruct(fields, r.value)
    decreases fields, 4
  {
    hide WellFormed, DefaultsFit, FitsStruct, DecLoop, Complete;
    var st := State(slots, {}, None, 0);
    if DecLoop(fields, s, st).Some? {
      assert FitsState(fields, st, {});
      LoopFits(fields, s, st, {});
      StructOfState(fields, DecLoop(fields, s, st).value, {} + Numbers(fields, s));
    }
  }

  /** And so from defaults that fit. */
  lemma {:induction false} DecodedFits(fields: seq<Field>, s: Slice)
    requires WellFormed(fields) && DefaultsFit(fields)
    ensures var r := Decode(fields, s); r.Some? ==> FitsStruct(fields, r.value)
  {
    hide WellFormed, DefaultsFit, FitsStruct, DecMessage;
    DefaultsAreFitting(fields);
    StructFits(fields, s, Defaults(fields));
  }

  /** A fixed-count array of which an entry comes has all its entries stored, or
      decoding fails. */
  lemma {:induction false} FixedArraysAreFull(fields: seq<Field>, s: Slice, slots: seq<Slot>, i: nat)
    requires WellFormed(fields) && DefaultsFit(fields) && FitsStruct(fields, slots) && IsFixed(fields, i)
    requires fields[i].tag in Numbers(fields, s) && DecMessage(fields, s, slots).Some?
    ensures var r := DecMessage(fields, s, slots).value;
      && |r| == |fields| && r[i].Array? && |r[i].items| == fields[i].arraySize
      && forall k :: 0 <= k < |r[i].items| ==> r[i].items[k] != Unset
  {
    hide WellFormed, DefaultsFit, FitsStruct, DecLoop, Numbers;
    var st := State(slots, {}, None, 0);
    assert FitsState(fields, st, {});
    LoopFits(fields, s, st, {});
    var end := DecLoop(fields, s, st).value;
    assert {} + Numbers(fields, s) == Numbers(fields, s);
    FixedShape(fields, end.slots, i);
    assert Stored(fields, end, i, Numbers(fields, s));
  }
}
