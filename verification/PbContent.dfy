/** A decoded message has the same content as the struct that was encoded. */
module PbContent {
  import opened DbFormat
  import opened Varint
  import opened PbField
  import opened PbEncode
  import opened PbDecode
  import opened PbRoundTrip

  // ---------- Content ----------

  /** What a reader of the struct can tell about a datum: whether a bool is set,
      the text of a character buffer, the content of a nested struct. */
  predicate SameValue(f: Field, v: Value, w: Value)
    decreases f, 0
  {
    match f.ltype
    case Bool => v == Num(0) <==> w == Num(0)
    case CString => v.Data? && w.Data? && Text(v.bytes) == Text(w.bytes)
    case Submessage => v.Msg? && w.Msg? && f.ptr.SubFields? && SameContent(f.ptr.fields, v.slots, w.slots)
    case FixedLengthBytes => f.dataSize == 0 || v == w
    case _ => v == w
  }

  /** The same has-flag, the same entries, the same union member or another one in
      both, and the same values where there are any. */
  predicate SameSlot(f: Field, a: Slot, b: Slot)
    decreases f, 1
  {
    if f.ltype.Extension? then true
    else match f.htype
      case Required => a.Single? && b.Single? && SameValue(f, a.value, b.value)
      case Optional =>
        a.Single? && b.Single? &&
        if f.sizeOffset != 0 then a.has == b.has
            && (a.has ==> SameValue(f, a.value, b.value)) else SameValue(f, a.value, b.value)
      case Repeated =>
        a.Array? && b.Array? && |a.items| == |b.items| && forall k :: 0 <= k < |a.items| ==>
            SameValue(f, a.items[k], b.items[k])
      case Oneof =>
        a.Union? && b.Union? && (a.which == f.tag <==> b.which == f.tag)
            && (a.which == f.tag ==> SameValue(f, a.value, b.value))
  }

  predicate SameContent(fields: seq<Field>, a: seq<Slot>, b: seq<Slot>)
    decreases fields, 0
  {
    forall i :: 0 <= i < |fields| ==> SameAt(fields, a, b, i)
  }

  predicate SameAt(fields: seq<Field>, a: seq<Slot>, b: seq<Slot>, i: nat)
    requires i < |fields|
    decreases fields[i], 2
  {
    var h := Home(fields, i);
    h < |a| && h < |b| && SameSlot(fields[i], a[h], b[h])
  }

  // ---------- Zeros that are not sent ----------

  /** An optional field without a has-flag, of which a zero is not sent. */
  predicate Flagless(f: Field) {
    f.htype.Optional? && f.sizeOffset == 0 && !f.ltype.Extension?
  }

  /** The table gives the field no default but zero. */
  predicate ZeroDefault(f: Field)
    decreases f, 0
  {
    match f.ltype
    case Submessage => f.ptr.SubFields? && ZeroDefaults(f.ptr.fields)
    case FixedLengthBytes => true
    case ByteArray => f.ptr == Null || f.ptr == Default(Data([]))
    case CString => f.ptr == Null || (f.ptr.Default? && f.ptr.value.Data? && Text(f.ptr.value.bytes) == [])
    case _ => f.ptr == Null || f.ptr == Default(Num(0))
  }

  predicate ZeroDefaults(fields: seq<Field>)
    decreases fields, 0
  {
    forall i :: 0 <= i < |fields| ==> ZeroDefaultAt(fields, i)
  }

  predicate ZeroDefaultAt(fields: seq<Field>, i: nat)
    requires i < |fields|
    decreases fields[i], 1
  {
    Flagless(fields[i]) ==> ZeroDefault(fields[i])
  }

  predicate ZerosInValue(f: Field, v: Value)
    decreases f, 0
  {
    f.ltype.Submessage? && f.ptr.SubFields? && v.Msg? ==> ZerosRestored(f.ptr.fields, v.slots)
  }

  predicate ZerosInSlot(f: Field, slot: Slot)
    decreases f, 1
  {
    if f.ltype.Extension? then true
    else match f.htype
      case Required => slot.Single? ==> ZerosInValue(f, slot.value)
      case Optional =>
        slot.Single? ==>
          if f.sizeOffset != 0 then slot.has ==> ZerosInValue(f, slot.value)
          else if IsZero(f, slot.value) then ZeroDefault(f)
          else ZerosInValue(f, slot.value)
      case Repeated => slot.Array? ==> forall k :: 0 <= k < |slot.items| ==> ZerosInValue(f, slot.items[k])
      case Oneof => slot.Union? && slot.which == f.tag ==> ZerosInValue(f, slot.value)
  }

  /** Wherever the struct, or a nested struct that is sent, stores a zero in a
      field without a has-flag, zero is that field's default. */
  predicate ZerosRestored(fields: seq<Field>, slots: seq<Slot>)
    decreases fields, 0
  {
    forall i :: 0 <= i < |fields| ==> ZerosAt(fields, slots, i)
  }

  predicate ZerosAt(fields: seq<Field>, slots: seq<Slot>, i: nat)
    requires i < |fields|
    decreases fields[i], 2
  {
    Home(fields, i) < |slots| ==> ZerosInSlot(fields[i], slots[Home(fields, i)])
  }

  // ---------- Fields that are not sent ----------

  /** A zero has the content of the default exactly if the default is zero. */
  lemma {:induction false} ZeroContent(f: Field, v: Value)
    requires WellFormedField(f) && Flagless(f) && IsZero(f, v)
    ensures SameValue(f, v, DefaultValue(f)) <==> ZeroDefault(f)
    decreases f, 0
  {
    hide SameContent, ZeroDefaults, Text;
    if f.ltype.Submessage? {
      ZeroStructContent(f.ptr.fields, v.slots);
    } else if f.ltype.CString? {
      NoText();
    }
  }

  lemma NoText()
    ensures Text([]) == []
  {
  }

  lemma {:induction false} ZeroStructContent(fields: seq<Field>, slots: seq<Slot>)
    requires WellFormed(fields) && AllDefault(fields, slots, 0)
    ensures SameContent(fields, slots, Defaults(fields)) <==> ZeroDefaults(fields)
    decreases fields, 0
  {
    hide AllDefault, WellFormed, DefaultSlot, SameSlot, ZeroDefault;
    forall i | 0 <= i < |fields|
      ensures SameAt(fields, slots, Defaults(fields), i) <==> ZeroDefaultAt(fields, i)
    {
      EachDefault(fields, slots, 0, i);
      UnsentContent(fields, slots[Home(fields, i)], i);
    }
  }

  lemma {:induction false} EachDefault(fields: seq<Field>, slots: seq<Slot>, from: nat, i: nat)
    requires AllDefault(fields, slots, from) && from <= i < |fields|
    ensures Home(fields, i) < |slots| && IsDefault(fields[i], slots[Home(fields, i)])
    decreases i - from
  {
    hide IsDefault;
    if from < i {
      EachDefault(fields, slots, from + 1, i);
    }
  }

  /** A field the encoder takes for unset has the content of its default, unless it
      is a zero and the default is not. */
  lemma {:induction false} UnsentContent(fields: seq<Field>, slot: Slot, i: nat)
    requires WellFormed(fields) && i < |fields| && IsDefault(fields[i], slot)
    ensures SameSlot(fields[i], slot, DefaultSlot(fields, Home(fields, i)))
        <==> (Flagless(fields[i]) ==> ZeroDefault(fields[i]))
    decreases fields[i], 1
  {
    hide SameValue, DefaultValue, ZeroDefault, IsZero, WellFormedField;
    TagInRange(fields, i);
    HomeOfUnion(fields, i);
    var f := fields[i];
    if Flagless(f) {
      ZeroContent(f, slot.value);
    }
  }

  /** Only members of a union share a slot. */
  lemma {:induction false} HomeOfUnion(fields: seq<Field>, i: nat)
    requires WellFormed(fields) && i < |fields|
    ensures 1 <= fields[i].tag
    ensures !fields[i].htype.Oneof? ==> Home(fields, i) == i
    ensures fields[i].htype.Oneof? ==>
      var h := Home(fields, i); fields[h].htype.Oneof? && !fields[h].ltype.Extension? && Home(fields, h) == h
  {
    hide WellFormedField;
    TagInRange(fields, i);
    assert WellFormedField(fields[i]) ==>
        && 1 <= fields[i].tag
        && (fields[i].ltype.Extension? ==> fields[i].htype.Optional?) by {
      FieldKinds(fields[i]);
    }
    if SharesUnion(fields, i) {
      HomeOfUnion(fields, i - 1);
    }
  }

  lemma {:induction false} FieldKinds(f: Field)
    ensures WellFormedField(f) ==> 1 <= f.tag && (f.ltype.Extension? ==> f.htype.Optional?)
  {
  }

  // ---------- Fields that are sent ----------

  lemma {:induction false} ValueContent(f: Field, v: Value)
    requires WellFormedField(f) && EncValue(f, v).Some?
    ensures SameValue(f, v, Restored(f, v)) <==> ZerosInValue(f, v)
    decreases f, 0
  {
    hide SameContent, ZerosRestored, EncMessage, Text;
    if f.ltype.Submessage? {
      EncodedShape(f.ptr.fields, v.slots);
      SameContentIff(f.ptr.fields, v.slots);
    } else if f.ltype.CString? {
      TextOfText(v.bytes);
    }
  }

  lemma {:induction false} EncodedShape(fields: seq<Field>, slots: seq<Slot>)
    requires EncMessage(fields, slots).Some?
    ensures |slots| == |fields|
  {
  }

  lemma {:induction false} ArrayContent(f: Field, items: seq<Value>)
    requires WellFormedField(f) && forall k :: 0 <= k < |items| ==> EncValue(f, items[k]).Some?
    ensures (forall k :: 0 <= k < |items| ==> SameValue(f, items[k], RestoredItems(f, items)[k]))
       <==> (forall k :: 0 <= k < |items| ==> ZerosInValue(f, items[k]))
    decreases f, 1
  {
    hide SameValue, ZerosInValue, WellFormedField, EncValue, Restored;
    forall k | 0 <= k < |items|
      ensures SameValue(f, items[k], RestoredItems(f, items)[k]) <==> ZerosInValue(f, items[k])
    {
      ValueContent(f, items[k]);
    }
  }

  lemma {:induction false} EachPacked(f: Field, items: seq<Value>, k: nat)
    requires EncPacked(f, items).Some? && k < |items|
    ensures EncValue(f, items[k]).Some?
    decreases k
  {
    hide EncValue;
    if k > 0 {
      EachPacked(f, items[1..], k - 1);
    }
  }

  lemma {:induction false} EachUnpacked(f: Field, items: seq<Value>, k: nat)
    requires EncUnpacked(f, items).Some? && k < |items|
    ensures EncValue(f, items[k]).Some?
    decreases k
  {
    hide EncValue;
    if k > 0 {
      EachUnpacked(f, items[1..], k - 1);
    }
  }

  lemma {:induction false} EachItem(f: Field, items: seq<Value>)
    requires f.htype.Repeated? && !f.ltype.Extension? && EncField(f, Array(items)).Some?
    ensures forall k :: 0 <= k < |items| ==> EncValue(f, items[k]).Some?
  {
    hide EncValue, EncPacked, EncUnpacked;
    forall k | 0 <= k < |items|
      ensures EncValue(f, items[k]).Some?
    {
      if f.ltype.Packable() {
        EachPacked(f, items, k);
      } else {
        EachUnpacked(f, items, k);
      }
    }
  }

  /** A field that is sent has its content back, if the zeros in it do. */
  lemma {:induction false} SentContent(f: Field, slot: Slot)
    requires WellFormedField(f) && Present(f, slot) && EncField(f, slot).Some?
    ensures SameSlot(f, slot, RestoredSlot(f, slot)) <==> ZerosInSlot(f, slot)
    decreases f, 2
  {
    hide SameValue, ZerosInValue, WellFormedField, EncValue, Restored, RestoredItems, EncArray;
    if f.htype.Repeated? {
      EachItem(f, slot.items);
      ArrayContent(f, slot.items);
    } else {
      ValueContent(f, slot.value);
    }
  }

  // ---------- The message ----------

  /** The restored slot of a field that is not sent: its default, or another
      member of its union. */
  lemma {:induction false} UnsentSlot(fields: seq<Field>, slots: seq<Slot>, i: nat)
    requires WellFormed(fields) && |slots| == |fields| && i < |fields|
    requires !Present(fields[i], slots[Home(fields, i)])
    ensures var r := RestoredMessage(fields, slots)[Home(fields, i)];
      r == DefaultSlot(fields, Home(fields, i)) || (fields[i].htype.Oneof? && r.Union? && r.which != fields[i].tag)
  {
    hide Present, RestoredUpTo, WellFormedField, DefaultSlot, Restored;
    var h := Home(fields, i);
    if j :| h <= j < |fields| && Home(fields, j) == h && Present(fields[j], slots[h]) {
      RestoredAt(fields, slots, |fields|, j);
      SharedHome(fields, if i < j then i else j, if i < j then j else i);
      PresentUnion(fields[j], slots[h]);
      assert fields[i].tag != fields[j].tag;
    } else {
      DefaultAt(fields, slots, |fields|, h);
    }
  }

  lemma PresentUnion(f: Field, slot: Slot)
    requires Present(f, slot) && f.htype.Oneof?
    ensures slot.Union?
  {
  }

  lemma {:induction false} FieldContent(fields: seq<Field>, slots: seq<Slot>, i: nat)
    requires WellFormed(fields) && |slots| == |fields| && i < |fields|
    requires EncField(fields[i], slots[Home(fields, i)]).Some?
    ensures SameAt(fields, slots, RestoredMessage(fields, slots), i) <==> ZerosAt(fields, slots, i)
    decreases fields[i], 3
  {
    hide SameValue, ZerosInValue, ZeroDefault, WellFormedField, RestoredUpTo, EncTagged, EncArray, RestoredSlot, IsZero;
    var f, h := fields[i], Home(fields, i);
    TagInRange(fields, i);
    HomeOfUnion(fields, i);
    if Present(f, slots[h]) {
      RestoredFields(fields, slots, i);
      SentContent(f, slots[h]);
    } else {
      UnsentSlot(fields, slots, i);
      if Flagless(f) {
        UnsentContent(fields, slots[h], i);
      }
    }
  }

  lemma {:induction false} EachField(fields: seq<Field>, slots: seq<Slot>, from: nat, i: nat)
    requires |slots| == |fields| && EncFrom(fields, slots, from).Some? && from <= i < |fields|
    ensures EncField(fields[i], slots[Home(fields, i)]).Some?
    decreases i - from
  {
    hide EncField;
    if from < i {
      EachField(fields, slots, from + 1, i);
    }
  }

  /** The restored message has the content of the struct if and only if no zero
      is stored in a flagless field whose default is not zero. */
  lemma {:induction false} SameContentIff(fields: seq<Field>, slots: seq<Slot>)
    requires WellFormed(fields) && |slots| == |fields| && EncMessage(fields, slots).Some?
    ensures SameContent(fields, slots, RestoredMessage(fields, slots)) <==> ZerosRestored(fields, slots)
    decreases fields, 0
  {
    hide WellFormed, EncFrom, SameAt, ZerosAt, RestoredMessage;
    forall i | 0 <= i < |fields|
      ensures SameAt(fields, slots, RestoredMessage(fields, slots), i) <==> ZerosAt(fields, slots, i)
    {
      EachField(fields, slots, 0, i);
      FieldContent(fields, slots, i);
    }
  }

  /** Exactly when decoding what was encoded gives a struct of the same content. */
  lemma {:induction false} DecodeKeepsContentIff(fields: seq<Field>, slots: seq<Slot>)
    requires WellFormed(fields) && |slots| == |fields|
    requires EncMessage(fields, slots).Some? && |EncMessage(fields, slots).value| < TWO_63
    ensures var r := Decode(fields, EncMessage(fields, slots).value);
      r.Some? && SameContent(fields, slots, r.value) <==> Readable(fields, slots, 0) && ZerosRestored(fields, slots)
  {
    hide WellFormed, EncMessage, Decode, Readable, SameContent, ZerosRestored, RestoredMessage;
    RoundTrip(fields, slots);
    SameContentIff(fields, slots);
  }

  // ---------- Tables ----------

  /** No flagless field of the table, or of a table nested in it, has a default
      other than zero. */
  predicate OnlyZeroDefaults(fields: seq<Field>)
    decreases fields, 0
  {
    forall i :: 0 <= i < |fields| ==> OnlyZeroDefaultsAt(fields, i)
  }

  predicate OnlyZeroDefaultsAt(fields: seq<Field>, i: nat)
    requires i < |fields|
    decreases fields[i], 1
  {
    var f := fields[i];
    && (f.ltype.Submessage? && f.ptr.SubFields? ==> OnlyZeroDefaults(f.ptr.fields))
    && (Flagless(f) && !f.ltype.Submessage? ==> ZeroDefault(f))
  }

  lemma {:induction false} TableIsZeroDefault(fields: seq<Field>)
    requires WellFormed(fields) && OnlyZeroDefaults(fields)
    ensures ZeroDefaults(fields)
    decreases fields, 0
  {
    hide WellFormed, ZeroDefault;
    forall i | 0 <= i < |fields|
      ensures ZeroDefaultAt(fields, i)
    {
      TagInRange(fields, i);
      assert OnlyZeroDefaultsAt(fields, i);
      if Flagless(fields[i]) && fields[i].ltype.Submessage? {
        NestedIsZeroDefault(fields[i]);
      }
    }
  }

  lemma {:induction false} NestedIsZeroDefault(f: Field)
    requires WellFormedField(f) && f.ltype.Submessage? && OnlyZeroDefaults(f.ptr.fields)
    ensures ZeroDefault(f)
    decreases f, 1
  {
    TableIsZeroDefault(f.ptr.fields);
  }

  /** With such a table every struct has its zeros back. */
  lemma {:induction false} TableRestoresZeros(fields: seq<Field>, slots: seq<Slot>)
    requires WellFormed(fields) && OnlyZeroDefaults(fields)
    ensures ZerosRestored(fields, slots)
    decreases fields, 0
  {
    hide WellFormed, WellFormedField, ZerosInSlot;
    TableIsZeroDefault(fields);
    forall i | 0 <= i < |fields|
      ensures ZerosAt(fields, slots, i)
    {
      TagInRange(fields, i);
      assert OnlyZeroDefaultsAt(fields, i) && ZeroDefaultAt(fields, i);
      if Home(fields, i) < |slots| {
        FieldRestoresZeros(fields[i], slots[Home(fields, i)]);
      }
    }
  }

  lemma {:induction false} FieldRestoresZeros(f: Field, slot: Slot)
    requires WellFormedField(f) && (f.ltype.Submessage? ==> OnlyZeroDefaults(f.ptr.fields))
        && (Flagless(f) ==> ZeroDefault(f))
    ensures ZerosInSlot(f, slot)
    decreases f, 1
  {
    hide IsZero, ZeroDefault, WellFormedField, ZerosInValue;
    match slot
    case Single(_, v) => ValueRestoresZeros(f, v);
    case Union(_, v) => ValueRestoresZeros(f, v);
    case NoSlot =>
    case Array(items) =>
      forall k | 0 <= k < |items|
        ensures ZerosInValue(f, items[k])
      {
        ValueRestoresZeros(f, items[k]);
      }
  }

  lemma {:induction false} ValueRestoresZeros(f: Field, v: Value)
    requires WellFormedField(f) && (f.ltype.Submessage? ==> OnlyZeroDefaults(f.ptr.fields))
    ensures ZerosInValue(f, v)
    decreases f, 0
  {
    if f.ltype.Submessage? && v.Msg? {
      TableRestoresZeros(f.ptr.fields, v.slots);
    }
  }

  /** An int32 without a has-flag whose default is five. */
  const FIVE := Field(1, VarInt, Optional, Static, 0, 0, 4, 0, Default(Num(5)))

  /** A zero stored in it comes back as five. */
  lemma StoredZeroExample()
    ensures WellFormed([FIVE]) && Readable([FIVE], [Single(true, Num(0))], 0)
    ensures EncMessage([FIVE], [Single(true, Num(0))]) == Some([])
    ensures Decode([FIVE], []) == Some([Single(true, Num(5))])
    ensures !SameContent([FIVE], [Single(true, Num(0))], [Single(true, Num(5))])
  {
    var slots := [Single(true, Num(0))];
    assert EncFrom([FIVE], slots, 1) == Some([]);
    assert EncFrom([FIVE], slots, 0) == Join(Some([]), Some([]));
    var none: Slice := [];
    assert none + none == none;
    assert Readable([FIVE], slots, 1);
    assert DefaultSlot([FIVE], 0) == Single(true, Num(5));
    assert Defaults([FIVE]) == [Single(true, Num(5))];
    var st := State(Defaults([FIVE]), {}, None, 0);
    assert DecLoop([FIVE], [], st) == Some(st);
    assert RequiredBefore([FIVE], 1) == 0;
    assert !SameAt([FIVE], slots, [Single(true, Num(5))], 0);
  }
}
