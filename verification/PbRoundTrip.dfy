/** Decoding what was encoded restores the message. */
module PbRoundTrip {
  import opened DbFormat
  import opened Varint
  import opened PbField
  import opened FieldIter
  import opened PbEncode
  import opened PbDecode

  // ---------- The restored message ----------

  /** A datum as a reader of the struct sees it: any non-zero bool is one, and a
      character buffer is its text. */
  function Restored(f: Field, v: Value): Value
    decreases f, 0
  {
    match f.ltype
    case Bool => Num(if v == Num(0) then 0 else 1)
    case CString => if v.Data? then Data(Text(v.bytes)) else v
    case Submessage =>
      if v.Msg? && f.ptr.SubFields? && |v.slots| == |f.ptr.fields| then
        Msg(RestoredUpTo(f.ptr.fields, v.slots, |f.ptr.fields|))
      else v
    case _ => v
  }

  function RestoredItems(f: Field, items: seq<Value>): (r: seq<Value>)
    ensures |r| == |items|
    decreases f, 1
  {
    seq(|items|, i requires 0 <= i < |items| => Restored(f, items[i]))
  }

  /** The slot of a field that was sent. */
  function RestoredSlot(f: Field, slot: Slot): Slot
    decreases f, 2
  {
    match slot
    case Single(_, v) => Single(true, Restored(f, v))
    case Array(items) => Array(RestoredItems(f, items))
    case Union(_, v) => Union(f.tag, Restored(f, v))
    case NoSlot => NoSlot
  }

  /** The struct after the first n fields: the defaults, and over them every field
      that was sent. */
  function RestoredUpTo(fields: seq<Field>, slots: seq<Slot>, n: nat): (r: seq<Slot>)
    requires |slots| == |fields| && n <= |fields|
    ensures |r| == |fields|
    decreases fields, 0, n
  {
    if n == 0 then Defaults(fields)
    else
      var f, h := fields[n - 1], Home(fields, n - 1);
      var before := RestoredUpTo(fields, slots, n - 1);
      if Present(f, slots[h]) then before[h := RestoredSlot(f, slots[h])] else before
  }

  function RestoredMessage(fields: seq<Field>, slots: seq<Slot>): (r: seq<Slot>)
    requires |slots| == |fields|
    ensures |r| == |fields|
  {
    RestoredUpTo(fields, slots, |fields|)
  }

  // ---------- What can be read back ----------

  /** A length prefix is read with 32 bits. */
  predicate Short(payload: Option<Slice>) {
    payload.Some? ==> |payload.value| < TWO_32
  }

  /** A text has room for its NUL; a nested message is short enough for its
      length prefix. */
  predicate ReadableValue(f: Field, v: Value)
    decreases f, 0
  {
    match f.ltype
    case CString => v.Data? ==> |Text(v.bytes)| < f.dataSize
    case Submessage =>
      v.Msg? && f.ptr.SubFields? && |v.slots| == |f.ptr.fields| ==>
        Short(EncMessage(f.ptr.fields, v.slots)) && Readable(f.ptr.fields, v.slots, 0)
    case _ => true
  }

  /** The same for all that a field sends; a packed array is one payload. */
  predicate ReadableSlot(f: Field, slot: Slot)
    decreases f, 1
  {
    Present(f, slot) ==>
      match slot
      case Single(_, v) => ReadableValue(f, v)
      case Array(items) =>
        if f.ltype.Packable() then Short(EncPacked(f, items)) else forall i :: 0 <= i < |items| ==>
            ReadableValue(f, items[i])
      case Union(_, v) => ReadableValue(f, v)
      case NoSlot => true
  }

  predicate Readable(fields: seq<Field>, slots: seq<Slot>, from: nat)
    requires |slots| == |fields|
    decreases fields, 0, |fields| - from
  {
    from < |fields| ==> ReadableSlot(fields[from], slots[Home(fields, from)]) && Readable(fields, slots, from + 1)
  }

  // ---------- Pieces ----------

  lemma TagReads(wireType: nat, tag: Uint32, rest: Slice)
    requires 1 <= tag < 0x2000_0000 && wireType < 8
    ensures DecTag(EncTag(wireType, tag) + rest) == Tag(tag, wireType, |EncTag(wireType, tag)|)
  {
    hide DecodeVarint32, EncodeVarint;
    Decode32AfterEncode(tag * 8 + wireType, rest);
    Accepted32(tag * 8 + wireType);
  }

  /** The substream that a length prefix makes is the payload; a payload too long
      for 32 bits cannot be read. */
  lemma DelimitedReads(payload: Slice, rest: Slice)
    requires |payload| < TWO_63
    ensures |payload| >= TWO_32 ==> Substream(Delimited(payload) + rest) == None
    ensures |payload| < TWO_32 ==>
      var s, n := Delimited(payload) + rest, |Delimited(payload)|;
      && Substream(s) == Some(Span(n - |payload|, n))
      && s[n - |payload|..n] == payload
  {
    hide DecodeVarint32, EncodeVarint, Accepts32;
    var prefix := EncodeVarint(|payload|);
    assert Delimited(payload) + rest == prefix + (payload + rest);
    Decode32AfterEncode(|payload|, payload + rest);
    Accepted32(|payload|);
  }

  lemma {:induction false} FixedReads(n: nat, width: nat, rest: Slice)
    requires n < Pow256(width)
    ensures (EncodeFixed(n, width) + rest)[..width] == EncodeFixed(n, width)
    ensures DecodeFixed((EncodeFixed(n, width) + rest)[..width]) == n
  {
    DecodeAfterEncodeFixed(n, width);
  }

  lemma {:induction false} FixedNumberReads(f: Field, v: Value, rest: Slice, base: Value)
    requires f.ltype.Fixed32? || f.ltype.Fixed64?
    requires EncValue(f, v).Some?
    ensures DecValue(f, EncValue(f, v).value + rest, base) == Some(Got(Restored(f, v), |EncValue(f, v).value|))
  {
    hide EncodeFixed, DecodeFixed, Pow256;
    Pow256Of8();
    FixedReads(v.n, if f.ltype.Fixed32? then 4 else 8, rest);
  }

  lemma {:induction false} SignedNumberReads(f: Field, v: Value, rest: Slice, base: Value)
    requires f.ltype.VarInt? || f.ltype.SVarInt?
    requires EncValue(f, v).Some?
    ensures DecValue(f, EncValue(f, v).value + rest, base) == Some(Got(Restored(f, v), |EncValue(f, v).value|))
  {
    hide DecodeVarint, EncodeVarint, ZigZag, UnZigZag;
    if f.ltype.VarInt? {
      DecodeAfterEncode(ToUnsigned(v.n), rest);
      CastBack(v.n, f.dataSize);
    } else {
      SvarintRoundTrip(v.n, rest);
    }
  }

  /** A signed number of at most 32 bits is the cast of its 64-bit form. */
  lemma CastBack(n: int, size: nat)
    requires InSigned(n, size)
    ensures ToSigned(ToUnsigned(n)) == n
    ensures size != 8 ==> CastInt32(ToUnsigned(n)) == n
  {
    if size != 8 {
      assert n < 0 ==> n + TWO_64 == (n + TWO_32) + TWO_32 * (TWO_32 - 1);
    }
  }

  /** Numbers survive: every value of the field's C type, in each of its encodings. */
  lemma {:induction false} NumberReads(f: Field, v: Value, rest: Slice, base: Value)
    requires f.ltype.Packable() && EncValue(f, v).Some?
    ensures DecValue(f, EncValue(f, v).value + rest, base) == Some(Got(Restored(f, v), |EncValue(f, v).value|))
  {
    hide DecodeVarint32, DecodeVarint, EncodeVarint, EncodeFixed, DecodeFixed;
    match f.ltype
    case Bool =>
      var n := if v.n != 0 then 1 else 0;
      Decode32AfterEncode(n, rest);
      Accepted32(n);
    case UVarInt =>
      DecodeAfterEncode(v.n, rest);
    case VarInt =>
      SignedNumberReads(f, v, rest, base);
    case SVarInt =>
      SignedNumberReads(f, v, rest, base);
    case Fixed32 =>
      FixedNumberReads(f, v, rest, base);
    case Fixed64 =>
      FixedNumberReads(f, v, rest, base);
  }

  /** Byte strings survive; a C string does exactly if it has room for its NUL. */
  lemma {:induction false} BytesRead(f: Field, v: Value, rest: Slice, base: Value)
    requires (f.ltype.ByteArray? || f.ltype.CString? || f.ltype.FixedLengthBytes?) && f.dataSize <= PB_SIZE_MAX
    requires EncValue(f, v).Some? && |EncValue(f, v).value| < TWO_63
    ensures DecValue(f, EncValue(f, v).value + rest, base)
         == if ReadableValue(f, v) then Some(Got(Restored(f, v), |EncValue(f, v).value|)) else None
  {
    hide Substream, EncodeVarint;
    DelimitedReads(if f.ltype.CString? then Text(v.bytes) else v.bytes, rest);
    if f.ltype.CString? {
      TextOfText(v.bytes);
    } else if f.ltype.FixedLengthBytes? && v.bytes == [] {
      assert seq(f.dataSize, _ => 0) == v.bytes;
    }
  }

  lemma {:induction false} TextOfText(buffer: Slice)
    ensures Text(Text(buffer)) == Text(buffer)
  {
    if buffer != [] && buffer[0] != 0 {
      TextOfText(buffer[1..]);
      assert Text(buffer)[1..] == Text(buffer[1..]);
    }
  }

  // ---------- One field ----------

  /** The loop at the tag of field i. */
  lemma {:induction false} LoopAtTag(fields: seq<Field>, i: nat, wireType: nat, s: Slice, st: State)
    requires WellFormed(fields) && i < |fields| && !fields[i].ltype.Extension? && wireType < 8
    ensures DecLoop(fields, EncTag(wireType, fields[i].tag) + s, st) ==
      var entered := Enter(fields, i, st);
      var step := if entered.Some? then DecStatic(fields, i, wireType, s, entered.value) else None;
      if step.Some? then DecLoop(fields, s[step.value.size..], step.value.state) else None
  {
    hide WellFormedField, DecStatic, Enter, EncTag, DecTag;
    var tag := EncTag(wireType, fields[i].tag);
    TagInRange(fields, i);
    TagReads(wireType, fields[i].tag, s);
    FindsField(fields, i, 0);
    assert (tag + s)[|tag|..] == s;
    var step := DecRecord(fields, fields[i].tag, wireType, s, st);
    if step.Some? {
      assert (tag + s)[|tag| + step.value.size..] == s[step.value.size..];
    }
  }

  lemma {:induction false} TagInRange(fields: seq<Field>, i: nat)
    requires WellFormed(fields) && i < |fields|
    ensures 1 <= fields[i].tag < 0x2000_0000 && WellFormedField(fields[i])
  {
  }

  /** The default of a nested struct, where a value is decoded for the first time. */
  ghost predicate FreshBase(f: Field, base: Value) {
    f.ltype.Submessage? && f.ptr.SubFields? && !f.htype.Repeated? ==> base == Msg(Defaults(f.ptr.fields))
  }

  /** One datum survives. */
  lemma {:induction false} ValueReads(f: Field, v: Value, rest: Slice, base: Value)
    requires WellFormedField(f) && EncValue(f, v).Some? && |EncValue(f, v).value| < TWO_63 && FreshBase(f, base)
    ensures DecValue(f, EncValue(f, v).value + rest, base)
         == if ReadableValue(f, v) then Some(Got(Restored(f, v), |EncValue(f, v).value|)) else None
    decreases f, 0
  {
    if f.ltype.Packable() {
      NumberReads(f, v, rest, base);
    } else if f.ltype.Submessage? {
      var sub := f.ptr.fields;
      var payload := EncMessage(sub, v.slots).value;
      DelimitedReads(payload, rest);
      RoundTrip(sub, v.slots);
      SubmessageReads(f, v, payload, rest, base);
    } else {
      BytesRead(f, v, rest, base);
    }
  }

  lemma {:induction false} SubmessageReads(f: Field, v: Value, payload: Slice, rest: Slice, base: Value)
    requires f.ltype.Submessage? && f.ptr.SubFields? && v.Msg? && |v.slots| == |f.ptr.fields| && FreshBase(f, base)
    requires EncMessage(f.ptr.fields, v.slots) == Some(payload)
    requires |payload| >= TWO_32 ==> Substream(Delimited(payload) + rest) == None
    requires |payload| < TWO_32 ==>
      && Substream(Delimited(payload) + rest) == Some(Span(|Delimited(payload)| - |payload|, |Delimited(payload)|))
      && (Delimited(payload) + rest)[|Delimited(payload)| - |payload|..|Delimited(payload)|] == payload
    requires Decode(f.ptr.fields, payload) == if Readable(f.ptr.fields, v.slots, 0) then
        Some(RestoredMessage(f.ptr.fields, v.slots)) else None
    ensures DecValue(f, Delimited(payload) + rest, base)
         == if ReadableValue(f, v) then Some(Got(Restored(f, v), |Delimited(payload)|)) else None
  {
    hide Substream, Delimited, DecMessage, Readable, EncMessage;
  }

  /** Decoding after every field before i has been decoded. */
  ghost predicate Reached(fields: seq<Field>, slots: seq<Slot>, i: nat, st: State)
    requires |slots| == |fields| && i <= |fields|
  {
    && st.slots == RestoredUpTo(fields, slots, i)
    && FixedDone(fields, st)
    && (st.fixedField.Some? ==> st.fixedField.value < i)
    && forall k :: 0 <= k < RequiredBefore(fields, i) && k < MAX_REQUIRED_FIELDS ==> k in st.seen
  }

  /** A slot whose field has not been reached has its default; a union is not set
      to a member that has not been reached. */
  lemma {:induction false} NotYetReached(fields: seq<Field>, slots: seq<Slot>, n: nat, i: nat)
    requires WellFormed(fields) && |slots| == |fields| && n <= i < |fields|
    ensures Home(fields, i) >= n ==>
        RestoredUpTo(fields, slots, n)[Home(fields, i)]
          == DefaultSlot(fields, Home(fields, i))
    ensures fields[i].htype.Oneof? ==>
      var slot := RestoredUpTo(fields, slots, n)[Home(fields, i)];
      slot.Union? ==> slot.which != fields[i].tag
    decreases n
  {
    hide Present, Restored, RestoredItems, WellFormedField;
    TagInRange(fields, i);
    if n > 0 {
      NotYetReached(fields, slots, n - 1, i);
      assert fields[n - 1].tag != fields[i].tag;
    }
  }

  // ---------- Arrays ----------

  function StoreAll(e: Entries, vs: seq<Value>): Entries
    decreases |vs|
  {
    if vs == [] then e else StoreAll(e.Store(vs[0]), vs[1..])
  }

  /** Stored one by one, behind the entries there are or over empty ones. */
  lemma {:induction false} StoresAll(done: seq<Value>, free: seq<Value>, vs: seq<Value>)
    requires free == [] || |free| == |vs|
    ensures StoreAll(Entries(done + free, |done|), vs) == Entries(done + vs, |done| + |vs|)
    decreases |vs|
  {
    if vs == [] {
      assert done + free == done && done + vs == done;
    } else {
      var free' := if free == [] then [] else free[1..];
      assert Entries(done + free, |done|).Store(vs[0]) == Entries(done + [vs[0]] + free', |done| + 1);
      StoresAll(done + [vs[0]], free', vs[1..]);
      assert done + [vs[0]] + vs[1..] == done + vs;
    }
  }

  lemma {:induction false} RestoredTail(f: Field, items: seq<Value>)
    requires items != []
    ensures RestoredItems(f, items)[0] == Restored(f, items[0])
        && RestoredItems(f, items)[1..] == RestoredItems(f, items[1..])
  {
  }

  lemma {:induction false} PackedReads(f: Field, items: seq<Value>, e: Entries)
    requires f.ltype.Packable() && EncPacked(f, items).Some? && e.count + |items| <= f.arraySize
    ensures DecPacked(f, EncPacked(f, items).value, e) == Some(StoreAll(e, RestoredItems(f, items)))
    decreases |items|
  {
    hide EncValue, DecValue, Restored;
    if items != [] {
      var rest := EncPacked(f, items[1..]).value;
      NumberReads(f, items[0], rest, Unset);
      RestoredTail(f, items);
      PackedReads(f, items[1..], e.Store(Restored(f, items[0])));
      var n := |EncValue(f, items[0]).value|;
      assert EncPacked(f, items).value[n..] == rest;
    }
  }

  ghost predicate AllReadable(f: Field, items: seq<Value>) {
    forall k :: 0 <= k < |items| ==> ReadableValue(f, items[k])
  }

  /** The array of field i is being filled. */
  ghost predicate Filling(fields: seq<Field>, i: nat, st: State) {
    && i < |fields| && i < |st.slots| && fields[i].htype.Repeated? && !fields[i].ltype.Extension?
    && Enter(fields, i, st) == Some(st)
    && st.slots[i].Array?
  }

  lemma FillingOn(fields: seq<Field>, i: nat, st: State, e: Entries)
    requires Filling(fields, i, st) && (!fields[i].FixedCount() ==> e.count == |e.items|)
    ensures Filling(fields, i, SetEntries(fields, i, st, e))
    ensures EntriesOf(fields, i, SetEntries(fields, i, st, e)) == e
    ensures SetEntries(fields, i, st, EntriesOf(fields, i, st)) == st
    ensures forall e' :: SetEntries(fields, i, SetEntries(fields, i, st, e), e') == SetEntries(fields, i, st, e')
  {
  }

  /** One more entry of an array that is not packed. */
  lemma {:induction false} EntryReads(fields: seq<Field>, i: nat, v: Value, rest: Slice, st: State)
    requires WellFormed(fields) && Filling(fields, i, st)
    requires EncTagged(fields[i], v).Some? && |EncTagged(fields[i], v).value| < TWO_63
    requires EntriesOf(fields, i, st).count < fields[i].arraySize
    ensures DecLoop(fields, EncTagged(fields[i], v).value + rest, st)
         == if ReadableValue(fields[i], v)
            then DecLoop(fields, rest, SetEntries(fields, i, st,
                EntriesOf(fields, i, st).Store(Restored(fields[i], v))))
            else None
    decreases fields, 1
  {
    hide DecLoop, EncValue, DecValue, Restored, ReadableValue, WellFormedField, EncTag, EntriesOf, SetEntries, Enter;
    var f := fields[i];
    TagInRange(fields, i);
    var value := EncValue(f, v).value;
    var tag := EncTag(WireType(f.ltype), f.tag);
    assert EncTagged(f, v).value + rest == tag + (value + rest);
    LoopAtTag(fields, i, WireType(f.ltype), value + rest, st);
    ValueReads(f, v, rest, Unset);
    assert (value + rest)[|value|..] == rest;
  }

  lemma {:induction false} UnpackedReads(fields: seq<Field>, i: nat, items: seq<Value>, rest: Slice, st: State)
    requires WellFormed(fields) && Filling(fields, i, st)
    requires EncUnpacked(fields[i], items).Some? && |EncUnpacked(fields[i], items).value| < TWO_63
    requires EntriesOf(fields, i, st).count + |items| <= fields[i].arraySize
    ensures DecLoop(fields, EncUnpacked(fields[i], items).value + rest, st)
         == if AllReadable(fields[i], items)
            then DecLoop(fields, rest, SetEntries(fields, i, st,
                StoreAll(EntriesOf(fields, i, st), RestoredItems(fields[i], items))))
            else None
    decreases fields, 2, |items|
  {
    hide DecLoop, EncTagged, Restored, RestoredItems, ReadableValue, WellFormed, Filling, EntriesOf, SetEntries;
    FillingCounts(fields, i, st);
    var f := fields[i];
    var e := EntriesOf(fields, i, st);
    if items == [] {
      FillingOn(fields, i, st, e);
      assert EncUnpacked(f, items).value + rest == rest;
    } else {
      RestoredTail(f, items);
      var first, more := EncTagged(f, items[0]).value, EncUnpacked(f, items[1..]).value;
      assert EncUnpacked(f, items).value + rest == first + (more + rest);
      EntryReads(fields, i, items[0], more + rest, st);
      var e1 := e.Store(Restored(f, items[0]));
      FillingOn(fields, i, st, e1);
      UnpackedReads(fields, i, items[1..], rest, SetEntries(fields, i, st, e1));
    }
  }

  lemma FillingCounts(fields: seq<Field>, i: nat, st: State)
    requires Filling(fields, i, st)
    ensures i < |fields|
    ensures var e := EntriesOf(fields, i, st);
      !fields[i].FixedCount() ==> e.count == |e.items| && forall v :: e.Store(v).count == |e.Store(v).items|
  {
  }

  // ---------- One field that was sent ----------

  /** The state after field i has been decoded. */
  function AfterField(fields: seq<Field>, slots: seq<Slot>, i: nat, st: State): State
    requires i < |fields| == |slots| == |st.slots|
  {
    var h := Home(fields, i);
    var entered := Enter(fields, i, st);
    if entered.None? then st
    else
      State(entered.value.slots[h := RestoredSlot(fields[i], slots[h])], entered.value.seen, entered.value.fixedField,
            if fields[i].FixedCount() then fields[i].arraySize else entered.value.fixedCount)
  }

  lemma {:induction false} AfterIsReached(fields: seq<Field>, slots: seq<Slot>, i: nat, st: State)
    requires WellFormed(fields) && |slots| == |fields| && i < |fields| && Reached(fields, slots, i, st)
    requires Present(fields[i], slots[Home(fields, i)])
    ensures Enter(fields, i, st).Some? && |st.slots| == |fields|
    ensures Reached(fields, slots, i + 1, AfterField(fields, slots, i, st))
  {
    hide WellFormedField, RestoredSlot, Present;
  }

  /** What field i sends, and what decoding that leaves, when the field is not an array. */
  lemma {:induction false} SingularStep(fields: seq<Field>, slots: seq<Slot>, i: nat, rest: Slice, st: State)
    requires WellFormed(fields) && |slots| == |fields| && i < |fields| && Reached(fields, slots, i, st)
    requires Present(fields[i], slots[Home(fields, i)]) && !fields[i].htype.Repeated?
    requires var b := EncField(fields[i], slots[Home(fields, i)]); b.Some? && |b.value| < TWO_63
    ensures DecLoop(fields, EncField(fields[i], slots[Home(fields, i)]).value + rest, st)
         == if ReadableSlot(fields[i], slots[Home(fields, i)]) then
             DecLoop(fields, rest, AfterField(fields, slots, i, st)) else None
    decreases fields, 3
  {
    hide DecLoop, EncValue, DecValue, Restored, ReadableValue, WellFormedField, EncTag, RestoredUpTo, IsDefault;
    var f, slot := fields[i], slots[Home(fields, i)];
    TagInRange(fields, i);
    AfterIsReached(fields, slots, i, st);
    var entered := Enter(fields, i, st).value;
    var base := OldValue(fields, i, entered);
    SingularBase(fields, slots, i, st, entered);
    var tag, value := EncTag(WireType(f.ltype), f.tag), EncValue(f, slot.value).value;
    assert EncField(f, slot).value + rest == tag + (value + rest);
    LoopAtTag(fields, i, WireType(f.ltype), value + rest, st);
    ValueReads(f, slot.value, rest, base);
    assert (value + rest)[|value|..] == rest;
  }

  /** A nested struct that is not an array entry is merged into its defaults. */
  lemma {:induction false} SingularBase(fields: seq<Field>, slots: seq<Slot>, i: nat, st: State, entered: State)
    requires WellFormed(fields) && |slots| == |fields| && i < |fields| && Reached(fields, slots, i, st)
    requires Enter(fields, i, st) == Some(entered)
    ensures FreshBase(fields[i], OldValue(fields, i, entered))
  {
    hide RestoredUpTo, Restored, RestoredSlot;
    TagInRange(fields, i);
    NotYetReached(fields, slots, i, i);
  }

  /** An array that is about to be filled: empty, or all its entries unset. */
  lemma {:induction false} ArrayStarts(fields: seq<Field>, slots: seq<Slot>, i: nat, st: State)
    requires WellFormed(fields) && |slots| == |fields| && i < |fields| && Reached(fields, slots, i, st)
    requires fields[i].htype.Repeated? && !fields[i].ltype.Extension?
    ensures Enter(fields, i, st).Some? && Filling(fields, i, Enter(fields, i, st).value)
    ensures EntriesOf(fields, i, Enter(fields, i, st).value)
         == Entries(if fields[i].FixedCount() then seq(fields[i].arraySize, _ => Unset) else [], 0)
  {
    hide RestoredUpTo;
    NotYetReached(fields, slots, i, i);
  }

  /** Filling an array with all the entries that were sent. */
  lemma {:induction false} ArrayFilled(fields: seq<Field>, slots: seq<Slot>, i: nat, st: State)
    requires WellFormed(fields) && |slots| == |fields| && i < |fields| && Reached(fields, slots, i, st)
    requires fields[i].htype.Repeated? && !fields[i].ltype.Extension? && slots[i].Array?
    requires fields[i].FixedCount() ==> |slots[i].items| == fields[i].arraySize
    requires Enter(fields, i, st).Some?
    requires EntriesOf(fields, i, Enter(fields, i, st).value)
         == Entries(if fields[i].FixedCount() then seq(fields[i].arraySize, _ => Unset) else [], 0)
    ensures var entered, vs := Enter(fields, i, st).value, RestoredItems(fields[i], slots[i].items);
      SetEntries(fields, i, entered, StoreAll(EntriesOf(fields, i, entered), vs)) == AfterField(fields, slots, i, st)
  {
    hide RestoredUpTo, Restored;
    var vs := RestoredItems(fields[i], slots[i].items);
    var free := if fields[i].FixedCount() then seq(fields[i].arraySize, _ => Unset) else [];
    StoresAll([], free, vs);
    assert [] + free == free && [] + vs == vs;
  }

  lemma {:induction false} PackedStep(fields: seq<Field>, slots: seq<Slot>, i: nat, rest: Slice, st: State)
    requires WellFormed(fields) && |slots| == |fields| && i < |fields| && Reached(fields, slots, i, st)
    requires Present(fields[i], slots[i]) && fields[i].htype.Repeated? && fields[i].ltype.Packable()
    requires EncField(fields[i], slots[i]).Some? && |EncField(fields[i], slots[i]).value| < TWO_63
    ensures DecLoop(fields, EncField(fields[i], slots[i]).value + rest, st)
         == if ReadableSlot(fields[i], slots[i]) then DecLoop(fields, rest, AfterField(fields, slots, i, st)) else None
  {
    hide DecLoop, EncPacked, DecPacked, Restored, RestoredItems, WellFormedField, EncTag, RestoredUpTo, EntriesOf,
        SetEntries, AfterField, Filling, Substream, Delimited, StoreAll;
    var f, items := fields[i], slots[i].items;
    TagInRange(fields, i);
    ArrayStarts(fields, slots, i, st);
    ArrayFilled(fields, slots, i, st);
    var e := EntriesOf(fields, i, Enter(fields, i, st).value);
    var payload := EncPacked(f, items).value;
    var tag, value := EncTag(WT_STRING, f.tag), Delimited(payload);
    PayloadIsShorter(payload);
    assert EncField(f, slots[i]).value + rest == tag + (value + rest);
    LoopAtTag(fields, i, WT_STRING, value + rest, st);
    DelimitedReads(payload, rest);
    if |payload| < TWO_32 {
      PackedReads(f, items, e);
      assert (value + rest)[|value|..] == rest;
    }
  }

  lemma PayloadIsShorter(payload: Slice)
    ensures |payload| < |Delimited(payload)|
  {
  }

  lemma {:induction false} UnpackedStep(fields: seq<Field>, slots: seq<Slot>, i: nat, rest: Slice, st: State)
    requires WellFormed(fields) && |slots| == |fields| && i < |fields| && Reached(fields, slots, i, st)
    requires Present(fields[i], slots[i]) && fields[i].htype.Repeated? && !fields[i].ltype.Packable()
    requires EncField(fields[i], slots[i]).Some? && |EncField(fields[i], slots[i]).value| < TWO_63
    ensures DecLoop(fields, EncField(fields[i], slots[i]).value + rest, st)
         == if ReadableSlot(fields[i], slots[i]) then DecLoop(fields, rest, AfterField(fields, slots, i, st)) else None
    decreases fields, 3
  {
    hide DecLoop, EncTagged, ReadableValue, Restored, RestoredItems, WellFormedField, RestoredUpTo, EntriesOf,
        SetEntries, AfterField, Filling, StoreAll;
    var f, items := fields[i], slots[i].items;
    ArrayStarts(fields, slots, i, st);
    ArrayFilled(fields, slots, i, st);
    var entered := Enter(fields, i, st).value;
    EnteringTwice(fields, i, items, rest, st, entered);
    UnpackedReads(fields, i, items, rest, entered);
  }

  /** Before the first entry it makes no difference whether the array has been entered. */
  lemma {:induction false} EnteringTwice(fields: seq<Field>, i: nat, items: seq<Value>, rest: Slice, st: State,
      entered: State)
    requires WellFormed(fields) && i < |fields| && !fields[i].ltype.Extension?
    requires Enter(fields, i, st) == Some(entered) && Enter(fields, i, entered) == Some(entered)
    requires items != [] && EncUnpacked(fields[i], items).Some?
    ensures DecLoop(fields, EncUnpacked(fields[i], items).value + rest, st)
        == DecLoop(fields, EncUnpacked(fields[i], items).value + rest, entered)
  {
    hide DecLoop, EncValue, EncTag, Enter, DecStatic, WellFormedField;
    var f := fields[i];
    var value, more := EncValue(f, items[0]).value, EncUnpacked(f, items[1..]).value;
    var tag := EncTag(WireType(f.ltype), f.tag);
    assert EncUnpacked(f, items).value + rest == tag + (value + more + rest);
    LoopAtTag(fields, i, WireType(f.ltype), value + more + rest, st);
    LoopAtTag(fields, i, WireType(f.ltype), value + more + rest, entered);
  }

  // ---------- The message ----------

  lemma AbsentField(fields: seq<Field>, slots: seq<Slot>, i: nat, st: State)
    requires WellFormed(fields) && |slots| == |fields| && i < |fields| && Reached(fields, slots, i, st)
    requires !Present(fields[i], slots[Home(fields, i)]) && EncField(fields[i], slots[Home(fields, i)]).Some?
    ensures EncField(fields[i], slots[Home(fields, i)]) == Some([])
    ensures Reached(fields, slots, i + 1, st)
  {
    hide IsDefault, RestoredSlot;
    TagInRange(fields, i);
  }

  lemma {:induction false} FieldStep(fields: seq<Field>, slots: seq<Slot>, i: nat, rest: Slice, st: State)
    requires WellFormed(fields) && |slots| == |fields| && i < |fields| && Reached(fields, slots, i, st)
    requires Present(fields[i], slots[Home(fields, i)])
    requires var b := EncField(fields[i], slots[Home(fields, i)]); b.Some? && |b.value| < TWO_63
    ensures DecLoop(fields, EncField(fields[i], slots[Home(fields, i)]).value + rest, st)
         == if ReadableSlot(fields[i], slots[Home(fields, i)]) then
             DecLoop(fields, rest, AfterField(fields, slots, i, st)) else None
    decreases fields, 4
  {
    hide DecLoop, Reached, AfterField, WellFormed, EncField, Present;
    if !fields[i].htype.Repeated? {
      SingularStep(fields, slots, i, rest, st);
    } else if fields[i].ltype.Packable() {
      PackedStep(fields, slots, i, rest, st);
    } else {
      UnpackedStep(fields, slots, i, rest, st);
    }
  }

  lemma {:induction false} LoopReads(fields: seq<Field>, slots: seq<Slot>, i: nat, st: State) returns (end: State)
    requires WellFormed(fields) && |slots| == |fields| && i <= |fields| && Reached(fields, slots, i, st)
    requires EncFrom(fields, slots, i).Some? && |EncFrom(fields, slots, i).value| < TWO_63
    ensures Readable(fields, slots, i) ==>
      DecLoop(fields, EncFrom(fields, slots, i).value, st) == Some(end) && Reached(fields, slots, |fields|, end)
    ensures !Readable(fields, slots, i) ==> DecLoop(fields, EncFrom(fields, slots, i).value, st) == None
    decreases fields, 5, |fields| - i
  {
    hide Reached, AfterField, WellFormed, EncField, ReadableSlot, Present, DecRecord;
    if i == |fields| {
      end := st;
    } else {
      var h := Home(fields, i);
      var b, rest := EncField(fields[i], slots[h]).value, EncFrom(fields, slots, i + 1).value;
      if Present(fields[i], slots[h]) {
        AfterIsReached(fields, slots, i, st);
        FieldStep(fields, slots, i, rest, st);
        end := LoopReads(fields, slots, i + 1, AfterField(fields, slots, i, st));
      } else {
        AbsentField(fields, slots, i, st);
        AbsentIsReadable(fields[i], slots[h]);
        assert b + rest == rest;
        end := LoopReads(fields, slots, i + 1, st);
      }
    }
  }

  lemma {:induction false} AbsentIsReadable(f: Field, slot: Slot)
    requires !Present(f, slot)
    ensures ReadableSlot(f, slot)
  {
  }

  /** Decoding an encoded struct restores it, and fails exactly if a text that was
      sent has no room for its NUL, or a packed array or nested message that was
      sent is too long for its length prefix. */
  lemma {:induction false} RoundTrip(fields: seq<Field>, slots: seq<Slot>)
    requires WellFormed(fields) && |slots| == |fields|
    requires EncMessage(fields, slots).Some? && |EncMessage(fields, slots).value| < TWO_63
    ensures Decode(fields, EncMessage(fields, slots).value)
         == if Readable(fields, slots, 0) then Some(RestoredMessage(fields, slots)) else None
    decreases fields, 6
  {
    hide DecLoop, WellFormed, EncFrom, Readable, DefaultSlot;
    var st := State(Defaults(fields), {}, None, 0);
    assert Reached(fields, slots, 0, st);
    var end := LoopReads(fields, slots, 0, st);
  }

  // ---------- What is restored ----------

  lemma {:induction false} RestoredAt(fields: seq<Field>, slots: seq<Slot>, n: nat, i: nat)
    requires WellFormed(fields) && |slots| == |fields| && i < n <= |fields|
    requires Present(fields[i], slots[Home(fields, i)])
    ensures RestoredUpTo(fields, slots, n)[Home(fields, i)] == RestoredSlot(fields[i], slots[Home(fields, i)])
    decreases n
  {
    hide IsDefault, RestoredSlot, WellFormedField;
    if i < n - 1 {
      RestoredAt(fields, slots, n - 1, i);
      if Home(fields, n - 1) == Home(fields, i) {
        SharedHome(fields, i, n - 1);
        assert fields[i].tag != fields[n - 1].tag;
      }
    }
  }

  lemma {:induction false} DefaultAt(fields: seq<Field>, slots: seq<Slot>, n: nat, h: nat)
    requires |slots| == |fields| && n <= |fields| && h < |fields|
    requires forall i :: h <= i < |fields| && Home(fields, i) == h ==> !Present(fields[i], slots[h])
    ensures RestoredUpTo(fields, slots, n)[h] == DefaultSlot(fields, h)
    decreases n
  {
    hide Present, RestoredSlot;
    if n > 0 {
      DefaultAt(fields, slots, n - 1, h);
    }
  }

  /** Every field that is sent, and so every required field, optional field with
      its flag set, array, and active union member, has its own content back; a
      slot of which nothing is sent has its default. */
  lemma {:induction false} RestoredFields(fields: seq<Field>, slots: seq<Slot>, i: nat)
    requires WellFormed(fields) && |slots| == |fields| && i < |fields|
    ensures var r, h := RestoredMessage(fields, slots), Home(fields, i);
      && (Present(fields[i], slots[h]) ==> r[h] == RestoredSlot(fields[i], slots[h]))
      && ((forall j :: h <= j < |fields| && Home(fields, j) == h ==> !Present(fields[j], slots[h])) ==>
            r[h] == DefaultSlot(fields, h))
  {
    hide Present, RestoredSlot, RestoredUpTo, WellFormed;
    var h := Home(fields, i);
    if Present(fields[i], slots[h]) {
      RestoredAt(fields, slots, |fields|, i);
    }
    if forall j :: h <= j < |fields| && Home(fields, j) == h ==> !Present(fields[j], slots[h]) {
      DefaultAt(fields, slots, |fields|, h);
    }
  }

  /** A text that fills its buffer can be sent and cannot be read back. */
  lemma {:induction false} UnterminatedExample(f: Field, bytes: Slice)
    requires WellFormedField(f) && f.ltype.CString? && f.htype.Required?
    requires |bytes| == f.dataSize && 0 !in bytes
    ensures var m := EncMessage([f], [Single(true, Data(bytes))]);
      m.Some? && Decode([f], m.value) == None
  {
    hide EncodeVarint, Decode, RestoredMessage;
    var fields, slots := [f], [Single(true, Data(bytes))];
    TextWithoutNul(bytes);
    assert EncValue(f, slots[0].value).Some?;
    assert EncField(f, slots[0]) == EncTagged(f, slots[0].value);
    assert EncFrom(fields, slots, 1) == Some([]);
    assert EncFrom(fields, slots, 0) == Join(EncField(f, slots[Home(fields, 0)]), EncFrom(fields, slots, 1));
    assert !ReadableSlot(f, slots[0]);
    assert WellFormed(fields);
    TenBytesSuffice(f.tag * 8 + WT_STRING);
    TenBytesSuffice(|bytes|);
    RoundTrip(fields, slots);
  }

  lemma {:induction false} TextWithoutNul(bytes: Slice)
    requires 0 !in bytes
    ensures Text(bytes) == bytes
  {
    if bytes != [] {
      TextWithoutNul(bytes[1..]);
    }
  }
}
