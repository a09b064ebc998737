/** The bytes on the wire: what the encoder sends is a sequence of records that any
    decoder can pass over. */
module PbWire {
  import opened DbFormat
  import opened Varint
  import opened PbField
  import opened FieldIter
  import opened PbEncode
  import opened PbDecode
  import opened PbRoundTrip
  import opened PbUnknown
  import opened PbRecords

  // ---------- Varints ----------

  /** Skipping passes over exactly such bytes. */
  lemma {:induction false} SkipsIff(s: Slice, n: nat)
    requires n <= |s|
    ensures SkipVarint(s) == Some(n) <==> Continues(s[..n])
    decreases |s|
  {
    if s != [] && n > 0 {
      if s[0] >= 0x80 {
        SkipsIff(s[1..], n - 1);
        assert s[1..][..n - 1] == s[..n][1..];
        assert n > 1 ==> s[..n][|s[..n]| - 1] == s[..n][1..][n - 2];
        if Continues(s[..n][1..]) {
          assert forall i :: 1 <= i < n - 1 ==> s[..n][i] == s[..n][1..][i - 1];
        }
        if Continues(s[..n]) {
          assert forall i :: 0 <= i < n - 2 ==> s[..n][1..][i] == s[..n][i + 1];
        }
      } else {
        assert n > 1 ==> s[..n][0] < 128;
      }
    }
  }

  /** A tag is a varint of the field number and, in three bits, the wire type. */
  lemma TagOnWire(wireType: nat, tag: Uint32)
    ensures Continues(EncTag(wireType, tag)) && Base128(EncTag(wireType, tag)) == tag * 8 + wireType
  {
    VarintOnWire(tag * 8 + wireType);
  }

  // ---------- Records ----------

  /** The payload of each wire type: 0 a varint, 1 eight bytes, 2 a length and as
      many bytes, 5 four bytes. */
  ghost predicate Payload(wireType: nat, p: Slice) {
    match wireType
    case 0 => Continues(p)
    case 1 => |p| == 8
    case 2 => exists content :: |content| < 0x1_0000_0000 && p == EncodeVarint(|content|) + content
    case 5 => |p| == 4
    case _ => false
  }

  /** Any number of whole records of one field in one wire type. */
  ghost predicate Records(tag: Uint32, wireType: nat, b: Slice)
    decreases |b|
  {
    b == [] || exists n: nat ::
      var t := EncTag(wireType, tag);
      0 < n <= |b| && IsFirst(tag, wireType, b, n) && Records(tag, wireType, b[n..])
  }

  ghost predicate IsFirst(tag: Uint32, wireType: nat, b: Slice, n: nat) {
    var t := EncTag(wireType, tag);
    |t| <= n <= |b| && b[..|t|] == t && Payload(wireType, b[|t|..n])
  }

  lemma {:induction false} FirstRecord(tag: Uint32, wireType: nat, payload: Slice, more: Slice)
    requires Payload(wireType, payload) && Records(tag, wireType, more)
    ensures Records(tag, wireType, EncTag(wireType, tag) + payload + more)
  {
    hide EncTag, Payload;
    var t := EncTag(wireType, tag);
    var b, n := t + payload + more, |t| + |payload|;
    assert b[..|t|] == t && b[|t|..n] == payload && b[n..] == more;
    assert |t| > 0 by { TagOnWire(wireType, tag); }
    assert IsFirst(tag, wireType, b, n);
  }

  lemma {:induction false} OneRecord(tag: Uint32, wireType: nat, payload: Slice)
    requires Payload(wireType, payload)
    ensures Records(tag, wireType, EncTag(wireType, tag) + payload)
  {
    hide EncTag, Payload;
    var none: Slice := [];
    FirstRecord(tag, wireType, payload, none);
    assert EncTag(wireType, tag) + payload + none == EncTag(wireType, tag) + payload;
  }

  // ---------- What the encoder sends ----------

  /** The wire type of each field type; packed arrays are length-delimited. */
  predicate HasWireType(f: Field, wireType: nat) {
    if f.htype.Repeated? && f.ltype.Packable() then wireType == 2
    else match f.ltype
      case Bool => wireType == 0
      case VarInt => wireType == 0
      case UVarInt => wireType == 0
      case SVarInt => wireType == 0
      case Fixed64 => wireType == 1
      case Fixed32 => wireType == 5
      case _ => wireType == 2
  }

  /** Nested messages and packed arrays, if sent, are shorter than 2^32 bytes. */
  predicate ShortValue(f: Field, v: Value) {
    f.ltype.Submessage? && v.Msg? && f.ptr.SubFields? ==> Short(EncMessage(f.ptr.fields, v.slots))
  }

  predicate ShortSlot(f: Field, slot: Slot) {
    match slot
    case Single(_, v) => ShortValue(f, v)
    case Union(_, v) => ShortValue(f, v)
    case NoSlot => true
    case Array(items) =>
      if f.ltype.Packable() then Short(EncPacked(f, items)) else forall i :: 0 <= i < |items| ==>
          ShortValue(f, items[i])
  }

  lemma {:induction false} DelimitedOnWire(payload: Slice)
    requires |payload| < 0x1_0000_0000
    ensures Payload(2, Delimited(payload))
  {
    hide EncodeVarint;
    assert Delimited(payload) == EncodeVarint(|payload|) + payload;
  }

  /** One datum is the payload of its type's wire type. */
  lemma {:induction false} ValueOnWire(f: Field, v: Value, wireType: nat)
    requires WellFormedField(f) && EncValue(f, v).Some? && ShortValue(f, v)
    requires HasWireType(f.(htype := Required), wireType)
    ensures Payload(wireType, EncValue(f, v).value) && WireType(f.ltype) == wireType
  {
    hide EncodeVarint, EncodeFixed, Delimited, EncMessage, Text, Continues;
    match f.ltype
    case Bool => VarintOnWire(if v.n != 0 then 1 else 0);
    case VarInt => VarintOnWire(ToUnsigned(v.n));
    case UVarInt => VarintOnWire(v.n);
    case SVarInt => VarintOnWire(ZigZag(v.n));
    case Fixed32 =>
    case Fixed64 =>
    case ByteArray => DelimitedOnWire(v.bytes);
    case CString => DelimitedOnWire(Text(v.bytes));
    case Submessage => DelimitedOnWire(EncMessage(f.ptr.fields, v.slots).value);
    case FixedLengthBytes => DelimitedOnWire(v.bytes);
  }

  lemma {:induction false} TaggedOnWire(f: Field, v: Value, wireType: nat)
    requires WellFormedField(f) && EncTagged(f, v).Some? && ShortValue(f, v)
        && HasWireType(f.(htype := Required), wireType)
    ensures EncValue(f, v).Some? && Payload(wireType, EncValue(f, v).value)
    ensures EncTagged(f, v).value == EncTag(wireType, f.tag) + EncValue(f, v).value
  {
    hide EncTag, EncValue, Payload, WellFormedField, WireType;
    ValueOnWire(f, v, wireType);
  }

  lemma {:induction false} UnpackedOnWire(f: Field, items: seq<Value>, wireType: nat)
    requires WellFormedField(f) && EncUnpacked(f, items).Some? && HasWireType(f.(htype := Required), wireType)
    requires forall i :: 0 <= i < |items| ==> ShortValue(f, items[i])
    ensures Records(f.tag, wireType, EncUnpacked(f, items).value)
    decreases |items|
  {
    hide EncTag, EncValue, EncTagged, Payload, WellFormedField, ShortValue, Records, HasWireType;
    if items == [] {
      NoRecords(f.tag, wireType);
    } else {
      assert forall i :: 0 <= i < |items| - 1 ==> items[1..][i] == items[i + 1];
      UnpackedOnWire(f, items[1..], wireType);
      TaggedOnWire(f, items[0], wireType);
      FirstRecord(f.tag, wireType, EncValue(f, items[0]).value, EncUnpacked(f, items[1..]).value);
    }
  }

  lemma {:induction false} NoRecords(tag: Uint32, wireType: nat)
    ensures Records(tag, wireType, [])
  {
  }

  /** What a field sends, whatever its kind, is whole records with its number, in
      the wire type of its type. */
  lemma {:induction false} FieldOnWire(f: Field, slot: Slot, wireType: nat)
    requires WellFormedField(f) && EncField(f, slot).Some? && ShortSlot(f, slot) && HasWireType(f, wireType)
    ensures Records(f.tag, wireType, EncField(f, slot).value)
  {
    hide EncTag, EncValue, EncTagged, EncPacked, EncUnpacked, Payload, WellFormedField, ShortValue, Records,
        IsDefault, Delimited;
    NoRecords(f.tag, wireType);
    if EncField(f, slot).value != [] {
      if f.htype.Repeated? {
        if f.ltype.Packable() {
          var payload := EncPacked(f, slot.items).value;
          DelimitedOnWire(payload);
          OneRecord(f.tag, 2, Delimited(payload));
        } else {
          UnpackedOnWire(f, slot.items, wireType);
        }
      } else {
        TaggedOnWire(f, slot.value, wireType);
        OneRecord(f.tag, wireType, EncValue(f, slot.value).value);
      }
    }
  }

  // ---------- Passing over records ----------

  lemma {:induction false} SkipsThePayload(wireType: nat, p: Slice, rest: Slice)
    requires Payload(wireType, p)
    ensures SkipField(wireType, p + rest) == Some(|p|)
  {
    hide Substream, SkipVarint, EncodeVarint, Continues;
    assert (p + rest)[..|p|] == p;
    if wireType == 0 {
      SkipsIff(p + rest, |p|);
    } else if wireType == 2 {
      var content :| |content| < 0x1_0000_0000 && p == EncodeVarint(|content|) + content;
      assert p == Delimited(content);
      DelimitedReads(content, rest);
    }
  }

  lemma PayloadTypes(wireType: nat, p: Slice)
    requires Payload(wireType, p)
    ensures wireType < 8
  {
  }

  lemma {:induction false} ReadsFirstTag(tag: Uint32, wireType: nat, b: Slice, n: nat, rest: Slice)
    requires 1 <= tag < 0x2000_0000 && IsFirst(tag, wireType, b, n)
    ensures var t := |EncTag(wireType, tag)|;
      && DecTag(b + rest) == Tag(tag, wireType, t)
      && SkipField(wireType, (b + rest)[t..]) == Some(n - t)
      && (b + rest)[n..] == b[n..] + rest
  {
    hide EncTag, DecTag, Payload, SkipField;
    var t := EncTag(wireType, tag);
    var p := b[|t|..n];
    PayloadTypes(wireType, p);
    TagReads(wireType, tag, p + (b[n..] + rest));
    assert b + rest == t + (p + (b[n..] + rest));
    assert (b + rest)[|t|..] == p + (b[n..] + rest);
    SkipsThePayload(wireType, p, b[n..] + rest);
  }

  /** Records of a field that a table lacks are unknown fields of it. */
  lemma {:induction false} RecordsAreUnknown(table: seq<Field>, tag: Uint32, wireType: nat, b: Slice)
    requires 1 <= tag < 0x2000_0000 && (forall i :: 0 <= i < |table| ==> table[i].tag != tag)
    requires Records(tag, wireType, b)
    ensures UnknownFields(table, b)
    decreases |b|
  {
    hide EncTag, DecTag, SkipField, IsFirst;
    if b != [] {
      var n: nat :| 0 < n <= |b| && IsFirst(tag, wireType, b, n) && Records(tag, wireType, b[n..]);
      var none: Slice := [];
      ReadsFirstTag(tag, wireType, b, n, none);
      assert b + none == b && b[n..] + none == b[n..];
      RecordsAreUnknown(table, tag, wireType, b[n..]);
    }
  }

  /** Whatever a field sends, a decoder that does not know it passes over it. */
  lemma {:induction false} SentFieldIsUnknown(f: Field, slot: Slot, table: seq<Field>)
    requires WellFormedField(f) && EncField(f, slot).Some? && ShortSlot(f, slot)
    requires forall i :: 0 <= i < |table| ==> table[i].tag != f.tag
    ensures UnknownFields(table, EncField(f, slot).value)
  {
    hide EncField, ShortSlot, Records, UnknownFields;
    var wireType := if f.htype.Repeated? && f.ltype.Packable() then 2 else WireType(f.ltype);
    WireTypes(f);
    FieldOnWire(f, slot, wireType);
    RecordsAreUnknown(table, f.tag, wireType, EncField(f, slot).value);
  }

  lemma WireTypes(f: Field)
    ensures HasWireType(f, if f.htype.Repeated? && f.ltype.Packable() then 2 else WireType(f.ltype))
  {
  }

  // ---------- Tables that lack fields ----------

  /** In its own wire type a field takes the bytes that skipping passes over. */
  lemma {:induction false} KnownSize(f: Field, wireType: nat, s: Slice)
    requires HasWireType(f, wireType)
    ensures PayloadSize(f, wireType, s) == SkipField(wireType, s)
  {
    hide Substream, SkipVarint;
  }

  lemma {:induction false} KnownRecordLocal(table: seq<Field>, tag: nat, wireType: nat, p: Slice, x: Slice, y: Slice,
      st: State)
    requires Payload(wireType, p) && FindField(table, tag, 0).Some?
    requires HasWireType(table[FindField(table, tag, 0).value], wireType)
    ensures var r := DecRecord(table, tag, wireType, p + x, st);
      r == DecRecord(table, tag, wireType, p + y, st) && (r.Some? ==> r.value.size == |p|)
  {
    hide DecRecord, PayloadSize, SkipField, Payload, HasWireType;
    var f := table[FindField(table, tag, 0).value];
    KnownSize(f, wireType, p + x);
    KnownSize(f, wireType, p + y);
    SkipsThePayload(wireType, p, x);
    SkipsThePayload(wireType, p, y);
    RecordTakes(table, tag, wireType, p + x, st);
    RecordTakes(table, tag, wireType, p + y, st);
    assert (p + x)[..|p|] == p && (p + y)[..|p|] == p;
    if DecRecord(table, tag, wireType, p + x, st).Some? {
      RecordLocal(table, tag, wireType, p + x, p + y, st);
    } else if DecRecord(table, tag, wireType, p + y, st).Some? {
      RecordLocal(table, tag, wireType, p + y, p + x, st);
    }
  }

  lemma SplitFirst(tag: Uint32, wireType: nat, b: Slice) returns (n: nat)
    requires Records(tag, wireType, b) && b != []
    ensures 0 < n <= |b| && IsFirst(tag, wireType, b, n) && Records(tag, wireType, b[n..])
    ensures var t := |EncTag(wireType, tag)|; t <= n && Payload(wireType, b[t..n])
  {
    hide EncTag, Payload;
    n :| 0 < n <= |b| && IsFirst(tag, wireType, b, n) && Records(tag, wireType, b[n..]);
  }

  lemma {:induction false} LoopAt(table: seq<Field>, s: Slice, st: State)
    requires DecTag(s).Tag?
    ensures var r := DecTag(s);
      var step := DecRecord(table, r.tag, r.wireType, s[r.size..], st);
      DecLoop(table, s, st) == if step.None? then
          None else DecLoop(table, s[r.size + step.value.size..], step.value.state)
  {
    hide DecTag, DecRecord;
  }

  lemma {:induction false} NumbersAt(table: seq<Field>, s: Slice)
    requires DecTag(s).Tag?
    ensures var r := DecTag(s);
      var n := RecordSize(table, r.tag, r.wireType, s[r.size..]);
      Numbers(table, s) == if n.None? then {} else {r.tag} + Numbers(table, s[r.size + n.value..])
  {
    hide DecTag, RecordSize;
  }

  /** Behind records of a field the table has, what makes no difference still makes
      none. */
  lemma {:induction false} BehindKnown(table: seq<Field>, tag: Uint32, wireType: nat, b: Slice, x: Slice, y: Slice,
      st: State)
    requires 1 <= tag < 0x2000_0000 && Records(tag, wireType, b) && FindField(table, tag, 0).Some?
    requires HasWireType(table[FindField(table, tag, 0).value], wireType)
    requires forall st' :: DecLoop(table, x, st') == DecLoop(table, y, st')
    ensures DecLoop(table, b + x, st) == DecLoop(table, b + y, st)
    decreases |b|
  {
    hide EncTag, DecTag, SkipField, DecRecord, HasWireType, FindField, DecLoop, Records, IsFirst, Payload;
    if b == [] {
      assert b + x == x && b + y == y;
    } else {
      var n := SplitFirst(tag, wireType, b);
      var t := |EncTag(wireType, tag)|;
      ReadsFirstTag(tag, wireType, b, n, x);
      ReadsFirstTag(tag, wireType, b, n, y);
      var p := b[t..n];
      assert (b + x)[t..] == p + (b[n..] + x) && (b + y)[t..] == p + (b[n..] + y);
      KnownRecordLocal(table, tag, wireType, p, b[n..] + x, b[n..] + y, st);
      var r := DecRecord(table, tag, wireType, p + (b[n..] + x), st);
      LoopAt(table, b + x, st);
      LoopAt(table, b + y, st);
      if r.Some? {
        BehindKnown(table, tag, wireType, b[n..], x, y, r.value.state);
      }
    }
  }

  predicate InTable(table: seq<Field>, tag: nat) {
    exists j :: 0 <= j < |table| && table[j].tag == tag
  }

  /** The encoding from field `from` on, of the fields that the table has. */
  function EncKnown(fields: seq<Field>, slots: seq<Slot>, table: seq<Field>, from: nat): Option<Slice>
    requires |slots| == |fields|
    decreases |fields| - from
  {
    if from >= |fields| then Some([])
    else
      Join(if InTable(table, fields[from].tag) then EncField(fields[from], slots[Home(fields, from)]) else Some([]),
           EncKnown(fields, slots, table, from + 1))
  }

  /** The table describes in the same way the fields that it shares. */
  predicate Agrees(table: seq<Field>, fields: seq<Field>) {
    forall i, j :: 0 <= i < |fields| && 0 <= j < |table| && table[j].tag == fields[i].tag ==> table[j] == fields[i]
  }

  predicate AllShort(fields: seq<Field>, slots: seq<Slot>)
    requires |slots| == |fields|
  {
    forall i :: 0 <= i < |fields| ==> ShortSlot(fields[i], slots[Home(fields, i)])
  }

  lemma {:induction false} KnownFrom(fields: seq<Field>, slots: seq<Slot>, table: seq<Field>, from: nat, st: State)
    requires WellFormed(fields) && |slots| == |fields| && from <= |fields| && Agrees(table, fields)
        && AllShort(fields, slots)
    requires EncFrom(fields, slots, from).Some?
    ensures var known := EncKnown(fields, slots, table, from);
      known.Some? && DecLoop(table, EncFrom(fields, slots, from).value, st) == DecLoop(table, known.value, st)
    decreases |fields| - from
  {
    hide DecLoop, WellFormed, EncField, ShortSlot, HasWireType, Records, UnknownFields;
    if from < |fields| {
      var f, slot := fields[from], slots[Home(fields, from)];
      var b, x := EncField(f, slot).value, EncFrom(fields, slots, from + 1).value;
      KnownFrom(fields, slots, table, from + 1, st);
      var y := EncKnown(fields, slots, table, from + 1).value;
      forall st'
        ensures DecLoop(table, x, st') == DecLoop(table, y, st')
      {
        KnownFrom(fields, slots, table, from + 1, st');
      }
      TagInRange(fields, from);
      FieldRange(f);
      assert [] + y == y;
      if !InTable(table, f.tag) {
        SentFieldIsUnknown(f, slot, table);
        LoopSkipsUnknown(table, b, x, st);
      } else if f.ltype.Extension? {
        NothingSent(f, slot);
        assert b + x == x && b + y == y;
      } else {
        var wireType := if f.htype.Repeated? && f.ltype.Packable() then 2 else WireType(f.ltype);
        WireTypes(f);
        FieldOnWire(f, slot, wireType);
        FoundInTable(table, f);
        BehindKnown(table, f.tag, wireType, b, x, y, st);
      }
    }
  }

  lemma {:induction false} FieldRange(f: Field)
    requires WellFormedField(f)
    ensures 1 <= f.tag < 0x2000_0000
  {
  }

  lemma {:induction false} NothingSent(f: Field, slot: Slot)
    requires f.ltype.Extension?
    ensures EncField(f, slot) == Some([])
  {
  }

  lemma {:induction false} FoundInTable(table: seq<Field>, f: Field)
    requires InTable(table, f.tag) && !f.ltype.Extension?
    requires forall j :: 0 <= j < |table| && table[j].tag == f.tag ==> table[j] == f
    ensures var found := FindField(table, f.tag, 0); found.Some? && table[found.value] == f
  {
    hide FindField;
  }

  /** A decoder whose table lacks some of the fields makes of a struct's encoding
      what it makes of the encoding without those fields. */
  lemma {:induction false} TableWithFewerFields(fields: seq<Field>, slots: seq<Slot>, table: seq<Field>,
      into: seq<Slot>)
    requires WellFormed(fields) && |slots| == |fields| && Agrees(table, fields) && AllShort(fields, slots)
    requires EncMessage(fields, slots).Some?
    ensures var known := EncKnown(fields, slots, table, 0);
      known.Some? && DecMessage(table, EncMessage(fields, slots).value, into) == DecMessage(table, known.value, into)
  {
    hide DecLoop, WellFormed, EncFrom, EncKnown, Agrees, AllShort;
    KnownFrom(fields, slots, table, 0, State(into, {}, None, 0));
  }

  // ---------- A required field left out ----------

  lemma {:induction false} NumbersOfRecords(fields: seq<Field>, tag: Uint32, wireType: nat, b: Slice, rest: Slice)
    requires 1 <= tag < 0x2000_0000 && Records(tag, wireType, b) && FindField(fields, tag, 0).Some?
    requires HasWireType(fields[FindField(fields, tag, 0).value], wireType)
    ensures Numbers(fields, b + rest) == (if b == [] then {} else {tag as nat}) + Numbers(fields, rest)
    decreases |b|
  {
    hide EncTag, DecTag, SkipField, HasWireType, FindField, PayloadSize, Records, IsFirst, Payload, Numbers;
    if b == [] {
      assert b + rest == rest;
    } else {
      var n := SplitFirst(tag, wireType, b);
      ReadsFirstTag(tag, wireType, b, n, rest);
      var t := |EncTag(wireType, tag)|;
      KnownSize(fields[FindField(fields, tag, 0).value], wireType, (b + rest)[t..]);
      NumbersAt(fields, b + rest);
      NumbersOfRecords(fields, tag, wireType, b[n..], rest);
    }
  }

  /** The encoding from field `from` on, without field i. */
  function EncWithout(fields: seq<Field>, slots: seq<Slot>, i: nat, from: nat): Option<Slice>
    requires |slots| == |fields|
    decreases |fields| - from
  {
    if from >= |fields| then Some([])
    else
      Join(if from == i then Some([]) else EncField(fields[from], slots[Home(fields, from)]),
           EncWithout(fields, slots, i, from + 1))
  }

  lemma {:induction false} NumbersWithout(fields: seq<Field>, slots: seq<Slot>, i: nat, from: nat)
    requires WellFormed(fields) && |slots| == |fields| && i < |fields| && AllShort(fields, slots)
    requires EncFrom(fields, slots, from).Some?
    ensures EncWithout(fields, slots, i, from).Some?
    ensures fields[i].tag !in Numbers(fields, EncWithout(fields, slots, i, from).value)
    decreases |fields| - from
  {
    hide WellFormed, EncField, ShortSlot, HasWireType, Records, Numbers;
    if from >= |fields| {
      NoNumbers(fields);
    } else {
      NumbersWithout(fields, slots, i, from + 1);
      var f, slot := fields[from], slots[Home(fields, from)];
      var rest := EncWithout(fields, slots, i, from + 1).value;
      assert [] + rest == rest;
      if from != i {
        TagInRange(fields, from);
        FieldRange(f);
        DifferentTags(fields, i, from);
        if f.ltype.Extension? {
          NothingSent(f, slot);
        } else {
          var wireType := if f.htype.Repeated? && f.ltype.Packable() then 2 else WireType(f.ltype);
          WireTypes(f);
          FieldOnWire(f, slot, wireType);
          FoundThere(fields, from);
          NumbersOfRecords(fields, f.tag, wireType, EncField(f, slot).value, rest);
        }
      }
    }
  }

  lemma {:induction false} NoNumbers(fields: seq<Field>)
    ensures Numbers(fields, []) == {}
  {
    hide DecodeVarint32;
  }

  lemma {:induction false} DifferentTags(fields: seq<Field>, i: nat, j: nat)
    requires WellFormed(fields) && i < |fields| && j < |fields| && i != j
    ensures fields[i].tag != fields[j].tag
  {
  }

  lemma {:induction false} FoundThere(fields: seq<Field>, i: nat)
    requires WellFormed(fields) && i < |fields| && !fields[i].ltype.Extension?
    ensures FindField(fields, fields[i].tag, 0) == Some(i)
  {
    FindsField(fields, i, 0);
  }

  /** An encoding from which the records of a required field are left out does not
      decode. */
  lemma {:induction false} RequiredLeftOutFails(fields: seq<Field>, slots: seq<Slot>, i: nat, into: seq<Slot>)
    requires WellFormed(fields) && |slots| == |fields| && Counted(fields, i) && AllShort(fields, slots)
    requires EncMessage(fields, slots).Some?
    ensures var b := EncWithout(fields, slots, i, 0); b.Some? && DecMessage(fields, b.value, into) == None
  {
    hide WellFormed, EncFrom, EncWithout, Numbers, DecMessage, AllShort;
    NumbersWithout(fields, slots, i, 0);
    MissingRequiredFails(fields, EncWithout(fields, slots, i, 0).value, into, i);
  }
}
