/** Streams that no single encoding gives: repeated and merged fields, arrays that
    overflow, numbers out of range, cut and malformed records. */
module PbOddStreams {
  import opened DbFormat
  import opened Varint
  import opened PbField
  import opened FieldIter
  import opened PbEncode
  import opened PbDecode
  import opened PbRoundTrip
  import opened PbUnknown
  import opened PbRecords
  import opened PbAbsent
  import opened PbFits

  // ---------- Fields that come again ----------

  /** Of two values of a singular field that is no message, or of two members of a
      union of which the later is none, the later one counts. */
  lemma {:induction false} LastWins(fields: seq<Field>, i: nat, j: nat, v: Value, w: Value, rest: Slice, st: State)
    requires WellFormed(fields) && i < |fields| && j < |fields| && Home(fields, i) == Home(fields, j) < |st.slots|
    requires !fields[i].ltype.Extension? && !fields[j].ltype.Extension?
    requires !fields[i].htype.Repeated? && !fields[j].htype.Repeated?
    requires !fields[i].ltype.Submessage? && !fields[j].ltype.Submessage?
    requires EncTagged(fields[i], v).Some? && |EncTagged(fields[i], v).value| < TWO_63 && ReadableValue(fields[i], v)
    requires EncTagged(fields[j], w).Some? && |EncTagged(fields[j], w).value| < TWO_63
    ensures DecLoop(fields, EncTagged(fields[i], v).value + (EncTagged(fields[j], w).value + rest), st)
         == DecLoop(fields, EncTagged(fields[j], w).value + rest, st)
  {
    hide DecLoop, ReadableValue, Restored, WellFormed, EncTagged, Enter;
    SingularReads(fields, i, v, EncTagged(fields[j], w).value + rest, st);
    var st' := Decoded(fields, i, v, st);
    SingularReads(fields, j, w, rest, st);
    SingularReads(fields, j, w, rest, st');
    Overwritten(fields, i, j, v, w, st);
  }

  /** The state after a singular value. */
  function Decoded(fields: seq<Field>, i: nat, v: Value, st: State): State
    requires i < |fields|
  {
    var f, entered := fields[i], Enter(fields, i, st);
    if entered.None? then st
    else SetSlot(fields, i, entered.value, if f.htype.Oneof? then
        Union(f.tag, Restored(f, v)) else Single(true, Restored(f, v)))
  }

  lemma {:induction false} SingularReads(fields: seq<Field>, i: nat, v: Value, rest: Slice, st: State)
    requires WellFormed(fields) && i < |fields| && !fields[i].ltype.Extension?
    requires !fields[i].htype.Repeated? && !fields[i].ltype.Submessage?
    requires EncTagged(fields[i], v).Some? && |EncTagged(fields[i], v).value| < TWO_63
    ensures DecLoop(fields, EncTagged(fields[i], v).value + rest, st)
         == if ReadableValue(fields[i], v) then DecLoop(fields, rest, Decoded(fields, i, v, st)) else None
  {
    hide DecLoop, EncValue, DecValue, Restored, ReadableValue, WellFormedField, EncTag, OldValue;
    var f := fields[i];
    TagInRange(fields, i);
    var tag, value := EncTag(WireType(f.ltype), f.tag), EncValue(f, v).value;
    assert EncTagged(f, v).value + rest == tag + (value + rest);
    LoopAtTag(fields, i, WireType(f.ltype), value + rest, st);
    ValueReads(f, v, rest, OldValue(fields, i, Enter(fields, i, st).value));
    assert (value + rest)[|value|..] == rest;
  }

  lemma {:induction false} Overwritten(fields: seq<Field>, i: nat, j: nat, v: Value, w: Value, st: State)
    requires WellFormed(fields) && i < |fields| && j < |fields| && Home(fields, i) == Home(fields, j)
    requires !fields[i].htype.Repeated? && !fields[j].htype.Repeated?
    ensures Decoded(fields, j, w, Decoded(fields, i, v, st)) == Decoded(fields, j, w, st)
  {
    hide WellFormed, Restored, RequiredBefore;
    if i < j {
      SharedHome(fields, i, j);
    } else if j < i {
      SharedHome(fields, j, i);
    }
    var n := RequiredBefore(fields, j);
    assert st.seen + {n} + {n} == st.seen + {n};
  }

  /** A nested message that comes again is merged into what is there: of the
      nested slots those are kept of whose fields none comes. */
  lemma {:induction false} NestedMessagesMerge(f: Field, s: Slice, base: Value, h: nat)
    requires f.ltype.Submessage? && f.ptr.SubFields? && !f.htype.Repeated? && base.Msg? && h < |base.slots|
    requires DecValue(f, s, base).Some?
    requires NoneComes(f.ptr.fields, h, Numbers(f.ptr.fields, s[Substream(s).value.from..Substream(s).value.to]))
    ensures var v := DecValue(f, s, base).value.value;
      v.Msg? && |v.slots| == |base.slots| && v.slots[h] == base.slots[h]
  {
    hide DecMessage, Substream, NoneComes, Numbers;
    var span := Substream(s).value;
    AbsentFieldsAreKept(f.ptr.fields, s[span.from..span.to], base.slots, h);
  }

  /** What a nested message is merged into: what the field holds, but the defaults
      if it is an array entry, or if another member of its union is active. */
  lemma {:induction false} MergedInto(fields: seq<Field>, i: nat, s: Slice, st: State)
    requires WellFormed(fields) && i < |fields| && fields[i].ltype.Submessage? && Home(fields, i) < |st.slots|
    requires Substream(s).Some?
    ensures var f, slot := fields[i], st.slots[Home(fields, i)];
      var content := s[Substream(s).value.from..Substream(s).value.to];
      && f.ptr.SubFields?
      && (f.htype.Repeated? || (f.htype.Oneof? && slot.Union? && slot.which != f.tag) ==>
            NestedResult(fields, i, s, st, Decode(f.ptr.fields, content)))
      && (!f.htype.Repeated? && slot.Single? && slot.value.Msg? && !f.htype.Oneof? ==>
            NestedResult(fields, i, s, st, DecMessage(f.ptr.fields, content, slot.value.slots)))
      && (f.htype.Oneof? && slot.Union? && slot.which == f.tag && slot.value.Msg? ==>
            NestedResult(fields, i, s, st, DecMessage(f.ptr.fields, content, slot.value.slots)))
  {
    hide DecMessage, Substream, WellFormed;
    TagInRange(fields, i);
  }

  /** The value that is decoded for the field, if there is room for it. */
  ghost predicate NestedResult(fields: seq<Field>, i: nat, s: Slice, st: State, r: Option<seq<Slot>>)
    requires i < |fields|
  {
    var f := fields[i];
    var got := DecValue(f, s, if f.htype.Repeated? then Unset else OldValue(fields, i, st));
    if r.Some? then got.Some? && got.value.value == Msg(r.value) else got.None?
  }

  // ---------- Arrays that overflow ----------

  /** More entries with a tag each than the array takes are an error. */
  lemma {:induction false} TooManyFail(fields: seq<Field>, i: nat, items: seq<Value>, rest: Slice, st: State)
    requires WellFormed(fields) && Filling(fields, i, st)
    requires EncUnpacked(fields[i], items).Some? && |EncUnpacked(fields[i], items).value| < TWO_63
    requires EntriesOf(fields, i, st).count <= fields[i].arraySize < EntriesOf(fields, i, st).count + |items|
    ensures DecLoop(fields, EncUnpacked(fields[i], items).value + rest, st) == None
    decreases |items|
  {
    hide DecLoop, EncTagged, Restored, ReadableValue, WellFormed, Filling, EntriesOf, SetEntries;
    FillingCounts(fields, i, st);
    var f, e := fields[i], EntriesOf(fields, i, st);
    var first, more := EncTagged(f, items[0]).value, EncUnpacked(f, items[1..]).value;
    assert EncUnpacked(f, items).value + rest == first + (more + rest);
    if e.count == f.arraySize {
      NoRoom(fields, i, items[0], more + rest, st);
    } else {
      EntryReads(fields, i, items[0], more + rest, st);
      if ReadableValue(f, items[0]) {
        var e1 := e.Store(Restored(f, items[0]));
        FillingOn(fields, i, st, e1);
        TooManyFail(fields, i, items[1..], rest, SetEntries(fields, i, st, e1));
      }
    }
  }

  lemma {:induction false} NoRoom(fields: seq<Field>, i: nat, v: Value, rest: Slice, st: State)
    requires WellFormed(fields) && Filling(fields, i, st) && EncTagged(fields[i], v).Some?
    requires EntriesOf(fields, i, st).count == fields[i].arraySize
    ensures DecLoop(fields, EncTagged(fields[i], v).value + rest, st) == None
  {
    hide DecLoop, EncValue, DecValue, WellFormedField, EncTag, EntriesOf, SetEntries, Enter;
    var f := fields[i];
    var tag, value := EncTag(WireType(f.ltype), f.tag), EncValue(f, v).value;
    assert EncTagged(f, v).value + rest == tag + (value + rest);
    LoopAtTag(fields, i, WireType(f.ltype), value + rest, st);
  }

  /** So are more packed entries. */
  lemma {:induction false} TooManyPackedFail(f: Field, items: seq<Value>, e: Entries)
    requires f.ltype.Packable() && EncPacked(f, items).Some? && e.count <= f.arraySize < e.count + |items|
    ensures DecPacked(f, EncPacked(f, items).value, e) == None
    decreases |items|
  {
    hide EncValue, DecValue, Restored;
    var value, more := EncValue(f, items[0]).value, EncPacked(f, items[1..]).value;
    assert EncPacked(f, items).value == value + more;
    NumberReads(f, items[0], more, Unset);
    assert (value + more)[|value|..] == more;
    if e.count < f.arraySize {
      TooManyPackedFail(f, items[1..], e.Store(Restored(f, items[0])));
    } else {
      ValueNotEmpty(f, items[0]);
    }
  }

  lemma {:induction false} ValueNotEmpty(f: Field, v: Value)
    requires f.ltype.Packable() && EncValue(f, v).Some?
    ensures EncValue(f, v).value != []
  {
    hide EncodeVarint, EncodeFixed;
  }

  // ---------- Numbers out of range ----------

  /** An unsigned number is taken exactly if the field's type can hold it. */
  lemma {:induction false} UnsignedIff(f: Field, v: Uint64, rest: Slice, base: Value)
    requires f.ltype.UVarInt?
    ensures DecValue(f, EncodeVarint(v) + rest, base)
         == if UnsignedFits(v, f.dataSize) then Some(Got(Num(v), |EncodeVarint(v)|)) else None
  {
    hide DecodeVarint, EncodeVarint;
    DecodeAfterEncode(v, rest);
  }

  /** So is a zigzag number. */
  lemma {:induction false} ZigZagIff(f: Field, v: Uint64, rest: Slice, base: Value)
    requires f.ltype.SVarInt?
    ensures DecValue(f, EncodeVarint(v) + rest, base)
         == if SignedFits(UnZigZag(v), f.dataSize) then Some(Got(Num(UnZigZag(v)), |EncodeVarint(v)|)) else None
  {
    hide DecodeVarint, EncodeVarint, UnZigZag;
    DecodeAfterEncode(v, rest);
  }

  /** A signed number is the low 64 or, in a smaller field, 32 bits taken as signed,
      and is taken exactly if that fits. */
  lemma {:induction false} SignedIff(f: Field, v: Uint64, n: int, rest: Slice, base: Value)
    requires f.ltype.VarInt?
    requires if f.dataSize == 8 then SignedFits(n, 8) && (v - n) % TWO_64 == 0
             else SignedFits(n, 4) && (v - n) % TWO_32 == 0
    ensures DecValue(f, EncodeVarint(v) + rest, base)
         == if SignedFits(n, f.dataSize) then Some(Got(Num(n), |EncodeVarint(v)|)) else None
  {
    hide DecodeVarint, EncodeVarint;
    DecodeAfterEncode(v, rest);
    Residues(v, n);
  }

  lemma Residues(v: Uint64, n: int)
    ensures SignedFits(n, 8) && (v - n) % TWO_64 == 0 ==> v == if n < 0 then n + TWO_64 else n
    ensures SignedFits(n, 4) && (v - n) % TWO_32 == 0 ==> v % TWO_32 == if n < 0 then n + TWO_32 else n
  {
  }

  /** A bool is set by any number but zero. */
  lemma {:induction false} BoolIs(f: Field, v: Uint32, rest: Slice, base: Value)
    requires f.ltype.Bool?
    ensures DecValue(f, EncodeVarint(v) + rest, base) == Some(Got(Num(if v == 0 then 0 else 1), |EncodeVarint(v)|))
  {
    hide DecodeVarint32, EncodeVarint, Accepts32;
    Decode32AfterEncode(v, rest);
    Accepted32(v);
  }

  /** A byte string is taken as it is or not at all: if it fits, a text if its
      terminator fits too, fixed-length bytes if they are that many or none. */
  lemma {:induction false} BytesIff(f: Field, content: Slice, rest: Slice, base: Value)
    requires (f.ltype.ByteArray? || f.ltype.CString? || f.ltype.FixedLengthBytes?) && f.dataSize <= PB_SIZE_MAX
    requires |content| < 0x1_0000_0000
    ensures DecValue(f, Delimited(content) + rest, base) ==
      var size := |Delimited(content)|;
      if f.ltype.ByteArray? then
        if |content| + BYTES_OFFSET <= f.dataSize then Some(Got(Data(content), size)) else None
      else if f.ltype.CString? then
        if |content| < f.dataSize then Some(Got(Data(Text(content)), size)) else None
      else if content == [] then Some(Got(Data(seq(f.dataSize, _ => 0)), size))
      else if |content| == f.dataSize then Some(Got(Data(content), size))
      else None
  {
    hide Substream, Delimited, Text;
    DelimitedReads(content, rest);
  }

  // ---------- Cut and malformed records ----------

  /** A tag that is not in the table with a wire type that is none of 0, 1, 2 and 5
      ends the decoding. */
  lemma {:induction false} BadWireTypeFails(fields: seq<Field>, tag: Uint32, wireType: nat, rest: Slice, st: State)
    requires 1 <= tag < 0x2000_0000 && wireType < 8 && wireType != 0 && wireType != 1 && wireType != 2 && wireType != 5
    requires forall i :: 0 <= i < |fields| ==> fields[i].tag != tag
    ensures DecLoop(fields, EncTag(wireType, tag) + rest, st) == None
  {
    hide EncTag, DecTag;
    TagReads(wireType, tag, rest);
  }

  /** A zero byte where a tag is expected ends the message. */
  lemma {:induction false} ZeroEndsMessage(fields: seq<Field>, rest: Slice, st: State)
    ensures DecLoop(fields, [0] + rest, st) == Some(st)
  {
    hide DecRecord;
    assert ([0] + rest)[0] == 0;
  }

  lemma {:induction false} CutVarint(s: Slice, n: nat, k: nat)
    requires SkipVarint(s) == Some(n) && k < n
    ensures SkipVarint(s[..k]) == None
    decreases |s|
  {
    if k > 0 {
      CutVarint(s[1..], n - 1, k - 1);
      assert s[..k][1..] == s[1..][..k - 1];
    }
  }

  lemma {:induction false} CutVarint32(s: Slice, k: nat)
    requires DecodeVarint32(s).Ok? && k <= |s|
    ensures if k < DecodeVarint32(s).size then
        DecodeVarint32(s[..k]).Err? else DecodeVarint32(s[..k]) == DecodeVarint32(s)
  {
    hide DecodeVarint32, SkipVarint;
    VarintSizes(s);
    VarintSizes(s[..k]);
    if k < DecodeVarint32(s).size {
      CutVarint(s, DecodeVarint32(s).size, k);
    } else {
      AgreesWithItself(s, k, DecodeVarint32(s).size);
      ReadVarint32Local(s, s[..k]);
    }
  }

  lemma AgreesWithItself(s: Slice, k: nat, n: nat)
    requires n <= k <= |s|
    ensures Agree(s, s[..k], n)
  {
    assert s[..k][..n] == s[..n];
  }

  lemma {:induction false} CutSubstream(s: Slice, k: nat)
    requires Substream(s).Some? && k < Substream(s).value.to
    ensures Substream(s[..k]) == None
  {
    hide DecodeVarint32;
    CutVarint32(s, k);
  }

  lemma {:induction false} CutPayload(fields: seq<Field>, tag: nat, wireType: nat, s: Slice, k: nat)
    requires RecordSize(fields, tag, wireType, s).Some? && k < RecordSize(fields, tag, wireType, s).value
    ensures RecordSize(fields, tag, wireType, s[..k]) == None
  {
    hide SkipVarint, Substream, FindField;
    if SkipVarint(s).Some? && k < SkipVarint(s).value {
      CutVarint(s, SkipVarint(s).value, k);
    }
    if Substream(s).Some? && k < Substream(s).value.to {
      CutSubstream(s, k);
    }
  }

  /** A stream that ends inside a record, be it one the table has or not, does not
      decode, whatever came before. */
  lemma {:induction false} CutRecordFails(fields: seq<Field>, before: Slice, s: Slice, k: nat, st: State)
    requires AtBoundary(fields, before, st)
    requires DecTag(s).Tag? && RecordSize(fields, DecTag(s).tag, DecTag(s).wireType, s[DecTag(s).size..]).Some?
    requires 0 < k < DecTag(s).size + RecordSize(fields, DecTag(s).tag, DecTag(s).wireType, s[DecTag(s).size..]).value
    ensures DecLoop(fields, before + s[..k], st) == None
  {
    hide DecLoop, DecTag, RecordSize, AtBoundary;
    var mid := BoundarySplits(fields, before, st);
    assert DecLoop(fields, before + s[..k], st) == DecLoop(fields, s[..k], mid);
    CutFirst(fields, s, k, mid);
  }

  lemma {:induction false} CutFirst(fields: seq<Field>, s: Slice, k: nat, st: State)
    requires DecTag(s).Tag? && RecordSize(fields, DecTag(s).tag, DecTag(s).wireType, s[DecTag(s).size..]).Some?
    requires 0 < k < DecTag(s).size + RecordSize(fields, DecTag(s).tag, DecTag(s).wireType, s[DecTag(s).size..]).value
    ensures DecLoop(fields, s[..k], st) == None
  {
    hide DecRecord, RecordSize;
    var r := DecTag(s);
    CutTag(s, k);
    if r.size <= k {
      var rest := s[r.size..];
      assert s[..k][r.size..] == rest[..k - r.size];
      CutPayload(fields, r.tag, r.wireType, rest, k - r.size);
      RecordTakes(fields, r.tag, r.wireType, rest[..k - r.size], st);
    }
  }

  lemma {:induction false} CutTag(s: Slice, k: nat)
    requires DecTag(s).Tag? && 0 < k <= |s|
    ensures if k < DecTag(s).size then DecTag(s[..k]) == BadTag else DecTag(s[..k]) == DecTag(s)
  {
    hide DecodeVarint32;
    CutVarint32(s, k);
  }
}
