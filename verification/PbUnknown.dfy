/** Fields that are not in the table make no difference to decoding. */
module PbUnknown {
  import opened DbFormat
  import opened Varint
  import opened PbField
  import opened FieldIter
  import opened PbEncode
  import opened PbDecode
  import opened PbRoundTrip

  // ---------- Reading depends only on what is consumed ----------

  /** The two streams begin with the same n bytes. */
  predicate Agree(s: Slice, t: Slice, n: nat) {
    n <= |s| && n <= |t| && s[..n] == t[..n]
  }

  lemma AgreeLess(s: Slice, t: Slice, n: nat, m: nat)
    requires Agree(s, t, n) && m <= n
    ensures Agree(s, t, m) && Agree(s[m..], t[m..], n - m)
    ensures forall i :: 0 <= i < n ==> s[i] == t[i]
  {
    assert s[..m] == s[..n][..m];
    assert t[..m] == t[..n][..m];
    assert s[m..][..n - m] == s[..n][m..];
    assert t[m..][..n - m] == t[..n][m..];
    forall i | 0 <= i < n
      ensures s[i] == t[i]
    {
      assert s[i] == s[..n][i] && t[i] == t[..n][i];
    }
  }

  lemma {:induction false} Varint32Local(s: Slice, t: Slice, i: nat, bitpos: Byte, result: Uint32)
    requires var d := Decode32From(s, i, bitpos, result); d.Ok? && Agree(s, t, d.size)
    ensures Decode32From(t, i, bitpos, result) == Decode32From(s, i, bitpos, result)
    decreases |s| - i
  {
    hide Or, Pow2;
    AgreeLess(s, t, Decode32From(s, i, bitpos, result).size, 0);
    var b := s[i];
    if b >= 0x80 {
      var r := if bitpos >= 32 then result else Or(result, b % 0x80 * Pow2(bitpos) % TWO_32) % TWO_32;
      Varint32Local(s, t, i + 1, (bitpos + 7) % 0x100, r);
    }
  }

  lemma {:induction false} Varint64Local(s: Slice, t: Slice, i: nat, result: Uint64)
    requires var d := Decode64From(s, i, result); d.Ok? && Agree(s, t, d.size)
    ensures Decode64From(t, i, result) == Decode64From(s, i, result)
    decreases |s| - i
  {
    hide Or, Pow2;
    AgreeLess(s, t, Decode64From(s, i, result).size, 0);
    if s[i] >= 0x80 {
      Varint64Local(s, t, i + 1, Or(result, s[i] % 0x80 * Pow2(7 * i) % TWO_64) % TWO_64);
    }
  }

  lemma ReadVarint32Local(s: Slice, t: Slice)
    requires DecodeVarint32(s).Ok? && Agree(s, t, DecodeVarint32(s).size)
    ensures DecodeVarint32(t) == DecodeVarint32(s)
  {
    hide Decode32From;
    AgreeLess(s, t, DecodeVarint32(s).size, 0);
    if s[0] >= 0x80 {
      Varint32Local(s, t, 1, 7, s[0] % 0x80);
    }
  }

  lemma SubstreamLocal(s: Slice, t: Slice)
    requires Substream(s).Some? && Agree(s, t, Substream(s).value.to)
    ensures Substream(t) == Substream(s)
    ensures var span := Substream(s).value; t[span.from..span.to] == s[span.from..span.to]
  {
    hide DecodeVarint32;
    var span := Substream(s).value;
    AgreeLess(s, t, span.to, span.from);
    ReadVarint32Local(s, t);
    assert s[span.from..span.to] == s[span.from..][..span.to - span.from];
    assert t[span.from..span.to] == t[span.from..][..span.to - span.from];
  }

  lemma {:induction false} SkipVarintLocal(s: Slice, t: Slice)
    requires SkipVarint(s).Some? && Agree(s, t, SkipVarint(s).value)
    ensures SkipVarint(t) == SkipVarint(s)
    decreases |s|
  {
    AgreeLess(s, t, SkipVarint(s).value, 1);
    if s[0] >= 0x80 {
      SkipVarintLocal(s[1..], t[1..]);
    }
  }

  lemma SkipLocal(wireType: nat, s: Slice, t: Slice)
    requires SkipField(wireType, s).Some? && Agree(s, t, SkipField(wireType, s).value)
    ensures SkipField(wireType, t) == SkipField(wireType, s)
  {
    hide SkipVarint, Substream;
    if wireType == WT_VARINT {
      SkipVarintLocal(s, t);
    } else if wireType == WT_STRING {
      SubstreamLocal(s, t);
    }
  }

  lemma TagLocal(s: Slice, t: Slice)
    requires DecTag(s).Tag? && Agree(s, t, DecTag(s).size)
    ensures DecTag(t) == DecTag(s)
  {
    hide DecodeVarint32;
    ReadVarint32Local(s, t);
  }

  lemma {:induction false} NumberLocal(f: Field, s: Slice, t: Slice, base: Value)
    requires f.ltype.Packable() && DecValue(f, s, base).Some? && Agree(s, t, DecValue(f, s, base).value.size)
    ensures DecValue(f, t, base) == DecValue(f, s, base)
  {
    hide DecodeVarint32, Decode64From, DecodeFixed, UnZigZag, CastInt32, InSigned, InUnsigned;
    if f.ltype.Bool? {
      ReadVarint32Local(s, t);
    } else if f.ltype.VarInt? || f.ltype.UVarInt? || f.ltype.SVarInt? {
      Varint64Local(s, t, 0, 0);
    }
  }

  lemma {:induction false} ValueLocal(f: Field, s: Slice, t: Slice, base: Value)
    requires DecValue(f, s, base).Some? && Agree(s, t, DecValue(f, s, base).value.size)
    ensures DecValue(f, t, base) == DecValue(f, s, base)
  {
    hide Substream, DecMessage, Text, Agree;
    if f.ltype.Packable() {
      NumberLocal(f, s, t, base);
    } else {
      SubstreamLocal(s, t);
    }
  }

  lemma {:induction false} StaticLocal(fields: seq<Field>, i: nat, wireType: nat, s: Slice, t: Slice, st: State)
    requires i < |fields| && DecStatic(fields, i, wireType, s, st).Some?
        && Agree(s, t, DecStatic(fields, i, wireType, s, st).value.size)
    ensures DecStatic(fields, i, wireType, t, st) == DecStatic(fields, i, wireType, s, st)
  {
    hide Substream, DecValue, DecPacked, EntriesOf, SetEntries, OldValue, SetSlot, Agree;
    if fields[i].htype.Repeated? {
      if wireType == WT_STRING && fields[i].ltype.Packable() {
        SubstreamLocal(s, t);
      } else {
        ValueLocal(fields[i], s, t, Unset);
      }
    } else {
      ValueLocal(fields[i], s, t, OldValue(fields, i, st));
    }
  }

  /** Decoding or skipping one field depends only on the bytes it takes. */
  lemma {:induction false} RecordLocal(fields: seq<Field>, tag: nat, wireType: nat, s: Slice, t: Slice, st: State)
    requires var step := DecRecord(fields, tag, wireType, s, st); step.Some? && Agree(s, t, step.value.size)
    ensures DecRecord(fields, tag, wireType, t, st) == DecRecord(fields, tag, wireType, s, st)
  {
    hide DecStatic, SkipField, DecodeVarint32, Enter, Agree;
    var found := FindField(fields, tag, 0);
    if found.Some? {
      StaticLocal(fields, found.value, wireType, s, t, Enter(fields, found.value, st).value);
    } else if fields == [] && tag == 0 {
      ReadVarint32Local(s, t);
    } else {
      SkipLocal(wireType, s, t);
    }
  }

  // ---------- Removing unknown fields ----------

  /** The table has no field with the tag. */
  predicate IsUnknown(fields: seq<Field>, tag: nat) {
    FindField(fields, tag, 0).None? && (fields == [] ==> tag != 0)
  }

  /** The stream without its unknown fields, as far as it can be decoded. */
  function Strip(fields: seq<Field>, s: Slice, st: State): Slice
    decreases |s|
  {
    match DecTag(s)
    case EndOfMessage => s
    case BadTag => s
    case Tag(tag, wireType, size) =>
      var step := DecRecord(fields, tag, wireType, s[size..], st);
      if step.None? then s
      else
        var rest := Strip(fields, s[size + step.value.size..], step.value.state);
        if IsUnknown(fields, tag) then rest else s[..size + step.value.size] + rest
  }

  /** One step of the loop, on any stream that begins with the same field. */
  lemma {:induction false} LoopStep(fields: seq<Field>, s: Slice, t: Slice, st: State)
    requires DecTag(s).Tag?
    requires var r := DecTag(s);
      var step := DecRecord(fields, r.tag, r.wireType, s[r.size..], st);
      step.Some? && Agree(s, t, r.size + step.value.size)
    ensures var r := DecTag(s);
      var step := DecRecord(fields, r.tag, r.wireType, s[r.size..], st).value;
      DecLoop(fields, t, st) == DecLoop(fields, t[r.size + step.size..], step.state)
  {
    hide DecTag, DecRecord, Agree;
    var r := DecTag(s);
    var step := DecRecord(fields, r.tag, r.wireType, s[r.size..], st).value;
    AgreeLess(s, t, r.size + step.size, r.size);
    TagLocal(s, t);
    RecordLocal(fields, r.tag, r.wireType, s[r.size..], t[r.size..], st);
  }

  /** An unknown field leaves the state as it was. */
  lemma {:induction false} UnknownKeepsState(fields: seq<Field>, tag: nat, wireType: nat, s: Slice, st: State)
    requires IsUnknown(fields, tag) && DecRecord(fields, tag, wireType, s, st).Some?
    ensures DecRecord(fields, tag, wireType, s, st).value.state == st
  {
    hide DecStatic, SkipField, DecodeVarint32, Enter;
  }

  /** Whatever the stream, decoding it without its unknown fields gives the same. */
  lemma {:induction false} StripKeepsResult(fields: seq<Field>, s: Slice, st: State)
    ensures DecLoop(fields, Strip(fields, s, st), st) == DecLoop(fields, s, st)
    decreases |s|
  {
    hide DecTag, DecRecord, IsUnknown, Agree;
    var r := DecTag(s);
    if r.Tag? {
      var step := DecRecord(fields, r.tag, r.wireType, s[r.size..], st);
      if step.Some? {
        var n := r.size + step.value.size;
        var rest := Strip(fields, s[n..], step.value.state);
        StripKeepsResult(fields, s[n..], step.value.state);
        AgreeSelf(s, n, rest);
        LoopStep(fields, s, s, st);
        if IsUnknown(fields, r.tag) {
          UnknownKeepsState(fields, r.tag, r.wireType, s[r.size..], st);
        } else {
          LoopStep(fields, s, s[..n] + rest, st);
        }
      }
    }
  }

  lemma AgreeSelf(s: Slice, n: nat, rest: Slice)
    requires n <= |s|
    ensures Agree(s, s, n) && Agree(s, s[..n] + rest, n) && (s[..n] + rest)[n..] == rest
  {
  }

  /** The same for a whole message, on any struct. */
  lemma {:induction false} UnknownFieldsDoNotMatter(fields: seq<Field>, s: Slice, slots: seq<Slot>)
    ensures DecMessage(fields, Strip(fields, s, State(slots, {}, None, 0)), slots) == DecMessage(fields, s, slots)
  {
    StripKeepsResult(fields, s, State(slots, {}, None, 0));
  }

  // ---------- Inserting unknown fields ----------

  /** The decoder gets to the end of s field by field, with nothing left over. */
  predicate AtBoundary(fields: seq<Field>, s: Slice, st: State)
    decreases |s|
  {
    s == [] ||
    match DecTag(s)
    case Tag(tag, wireType, size) =>
      var step := DecRecord(fields, tag, wireType, s[size..], st);
      step.Some? && AtBoundary(fields, s[size + step.value.size..], step.value.state)
    case _ => false
  }

  /** One or more unknown fields, complete. */
  predicate UnknownFields(fields: seq<Field>, u: Slice)
    decreases |u|
  {
    u == [] ||
    match DecTag(u)
    case Tag(tag, wireType, size) =>
      && IsUnknown(fields, tag)
      && SkipField(wireType, u[size..]).Some?
      && UnknownFields(fields, u[size + SkipField(wireType, u[size..]).value..])
    case _ => false
  }

  /** After a piece that ends at a boundary, the loop goes on with the rest. */
  lemma {:induction false} BoundarySplits(fields: seq<Field>, a: Slice, st: State) returns (mid: State)
    requires AtBoundary(fields, a, st)
    ensures forall r :: DecLoop(fields, a + r, st) == DecLoop(fields, r, mid)
    decreases |a|
  {
    hide DecTag, DecRecord, Agree, DecLoop;
    if a == [] {
      mid := st;
      assert forall r :: a + r == r;
    } else {
      var t := DecTag(a);
      var step := DecRecord(fields, t.tag, t.wireType, a[t.size..], st).value;
      var n := t.size + step.size;
      mid := BoundarySplits(fields, a[n..], step.state);
      forall r
        ensures DecLoop(fields, a + r, st) == DecLoop(fields, r, mid)
      {
        AgreeAppended(a, r, n);
        LoopStep(fields, a, a + r, st);
      }
    }
  }

  lemma AgreeAppended(a: Slice, r: Slice, n: nat)
    requires n <= |a|
    ensures Agree(a, a + r, n) && (a + r)[n..] == a[n..] + r
  {
  }

  lemma {:induction false} LoopSkipsUnknown(fields: seq<Field>, u: Slice, rest: Slice, st: State)
    requires UnknownFields(fields, u)
    ensures DecLoop(fields, u + rest, st) == DecLoop(fields, rest, st)
    decreases |u|
  {
    hide DecTag, SkipField, Agree, DecLoop, DecStatic, Enter;
    if u == [] {
      assert u + rest == rest;
    } else {
      var t := DecTag(u);
      var n := t.size + SkipField(t.wireType, u[t.size..]).value;
      AgreeAppended(u, rest, n);
      LoopStep(fields, u, u + rest, st);
      LoopSkipsUnknown(fields, u[n..], rest, st);
    }
  }

  /** Unknown fields put in at any field boundary leave the result as it was,
      success or failure. */
  lemma {:induction false} InsertingUnknownFields(fields: seq<Field>, a: Slice, u: Slice, b: Slice, slots: seq<Slot>)
    requires AtBoundary(fields, a, State(slots, {}, None, 0)) && UnknownFields(fields, u)
    ensures DecMessage(fields, a + u + b, slots) == DecMessage(fields, a + b, slots)
  {
    hide DecLoop, AtBoundary, UnknownFields;
    var st := State(slots, {}, None, 0);
    var mid := BoundarySplits(fields, a, st);
    assert a + u + b == a + (u + b);
    LoopSkipsUnknown(fields, u, b, mid);
  }

  // ---------- Well-formed unknown fields ----------

  lemma {:induction false} SkipsEncodedVarint(v: nat, rest: Slice)
    ensures SkipVarint(EncodeVarint(v) + rest) == Some(|EncodeVarint(v)|)
    decreases v
  {
    if v >= 0x80 {
      SkipsEncodedVarint(v / 0x80, rest);
      assert (EncodeVarint(v) + rest)[1..] == EncodeVarint(v / 0x80) + rest;
    }
  }

  /** A payload of each wire type. */
  ghost predicate WellFormedPayload(wireType: nat, payload: Slice) {
    if wireType == WT_VARINT then exists v: nat :: payload == EncodeVarint(v)
    else if wireType == WT_64BIT then |payload| == 8
    else if wireType == WT_STRING then exists content :: payload == Delimited(content) && |content| < TWO_32
    else wireType == WT_32BIT && |payload| == 4
  }

  lemma SkipsPayload(wireType: nat, payload: Slice, rest: Slice)
    requires WellFormedPayload(wireType, payload)
    ensures SkipField(wireType, payload + rest) == Some(|payload|)
  {
    hide Substream, SkipVarint, EncodeVarint;
    if wireType == WT_VARINT {
      var v: nat :| payload == EncodeVarint(v);
      SkipsEncodedVarint(v, rest);
    } else if wireType == WT_STRING {
      var content :| payload == Delimited(content) && |content| < TWO_32;
      DelimitedReads(content, rest);
    }
  }

  /** Any tag that is not in the table with a payload of any wire type, before
      more unknown fields, is unknown fields. */
  lemma {:induction false} WellFormedUnknown(fields: seq<Field>, tag: Uint32, wireType: nat, payload: Slice,
      more: Slice)
    requires 1 <= tag < 0x2000_0000 && (forall i :: 0 <= i < |fields| ==> fields[i].tag != tag)
    requires WellFormedPayload(wireType, payload) && UnknownFields(fields, more)
    ensures UnknownFields(fields, EncTag(wireType, tag) + payload + more)
  {
    hide DecTag, SkipField, WellFormedPayload, EncTag;
    WireTypeRange(wireType, payload);
    var u := EncTag(wireType, tag) + payload + more;
    assert u == EncTag(wireType, tag) + (payload + more);
    TagReads(wireType, tag, payload + more);
    SkipsPayload(wireType, payload, more);
    var n := |EncTag(wireType, tag)|;
    assert u[n..] == payload + more && u[n + |payload|..] == more;
  }

  lemma WireTypeRange(wireType: nat, payload: Slice)
    requires WellFormedPayload(wireType, payload)
    ensures wireType < 8
  {
  }

  // ---------- Between encoded fields ----------

  /** The encoding of the first i fields. */
  function EncUpTo(fields: seq<Field>, slots: seq<Slot>, i: nat): Option<Slice>
    requires |slots| == |fields| && i <= |fields|
  {
    if i == 0 then Some([]) else Join(EncUpTo(fields, slots, i - 1),
        EncField(fields[i - 1], slots[Home(fields, i - 1)]))
  }

  lemma {:induction false} EncodingSplits(fields: seq<Field>, slots: seq<Slot>, i: nat)
    requires |slots| == |fields| && i <= |fields|
    ensures EncMessage(fields, slots) == Join(EncUpTo(fields, slots, i), EncFrom(fields, slots, i))
  {
    hide EncField;
    if i == 0 {
      JoinAssociates(EncFrom(fields, slots, 0), None, None);
    } else {
      EncodingSplits(fields, slots, i - 1);
      JoinAssociates(EncUpTo(fields, slots, i - 1), EncField(fields[i - 1], slots[Home(fields, i - 1)]),
          EncFrom(fields, slots, i));
    }
  }

  lemma {:induction false} ReadableAt(fields: seq<Field>, slots: seq<Slot>, from: nat, i: nat)
    requires |slots| == |fields| && from <= i < |fields| && Readable(fields, slots, from)
    ensures ReadableSlot(fields[i], slots[Home(fields, i)])
    decreases i - from
  {
    hide ReadableSlot;
    if from < i {
      ReadableAt(fields, slots, from + 1, i);
    }
  }

  /** Whatever follows the first i fields, the decoder reaches it in the same state. */
  lemma {:induction false} ReachesField(fields: seq<Field>, slots: seq<Slot>, i: nat, start: State) returns (mid: State)
    requires WellFormed(fields) && |slots| == |fields| && i <= |fields| && Readable(fields, slots, 0)
    requires EncMessage(fields, slots).Some? && |EncMessage(fields, slots).value| < TWO_63
    requires Reached(fields, slots, 0, start)
    ensures Reached(fields, slots, i, mid) && EncUpTo(fields, slots, i).Some?
    ensures forall rest :: DecLoop(fields, EncUpTo(fields, slots, i).value + rest, start) == DecLoop(fields, rest, mid)
  {
    hide DecLoop, WellFormed, Reached, EncField, ReadableSlot, Present, AfterField;
    EncodingSplits(fields, slots, i);
    if i == 0 {
      mid := start;
      assert forall rest: Slice :: [] + rest == rest;
    } else {
      var before := ReachesField(fields, slots, i - 1, start);
      var f, slot := fields[i - 1], slots[Home(fields, i - 1)];
      var a, b := EncUpTo(fields, slots, i - 1).value, EncField(f, slot).value;
      ReadableAt(fields, slots, 0, i - 1);
      mid := before;
      if Present(f, slot) {
        AfterIsReached(fields, slots, i - 1, before);
        mid := AfterField(fields, slots, i - 1, before);
      } else {
        AbsentField(fields, slots, i - 1, before);
      }
      forall rest
        ensures DecLoop(fields, EncUpTo(fields, slots, i).value + rest, start) == DecLoop(fields, rest, mid)
      {
        assert a + b + rest == a + (b + rest);
        if Present(f, slot) {
          FieldStep(fields, slots, i - 1, rest, before);
        } else {
          assert b + rest == rest;
        }
      }
    }
  }

  /** An encoded struct is restored also with unknown fields put in between any
      two of its fields. */
  lemma {:induction false} RoundTripWithUnknownFields(fields: seq<Field>, slots: seq<Slot>, i: nat, u: Slice)
    requires WellFormed(fields) && |slots| == |fields| && i <= |fields| && Readable(fields, slots, 0)
    requires EncMessage(fields, slots).Some? && |EncMessage(fields, slots).value| < TWO_63
    requires UnknownFields(fields, u)
    ensures EncUpTo(fields, slots, i).Some? && EncFrom(fields, slots, i).Some?
    ensures Decode(fields, EncUpTo(fields, slots, i).value + u + EncFrom(fields, slots, i).value)
        == Some(RestoredMessage(fields, slots))
  {
    hide DecLoop, WellFormed, EncFrom, EncUpTo, Readable, DefaultSlot, UnknownFields;
    var start := State(Defaults(fields), {}, None, 0);
    assert Reached(fields, slots, 0, start);
    var mid := ReachesField(fields, slots, i, start);
    EncodingSplits(fields, slots, i);
    var a, b := EncUpTo(fields, slots, i).value, EncFrom(fields, slots, i).value;
    assert a + u + b == a + (u + b);
    LoopSkipsUnknown(fields, u, b, mid);
    RoundTrip(fields, slots);
  }
}
