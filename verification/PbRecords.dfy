/** The records of a stream: which field numbers it brings, and what follows for
    required fields and for fields that it does not bring. */
module PbRecords {
  import opened DbFormat
  import opened Varint
  import opened PbField
  import opened FieldIter
  import opened PbEncode
  import opened PbDecode
  import opened PbRoundTrip

  // ---------- How many bytes a record takes ----------

  /** The bytes that a value of the field takes on the stream. */
  function ValueSize(f: Field, s: Slice): (n: Option<nat>)
    ensures n.Some? ==> n.value <= |s|
  {
    match f.ltype
    case Bool => SkipVarint(s)
    case VarInt => SkipVarint(s)
    case UVarInt => SkipVarint(s)
    case SVarInt => SkipVarint(s)
    case Fixed32 => if |s| >= 4 then Some(4) else None
    case Fixed64 => if |s| >= 8 then Some(8) else None
    case _ => if Substream(s).Some? then Some(Substream(s).value.to) else None
  }

  function PayloadSize(f: Field, wireType: nat, s: Slice): (n: Option<nat>)
    ensures n.Some? ==> n.value <= |s|
  {
    if f.htype.Repeated? && wireType == 2 && f.ltype.Packable() then
      if Substream(s).Some? then Some(Substream(s).value.to) else None
    else ValueSize(f, s)
  }

  /** The bytes behind a tag, in a table that may or may not have the field. */
  function RecordSize(fields: seq<Field>, tag: nat, wireType: nat, s: Slice): (n: Option<nat>)
    ensures n.Some? ==> n.value <= |s|
  {
    var found := FindField(fields, tag, 0);
    if found.Some? then PayloadSize(fields[found.value], wireType, s)
    else if fields == [] && tag == 0 then SkipVarint(s)
    else SkipField(wireType, s)
  }

  lemma {:induction false} SkipsDecoded64(s: Slice, i: nat, result: Uint64)
    requires i <= |s| && Decode64From(s, i, result).Ok?
    ensures SkipVarint(s[i..]) == Some(Decode64From(s, i, result).size - i)
    decreases |s| - i
  {
    hide Or, Pow2;
    if s[i] >= 0x80 {
      SkipsDecoded64(s, i + 1, Or(result, s[i] % 0x80 * Pow2(7 * i) % TWO_64) % TWO_64);
      assert s[i..][1..] == s[i + 1..];
    }
  }

  lemma {:induction false} SkipsDecoded32(s: Slice, i: nat, bitpos: Byte, result: Uint32)
    requires i <= |s| && Decode32From(s, i, bitpos, result).Ok?
    ensures SkipVarint(s[i..]) == Some(Decode32From(s, i, bitpos, result).size - i)
    decreases |s| - i
  {
    hide Or, Pow2;
    var b := s[i];
    if b >= 0x80 {
      var r := if bitpos >= 32 then result else Or(result, b % 0x80 * Pow2(bitpos) % TWO_32) % TWO_32;
      SkipsDecoded32(s, i + 1, (bitpos + 7) % 0x100, r);
      assert s[i..][1..] == s[i + 1..];
    }
  }

  /** Decoding a varint takes the bytes that skipping one passes over. */
  lemma {:induction false} VarintSizes(s: Slice)
    ensures DecodeVarint(s).Ok? ==> SkipVarint(s) == Some(DecodeVarint(s).size)
    ensures DecodeVarint32(s).Ok? ==> SkipVarint(s) == Some(DecodeVarint32(s).size)
  {
    assert s[0..] == s;
    if DecodeVarint(s).Ok? {
      SkipsDecoded64(s, 0, 0);
    }
    if DecodeVarint32(s).Ok? && s[0] >= 0x80 {
      SkipsDecoded32(s, 1, 7, s[0] % 0x80);
    }
  }

  lemma {:induction false} ValueTakes(f: Field, s: Slice, base: Value)
    ensures DecValue(f, s, base).Some? ==> ValueSize(f, s) == Some(DecValue(f, s, base).value.size)
  {
    hide DecodeVarint, DecodeVarint32, Substream, DecMessage, SkipVarint;
    VarintSizes(s);
  }

  lemma {:induction false} StaticTakes(fields: seq<Field>, i: nat, wireType: nat, s: Slice, st: State)
    requires i < |fields|
    ensures var step := DecStatic(fields, i, wireType, s, st);
      step.Some? ==> PayloadSize(fields[i], wireType, s) == Some(step.value.size)
  {
    hide DecValue, ValueSize, Substream, DecPacked, EntriesOf, SetEntries, SetSlot, OldValue;
    var f := fields[i];
    ValueTakes(f, s, Unset);
    ValueTakes(f, s, OldValue(fields, i, st));
  }

  /** Decoding or skipping a record takes its bytes. */
  lemma {:induction false} RecordTakes(fields: seq<Field>, tag: nat, wireType: nat, s: Slice, st: State)
    ensures var step := DecRecord(fields, tag, wireType, s, st);
      step.Some? ==> RecordSize(fields, tag, wireType, s) == Some(step.value.size)
  {
    hide DecStatic, PayloadSize, SkipField, DecodeVarint32, SkipVarint, Enter;
    VarintSizes(s);
    var found := FindField(fields, tag, 0);
    if found.Some? && Enter(fields, found.value, st).Some? {
      StaticTakes(fields, found.value, wireType, s, Enter(fields, found.value, st).value);
    }
  }

  // ---------- The numbers a stream brings ----------

  /** The field numbers of the records of a stream, as far as it has whole records. */
  function Numbers(fields: seq<Field>, s: Slice): set<nat>
    decreases |s|
  {
    match DecTag(s)
    case Tag(tag, wireType, size) =>
      var n := RecordSize(fields, tag, wireType, s[size..]);
      if n.None? then {} else {tag} + Numbers(fields, s[size + n.value..])
    case _ => {}
  }

  /** A required field among the first 64 of them. */
  predicate Counted(fields: seq<Field>, i: nat) {
    i < |fields| && fields[i].htype.Required? && RequiredBefore(fields, i) < 64
  }

  /** What one record does to the set of required fields seen. */
  lemma {:induction false} RecordSees(fields: seq<Field>, tag: nat, wireType: nat, s: Slice, st: State)
    requires fields != [] && DecRecord(fields, tag, wireType, s, st).Some?
    ensures var found, st' := FindField(fields, tag, 0), DecRecord(fields, tag, wireType, s, st).value.state;
      st'.seen == if found.Some? && Counted(fields, found.value) then
          st.seen + {RequiredBefore(fields, found.value)} else st.seen
  {
    hide DecValue, DecPacked, Substream, SkipField, EntriesOf, OldValue;
  }

  /** A number is seen exactly if the field it stands for was, or comes. */
  lemma {:induction false} LoopSees(fields: seq<Field>, s: Slice, st: State, i: nat)
    requires WellFormed(fields) && Counted(fields, i) && DecLoop(fields, s, st).Some?
    ensures var k := RequiredBefore(fields, i);
      k in DecLoop(fields, s, st).value.seen <==> k in st.seen || fields[i].tag in Numbers(fields, s)
    decreases |s|
  {
    hide DecTag, DecRecord, RecordSize, WellFormedField, RequiredBefore;
    var r := DecTag(s);
    if r.Tag? {
      var step := DecRecord(fields, r.tag, r.wireType, s[r.size..], st).value;
      RecordTakes(fields, r.tag, r.wireType, s[r.size..], st);
      RecordSees(fields, r.tag, r.wireType, s[r.size..], st);
      LoopSees(fields, s[r.size + step.size..], step.state, i);
      SameNumber(fields, r.tag, i);
    }
  }

  /** Required fields are counted once each. */
  lemma {:induction false} SameNumber(fields: seq<Field>, tag: nat, i: nat)
    requires WellFormed(fields) && Counted(fields, i)
    ensures var found := FindField(fields, tag, 0);
      tag == fields[i].tag <==>
        && found.Some? && Counted(fields, found.value)
        && RequiredBefore(fields, found.value) == RequiredBefore(fields, i)
  {
    hide WellFormedField;
    TagInRange(fields, i);
    assert !fields[i].ltype.Extension? by { RequiredIsNoExtension(fields[i]); }
    FindsField(fields, i, 0);
    var found := FindField(fields, tag, 0);
    if found.Some? && Counted(fields, found.value) {
      var j := found.value;
      if j < i {
        RequiredBeforeGrows(fields, j, i);
      } else if i < j {
        RequiredBeforeGrows(fields, i, j);
      }
    }
  }

  lemma {:induction false} RequiredIsNoExtension(f: Field)
    requires WellFormedField(f) && f.htype.Required?
    ensures !f.ltype.Extension?
  {
  }

  /** Every number below the count is that of a required field. */
  lemma {:induction false} RequiredWithNumber(fields: seq<Field>, n: nat, k: nat) returns (i: nat)
    requires n <= |fields| && k < RequiredBefore(fields, n)
    ensures i < n && fields[i].htype.Required? && RequiredBefore(fields, i) == k
  {
    if fields[n - 1].htype.Required? && RequiredBefore(fields, n - 1) == k {
      i := n - 1;
    } else {
      i := RequiredWithNumber(fields, n - 1, k);
    }
  }

  lemma {:induction false} BelowCount(fields: seq<Field>, i: nat)
    requires Counted(fields, i)
    ensures RequiredBefore(fields, i) < RequiredCount(fields)
  {
    RequiredBeforeGrows(fields, i, |fields|);
  }

  /** Every required field, among the first 64, has its number among these. */
  ghost predicate AllRequired(fields: seq<Field>, numbers: set<nat>) {
    forall i :: 0 <= i < |fields| && Counted(fields, i) ==> fields[i].tag in numbers
  }

  /** Where the last fixed-count array, if any, is full, decoding a stream whose
      fields can be decoded succeeds exactly if it brings every required field. */
  lemma {:induction false} DecodesIffRequired(fields: seq<Field>, s: Slice, slots: seq<Slot>)
    requires WellFormed(fields)
    ensures DecMessage(fields, s, slots).Some? <==>
      var r := DecLoop(fields, s, State(slots, {}, None, 0));
      r.Some? && FixedDone(fields, r.value) && AllRequired(fields, Numbers(fields, s))
  {
    hide DecLoop, FixedDone, Numbers, Counted, WellFormed;
    var r := DecLoop(fields, s, State(slots, {}, None, 0));
    if r.Some? {
      forall i | 0 <= i < |fields| && Counted(fields, i)
        ensures RequiredBefore(fields, i) < RequiredCount(fields)
        ensures RequiredBefore(fields, i) in r.value.seen <==> fields[i].tag in Numbers(fields, s)
      {
        LoopSees(fields, s, State(slots, {}, None, 0), i);
        BelowCount(fields, i);
      }
      if AllRequired(fields, Numbers(fields, s)) {
        forall k | 0 <= k < RequiredCount(fields)
          ensures k in r.value.seen
        {
          var i := RequiredWithNumber(fields, |fields|, k);
          IsCounted(fields, i);
        }
      }
    }
  }

  lemma {:induction false} IsCounted(fields: seq<Field>, i: nat)
    requires i < |fields| && fields[i].htype.Required? && RequiredBefore(fields, i) < 64
    ensures Counted(fields, i)
  {
  }

  /** A stream without one of them never decodes, into whatever struct. */
  lemma {:induction false} MissingRequiredFails(fields: seq<Field>, s: Slice, slots: seq<Slot>, i: nat)
    requires WellFormed(fields) && Counted(fields, i) && fields[i].tag !in Numbers(fields, s)
    ensures DecMessage(fields, s, slots) == None
  {
    hide DecLoop, FixedDone, Numbers, WellFormed, DecMessage;
    DecodesIffRequired(fields, s, slots);
  }
}
