/** pb_decode.c: what a stream of bytes does to a struct. */
module PbDecode {
  import opened DbFormat
  import opened Varint
  import opened PbField
  import opened FieldIter
  import opened PbEncode

  // ---------- Pieces of the stream ----------

  /** The content of a length-delimited item, as a part of the stream. */
  datatype Span = Span(from: nat, to: nat)

  /** pb_make_string_substream. */
  function Substream(s: Slice): (r: Option<Span>)
    ensures r.Some? ==> 0 < r.value.from <= r.value.to <= |s|
  {
    var d := DecodeVarint32(s);
    if d.Ok? && d.value <= |s| - d.size then Some(Span(d.size, d.size + d.value)) else None
  }

  /** How many bytes pb_skip_varint passes over. */
  function SkipVarint(s: Slice): (r: Option<nat>)
    ensures r.Some? ==> 0 < r.value <= |s|
  {
    if s == [] then None
    else if s[0] < 0x80 then Some(1)
    else
      var rest := SkipVarint(s[1..]);
      if rest.Some? then Some(1 + rest.value) else None
  }

  /** How many bytes pb_skip_field passes over. */
  function SkipField(wireType: nat, s: Slice): (r: Option<nat>)
    ensures r.Some? ==> r.value <= |s|
  {
    if wireType == WT_VARINT then SkipVarint(s)
    else if wireType == WT_64BIT then (if |s| >= 8 then Some(8) else None)
    else if wireType == WT_STRING then (var span := Substream(s); if span.Some? then Some(span.value.to) else None)
    else if wireType == WT_32BIT then (if |s| >= 4 then Some(4) else None)
    else None
  }

  /** What pb_decode_tag finds: a tag, the end of the message, or an error. */
  datatype TagRead = Tag(tag: nat, wireType: nat, size: nat) | EndOfMessage | BadTag

  function DecTag(s: Slice): (r: TagRead)
    ensures r.Tag? ==> 0 < r.size <= |s| && r.wireType < 8
  {
    var d := DecodeVarint32(s);
    if s == [] then EndOfMessage
    else if d.Err? then BadTag
    else if d.value == 0 then EndOfMessage
    else Tag(d.value / 8, d.value % 8, d.size)
  }

  // ---------- Defaults ----------

  function DefaultValue(f: Field): Value
    decreases f
  {
    match f.ptr
    case SubFields(sub) => Msg(Defaults(sub))
    case Default(v) => v
    case Null =>
      match f.ltype
      case ByteArray => Data([])
      case CString => Data([])
      case FixedLengthBytes => Data(seq(f.dataSize, _ => 0))
      case _ => Num(0)
  }

  /** pb_field_set_to_default.  A fixed-count array keeps what memory holds. */
  function DefaultSlot(fields: seq<Field>, i: nat): Slot
    requires i < |fields|
    decreases fields, 0
  {
    var f := fields[i];
    if f.ltype.Extension? || Home(fields, i) != i then NoSlot
    else match f.htype
      case Required => Single(true, DefaultValue(f))
      case Optional => Single(f.sizeOffset == 0, DefaultValue(f))
      case Repeated => Array(if f.FixedCount() then seq(f.arraySize, _ => Unset) else [])
      case Oneof => Union(0, Unset)
  }

  /** pb_message_set_to_defaults. */
  function Defaults(fields: seq<Field>): (slots: seq<Slot>)
    ensures |slots| == |fields|
    decreases fields, 1
  {
    seq(|fields|, i requires 0 <= i < |fields| => DefaultSlot(fields, i))
  }

  // ---------- Values ----------

  /** A value and the bytes it took. */
  datatype Got = Got(value: Value, size: nat)

  function GotIf(n: int, fits: bool, size: nat): Option<Got> {
    if fits then Some(Got(Num(n), size)) else None
  }

  /** The (int32_t) cast of the low 32 bits. */
  function CastInt32(u: nat): int {
    var low := u % TWO_32;
    if low >= TWO_31 then low - TWO_32 else low
  }

  /** The pb_dec_ functions.  `base` is the struct a nested message is merged into. */
  function DecValue(f: Field, s: Slice, base: Value): (r: Option<Got>)
    ensures r.Some? ==> 0 < r.value.size <= |s|
    decreases f, 0
  {
    match f.ltype
    case Bool =>
      var d := DecodeVarint32(s);
      if d.Ok? then Some(Got(Num(if d.value != 0 then 1 else 0), d.size)) else None
    case VarInt =>
      var d := DecodeVarint(s);
      if d.Err? then None
      else
        var n := if f.dataSize == 8 then ToSigned(d.value) else CastInt32(d.value);
        GotIf(n, InSigned(n, f.dataSize), d.size)
    case UVarInt =>
      var d := DecodeVarint(s);
      if d.Err? then None else GotIf(d.value, InUnsigned(d.value, f.dataSize), d.size)
    case SVarInt =>
      var d := DecodeVarint(s);
      if d.Err? then None else GotIf(UnZigZag(d.value), InSigned(UnZigZag(d.value), f.dataSize), d.size)
    case Fixed32 => if |s| >= 4 then Some(Got(Num(DecodeFixed(s[..4])), 4)) else None
    case Fixed64 => if |s| >= 8 then Some(Got(Num(DecodeFixed(s[..8])), 8)) else None
    case ByteArray =>
      var span := Substream(s);
      if span.Some? && span.value.to - span.value.from <= PB_SIZE_MAX
          && span.value.to - span.value.from + BYTES_OFFSET <= f.dataSize then
        Some(Got(Data(s[span.value.from..span.value.to]), span.value.to))
      else None
    case CString =>
      var span := Substream(s);
      if span.Some? && span.value.to - span.value.from + 1 <= f.dataSize then
        Some(Got(Data(Text(s[span.value.from..span.value.to])), span.value.to))
      else None
    case Submessage =>
      var span := Substream(s);
      if span.None? || !f.ptr.SubFields? then None
      else
        var slots := if f.htype.Repeated? || !base.Msg? then Defaults(f.ptr.fields) else base.slots;
        var r := DecMessage(f.ptr.fields, s[span.value.from..span.value.to], slots);
        if r.Some? then Some(Got(Msg(r.value), span.value.to)) else None
    case Extension => None
    case FixedLengthBytes =>
      var span := Substream(s);
      if span.None? || span.value.to - span.value.from > PB_SIZE_MAX then None
      else if span.value.from == span.value.to then Some(Got(Data(seq(f.dataSize, _ => 0)), span.value.to))
      else if span.value.to - span.value.from == f.dataSize then
          Some(Got(Data(s[span.value.from..span.value.to]), span.value.to))
      else None
  }

  // ---------- Fields ----------

  /** The state of pb_decode_noinit: the struct, which of the first 64 required
      fields have been seen, and the fixed-count array being filled. */
  datatype State = State(slots: seq<Slot>, seen: set<nat>, fixedField: Option<nat>, fixedCount: nat)

  /** An array and how many entries of it have been stored. */
  datatype Entries = Entries(items: seq<Value>, count: nat) {
    function Store(v: Value): Entries {
      Entries(if count < |items| then items[count := v] else items + [v], count + 1)
    }
  }

  function DecPacked(f: Field, s: Slice, e: Entries): Option<Entries>
    decreases f, 1, |s|
  {
    if s == [] then Some(e)
    else if e.count >= f.arraySize then None
    else
      var got := DecValue(f, s, Unset);
      if got.None? then None else DecPacked(f, s[got.value.size..], e.Store(got.value.value))
  }

  /** The last fixed-count array has all its entries. */
  predicate FixedDone(fields: seq<Field>, st: State) {
    st.fixedField.Some? ==> st.fixedField.value < |fields| && st.fixedCount == fields[st.fixedField.value].arraySize
  }

  /** Notes that field i has come: it counts as seen, and a fixed-count array
      starts unless it is the one being filled.  The one before must be complete. */
  function Enter(fields: seq<Field>, i: nat, st: State): Option<State>
    requires i < |fields|
  {
    if fields[i].FixedCount() && st.fixedField != Some(i) then
      if FixedDone(fields, st) then Some(st.(fixedField := Some(i), fixedCount := 0)) else None
    else if fields[i].htype.Required? && RequiredBefore(fields, i) < MAX_REQUIRED_FIELDS then
      Some(st.(seen := st.seen + {RequiredBefore(fields, i)}))
    else Some(st)
  }

  datatype Step = Step(state: State, size: nat)

  function SlotOf(fields: seq<Field>, i: nat, st: State): Slot {
    var h := Home(fields, i);
    if h < |st.slots| then st.slots[h] else NoSlot
  }

  function SetSlot(fields: seq<Field>, i: nat, st: State, slot: Slot): State {
    var h := Home(fields, i);
    if h < |st.slots| then st.(slots := st.slots[h := slot]) else st
  }

  /** Entries stored so far: counted in the struct, or by the decoder for a fixed-count array. */
  function EntriesOf(fields: seq<Field>, i: nat, st: State): Entries
    requires i < |fields|
  {
    var slot := SlotOf(fields, i, st);
    var items := if slot.Array? then slot.items else [];
    Entries(items, if fields[i].FixedCount() then st.fixedCount else |items|)
  }

  function SetEntries(fields: seq<Field>, i: nat, st: State, e: Entries): State
    requires i < |fields|
  {
    var st' := SetSlot(fields, i, st, Array(e.items));
    if fields[i].FixedCount() then st'.(fixedCount := e.count) else st'
  }

  /** What a singular field's value is merged into. */
  function OldValue(fields: seq<Field>, i: nat, st: State): Value
    requires i < |fields|
  {
    var f, slot := fields[i], SlotOf(fields, i, st);
    if f.htype.Oneof? && f.ltype.Submessage? && f.ptr.SubFields? && !(slot.Union? && slot.which == f.tag) then
        Msg(Defaults(f.ptr.fields))
    else if slot.Single? || slot.Union? then slot.value
    else Unset
  }

  /** decode_static_field. */
  function DecStatic(fields: seq<Field>, i: nat, wireType: nat, s: Slice, st: State): (r: Option<Step>)
    requires i < |fields|
    ensures r.Some? ==> r.value.size <= |s|
    decreases fields, 0
  {
    var f := fields[i];
    if f.htype.Repeated? then
      var e := EntriesOf(fields, i, st);
      if wireType == WT_STRING && f.ltype.Packable() then
        var span := Substream(s);
        if span.None? then None
        else
          var e' := DecPacked(f, s[span.value.from..span.value.to], e);
          if e'.Some? then Some(Step(SetEntries(fields, i, st, e'.value), span.value.to)) else None
      else if e.count >= f.arraySize then None
      else
        var got := DecValue(f, s, Unset);
        if got.Some? then Some(Step(SetEntries(fields, i, st, e.Store(got.value.value)), got.value.size)) else None
    else
      var got := DecValue(f, s, OldValue(fields, i, st));
      if got.None? then None
      else
        var slot := if f.htype.Oneof? then Union(f.tag, got.value.value) else Single(true, got.value.value);
        Some(Step(SetSlot(fields, i, st, slot), got.value.size))
  }

  // ---------- Messages ----------

  /** The field that pb_field_iter_find stops at, in a table with distinct tags. */
  function FindField(fields: seq<Field>, tag: nat, from: nat): (r: Option<nat>)
    ensures r.Some? ==> from <= r.value < |fields| && Answers(fields[r.value], tag)
    ensures r.None? ==> forall i :: from <= i < |fields| ==> !Answers(fields[i], tag)
    decreases |fields| - from
  {
    if from >= |fields| then None
    else if Answers(fields[from], tag) then Some(from)
    else FindField(fields, tag, from + 1)
  }

  lemma {:induction false} FindsField(fields: seq<Field>, i: nat, from: nat)
    requires DistinctTags(fields) && from <= i < |fields| && !fields[i].ltype.Extension?
    ensures FindField(fields, fields[i].tag, from) == Some(i)
    decreases i - from
  {
    if from < i {
      FindsField(fields, i, from + 1);
    }
  }

  /** One field after its tag: decoded if the table has it, else skipped.  In an
      empty table the terminator, a required bool, answers to tag 0. */
  function DecRecord(fields: seq<Field>, tag: nat, wireType: nat, s: Slice, st: State): (r: Option<Step>)
    ensures r.Some? ==> r.value.size <= |s|
    decreases fields, 1, 0
  {
    var found := FindField(fields, tag, 0);
    if found.Some? then
      var entered := Enter(fields, found.value, st);
      if entered.Some? then DecStatic(fields, found.value, wireType, s, entered.value) else None
    else if fields == [] && tag == 0 then
      var d := DecodeVarint32(s);
      if d.Ok? then Some(Step(st.(seen := st.seen + {0}), d.size)) else None
    else
      var n := SkipField(wireType, s);
      if n.Some? then Some(Step(st, n.value)) else None
  }

  /** The loop of pb_decode_noinit. */
  function DecLoop(fields: seq<Field>, s: Slice, st: State): Option<State>
    decreases fields, 1, |s|
  {
    match DecTag(s)
    case EndOfMessage => Some(st)
    case BadTag => None
    case Tag(tag, wireType, size) =>
      var step := DecRecord(fields, tag, wireType, s[size..], st);
      if step.None? then None else DecLoop(fields, s[size + step.value.size..], step.value.state)
  }

  /** How many required fields are checked. */
  function RequiredCount(fields: seq<Field>): nat {
    var n := RequiredBefore(fields, |fields|);
    if n > MAX_REQUIRED_FIELDS then MAX_REQUIRED_FIELDS else n
  }

  /** The checks after the loop. */
  predicate Complete(fields: seq<Field>, st: State) {
    && FixedDone(fields, st)
    && forall k :: 0 <= k < RequiredCount(fields) ==> k in st.seen
  }

  /** pb_decode_noinit, on a struct that already has contents. */
  function DecMessage(fields: seq<Field>, s: Slice, slots: seq<Slot>): Option<seq<Slot>>
    decreases fields, 2
  {
    var r := DecLoop(fields, s, State(slots, {}, None, 0));
    if r.Some? && Complete(fields, r.value) then Some(r.value.slots) else None
  }

  /** pb_decode. */
  function Decode(fields: seq<Field>, s: Slice): Option<seq<Slot>> {
    DecMessage(fields, s, Defaults(fields))
  }
}
