/** pb_encode.c: what a struct encodes to, and the stream code that writes it. */
module PbEncode {
  import opened DbFormat
  import opened Varint
  import opened PbField
  import opened FieldIter

  // ---------- The encoding of a struct ----------

  const WT_VARINT := 0
  const WT_64BIT := 1
  const WT_STRING := 2
  const WT_32BIT := 5

  /** One more than the largest unsigned integer of a C type of this many bytes. */
  function Limit(size: nat): nat {
    if size == 1 then 0x100 else if size == 2 then 0x1_0000 else if size == 4 then TWO_32 else if size == 8 then
        TWO_64 else 0
  }

  predicate InSigned(n: int, size: nat) {
    0 <= 2 * n + Limit(size) < 2 * Limit(size)
  }

  predicate InUnsigned(n: int, size: nat) {
    0 <= n < Limit(size)
  }

  /** The text in a character buffer: up to the first NUL, or all of it. */
  function Text(buffer: Slice): (t: Slice)
    ensures |t| <= |buffer|
  {
    if buffer == [] || buffer[0] == 0 then [] else [buffer[0]] + Text(buffer[1..])
  }

  /** pb_encode_string, and any other length-delimited payload. */
  function Delimited(payload: Slice): Slice {
    EncodeVarint(|payload| % TWO_64) + payload
  }

  function WireType(t: LType): nat {
    match t
    case Bool => WT_VARINT
    case VarInt => WT_VARINT
    case UVarInt => WT_VARINT
    case SVarInt => WT_VARINT
    case Fixed32 => WT_32BIT
    case Fixed64 => WT_64BIT
    case _ => WT_STRING
  }

  function EncTag(wireType: nat, tag: Uint32): Slice {
    EncodeVarint(tag * 8 + wireType)
  }

  function Join(a: Option<Slice>, b: Option<Slice>): Option<Slice> {
    if a.Some? && b.Some? then Some(a.value + b.value) else None
  }

  /** One datum without its tag; None if the encoder refuses it or the field
      cannot hold it. */
  function EncValue(f: Field, v: Value): Option<Slice>
    decreases f, 0
  {
    match f.ltype
    case Bool => if v.Num? then Some(EncodeVarint(if v.n != 0 then 1 else 0)) else None
    case VarInt => if v.Num? && InSigned(v.n, f.dataSize) then Some(EncodeVarint(ToUnsigned(v.n))) else None
    case UVarInt => if v.Num? && InUnsigned(v.n, f.dataSize) then Some(EncodeVarint(v.n)) else None
    case SVarInt => if v.Num? && InSigned(v.n, f.dataSize) then Some(EncodeVarint(ZigZag(v.n))) else None
    case Fixed32 => if v.Num? && InUnsigned(v.n, 4) then Some(EncodeFixed(v.n, 4)) else None
    case Fixed64 => if v.Num? && InUnsigned(v.n, 8) then Some(EncodeFixed(v.n, 8)) else None
    case ByteArray =>
      if v.Data? && |v.bytes| <= PB_SIZE_MAX && |v.bytes| + BYTES_OFFSET <= f.dataSize then
          Some(Delimited(v.bytes)) else None
    case CString => if v.Data? && |v.bytes| <= f.dataSize then Some(Delimited(Text(v.bytes))) else None
    case Submessage =>
      if v.Msg? && f.ptr.SubFields? then
        var payload := EncMessage(f.ptr.fields, v.slots);
        if payload.Some? then Some(Delimited(payload.value)) else None
      else None
    case Extension => None
    case FixedLengthBytes => if v.Data? && |v.bytes| == f.dataSize then Some(Delimited(v.bytes)) else None
  }

  /** The payload of a packed array. */
  function EncPacked(f: Field, items: seq<Value>): Option<Slice>
    decreases f, 1, |items|
  {
    if items == [] then Some([]) else Join(EncValue(f, items[0]), EncPacked(f, items[1..]))
  }

  function EncTagged(f: Field, v: Value): Option<Slice>
    decreases f, 1, 0
  {
    Join(Some(EncTag(WireType(f.ltype), f.tag)), EncValue(f, v))
  }

  /** The entries of an array that is not packed, each with its tag. */
  function EncUnpacked(f: Field, items: seq<Value>): Option<Slice>
    decreases f, 2, |items|
  {
    if items == [] then Some([]) else Join(EncTagged(f, items[0]), EncUnpacked(f, items[1..]))
  }

  function EncArray(f: Field, items: seq<Value>): Option<Slice>
    decreases f, 3, 0
  {
    if items == [] then Some([])
    else if |items| > f.arraySize then None
    else if f.ltype.Packable() then
      var payload := EncPacked(f, items);
      if payload.Some? then Some(EncTag(WT_STRING, f.tag) + Delimited(payload.value)) else None
    else EncUnpacked(f, items)
  }

  /** A field without a has-flag whose value proto3 does not send. */
  predicate IsZero(f: Field, v: Value)
    decreases f, 0
  {
    match f.ltype
    case ByteArray => v == Data([])
    case CString => v.Data? && Text(v.bytes) == []
    case FixedLengthBytes => f.dataSize == 0
    case Submessage => v.Msg? && f.ptr.SubFields? && AllDefault(f.ptr.fields, v.slots, 0)
    case _ => v == Num(0)
  }

  /** pb_check_proto3_default_value. */
  predicate IsDefault(f: Field, slot: Slot)
    decreases f, 1
  {
    if f.ltype.Extension? then true
    else match f.htype
      case Required => false
      case Repeated => !f.FixedCount() && slot == Array([])
      case Oneof => slot.Union? && slot.which == 0
      case Optional => slot.Single? && if f.sizeOffset != 0 then !slot.has else IsZero(f, slot.value)
  }

  predicate AllDefault(fields: seq<Field>, slots: seq<Slot>, i: nat)
    decreases fields, 0, |fields| - i
  {
    if i >= |fields| then true
    else Home(fields, i) < |slots| && IsDefault(fields[i], slots[Home(fields, i)]) && AllDefault(fields, slots, i + 1)
  }

  /** Whether the encoder emits the field at all. */
  predicate Present(f: Field, slot: Slot) {
    !f.ltype.Extension? &&
    match f.htype
    case Required => true
    case Optional => slot.Single? && if f.sizeOffset != 0 then slot.has else !IsDefault(f, slot)
    case Repeated => slot != Array([])
    case Oneof => slot.Union? && slot.which == f.tag
  }

  function EncField(f: Field, slot: Slot): Option<Slice>
    decreases f, 4, 0
  {
    if f.ltype.Extension? then Some([])
    else match f.htype
      case Required => if slot.Single? then EncTagged(f, slot.value) else None
      case Optional =>
        if !slot.Single? then None
        else if Present(f, slot) then EncTagged(f, slot.value) else Some([])
      case Repeated =>
        if slot.Array? && (f.FixedCount() ==> |slot.items| == f.arraySize) then EncArray(f, slot.items) else None
      case Oneof =>
        if !slot.Union? then None
        else if slot.which == f.tag then EncTagged(f, slot.value) else Some([])
  }

  /** The fields from position i on. */
  function EncFrom(fields: seq<Field>, slots: seq<Slot>, i: nat): Option<Slice>
    requires |slots| == |fields|
    decreases fields, 0, |fields| - i
  {
    if i >= |fields| then Some([])
    else Join(EncField(fields[i], slots[Home(fields, i)]), EncFrom(fields, slots, i + 1))
  }

  function EncMessage(fields: seq<Field>, slots: seq<Slot>): Option<Slice>
    decreases fields, 1
  {
    if |slots| == |fields| then EncFrom(fields, slots, 0) else None
  }

  // ---------- Output streams ----------

  /** What a stream has done: its buffer, the place it writes at, its count. */
  datatype Out = Out(content: Slice, state: nat, written: nat) {
    /** More bytes on a buffer stream, or counted by a sizing stream. */
    function After(bytes: Slice, sizing: bool): Out {
      if sizing then Out(content, state, written + |bytes|)
      else if state + |bytes| <= |content| then
        Out(content[..state] + bytes + content[state + |bytes|..], state + |bytes|, written + |bytes|)
      else this
    }
  }

  /** A buffer stream has room for what it may still write. */
  ghost predicate Sane(o: Out, sizing: bool, maxSize: nat) {
    !sizing ==> o.written <= maxSize && o.state + (maxSize - o.written) <= |o.content|
  }

  /** Between two states a call has put these bytes on the stream, or it failed
      because there were none or no room for them. */
  ghost predicate Outcome(before: Out, after: Out, sizing: bool, maxSize: nat, bytes: Option<Slice>, ok: bool) {
    && Sane(after, sizing, maxSize)
    && (ok <==> bytes.Some? && (sizing || before.written + |bytes.value| <= maxSize))
    && (ok ==> after == before.After(bytes.value, sizing))
  }

  lemma AfterBoth(o: Out, a: Slice, b: Slice, sizing: bool)
    requires sizing || o.state + |a| + |b| <= |o.content|
    ensures o.After(a, sizing).After(b, sizing) == o.After(a + b, sizing)
  {
    if !sizing {
      var once := o.After(a, false);
      var twice := once.After(b, false);
      assert once.content[..once.state] == o.content[..o.state] + a;
      assert once.content[once.state + |b|..] == o.content[o.state + |a| + |b|..];
      assert twice.content == o.content[..o.state] + (a + b) + o.content[o.state + |a + b|..];
    }
  }

  lemma NothingYet(o: Out, sizing: bool, maxSize: nat)
    requires Sane(o, sizing, maxSize)
    ensures Outcome(o, o, sizing, maxSize, Some([]), true)
  {
  }

  /** Two calls in a row put both their bytes on the stream. */
  lemma InSequence(o: Out, mid: Out, after: Out, sizing: bool, maxSize: nat, a: Option<Slice>, b: Option<Slice>,
      ok: bool)
    requires Sane(o, sizing, maxSize)
    requires Outcome(o, mid, sizing, maxSize, a, true) && Outcome(mid, after, sizing, maxSize, b, ok)
    ensures Outcome(o, after, sizing, maxSize, Join(a, b), ok)
  {
    if ok {
      AfterBoth(o, a.value, b.value, sizing);
    }
  }

  lemma JoinAssociates(a: Option<Slice>, b: Option<Slice>, c: Option<Slice>)
    ensures Join(Join(a, b), c) == Join(a, Join(b, c))
    ensures Join(Some([]), a) == a && Join(a, Some([])) == a
  {
    if a.Some? {
      assert [] + a.value == a.value && a.value + [] == a.value;
    }
    if a.Some? && b.Some? && c.Some? {
      assert a.value + b.value + c.value == a.value + (b.value + c.value);
    }
  }

  /** The loop of buf_write. */
  method CopyTo(dest: array<Byte>, at: nat, bytes: Slice)
    requires at + |bytes| <= dest.Length
    modifies dest
    ensures dest[..] == old(dest[..at]) + bytes + old(dest[at + |bytes|..])
  {
    var i := 0;
    while i < |bytes|
      invariant 0 <= i <= |bytes|
      invariant forall j :: 0 <= j < i ==> dest[at + j] == bytes[j]
      invariant forall j :: 0 <= j < dest.Length && !(at <= j < at + i) ==> dest[j] == old(dest[j])
    {
      dest[at + i] := bytes[i];
      i := i + 1;
    }
    ghost var was := old(dest[..]);
    forall j | 0 <= j < dest.Length
      ensures dest[j] == (was[..at] + bytes + was[at + |bytes|..])[j]
    {
      if at <= j < at + |bytes| {
        assert dest[at + (j - at)] == bytes[j - at];
      }
    }
  }

  class OStream {
    const buffer: array?<Byte>         // null: only count
    var state: nat
    const maxSize: nat
    var bytesWritten: nat

    ghost function Snap(): Out
      reads this, buffer
    {
      Out(if buffer == null then [] else buffer[..], state, bytesWritten)
    }

    ghost predicate Valid()
      reads this, buffer
    {
      Sane(Snap(), buffer == null, maxSize)
    }

    ghost predicate Did(before: Out, bytes: Option<Slice>, ok: bool)
      reads this, buffer
    {
      Outcome(before, Snap(), buffer == null, maxSize, bytes, ok)
    }

    constructor Sizing()
      ensures Valid() && buffer == null && bytesWritten == 0
    {
      buffer, state, maxSize, bytesWritten := null, 0, 0, 0;
    }

    constructor FromBuffer(buf: array<Byte>, state: nat, size: nat)
      requires state + size <= buf.Length
      ensures Valid() && buffer == buf && this.state == state && maxSize == size && bytesWritten == 0
    {
      this.buffer, this.state, this.maxSize, this.bytesWritten := buf, state, size, 0;
    }

    /** pb_write. */
    method Write(bytes: Slice) returns (ok: bool)
      requires Valid()
      modifies this, buffer
      ensures Did(old(Snap()), Some(bytes), ok)
    {
      if |bytes| > 0 && buffer != null {
        if bytesWritten + |bytes| > maxSize {
          return false;
        }
        CopyTo(buffer, state, bytes);
        state := state + |bytes|;
      }
      bytesWritten := bytesWritten + |bytes|;
      return true;
    }

    /** pb_write of the right number of bytes on a stream that only counts. */
    method Count(size: nat, ghost bytes: Slice) returns (ok: bool)
      requires Valid() && buffer == null && size == |bytes|
      modifies this
      ensures Did(old(Snap()), Some(bytes), ok) && ok
    {
      bytesWritten := bytesWritten + size;
      return true;
    }

    /** pb_encode_varint. */
    method PutVarint(value: Uint64) returns (ok: bool)
      requires Valid()
      modifies this, buffer
      ensures Did(old(Snap()), Some(EncodeVarint(value)), ok)
    {
      var bytes := EncodeVarintBuffer(value);
      ok := Write(bytes);
    }

    /** pb_encode_tag. */
    method PutTag(wireType: nat, tag: Uint32) returns (ok: bool)
      requires Valid() && wireType < 8
      modifies this, buffer
      ensures Did(old(Snap()), Some(EncTag(wireType, tag)), ok)
    {
      ok := PutVarint(tag * 8 + wireType);
    }

    /** pb_encode_string. */
    method PutString(payload: Slice) returns (ok: bool)
      requires Valid()
      modifies this, buffer
      ensures Did(old(Snap()), Some(Delimited(payload)), ok)
    {
      ghost var o := Snap();
      ok := PutVarint(|payload| % TWO_64);
      if !ok {
        return;
      }
      ghost var mid := Snap();
      ok := Write(payload);
      InSequence(o, mid, Snap(), buffer == null, maxSize, Some(EncodeVarint(|payload| % TWO_64)), Some(payload), ok);
    }
  }

  // ---------- Field encoders ----------

  /** The loop of pb_enc_string. */
  method TextLength(text: Slice, maxSize: nat) returns (size: nat)
    requires |text| <= maxSize
    ensures size <= |text| && text[..size] == Text(text)
  {
    size := 0;
    while size < |text| && text[size] != 0
      invariant size <= |text|
      invariant Text(text) == text[..size] + Text(text[size..])
    {
      assert text[..size + 1] == text[..size] + [text[size]];
      assert text[size..][1..] == text[size + 1..];
      size := size + 1;
    }
  }

  /** The pb_enc_ functions. */
  method PutValue(stream: OStream, f: Field, v: Value) returns (ok: bool)
    requires stream.Valid() && WellFormedField(f)
    modifies stream, stream.buffer
    ensures stream.Did(old(stream.Snap()), EncValue(f, v), ok)
    decreases f, 0
  {
    match f.ltype {
      case Bool =>
        if !v.Num? { return false; }
        ok := stream.PutVarint(if v.n != 0 then 1 else 0);
      case VarInt =>
        if !v.Num? || !InSigned(v.n, f.dataSize) { return false; }
        ok := stream.PutVarint(ToUnsigned(v.n));
      case UVarInt =>
        if !v.Num? || !InUnsigned(v.n, f.dataSize) { return false; }
        ok := stream.PutVarint(v.n);
      case SVarInt =>
        if !v.Num? || !InSigned(v.n, f.dataSize) { return false; }
        ok := stream.PutVarint(ZigZag(v.n));
      case Fixed32 =>
        if !v.Num? || !InUnsigned(v.n, 4) { return false; }
        ok := stream.Write([v.n % 0x100, v.n / 0x100 % 0x100, v.n / 0x1_0000 % 0x100, v.n / 0x100_0000 % 0x100]);
        Fixed32Bytes(v.n);
      case Fixed64 =>
        if !v.Num? || !InUnsigned(v.n, 8) { return false; }
        ok := stream.Write(EncodeFixed(v.n, 8));
      case ByteArray =>
        if !v.Data? || |v.bytes| > PB_SIZE_MAX || |v.bytes| + BYTES_OFFSET > f.dataSize { return false; }
        ok := stream.PutString(v.bytes);
      case CString =>
        if !v.Data? || |v.bytes| > f.dataSize { return false; }
        var size := TextLength(v.bytes, f.dataSize);
        ok := stream.PutString(v.bytes[..size]);
      case Submessage =>
        if !v.Msg? || |v.slots| != |f.ptr.fields| { return false; }
        ok := PutSubmessage(stream, f.ptr.fields, v.slots);
      case Extension =>
        return false;
      case FixedLengthBytes =>
        if !v.Data? || |v.bytes| != f.dataSize { return false; }
        ok := stream.PutString(v.bytes);
    }
  }

  lemma {:induction false} Fixed32Bytes(n: nat)
    ensures EncodeFixed(n, 4) == [n % 0x100, n / 0x100 % 0x100, n / 0x1_0000 % 0x100, n / 0x100_0000 % 0x100]
  {
    assert EncodeFixed(n, 4) == [n % 0x100] + EncodeFixed(n / 0x100, 3);
    assert EncodeFixed(n / 0x100, 3) == [n / 0x100 % 0x100] + EncodeFixed(n / 0x1_0000, 2);
    assert EncodeFixed(n / 0x1_0000, 2) == [n / 0x1_0000 % 0x100] + EncodeFixed(n / 0x100_0000, 1);
  }

  function DelimitedIf(payload: Option<Slice>): Option<Slice> {
    if payload.Some? then Some(Delimited(payload.value)) else None
  }

  /** A substream of exactly the payload's size takes it, and so has its parent. */
  lemma SubstreamTakesAll(mid: Out, sub: Out, maxSize: nat, payload: Slice, ok: bool)
    requires Sane(mid, false, maxSize) && mid.written + |payload| <= maxSize
    requires Outcome(Out(mid.content, mid.state, 0), sub, false, |payload|, Some(payload), ok)
    ensures ok && sub.written == |payload|
    ensures Outcome(mid, Out(sub.content, sub.state, mid.written + |payload|), false, maxSize, Some(payload), true)
  {
  }

  /** pb_encode_submessage: count first, then write the length and the content.
      The second pass cannot come out different from the first. */
  method PutSubmessage(stream: OStream, fields: seq<Field>, slots: seq<Slot>) returns (ok: bool)
    requires stream.Valid() && WellFormed(fields) && |slots| == |fields|
    modifies stream, stream.buffer
    ensures stream.Did(old(stream.Snap()), DelimitedIf(EncMessage(fields, slots)), ok)
    decreases fields, 3
  {
    hide EncMessage, EncodeVarint, WellFormed;
    ghost var o := stream.Snap();
    var substream := new OStream.Sizing();
    ok := PutMessage(substream, fields, slots);
    if !ok {
      return;
    }
    var size := substream.bytesWritten;
    ghost var payload := EncMessage(fields, slots).value;
    ok := stream.PutVarint(size % TWO_64);
    if !ok {
      return;
    }
    ghost var mid := stream.Snap();
    if stream.buffer == null {
      ok := stream.Count(size, payload);
    } else {
      if stream.bytesWritten + size > stream.maxSize {
        return false;
      }
      substream := new OStream.FromBuffer(stream.buffer, stream.state, size);
      ok := PutMessage(substream, fields, slots);
      SubstreamTakesAll(mid, substream.Snap(), stream.maxSize, payload, ok);
      stream.bytesWritten := stream.bytesWritten + substream.bytesWritten;
      stream.state := substream.state;
      if substream.bytesWritten != size {
        assert false;                  // "submsg size changed"
      }
    }
    InSequence(o, mid, stream.Snap(), stream.buffer == null, stream.maxSize, Some(EncodeVarint(size % TWO_64)),
        Some(payload), ok);
  }

  // ---------- Arrays and fields ----------

  /** A call on a stream that has taken `done` of what it is to take. */
  lemma NextPart(o: Out, mid: Out, after: Out, sizing: bool, maxSize: nat,
                 done: Slice, part: Option<Slice>, rest: Option<Slice>, ok: bool)
    requires Sane(o, sizing, maxSize)
    requires Outcome(o, mid, sizing, maxSize, Some(done), true) && Outcome(mid, after, sizing, maxSize, part, ok)
    ensures !ok ==> Outcome(o, after, sizing, maxSize, Join(Some(done), Join(part, rest)), false)
    ensures ok ==> part.Some? && Sane(after, sizing, maxSize)
    ensures ok ==> Outcome(o, after, sizing, maxSize, Some(done + part.value), true)
    ensures ok ==> Join(Some(done), Join(part, rest)) == Join(Some(done + part.value), rest)
  {
    InSequence(o, mid, after, sizing, maxSize, Some(done), part, ok);
    JoinAssociates(Some(done), part, rest);
  }

  method PutTagged(stream: OStream, f: Field, v: Value) returns (ok: bool)
    requires stream.Valid() && WellFormedField(f)
    modifies stream, stream.buffer
    ensures stream.Did(old(stream.Snap()), EncTagged(f, v), ok)
    decreases f, 1
  {
    ghost var o := stream.Snap();
    ok := stream.PutTag(WireType(f.ltype), f.tag);
    if !ok {
      return;
    }
    ghost var mid := stream.Snap();
    ok := PutValue(stream, f, v);
    InSequence(o, mid, stream.Snap(), stream.buffer == null, stream.maxSize,
               Some(EncTag(WireType(f.ltype), f.tag)), EncValue(f, v), ok);
  }

  /** The entries of a packed array. */
  method PutPacked(stream: OStream, f: Field, items: seq<Value>) returns (ok: bool)
    requires stream.Valid() && WellFormedField(f)
    modifies stream, stream.buffer
    ensures stream.Did(old(stream.Snap()), EncPacked(f, items), ok)
    decreases f, 1
  {
    ghost var o := stream.Snap();
    ghost var done: Slice := [];
    JoinAssociates(EncPacked(f, items), None, None);
    var i := 0;
    while i < |items|
      invariant 0 <= i <= |items|
      invariant stream.Did(o, Some(done), true)
      invariant EncPacked(f, items) == Join(Some(done), EncPacked(f, items[i..]))
    {
      ghost var mid := stream.Snap();
      ok := PutValue(stream, f, items[i]);
      ghost var part, rest := EncValue(f, items[i]), EncPacked(f, items[i + 1..]);
      assert items[i..][1..] == items[i + 1..];
      NextPart(o, mid, stream.Snap(), stream.buffer == null, stream.maxSize, done, part, rest, ok);
      if !ok {
        return;
      }
      done := done + part.value;
      i := i + 1;
    }
    JoinAssociates(Some(done), None, None);
    return true;
  }

  method PutUnpacked(stream: OStream, f: Field, items: seq<Value>) returns (ok: bool)
    requires stream.Valid() && WellFormedField(f)
    modifies stream, stream.buffer
    ensures stream.Did(old(stream.Snap()), EncUnpacked(f, items), ok)
    decreases f, 2
  {
    ghost var o := stream.Snap();
    ghost var done: Slice := [];
    JoinAssociates(EncUnpacked(f, items), None, None);
    var i := 0;
    while i < |items|
      invariant 0 <= i <= |items|
      invariant stream.Did(o, Some(done), true)
      invariant EncUnpacked(f, items) == Join(Some(done), EncUnpacked(f, items[i..]))
    {
      ghost var mid := stream.Snap();
      ok := PutTagged(stream, f, items[i]);
      ghost var part, rest := EncTagged(f, items[i]), EncUnpacked(f, items[i + 1..]);
      assert items[i..][1..] == items[i + 1..];
      NextPart(o, mid, stream.Snap(), stream.buffer == null, stream.maxSize, done, part, rest, ok);
      if !ok {
        return;
      }
      done := done + part.value;
      i := i + 1;
    }
    JoinAssociates(Some(done), None, None);
    return true;
  }

  /** encode_array. */
  method PutArray(stream: OStream, f: Field, items: seq<Value>) returns (ok: bool)
    requires stream.Valid() && WellFormedField(f)
    modifies stream, stream.buffer
    ensures stream.Did(old(stream.Snap()), EncArray(f, items), ok)
    decreases f, 3
  {
    if items == [] {
      return true;
    }
    if |items| > f.arraySize {
      return false;
    }
    if f.ltype.Packable() {
      ok := PutPackedField(stream, f, items);
    } else {
      ok := PutUnpacked(stream, f, items);
    }
  }

  /** Entries a fixed-width field can hold; in C there are no others. */
  predicate AllFixed(items: seq<Value>, width: nat) {
    forall i :: 0 <= i < |items| ==> items[i].Num? && InUnsigned(items[i].n, width)
  }

  lemma {:induction false} FixedPacked(f: Field, items: seq<Value>, width: nat)
    requires (f.ltype.Fixed32? && width == 4) || (f.ltype.Fixed64? && width == 8)
    requires AllFixed(items, width)
    ensures EncPacked(f, items).Some? && |EncPacked(f, items).value| == width * |items|
    decreases |items|
  {
    if items != [] {
      FixedPacked(f, items[1..], width);
    }
  }

  /** The size of a packed array: known for fixed-width entries, else counted. */
  method PackedSize(f: Field, items: seq<Value>) returns (ok: bool, size: nat)
    requires WellFormedField(f)
    ensures ok <==> EncPacked(f, items).Some?
    ensures ok ==> size == |EncPacked(f, items).value|
    decreases f, 2, 0
  {
    if f.ltype.Fixed32? && AllFixed(items, 4) {
      FixedPacked(f, items, 4);
      return true, 4 * |items|;
    }
    if f.ltype.Fixed64? && AllFixed(items, 8) {
      FixedPacked(f, items, 8);
      return true, 8 * |items|;
    }
    var sizestream := new OStream.Sizing();
    ok := PutPacked(sizestream, f, items);
    size := sizestream.bytesWritten;
  }

  method PutPackedField(stream: OStream, f: Field, items: seq<Value>) returns (ok: bool)
    requires stream.Valid() && WellFormedField(f)
    modifies stream, stream.buffer
    ensures stream.Did(old(stream.Snap()), Join(Some(EncTag(WT_STRING, f.tag)), DelimitedIf(EncPacked(f, items))), ok)
    decreases f, 2, 1
  {
    ghost var o := stream.Snap();
    ghost var tag := Some(EncTag(WT_STRING, f.tag));
    ok := stream.PutTag(WT_STRING, f.tag);
    if !ok {
      return;
    }
    ghost var tagged := stream.Snap();
    var size;
    ok, size := PackedSize(f, items);
    if !ok {
      return;
    }
    ghost var length, payload := Some(EncodeVarint(size % TWO_64)), EncPacked(f, items);
    ok := stream.PutVarint(size % TWO_64);
    InSequence(o, tagged, stream.Snap(), stream.buffer == null, stream.maxSize, tag, length, ok);
    if !ok {
      return;
    }
    ghost var mid := stream.Snap();
    if stream.buffer == null {
      ok := stream.Count(size, payload.value);
    } else {
      ok := PutPacked(stream, f, items);
    }
    InSequence(o, mid, stream.Snap(), stream.buffer == null, stream.maxSize, Join(tag, length), payload, ok);
    JoinAssociates(tag, length, payload);
  }

  /** encode_basic_field, and nothing for a placeholder without extensions. */
  method PutField(stream: OStream, f: Field, slot: Slot) returns (ok: bool)
    requires stream.Valid() && WellFormedField(f)
    modifies stream, stream.buffer
    ensures stream.Did(old(stream.Snap()), EncField(f, slot), ok)
    decreases f, 4
  {
    if f.ltype.Extension? {
      return true;
    }
    match f.htype {
      case Required =>
        if !slot.Single? { return false; }
        ok := PutTagged(stream, f, slot.value);
      case Optional =>
        if !slot.Single? { return false; }
        var has := if f.sizeOffset != 0 then slot.has else !IsDefault(f, slot);
        if has {
          ok := PutTagged(stream, f, slot.value);
        } else {
          ok := true;
        }
      case Repeated =>
        if !slot.Array? || (f.FixedCount() && |slot.items| != f.arraySize) { return false; }
        ok := PutArray(stream, f, slot.items);
      case Oneof =>
        if !slot.Union? { return false; }
        if slot.which == f.tag {
          ok := PutTagged(stream, f, slot.value);
        } else {
          ok := true;
        }
    }
  }

  /** pb_encode. */
  method PutMessage(stream: OStream, fields: seq<Field>, slots: seq<Slot>) returns (ok: bool)
    requires stream.Valid() && WellFormed(fields) && |slots| == |fields|
    modifies stream, stream.buffer
    ensures stream.Did(old(stream.Snap()), EncMessage(fields, slots), ok)
    decreases fields, 2
  {
    hide Outcome, Sane, Join, EncField;
    ghost var o := stream.Snap();
    NothingYet(o, stream.buffer == null, stream.maxSize);
    ghost var done: Slice := [];
    JoinAssociates(EncMessage(fields, slots), None, None);
    var iter := new FieldIterator(fields);
    var more := iter.Begin();
    while more
      invariant iter.Valid() && iter.start == fields && fresh(iter)
      invariant more ==> iter.pos < |fields|
      invariant stream.Valid()
      invariant stream.Did(o, Some(done), true)
      invariant EncMessage(fields, slots) == Join(Some(done), if more then
          EncFrom(fields, slots, iter.pos) else Some([]))
      decreases if more then |fields| - iter.pos else 0
    {
      ghost var mid, pos := stream.Snap(), iter.pos;
      ok := PutField(stream, fields[iter.pos], slots[Home(fields, iter.pos)]);
      ghost var part, rest := EncField(fields[pos], slots[Home(fields, pos)]), EncFrom(fields, slots, pos + 1);
      NextPart(o, mid, stream.Snap(), stream.buffer == null, stream.maxSize, done, part, rest, ok);
      if !ok {
        return;
      }
      done := done + part.value;
      more := iter.Next();
    }
    JoinAssociates(Some(done), None, None);
    return true;
  }

  // ---------- Whole buffers ----------

  /** pb_get_encoded_size: the count of the bytes that writing produces. */
  method EncodedSize(fields: seq<Field>, slots: seq<Slot>) returns (ok: bool, size: nat)
    requires WellFormed(fields) && |slots| == |fields|
    ensures ok <==> EncMessage(fields, slots).Some?
    ensures ok ==> size == |EncMessage(fields, slots).value|
  {
    hide EncMessage, WellFormed;
    var stream := new OStream.Sizing();
    ok := PutMessage(stream, fields, slots);
    size := stream.bytesWritten;
  }

  /** pb_encode to a buffer: it succeeds exactly if the encoding exists and fits,
      and touches nothing behind the encoding. */
  method EncodeToBuffer(buf: array<Byte>, fields: seq<Field>, slots: seq<Slot>) returns (ok: bool, written: nat)
    requires WellFormed(fields) && |slots| == |fields|
    modifies buf
    ensures ok <==> EncMessage(fields, slots).Some? && |EncMessage(fields, slots).value| <= buf.Length
    ensures ok ==>
        && written <= buf.Length && buf[..written] == EncMessage(fields, slots).value
        && buf[written..] == old(buf[written..])
  {
    hide EncMessage, WellFormed;
    ghost var was := buf[..];
    var stream := new OStream.FromBuffer(buf, 0, buf.Length);
    ok := PutMessage(stream, fields, slots);
    written := stream.bytesWritten;
    if ok {
      ghost var bytes := EncMessage(fields, slots).value;
      assert buf[..] == bytes + was[written..];
      assert buf[..written] == buf[..][..written] && buf[written..] == buf[..][written..];
    }
  }
}
