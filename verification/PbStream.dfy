/** The stream code of pb_decode.c, proved against the functions of PbDecode. */
module PbStream {
  import opened DbFormat
  import opened Varint
  import opened PbField
  import FieldIter
  import PbEncode
  import opened PbDecode

  // ---------- Input streams ----------

  class IStream {
    const data: Slice                  // the memory the stream points into
    var state: nat
    var bytesLeft: nat

    ghost predicate Valid()
      reads this
    {
      state + bytesLeft <= |data|
    }

    /** What can still be read. */
    ghost function Rest(): Slice
      reads this
      requires Valid()
    {
      data[state..state + bytesLeft]
    }

    ghost function End(): nat
      reads this
    {
      state + bytesLeft
    }

    constructor (data: Slice, state: nat, bytesLeft: nat)
      requires state + bytesLeft <= |data|
      ensures Valid() && this.data == data && this.state == state && this.bytesLeft == bytesLeft
    {
      this.data, this.state, this.bytesLeft := data, state, bytesLeft;
    }

    /** pb_read. */
    method Read(count: nat) returns (ok: bool, bytes: Slice)
      requires Valid()
      modifies this
      ensures Valid() && End() == old(End())
      ensures ok <==> count <= old(bytesLeft)
      ensures ok ==> bytes == old(Rest())[..count] && Rest() == old(Rest())[count..]
    {
      if count == 0 {
        return true, [];
      }
      if bytesLeft < count {
        return false, [];
      }
      bytes := data[state..state + count];
      state := state + count;
      bytesLeft := bytesLeft - count;
      return true, bytes;
    }

    /** pb_readbyte. */
    method ReadByte() returns (ok: bool, byte: Byte)
      requires Valid()
      modifies this
      ensures Valid() && End() == old(End())
      ensures ok <==> old(bytesLeft) > 0
      ensures ok ==> byte == old(Rest())[0] && Rest() == old(Rest())[1..]
      ensures !ok ==> Rest() == old(Rest())
    {
      if bytesLeft == 0 {
        return false, 0;
      }
      byte := data[state];
      state := state + 1;
      bytesLeft := bytesLeft - 1;
      return true, byte;
    }

    /** pb_decode_varint32. */
    method ReadVarint32() returns (ok: bool, value: Uint32)
      requires Valid()
      modifies this
      ensures Valid() && End() == old(End())
      ensures ok <==> DecodeVarint32(old(Rest())).Ok?
      ensures ok ==>
          && value == DecodeVarint32(old(Rest())).value
          && Rest() == old(Rest())[DecodeVarint32(old(Rest())).size..]
    {
      hide Or, Pow2, Decode32From;
      ghost var s := Rest();
      var byte;
      ok, byte := ReadByte();
      if !ok {
        return false, 0;
      }
      if byte < 0x80 {
        return true, byte;
      }
      var bitpos: Byte := 7;
      var result: Uint32 := byte % 0x80;
      ghost var i := 1;
      while true
        invariant Valid() && End() == old(End()) && i <= |s| && Rest() == s[i..]
        invariant DecodeVarint32(s) == Decode32From(s, i, bitpos, result)
        decreases |s| - i
      {
        Decode32Ends(s, i, bitpos, result);
        ok, byte := ReadByte();
        if !ok {
          return false, 0;
        }
        Decode32Step(s, i, bitpos, result);
        if bitpos >= 32 {
          if byte % 0x80 != 0 && (result < TWO_31 || byte != SignExtension(bitpos)) {
            return false, 0;
          }
        } else {
          result := Or(result, byte % 0x80 * Pow2(bitpos) % TWO_32) % TWO_32;
        }
        bitpos := (bitpos + 7) % 0x100;
        i := i + 1;
        if byte < 0x80 {
          break;
        }
      }
      if bitpos == 35 && byte / 0x10 % 8 != 0 {
        return false, 0;
      }
      return true, result;
    }

    /** pb_decode_varint. */
    method ReadVarint() returns (ok: bool, value: Uint64)
      requires Valid()
      modifies this
      ensures Valid() && End() == old(End())
      ensures ok <==> DecodeVarint(old(Rest())).Ok?
      ensures ok ==> value == DecodeVarint(old(Rest())).value && Rest() == old(Rest())[DecodeVarint(old(Rest())).size..]
    {
      hide Or, Pow2;
      ghost var s := Rest();
      var i := 0;
      value := 0;
      while true
        invariant Valid() && End() == old(End()) && i <= |s| && Rest() == s[i..]
        invariant DecodeVarint(s) == Decode64From(s, i, value)
        decreases |s| - i
      {
        if 7 * i >= 64 {
          return false, 0;
        }
        var byte;
        ok, byte := ReadByte();
        if !ok {
          return false, 0;
        }
        value := Or(value, byte % 0x80 * Pow2(7 * i) % TWO_64) % TWO_64;
        i := i + 1;
        if byte < 0x80 {
          return true, value;
        }
      }
    }

    /** pb_skip_varint. */
    method SkipVarintBytes() returns (ok: bool)
      requires Valid()
      modifies this
      ensures Valid() && End() == old(End())
      ensures ok <==> SkipVarint(old(Rest())).Some?
      ensures ok ==> Rest() == old(Rest())[SkipVarint(old(Rest())).value..]
    {
      ghost var s := Rest();
      ghost var i := 0;
      while true
        invariant Valid() && End() == old(End()) && i <= |s| && Rest() == s[i..]
        invariant SkipVarint(s) == var r := SkipVarint(s[i..]); if r.Some? then Some(i + r.value) else None
        decreases |s| - i
      {
        assert s[i..] != [] ==> s[i..][1..] == s[i + 1..];
        var bytes;
        ok, bytes := Read(1);
        if !ok {
          return;
        }
        i := i + 1;
        if bytes[0] < 0x80 {
          return;
        }
      }
    }

    /** pb_decode_tag: a tag, or none at the end of the message or because of an error. */
    method ReadTag() returns (ok: bool, eof: bool, wireType: nat, tag: nat)
      requires Valid() && bytesLeft > 0
      modifies this
      ensures Valid() && End() == old(End())
      ensures ok <==> DecTag(old(Rest())).Tag?
      ensures !ok ==> (eof <==> DecTag(old(Rest())).EndOfMessage?)
      ensures ok ==> var r := DecTag(old(Rest()));
        && r.tag == tag && r.wireType == wireType
        && Rest() == old(Rest())[r.size..]
    {
      hide DecodeVarint32;
      var temp;
      ok, temp := ReadVarint32();
      if !ok {
        return false, false, 0, 0;
      }
      if temp == 0 {
        return false, true, 0, 0;
      }
      return true, false, temp % 8, temp / 8;
    }

    /** pb_skip_field. */
    method Skip(wireType: nat) returns (ok: bool)
      requires Valid()
      modifies this
      ensures Valid() && End() == old(End())
      ensures ok <==> SkipField(wireType, old(Rest())).Some?
      ensures ok ==> Rest() == old(Rest())[SkipField(wireType, old(Rest())).value..]
    {
      hide DecodeVarint32;
      var bytes;
      if wireType == PbEncode.WT_VARINT {
        ok := SkipVarintBytes();
      } else if wireType == PbEncode.WT_64BIT {
        ok, bytes := Read(8);
      } else if wireType == PbEncode.WT_STRING {
        var length;
        ok, length := ReadVarint32();
        if ok {
          ok, bytes := Read(length);
        }
      } else if wireType == PbEncode.WT_32BIT {
        ok, bytes := Read(4);
      } else {
        ok := false;
      }
    }

    /** pb_make_string_substream.  This stream stays at the start of the content
        until the substream is closed. */
    method MakeSubstream() returns (ok: bool, sub: IStream)
      requires Valid()
      modifies this
      ensures Valid() && End() <= old(End()) && fresh(sub) && sub.Valid() && sub.data == data
      ensures ok <==> Substream(old(Rest())).Some?
      ensures ok ==>
        var s, span := old(Rest()), Substream(old(Rest())).value;
        && sub.Rest() == s[span.from..span.to]
        && sub.End() == old(state) + span.to
        && bytesLeft == |s| - span.to && End() <= old(End())
    {
      hide DecodeVarint32;
      var size;
      ok, size := ReadVarint32();
      sub := new IStream(data, state, 0);
      if !ok {
        return;
      }
      if bytesLeft < size {
        return false, sub;
      }
      SliceOfSlice(data, old(state), old(bytesLeft), state - old(state), size);
      sub.bytesLeft := size;
      bytesLeft := bytesLeft - size;
    }

    /** pb_close_string_substream: on to the end of the content. */
    method CloseSubstream(sub: IStream)
      requires Valid() && sub.Valid() && sub.data == data && sub.End() + bytesLeft <= |data| && sub != this
      modifies this, sub
      ensures Valid() && state == old(sub.End()) && bytesLeft == old(bytesLeft)
    {
      if sub.bytesLeft > 0 {
        var _, _ := sub.Read(sub.bytesLeft);
      }
      state := sub.state;
    }
  }

  lemma SliceOfSlice(data: Slice, at: nat, length: nat, from: nat, size: nat)
    requires at + length <= |data| && from + size <= length
    ensures data[at..at + length][from..from + size] == data[at + from..at + from + size]
  {
    var part, whole := data[at..at + length][from..from + size], data[at + from..at + from + size];
    forall i | 0 <= i < size
      ensures part[i] == whole[i]
    {
      assert part[i] == data[at..at + length][from + i];
    }
  }

  /** The content of a length-delimited item is what is read after its length. */
  lemma ContentAfterLength(s: Slice)
    ensures DecodeVarint32(s).Err? ==> Substream(s).None?
    ensures var d := DecodeVarint32(s);
      d.Ok? ==>
        && (Substream(s).Some? <==> d.value <= |s[d.size..]|)
        && (Substream(s).Some? ==>
              var span := Substream(s).value;
              && span.from == d.size && span.to - span.from == d.value
              && s[span.from..span.to] == s[d.size..][..d.value] && s[span.to..] == s[d.size..][d.value..])
  {
    hide DecodeVarint32;
  }

  lemma {:induction false} Decode32Ends(s: Slice, i: nat, bitpos: Byte, result: Uint32)
    ensures i >= |s| ==> Decode32From(s, i, bitpos, result) == Err(EndOfStream)
  {
  }

  // ---------- Structs ----------

  class Struct {
    var slots: seq<Slot>

    constructor (slots: seq<Slot>)
      ensures this.slots == slots
    {
      this.slots := slots;
    }
  }

  /** pb_message_set_to_defaults. */
  method SetToDefaults(fields: seq<Field>, dest: Struct)
    requires WellFormed(fields) && |dest.slots| == |fields|
    requires forall i :: 0 <= i < |fields| && (fields[i].ltype.Extension? || Home(fields, i) != i) ==>
        dest.slots[i] == NoSlot
    modifies dest
    ensures dest.slots == Defaults(fields)
    decreases fields
  {
    hide WellFormedField, DefaultSlot, DefaultsUpTo, DefaultValue;
    TagsAreNonZero(fields);
    NothingSet(fields, dest.slots);
    var iter := new FieldIter.FieldIterator(fields);
    var more := iter.Begin();
    while more
      invariant iter.Valid() && iter.start == fields && fresh(iter)
      invariant more ==> iter.pos < |fields|
      invariant |dest.slots| == |fields|
      invariant DefaultsUpTo(fields, dest.slots, if more then iter.pos else |fields|)
      decreases if more then |fields| - iter.pos else 0
    {
      var i := iter.pos;
      var f, h := fields[i], Home(fields, i);
      SetsDefault(fields, dest.slots, i);
      if !f.ltype.Extension? {
        if f.htype.Oneof? {
          dest.slots := dest.slots[h := Union(0, Unset)];
        } else if f.htype.Repeated? {
          dest.slots := dest.slots[h := Array(if f.FixedCount() then seq(f.arraySize, _ => Unset) else [])];
        } else {
          var value := InitialValue(f);
          dest.slots := dest.slots[h := Single(f.htype.Required? || f.sizeOffset == 0, value)];
        }
      }
      more := iter.Next();
    }
    AllSet(fields, dest.slots);
  }

  /** The first n fields have their defaults; what has no slot has none. */
  ghost predicate DefaultsUpTo(fields: seq<Field>, slots: seq<Slot>, n: nat) {
    && |slots| == |fields|
    && (forall i :: 0 <= i < n && i < |fields| ==> slots[i] == DefaultSlot(fields, i))
    && (forall i :: 0 <= i < |fields| && (fields[i].ltype.Extension? || Home(fields, i) != i) ==> slots[i] == NoSlot)
  }

  lemma {:induction false} NothingSet(fields: seq<Field>, slots: seq<Slot>)
    requires |slots| == |fields|
    requires forall i :: 0 <= i < |fields| && (fields[i].ltype.Extension? || Home(fields, i) != i) ==>
        slots[i] == NoSlot
    ensures DefaultsUpTo(fields, slots, 0)
  {
  }

  lemma {:induction false} AllSet(fields: seq<Field>, slots: seq<Slot>)
    requires DefaultsUpTo(fields, slots, |fields|)
    ensures slots == Defaults(fields)
  {
  }

  lemma SetsDefault(fields: seq<Field>, slots: seq<Slot>, i: nat)
    requires WellFormed(fields) && i < |fields| && DefaultsUpTo(fields, slots, i)
    ensures |slots| == |fields| && (fields[i].ltype.Extension? ==> DefaultsUpTo(fields, slots, i + 1))
    ensures !fields[i].ltype.Extension? ==>
      var f := fields[i];
      var slot := match f.htype
        case Oneof => Union(0, Unset)
        case Repeated => Array(if f.FixedCount() then seq(f.arraySize, _ => Unset) else [])
        case _ => Single(f.htype.Required? || f.sizeOffset == 0, DefaultValue(f));
      DefaultsUpTo(fields, slots[Home(fields, i) := slot], i + 1)
  {
    hide DefaultValue;
    HomeDefault(fields, i);
  }

  lemma {:induction false} TagsAreNonZero(fields: seq<Field>)
    requires WellFormed(fields)
    ensures forall i :: 0 <= i < |fields| ==> fields[i].tag != 0 && WellFormedField(fields[i])
  {
  }

  /** A later member of a union leaves the union's slot at its default. */
  lemma {:induction false} HomeDefault(fields: seq<Field>, i: nat)
    requires WellFormed(fields) && i < |fields|
    ensures fields[i].htype.Oneof? ==> DefaultSlot(fields, Home(fields, i)) == Union(0, Unset)
  {
    if SharesUnion(fields, i) {
      HomeDefault(fields, i - 1);
    }
  }

  /** The default of one datum; a nested struct is set to its own defaults. */
  method InitialValue(f: Field) returns (v: Value)
    requires WellFormedField(f)
    ensures v == DefaultValue(f)
    decreases f
  {
    match f.ptr {
      case SubFields(sub) =>
        if f.ltype.Submessage? {
          var inner := new Struct(seq(|sub|, _ => NoSlot));
          SetToDefaults(sub, inner);
          v := Msg(inner.slots);
        } else {
          v := DefaultValue(f);
        }
      case Default(value) => v := value;
      case Null => v := DefaultValue(f);
    }
  }

  // ---------- Values ----------

  /** The pb_dec_ functions. */
  method DecodeValue(stream: IStream, f: Field, base: Value) returns (ok: bool, v: Value)
    requires stream.Valid() && WellFormedField(f)
    modifies stream
    ensures stream.Valid() && stream.End() <= old(stream.End())
    ensures ok <==> DecValue(f, old(stream.Rest()), base).Some?
    ensures ok ==>
      var got := DecValue(f, old(stream.Rest()), base).value;
      v == got.value && stream.End() == old(stream.End()) && stream.Rest() == old(stream.Rest())[got.size..]
    decreases f, 0
  {
    match f.ltype {
      case Bool =>
        var n;
        ok, n := stream.ReadVarint32();
        v := Num(if n != 0 then 1 else 0);
      case VarInt =>
        var n;
        ok, n := stream.ReadVarint();
        var svalue := if f.dataSize == 8 then ToSigned(n) else CastInt32(n);
        v := Num(svalue);
        ok := ok && PbEncode.InSigned(svalue, f.dataSize);
      case UVarInt =>
        var n;
        ok, n := stream.ReadVarint();
        v := Num(n);
        ok := ok && PbEncode.InUnsigned(n, f.dataSize);
      case SVarInt =>
        var n;
        ok, n := stream.ReadVarint();
        v := Num(UnZigZag(n));
        ok := ok && PbEncode.InSigned(UnZigZag(n), f.dataSize);
      case Fixed32 =>
        var bytes;
        ok, bytes := stream.Read(4);
        v := if ok then Num(DecodeFixed(bytes)) else Unset;
      case Fixed64 =>
        var bytes;
        ok, bytes := stream.Read(8);
        v := if ok then Num(DecodeFixed(bytes)) else Unset;
      case Submessage =>
        ok, v := DecodeSubmessage(stream, f, base);
      case Extension =>
        return false, Unset;
      case _ =>
        ok, v := DecodeBytes(stream, f);
    }
  }

  /** pb_dec_bytes, pb_dec_string and pb_dec_fixed_length_bytes. */
  method DecodeBytes(stream: IStream, f: Field) returns (ok: bool, v: Value)
    requires stream.Valid() && (f.ltype.ByteArray? || f.ltype.CString? || f.ltype.FixedLengthBytes?)
    modifies stream
    ensures stream.Valid() && stream.End() == old(stream.End())
    ensures ok <==> DecValue(f, old(stream.Rest()), Unset).Some?
    ensures ok ==>
      var got := DecValue(f, old(stream.Rest()), Unset).value;
      v == got.value && stream.Rest() == old(stream.Rest())[got.size..]
  {
    hide DecodeVarint32, PbEncode.Text, Substream;
    v := Unset;
    ContentAfterLength(stream.Rest());
    var size, bytes;
    ok, size := stream.ReadVarint32();
    if !ok {
      return;
    }
    if f.ltype.CString? {
      if size + 1 > f.dataSize {
        return false, v;
      }
    } else if size > PB_SIZE_MAX {
      return false, v;
    } else if f.ltype.ByteArray? {
      if size + BYTES_OFFSET > f.dataSize {
        return false, v;
      }
    } else if size == 0 {
      v := Data(seq(f.dataSize, _ => 0));
      return true, v;
    } else if size != f.dataSize {
      return false, v;
    }
    ok, bytes := stream.Read(size);
    if ok {
      v := Data(if f.ltype.CString? then PbEncode.Text(bytes) else bytes);
    }
  }

  /** pb_dec_submessage. */
  method DecodeSubmessage(stream: IStream, f: Field, base: Value) returns (ok: bool, v: Value)
    requires stream.Valid() && WellFormedField(f) && f.ltype.Submessage?
    modifies stream
    ensures stream.Valid() && stream.End() <= old(stream.End())
    ensures ok <==> DecValue(f, old(stream.Rest()), base).Some?
    ensures ok ==>
      var got := DecValue(f, old(stream.Rest()), base).value;
      v == got.value && stream.End() == old(stream.End()) && stream.Rest() == old(stream.Rest())[got.size..]
    decreases f, 0, 0
  {
    hide DecodeVarint32, Substream, DecMessage, Defaults, WellFormed;
    v := Unset;
    ghost var s := stream.Rest();
    var sub;
    ok, sub := stream.MakeSubstream();
    if !ok {
      return;
    }
    var fields := f.ptr.fields;
    var inner := new Struct(if f.htype.Repeated? || !base.Msg? then [] else base.slots);
    if f.htype.Repeated? || !base.Msg? {
      ok := DecodeMessage(sub, fields, inner);
    } else {
      ok := DecodeNoinit(sub, fields, inner);
    }
    stream.CloseSubstream(sub);
    v := Msg(inner.slots);
  }

  // ---------- Fields ----------

  /** The packed branch of decode_static_field. */
  method DecodePacked(stream: IStream, f: Field, before: Entries) returns (ok: bool, e: Entries)
    requires stream.Valid() && WellFormedField(f)
    modifies stream
    ensures stream.Valid() && stream.End() <= old(stream.End())
    ensures ok <==> (Substream(old(stream.Rest())).Some?
                     && var s, span := old(stream.Rest()), Substream(old(stream.Rest())).value;
                        DecPacked(f, s[span.from..span.to], before).Some?)
    ensures ok ==>
      var s, span := old(stream.Rest()), Substream(old(stream.Rest())).value;
      && e == DecPacked(f, s[span.from..span.to], before).value
      && stream.End() == old(stream.End()) && stream.Rest() == s[span.to..]
    decreases f, 1
  {
    hide DecodeVarint32, Substream, DecValue, WellFormedField;
    e := before;
    ghost var s := stream.Rest();
    var sub;
    ok, sub := stream.MakeSubstream();
    if !ok {
      return;
    }
    ghost var end, payload, at, after := sub.End(), sub.Rest(), stream.state, stream.bytesLeft;
    var status := true;
    while status && sub.bytesLeft > 0 && e.count < f.arraySize
      invariant sub.Valid() && sub.End() <= end && sub.data == stream.data && fresh(sub)
      invariant stream.state == at && stream.bytesLeft == after
      invariant status ==> sub.End() == end && DecPacked(f, payload, before) == DecPacked(f, sub.Rest(), e)
      invariant !status ==> DecPacked(f, payload, before).None?
      decreases status, sub.bytesLeft
    {
      var v;
      ghost var left := sub.Rest();
      status, v := DecodeValue(sub, f, Unset);
      if status {
        e := e.Store(v);
      }
    }
    if sub.bytesLeft != 0 {
      return false, e;
    }
    stream.CloseSubstream(sub);
    return status, e;
  }

  /** decode_static_field, on the state pb_decode_noinit has reached. */
  method DecodeStatic(stream: IStream, wireType: nat, fields: seq<Field>, i: nat, dest: Struct, st: State)
    returns (ok: bool, fixedCount: nat)
    requires stream.Valid() && WellFormed(fields) && i < |fields| && st.slots == dest.slots
    modifies stream, dest
    ensures stream.Valid() && stream.End() <= old(stream.End())
    ensures ok <==> DecStatic(fields, i, wireType, old(stream.Rest()), st).Some?
    ensures ok ==>
      var step := DecStatic(fields, i, wireType, old(stream.Rest()), st).value;
      && step.state == State(dest.slots, st.seen, st.fixedField, fixedCount)
      && stream.End() == old(stream.End()) && stream.Rest() == old(stream.Rest())[step.size..]
    decreases fields, 0, 0
  {
    hide Substream, DecValue, DecPacked, WellFormedField;
    TagsAreNonZero(fields);
    var f := fields[i];
    fixedCount := st.fixedCount;
    var v;
    if f.htype.Repeated? {
      var e := EntriesOf(fields, i, st);
      if wireType == PbEncode.WT_STRING && f.ltype.Packable() {
        ok, e := DecodePacked(stream, f, e);
      } else if e.count >= f.arraySize {
        return false, fixedCount;
      } else {
        ok, v := DecodeValue(stream, f, Unset);
        e := e.Store(v);
      }
      if ok {
        dest.slots := SetEntries(fields, i, st, e).slots;
        fixedCount := SetEntries(fields, i, st, e).fixedCount;
      }
    } else {
      ok, v := DecodeValue(stream, f, OldValue(fields, i, st));
      if ok {
        dest.slots := SetSlot(fields, i, st, if f.htype.Oneof? then Union(f.tag, v) else Single(true, v)).slots;
      }
    }
  }

  // ---------- Messages ----------

  /** pb_decode. */
  method DecodeMessage(stream: IStream, fields: seq<Field>, dest: Struct) returns (ok: bool)
    requires stream.Valid() && WellFormed(fields)
    modifies stream, dest
    ensures stream.Valid() && stream.End() <= old(stream.End())
    ensures ok <==> Decode(fields, old(stream.Rest())).Some?
    ensures ok ==> stream.End() == old(stream.End()) && dest.slots == Decode(fields, old(stream.Rest())).value
    decreases fields, 2
  {
    hide WellFormed, DefaultSlot;
    dest.slots := seq(|fields|, _ => NoSlot);
    SetToDefaults(fields, dest);
    ok := DecodeNoinit(stream, fields, dest);
  }

  /** No field has the tag: it is skipped. */
  lemma {:induction false} SkipsRecord(fields: seq<Field>, tag: nat, wireType: nat, s: Slice, st: State)
    requires forall i :: 0 <= i < |fields| ==> !FieldIter.Answers(fields[i], tag)
    requires fields == [] ==> tag != 0
    ensures DecRecord(fields, tag, wireType, s, st) ==
      var n := SkipField(wireType, s); if n.Some? then Some(Step(st, n.value)) else None
  {
    hide SkipField, DecStatic, Enter;
  }

  /** The iterator stands at the field with the tag, or at the terminator. */
  lemma {:induction false} DecodesRecord(fields: seq<Field>, i: nat, tag: nat, wireType: nat, s: Slice, st: State)
    requires WellFormed(fields) && FieldIter.Answers(At(fields, i), tag) && (fields != [] ==> i < |fields|)
    ensures DecRecord(fields, tag, wireType, s, st) ==
      if fields == [] then
        var d := DecodeVarint32(s); if d.Ok? then Some(Step(st.(seen := st.seen + {0}), d.size)) else None
      else
        var entered := Enter(fields, i, st); if entered.Some? then
            DecStatic(fields, i, wireType, s, entered.value) else None
  {
    hide SkipField, DecStatic, Enter, WellFormedField;
    if fields != [] {
      FindsField(fields, i, 0);
    }
  }

  /** decode_field at the iterator's position. */
  method DecodeField(stream: IStream, wireType: nat, iter: FieldIter.FieldIterator, ghost tag: nat, dest: Struct,
      before: State)
    returns (ok: bool, st: State)
    requires stream.Valid() && WellFormed(iter.start) && before.slots == dest.slots
    requires iter.Valid() && FieldIter.Answers(At(iter.start, iter.pos), tag)
    modifies stream, dest
    ensures stream.Valid() && stream.End() <= old(stream.End())
    ensures ok <==> DecRecord(iter.start, tag, wireType, old(stream.Rest()), before).Some?
    ensures ok ==>
      var step := DecRecord(iter.start, tag, wireType, old(stream.Rest()), before).value;
      && st == step.state && dest.slots == st.slots
      && stream.End() == old(stream.End()) && stream.Rest() == old(stream.Rest())[step.size..]
    decreases iter.start, 0, 1
  {
    hide WellFormed, DecRecord, DecStatic, DecodeVarint32;
    var fields, i := iter.start, iter.pos;
    DecodesRecord(fields, i, tag, wireType, stream.Rest(), before);
    st := before;
    if fields == [] {
      // The terminator: a required bool.
      var value;
      ok, value := stream.ReadVarint32();
      st := st.(seen := st.seen + {iter.requiredFieldIndex});
      return;
    }
    var f := fields[i];
    if f.FixedCount() {
      if st.fixedField != Some(i) {
        if !FixedDone(fields, st) {
          return false, st;
        }
        st := st.(fixedField := Some(i), fixedCount := 0);
      }
    }
    if f.htype.Required? && iter.requiredFieldIndex < MAX_REQUIRED_FIELDS {
      st := st.(seen := st.seen + {iter.requiredFieldIndex});
    }
    var fixedCount;
    ok, fixedCount := DecodeStatic(stream, wireType, fields, i, dest, st);
    st := State(dest.slots, st.seen, st.fixedField, fixedCount);
  }

  /** The checks after the loop of pb_decode_noinit.  The required fields are
      counted by taking the iterator to the end of the table. */
  method CheckComplete(iter: FieldIter.FieldIterator, st: State) returns (ok: bool)
    requires iter.Valid() && WellFormed(iter.start)
    modifies iter
    ensures ok <==> Complete(iter.start, st)
  {
    hide WellFormed;
    var fields := iter.start;
    TagsAreNonZero(fields);
    if !FixedDone(fields, st) {
      return false;
    }
    var reqFieldCount, lastIsRequired;
    while true
      invariant iter.Valid() && iter.start == fields
      decreases |fields| - iter.pos
    {
      reqFieldCount := iter.requiredFieldIndex;
      lastIsRequired := At(fields, iter.pos).htype.Required?;
      var more := iter.Next();
      if !more {
        break;
      }
    }
    if lastIsRequired && At(fields, iter.pos).tag != 0 {
      reqFieldCount := reqFieldCount + 1;
    }
    if reqFieldCount > MAX_REQUIRED_FIELDS {
      reqFieldCount := MAX_REQUIRED_FIELDS;
    }
    assert reqFieldCount == RequiredCount(fields);
    var k := 0;
    while k < reqFieldCount
      invariant 0 <= k <= reqFieldCount
      invariant forall j :: 0 <= j < k ==> j in st.seen
    {
      if k !in st.seen {
        return false;
      }
      k := k + 1;
    }
    return true;
  }

  /** pb_decode_noinit. */
  method DecodeNoinit(stream: IStream, fields: seq<Field>, dest: Struct) returns (ok: bool)
    requires stream.Valid() && WellFormed(fields)
    modifies stream, dest
    ensures stream.Valid() && stream.End() <= old(stream.End())
    ensures ok <==> DecMessage(fields, old(stream.Rest()), old(dest.slots)).Some?
    ensures ok ==>
        && stream.End() == old(stream.End())
        && dest.slots == DecMessage(fields, old(stream.Rest()), old(dest.slots)).value
    decreases fields, 1
  {
    hide DecLoop, WellFormed, DecTag, DecRecord, SkipField, Complete;
    TagsAreNonZero(fields);
    ghost var s0, st0 := stream.Rest(), State(dest.slots, {}, None, 0);
    var st := State(dest.slots, {}, None, 0);
    ghost var atEnd := false;
    var extensionRangeStart := 0;
    var iter := new FieldIter.FieldIterator(fields);
    while stream.bytesLeft > 0
      invariant stream.Valid() && stream.End() == old(stream.End())
      invariant iter.Valid() && iter.start == fields && fresh(iter)
      invariant st.slots == dest.slots
      invariant !atEnd && DecLoop(fields, s0, st0) == DecLoop(fields, stream.Rest(), st)
      decreases stream.bytesLeft
    {
      LoopContinues(fields, stream.Rest(), st);
      var eof, wireType, tag;
      ok, eof, wireType, tag := stream.ReadTag();
      if !ok {
        if eof {
          atEnd := true;
          break;
        }
        return;
      }
      ghost var payload := stream.Rest();
      var found := iter.Find(tag);
      if !found {
        if tag >= extensionRangeStart {
          var extensions := iter.FindExtension();
          extensionRangeStart := if extensions then At(fields, iter.pos).tag else TWO_32 - 1;
        }
        SkipsRecord(fields, tag, wireType, payload, st);
        ok := stream.Skip(wireType);
        if !ok {
          return;
        }
        continue;
      }
      ok, st := DecodeField(stream, wireType, iter, tag, dest, st);
      if !ok {
        return;
      }
    }
    if !atEnd {
      assert stream.Rest() == [];
      LoopContinues(fields, stream.Rest(), st);
    }
    ok := CheckComplete(iter, st);
  }

  lemma {:induction false} LoopContinues(fields: seq<Field>, s: Slice, st: State)
    ensures s == [] ==> DecLoop(fields, s, st) == Some(st)
    ensures DecTag(s).EndOfMessage? ==> DecLoop(fields, s, st) == Some(st)
    ensures DecTag(s).BadTag? ==> DecLoop(fields, s, st) == None
    ensures DecTag(s).Tag? ==>
      var t := DecTag(s);
      var step := DecRecord(fields, t.tag, t.wireType, s[t.size..], st);
      && (step.None? ==> DecLoop(fields, s, st) == None)
      && (step.Some? ==> DecLoop(fields, s, st) == DecLoop(fields, s[t.size..][step.value.size..], step.value.state))
  {
    hide DecRecord;
    if DecTag(s).Tag? {
      var t := DecTag(s);
      var step := DecRecord(fields, t.tag, t.wireType, s[t.size..], st);
      if step.Some? {
        assert s[t.size..][step.value.size..] == s[t.size + step.value.size..];
      }
    }
  }
}
