/** Unknown fields inside nested messages, at any depth. */
module PbNested {
  import opened DbFormat
  import opened Varint
  import opened PbField
  import opened PbEncode
  import opened PbDecode
  import opened PbRoundTrip
  import opened PbUnknown

  /** Unknown fields put in at a byte of a message, or of the content of the nested
      message whose tag is at a byte. */
  datatype Edit = Here(at: nat, unknown: Slice) | Inside(at: nat, inner: Edit)

  function Fresh(slots: seq<Slot>): State { State(slots, {}, None, 0) }

  /** The parts of a message around the content of the nested message at a byte:
      everything up to its length, the content, and what follows. */
  datatype Parts = Parts(before: Slice, content: Slice, rest: Slice)

  function Split(s: Slice, at: nat): (p: Option<Parts>)
    ensures p.Some? ==> |p.value.content| < |s|
  {
    if at > |s| || !DecTag(s[at..]).Tag? then None
    else
      var k := at + DecTag(s[at..]).size;
      var span := Substream(s[k..]);
      if span.None? then None
      else Some(Parts(s[..k], s[k + span.value.from..k + span.value.to], s[k + span.value.to..]))
  }

  /** The table of the nested message whose tag is at a byte, and what it is merged
      into when the decoder gets there. */
  datatype Nested = Nested(fields: seq<Field>, base: seq<Slot>)

  function NestedAt(fields: seq<Field>, s: Slice, st: State): (n: Option<Nested>)
    ensures n.Some? ==> exists i :: 0 <= i < |fields| && fields[i].ptr == SubFields(n.value.fields)
  {
    if !DecTag(s).Tag? then None
    else
      var found := FindField(fields, DecTag(s).tag, 0);
      if found.None? then None
      else
        var f, entered := fields[found.value], Enter(fields, found.value, st);
        if !f.ltype.Submessage? || !f.ptr.SubFields? || entered.None? then None
        else
          var base := if f.htype.Repeated? then Unset else OldValue(fields, found.value, entered.value);
          Some(Nested(f.ptr.fields, if f.htype.Repeated? || !base.Msg? then Defaults(f.ptr.fields) else base.slots))
  }

  function Apply(s: Slice, edit: Edit): Slice
    decreases edit
  {
    match edit
    case Here(at, unknown) => if at <= |s| then s[..at] + unknown + s[at..] else s
    case Inside(at, inner) =>
      var parts := Split(s, at);
      if parts.None? then s
      else parts.value.before + Delimited(Apply(parts.value.content, inner)) + parts.value.rest
  }

  /** The decoder gets to the byte field by field, the tag there is that of a nested
      message if the edit goes inside, and only unknown fields are put in.  A nested
      message stays short enough for its length prefix. */
  ghost predicate Valid(fields: seq<Field>, s: Slice, slots: seq<Slot>, edit: Edit)
    decreases edit
  {
    && edit.at <= |s| && AtBoundary(fields, s[..edit.at], Fresh(slots))
    && match edit
       case Here(at, unknown) => UnknownFields(fields, unknown)
       case Inside(at, inner) =>
         var mid := DecLoop(fields, s[..at], Fresh(slots));
         && mid.Some? && Split(s, at).Some?
         && var nested := NestedAt(fields, s[at..], mid.value);
            && nested.Some?
            && Valid(nested.value.fields, Split(s, at).value.content, nested.value.base, inner)
            && |Apply(Split(s, at).value.content, inner)| < TWO_32
  }

  /** Decoding a nested message depends only on what its content decodes to. */
  lemma {:induction false} NestedValue(f: Field, s: Slice, t: Slice, base: Value)
    requires f.ltype.Submessage? && f.ptr.SubFields? && Substream(s).Some? && Substream(t).Some?
    requires var slots := if f.htype.Repeated? || !base.Msg? then Defaults(f.ptr.fields) else base.slots;
      DecMessage(f.ptr.fields, s[Substream(s).value.from..Substream(s).value.to], slots)
      == DecMessage(f.ptr.fields, t[Substream(t).value.from..Substream(t).value.to], slots)
    ensures var x, y := DecValue(f, s, base), DecValue(f, t, base);
      && (x.Some? <==> y.Some?)
      && (x.Some? ==>
            && x.value.value == y.value.value && x.value.size == Substream(s).value.to
            && y.value.size == Substream(t).value.to)
  {
    hide DecMessage, Substream;
  }

  lemma {:induction false} NestedRecord(fields: seq<Field>, r: TagRead, s: Slice, t: Slice, st: State, nested: Nested)
    requires r.Tag? && Substream(s).Some? && Substream(t).Some?
    requires var found := FindField(fields, r.tag, 0);
      && found.Some?
      && var f, entered := fields[found.value], Enter(fields, found.value, st);
         && f.ltype.Submessage? && f.ptr == SubFields(nested.fields) && entered.Some?
         && var base := if f.htype.Repeated? then Unset else OldValue(fields, found.value, entered.value);
            nested.base == if f.htype.Repeated? || !base.Msg? then Defaults(f.ptr.fields) else base.slots
    requires DecMessage(nested.fields, s[Substream(s).value.from..Substream(s).value.to], nested.base)
          == DecMessage(nested.fields, t[Substream(t).value.from..Substream(t).value.to], nested.base)
    ensures var x, y := DecRecord(fields, r.tag, r.wireType, s, st), DecRecord(fields, r.tag, r.wireType, t, st);
      && (x.Some? <==> y.Some?)
      && (x.Some? ==>
            && x.value.state == y.value.state && x.value.size == Substream(s).value.to
            && y.value.size == Substream(t).value.to)
  {
    hide DecMessage, Substream, DecValue, Enter, OldValue, Defaults, EntriesOf, SetEntries, SetSlot, FindField;
    var i := FindField(fields, r.tag, 0).value;
    var f, entered := fields[i], Enter(fields, i, st).value;
    NestedValue(f, s, t, if f.htype.Repeated? then Unset else OldValue(fields, i, entered));
  }

  /** The bytes with another content, as the decoder reads them. */
  lemma {:induction false} Replaced(s: Slice, content: Slice)
    requires DecTag(s).Tag? && Split(s, 0).Some? && |content| < TWO_32
    ensures var r, parts := DecTag(s), Split(s, 0).value;
      var t := parts.before + Delimited(content) + parts.rest;
      && DecTag(t) == r && r.size <= |s| && r.size <= |t|
      && Substream(s[r.size..]).Some? && Substream(t[r.size..]).Some?
      && var x, y := Substream(s[r.size..]).value, Substream(t[r.size..]).value;
         && s[r.size..][x.from..x.to] == parts.content && s[r.size + x.to..] == parts.rest
         && t[r.size..][y.from..y.to] == content && t[r.size + y.to..] == parts.rest
  {
    hide Substream, DecTag, Delimited;
    var r, parts := DecTag(s), Split(s, 0).value;
    var t := parts.before + Delimited(content) + parts.rest;
    assert s[0..] == s;
    DelimitedReads(content, parts.rest);
    assert t[..r.size] == s[..r.size] && t[r.size..] == Delimited(content) + parts.rest;
    TagLocal(s, t);
    var x := Substream(s[r.size..]).value;
    assert s[r.size..][x.from..x.to] == s[r.size + x.from..r.size + x.to];
    assert t[r.size + |Delimited(content)|..] == parts.rest;
  }

  /** The loop at the tag of a nested message. */
  lemma {:induction false} NestedLoop(fields: seq<Field>, s: Slice, content: Slice, st: State)
    requires DecTag(s).Tag? && Split(s, 0).Some? && NestedAt(fields, s, st).Some? && |content| < TWO_32
    requires var nested := NestedAt(fields, s, st).value;
      DecMessage(nested.fields, Split(s, 0).value.content, nested.base)
          == DecMessage(nested.fields, content, nested.base)
    ensures var parts := Split(s, 0).value;
      DecLoop(fields, parts.before + Delimited(content) + parts.rest, st) == DecLoop(fields, s, st)
  {
    hide DecMessage, Substream, DecTag, DecRecord, Delimited, Enter, OldValue, Defaults, FindField, Split;
    var r, parts := DecTag(s), Split(s, 0).value;
    var t := parts.before + Delimited(content) + parts.rest;
    Replaced(s, content);
    NestedRecord(fields, r, s[r.size..], t[r.size..], st, NestedAt(fields, s, st).value);
  }

  /** Unknown fields put in at any field boundary of a message, or of a message
      nested in it at any depth, leave the result of decoding as it was, success or
      failure. */
  lemma {:induction false} InsertingAtAnyDepth(fields: seq<Field>, s: Slice, slots: seq<Slot>, edit: Edit)
    requires Valid(fields, s, slots, edit)
    ensures DecMessage(fields, Apply(s, edit), slots) == DecMessage(fields, s, slots)
    decreases edit
  {
    hide DecLoop, AtBoundary, UnknownFields, DecTag, Substream, NestedAt, DecRecord, Delimited, Split;
    var at, st := edit.at, Fresh(slots);
    match edit
    case Here(_, unknown) =>
      assert s[..at] + s[at..] == s;
      InsertingUnknownFields(fields, s[..at], unknown, s[at..], slots);
    case Inside(_, inner) =>
      var parts := Split(s, at).value;
      var mid := BoundarySplits(fields, s[..at], st);
      ReachesEnd(fields, s[..at], st, mid);
      var nested := NestedAt(fields, s[at..], mid).value;
      InsertingAtAnyDepth(nested.fields, parts.content, nested.base, inner);
      SplitThere(s, at);
      NestedLoop(fields, s[at..], Apply(parts.content, inner), mid);
      var there := Split(s[at..], 0).value;
      assert Apply(s, edit) == s[..at] + (there.before + Delimited(Apply(parts.content, inner)) + there.rest);
      assert s == s[..at] + s[at..];
  }

  lemma {:induction false} ReachesEnd(fields: seq<Field>, a: Slice, st: State, mid: State)
    requires forall r :: DecLoop(fields, a + r, st) == DecLoop(fields, r, mid)
    ensures DecLoop(fields, a, st) == Some(mid)
  {
    var empty: Slice := [];
    assert a + empty == a;
    assert DecLoop(fields, a + empty, st) == DecLoop(fields, empty, mid);
  }

  lemma SplitThere(s: Slice, at: nat)
    requires at <= |s| && Split(s, at).Some?
    ensures DecTag(s[at..]).Tag? && Split(s[at..], 0).Some?
    ensures var p, q := Split(s, at).value, Split(s[at..], 0).value;
      p.content == q.content && p.rest == q.rest && p.before == s[..at] + q.before
  {
    hide DecTag, Substream;
    assert s[at..][0..] == s[at..];
    var size := DecTag(s[at..]).size;
    assert s[at..][size..] == s[at + size..];
    var span := Substream(s[at + size..]).value;
    assert s[at..][size + span.from..size + span.to] == s[at + size + span.from..at + size + span.to];
    assert s[at..][size + span.to..] == s[at + size + span.to..];
    assert s[..at + size] == s[..at] + s[at..][..size];
  }
}
