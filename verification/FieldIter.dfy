/** pb_common.c: the iterator over a descriptor table, which wraps around. */
module FieldIter {
  import opened DbFormat
  import opened Varint
  import opened PbField

  // ---------- Closed forms ----------

  /** The bytes field i occupies in the main struct. */
  function MemberSize(f: Field): nat {
    if f.atype.Static? && f.htype.Repeated? then f.dataSize * f.arraySize
    else if f.atype.Pointer? then POINTER_SIZE
    else f.dataSize
  }

  /** How far the data pointer moves on to position i. */
  function Advance(fields: seq<Field>, i: nat): nat
    requires i < |fields|
  {
    if i == 0 then fields[0].dataOffset
    else if SharesUnion(fields, i) then 0
    else MemberSize(fields[i - 1]) + fields[i].dataOffset
  }

  /** The offset of field i's data: the sum of the advances up to it. */
  function Offset(fields: seq<Field>, i: nat): nat
    requires i < |fields|
  {
    Advance(fields, i) + if i == 0 then 0 else Offset(fields, i - 1)
  }

  /** Where field i's count, has-flag or union tag is: members of a union take the first member's. */
  function SizeAddress(fields: seq<Field>, i: nat): int
    requires i < |fields|
  {
    if SharesUnion(fields, i) then SizeAddress(fields, i - 1) else Offset(fields, i) + fields[i].sizeOffset
  }

  /** The members of a union have the data and the tag of its first member. */
  lemma {:induction false} UnionSharesStorage(fields: seq<Field>, i: nat)
    requires i < |fields|
    ensures Offset(fields, i) == Offset(fields, Home(fields, i))
    ensures SizeAddress(fields, i) == Offset(fields, Home(fields, i)) + fields[Home(fields, i)].sizeOffset
  {
    if SharesUnion(fields, i) {
      UnionSharesStorage(fields, i - 1);
    }
  }

  /** A table that the generator's macros make for members at the given offsets. */
  predicate Describes(fields: seq<Field>, offsets: seq<nat>) {
    && |offsets| == |fields|
    && (|fields| > 0 ==> fields[0].dataOffset == offsets[0])
    && forall i :: 0 < i < |fields| ==>
        if SharesUnion(fields, i) then offsets[i] == offsets[i - 1]
        else fields[i].dataOffset == offsets[i] - offsets[i - 1] - MemberSize(fields[i - 1])
  }

  lemma {:induction false} OffsetIsMember(fields: seq<Field>, offsets: seq<nat>, i: nat)
    requires Describes(fields, offsets) && i < |fields|
    ensures Offset(fields, i) == offsets[i]
  {
    if i > 0 {
      OffsetIsMember(fields, offsets, i - 1);
    }
  }

  // ---------- Positions on the lap ----------

  /** The position k steps after p. */
  function Later(p: nat, k: nat, n: nat): nat
    requires p < n && k <= n
  {
    if p + k < n then p + k else p + k - n
  }

  predicate Answers(f: Field, tag: nat) {
    f.tag == tag && !f.ltype.Extension?
  }

  class FieldIterator {
    const start: seq<Field>
    var pos: nat
    var requiredFieldIndex: nat
    var pData: int
    var pSize: int

    /** The position is on the table, or on the terminator of an empty one, and
        the other members are what the position says. */
    ghost predicate Valid()
      reads this
    {
      if start == [] then pos == 0 && requiredFieldIndex == 0 && pData == 0 && pSize == 0
      else
        && pos < |start|
        && requiredFieldIndex == RequiredBefore(start, pos)
        && pData == Offset(start, pos)
        && pSize == SizeAddress(start, pos)
    }

    /** An iterator over the table, at its beginning. */
    constructor (fields: seq<Field>)
      ensures Valid() && start == fields && pos == 0
    {
      start := fields;
      pos, requiredFieldIndex := 0, 0;
      pData := At(fields, 0).dataOffset;
      pSize := At(fields, 0).dataOffset + At(fields, 0).sizeOffset;
    }

    /** pb_field_iter_begin. */
    method Begin() returns (more: bool)
      requires forall i :: 0 <= i < |start| ==> start[i].tag != 0
      modifies this
      ensures Valid() && pos == 0 && (more <==> start != [])
    {
      pos, requiredFieldIndex := 0, 0;
      pData := At(start, 0).dataOffset;
      pSize := pData + At(start, 0).sizeOffset;
      more := At(start, 0).tag != 0;
    }

    /** pb_field_iter_next: one step on, back to the beginning after the last. */
    method Next() returns (more: bool)
      requires Valid() && forall i :: 0 <= i < |start| ==> start[i].tag != 0
      modifies this
      ensures Valid()
      ensures more <==> old(pos) + 1 < |start|
      ensures pos == if more then old(pos) + 1 else 0
    {
      var prev := At(start, pos);
      if prev.tag == 0 {
        return false;
      }
      pos := pos + 1;
      if At(start, pos).tag == 0 {
        var _ := Begin();
        return false;
      }
      var prevSize := prev.dataSize;
      if prev.htype.Oneof? && start[pos].htype.Oneof? && start[pos].dataOffset == PB_SIZE_MAX {
        return true;
      } else if prev.atype.Static? && prev.htype.Repeated? {
        prevSize := prevSize * prev.arraySize;
      } else if prev.atype.Pointer? {
        prevSize := POINTER_SIZE;
      }
      if prev.htype.Required? {
        requiredFieldIndex := requiredFieldIndex + 1;
      }
      pData := pData + prevSize + start[pos].dataOffset;
      pSize := pData + start[pos].sizeOffset;
      return true;
    }

    /** pb_field_iter_find: at most one lap, to the first field from here on that
        has the tag; if there is none, the iterator is where it was.  Only the
        terminator of an empty table answers to tag 0. */
    method Find(tag: nat) returns (found: bool)
      requires Valid() && forall i :: 0 <= i < |start| ==> start[i].tag != 0
      modifies this
      ensures Valid()
      ensures found <==> (start == [] && tag == 0) || exists i :: 0 <= i < |start| && Answers(start[i], tag)
      ensures found ==> Answers(At(start, pos), tag)
      ensures !found ==> pos == old(pos)
      ensures start != [] && found ==>
        exists k :: 0 <= k < |start| && pos == Later(old(pos), k, |start|)
          && forall j :: 0 <= j < k ==> !Answers(start[Later(old(pos), j, |start|)], tag)
    {
      var first := pos;
      ghost var k := 0;
      while true
        invariant Valid()
        invariant start == [] ==> k == 0
        invariant start != [] ==> k < |start| && first < |start| && pos == Later(first, k, |start|)
        invariant start != [] ==> forall j :: 0 <= j < k ==> !Answers(start[Later(first, j, |start|)], tag)
        decreases |start| - k
      {
        if At(start, pos).tag == tag && !At(start, pos).ltype.Extension? {
          return true;
        }
        var _ := Next();
        k := k + 1;
        if pos == first {
          LapIsComplete(start, first, k, tag);
          return false;
        }
      }
    }

    /** find_extension_field: to the next extension placeholder, if there is one. */
    method FindExtension() returns (found: bool)
      requires Valid() && forall i :: 0 <= i < |start| ==> start[i].tag != 0
      modifies this
      ensures Valid()
      ensures found ==> At(start, pos).ltype.Extension?
      ensures !found ==> pos == old(pos)
    {
      var first := pos;
      ghost var k := 0;
      while true
        invariant Valid()
        invariant start == [] ==> k == 0
        invariant start != [] ==> k < |start| && first < |start| && pos == Later(first, k, |start|)
        decreases |start| - k
      {
        if At(start, pos).ltype.Extension? {
          return true;
        }
        var _ := Next();
        k := k + 1;
        if pos == first {
          return false;
        }
      }
    }
  }

  /** Back at the first position after k > 0 steps, every position has been visited. */
  lemma LapIsComplete(fields: seq<Field>, first: nat, k: nat, tag: nat)
    requires fields != [] ==> first < |fields| && 0 < k <= |fields| && Later(first, k, |fields|) == first
    requires fields != [] ==> forall j :: 0 <= j < k ==> !Answers(fields[Later(first, j, |fields|)], tag)
    ensures forall i :: 0 <= i < |fields| ==> !Answers(fields[i], tag)
  {
    forall i | 0 <= i < |fields|
      ensures !Answers(fields[i], tag)
    {
      var j := if i >= first then i - first else i + |fields| - first;
      assert Later(first, j, |fields|) == i;
    }
  }
}
