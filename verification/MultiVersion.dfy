/** Multi-version entries and what it means to read a user key at a snapshot. */
module MultiVersion {
  import opened DbFormat

  /** One (internal key, value) pair: the user key, and the packed sequence and
      type bytes that follow it.  A type byte above TYPE_VALUE does not parse. */
  datatype Entry = Entry(userKey: Slice, tag: Fixed64, value: Slice) {
    function Seqno(): Sequence { tag / 0x100 }
    predicate Parses() { tag % 0x100 <= TYPE_VALUE }
    predicate IsDeletion() { tag % 0x100 == TYPE_DELETION }
    predicate IsValue() { tag % 0x100 == TYPE_VALUE }
    predicate VisibleAt(s: Sequence) { Parses() && Seqno() <= s }
    function InternalKey(): Slice { userKey + EncodeFixed64(tag) }
  }

  predicate SameKey(cmp: Comparator, a: Entry, b: Entry) {
    cmp(a.userKey, b.userKey) == 0
  }

  predicate Before(cmp: Comparator, a: Entry, b: Entry) {
    var r := cmp(a.userKey, b.userKey);
    r < 0 || (r == 0 && a.tag > b.tag)
  }

  /** The order of a table, a memtable or a merging iterator over them. */
  ghost predicate Sorted(cmp: Comparator, es: seq<Entry>) {
    forall i, j {:trigger es[i], es[j]} :: 0 <= i < j < |es| ==> Before(cmp, es[i], es[j])
  }

  /** Before is the internal key order on the serialized keys. */
  lemma BeforeIsCompare(cmp: Comparator, a: Entry, b: Entry)
    ensures Before(cmp, a, b) <==> Compare(cmp, a.InternalKey(), b.InternalKey()) < 0
    ensures a.Parses() <==> ParseInternalKey(a.InternalKey()).Some?
    ensures a.Parses() ==>
      var k := ParseInternalKey(a.InternalKey()).value; k.userKey == a.userKey && k.sequence == a.Seqno()
  {
    InternalKeyParts(a);
    InternalKeyParts(b);
  }

  lemma InternalKeyParts(a: Entry)
    ensures ExtractUserKey(a.InternalKey()) == a.userKey
    ensures ExtractTag(a.InternalKey()) == a.tag
  {
    var bytes := a.InternalKey();
    assert bytes[..|bytes| - 8] == a.userKey && bytes[|bytes| - 8..] == EncodeFixed64(a.tag);
    Pow256Of8();
    DecodeAfterEncodeFixed(a.tag, 8);
  }

  // ---------- Reading ----------

  predicate Matches(cmp: Comparator, e: Entry, k: Slice, s: Sequence) {
    cmp(e.userKey, k) == 0 && e.VisibleAt(s)
  }

  /** e is the newest version of k at or below s in the collection es. */
  ghost predicate IsNewest(cmp: Comparator, es: seq<Entry>, k: Slice, s: Sequence, e: Entry) {
    && e in es && Matches(cmp, e, k, s)
    && forall e' :: e' in es && Matches(cmp, e', k, s) ==> e'.tag <= e.tag
  }

  /** Reading k at snapshot s in the unordered collection es answers r: the value
      of the newest version, or None when that is a deletion or there is none. */
  ghost predicate Reads(cmp: Comparator, es: seq<Entry>, k: Slice, s: Sequence, r: Option<Slice>) {
    match r
    case Some(v) => exists e :: IsNewest(cmp, es, k, s, e) && e.IsValue() && e.value == v
    case None =>
      || (forall e :: e in es ==> !Matches(cmp, e, k, s))
      || (exists e :: IsNewest(cmp, es, k, s, e) && e.IsDeletion())
  }

  /** What one layer answers: nothing, a deletion marker, or a value. */
  datatype Lookup = Missing | Deleted | Found(value: Slice)

  ghost predicate LooksUp(cmp: Comparator, es: seq<Entry>, k: Slice, s: Sequence, r: Lookup) {
    match r
    case Missing => forall e :: e in es ==> !Matches(cmp, e, k, s)
    case Deleted => exists e :: IsNewest(cmp, es, k, s, e) && e.IsDeletion()
    case Found(v) => exists e :: IsNewest(cmp, es, k, s, e) && e.IsValue() && e.value == v
  }

  lemma NewestExists(cmp: Comparator, es: seq<Entry>, k: Slice, s: Sequence) returns (e: Entry)
    requires exists e :: e in es && Matches(cmp, e, k, s)
    ensures IsNewest(cmp, es, k, s, e)
  {
    var last := es[|es| - 1];
    var front := es[..|es| - 1];
    assert es == front + [last];
    if exists e :: e in front && Matches(cmp, e, k, s) {
      e := NewestExists(cmp, front, k, s);
      if Matches(cmp, last, k, s) && last.tag > e.tag {
        e := last;
      }
    } else {
      e := last;
    }
  }
}
