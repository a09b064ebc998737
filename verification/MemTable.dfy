/** The memtable: length-prefixed entries in a sorted list, read back by seeking
    an encoded lookup key. */
module MemTable {
  import opened DbFormat
  import opened MultiVersion
  import opened Varint
  import opened Coding

  // ---------- Entry encoding ----------

  predicate FitsUint32(n: nat) { n < TWO_32 }

  /** An entry whose two lengths fit the 32-bit prefixes. */
  predicate Encodable(e: Entry) {
    FitsUint32(|e.userKey| + 8) && FitsUint32(|e.value|)
  }

  function EncodeEntry(e: Entry): Slice {
    LengthPrefixed(e.InternalKey()) + LengthPrefixed(e.value)
  }

  /** GetLengthPrefixedSlice: the slice, and where it ends.  Entries in the
      table are taken not to be corrupt, so anything unreadable is empty. */
  function SliceAt(data: Slice): (r: (Slice, nat))
    ensures r.1 <= |data|
  {
    var item := GetLengthPrefixed(data);
    if item.Some? then (item.value.slice, item.value.size) else ([], 0)
  }

  /** Both parts of an encoded entry read back exactly. */
  lemma EntryReadsBack(e: Entry)
    requires Encodable(e)
    ensures var (key, at) := SliceAt(EncodeEntry(e));
      && key == e.InternalKey() && |key| >= 8
      && ExtractUserKey(key) == e.userKey && ExtractTag(key) == e.tag
      && SliceAt(EncodeEntry(e)[at..]) == (e.value, |EncodeEntry(e)| - at)
  {
    SliceReadsBack(e.InternalKey(), LengthPrefixed(e.value));
    var at := |LengthPrefixed(e.InternalKey())|;
    assert EncodeEntry(e)[at..] == LengthPrefixed(e.value) + [];
    SliceReadsBack(e.value, []);
    InternalKeyParts(e);
  }

  /** The lookup key for a user key at a sequence number, with its length prefix. */
  function LookupKey(userKey: Slice, s: Sequence): Slice {
    LengthPrefixed(AppendInternalKey([], ParsedInternalKey(userKey, s, TYPE_FOR_SEEK)))
  }

  // ---------- The table ----------

  /** MemTable::KeyComparator on two encoded entries (or lookup keys). */
  function CompareEncoded(cmp: Comparator, a: Slice, b: Slice): int {
    var ka, kb := SliceAt(a).0, SliceAt(b).0;
    if |ka| >= 8 && |kb| >= 8 then Compare(cmp, ka, kb) else 0
  }

  lemma CompareEncodedIsBefore(cmp: Comparator, a: Entry, b: Entry)
    requires Encodable(a) && Encodable(b)
    ensures CompareEncoded(cmp, EncodeEntry(a), EncodeEntry(b)) < 0 <==> Before(cmp, a, b)
  {
    EntryReadsBack(a);
    EntryReadsBack(b);
    BeforeIsCompare(cmp, a, b);
  }

  /** The entry lies before the place a seek for the key at the sequence number goes to. */
  predicate Precedes(cmp: Comparator, e: Entry, u: Slice, s: Sequence) {
    cmp(e.userKey, u) < 0 || (cmp(e.userKey, u) == 0 && e.Seqno() > s)
  }

  lemma CompareWithLookupKey(cmp: Comparator, a: Entry, u: Slice, s: Sequence)
    requires Encodable(a) && a.Parses() && FitsUint32(|u| + 8)
    ensures CompareEncoded(cmp, EncodeEntry(a), LookupKey(u, s)) < 0 <==> Precedes(cmp, a, u, s)
  {
    var seek := AppendInternalKey([], ParsedInternalKey(u, s, TYPE_FOR_SEEK));
    EntryReadsBack(a);
    assert LookupKey(u, s) == LengthPrefixed(seek) + [];
    SliceReadsBack(seek, []);
    BeforeIsCompare(cmp, a, a);
    SeekKeySeparates(cmp, a.InternalKey(), u, s);
  }

  lemma {:induction false} AddedEntry(s: Sequence, t: ValueType, key: Slice, value: Slice)
    ensures var e := Entry(key, PackSequenceAndType(s, t), value);
      && e.Parses() && e.Seqno() == s
      && EncodeVarint((|key| + 8) % TWO_32) + key + EncodeFixed64(PackSequenceAndType(s, t))
            + EncodeVarint(|value| % TWO_32) + value == EncodeEntry(e)
  {
    hide EncodeFixed64, EncodeVarint;
    var e := Entry(key, PackSequenceAndType(s, t), value);
    Reassociate(EncodeVarint((|key| + 8) % TWO_32), key, EncodeFixed64(e.tag), EncodeVarint(|value| % TWO_32), value);
    assert |e.InternalKey()| == |key| + 8;
  }

  lemma Reassociate(a: Slice, b: Slice, c: Slice, d: Slice, f: Slice)
    ensures a + b + c + d + f == (a + (b + c)) + (d + f)
  {
  }

  class MemTable {
    const cmp: Comparator
    var table: seq<Slice>            // the skip list, in order
    ghost var contents: seq<Entry>

    ghost predicate Valid()
      reads this
    {
      && |table| == |contents| && Sorted(cmp, contents)
      && forall i :: 0 <= i < |table| ==>
            && table[i] == EncodeEntry(contents[i]) && Encodable(contents[i])
            && contents[i].Parses()
    }

    constructor (cmp: Comparator)
      ensures Valid() && contents == [] && this.cmp == cmp
    {
      this.cmp, table, contents := cmp, [], [];
    }

    /** Adds an entry; its internal key must not be in the table yet. */
    method Add(s: Sequence, t: ValueType, key: Slice, value: Slice) returns (ghost at: nat)
      requires Valid() && FitsUint32(|key| + 8) && FitsUint32(|value|)
      requires forall e :: e in contents && cmp(e.userKey, key) == 0 ==> e.Seqno() != s
      modifies this
      ensures Valid() && at <= |old(contents)|
      ensures contents == old(contents)[..at] + [Entry(key, PackSequenceAndType(s, t), value)] + old(contents)[at..]
    {
      hide Sorted, EncodeEntry, CompareEncoded, Before, EncodeFixed64, EncodeVarint;
      ghost var e := Entry(key, PackSequenceAndType(s, t), value);
      var buf := EncodeVarint((|key| + 8) % TWO_32) + key + EncodeFixed64(PackSequenceAndType(s, t))
          + EncodeVarint(|value| % TWO_32) + value;
      AddedEntry(s, t, key, value);
      var i := 0;
      while i < |table| && CompareEncoded(cmp, table[i], buf) < 0
        invariant Valid() && 0 <= i <= |table|
        invariant contents == old(contents)
        invariant forall j :: 0 <= j < i ==> Before(cmp, contents[j], e)
      {
        CompareEncodedIsBefore(cmp, contents[i], e);
        i := i + 1;
      }
      if i < |table| {
        CompareEncodedIsBefore(cmp, contents[i], e);
      }
      InsertKeepsSorted(cmp, contents, i, e);
      table := table[..i] + [buf] + table[i..];
      contents := contents[..i] + [e] + contents[i..];
      at := i;
    }

    /** Get: the answer for the key at the sequence number, as Lookup states it. */
    method Get(key: Slice, s: Sequence) returns (r: Lookup)
      requires Valid() && FitsUint32(|key| + 8)
      ensures LooksUp(cmp, contents, key, s, r)
    {
      hide Sorted, LooksUp, EncodeEntry, CompareEncoded, LookupKey, Precedes, SliceAt;
      var i := 0;
      var memkey := LookupKey(key, s);
      while i < |table| && CompareEncoded(cmp, table[i], memkey) < 0
        invariant 0 <= i <= |table|
        invariant forall j :: 0 <= j < i ==> Precedes(cmp, contents[j], key, s)
      {
        CompareWithLookupKey(cmp, contents[i], key, s);
        i := i + 1;
      }
      if i < |table| {
        CompareWithLookupKey(cmp, contents[i], key, s);
        SeekFindsNewest(cmp, contents, key, s, i);
        EntryReadsBack(contents[i]);
        var entry := table[i];
        var (internalKey, end) := SliceAt(entry);
        if cmp(ExtractUserKey(internalKey), key) == 0 {
          NewestDecides(cmp, contents, key, s, contents[i]);
          if ExtractTag(internalKey) % 0x100 == TYPE_VALUE {
            return Found(SliceAt(entry[end..]).0);
          } else {
            return Deleted;
          }
        }
        NothingMatches(cmp, contents, key, s);
        return Missing;
      }
      AllPrecede(cmp, contents, key, s);
      return Missing;
    }
  }

  lemma InsertKeepsSorted(cmp: Comparator, es: seq<Entry>, i: nat, e: Entry)
    requires Sorted(cmp, es) && i <= |es|
    requires forall j :: 0 <= j < i ==> Before(cmp, es[j], e)
    requires i < |es| ==> !Before(cmp, es[i], e)
    requires forall d :: d in es && cmp(d.userKey, e.userKey) == 0 ==> d.Seqno() != e.Seqno()
    ensures Sorted(cmp, es[..i] + [e] + es[i..])
  {
    forall j | i <= j < |es|
      ensures Before(cmp, e, es[j])
    {
      OrderLaws(cmp, e.userKey, es[i].userKey, es[j].userKey);
      OrderLaws(cmp, es[i].userKey, e.userKey, es[j].userKey);
      OrderLaws(cmp, es[j].userKey, es[i].userKey, e.userKey);
      assert es[i] in es && (i < j ==> Before(cmp, es[i], es[j]));
    }
  }

  lemma NewestDecides(cmp: Comparator, es: seq<Entry>, key: Slice, s: Sequence, e: Entry)
    requires IsNewest(cmp, es, key, s, e)
    ensures LooksUp(cmp, es, key, s, if e.tag % 0x100 == TYPE_VALUE then Found(e.value) else Deleted)
  {
  }

  lemma NothingMatches(cmp: Comparator, es: seq<Entry>, key: Slice, s: Sequence)
    requires forall e :: e in es ==> !Matches(cmp, e, key, s)
    ensures LooksUp(cmp, es, key, s, Missing)
  {
  }

  lemma AllPrecede(cmp: Comparator, es: seq<Entry>, key: Slice, s: Sequence)
    requires forall j :: 0 <= j < |es| ==> Precedes(cmp, es[j], key, s)
    ensures LooksUp(cmp, es, key, s, Missing)
  {
  }

  /** The seek lands on the newest visible version of the key, or the key has none. */
  lemma SeekFindsNewest(cmp: Comparator, es: seq<Entry>, key: Slice, s: Sequence, i: nat)
    requires Sorted(cmp, es) && i < |es| && es[i].Parses()
    requires forall j :: 0 <= j < i ==> Precedes(cmp, es[j], key, s)
    requires !Precedes(cmp, es[i], key, s)
    ensures if cmp(es[i].userKey, key) == 0 then IsNewest(cmp, es, key, s, es[i])
            else forall e :: e in es ==> !Matches(cmp, e, key, s)
  {
    forall j | i < j < |es|
      ensures cmp(es[j].userKey, key) == 0 ==> cmp(es[i].userKey, key) == 0 && es[j].tag <= es[i].tag
    {
      assert Before(cmp, es[i], es[j]);
      OrderLaws(cmp, es[i].userKey, es[j].userKey, key);
      OrderLaws(cmp, es[j].userKey, key, es[i].userKey);
      OrderLaws(cmp, es[i].userKey, key, es[j].userKey);
    }
  }
}
