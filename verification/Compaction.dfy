/** The compaction loop of DBImpl::DoCompactionWork. */
module Compaction {
  import opened DbFormat
  import opened MultiVersion

  // ---------- The drop rule, entry by entry ----------

  /** last_sequence_for_key when the loop reaches entry i: the sequence of the
      entry just before if that is a parseable version of the same user key. */
  function LastSequenceForKey(cmp: Comparator, es: seq<Entry>, i: nat): Sequence
    requires i < |es|
  {
    if i > 0 && es[i - 1].Parses() && SameKey(cmp, es[i], es[i - 1]) then es[i - 1].Seqno() else MAX_SEQUENCE
  }

  /** Rule (A): a newer version of the same user key hides this one from every live snapshot. */
  predicate Hidden(cmp: Comparator, es: seq<Entry>, smallest: Sequence, i: nat)
    requires i < |es|
  {
    es[i].Parses() && LastSequenceForKey(cmp, es, i) <= smallest
  }

  /** A deletion marker that hides nothing in any deeper level. */
  predicate Obsolete(isBase: Slice -> bool, smallest: Sequence, e: Entry) {
    e.IsDeletion() && e.Seqno() <= smallest && isBase(e.userKey)
  }

  predicate Dropped(cmp: Comparator, isBase: Slice -> bool, es: seq<Entry>, smallest: Sequence, i: nat)
    requires i < |es|
  {
    Hidden(cmp, es, smallest, i) || Obsolete(isBase, smallest, es[i])
  }

  function Kept(cmp: Comparator, isBase: Slice -> bool, es: seq<Entry>, smallest: Sequence, n: nat): seq<Entry>
    requires n <= |es|
  {
    if n == 0 then []
    else Kept(cmp, isBase, es, smallest, n - 1)
         + if Dropped(cmp, isBase, es, smallest, n - 1) then [] else [es[n - 1]]
  }

  lemma {:induction false} KeptMembers(cmp: Comparator, isBase: Slice -> bool, es: seq<Entry>, smallest: Sequence,
      n: nat, e: Entry)
    requires n <= |es|
    ensures e in Kept(cmp, isBase, es, smallest, n) <==>
      exists i :: 0 <= i < n && es[i] == e && !Dropped(cmp, isBase, es, smallest, i)
  {
    if n > 0 {
      KeptMembers(cmp, isBase, es, smallest, n - 1, e);
    }
  }

  // ---------- Reads are preserved ----------

  /** A snapshot at or above `smallest` cannot tell the two collections apart. */
  ghost predicate SameReads(cmp: Comparator, a: seq<Entry>, b: seq<Entry>, smallest: Sequence) {
    forall k: Slice, s: Sequence, r :: s >= smallest ==> (Reads(cmp, a, k, s, r) <==> Reads(cmp, b, k, s, r))
  }

  /** IsBaseLevelForKey answers true only when no deeper entry has that user key. */
  ghost predicate IsBaseContract(cmp: Comparator, isBase: Slice -> bool, deeper: seq<Entry>) {
    && (forall k, d :: isBase(k) && d in deeper ==> cmp(d.userKey, k) != 0)
    && (forall k, k' :: cmp(k, k') == 0 ==> isBase(k) == isBase(k'))
  }

  /** The layers above the compacted ones hold only newer versions of each user key. */
  ghost predicate Newer(cmp: Comparator, upper: seq<Entry>, es: seq<Entry>) {
    forall u, e :: u in upper && e in es && SameKey(cmp, u, e) ==> u.Seqno() > e.Seqno()
  }

  /** es[i] is what a read of its user key at snapshot `smallest` finds in es. */
  ghost predicate FirstSeen(cmp: Comparator, es: seq<Entry>, smallest: Sequence, i: nat)
    requires i < |es|
  {
    && es[i].VisibleAt(smallest)
    && forall j :: 0 <= j < i && SameKey(cmp, es[j], es[i]) ==> !es[j].VisibleAt(smallest)
  }

  /** An unparseable key sits between an obsolete deletion marker and an older
      value of the same user key.  The loop resets its state at the unparseable
      key, so it drops the marker and keeps the value the marker was hiding. */
  ghost predicate Resurfaces(cmp: Comparator, isBase: Slice -> bool, es: seq<Entry>, smallest: Sequence, i: nat,
      j: nat) {
    && i < j < |es|
    && FirstSeen(cmp, es, smallest, i) && es[i].IsDeletion() && isBase(es[i].userKey)
    && SameKey(cmp, es[i], es[j]) && es[j].IsValue() && !es[j - 1].Parses()
  }

  ghost predicate NothingResurfaces(cmp: Comparator, isBase: Slice -> bool, es: seq<Entry>, smallest: Sequence) {
    forall i: nat, j: nat :: !Resurfaces(cmp, isBase, es, smallest, i, j)
  }

  lemma BetweenSameKey(cmp: Comparator, es: seq<Entry>, i: nat, m: nat, j: nat)
    requires Sorted(cmp, es) && i <= m <= j < |es| && SameKey(cmp, es[i], es[j])
    ensures SameKey(cmp, es[i], es[m]) && SameKey(cmp, es[m], es[j])
  {
    OrderLaws(cmp, es[i].userKey, es[m].userKey, es[j].userKey);
    OrderLaws(cmp, es[i].userKey, es[j].userKey, es[m].userKey);
    OrderLaws(cmp, es[m].userKey, es[j].userKey, es[i].userKey);
    OrderLaws(cmp, es[i].userKey, es[i].userKey, es[i].userKey);
    OrderLaws(cmp, es[j].userKey, es[j].userKey, es[j].userKey);
  }

  lemma MatchesSameKey(cmp: Comparator, a: Entry, b: Entry, k: Slice)
    requires cmp(a.userKey, k) == 0
    ensures SameKey(cmp, a, b) <==> cmp(b.userKey, k) == 0
    ensures SameKey(cmp, a, b) <==> SameKey(cmp, b, a)
  {
    OrderLaws(cmp, a.userKey, k, b.userKey);
    OrderLaws(cmp, a.userKey, b.userKey, k);
    OrderLaws(cmp, b.userKey, k, a.userKey);
  }

  /** Of two matching entries of a sorted sequence, the later one has the smaller tag. */
  lemma LaterIsOlder(cmp: Comparator, es: seq<Entry>, i: nat, j: nat, k: Slice)
    requires Sorted(cmp, es) && i < |es| && j < |es|
    requires cmp(es[i].userKey, k) == 0 && cmp(es[j].userKey, k) == 0
    ensures SameKey(cmp, es[i], es[j])
    ensures i < j ==> es[i].tag > es[j].tag
    ensures j < i ==> es[j].tag > es[i].tag
  {
    MatchesSameKey(cmp, es[i], es[j], k);
    if i < j {
      assert Before(cmp, es[i], es[j]);
    } else if j < i {
      assert Before(cmp, es[j], es[i]);
    }
  }

  lemma HiddenHasNewer(cmp: Comparator, es: seq<Entry>, smallest: Sequence, i: nat, k: Slice, s: Sequence)
    requires smallest < MAX_SEQUENCE
    requires Sorted(cmp, es) && i < |es| && Matches(cmp, es[i], k, s) && s >= smallest
    ensures Hidden(cmp, es, smallest, i) ==> Matches(cmp, es[i - 1], k, s) && es[i - 1].tag > es[i].tag
  {
    if i > 0 {
      MatchesSameKey(cmp, es[i], es[i - 1], k);
      if cmp(es[i - 1].userKey, k) == 0 {
        LaterIsOlder(cmp, es, i - 1, i, k);
      }
    }
  }

  /** The newest version in the input at a snapshot the compaction must respect
      is dropped only as an obsolete deletion marker, and then no version of the
      key that the snapshot could see survives, unless one resurfaces. */
  lemma {:induction false} NewestSurvives(cmp: Comparator, isBase: Slice -> bool, es: seq<Entry>, deeper: seq<Entry>,
      smallest: Sequence,
                       k: Slice, s: Sequence, i: nat)
    requires smallest < MAX_SEQUENCE
    requires Sorted(cmp, es) && IsBaseContract(cmp, isBase, deeper) && s >= smallest
    requires i < |es| && IsNewest(cmp, es, k, s, es[i])
    requires Dropped(cmp, isBase, es, smallest, i)
    ensures es[i].IsDeletion() && isBase(es[i].userKey) && FirstSeen(cmp, es, smallest, i)
    ensures NothingResurfaces(cmp, isBase, es, smallest) ==>
      forall e :: e in Kept(cmp, isBase, es, smallest, |es|) ==> !Matches(cmp, e, k, s)
  {
    HiddenHasNewer(cmp, es, smallest, i, k, s);
    forall j | 0 <= j < i && SameKey(cmp, es[j], es[i])
      ensures !es[j].VisibleAt(smallest)
    {
      MatchesSameKey(cmp, es[i], es[j], k);
      LaterIsOlder(cmp, es, j, i, k);
      assert es[j] in es;
    }
    if NothingResurfaces(cmp, isBase, es, smallest) {
      forall e | e in Kept(cmp, isBase, es, smallest, |es|)
        ensures !Matches(cmp, e, k, s)
      {
        KeptMembers(cmp, isBase, es, smallest, |es|, e);
        var j :| 0 <= j < |es| && es[j] == e && !Dropped(cmp, isBase, es, smallest, j);
        if Matches(cmp, e, k, s) {
          KeptOlderResurfaces(cmp, isBase, es, deeper, smallest, k, s, i, j);
        }
      }
    }
  }

  lemma KeptOlderResurfaces(cmp: Comparator, isBase: Slice -> bool, es: seq<Entry>, deeper: seq<Entry>,
      smallest: Sequence,
                            k: Slice, s: Sequence, i: nat, j: nat)
    requires smallest < MAX_SEQUENCE
    requires Sorted(cmp, es) && IsBaseContract(cmp, isBase, deeper)
    requires i < |es| && j < |es| && i != j && IsNewest(cmp, es, k, s, es[i])
    requires es[i].IsDeletion() && isBase(es[i].userKey) && FirstSeen(cmp, es, smallest, i)
    requires !Dropped(cmp, isBase, es, smallest, j) && Matches(cmp, es[j], k, s)
    ensures Resurfaces(cmp, isBase, es, smallest, i, j)
  {
    MatchesSameKey(cmp, es[i], es[j], k);
    LaterIsOlder(cmp, es, i, j, k);
    assert i < j;
    BetweenSameKey(cmp, es, i, j - 1, j);
    MatchesSameKey(cmp, es[i], es[j - 1], k);
    MatchesSameKey(cmp, es[j], es[j - 1], k);
    if i < j - 1 {
      LaterIsOlder(cmp, es, i, j - 1, k);
    }
  }

  /** Replacing the input by what the loop keeps changes no read at or above the
      smallest snapshot. */
  lemma {:induction false} CompactionPreservesReads(cmp: Comparator, isBase: Slice -> bool, upper: seq<Entry>,
      es: seq<Entry>, deeper: seq<Entry>, smallest: Sequence)
    requires smallest < MAX_SEQUENCE
    requires Sorted(cmp, es) && IsBaseContract(cmp, isBase, deeper) && Newer(cmp, upper, es)
    requires NothingResurfaces(cmp, isBase, es, smallest)
    ensures SameReads(cmp, upper + es + deeper, upper + Kept(cmp, isBase, es, smallest, |es|) + deeper, smallest)
  {
    forall k: Slice, s: Sequence, r | s >= smallest
      ensures Reads(cmp, upper + es + deeper, k, s, r) <==>
              Reads(cmp, upper + Kept(cmp, isBase, es, smallest, |es|) + deeper, k, s, r)
    {
      ReadPreserved(cmp, isBase, upper, es, deeper, smallest, k, s, r);
    }
  }

  lemma {:induction false} ReadPreserved(cmp: Comparator, isBase: Slice -> bool, upper: seq<Entry>, es: seq<Entry>,
      deeper: seq<Entry>, smallest: Sequence,
                      k: Slice, s: Sequence, r: Option<Slice>)
    requires smallest < MAX_SEQUENCE
    requires Sorted(cmp, es) && IsBaseContract(cmp, isBase, deeper) && Newer(cmp, upper, es)
    requires NothingResurfaces(cmp, isBase, es, smallest) && s >= smallest
    ensures Reads(cmp, upper + es + deeper, k, s, r) <==>
            Reads(cmp, upper + Kept(cmp, isBase, es, smallest, |es|) + deeper, k, s, r)
  {
    var kept := Kept(cmp, isBase, es, smallest, |es|);
    var before, after := upper + es + deeper, upper + kept + deeper;
    forall e | e in kept
      ensures e in es
    {
      KeptMembers(cmp, isBase, es, smallest, |es|, e);
    }
    if exists e :: e in es && Matches(cmp, e, k, s) {
      var e := NewestExists(cmp, es, k, s);
      var i :| 0 <= i < |es| && es[i] == e;
      if !Dropped(cmp, isBase, es, smallest, i) {
        KeptMembers(cmp, isBase, es, smallest, |es|, e);
        SameMaximum(cmp, es, upper, kept, deeper, k, s, e);
      } else {
        NewestSurvives(cmp, isBase, es, deeper, smallest, k, s, i);
        forall d | d in deeper
          ensures !Matches(cmp, d, k, s)
        {
          MatchesSameKey(cmp, e, d, k);
        }
        DeletionVanishes(cmp, upper, es, kept, deeper, k, s, e);
      }
    } else {
      forall e
        ensures e in before && Matches(cmp, e, k, s) <==> e in after && Matches(cmp, e, k, s)
      {
      }
      forall e
        ensures IsNewest(cmp, before, k, s, e) <==> IsNewest(cmp, after, k, s, e)
      {
      }
    }
  }

  lemma SameMaximum(cmp: Comparator, es: seq<Entry>, upper: seq<Entry>, kept: seq<Entry>, deeper: seq<Entry>,
      k: Slice, s: Sequence, m: Entry)
    requires Sorted(cmp, es)
    requires forall e :: e in kept ==> e in es
    requires IsNewest(cmp, es, k, s, m) && m in kept
    ensures forall r :: Reads(cmp, upper + es + deeper, k, s, r) <==> Reads(cmp, upper + kept + deeper, k, s, r)
  {
    var before, after := upper + es + deeper, upper + kept + deeper;
    forall e
      ensures IsNewest(cmp, before, k, s, e) <==> IsNewest(cmp, after, k, s, e)
    {
      if IsNewest(cmp, before, k, s, e) && e in es {
        var i, j :| 0 <= i < |es| && 0 <= j < |es| && es[i] == e && es[j] == m;
        LaterIsOlder(cmp, es, i, j, k);
      }
    }
  }

  lemma DeletionVanishes(cmp: Comparator, upper: seq<Entry>, es: seq<Entry>, kept: seq<Entry>, deeper: seq<Entry>,
      k: Slice, s: Sequence, m: Entry)
    requires Newer(cmp, upper, es) && IsNewest(cmp, es, k, s, m) && m.IsDeletion()
    requires forall e :: e in kept || e in deeper ==> !Matches(cmp, e, k, s)
    ensures forall r :: Reads(cmp, upper + es + deeper, k, s, r) <==> Reads(cmp, upper + kept + deeper, k, s, r)
  {
    var before, after := upper + es + deeper, upper + kept + deeper;
    forall u | u in upper && Matches(cmp, u, k, s)
      ensures u.tag > m.tag
    {
      MatchesSameKey(cmp, u, m, k);
    }
    if exists u :: u in upper && Matches(cmp, u, k, s) {
      forall e
        ensures IsNewest(cmp, before, k, s, e) <==> IsNewest(cmp, after, k, s, e)
      {
      }
    } else {
      assert IsNewest(cmp, before, k, s, m);
    }
  }

  /** When a value does resurface, one snapshot sees the difference even with
      nothing above the input. */
  lemma {:induction false} ResurfacingChangesARead(cmp: Comparator, isBase: Slice -> bool, es: seq<Entry>,
      deeper: seq<Entry>, smallest: Sequence, i: nat, j: nat)
    requires smallest < MAX_SEQUENCE
    requires Sorted(cmp, es) && IsBaseContract(cmp, isBase, deeper)
    requires Resurfaces(cmp, isBase, es, smallest, i, j)
    ensures Reads(cmp, es + deeper, es[i].userKey, smallest, None)
    ensures !Reads(cmp, Kept(cmp, isBase, es, smallest, |es|) + deeper, es[i].userKey, smallest, None)
  {
    var k := es[i].userKey;
    var kept := Kept(cmp, isBase, es, smallest, |es|);
    OrderLaws(cmp, k, k, k);
    MatchesSameKey(cmp, es[i], es[j], k);
    forall d | d in deeper
      ensures cmp(d.userKey, k) != 0
    {
    }
    forall m | 0 <= m < |es| && Matches(cmp, es[m], k, smallest)
      ensures m >= i && es[m].tag <= es[i].tag
      ensures es[m].IsDeletion() ==> Dropped(cmp, isBase, es, smallest, m)
    {
      MatchesSameKey(cmp, es[i], es[m], k);
      LaterIsOlder(cmp, es, i, m, k);
    }
    assert IsNewest(cmp, es + deeper, k, smallest, es[i]);
    LaterIsOlder(cmp, es, i, j, k);
    KeptMembers(cmp, isBase, es, smallest, |es|, es[j]);
    assert es[j] in kept + deeper && Matches(cmp, es[j], k, smallest);
    forall e | e in kept + deeper && Matches(cmp, e, k, smallest)
      ensures !e.IsDeletion()
    {
      KeptMembers(cmp, isBase, es, smallest, |es|, e);
    }
  }

  /** Exactly when compaction preserves reads: whatever newer layers lie above,
      no read changes if and only if no unparseable key lets a value resurface. */
  lemma {:induction false} PreservesReadsIff(cmp: Comparator, isBase: Slice -> bool, es: seq<Entry>,
      deeper: seq<Entry>, smallest: Sequence)
    requires smallest < MAX_SEQUENCE
    requires Sorted(cmp, es) && IsBaseContract(cmp, isBase, deeper)
    ensures NothingResurfaces(cmp, isBase, es, smallest) <==>
      forall upper :: Newer(cmp, upper, es) ==>
        SameReads(cmp, upper + es + deeper, upper + Kept(cmp, isBase, es, smallest, |es|) + deeper, smallest)
  {
    var kept := Kept(cmp, isBase, es, smallest, |es|);
    if NothingResurfaces(cmp, isBase, es, smallest) {
      forall upper | Newer(cmp, upper, es)
        ensures SameReads(cmp, upper + es + deeper, upper + kept + deeper, smallest)
      {
        CompactionPreservesReads(cmp, isBase, upper, es, deeper, smallest);
      }
    } else {
      var i: nat, j: nat :| Resurfaces(cmp, isBase, es, smallest, i, j);
      ResurfacingIsSeen(cmp, isBase, es, deeper, smallest, i, j);
      assert Newer(cmp, [], es);
    }
  }

  lemma {:induction false} ResurfacingIsSeen(cmp: Comparator, isBase: Slice -> bool, es: seq<Entry>,
      deeper: seq<Entry>, smallest: Sequence, i: nat, j: nat)
    requires smallest < MAX_SEQUENCE
    requires Sorted(cmp, es) && IsBaseContract(cmp, isBase, deeper)
    requires Resurfaces(cmp, isBase, es, smallest, i, j)
    ensures !SameReads(cmp, [] + es + deeper, [] + Kept(cmp, isBase, es, smallest, |es|) + deeper, smallest)
  {
    ResurfacingChangesARead(cmp, isBase, es, deeper, smallest, i, j);
    ADifferenceIsSeen(cmp, es, Kept(cmp, isBase, es, smallest, |es|), deeper, smallest, es[i].userKey);
  }

  lemma ADifferenceIsSeen(cmp: Comparator, a: seq<Entry>, b: seq<Entry>, deeper: seq<Entry>, smallest: Sequence,
      k: Slice)
    requires Reads(cmp, a + deeper, k, smallest, None) && !Reads(cmp, b + deeper, k, smallest, None)
    ensures !SameReads(cmp, [] + a + deeper, [] + b + deeper, smallest)
  {
    assert [] + a == a && [] + b == b;
  }

  /** An input all of whose keys parse is safe. */
  lemma WellFormedNeverResurfaces(cmp: Comparator, isBase: Slice -> bool, es: seq<Entry>, smallest: Sequence)
    requires forall e :: e in es ==> e.Parses()
    ensures NothingResurfaces(cmp, isBase, es, smallest)
  {
    forall i: nat, j: nat
      ensures !Resurfaces(cmp, isBase, es, smallest, i, j)
    {
      if 0 < j < |es| {
        assert es[j - 1] in es;
      }
    }
  }

  const ANY_KEY_EQUAL: Comparator := (a: Slice, b: Slice) => 0

  /** A deletion at sequence 5, an unparseable key, and the value written at sequence 3. */
  const RESURFACING_INPUT: seq<Entry> :=
    [Entry([7], 5 * 0x100, []), Entry([7], 4 * 0x100 + 2, []), Entry([7], 3 * 0x100 + 1, [9])]

  /** A concrete input on which the deleted value comes back. */
  lemma ResurfacingExample()
    ensures Sorted(ANY_KEY_EQUAL, RESURFACING_INPUT) && IsBaseContract(ANY_KEY_EQUAL, k => true, [])
    ensures Resurfaces(ANY_KEY_EQUAL, k => true, RESURFACING_INPUT, 9, 0, 2)
    ensures Kept(ANY_KEY_EQUAL, k => true, RESURFACING_INPUT, 9, 3) == RESURFACING_INPUT[1..]
  {
    var isBase := (k: Slice) => true;
    var es := RESURFACING_INPUT;
    assert !Dropped(ANY_KEY_EQUAL, isBase, es, 9, 1) && !Dropped(ANY_KEY_EQUAL, isBase, es, 9, 2);
    assert Kept(ANY_KEY_EQUAL, isBase, es, 9, 1) == [];
    assert Kept(ANY_KEY_EQUAL, isBase, es, 9, 2) == [es[1]];
  }

  /** The one remaining case: with the largest sequence number as the smallest
      snapshot, the sentinel itself counts as old and every parseable entry goes. */
  lemma SentinelSnapshotDropsAll(cmp: Comparator, isBase: Slice -> bool, es: seq<Entry>, i: nat)
    requires i < |es| && es[i].Parses()
    ensures Dropped(cmp, isBase, es, MAX_SEQUENCE, i)
  {
  }

  // ---------- What is kept and what is dropped ----------

  /** Every version a snapshot above `smallest` could need is kept. */
  lemma NewVersionsKept(cmp: Comparator, isBase: Slice -> bool, es: seq<Entry>, smallest: Sequence, i: nat)
    requires smallest < MAX_SEQUENCE
    requires Sorted(cmp, es) && i < |es| && es[i].Seqno() > smallest
    ensures !Dropped(cmp, isBase, es, smallest, i)
  {
    if i > 0 {
      assert Before(cmp, es[i - 1], es[i]);
      MatchesSameKey(cmp, es[i], es[i - 1], es[i].userKey) by {
        OrderLaws(cmp, es[i].userKey, es[i].userKey, es[i].userKey);
      }
    }
  }

  /** Of the versions of one user key that every live snapshot sees, at most one survives. */
  lemma AtMostOneOldVersion(cmp: Comparator, isBase: Slice -> bool, es: seq<Entry>, smallest: Sequence, i: nat, j: nat)
    requires Sorted(cmp, es) && i < j < |es| && (forall e :: e in es ==> e.Parses())
    requires SameKey(cmp, es[i], es[j]) && es[i].Seqno() <= smallest
    ensures Dropped(cmp, isBase, es, smallest, j)
  {
    BetweenSameKey(cmp, es, i, j - 1, j);
    MatchesSameKey(cmp, es[j], es[j - 1], es[j].userKey) by {
      OrderLaws(cmp, es[j].userKey, es[j].userKey, es[j].userKey);
      OrderLaws(cmp, es[j - 1].userKey, es[j].userKey, es[j].userKey);
    }
    MatchesSameKey(cmp, es[j - 1], es[j], es[j].userKey) by {
      OrderLaws(cmp, es[j - 1].userKey, es[j].userKey, es[j].userKey);
    }
    if i < j - 1 {
      assert Before(cmp, es[i], es[j - 1]);
    }
  }

  lemma {:induction false} KeptSorted(cmp: Comparator, isBase: Slice -> bool, es: seq<Entry>, smallest: Sequence,
      n: nat)
    requires Sorted(cmp, es) && n <= |es|
    ensures Sorted(cmp, Kept(cmp, isBase, es, smallest, n))
  {
    if n > 0 {
      KeptSorted(cmp, isBase, es, smallest, n - 1);
      var front := Kept(cmp, isBase, es, smallest, n - 1);
      forall i | 0 <= i < |front|
        ensures Before(cmp, front[i], es[n - 1])
      {
        KeptMembers(cmp, isBase, es, smallest, n - 1, front[i]);
      }
    }
  }

  // ---------- The loop ----------

  /** One output table with the key range recorded for it. */
  datatype Output = Output(entries: seq<Entry>, smallest: Slice, largest: Slice) {
    ghost predicate Closed() {
      && entries != []
      && smallest == entries[0].InternalKey()
      && largest == entries[|entries| - 1].InternalKey()
    }
  }

  ghost function Flatten(outs: seq<Output>): seq<Entry> {
    if outs == [] then [] else Flatten(outs[..|outs| - 1]) + outs[|outs| - 1].entries
  }

  /** Answers of the file system, the table builder and the shutdown flag, by
      position in the input. */
  datatype Environment = Environment(
    stopBefore: nat -> bool,       // ShouldStopBefore(key)
    full: nat -> bool,             // FileSize() >= MaxOutputFileSize()
    opens: nat -> bool,            // OpenCompactionOutputFile succeeds
    finishes: nat -> bool,         // FinishCompactionOutputFile succeeds
    shutdown: nat -> bool,         // shutting_down_ as read on this turn of the loop
    inputOk: bool)                 // input->status() after the loop
  {
    ghost predicate NeverFails() {
      inputOk && (forall i :: opens(i)) && (forall i :: finishes(i)) && (forall i :: !shutdown(i))
    }
  }

  // ---------- Where output tables end ----------

  /** The positions in the input of the entries that are kept. */
  function KeptAt(cmp: Comparator, isBase: Slice -> bool, es: seq<Entry>, smallest: Sequence, n: nat): seq<nat>
    requires n <= |es|
  {
    if n == 0 then []
    else KeptAt(cmp, isBase, es, smallest, n - 1)
         + if Dropped(cmp, isBase, es, smallest, n - 1) then [] else [n - 1]
  }

  lemma {:induction false} KeptAtIs(cmp: Comparator, isBase: Slice -> bool, es: seq<Entry>, smallest: Sequence, n: nat)
    requires n <= |es|
    ensures var pos, kept := KeptAt(cmp, isBase, es, smallest, n), Kept(cmp, isBase, es, smallest, n);
      && |pos| == |kept|
      && (forall a :: 0 <= a < |pos| ==> pos[a] < n && es[pos[a]] == kept[a])
      && (forall a, b :: 0 <= a < b < |pos| ==> pos[a] < pos[b])
  {
    if n > 0 {
      KeptAtIs(cmp, isBase, es, smallest, n - 1);
    }
  }

  lemma KeptAtStep(cmp: Comparator, isBase: Slice -> bool, es: seq<Entry>, smallest: Sequence, i: nat)
    requires i < |es|
    ensures var pos, kept := KeptAt(cmp, isBase, es, smallest, i), Kept(cmp, isBase, es, smallest, i);
      if Dropped(cmp, isBase, es, smallest, i) then
        KeptAt(cmp, isBase, es, smallest, i + 1) == pos && Kept(cmp, isBase, es, smallest, i + 1) == kept
      else
        KeptAt(cmp, isBase, es, smallest, i + 1) == pos + [i]
            && Kept(cmp, isBase, es, smallest, i + 1) == kept + [es[i]]
  {
  }

  lemma {:induction false} NothingKept(cmp: Comparator, isBase: Slice -> bool, es: seq<Entry>, smallest: Sequence)
    ensures KeptAt(cmp, isBase, es, smallest, 0) == [] && Kept(cmp, isBase, es, smallest, 0) == [] && Flatten([]) == []
  {
  }

  /** The table that the entry at a position of all outputs together is in. */
  ghost function TableOf(outs: seq<Output>, a: nat): nat {
    if outs == [] then 0
    else
      var n := |outs| - 1;
      if a >= |Flatten(outs[..n])| then n else TableOf(outs[..n], a)
  }

  /** A table to which the entry at p was added has ended before the entry at hi:
      it was full, or the next input entry asked for a new table, also if that was
      not kept itself. */
  ghost predicate Ended(env: Environment, p: nat, hi: nat) {
    env.full(p) || exists k :: p < k < hi && env.stopBefore(k)
  }

  /** Two entries kept one after the other are in different tables exactly if the
      table of the first ended between them. */
  ghost predicate CutRight(env: Environment, pos: seq<nat>, outs: seq<Output>) {
    && |pos| == |Flatten(outs)|
    && forall a, b :: 0 <= a < |pos| && b == a + 1 && b < |pos| ==>
         (TableOf(outs, a) != TableOf(outs, b) <==> Ended(env, pos[a], pos[b] + 1))
  }

  /** The last table is still open unless it has ended. */
  ghost predicate OpenRight(env: Environment, pos: seq<nat>, outs: seq<Output>, building: bool, hi: nat) {
    if pos == [] then !building
    else
      var last := |pos| - 1;
      TableOf(outs, last) == |outs| - 1 && (building <==> !Ended(env, pos[last], hi))
  }

  /** One entry more: at the end of the open table, or in a new one. */
  ghost predicate Added(before: seq<Output>, building: bool, after: seq<Output>, e: Entry) {
    if building then
      && before != [] && |after| == |before|
      && after[..|after| - 1] == before[..|before| - 1]
      && after[|after| - 1].entries == before[|before| - 1].entries + [e]
    else
      && |after| == |before| + 1 && after[..|before|] == before && after[|before|].entries == [e]
  }

  lemma {:induction false} AddedFlattens(before: seq<Output>, building: bool, after: seq<Output>, e: Entry)
    requires Added(before, building, after, e)
    ensures Flatten(after) == Flatten(before) + [e]
    ensures forall a :: 0 <= a < |Flatten(before)| ==> TableOf(after, a) == TableOf(before, a)
    ensures TableOf(after, |Flatten(before)|) == |after| - 1
  {
    if building {
      var n := |before| - 1;
      assert Flatten(before) == Flatten(before[..n]) + before[n].entries;
    }
  }

  lemma {:induction false} AddedCutsRight(env: Environment, pos: seq<nat>, before: seq<Output>, building: bool,
                                          after: seq<Output>, e: Entry, i: nat)
    requires CutRight(env, pos, before) && OpenRight(env, pos, before, building, i + 1)
        && Added(before, building, after, e)
    ensures CutRight(env, pos + [i], after) && OpenRight(env, pos + [i], after, !env.full(i), i + 1)
  {
    hide Flatten, TableOf, Ended;
    AddedFlattens(before, building, after, e);
    JustAdded(env, i);
    var pos' := pos + [i];
    forall a, b | 0 <= a < |pos'| && b == a + 1 && b < |pos'|
      ensures TableOf(after, a) != TableOf(after, b) <==> Ended(env, pos'[a], pos'[b] + 1)
    {
      assert a < |pos|;
      if b < |pos| {
        assert TableOf(before, a) != TableOf(before, b) <==> Ended(env, pos[a], pos[b] + 1);
      }
    }
  }

  lemma NothingCut(env: Environment)
    ensures CutRight(env, [], []) && OpenRight(env, [], [], false, 0)
  {
  }

  /** The next entry of the input asks whether to stop before it. */
  lemma AskedToStop(env: Environment, pos: seq<nat>, outs: seq<Output>, building: bool, i: nat)
    requires OpenRight(env, pos, outs, building, i) && forall a :: 0 <= a < |pos| ==> pos[a] < i
    ensures OpenRight(env, pos, outs, building && !env.stopBefore(i), i + 1)
  {
    if pos != [] {
      var p := pos[|pos| - 1];
      assert Ended(env, p, i) ==> Ended(env, p, i + 1);
      if env.stopBefore(i) {
        assert p < i < i + 1;
      }
    }
  }

  lemma JustAdded(env: Environment, i: nat)
    ensures Ended(env, i, i + 1) <==> env.full(i)
  {
  }

  class CompactionState {
    const smallestSnapshot: Sequence
    var outputs: seq<Output>
    var building: bool

    constructor (smallest: Sequence)
      ensures smallestSnapshot == smallest && outputs == [] && !building
    {
      smallestSnapshot := smallest;
      outputs := [];
      building := false;
    }

    ghost predicate Valid()
      reads this
    {
      && (building ==> outputs != [])
      && (forall o :: o in outputs ==> o.Closed())
    }

    /** OpenCompactionOutputFile and the first Add to the new table. */
    method AddToNewOutput(e: Entry)
      requires Valid() && !building
      modifies this
      ensures Valid() && building
      ensures outputs == old(outputs) + [Output([e], e.InternalKey(), e.InternalKey())]
    {
      outputs := outputs + [Output([e], e.InternalKey(), e.InternalKey())];
      building := true;
    }

    method AddToCurrentOutput(e: Entry)
      requires Valid() && building
      modifies this
      ensures Valid() && building
      ensures Added(old(outputs), true, outputs, e)
    {
      var last := |outputs| - 1;
      var out := outputs[last].(largest := e.InternalKey(), entries := outputs[last].entries + [e]);
      assert outputs[last] in outputs && out.Closed();
      outputs := outputs[last := out];
      assert outputs[..last] == old(outputs)[..last];
    }

    method Finish()
      requires Valid() && building
      modifies this
      ensures Valid() && !building && outputs == old(outputs)
    {
      building := false;
    }

    /** Adds an entry that is not dropped, opening and closing tables as needed. */
    method Emit(e: Entry, i: nat, env: Environment) returns (ok: bool)
      requires Valid()
      modifies this
      ensures ok ==> Valid() && Added(old(outputs), old(building), outputs, e) && (building <==> !env.full(i))
      ensures env.NeverFails() ==> ok
    {
      if !building {
        if !env.opens(i) { return false; }
        AddToNewOutput(e);
      } else {
        AddToCurrentOutput(e);
      }
      if env.full(i) {
        if !env.finishes(2 * i + 1) { return false; }
        Finish();
      }
      return true;
    }

    /** The whole loop.  On success the output tables, in order, hold exactly the
        entries the drop rule keeps, and each table ends where it was full or the
        next entry asked for a new one, and nowhere else. */
    method DoCompactionWork(cmp: Comparator, isBase: Slice -> bool, es: seq<Entry>, env: Environment) returns (ok: bool)
      requires outputs == [] && !building
      modifies this
      ensures ok ==> Valid() && !building && Flatten(outputs) == Kept(cmp, isBase, es, smallestSnapshot, |es|)
      ensures ok ==> CutRight(env, KeptAt(cmp, isBase, es, smallestSnapshot, |es|), outputs)
      ensures ok ==> env.inputOk && forall i :: 0 <= i <= |es| ==> !env.shutdown(i)
      ensures env.NeverFails() ==> ok
    {
      hide CutRight, OpenRight, Added, KeptAt, Kept, Ended, Flatten, TableOf;
      NothingCut(env);
      NothingKept(cmp, isBase, es, smallestSnapshot);
      var i := 0;
      var currentUserKey: Slice := [];
      var hasCurrentUserKey := false;
      var lastSequenceForKey: Sequence := MAX_SEQUENCE;
      while i < |es| && !env.shutdown(i)
        invariant i <= |es| && Valid()
        invariant forall k :: 0 <= k < i ==> !env.shutdown(k)
        invariant hasCurrentUserKey <==> i > 0 && es[i - 1].Parses()
        invariant hasCurrentUserKey ==>
            && cmp(currentUserKey, es[i - 1].userKey) == 0
            && lastSequenceForKey == es[i - 1].Seqno()
        invariant Flatten(outputs) == Kept(cmp, isBase, es, smallestSnapshot, i)
        invariant CutRight(env, KeptAt(cmp, isBase, es, smallestSnapshot, i), outputs)
        invariant OpenRight(env, KeptAt(cmp, isBase, es, smallestSnapshot, i), outputs, building, i)
      {
        var e := es[i];
        ghost var pos := KeptAt(cmp, isBase, es, smallestSnapshot, i);
        KeptAtIs(cmp, isBase, es, smallestSnapshot, i);
        KeptAtStep(cmp, isBase, es, smallestSnapshot, i);
        AskedToStop(env, pos, outputs, building, i);
        if env.stopBefore(i) && building {
          if !env.finishes(2 * i) { return false; }
          Finish();
        }

        var drop := false;
        if !e.Parses() {
          currentUserKey := [];
          hasCurrentUserKey := false;
          lastSequenceForKey := MAX_SEQUENCE;
        } else {
          if hasCurrentUserKey {
            SameAsCurrent(cmp, e.userKey, currentUserKey, es[i - 1].userKey);
          }
          OrderLaws(cmp, e.userKey, e.userKey, e.userKey);
          if !hasCurrentUserKey || cmp(e.userKey, currentUserKey) != 0 {
            currentUserKey := e.userKey;
            hasCurrentUserKey := true;
            lastSequenceForKey := MAX_SEQUENCE;
          }
          assert lastSequenceForKey == LastSequenceForKey(cmp, es, i);
          if lastSequenceForKey <= smallestSnapshot {
            drop := true;
          } else if e.IsDeletion() && e.Seqno() <= smallestSnapshot && isBase(e.userKey) {
            drop := true;
          }
          lastSequenceForKey := e.Seqno();
        }

        if !drop {
          ghost var before, open := outputs, building;
          var emitted := Emit(e, i, env);
          if !emitted { return false; }
          AddedFlattens(before, open, outputs, e);
          AddedCutsRight(env, pos, before, open, outputs, e, i);
        }
        i := i + 1;
      }
      if i < |es| || env.shutdown(i) { return false; }
      if building {
        if !env.finishes(2 * i) { return false; }
        Finish();
      }
      ok := env.inputOk;
    }
  }

  lemma SameAsCurrent(cmp: Comparator, u: Slice, current: Slice, previous: Slice)
    requires cmp(current, previous) == 0
    ensures cmp(u, current) == 0 <==> cmp(u, previous) == 0
    ensures cmp(u, current) == 0 ==> cmp(current, u) == 0
  {
    OrderLaws(cmp, current, previous, u);
    OrderLaws(cmp, u, current, previous);
    OrderLaws(cmp, u, previous, current);
  }

  // ---------- The output tables ----------

  lemma {:induction false} InFlatten(outs: seq<Output>, a: nat, e: Entry)
    requires a < |outs| && e in outs[a].entries
    ensures e in Flatten(outs)
  {
    if a < |outs| - 1 {
      InFlatten(outs[..|outs| - 1], a, e);
    }
  }

  lemma {:induction false} FlattenOrder(cmp: Comparator, outs: seq<Output>, a: nat, b: nat, x: Entry, y: Entry)
    requires a < b < |outs| && x in outs[a].entries && y in outs[b].entries
    requires Sorted(cmp, Flatten(outs))
    ensures Before(cmp, x, y)
  {
    var front := outs[..|outs| - 1];
    if b == |outs| - 1 {
      InFlatten(front, a, x);
      var i, j :| 0 <= i < |Flatten(front)| && Flatten(front)[i] == x && 0 <= j < |outs[b].entries|
          && outs[b].entries[j] == y;
      assert Flatten(outs)[i] == x && Flatten(outs)[|Flatten(front)| + j] == y;
    } else {
      forall i, j | 0 <= i < j < |Flatten(front)|
        ensures Before(cmp, Flatten(front)[i], Flatten(front)[j])
      {
        assert Flatten(outs)[i] == Flatten(front)[i] && Flatten(outs)[j] == Flatten(front)[j];
      }
      FlattenOrder(cmp, front, a, b, x, y);
    }
  }

  /** The key ranges recorded for the output tables are disjoint and in order,
      so the tables can all live in one sorted level. */
  lemma {:induction false} OutputRangesDisjoint(cmp: Comparator, isBase: Slice -> bool, es: seq<Entry>,
      smallest: Sequence, outs: seq<Output>, a: nat, b: nat)
    requires Sorted(cmp, es) && Flatten(outs) == Kept(cmp, isBase, es, smallest, |es|)
    requires a < b < |outs| && outs[a].Closed() && outs[b].Closed()
    ensures Compare(cmp, outs[a].largest, outs[b].smallest) < 0
  {
    var x, y := outs[a].entries[|outs[a].entries| - 1], outs[b].entries[0];
    KeptSorted(cmp, isBase, es, smallest, |es|);
    FlattenOrder(cmp, outs, a, b, x, y);
    BeforeIsCompare(cmp, x, y);
  }
}
