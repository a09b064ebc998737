/** The list of live snapshots: a circular doubly linked list with a dummy head,
    and the bound a compaction takes from it. */
module Snapshots {
  import opened DbFormat
  import opened MultiVersion
  import opened Compaction

  class SnapshotImpl {
    var prev: SnapshotImpl?
    var next: SnapshotImpl?
    const sequenceNumber: Sequence

    constructor (s: Sequence)
      ensures sequenceNumber == s
    {
      sequenceNumber := s;
      prev, next := null, null;
    }
  }

  /** No node occurs twice, except the head at both ends. */
  ghost predicate Distinct(walk: seq<SnapshotImpl>) {
    forall i, j :: 0 <= i < j < |walk| && j - i < |walk| - 1 ==> walk[i] != walk[j]
  }

  lemma SpliceKeepsOrder(live: seq<SnapshotImpl>, k: nat)
    requires k < |live| && NonDecreasing(live)
    ensures NonDecreasing(live[..k] + live[k + 1..])
  {
  }

  lemma SpliceKeepsDistinct(walk: seq<SnapshotImpl>, k: nat)
    requires 0 < k < |walk| - 1 && Distinct(walk)
    ensures Distinct(walk[..k] + walk[k + 1..])
  {
  }

  /** One walk around the ring, from the head back to the head: next leads along
      it, prev leads back, and it meets no node twice. */
  ghost predicate IsWalk(walk: seq<SnapshotImpl>)
    reads walk
  {
    && |walk| >= 2 && walk[|walk| - 1] == walk[0]
    && Distinct(walk)
    && (forall i :: 0 <= i < |walk| - 1 ==> walk[i].next == walk[i + 1])
    && (forall i :: 0 < i < |walk| ==> walk[i].prev == walk[i - 1])
  }

  ghost predicate NonDecreasing(live: seq<SnapshotImpl>) {
    forall i, j :: 0 <= i < j < |live| ==> live[i].sequenceNumber <= live[j].sequenceNumber
  }

  /** Unlinking node k + 1 writes next of node k and prev of node k + 2 only. */
  lemma NeighboursDiffer(walk: seq<SnapshotImpl>, k: nat)
    requires k + 2 < |walk| && Distinct(walk)
    ensures forall i :: 0 <= i < |walk| - 1 && i != k ==> walk[i] != walk[k]
    ensures forall i :: 0 < i < |walk| && i != k + 2 ==> walk[i] != walk[k + 2]
  {
  }

  class SnapshotList {
    const head: SnapshotImpl
    ghost var live: seq<SnapshotImpl>    // the live snapshots, in creation order

    ghost predicate Valid()
      reads this, head, live
    {
      IsWalk([head] + live + [head]) && NonDecreasing(live)
    }

    constructor ()
      ensures Valid() && live == [] && fresh(head)
    {
      head := new SnapshotImpl(0);
      live := [];
      new;
      head.prev, head.next := head, head;
    }

    method Empty() returns (empty: bool)
      requires Valid()
      ensures empty <==> live == []
    {
      ghost var walk := [head] + live + [head];
      assert walk[0].next == walk[1];
      empty := head.next == head;
    }

    method Oldest() returns (s: SnapshotImpl)
      requires Valid() && live != []
      ensures s == live[0]
      ensures forall t :: t in live ==> s.sequenceNumber <= t.sequenceNumber
    {
      ghost var walk := [head] + live + [head];
      assert walk[0].next == walk[1] == live[0];
      s := head.next;
    }

    method Newest() returns (s: SnapshotImpl)
      requires Valid() && live != []
      ensures s == live[|live| - 1]
      ensures forall t :: t in live ==> t.sequenceNumber <= s.sequenceNumber
    {
      ghost var walk := [head] + live + [head];
      assert walk[|live| + 1].prev == walk[|live|] == live[|live| - 1];
      s := head.prev;
    }

    /** Appends a snapshot; sequence numbers may not go backwards. */
    method New(sequenceNumber: Sequence) returns (snapshot: SnapshotImpl)
      requires Valid()
      requires live == [] || live[|live| - 1].sequenceNumber <= sequenceNumber
      modifies this, head, live
      ensures Valid() && fresh(snapshot) && snapshot.sequenceNumber == sequenceNumber
      ensures live == old(live) + [snapshot]
    {
      ghost var walk := [head] + live + [head];
      ghost var n := |live|;
      snapshot := new SnapshotImpl(sequenceNumber);
      assert walk[n + 1].prev == walk[n];
      snapshot.next := head;
      snapshot.prev := head.prev;
      snapshot.prev.next := snapshot;
      snapshot.next.prev := snapshot;
      live := live + [snapshot];
      ghost var walk' := [head] + live + [head];
      assert forall i :: 0 <= i <= n ==> walk'[i] == walk[i];
      assert walk'[n + 1] == snapshot && walk'[n + 2] == head;
    }

    /** Unlinks a snapshot made by New on this list. */
    method Delete(snapshot: SnapshotImpl, ghost k: nat)
      requires Valid() && k < |live| && live[k] == snapshot
      modifies this, head, live
      ensures Valid()
      ensures live == old(live)[..k] + old(live)[k + 1..]
    {
      hide NonDecreasing, Distinct;
      ghost var walk := [head] + live + [head];
      assert walk[k + 1] == snapshot;
      SpliceKeepsOrder(live, k);
      SpliceKeepsDistinct(walk, k + 1);
      NeighboursDiffer(walk, k);
      assert snapshot.prev == walk[k] && snapshot.next == walk[k + 2];
      snapshot.prev.next := snapshot.next;
      snapshot.next.prev := snapshot.prev;
      live := live[..k] + live[k + 1..];
      ghost var walk' := [head] + live + [head];
      assert walk' == walk[..k + 1] + walk[k + 2..];
      forall i | 0 <= i < |walk'| - 1
        ensures walk'[i].next == walk'[i + 1]
      {
        if i > k {
          assert walk'[i] == walk[i + 1] && walk'[i + 1] == walk[i + 2];
        }
      }
      forall i | 0 < i < |walk'|
        ensures walk'[i].prev == walk'[i - 1]
      {
        if i > k + 1 {
          assert walk'[i] == walk[i + 1] && walk'[i - 1] == walk[i];
        }
      }
    }

    /** The snapshot a compaction must respect, chosen as DoCompactionWork does. */
    method SmallestSnapshot(lastSequence: Sequence) returns (s: Sequence)
      requires Valid()
      ensures s == Smallest(Numbers(live), lastSequence)
    {
      var none := Empty();
      if none {
        s := lastSequence;
      } else {
        var oldest := Oldest();
        s := oldest.sequenceNumber;
      }
    }
  }

  ghost function Numbers(live: seq<SnapshotImpl>): (ns: seq<Sequence>)
    ensures |ns| == |live| && forall i :: 0 <= i < |live| ==> ns[i] == live[i].sequenceNumber
  {
    seq(|live|, i requires 0 <= i < |live| => live[i].sequenceNumber)
  }

  function Smallest(numbers: seq<Sequence>, lastSequence: Sequence): Sequence {
    if numbers == [] then lastSequence else numbers[0]
  }

  // ---------- Snapshots over a run of the database ----------

  /** The live snapshot numbers, in creation order, and LastSequence. */
  datatype Timeline = Timeline(numbers: seq<Sequence>, last: Sequence)

  datatype Event =
    | Write(count: nat)      // a batch of this many entries commits
    | GetSnapshot
    | ReleaseSnapshot(k: nat)

  predicate Allowed(t: Timeline, e: Event) {
    match e
    case Write(count) => t.last + count <= MAX_SEQUENCE
    case GetSnapshot => true
    case ReleaseSnapshot(k) => k < |t.numbers|
  }

  function Next(t: Timeline, e: Event): Timeline
    requires Allowed(t, e)
  {
    match e
    case Write(count) => t.(last := t.last + count)
    case GetSnapshot => t.(numbers := t.numbers + [t.last])
    case ReleaseSnapshot(k) => t.(numbers := t.numbers[..k] + t.numbers[k + 1..])
  }

  predicate AllowedRun(t: Timeline, es: seq<Event>)
    decreases |es|
  {
    es != [] ==> Allowed(t, es[0]) && AllowedRun(Next(t, es[0]), es[1..])
  }

  function After(t: Timeline, es: seq<Event>): Timeline
    requires AllowedRun(t, es)
    decreases |es|
  {
    if es == [] then t else After(Next(t, es[0]), es[1..])
  }

  ghost predicate Ordered(t: Timeline) {
    && (forall i, j :: 0 <= i < j < |t.numbers| ==> t.numbers[i] <= t.numbers[j])
    && (forall i :: 0 <= i < |t.numbers| ==> t.numbers[i] <= t.last)
  }

  lemma StepBounded(t: Timeline, e: Event)
    requires Ordered(t) && Allowed(t, e)
    ensures Ordered(Next(t, e))
    ensures Smallest(t.numbers, t.last) <= Smallest(Next(t, e).numbers, Next(t, e).last)
  {
    if e.ReleaseSnapshot? {
      ReleaseKeepsOrder(t, e.k);
    }
  }

  lemma ReleaseKeepsOrder(t: Timeline, k: nat)
    requires Ordered(t) && k < |t.numbers|
    ensures var t' := t.(numbers := t.numbers[..k] + t.numbers[k + 1..]);
      Ordered(t') && Smallest(t.numbers, t.last) <= Smallest(t'.numbers, t'.last)
  {
    var numbers := t.numbers[..k] + t.numbers[k + 1..];
    assert forall i :: 0 <= i < k ==> numbers[i] == t.numbers[i];
    assert forall i :: k <= i < |numbers| ==> numbers[i] == t.numbers[i + 1];
  }

  /** The snapshot a compaction chooses bounds from below every snapshot that is
      live at any later moment and every one that could be taken then. */
  lemma {:induction false} SmallestBoundsTheFuture(t: Timeline, es: seq<Event>, s: Sequence)
    requires Ordered(t) && AllowedRun(t, es)
    requires s in After(t, es).numbers || s == After(t, es).last
    ensures Ordered(After(t, es)) && s >= Smallest(t.numbers, t.last)
    decreases |es|
  {
    if es != [] {
      StepBounded(t, es[0]);
      SmallestBoundsTheFuture(Next(t, es[0]), es[1..], s);
    }
  }

  /** So a compaction changes no read at any snapshot that is live, or is taken,
      at any moment from its start on. */
  lemma {:induction false} CompactionInvisible(cmp: Comparator, isBase: Slice -> bool, upper: seq<Entry>,
      input: seq<Entry>, deeper: seq<Entry>,
                            t: Timeline, es: seq<Event>, k: Slice, s: Sequence, r: Option<Slice>)
    requires Ordered(t) && AllowedRun(t, es) && Smallest(t.numbers, t.last) < MAX_SEQUENCE
    requires s in After(t, es).numbers || s == After(t, es).last
    requires Sorted(cmp, input) && IsBaseContract(cmp, isBase, deeper) && Newer(cmp, upper, input)
    requires forall e :: e in input ==> e.Parses()
    ensures Reads(cmp, upper + input + deeper, k, s, r) <==>
            Reads(cmp, upper + Kept(cmp, isBase, input, Smallest(t.numbers, t.last), |input|) + deeper, k, s, r)
  {
    var smallest := Smallest(t.numbers, t.last);
    SmallestBoundsTheFuture(t, es, s);
    WellFormedNeverResurfaces(cmp, isBase, input, smallest);
    ReadPreserved(cmp, isBase, upper, input, deeper, smallest, k, s, r);
  }
}
