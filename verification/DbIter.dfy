/** DBIter: collapses the multi-version entries under an internal iterator into
    the map that is visible at one sequence number, moving in both directions. */
module DbIter {
  import opened DbFormat
  import opened MultiVersion

  // ---------- The abstract cursor ----------

  /** es[i] is the entry that represents its user key at snapshot s: a value, and
      the newest visible version of that key. */
  ghost predicate Live(cmp: Comparator, es: seq<Entry>, s: Sequence, i: int) {
    && 0 <= i < |es| && es[i].VisibleAt(s) && es[i].IsValue()
    && forall j :: 0 <= j < i && es[j].VisibleAt(s) ==> !SameKey(cmp, es[j], es[i])
  }

  /** A cursor stands on a live entry or nowhere. */
  type Cursor = Option<nat>

  ghost predicate AtOrAfter(cmp: Comparator, es: seq<Entry>, s: Sequence, from: int, c: Cursor) {
    match c
    case Some(i) => from <= i && Live(cmp, es, s, i) && forall j :: from <= j < i ==> !Live(cmp, es, s, j)
    case None => forall j :: from <= j < |es| ==> !Live(cmp, es, s, j)
  }

  ghost predicate StrictlyBefore(cmp: Comparator, es: seq<Entry>, s: Sequence, limit: int, c: Cursor) {
    match c
    case Some(i) => i < limit && Live(cmp, es, s, i) && forall j :: i < j < limit ==> !Live(cmp, es, s, j)
    case None => forall j :: 0 <= j < limit ==> !Live(cmp, es, s, j)
  }

  /** The first live entry whose user key is not below the target. */
  ghost predicate KeyAtOrAfter(cmp: Comparator, es: seq<Entry>, s: Sequence, target: Slice, c: Cursor) {
    match c
    case Some(i) =>
      && Live(cmp, es, s, i) && cmp(es[i].userKey, target) >= 0
      && forall j :: 0 <= j < i && Live(cmp, es, s, j) ==> cmp(es[j].userKey, target) < 0
    case None => forall j :: Live(cmp, es, s, j) ==> cmp(es[j].userKey, target) < 0
  }

  // ---------- Order facts used by the scans ----------

  lemma KeysAscend(cmp: Comparator, es: seq<Entry>, i: nat, j: nat)
    requires Sorted(cmp, es) && i <= j < |es|
    ensures cmp(es[i].userKey, es[j].userKey) <= 0
    ensures cmp(es[j].userKey, es[i].userKey) >= 0
    ensures cmp(es[j].userKey, es[i].userKey) <= 0 ==> SameKey(cmp, es[i], es[j]) && SameKey(cmp, es[j], es[i])
  {
    OrderLaws(cmp, es[i].userKey, es[j].userKey, es[i].userKey);
    if i < j {
      assert Before(cmp, es[i], es[j]);
    }
  }

  lemma KeyChain(cmp: Comparator, a: Slice, b: Slice, c: Slice)
    ensures cmp(a, b) <= 0 && cmp(b, c) <= 0 ==> cmp(a, c) <= 0
    ensures cmp(a, b) <= 0 && cmp(b, c) < 0 ==> cmp(a, c) < 0
    ensures cmp(a, b) < 0 && cmp(b, c) <= 0 ==> cmp(a, c) < 0
    ensures cmp(a, b) == 0 <==> cmp(b, a) == 0
    ensures cmp(a, b) < 0 <==> cmp(b, a) > 0
  {
    OrderLaws(cmp, a, b, c);
  }

  // ---------- The forward scan ----------

  /** What holds when FindNextUserEntry looks at position p.  The search is for
      the first live entry at or after `from`; `over` is the live entry it is to
      step over, if any; `skip` is None while the scan is not skipping. */
  ghost predicate Skipping(cmp: Comparator, es: seq<Entry>, s: Sequence, from: nat, over: Option<nat>, p: nat,
      skip: Option<Slice>) {
    && p <= |es|
    && (forall q :: from <= q < p ==> !Live(cmp, es, s, q))
    && (match over
        case Some(c) =>
          && Live(cmp, es, s, c) && from == c + 1 && skip.Some? && cmp(es[c].userKey, skip.value) <= 0
          && (forall q :: p <= q < c ==> !es[q].VisibleAt(s))
        case None => from <= p)
    && (match skip
        case Some(k) =>
          && (forall j :: 0 <= j < p && es[j].VisibleAt(s) ==> cmp(es[j].userKey, k) <= 0)
          && (forall q :: p <= q < |es| && over != Some(q) && cmp(es[q].userKey, k) <= 0 ==> !Live(cmp, es, s, q))
        case None =>
          forall j, q :: 0 <= j < p <= q < |es| && es[j].VisibleAt(s) ==> !SameKey(cmp, es[j], es[q]))
  }

  lemma YieldIsLive(cmp: Comparator, es: seq<Entry>, s: Sequence, from: nat, over: Option<nat>, p: nat,
      skip: Option<Slice>)
    requires Sorted(cmp, es) && p < |es| && Skipping(cmp, es, s, from, over, p, skip)
    requires es[p].VisibleAt(s) && es[p].IsValue()
    requires skip.Some? ==> cmp(es[p].userKey, skip.value) > 0
    ensures Live(cmp, es, s, p) && p >= from
  {
    forall j | 0 <= j < p && es[j].VisibleAt(s)
      ensures !SameKey(cmp, es[j], es[p])
    {
      if skip.Some? {
        KeyChain(cmp, es[p].userKey, es[j].userKey, skip.value);
        KeyChain(cmp, es[j].userKey, es[p].userKey, skip.value);
      }
    }
  }

  lemma SkipDeletion(cmp: Comparator, es: seq<Entry>, s: Sequence, from: nat, over: Option<nat>, p: nat,
      skip: Option<Slice>)
    requires Sorted(cmp, es) && p < |es| && Skipping(cmp, es, s, from, over, p, skip)
    requires es[p].VisibleAt(s) && es[p].IsDeletion()
    ensures Skipping(cmp, es, s, from, over, p + 1, Some(es[p].userKey))
  {
    if over.Some? {
      KeysAscend(cmp, es, over.value, p);
    }
    forall j | 0 <= j < p + 1
      ensures cmp(es[j].userKey, es[p].userKey) <= 0
    {
      KeysAscend(cmp, es, j, p);
    }
    forall q | p + 1 <= q < |es| && cmp(es[q].userKey, es[p].userKey) <= 0
      ensures !Live(cmp, es, s, q)
    {
      KeysAscend(cmp, es, p, q);
    }
  }

  lemma SkipOther(cmp: Comparator, es: seq<Entry>, s: Sequence, from: nat, over: Option<nat>, p: nat,
      skip: Option<Slice>)
    requires Sorted(cmp, es) && p < |es| && Skipping(cmp, es, s, from, over, p, skip)
    requires !es[p].VisibleAt(s) || (skip.Some? && cmp(es[p].userKey, skip.value) <= 0)
    ensures Skipping(cmp, es, s, from, over, p + 1, skip)
  {
  }

  lemma ForwardStep(cmp: Comparator, es: seq<Entry>, s: Sequence, from: nat, over: Option<nat>, p: nat,
      skip: Option<Slice>)
    requires Sorted(cmp, es) && p < |es| && Skipping(cmp, es, s, from, over, p, skip)
    ensures es[p].VisibleAt(s) && es[p].IsDeletion() ==> Skipping(cmp, es, s, from, over, p + 1, Some(es[p].userKey))
    ensures !es[p].VisibleAt(s) || (es[p].IsValue() && skip.Some? && cmp(es[p].userKey, skip.value) <= 0)
            ==> Skipping(cmp, es, s, from, over, p + 1, skip)
    ensures es[p].VisibleAt(s) && es[p].IsValue() && (skip.Some? ==> cmp(es[p].userKey, skip.value) > 0)
            ==> AtOrAfter(cmp, es, s, from, Some(p))
  {
    if !es[p].VisibleAt(s) || (es[p].IsValue() && skip.Some? && cmp(es[p].userKey, skip.value) <= 0) {
      SkipOther(cmp, es, s, from, over, p, skip);
    } else if es[p].IsDeletion() {
      SkipDeletion(cmp, es, s, from, over, p, skip);
    } else {
      YieldIsLive(cmp, es, s, from, over, p, skip);
    }
  }

  lemma NothingAhead(cmp: Comparator, es: seq<Entry>, s: Sequence, from: nat, over: Option<nat>, p: nat,
      skip: Option<Slice>)
    requires Skipping(cmp, es, s, from, over, p, skip) && p == |es|
    ensures AtOrAfter(cmp, es, s, from, None)
  {
  }

  // ---------- The backward scan ----------

  /** The earliest visible entry at or above position p and below `limit`, if any. */
  ghost predicate EarliestVisible(es: seq<Entry>, s: Sequence, p: nat, limit: nat, m: Option<nat>)
    requires limit <= |es|
  {
    match m
    case Some(i) => p <= i < limit && es[i].VisibleAt(s) && forall j :: p <= j < i ==> !es[j].VisibleAt(s)
    case None => forall j :: p <= j < limit ==> !es[j].VisibleAt(s)
  }

  /** What holds when FindPrevUserEntry has scanned positions p .. limit - 1: the
      only entry there that can be live is the earliest visible one, m. */
  ghost predicate Scanned(cmp: Comparator, es: seq<Entry>, s: Sequence, p: nat, limit: nat, m: Option<nat>) {
    && p <= limit <= |es|
    && EarliestVisible(es, s, p, limit, m)
    && (forall q :: p <= q < limit && m != Some(q) ==> !Live(cmp, es, s, q))
  }

  lemma ScanVisible(cmp: Comparator, es: seq<Entry>, s: Sequence, p: nat, limit: nat, m: Option<nat>)
    requires Sorted(cmp, es) && Scanned(cmp, es, s, p + 1, limit, m) && es[p].VisibleAt(s)
    requires m.Some? && es[m.value].IsValue() ==> cmp(es[p].userKey, es[m.value].userKey) >= 0
    ensures Scanned(cmp, es, s, p, limit, Some(p))
  {
    if m.Some? {
      KeysAscend(cmp, es, p, m.value);
    }
  }

  lemma ScanInvisible(cmp: Comparator, es: seq<Entry>, s: Sequence, p: nat, limit: nat, m: Option<nat>)
    requires Scanned(cmp, es, s, p + 1, limit, m) && !es[p].VisibleAt(s)
    ensures Scanned(cmp, es, s, p, limit, m)
  {
  }

  /** Position pos is that of the last visible entry before c, or |es| if there is none. */
  ghost predicate JustBefore(es: seq<Entry>, s: Sequence, pos: nat, c: nat)
    requires c < |es|
  {
    if pos == |es| then forall j :: 0 <= j < c ==> !es[j].VisibleAt(s)
    else pos < c && es[pos].VisibleAt(s) && forall j :: pos < j < c ==> !es[j].VisibleAt(s)
  }

  /** The scan stops because of the smaller user key at position p - 1, or has run
      out of entries: m is live. */
  lemma ScanStops(cmp: Comparator, es: seq<Entry>, s: Sequence, p: nat, limit: nat, m: nat)
    requires Sorted(cmp, es) && Scanned(cmp, es, s, p, limit, Some(m)) && es[m].IsValue()
    requires p > 0 ==> es[p - 1].VisibleAt(s) && cmp(es[p - 1].userKey, es[m].userKey) < 0
    ensures Live(cmp, es, s, m) && StrictlyBefore(cmp, es, s, limit, Some(m))
    ensures JustBefore(es, s, if p == 0 then |es| else p - 1, m)
  {
    forall j | 0 <= j < m && es[j].VisibleAt(s)
      ensures !SameKey(cmp, es[j], es[m])
    {
      KeysAscend(cmp, es, j, p - 1);
      KeyChain(cmp, es[j].userKey, es[p - 1].userKey, es[m].userKey);
    }
  }

  lemma ScanStarts(cmp: Comparator, es: seq<Entry>, s: Sequence, limit: nat)
    requires limit <= |es|
    ensures Scanned(cmp, es, s, limit, limit, None)
    ensures StrictlyBefore(cmp, es, s, 0, None)
  {
  }

  lemma ScanFindsNothing(cmp: Comparator, es: seq<Entry>, s: Sequence, limit: nat, m: Option<nat>)
    requires Scanned(cmp, es, s, 0, limit, m) && (m.Some? ==> !es[m.value].IsValue())
    ensures StrictlyBefore(cmp, es, s, limit, None)
  {
  }

  // ---------- The iterator ----------

  ghost predicate HasCorruption(es: seq<Entry>) {
    exists i :: 0 <= i < |es| && !es[i].Parses()
  }

  datatype Direction = Forward | Reverse

  class DBIter {
    const cmp: Comparator
    const es: seq<Entry>          // what the internal iterator iterates over
    const sequence: Sequence
    var pos: nat                  // the internal iterator; |es| when it is not valid
    var savedKey: Slice
    var savedValue: Slice
    var direction: Direction
    var valid: bool
    var corrupt: bool             // status_ holds a corruption
    ghost var cursor: Cursor      // the abstract position

    ghost predicate Inv()
      reads this
    {
      && Sorted(cmp, es) && pos <= |es|
      && (corrupt ==> HasCorruption(es))
      && (valid <==> cursor.Some?)
      && (valid ==> OnEntry(cursor.value))
    }

    /** Moving forward the internal iterator is at the current entry.  Moving
        backward it is at the last visible entry before it, which belongs to a
        smaller user key, or is not valid when there is none. */
    ghost predicate OnEntry(c: nat)
      reads this
    {
      && Live(cmp, es, sequence, c)
      && match direction
         case Forward => pos == c
         case Reverse =>
           && savedKey == es[c].userKey && savedValue == es[c].value
           && JustBefore(es, sequence, pos, c)
    }

    constructor (cmp: Comparator, es: seq<Entry>, sequence: Sequence)
      requires Sorted(cmp, es)
      ensures Inv() && cursor == None && !corrupt
      ensures this.cmp == cmp && this.es == es && this.sequence == sequence
    {
      this.cmp, this.es, this.sequence := cmp, es, sequence;
      pos, savedKey, savedValue := |es|, [], [];
      direction, valid, corrupt, cursor := Forward, false, false, None;
    }

    method Key() returns (k: Slice)
      requires Inv() && valid
      ensures k == es[cursor.value].userKey
    {
      k := if direction == Forward then es[pos].userKey else savedKey;
    }

    method Value() returns (v: Slice)
      requires Inv() && valid
      ensures v == es[cursor.value].value
    {
      v := if direction == Forward then es[pos].value else savedValue;
    }

    /** ParseKey, combined with the sequence test that follows every use of it. */
    method ParseVisible() returns (visible: bool)
      requires pos < |es| && (corrupt ==> HasCorruption(es))
      modifies this`corrupt
      ensures visible <==> es[pos].VisibleAt(sequence)
      ensures corrupt ==> HasCorruption(es)
      ensures corrupt <==> old(corrupt) || !es[pos].Parses()
    {
      if !es[pos].Parses() {
        corrupt := true;
        return false;
      }
      return es[pos].Seqno() <= sequence;
    }

    method FindNextUserEntry(skipping: bool, ghost from: nat, ghost over: Option<nat>)
      requires Sorted(cmp, es) && pos < |es| && direction == Forward
      requires corrupt ==> HasCorruption(es)
      requires Skipping(cmp, es, sequence, from, over, pos, if skipping then Some(savedKey) else None)
      modifies this
      ensures Inv() && direction == Forward && AtOrAfter(cmp, es, sequence, from, cursor)
    {
      hide Skipping, Live, AtOrAfter, JustBefore, Sorted, HasCorruption;
      var skip := skipping;
      while true
        invariant pos < |es| && direction == Forward
        invariant corrupt ==> HasCorruption(es)
        invariant Skipping(cmp, es, sequence, from, over, pos, if skip then Some(savedKey) else None)
        decreases |es| - pos
      {
        ForwardStep(cmp, es, sequence, from, over, pos, if skip then Some(savedKey) else None);
        var visible := ParseVisible();
        if visible {
          if es[pos].IsDeletion() {
            savedKey := es[pos].userKey;
            skip := true;
          } else if skip && cmp(es[pos].userKey, savedKey) <= 0 {
            // hidden
          } else {
            valid := true;
            savedKey := [];
            cursor := Some(pos);
            return;
          }
        }
        pos := pos + 1;
        if pos >= |es| { break; }
      }
      NothingAhead(cmp, es, sequence, from, over, pos, if skip then Some(savedKey) else None);
      savedKey := [];
      valid := false;
      cursor := None;
    }

    method Next()
      requires Inv() && valid
      modifies this
      ensures Inv() && AtOrAfter(cmp, es, sequence, old(cursor.value) + 1, cursor)
    {
      ghost var c := cursor.value;
      if direction == Reverse {
        direction := Forward;
        if pos == |es| {
          pos := 0;
        } else {
          pos := pos + 1;
        }
        if pos == |es| {
          assert false;  // the entries of the current key are still ahead
        }
      } else {
        savedKey := es[pos].userKey;
      }
      EnterAt(cmp, es, sequence, c, pos);
      FindNextUserEntry(true, c + 1, Some(c));
    }

    method FindPrevUserEntry(ghost limit: nat)
      requires Sorted(cmp, es) && pos <= |es| && direction == Reverse
      requires limit == if pos == |es| then 0 else pos + 1
      requires corrupt ==> HasCorruption(es)
      modifies this
      ensures Inv()
      ensures StrictlyBefore(cmp, es, sequence, limit, cursor)
    {
      hide Scanned, Live, StrictlyBefore, JustBefore, Sorted, HasCorruption, SameKey, Before, EarliestVisible,
          Entry.VisibleAt, Entry.Parses, Entry.IsValue, Entry.IsDeletion;
      var isValue := false;
      ghost var m: Option<nat> := None;
      ScanStarts(cmp, es, sequence, limit);
      if pos < |es| {
        while true
          invariant pos < |es| && pos + 1 <= limit && direction == Reverse
          invariant corrupt ==> HasCorruption(es)
          invariant Scanned(cmp, es, sequence, pos + 1, limit, m)
          invariant m.Some? ==> m.value < |es|
          invariant isValue <==> m.Some? && es[m.value].IsValue()
          invariant isValue ==> savedKey == es[m.value].userKey && savedValue == es[m.value].value
          decreases pos
        {
          var visible := ParseVisible();
          if visible {
            if isValue && cmp(es[pos].userKey, savedKey) < 0 {
              ScanStops(cmp, es, sequence, pos + 1, limit, m.value);
              break;
            }
            ScanVisible(cmp, es, sequence, pos, limit, m);
            m := Some(pos);
            isValue := es[pos].IsValue();
            if !isValue {
              savedKey, savedValue := [], [];
            } else {
              savedKey, savedValue := es[pos].userKey, es[pos].value;
            }
          } else {
            ScanInvisible(cmp, es, sequence, pos, limit, m);
          }
          if pos == 0 {
            pos := |es|;
            if isValue {
              ScanStops(cmp, es, sequence, 0, limit, m.value);
            } else {
              ScanFindsNothing(cmp, es, sequence, limit, m);
            }
            break;
          }
          pos := pos - 1;
        }
      }
      if !isValue {
        valid := false;
        savedKey, savedValue := [], [];
        direction := Forward;
        cursor := None;
      } else {
        valid := true;
        cursor := m;
      }
    }

    method Prev()
      requires Inv() && valid
      modifies this
      ensures Inv() && StrictlyBefore(cmp, es, sequence, old(cursor.value), cursor)
    {
      ghost var c := cursor.value;
      if direction == Forward {
        savedKey := es[pos].userKey;
        while true
          invariant pos <= c && direction == Forward && savedKey == es[c].userKey
          invariant corrupt ==> HasCorruption(es)
          invariant forall j :: pos <= j < c ==> SameKey(cmp, es[j], es[c])
          decreases pos
        {
          if pos == 0 {
            pos := |es|;
            valid := false;
            savedKey, savedValue := [], [];
            cursor := None;
            return;
          }
          pos := pos - 1;
          KeysAscend(cmp, es, pos, c);
          if cmp(es[pos].userKey, savedKey) < 0 {
            break;
          }
        }
        direction := Reverse;
      }
      FindPrevUserEntry(if pos == |es| then 0 else pos + 1);
    }

    /** iter_->Seek: the first entry at or after an internal key. */
    method SeekInternal(target: ParsedInternalKey)
      requires Sorted(cmp, es)
      modifies this`pos
      ensures pos <= |es|
      ensures forall j :: 0 <= j < pos ==> Before(cmp, es[j],
          Entry(target.userKey, PackSequenceAndType(target.sequence, target.typ), []))
      ensures pos < |es| ==> !Before(cmp, es[pos],
          Entry(target.userKey, PackSequenceAndType(target.sequence, target.typ), []))
    {
      var t := Entry(target.userKey, PackSequenceAndType(target.sequence, target.typ), []);
      pos := 0;
      while pos < |es| && Before(cmp, es[pos], t)
        invariant pos <= |es|
        invariant forall j :: 0 <= j < pos ==> Before(cmp, es[j], t)
      {
        pos := pos + 1;
      }
    }

    method Seek(target: Slice)
      requires Inv()
      modifies this
      ensures Inv() && KeyAtOrAfter(cmp, es, sequence, target, cursor)
    {
      direction := Forward;
      savedValue := [];
      savedKey := AppendInternalKey([], ParsedInternalKey(target, sequence, TYPE_FOR_SEEK));
      SeekInternal(ParsedInternalKey(target, sequence, TYPE_FOR_SEEK));
      SeekLands(cmp, es, sequence, target, pos);
      if pos < |es| {
        FindNextUserEntry(false, pos, None);
      } else {
        valid := false;
        cursor := None;
      }
    }

    method SeekToFirst()
      requires Inv()
      modifies this
      ensures Inv() && AtOrAfter(cmp, es, sequence, 0, cursor)
    {
      direction := Forward;
      savedValue := [];
      pos := 0;
      if pos < |es| {
        FindNextUserEntry(false, 0, None);
      } else {
        valid := false;
        cursor := None;
      }
    }

    method SeekToLast()
      requires Inv()
      modifies this
      ensures Inv() && StrictlyBefore(cmp, es, sequence, |es|, cursor)
    {
      direction := Reverse;
      savedValue := [];
      pos := if |es| == 0 then 0 else |es| - 1;
      FindPrevUserEntry(if pos == |es| then 0 else pos + 1);
    }
  }

  /** Resuming the forward scan for the entry after the live entry c. */
  lemma EnterAt(cmp: Comparator, es: seq<Entry>, s: Sequence, c: nat, p: nat)
    requires Sorted(cmp, es) && Live(cmp, es, s, c) && p <= c
    requires forall j :: p <= j < c ==> !es[j].VisibleAt(s)
    ensures Skipping(cmp, es, s, c + 1, Some(c), p, Some(es[c].userKey))
  {
    forall j | 0 <= j < p
      ensures cmp(es[j].userKey, es[c].userKey) <= 0
    {
      KeysAscend(cmp, es, j, c);
    }
    KeysAscend(cmp, es, c, c);
    forall q | p <= q < |es| && q != c && cmp(es[q].userKey, es[c].userKey) <= 0
      ensures !Live(cmp, es, s, q)
    {
      if c < q {
        KeysAscend(cmp, es, c, q);
      }
    }
  }

  lemma SeekLands(cmp: Comparator, es: seq<Entry>, s: Sequence, target: Slice, p: nat)
    requires Sorted(cmp, es) && p <= |es|
    requires forall j :: 0 <= j < p ==> Before(cmp, es[j], Entry(target, PackSequenceAndType(s, TYPE_FOR_SEEK), []))
    requires p < |es| ==> !Before(cmp, es[p], Entry(target, PackSequenceAndType(s, TYPE_FOR_SEEK), []))
    ensures forall j :: 0 <= j < p && es[j].VisibleAt(s) ==> cmp(es[j].userKey, target) < 0
    ensures forall q :: p <= q < |es| ==> cmp(es[q].userKey, target) >= 0
    ensures p < |es| ==> Skipping(cmp, es, s, p, None, p, None)
  {
    forall q | p <= q < |es|
      ensures cmp(es[q].userKey, target) >= 0
    {
      KeysAscend(cmp, es, p, q);
      KeyChain(cmp, es[p].userKey, es[q].userKey, target);
    }
    forall j, q | 0 <= j < p <= q < |es| && es[j].VisibleAt(s)
      ensures !SameKey(cmp, es[j], es[q])
    {
      KeyChain(cmp, es[q].userKey, es[j].userKey, target);
      KeyChain(cmp, es[j].userKey, es[q].userKey, target);
    }
  }

  // ---------- Whole runs ----------

  datatype Op = SeekTo(target: Slice) | First | Last | Forth | Back

  /** One move of the abstract cursor.  Forth and Back from nowhere are not allowed. */
  ghost predicate CursorStep(cmp: Comparator, es: seq<Entry>, s: Sequence, op: Op, c: Cursor, c': Cursor) {
    match op
    case SeekTo(t) => KeyAtOrAfter(cmp, es, s, t, c')
    case First => AtOrAfter(cmp, es, s, 0, c')
    case Last => StrictlyBefore(cmp, es, s, |es|, c')
    case Forth => c.Some? && AtOrAfter(cmp, es, s, c.value + 1, c')
    case Back => c.Some? && StrictlyBefore(cmp, es, s, c.value, c')
  }

  /** The abstract cursor is deterministic, so a step of it is a complete specification. */
  lemma CursorStepUnique(cmp: Comparator, es: seq<Entry>, s: Sequence, op: Op, c: Cursor, c1: Cursor, c2: Cursor)
    requires Sorted(cmp, es)
    requires CursorStep(cmp, es, s, op, c, c1) && CursorStep(cmp, es, s, op, c, c2)
    ensures c1 == c2
  {
  }

  method Apply(it: DBIter, op: Op)
    requires it.Inv() && (op.Forth? || op.Back? ==> it.valid)
    modifies it
    ensures it.Inv() && CursorStep(it.cmp, it.es, it.sequence, op, old(it.cursor), it.cursor)
  {
    match op
    case SeekTo(t) => it.Seek(t);
    case First => it.SeekToFirst();
    case Last => it.SeekToLast();
    case Forth => it.Next();
    case Back => it.Prev();
  }

  /** What a client sees after a move: Valid(), and then key() and value(). */
  ghost predicate Shows(es: seq<Entry>, c: Cursor, view: Option<(Slice, Slice)>) {
    match c
    case None => view == None
    case Some(i) => i < |es| && view == Some((es[i].userKey, es[i].value))
  }

  method Look(it: DBIter) returns (view: Option<(Slice, Slice)>)
    requires it.Inv()
    ensures Shows(it.es, it.cursor, view)
  {
    if it.valid {
      var k := it.Key();
      var v := it.Value();
      view := Some((k, v));
    } else {
      view := None;
    }
  }

  ghost function Final(start: Cursor, trace: seq<Cursor>): Cursor {
    if trace == [] then start else trace[|trace| - 1]
  }

  ghost predicate IsRun(cmp: Comparator, es: seq<Entry>, s: Sequence, ops: seq<Op>, start: Cursor, trace: seq<Cursor>)
    decreases |ops|
  {
    && |trace| == |ops|
    && (ops != [] ==>
          var n := |ops| - 1;
          && IsRun(cmp, es, s, ops[..n], start, trace[..n])
          && CursorStep(cmp, es, s, ops[n], Final(start, trace[..n]), trace[n])
          && (trace[n].Some? ==> trace[n].value < |es|))
  }

  lemma {:induction false} RunStarts(cmp: Comparator, es: seq<Entry>, s: Sequence, start: Cursor)
    ensures IsRun(cmp, es, s, [], start, []) && Final(start, []) == start
  {
  }

  lemma {:induction false} RunExtends(cmp: Comparator, es: seq<Entry>, s: Sequence, ops: seq<Op>, start: Cursor,
      trace: seq<Cursor>, n: nat, c: Cursor)
    requires n < |ops| && IsRun(cmp, es, s, ops[..n], start, trace)
    requires CursorStep(cmp, es, s, ops[n], Final(start, trace), c) && (c.Some? ==> c.value < |es|)
    ensures IsRun(cmp, es, s, ops[..n + 1], start, trace + [c]) && Final(start, trace + [c]) == c
  {
    assert ops[..n + 1][..n] == ops[..n] && (trace + [c])[..n] == trace;
  }

  /** Any mix of moves shows the client exactly what the abstract cursor shows,
      up to the first Forth or Back that a client may not make. */
  method Run(it: DBIter, ops: seq<Op>) returns (views: seq<Option<(Slice, Slice)>>, ghost trace: seq<Cursor>)
    requires it.Inv()
    modifies it
    ensures it.Inv() && |views| <= |ops|
    ensures IsRun(it.cmp, it.es, it.sequence, ops[..|views|], old(it.cursor), trace)
    ensures |trace| == |views| && forall i :: 0 <= i < |views| ==> Shows(it.es, trace[i], views[i])
    ensures |views| < |ops| ==> it.cursor == None && (ops[|views|].Forth? || ops[|views|].Back?)
  {
    hide CursorStep, Live, IsRun, Shows, Final, Sorted;
    views, trace := [], [];
    assert ops[..0] == [];
    RunStarts(it.cmp, it.es, it.sequence, it.cursor);
    while |views| < |ops|
      invariant it.Inv() && |views| <= |ops| && |trace| == |views|
      invariant IsRun(it.cmp, it.es, it.sequence, ops[..|views|], old(it.cursor), trace)
      invariant it.cursor == Final(old(it.cursor), trace)
      invariant forall i :: 0 <= i < |views| ==> Shows(it.es, trace[i], views[i])
    {
      var op := ops[|views|];
      if (op.Forth? || op.Back?) && !it.valid { break; }
      Apply(it, op);
      var view := Look(it);
      RunExtends(it.cmp, it.es, it.sequence, ops, old(it.cursor), trace, |views|, it.cursor);
      trace := trace + [it.cursor];
      views := views + [view];
    }
  }

  // ---------- The visible map ----------

  /** Live entries are exactly the answers of reads: a read of k finds a value if
      and only if a live entry has that user key and that value. */
  lemma LiveEntriesAreReads(cmp: Comparator, es: seq<Entry>, s: Sequence, k: Slice, v: Slice)
    requires Sorted(cmp, es)
    ensures Reads(cmp, es, k, s, Some(v)) <==>
      exists i :: Live(cmp, es, s, i) && cmp(es[i].userKey, k) == 0 && es[i].value == v
  {
    if Reads(cmp, es, k, s, Some(v)) {
      var e :| IsNewest(cmp, es, k, s, e) && e.IsValue() && e.value == v;
      var i :| 0 <= i < |es| && es[i] == e;
      forall j | 0 <= j < i && es[j].VisibleAt(s)
        ensures !SameKey(cmp, es[j], es[i])
      {
        KeyChain(cmp, es[j].userKey, es[i].userKey, k);
        OrderLaws(cmp, es[i].userKey, es[j].userKey, k);
        OrderLaws(cmp, es[j].userKey, es[i].userKey, k);
        assert es[j] in es && Before(cmp, es[j], es[i]);
      }
      assert Live(cmp, es, s, i);
    }
    if i :| Live(cmp, es, s, i) && cmp(es[i].userKey, k) == 0 && es[i].value == v {
      forall e | e in es && Matches(cmp, e, k, s)
        ensures e.tag <= es[i].tag
      {
        var j :| 0 <= j < |es| && es[j] == e;
        OrderLaws(cmp, es[j].userKey, k, es[i].userKey);
        OrderLaws(cmp, es[i].userKey, k, es[j].userKey);
        if i < j {
          assert Before(cmp, es[i], es[j]);
        }
      }
      assert IsNewest(cmp, es, k, s, es[i]);
    }
  }

  /** Moving forward visits user keys in strictly ascending order. */
  lemma LiveKeysAscend(cmp: Comparator, es: seq<Entry>, s: Sequence, i: nat, j: nat)
    requires Sorted(cmp, es) && Live(cmp, es, s, i) && Live(cmp, es, s, j)
    ensures i < j <==> cmp(es[i].userKey, es[j].userKey) < 0
  {
    OrderLaws(cmp, es[i].userKey, es[j].userKey, es[i].userKey);
    if i < j {
      KeysAscend(cmp, es, i, j);
    } else {
      KeysAscend(cmp, es, j, i);
    }
  }
}
