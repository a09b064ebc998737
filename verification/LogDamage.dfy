/** What is read back from a log that appends have failed on. */
module LogDamage {
  import opened DbFormat
  import opened Log
  import opened LogProofs

  // ---------- Longer files ----------

  /** Two readers at one place in a file and a longer one: their buffers are the
      same, or the shorter file has ended. */
  ghost predicate Follows(f: Slice, g: Slice, s: ReadState, t: ReadState) {
    && f <= g && s.In(f) && t.In(g)
    && (if t.end <= |f| then s == t else s.pos == t.pos && s.end == |f| && s.eof)
  }

  lemma FollowsRefilled(f: Slice, g: Slice, st: ReadState)
    requires f <= g && st.In(f) && st.In(g) && !st.eof
    ensures Follows(f, g, Refill(f, st), Refill(g, st))
  {
  }

  /** Nothing more is read at the end of the file. */
  lemma {:induction false} AtEnd(crc: Checksum, f: Slice, s: ReadState)
    requires s.In(f) && s.eof && s.end - s.pos < HEADER_SIZE
    ensures ReadPhysical(crc, f, s).0 == Eof
  {
  }

  lemma {:induction false} PhysicalHere(crc: Checksum, file: Slice, st: ReadState)
    requires st.In(file) && st.end - st.pos >= HEADER_SIZE
    ensures var p := Parse(crc, file[st.pos..st.end], st.eof);
      ReadPhysical(crc, file, st) == (p, st.(pos := if p.Piece? then st.pos + HEADER_SIZE + |p.payload| else st.end))
  {
  }

  /** With more bytes in the buffer, what is a good fragment stays one, and what
      is not may become the end of the readable part. */
  lemma ParseMore(crc: Checksum, b: Slice, c: Slice, eof: bool)
    requires HEADER_SIZE <= |b| && b <= c
    ensures var p, q := Parse(crc, b, true), Parse(crc, c, eof);
      (p.Piece? ==> q == p) && (p.Bad? ==> q.Bad?)
  {
    assert b[4..6] == c[4..6] && b[..4] == c[..4];
    var n := HEADER_SIZE + HeaderLength(b);
    if n <= |b| {
      assert b[6..n] == c[6..n] && b[HEADER_SIZE..n] == c[HEADER_SIZE..n];
    }
  }

  /** The next fragment in the shorter file is the next in the longer one, or the
      shorter file has no more. */
  lemma {:induction false} PhysicalFollows(crc: Checksum, f: Slice, g: Slice, s: ReadState, t: ReadState)
    requires Follows(f, g, s, t)
    ensures var (p, s') := ReadPhysical(crc, f, s);
      var (q, t') := ReadPhysical(crc, g, t);
      || p.Eof?
      || (p.Bad? && ReadPhysical(crc, f, s').0.Eof?)
      || (p == q && Follows(f, g, s', t'))
    decreases |f| - s.end, !s.eof
  {
    hide Parse, Refill;
    if s.end - s.pos < HEADER_SIZE {
      if s.eof {
        AtEnd(crc, f, s);
      } else {
        FollowsRefilled(f, g, s);
        RefillDecreases(f, s);
        PhysicalFollows(crc, f, g, Refill(f, s), Refill(g, s));
      }
    } else {
      PhysicalHere(crc, f, s);
      PhysicalHere(crc, g, t);
      var b, c := f[s.pos..s.end], g[t.pos..t.end];
      if t.end <= |f| {
        assert b == c;
      } else {
        assert b <= c;
        ParseMore(crc, b, c, t.eof);
        var p := Parse(crc, b, true);
        if p.Bad? {
          AtEnd(crc, f, s.(pos := s.end));
        }
      }
    }
  }

  lemma RefillDecreases(file: Slice, st: ReadState)
    requires st.In(file) && !st.eof
    ensures Refill(file, st).end > st.end || (Refill(file, st).end == st.end && Refill(file, st).eof)
  {
  }

  lemma {:induction false} LogicalFollows(crc: Checksum, f: Slice, g: Slice, s: ReadState, t: ReadState, a: Assembly)
    requires Follows(f, g, s, t)
    ensures var r := ReadLogical(crc, f, s, a);
      r.0.Record? ==>
        var r' := ReadLogical(crc, g, t, a);
        r'.0 == r.0 && Follows(f, g, r.1, r'.1)
    decreases |f| - s.pos
  {
    hide ReadPhysical, ReadLogical;
    PhysicalFollows(crc, f, g, s, t);
    ReadLogicalStep(crc, f, s, a);
    ReadLogicalStep(crc, g, t, a);
    var (p, s') := ReadPhysical(crc, f, s);
    if p.Bad? && ReadPhysical(crc, f, s').0.Eof? {
      ReadLogicalStep(crc, f, s', a.Abandon());
    } else if !p.Eof? && Assemble(a, p, s'.pos).Continue? {
      LogicalFollows(crc, f, g, s', ReadPhysical(crc, g, t).1, Assemble(a, p, s'.pos).next);
    }
  }

  lemma {:induction false} AllFollows(crc: Checksum, f: Slice, g: Slice, s: ReadState, t: ReadState)
    requires Follows(f, g, s, t)
    ensures ReadAll(crc, f, s).0 <= ReadAll(crc, g, t).0
    decreases |f| - s.pos
  {
    hide ReadLogical;
    LogicalFollows(crc, f, g, s, t, FRESH);
    var r := ReadLogical(crc, f, s, FRESH);
    if r.0.Record? {
      AllFollows(crc, f, g, r.1, ReadLogical(crc, g, t, FRESH).1);
    }
  }

  /** Whatever is in a file, and whatever is appended to it: the records read from
      it are the first that are read from the longer file.  So what a crash cuts
      off takes nothing away from what was read back before it was written. */
  lemma {:induction false} ReadingIsMonotone(crc: Checksum, f: Slice, g: Slice)
    requires f <= g
    ensures ReadAll(crc, f, START).0 <= ReadAll(crc, g, START).0
  {
    FollowsStart(f, g);
    ReadAllFromStart(crc, f);
    ReadAllFromStart(crc, g);
    AllFollows(crc, f, g, Refill(f, START), Refill(g, START));
  }

  lemma FollowsStart(f: Slice, g: Slice)
    requires f <= g
    ensures Follows(f, g, Refill(f, START), Refill(g, START))
  {
  }

  /** The records added before anything went wrong are read back first, whatever
      comes behind them. */
  lemma {:induction false} DamagedLogKeepsPrefix(crc: Checksum, rs: seq<Slice>, junk: Slice)
    ensures var r := ReadAll(crc, LogBytes(crc, rs, 0) + junk, START);
      |rs| <= |r.0| && forall i :: 0 <= i < |rs| ==> r.0[i].0 == rs[i]
  {
    hide LogBytes, ReadAll;
    var log := LogBytes(crc, rs, 0);
    RoundTrip(crc, rs);
    ReadingIsMonotone(crc, log, log + junk);
    assert forall i :: 0 <= i < |rs| ==> ReadAll(crc, log + junk, START).0[i] == ReadAll(crc, log, START).0[i];
  }

  /** A record whose appending failed, if nothing is added after it, hides
      nothing: the others are read back, and it is too only if all its bytes are there. */
  lemma {:induction false} FailedRecordHidesNothing(crc: Checksum, rs: seq<Slice>, data: Slice, k: nat)
    requires k <= |Emitted(crc, data, OffsetAfterAll(rs, 0), true)|
    ensures var file := LogBytes(crc, rs, 0) + Emitted(crc, data, OffsetAfterAll(rs, 0), true)[..k];
      var r := ReadAll(crc, file, START);
      ExactlyWhole(crc, rs + [data], 0, 0, |file|, r.0) && r.1 == []
  {
    hide ExactlyWhole, Emitted, ReadAll;
    var all := LogBytes(crc, rs + [data], 0);
    var added := Emitted(crc, data, OffsetAfterAll(rs, 0), true);
    LogBytesAppend(crc, rs, [data], 0);
    assert LogBytes(crc, [data], OffsetAfterAll(rs, 0)) == added + [] == added;
    var file := LogBytes(crc, rs, 0) + added[..k];
    assert file == all[..|file|];
    CrashPrefix(crc, rs + [data], |file|);
  }

  // ---------- Whole fragments left behind ----------

  /** The first m fragments of a record, with the trailer before them. */
  function Head(crc: Checksum, data: Slice, off: BlockOffset, begin: bool, m: nat): Slice
    decreases m
  {
    if m == 0 then Trailer(off)
    else
      var n := FragmentLength(data, off);
      Trailer(off) + Physical(crc, FragmentType(begin, n == |data|), data[..n])
          + Head(crc, data[n..], BLOCK_SIZE, false, m - 1)
  }

  /** How many bytes of a record its first m fragments hold. */
  function HeadData(data: Slice, off: BlockOffset, m: nat): (size: nat)
    ensures size <= |data|
    decreases m
  {
    if m == 0 then 0
    else
      var n := FragmentLength(data, off);
      n + HeadData(data[n..], BLOCK_SIZE, m - 1)
  }

  /** A trailer takes the reader to the next block. */
  lemma {:induction false} SkipToHeader(crc: Checksum, file: Slice, st: ReadState, off: BlockOffset, a: Assembly,
      rest: Slice)
      returns (st': ReadState)
    requires Aligned(file, st, off) && file[st.pos..] == Trailer(off) + rest
    ensures Aligned(file, st', HeaderOffset(off)) && file[st'.pos..] == rest
    ensures ReadLogical(crc, file, st, a) == ReadLogical(crc, file, st', a)
  {
    hide ReadLogical;
    if BLOCK_SIZE - off < HEADER_SIZE {
      st' := Refill(file, st);
      assert file[st'.pos..] == file[st.pos..][|Trailer(off)|..] == rest;
      assert ReadPhysical(crc, file, st) == ReadPhysical(crc, file, st');
      ReadLogicalStep(crc, file, st, a);
      ReadLogicalStep(crc, file, st', a);
    } else {
      st' := st;
      assert [] + rest == rest;
    }
  }

  /** The reader collects whole fragments and waits for more. */
  lemma {:induction false} ReadHead(crc: Checksum, file: Slice, st: ReadState, off: BlockOffset, data: Slice,
      begin: bool,
                                    a: Assembly, m: nat, rest: Slice) returns (st': ReadState, a': Assembly)
    requires Aligned(file, st, off) && a.inFragment == !begin && m < |Fragments(data, off, begin)|
    requires file[st.pos..] == Head(crc, data, off, begin, m) + rest
    ensures Aligned(file, st', if m == 0 then HeaderOffset(off) else 0) && file[st'.pos..] == rest
    ensures ReadLogical(crc, file, st, a) == ReadLogical(crc, file, st', a')
    ensures if m == 0 then a' == a
            else a'.inFragment && |a'.scratch| == (if begin then 0 else |a.scratch|) + HeadData(data, off, m)
    decreases m
  {
    hide ReadLogical, ReadPhysical, Aligned, Physical, Trailer;
    AlignedIn(file, st, off);
    if m == 0 {
      st' := SkipToHeader(crc, file, st, off, a, rest);
      a' := a;
    } else {
      var n := FragmentLength(data, off);
      var more := Head(crc, data[n..], BLOCK_SIZE, false, m - 1);
      assert n < |data|;
      assert Fragments(data, off, begin)[1..] == Fragments(data[n..], BLOCK_SIZE, false);
      assert file[st.pos..] == Trailer(off) + Physical(crc, FragmentType(begin, false), data[..n]) + (more + rest);
      ReadLogicalFragment(crc, file, st, off, a, begin, false, data[..n], more + rest);
      var c := Collected(a, begin, data[..n], st.pos + |Trailer(off)|);
      var next := ReadPhysical(crc, file, st).1;
      assert HeaderOffset(off) + HEADER_SIZE + n == BLOCK_SIZE;
      st', a' := ReadHead(crc, file, next, BLOCK_SIZE, data[n..], false, c, m - 1, rest);
    }
  }

  /** One fragment, wherever in the reader's block it lies. */
  lemma {:induction false} ReadShiftedFragment(crc: Checksum, file: Slice, st: ReadState, q: BlockOffset, a: Assembly,
                                               begin: bool, end: bool, payload: Slice, rest: Slice)
    requires Aligned(file, st, q) && q + HEADER_SIZE + |payload| <= BLOCK_SIZE && (!begin ==> a.inFragment)
    requires file[st.pos..] == Physical(crc, FragmentType(begin, end), payload) + rest
    ensures var st' := ReadPhysical(crc, file, st).1;
      && Aligned(file, st', q + HEADER_SIZE + |payload|) && file[st'.pos..] == rest
      && st'.pos == st.pos + HEADER_SIZE + |payload|
      && var c, dropped := Collected(a, begin, payload, st.pos), if begin then PartialDrop(a) else [];
         var r := ReadLogical(crc, file, st', c);
         ReadLogical(crc, file, st, a) == if end then
             (Record(c.scratch, c.offset), st', dropped) else (r.0, r.1, dropped + r.2)
  {
    hide ReadPhysical, ReadLogical, Aligned, Physical;
    AlignedIn(file, st, q);
    ReadFragmentHere(crc, file, st, q, FragmentType(begin, end), payload, rest);
    ReadLogicalStep(crc, file, st, a);
    var st' := ReadPhysical(crc, file, st).1;
    assert file[st'.pos..] == file[st.pos..][HEADER_SIZE + |payload|..];
  }

  /** A record is read from any place in the reader's block if it ends in that
      block, whatever block offset the writer had; what had been collected of a
      record before it is dropped. */
  lemma {:induction false} ReadShiftedRecord(crc: Checksum, file: Slice, st: ReadState, q: BlockOffset, data: Slice,
      o: BlockOffset,
                                             begin: bool, a: Assembly, rest: Slice)
    requires Aligned(file, st, q) && (!begin ==> a.inFragment) && Trailer(o) == []
    requires q + |Emitted(crc, data, o, begin)| <= BLOCK_SIZE && file[st.pos..] == Emitted(crc, data, o, begin) + rest
    ensures var r := ReadLogical(crc, file, st, a);
      && r.0 == (if begin then Record(data, st.pos) else Record(a.scratch + data, a.offset))
      && r.2 == (if begin && a.inFragment && a.scratch != [] then [|a.scratch|] else [])
      && Aligned(file, r.1, q + |Emitted(crc, data, o, begin)|) && file[r.1.pos..] == rest
    decreases |data|, Room(o) == 0
  {
    hide ReadPhysical, ReadLogical, Aligned, Physical, Trailer, HeaderOffset, Room, Emitted, OffsetAfter,
        FragmentLength;
    AlignedIn(file, st, q);
    EmittedStep(crc, data, o, begin);
    var n := FragmentLength(data, o);
    var end := n == |data|;
    var fragment := Physical(crc, FragmentType(begin, end), data[..n]);
    var more := if end then [] else Emitted(crc, data[n..], BLOCK_SIZE, false);
    assert Emitted(crc, data, o, begin) == [] + fragment + more == fragment + more;
    assert file[st.pos..] == fragment + (more + rest);
    ReadShiftedFragment(crc, file, st, q, a, begin, end, data[..n], more + rest);
    if end {
      assert data[..n] == data && [] + rest == rest;
    } else {
      BlockStart();
      var c := Collected(a, begin, data[..n], st.pos);
      ReadShiftedRecord(crc, file, ReadPhysical(crc, file, st).1, q + |fragment|, data[n..], BLOCK_SIZE, false, c,
          rest);
      assert c.scratch + data[n..] == if begin then data else a.scratch + data;
    }
  }

  /** No record of these starts behind a block trailer. */
  predicate NoTrailers(rs: seq<Slice>, o: BlockOffset) {
    rs != [] ==> Trailer(o) == [] && NoTrailers(rs[1..], OffsetAfter(rs[0], o))
  }

  lemma {:induction false} ReadShiftedLog(crc: Checksum, file: Slice, st: ReadState, q: BlockOffset, rs: seq<Slice>,
      o: BlockOffset, rest: Slice)
    requires Aligned(file, st, q) && NoTrailers(rs, o) && q + |LogBytes(crc, rs, o)| <= BLOCK_SIZE
    requires file[st.pos..] == LogBytes(crc, rs, o) + rest
    ensures ReadsFirst(ReadAll(crc, file, st).0, rs)
    decreases |rs|
  {
    hide Emitted, OffsetAfter, ReadLogical, Aligned, Trailer;
    AlignedIn(file, st, q);
    if rs != [] {
      var more := LogBytes(crc, rs[1..], OffsetAfter(rs[0], o));
      assert LogBytes(crc, rs, o) + rest == Emitted(crc, rs[0], o, true) + (more + rest);
      ReadShiftedRecord(crc, file, st, q, rs[0], o, true, FRESH, more + rest);
      ReadShiftedLog(crc, file, ReadLogical(crc, file, st, FRESH).1, q + |Emitted(crc, rs[0], o, true)|, rs[1..],
          OffsetAfter(rs[0], o), rest);
    }
  }

  /** The first records that were read are these. */
  predicate ReadsFirst(got: seq<(Slice, nat)>, rs: seq<Slice>) {
    |rs| <= |got| && forall i :: 0 <= i < |rs| ==> got[i].0 == rs[i]
  }

  /** An append that failed behind whole fragments, or before the first one: the
      records added next are read back as far as they end in the block the reader
      is in, wherever the writer takes its block to end, and whatever follows. */
  lemma {:induction false} WholeFragmentsHideNothing(crc: Checksum, rs: seq<Slice>, data: Slice, m: nat,
      later: seq<Slice>,
                                                     o: BlockOffset, rest: Slice)
    requires var off := OffsetAfterAll(rs, 0);
      && m < |Fragments(data, off, true)| && NoTrailers(later, o)
      && (if m == 0 then HeaderOffset(off) else 0) + |LogBytes(crc, later, o)| <= BLOCK_SIZE
    ensures var left := Head(crc, data, OffsetAfterAll(rs, 0), true, m);
      ReadsFirst(ReadAll(crc, LogBytes(crc, rs, 0) + (left + (LogBytes(crc, later, o) + rest)), START).0, rs + later)
  {
    hide LogBytes, Head, ReadAll, Aligned, ReadLogical, Fragments, NoTrailers, OffsetAfterAll, HeaderOffset;
    var off := OffsetAfterAll(rs, 0);
    var left := Head(crc, data, off, true, m);
    var tail := LogBytes(crc, later, o) + rest;
    var file := LogBytes(crc, rs, 0) + (left + tail);
    ReadAllFromStart(crc, file);
    assert file[0..] == file;
    var mid, got := ReadsThenGoesOn(crc, file, Refill(file, START), 0, rs, left + tail);
    var st', a := ReadHead(crc, file, mid, off, data, true, FRESH, m, tail);
    AlignedIn(file, mid, off);
    ReadLater(crc, file, mid, st', if m == 0 then HeaderOffset(off) else 0, later, o, a, rest);
  }

  lemma {:induction false} ReadLater(crc: Checksum, file: Slice, mid: ReadState, st: ReadState, q: BlockOffset,
      later: seq<Slice>,
                                     o: BlockOffset, a: Assembly, rest: Slice)
    requires mid.In(file) && Aligned(file, st, q) && NoTrailers(later, o) && q + |LogBytes(crc, later, o)| <= BLOCK_SIZE
    requires file[st.pos..] == LogBytes(crc, later, o) + rest
    requires ReadLogical(crc, file, mid, FRESH) == ReadLogical(crc, file, st, a)
    ensures ReadsFirst(ReadAll(crc, file, mid).0, later)
  {
    hide Emitted, OffsetAfter, ReadLogical, Aligned, Trailer;
    AlignedIn(file, st, q);
    if later != [] {
      var more := LogBytes(crc, later[1..], OffsetAfter(later[0], o));
      assert LogBytes(crc, later, o) + rest == Emitted(crc, later[0], o, true) + (more + rest);
      ReadShiftedRecord(crc, file, st, q, later[0], o, true, a, more + rest);
      ReadShiftedLog(crc, file, ReadLogical(crc, file, st, a).1, q + |Emitted(crc, later[0], o, true)|, later[1..],
          OffsetAfter(later[0], o), rest);
    }
  }

  // ---------- A log reopened behind a torn record ----------

  lemma {:induction false} LogBytesMoves(crc: Checksum, rs: seq<Slice>, off: BlockOffset)
    ensures (off + |LogBytes(crc, rs, off)| - OffsetAfterAll(rs, off)) % BLOCK_SIZE == 0
    decreases |rs|
  {
    hide Emitted, OffsetAfter;
    if rs != [] {
      EmittedMoves(crc, rs[0], off, true);
      LogBytesMoves(crc, rs[1..], OffsetAfter(rs[0], off));
    }
  }

  lemma {:induction false} HeadMoves(crc: Checksum, data: Slice, off: BlockOffset, begin: bool, m: nat)
    requires m < |Fragments(data, off, begin)|
    ensures (off + |Head(crc, data, off, begin, m)| - if m == 0 then HeaderOffset(off) else 0) % BLOCK_SIZE == 0
    decreases m
  {
    hide Physical;
    if m > 0 {
      var n := FragmentLength(data, off);
      assert Fragments(data, off, begin)[1..] == Fragments(data[n..], BLOCK_SIZE, false);
      HeadMoves(crc, data[n..], BLOCK_SIZE, false, m - 1);
    }
  }

  /** A new record makes the reader drop what it had collected of another. */
  lemma {:induction false} CollectedIsDropped(crc: Checksum, file: Slice, st: ReadState, off: BlockOffset, a: Assembly,
                                              data: Slice, rest: Slice)
    requires Aligned(file, st, off) && file[st.pos..] == Emitted(crc, data, off, true) + rest
    ensures var r, r' := ReadLogical(crc, file, st, a), ReadLogical(crc, file, st, FRESH); r.0 == r'.0 && r.1 == r'.1
  {
    hide ReadPhysical, ReadLogical, Aligned, Physical, Trailer, HeaderOffset, Room, Emitted, OffsetAfter,
        FragmentLength;
    AlignedIn(file, st, off);
    EmittedStep(crc, data, off, true);
    var n := FragmentLength(data, off);
    var more := if n == |data| then [] else Emitted(crc, data[n..], BLOCK_SIZE, false);
    var fragment := Physical(crc, FragmentType(true, n == |data|), data[..n]);
    assert file[st.pos..] == Trailer(off) + fragment + (more + rest);
    ReadFragment(crc, file, st, off, FragmentType(true, n == |data|), data[..n], more + rest);
    ReadLogicalStep(crc, file, st, a);
    ReadLogicalStep(crc, file, st, FRESH);
  }

  /** A log that a crash cut between two fragments, or before the first fragment
      of a record, and that is reopened and written on: the records before the torn
      one and all records added behind it are read back, and no other. */
  lemma {:induction false} ReopenedBehindWholeFragments(crc: Checksum, rs: seq<Slice>, data: Slice, m: nat,
      later: seq<Slice>)
    requires m < |Fragments(data, OffsetAfterAll(rs, 0), true)|
    ensures var cut := LogBytes(crc, rs, 0) + Head(crc, data, OffsetAfterAll(rs, 0), true, m);
      var r := ReadAll(crc, cut + LogBytes(crc, later, |cut| % BLOCK_SIZE), START);
      |r.0| == |rs + later| && ReadsFirst(r.0, rs + later)
  {
    hide LogBytes, Head, ReadAll, Aligned, ReadLogical, Fragments, OffsetAfterAll, HeaderOffset;
    var off := OffsetAfterAll(rs, 0);
    var left := Head(crc, data, off, true, m);
    var q := if m == 0 then HeaderOffset(off) else 0;
    LogBytesMoves(crc, rs, 0);
    HeadMoves(crc, data, off, true, m);
    SumMoves(|LogBytes(crc, rs, 0)|, off, |left|, q);
    var tail := LogBytes(crc, later, q);
    var file := LogBytes(crc, rs, 0) + (left + tail);
    assert LogBytes(crc, rs, 0) + left + tail == file;
    ReadAllFromStart(crc, file);
    assert file[0..] == file;
    var mid, got := ReadsThenGoesOn(crc, file, Refill(file, START), 0, rs, left + tail);
    var st', a := ReadHead(crc, file, mid, off, data, true, FRESH, m, tail);
    AlignedIn(file, mid, off);
    ReadBehind(crc, file, mid, st', q, later, a);
  }

  lemma SumMoves(x: nat, off: BlockOffset, y: nat, q: nat)
    requires (x - off) % BLOCK_SIZE == 0 && (off + y - q) % BLOCK_SIZE == 0 && q < BLOCK_SIZE
    ensures (x + y) % BLOCK_SIZE == q
  {
    var i, j := (x - off) / BLOCK_SIZE, (off + y - q) / BLOCK_SIZE;
    assert x + y == (i + j) * BLOCK_SIZE + q;
  }

  lemma {:induction false} ReadBehind(crc: Checksum, file: Slice, mid: ReadState, st: ReadState, q: BlockOffset,
      later: seq<Slice>, a: Assembly)
    requires mid.In(file) && Aligned(file, st, q) && file[st.pos..] == LogBytes(crc, later, q)
    requires ReadLogical(crc, file, mid, FRESH) == ReadLogical(crc, file, st, a)
    ensures |ReadAll(crc, file, mid).0| == |later| && ReadsFirst(ReadAll(crc, file, mid).0, later)
  {
    hide Emitted, OffsetAfter, ReadLogical, Aligned, Trailer;
    AlignedIn(file, st, q);
    var empty: Slice := [];
    assert LogBytes(crc, later, q) + empty == LogBytes(crc, later, q);
    if later == [] {
      NothingLeft(crc, file, st, q, a);
    } else {
      CollectedIsDropped(crc, file, st, q, a, later[0], LogBytes(crc, later[1..], OffsetAfter(later[0], q)));
      var end, got := ReadsThenGoesOn(crc, file, st, q, later, empty);
      AlignedIn(file, end, OffsetAfterAll(later, q));
      NothingLeft(crc, file, end, OffsetAfterAll(later, q), FRESH);
    }
  }

  lemma {:induction false} NothingLeft(crc: Checksum, file: Slice, st: ReadState, off: BlockOffset, a: Assembly)
    requires Aligned(file, st, off) && file[st.pos..] == []
    ensures ReadLogical(crc, file, st, a).0 == End
  {
    hide Physical;
    assert |Trailer(off) + Physical(crc, FULL_TYPE, [])| > 0;
    assert file[st.pos..] == (Trailer(off) + Physical(crc, FULL_TYPE, []))[..0];
    ReadCutFragment(crc, file, st, off, FULL_TYPE, [], 0);
    ReadLogicalStep(crc, file, st, a);
  }

  // ---------- A header left behind ----------

  /** A header without its payload swallows whatever is written behind it, up to
      the length it announces: the reader takes it for the torn end of the file. */
  lemma {:induction false} LostBehindHeader(crc: Checksum, rs: seq<Slice>, t: Byte, payload: Slice, later: Slice)
    requires var off := OffsetAfterAll(rs, 0); off + HEADER_SIZE + |payload| <= BLOCK_SIZE
    requires |later| < |payload|
    ensures var r := ReadAll(crc, LogBytes(crc, rs, 0) + (Physical(crc, t, payload)[..HEADER_SIZE] + later), START);
      |r.0| == |rs| && (forall i :: 0 <= i < |rs| ==> r.0[i].0 == rs[i]) && r.1 == []
  {
    hide LogBytes, Physical, OffsetAfterAll;
    var header := Physical(crc, t, payload)[..HEADER_SIZE];
    var file := LogBytes(crc, rs, 0) + (header + later);
    ReadAllFromStart(crc, file);
    assert file[0..] == file;
    var mid, got := ReadsThenGoesOn(crc, file, Refill(file, START), 0, rs, header + later);
    HeaderAnnounces(crc, file, mid, OffsetAfterAll(rs, 0), t, payload, later);
    ReadLogicalStep(crc, file, mid, FRESH);
  }

  lemma {:induction false} HeaderAnnounces(crc: Checksum, file: Slice, st: ReadState, off: BlockOffset, t: Byte,
      payload: Slice, later: Slice)
    requires Aligned(file, st, off) && off + HEADER_SIZE + |payload| <= BLOCK_SIZE && |later| < |payload|
    requires file[st.pos..] == Physical(crc, t, payload)[..HEADER_SIZE] + later
    ensures ReadPhysical(crc, file, st).0 == Eof
  {
    var b := file[st.pos..st.end];
    assert st.eof && b == file[st.pos..];
    HeaderParts(crc, t, payload);
    assert b[4..6] == Physical(crc, t, payload)[4..6];
  }

  // ---------- Two runs of the writer ----------

  lemma {:induction false} OneFragment(crc: Checksum, data: Slice, off: BlockOffset)
    requires off + HEADER_SIZE + |data| <= BLOCK_SIZE
    ensures Trailer(off) == [] && HeaderOffset(off) == off && |data| <= Room(off) && TrailerCalls(off) == 0
    ensures Emitted(crc, data, off, true) == Physical(crc, FULL_TYPE, data)
    ensures forall outcome: Outcome :: Appended(outcome, []) == []
  {
    hide Physical;
    assert data[..|data|] == data;
    assert [] + Physical(crc, FULL_TYPE, data) + [] == Physical(crc, FULL_TYPE, data);
  }

  const PAYLOAD_FAILS: Outcomes := i => if i == 1 then Cut(0) else Done

  /** The payload of a record cannot be appended; the next record is added with
      success.  Reading the file finds neither, and no corruption. */
  method LosesNextRecord(crc: Checksum, a: Slice, b: Slice) returns (w: Writer, first: bool, second: bool)
    requires HEADER_SIZE + |b| < |a| && HEADER_SIZE + |a| + HEADER_SIZE + |b| <= BLOCK_SIZE
    ensures !first && second && fresh(w)
    ensures w.dest == Physical(crc, FULL_TYPE, a)[..HEADER_SIZE] + Physical(crc, FULL_TYPE, b)
    ensures ReadAll(crc, w.dest, START) == ([], [])
  {
    hide Physical, ReadAll, Emitted, Trailer, HeaderOffset, Room, Appended, IsCut, OffsetAfter, TrailerCalls;
    w := new Writer(crc, PAYLOAD_FAILS, []);
    OneFragment(crc, a, 0);
    first := w.AddRecord(a);
    var header := Physical(crc, FULL_TYPE, a)[..HEADER_SIZE];
    assert FragmentLeft(PAYLOAD_FAILS, 0, Physical(crc, FULL_TYPE, a)) == header by { CutAtNothing(); }
    OneFragment(crc, b, w.blockOffset);
    second := w.AddRecord(b);
    LostBehindHeader(crc, [], FULL_TYPE, a, Physical(crc, FULL_TYPE, b));
    assert LogBytes(crc, [], 0) + (header + Physical(crc, FULL_TYPE, b)) == header + Physical(crc, FULL_TYPE, b);
  }

  lemma CutAtNothing()
    ensures forall bytes :: Appended(Cut(0), bytes) == []
  {
  }

  const HEADER_FAILS: Outcomes := i => if i == 0 then Cut(0) else Done

  /** Nothing of a record can be appended; the next one, which lies nearer to the
      start of the block than the writer takes it to, is read back. */
  method KeepsNextRecord(crc: Checksum, a: Slice, b: Slice) returns (w: Writer, first: bool, second: bool)
    requires HEADER_SIZE + |a| + HEADER_SIZE + |b| <= BLOCK_SIZE
    ensures !first && second && fresh(w)
    ensures w.dest == Physical(crc, FULL_TYPE, b)
    ensures var r := ReadAll(crc, w.dest, START); |r.0| == 1 && r.0[0].0 == b && r.1 == []
  {
    hide Physical, ReadAll, Emitted, Trailer, HeaderOffset, Room, Appended, IsCut, OffsetAfter, TrailerCalls;
    w := new Writer(crc, HEADER_FAILS, []);
    OneFragment(crc, a, 0);
    first := w.AddRecord(a);
    assert FragmentLeft(HEADER_FAILS, 0, Physical(crc, FULL_TYPE, a)) == [] by { CutAtNothing(); }
    OneFragment(crc, b, w.blockOffset);
    second := w.AddRecord(b);
    OneFragment(crc, b, 0);
    RoundTrip(crc, [b]);
    assert LogBytes(crc, [b], 0) == Physical(crc, FULL_TYPE, b);
  }
}
