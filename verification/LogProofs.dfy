/** Reading back a log, whole or cut off at any byte. */
module LogProofs {
  import opened DbFormat
  import opened Log

  /** The bytes of a log to which the records rs were added at block offset off. */
  function LogBytes(crc: Checksum, rs: seq<Slice>, off: BlockOffset): Slice {
    if rs == [] then []
    else Emitted(crc, rs[0], off, true) + LogBytes(crc, rs[1..], OffsetAfter(rs[0], off))
  }

  /** The reader has read the file up to the end of the block in which the
      writer was at offset off when it had written pos bytes. */
  ghost predicate Aligned(file: Slice, st: ReadState, off: BlockOffset) {
    var top := st.pos - off + BLOCK_SIZE;
    && st.In(file)
    && st.end == (if top <= |file| then top else |file|)
    && (st.eof <==> top > |file|)
  }

  // ---------- One fragment ----------

  lemma ParsePhysical(crc: Checksum, b: Slice, eof: bool, t: Byte, payload: Slice)
    requires (t != ZERO_TYPE || payload != []) && |payload| < 0x1_0000
    requires |b| >= HEADER_SIZE + |payload| && b[..HEADER_SIZE + |payload|] == Physical(crc, t, payload)
    ensures Parse(crc, b, eof) == Piece(t, payload)
  {
    var p := Physical(crc, t, payload);
    HeaderParts(crc, t, payload);
    assert b[..4] == p[..4] && b[4..6] == p[4..6] && b[6] == p[6];
    assert b[6..HEADER_SIZE + |payload|] == p[6..] && b[HEADER_SIZE..HEADER_SIZE + |payload|] == p[7..];
  }

  lemma HeaderParts(crc: Checksum, t: Byte, payload: Slice)
    requires |payload| < 0x1_0000
    ensures var p := Physical(crc, t, payload);
      && DecodeFixed(p[..4]) == crc([t] + payload) && DecodeFixed(p[4..6]) == |payload|
      && p[6] == t && p[6..] == [t] + payload && p[7..] == payload
  {
    var p := Physical(crc, t, payload);
    Pow256Of8();
    DecodeAfterEncodeFixed(crc([t] + payload), 4);
    assert p[..4] == EncodeFixed(crc([t] + payload), 4);
    assert p[4..6] == [|payload| % 0x100, |payload| / 0x100];
    assert p[4..6][1..] == [|payload| / 0x100] && p[4..6][1..][1..] == [];
  }

  /** A fragment wholly in the file is read back. */
  lemma {:induction false} ReadFragment(crc: Checksum, file: Slice, st: ReadState, off: BlockOffset, t: Byte,
      payload: Slice, rest: Slice)
    requires Aligned(file, st, off) && (t != ZERO_TYPE || payload != []) && |payload| <= Room(off)
    requires file[st.pos..] == Trailer(off) + Physical(crc, t, payload) + rest
    ensures var (p, st') := ReadPhysical(crc, file, st);
      && p == Piece(t, payload)
      && st'.pos == st.pos + |Trailer(off)| + HEADER_SIZE + |payload|
      && Aligned(file, st', HeaderOffset(off) + HEADER_SIZE + |payload|)
  {
    if BLOCK_SIZE - off < HEADER_SIZE {
      var st1 := Refill(file, st);
      assert file[st1.pos..] == file[st.pos..][|Trailer(off)|..] == Physical(crc, t, payload) + rest;
      assert ReadPhysical(crc, file, st) == ReadPhysical(crc, file, st1);
      ReadFragmentHere(crc, file, st1, 0, t, payload, rest);
    } else {
      assert Trailer(off) + Physical(crc, t, payload) + rest == Physical(crc, t, payload) + rest;
      ReadFragmentHere(crc, file, st, off, t, payload, rest);
    }
  }

  lemma {:induction false} ReadFragmentHere(crc: Checksum, file: Slice, st: ReadState, off: BlockOffset, t: Byte,
      payload: Slice, rest: Slice)
    requires Aligned(file, st, off) && (t != ZERO_TYPE || payload != []) && |payload| < 0x1_0000
        && off + HEADER_SIZE + |payload| <= BLOCK_SIZE
    requires file[st.pos..] == Physical(crc, t, payload) + rest
    ensures var (p, st') := ReadPhysical(crc, file, st);
      && p == Piece(t, payload) && st'.pos == st.pos + HEADER_SIZE + |payload|
      && Aligned(file, st', off + HEADER_SIZE + |payload|)
  {
    var b := file[st.pos..st.end];
    var n := HEADER_SIZE + |payload|;
    assert |file[st.pos..]| >= n && |b| >= n;
    assert b[..n] == file[st.pos..][..n] == Physical(crc, t, payload);
    ParsePhysical(crc, b, st.eof, t, payload);
  }

  /** A fragment cut off anywhere reads as the end of the file. */
  lemma {:induction false} ReadCutFragment(crc: Checksum, file: Slice, st: ReadState, off: BlockOffset, t: Byte,
      payload: Slice, k: nat)
    requires Aligned(file, st, off) && |payload| <= Room(off)
    requires k < |Trailer(off) + Physical(crc, t, payload)|
    requires file[st.pos..] == (Trailer(off) + Physical(crc, t, payload))[..k]
    ensures ReadPhysical(crc, file, st).0 == Eof
  {
    var whole := Trailer(off) + Physical(crc, t, payload);
    if BLOCK_SIZE - off < HEADER_SIZE {
      if k >= |Trailer(off)| {
        var st1 := Refill(file, st);
        assert ReadPhysical(crc, file, st) == ReadPhysical(crc, file, st1);
        var k1 := k - |Trailer(off)|;
        assert file[st1.pos..] == file[st.pos..][|Trailer(off)|..] == Physical(crc, t, payload)[..k1];
        ReadCutFragmentHere(crc, file, st1, 0, t, payload, k1);
      }
    } else {
      assert whole == Physical(crc, t, payload);
      ReadCutFragmentHere(crc, file, st, off, t, payload, k);
    }
  }

  lemma {:induction false} ReadCutFragmentHere(crc: Checksum, file: Slice, st: ReadState, off: BlockOffset, t: Byte,
      payload: Slice, k: nat)
    requires Aligned(file, st, off) && |payload| < 0x1_0000 && off + HEADER_SIZE + |payload| <= BLOCK_SIZE
    requires k < HEADER_SIZE + |payload| && file[st.pos..] == Physical(crc, t, payload)[..k]
    ensures ReadPhysical(crc, file, st).0 == Eof
  {
    var b := file[st.pos..st.end];
    assert st.eof && b == file[st.pos..];
    if k >= HEADER_SIZE {
      HeaderParts(crc, t, payload);
      assert b[4..6] == Physical(crc, t, payload)[4..6];
    }
  }

  // ---------- One record ----------

  lemma {:induction false} ReadLogicalStep(crc: Checksum, file: Slice, st: ReadState, a: Assembly)
    requires st.In(file)
    ensures var (p, st') := ReadPhysical(crc, file, st);
      match Assemble(a, p, st'.pos)
      case Finish(result, reports) => ReadLogical(crc, file, st, a) == (result, st', reports)
      case Continue(next, reports) =>
        var r := ReadLogical(crc, file, st', next);
        ReadLogical(crc, file, st, a) == (r.0, r.1, reports + r.2)
  {
  }

  /** What ReadRecord has put together after a first or middle fragment. */
  function Collected(a: Assembly, begin: bool, payload: Slice, offset: nat): Assembly {
    Assembly(true, if begin then payload else a.scratch + payload, if begin then offset else a.offset)
  }

  /** One fragment of a record, read whole, moves the reassembly on or ends it. */
  lemma {:induction false} ReadLogicalFragment(crc: Checksum, file: Slice, st: ReadState, off: BlockOffset,
      a: Assembly, begin: bool, end: bool, payload: Slice, rest: Slice)
    requires Aligned(file, st, off) && a.inFragment == !begin && |payload| <= Room(off)
    requires file[st.pos..] == Trailer(off) + Physical(crc, FragmentType(begin, end), payload) + rest
    ensures var st' := ReadPhysical(crc, file, st).1;
      && st'.pos == st.pos + |Trailer(off)| + HEADER_SIZE + |payload|
      && Aligned(file, st', HeaderOffset(off) + HEADER_SIZE + |payload|)
      && file[st'.pos..] == rest
      && var c := Collected(a, begin, payload, st.pos + |Trailer(off)|);
         if end then ReadLogical(crc, file, st, a) == (Record(c.scratch, c.offset), st', [])
         else ReadLogical(crc, file, st, a) == ReadLogical(crc, file, st', c)
  {
    hide ReadPhysical, ReadLogical, Aligned, Physical, Trailer, HeaderOffset, Room;
    AlignedIn(file, st, off);
    ReadFragment(crc, file, st, off, FragmentType(begin, end), payload, rest);
    ReadLogicalStep(crc, file, st, a);
    var st' := ReadPhysical(crc, file, st).1;
    assert file[st'.pos..] == file[st.pos..][|Trailer(off)| + HEADER_SIZE + |payload|..];
    var r := ReadLogical(crc, file, st', Collected(a, begin, payload, st.pos + |Trailer(off)|));
    assert [] + r.2 == r.2;
  }

  lemma AlignedIn(file: Slice, st: ReadState, off: BlockOffset)
    requires Aligned(file, st, off)
    ensures st.In(file)
  {
  }

  lemma {:induction false} ReadWholeRecord(crc: Checksum, file: Slice, st: ReadState, off: BlockOffset, data: Slice,
      begin: bool, a: Assembly, rest: Slice)
    requires Aligned(file, st, off) && a.inFragment == !begin
    requires file[st.pos..] == Emitted(crc, data, off, begin) + rest
    ensures var r := ReadLogical(crc, file, st, a);
      && r.0 == (if begin then Record(data, st.pos + |Trailer(off)|) else Record(a.scratch + data, a.offset))
      && r.2 == []
      && r.1.pos == st.pos + |Emitted(crc, data, off, begin)|
      && Aligned(file, r.1, OffsetAfter(data, off))
    decreases |data|, Room(off) == 0
  {
    hide ReadPhysical, ReadLogical, Aligned, Physical, Trailer, HeaderOffset, Room, Emitted, OffsetAfter,
        FragmentLength;
    AlignedIn(file, st, off);
    EmittedStep(crc, data, off, begin);
    var n := FragmentLength(data, off);
    var end := n == |data|;
    var more := if end then [] else Emitted(crc, data[n..], BLOCK_SIZE, false);
    assert file[st.pos..] == Trailer(off) + Physical(crc, FragmentType(begin, end), data[..n]) + (more + rest);
    ReadLogicalFragment(crc, file, st, off, a, begin, end, data[..n], more + rest);
    if end {
      assert data[..n] == data;
    } else {
      var c := Collected(a, begin, data[..n], st.pos + |Trailer(off)|);
      ReadWholeRecord(crc, file, ReadPhysical(crc, file, st).1, BLOCK_SIZE, data[n..], false, c, rest);
      assert c.scratch + data[n..] == if begin then data else a.scratch + data;
    }
  }

  lemma {:induction false} ReadCutRecord(crc: Checksum, file: Slice, st: ReadState, off: BlockOffset, data: Slice,
      begin: bool, a: Assembly, k: nat)
    requires Aligned(file, st, off) && a.inFragment == !begin
    requires k < |Emitted(crc, data, off, begin)| && file[st.pos..] == Emitted(crc, data, off, begin)[..k]
    ensures var r := ReadLogical(crc, file, st, a); r.0 == End && r.2 == []
    decreases |data|, Room(off) == 0
  {
    hide ReadPhysical, ReadLogical, Aligned, Physical, Trailer, HeaderOffset, Room, Emitted, OffsetAfter,
        FragmentLength;
    AlignedIn(file, st, off);
    EmittedStep(crc, data, off, begin);
    var n := FragmentLength(data, off);
    var end := n == |data|;
    var first := Trailer(off) + Physical(crc, FragmentType(begin, end), data[..n]);
    var more := if end then [] else Emitted(crc, data[n..], BLOCK_SIZE, false);
    if k < |first| {
      assert file[st.pos..] == first[..k];
      ReadCutFragment(crc, file, st, off, FragmentType(begin, end), data[..n], k);
      ReadLogicalStep(crc, file, st, a);
    } else {
      assert file[st.pos..] == first + more[..k - |first|];
      ReadLogicalFragment(crc, file, st, off, a, begin, end, data[..n], more[..k - |first|]);
      var c := Collected(a, begin, data[..n], st.pos + |Trailer(off)|);
      ReadCutRecord(crc, file, ReadPhysical(crc, file, st).1, BLOCK_SIZE, data[n..], false, c, k - |first|);
    }
  }

  // ---------- The whole log ----------

  /** The records that lie wholly in the first k bytes, each with the position of
      its first header; pos is the file position of those k bytes. */
  function Whole(crc: Checksum, rs: seq<Slice>, off: BlockOffset, pos: nat, k: nat): (w: seq<(Slice, nat)>)
    ensures |w| <= |rs|
  {
    if rs == [] || |Emitted(crc, rs[0], off, true)| > k then []
    else
      var size := |Emitted(crc, rs[0], off, true)|;
      [(rs[0], pos + |Trailer(off)|)] + Whole(crc, rs[1..], OffsetAfter(rs[0], off), pos + size, k - size)
  }

  lemma {:induction false} ReadCutLog(crc: Checksum, file: Slice, st: ReadState, off: BlockOffset, rs: seq<Slice>,
      k: nat)
    requires Aligned(file, st, off)
    requires k <= |LogBytes(crc, rs, off)| && file[st.pos..] == LogBytes(crc, rs, off)[..k]
    ensures ReadAll(crc, file, st) == (Whole(crc, rs, off, st.pos, k), [])
    decreases |rs|
  {
    hide Emitted, OffsetAfter, Trailer, ReadLogical, ReadPhysical;
    AlignedIn(file, st, off);
    if rs == [] {
      EmittedStep(crc, [], off, true);
      ReadCutRecord(crc, file, st, off, [], true, FRESH, 0);
    } else {
      var first := Emitted(crc, rs[0], off, true);
      var more := LogBytes(crc, rs[1..], OffsetAfter(rs[0], off));
      if |first| > k {
        assert file[st.pos..] == first[..k];
        ReadCutRecord(crc, file, st, off, rs[0], true, FRESH, k);
      } else {
        assert file[st.pos..] == first + more[..k - |first|];
        ReadWholeRecord(crc, file, st, off, rs[0], true, FRESH, more[..k - |first|]);
        var st' := ReadLogical(crc, file, st, FRESH).1;
        assert file[st'.pos..] == file[st.pos..][|first|..] == more[..k - |first|];
        ReadCutLog(crc, file, st', OffsetAfter(rs[0], off), rs[1..], k - |first|);
        assert ReadAll(crc, file, st').1 == [];
        assert [] + ReadAll(crc, file, st').1 == [];
      }
    }
  }

  function OffsetAfterAll(rs: seq<Slice>, off: BlockOffset): BlockOffset {
    if rs == [] then off else OffsetAfterAll(rs[1..], OffsetAfter(rs[0], off))
  }

  lemma {:induction false} LogBytesAppend(crc: Checksum, rs: seq<Slice>, more: seq<Slice>, off: BlockOffset)
    ensures LogBytes(crc, rs + more, off) == LogBytes(crc, rs, off) + LogBytes(crc, more, OffsetAfterAll(rs, off))
    decreases |rs|
  {
    if rs == [] {
      assert rs + more == more;
    } else {
      assert (rs + more)[1..] == rs[1..] + more;
      LogBytesAppend(crc, rs[1..], more, OffsetAfter(rs[0], off));
    }
  }

  /** The first n records, each at its first header, end at or before byte k, and
      record n + 1, if there is one, ends after it. */
  ghost predicate ExactlyWhole(crc: Checksum, rs: seq<Slice>, off: BlockOffset, pos: nat, k: nat,
      got: seq<(Slice, nat)>) {
    var n := |got|;
    && n <= |rs|
    && (forall i :: 0 <= i < n ==>
          && got[i].0 == rs[i]
          && got[i].1 == pos + |LogBytes(crc, rs[..i], off)| + |Trailer(OffsetAfterAll(rs[..i], off))|)
    && |LogBytes(crc, rs[..n], off)| <= k
    && (n < |rs| ==> k < |LogBytes(crc, rs[..n + 1], off)|)
  }

  lemma {:induction false} PrefixStep(crc: Checksum, rs: seq<Slice>, off: BlockOffset, i: nat)
    requires 1 <= i <= |rs|
    ensures var off' := OffsetAfter(rs[0], off);
      && |LogBytes(crc, rs[..i], off)| == |Emitted(crc, rs[0], off, true)| + |LogBytes(crc, rs[1..][..i - 1], off')|
      && OffsetAfterAll(rs[..i], off) == OffsetAfterAll(rs[1..][..i - 1], off')
  {
    hide Emitted, OffsetAfter;
    assert rs[..i][1..] == rs[1..][..i - 1];
  }

  lemma {:induction false} ExactlyWholeCons(crc: Checksum, rs: seq<Slice>, off: BlockOffset, pos: nat, k: nat,
      w: seq<(Slice, nat)>)
    requires rs != [] && |Emitted(crc, rs[0], off, true)| <= k
    requires var size := |Emitted(crc, rs[0], off, true)|;
      ExactlyWhole(crc, rs[1..], OffsetAfter(rs[0], off), pos + size, k - size, w)
    ensures ExactlyWhole(crc, rs, off, pos, k, [(rs[0], pos + |Trailer(off)|)] + w)
  {
    hide Emitted, OffsetAfter, Trailer;
    var w' := [(rs[0], pos + |Trailer(off)|)] + w;
    forall i | 0 <= i < |w'|
      ensures w'[i].0 == rs[i] && w'[i].1 == pos + |LogBytes(crc, rs[..i], off)|
          + |Trailer(OffsetAfterAll(rs[..i], off))|
    {
      if i > 0 {
        PrefixStep(crc, rs, off, i);
        assert w'[i] == w[i - 1] && rs[i] == rs[1..][i - 1];
      }
    }
    PrefixStep(crc, rs, off, |w'|);
    if |w'| < |rs| {
      PrefixStep(crc, rs, off, |w'| + 1);
    }
  }

  lemma {:induction false} WholeIsExact(crc: Checksum, rs: seq<Slice>, off: BlockOffset, pos: nat, k: nat)
    ensures ExactlyWhole(crc, rs, off, pos, k, Whole(crc, rs, off, pos, k))
    decreases |rs|
  {
    hide Emitted, OffsetAfter, Trailer;
    if rs != [] {
      var size, off' := |Emitted(crc, rs[0], off, true)|, OffsetAfter(rs[0], off);
      if size <= k {
        WholeIsExact(crc, rs[1..], off', pos + size, k - size);
        ExactlyWholeCons(crc, rs, off, pos, k, Whole(crc, rs[1..], off', pos + size, k - size));
      } else {
        PrefixStep(crc, rs, off, 1);
      }
    }
  }

  lemma {:induction false} BlockEndIsBlockStart(crc: Checksum, rs: seq<Slice>)
    ensures LogBytes(crc, rs, BLOCK_SIZE) == LogBytes(crc, rs, 0)
    ensures |Trailer(OffsetAfterAll(rs, BLOCK_SIZE))| == |Trailer(OffsetAfterAll(rs, 0))|
  {
    if rs != [] {
      assert Emitted(crc, rs[0], BLOCK_SIZE, true) == Emitted(crc, rs[0], 0, true);
      assert OffsetAfter(rs[0], BLOCK_SIZE) == OffsetAfter(rs[0], 0);
    }
  }

  /** A log of any records, cut off at any byte: reading from the start returns
      exactly the records wholly inside the prefix, in order, each with the
      position of its first header, and reports no corruption. */
  lemma {:induction false} CrashPrefix(crc: Checksum, rs: seq<Slice>, cut: nat)
    requires cut <= |LogBytes(crc, rs, 0)|
    ensures var r := ReadAll(crc, LogBytes(crc, rs, 0)[..cut], START);
      ExactlyWhole(crc, rs, 0, 0, cut, r.0) && r.1 == []
  {
    hide Emitted, OffsetAfter, Trailer, ReadLogical, LogBytes, Whole, OffsetAfterAll;
    var file := LogBytes(crc, rs, 0)[..cut];
    BlockEndIsBlockStart(crc, rs);
    assert file[0..] == file;
    ReadCutLog(crc, file, START, BLOCK_SIZE, rs, cut);
    WholeIsExact(crc, rs, BLOCK_SIZE, 0, cut);
    var got := Whole(crc, rs, BLOCK_SIZE, 0, cut);
    forall i | 0 <= i <= |rs|
      ensures LogBytes(crc, rs[..i], BLOCK_SIZE) == LogBytes(crc, rs[..i], 0)
      ensures |Trailer(OffsetAfterAll(rs[..i], BLOCK_SIZE))| == |Trailer(OffsetAfterAll(rs[..i], 0))|
    {
      BlockEndIsBlockStart(crc, rs[..i]);
    }
  }

  /** An uncut log is read back completely. */
  lemma {:induction false} RoundTrip(crc: Checksum, rs: seq<Slice>)
    ensures var r := ReadAll(crc, LogBytes(crc, rs, 0), START);
      && |r.0| == |rs| && r.1 == []
      && forall i :: 0 <= i < |rs| ==> r.0[i].0 == rs[i]
  {
    var log := LogBytes(crc, rs, 0);
    assert log[..|log|] == log;
    CrashPrefix(crc, rs, |log|);
    var n := |ReadAll(crc, log, START).0|;
    PrefixNotLonger(crc, rs, if n < |rs| then n + 1 else n);
  }

  lemma {:induction false} PrefixNotLonger(crc: Checksum, rs: seq<Slice>, m: nat)
    requires m <= |rs|
    ensures |LogBytes(crc, rs[..m], 0)| <= |LogBytes(crc, rs, 0)|
  {
    LogBytesAppend(crc, rs[..m], rs[m..], 0);
    assert rs == rs[..m] + rs[m..];
  }

  /** Whatever follows the records of a log, the reader returns the records and
      then goes on from there. */
  lemma {:induction false} ReadsThenGoesOn(crc: Checksum, file: Slice, st: ReadState, off: BlockOffset,
      rs: seq<Slice>, tail: Slice)
    returns (mid: ReadState, got: seq<(Slice, nat)>)
    requires Aligned(file, st, off) && file[st.pos..] == LogBytes(crc, rs, off) + tail
    ensures Aligned(file, mid, OffsetAfterAll(rs, off)) && file[mid.pos..] == tail
    ensures |got| == |rs| && forall i :: 0 <= i < |rs| ==> got[i].0 == rs[i]
    ensures ReadAll(crc, file, st) == (got + ReadAll(crc, file, mid).0, ReadAll(crc, file, mid).1)
    decreases |rs|
  {
    hide Emitted, OffsetAfter, ReadLogical, Aligned;
    AlignedIn(file, st, off);
    if rs == [] {
      mid, got := st, [];
      assert LogBytes(crc, rs, off) + tail == tail;
      assert got + ReadAll(crc, file, st).0 == ReadAll(crc, file, st).0;
    } else {
      var size, more := |Emitted(crc, rs[0], off, true)|, LogBytes(crc, rs[1..], OffsetAfter(rs[0], off)) + tail;
      assert LogBytes(crc, rs, off) + tail == Emitted(crc, rs[0], off, true) + more;
      ReadWholeRecord(crc, file, st, off, rs[0], true, FRESH, more);
      var r := ReadLogical(crc, file, st, FRESH);
      assert file[r.1.pos..] == file[st.pos..][size..] == more;
      var later;
      mid, later := ReadsThenGoesOn(crc, file, r.1, OffsetAfter(rs[0], off), rs[1..], tail);
      AlignedIn(file, mid, OffsetAfterAll(rs, off));
      got := [(r.0.data, r.0.offset)] + later;
      assert [] + ReadAll(crc, file, r.1).1 == ReadAll(crc, file, r.1).1;
      assert got + ReadAll(crc, file, mid).0 == [(r.0.data, r.0.offset)] + (later + ReadAll(crc, file, mid).0);
    }
  }

  lemma {:induction false} ReadAllFromStart(crc: Checksum, file: Slice)
    ensures ReadAll(crc, file, START) == ReadAll(crc, file, Refill(file, START))
    ensures Aligned(file, Refill(file, START), 0) && Refill(file, START).pos == 0
  {
    hide Parse, Assemble, ReadLogical;
    assert ReadPhysical(crc, file, START) == ReadPhysical(crc, file, Refill(file, START));
    ReadLogicalStep(crc, file, START, FRESH);
    ReadLogicalStep(crc, file, Refill(file, START), FRESH);
  }

  // ---------- Fragments that no writer makes ----------

  predicate IsWritten(t: Byte) { t == FULL_TYPE || t == FIRST_TYPE || t == MIDDLE_TYPE || t == LAST_TYPE }

  /** An empty fragment of type zero, as in preallocated space, ends the block
      without a report. */
  lemma {:induction false} ReadZeroFragment(crc: Checksum, file: Slice, st: ReadState, off: BlockOffset, rest: Slice)
    requires Aligned(file, st, off) && file[st.pos..] == Trailer(off) + Physical(crc, ZERO_TYPE, []) + rest
    ensures ReadPhysical(crc, file, st).0 == Bad(None)
  {
    hide Parse;
    if BLOCK_SIZE - off < HEADER_SIZE {
      var st1 := Refill(file, st);
      assert file[st1.pos..] == file[st.pos..][|Trailer(off)|..] == Physical(crc, ZERO_TYPE, []) + rest;
      assert ReadPhysical(crc, file, st) == ReadPhysical(crc, file, st1);
      ReadZeroFragmentHere(crc, file, st1, 0, rest);
    } else {
      assert Trailer(off) + Physical(crc, ZERO_TYPE, []) + rest == Physical(crc, ZERO_TYPE, []) + rest;
      ReadZeroFragmentHere(crc, file, st, off, rest);
    }
  }

  lemma {:induction false} ReadZeroFragmentHere(crc: Checksum, file: Slice, st: ReadState, off: BlockOffset,
      rest: Slice)
    requires Aligned(file, st, off) && off + HEADER_SIZE <= BLOCK_SIZE
    requires file[st.pos..] == Physical(crc, ZERO_TYPE, []) + rest
    ensures ReadPhysical(crc, file, st).0 == Bad(None)
  {
    var p := Physical(crc, ZERO_TYPE, []);
    var b := file[st.pos..st.end];
    assert |file[st.pos..]| >= HEADER_SIZE && |b| >= HEADER_SIZE;
    assert b[..HEADER_SIZE] == file[st.pos..][..HEADER_SIZE] == p;
    HeaderParts(crc, ZERO_TYPE, []);
    assert b[4..6] == b[..HEADER_SIZE][4..6] == p[4..6];
    assert b[6] == b[..HEADER_SIZE][6] == p[6];
  }

  /** A whole, well-checksummed fragment of a type that no writer makes is reported
      if and only if its type is neither 5 nor 6 and it is not an empty fragment of
      type zero.  Type 5 ends the reading.  The others drop what had been collected
      of a record, and that is reported. */
  lemma {:induction false} UnwrittenTypeReportedIff(crc: Checksum, file: Slice, st: ReadState, off: BlockOffset,
      t: Byte, payload: Slice, rest: Slice, a: Assembly)
    requires Aligned(file, st, off) && |payload| <= Room(off) && !IsWritten(t)
    requires file[st.pos..] == Trailer(off) + Physical(crc, t, payload) + rest
    ensures var (p, st') := ReadPhysical(crc, file, st);
      match Assemble(a, p, st'.pos)
      case Finish(result, reports) => t == 5 && result == End && reports == []
      case Continue(next, reports) =>
        && t != 5 && !next.inFragment
        && reports == if t == 6 || (t == 0 && payload == []) then (if a.inFragment then [|a.scratch|] else [])
                      else [|payload| + if a.inFragment then |a.scratch| else 0]
  {
    hide Physical, ReadPhysical, Aligned, Trailer;
    if t == ZERO_TYPE && payload == [] {
      ReadZeroFragment(crc, file, st, off, rest);
    } else {
      ReadFragment(crc, file, st, off, t, payload, rest);
    }
  }

  /** A file that begins with a whole fragment of type 5 is read as empty,
      without a report, whatever records follow. */
  lemma {:induction false} EofTypeExample(crc: Checksum, payload: Slice, rest: Slice)
    requires HEADER_SIZE + |payload| <= BLOCK_SIZE
    ensures ReadAll(crc, Physical(crc, EOF_RESULT, payload) + rest, START) == ([], [])
  {
    hide Physical, ReadPhysical, Aligned;
    var file := Physical(crc, EOF_RESULT, payload) + rest;
    ReadAllFromStart(crc, file);
    var st := Refill(file, START);
    assert file[st.pos..] == Trailer(0) + Physical(crc, EOF_RESULT, payload) + rest;
    UnwrittenTypeReportedIff(crc, file, st, 0, EOF_RESULT, payload, rest, FRESH);
    ReadLogicalStep(crc, file, st, FRESH);
  }

  // ---------- Reopening ----------

  /** The block offset a writer keeps and the one it computes when the file is
      reopened may differ only as the end of a block and the start of the next,
      and then the same bytes follow. */
  lemma {:induction false} ReopenedWriterContinues(crc: Checksum, w: Writer, rs: seq<Slice>)
    requires w.Valid()
    ensures LogBytes(crc, rs, |w.dest| % BLOCK_SIZE) == LogBytes(crc, rs, w.blockOffset)
  {
    BlockEndIsBlockStart(crc, rs);
    SameOffset(|w.dest|, w.blockOffset);
  }

  lemma SameOffset(n: nat, off: BlockOffset)
    requires (n - off) % BLOCK_SIZE == 0
    ensures n % BLOCK_SIZE == off || (off == BLOCK_SIZE && n % BLOCK_SIZE == 0)
  {
  }

  lemma {:induction false} LogBytesStep(crc: Checksum, rs: seq<Slice>, i: nat, dest: Slice, off: BlockOffset)
    requires i < |rs|
    ensures dest + LogBytes(crc, rs[i..], off) ==
            dest + Emitted(crc, rs[i], off, true) + LogBytes(crc, rs[i + 1..], OffsetAfter(rs[i], off))
  {
    assert rs[i..][1..] == rs[i + 1..];
  }

  lemma {:induction false} LogBytesDone(crc: Checksum, rs: seq<Slice>, dest: Slice, off: BlockOffset)
    ensures dest + LogBytes(crc, rs[|rs|..], off) == dest
  {
  }

  const NEVER_FAILS: Outcomes := i => Done

  lemma {:induction false} NothingFails(crc: Checksum, data: Slice, off: BlockOffset, from: nat, to: nat, before: Slice)
    ensures AllDone(NEVER_FAILS, from + TrailerCalls(off), to)
    ensures Appended(NEVER_FAILS(from), Trailer(off)) == Trailer(off)
    ensures before + Trailer(off) + Emitted(crc, data, HeaderOffset(off), true)
        == before + Emitted(crc, data, off, true)
  {
    hide Emitted, Trailer, HeaderOffset;
    SkipTrailer(crc, data, off, true);
  }

  /** Adds records one by one, closing and reopening the file before each record
      for which reopen says so.  The file is the same log either way. */
  method WriteLog(crc: Checksum, rs: seq<Slice>, reopen: nat -> bool) returns (w: Writer)
    ensures fresh(w) && w.dest == LogBytes(crc, rs, 0)
  {
    hide Emitted, OffsetAfter, LogBytes, Writer.Valid, Trailer, HeaderOffset, Room, Physical, FragmentLeft, Appended,
        AllDone, IsCut, TrailerCalls;
    w := new Writer(crc, NEVER_FAILS, []);
    var i := 0;
    ghost var target := LogBytes(crc, rs, 0);
    assert rs[0..] == rs;
    while i < |rs|
      invariant 0 <= i <= |rs| && fresh(w) && w.Valid() && w.crc == crc && w.outcomes == NEVER_FAILS
      invariant w.dest + LogBytes(crc, rs[i..], w.blockOffset) == target
    {
      if reopen(i) {
        ReopenedWriterContinues(crc, w, rs[i..]);
        w := new Writer(crc, NEVER_FAILS, w.dest);
      }
      LogBytesStep(crc, rs, i, w.dest, w.blockOffset);
      ghost var off, from, before := w.blockOffset, w.calls, w.dest;
      var ok := w.AddRecord(rs[i]);
      NothingFails(crc, rs[i], off, from, w.calls, before);
      i := i + 1;
    }
    LogBytesDone(crc, rs, w.dest, w.blockOffset);
  }

  lemma {:induction false} ReadAllStep(crc: Checksum, file: Slice, st: ReadState, got: seq<(Slice, nat)>,
      reports: seq<nat>)
    requires st.In(file)
    ensures var (l, st', more) := ReadLogical(crc, file, st, FRESH);
      var all := ReadAll(crc, file, st);
      match l
      case End => got + all.0 == got && reports + all.1 == reports + more
      case Record(data, offset) =>
        var rest := ReadAll(crc, file, st');
        got + all.0 == got + [(data, offset)] + rest.0 && reports + all.1 == reports + more + rest.1
  {
    hide ReadLogical;
    var (l, st', more) := ReadLogical(crc, file, st, FRESH);
    if l.Record? {
      var rest := ReadAll(crc, file, st');
      assert ReadAll(crc, file, st) == ([(l.data, l.offset)] + rest.0, more + rest.1);
      Regroup(got, [(l.data, l.offset)], rest.0);
      Regroup(reports, more, rest.1);
    }
  }

  lemma Regroup<T>(a: seq<T>, b: seq<T>, c: seq<T>)
    ensures a + (b + c) == a + b + c
  {
  }

  /** Reads until ReadRecord returns false. */
  method ReadLog(r: Reader) returns (got: seq<(Slice, nat)>)
    requires r.Valid()
    modifies r
    ensures r.Valid() && got == ReadAll(r.crc, r.file, old(r.State())).0
    ensures r.reports == old(r.reports) + ReadAll(r.crc, r.file, old(r.State())).1
  {
    hide ReadLogical, ReadAll;
    got := [];
    ghost var target, reported := ReadAll(r.crc, r.file, r.State()), r.reports;
    while true
      invariant r.Valid()
      invariant got + ReadAll(r.crc, r.file, r.State()).0 == target.0
      invariant r.reports + ReadAll(r.crc, r.file, r.State()).1 == reported + target.1
      decreases |r.file| - r.State().pos
    {
      ghost var st, before := r.State(), r.reports;
      var ok, record := r.ReadRecord();
      ReadAllStep(r.crc, r.file, st, got, before);
      if !ok { break; }
      got := got + [(record, r.lastRecordOffset)];
    }
  }
}
