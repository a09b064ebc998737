/** Nothing is read from a log without its checksum, and what a damaged fragment
    takes with it. */
module LogChecksum {
  import opened DbFormat
  import opened Log
  import opened LogProofs
  import opened LogDamage

  // ---------- Every fragment is checked ----------

  /** A fragment and where its header is. */
  datatype Found = Found(at: nat, t: Byte, payload: Slice) {
    function End(): nat { at + 7 + |payload| }
  }

  /** The length in a header, low byte first. */
  function Announced(low: Byte, high: Byte): nat {
    var l: nat, h: nat := low, high;
    l + 0x100 * h
  }

  /** The file has the fragment there: four bytes of checksum over the type byte and
      the payload, two of length, the type byte, the payload. */
  ghost predicate Checked(crc: Checksum, file: Slice, f: Found) {
    && f.End() <= |file|
    && DecodeFixed(file[f.at..f.at + 4]) == crc([f.t] + f.payload)
    && Announced(file[f.at + 4], file[f.at + 5]) == |f.payload|
    && file[f.at + 6] == f.t
    && file[f.at + 7..f.End()] == f.payload
  }

  lemma TwoBytes(b: Slice)
    requires |b| >= HEADER_SIZE
    ensures HeaderLength(b) == Announced(b[4], b[5])
  {
    assert b[4..6] == [b[4], b[5]];
    assert b[4..6][1..] == [b[5]] && b[4..6][1..][1..] == [];
    var high: nat := b[5];
    assert DecodeFixed([b[5]]) == high + 0x100 * DecodeFixed([]) == high;
  }

  lemma SliceOfSlice(s: Slice, from: nat, to: nat, i: nat, j: nat)
    requires i <= j && from + j <= to <= |s|
    ensures s[from..to][i..j] == s[from + i..from + j]
  {
    var x, y := s[from..to][i..j], s[from + i..from + j];
    assert |x| == |y|;
    forall k | 0 <= k < |x|
      ensures x[k] == y[k]
    {
      assert x[k] == s[from..to][i + k] == s[from + (i + k)];
    }
  }

  lemma PieceIsChecked(crc: Checksum, file: Slice, at: nat, end: nat, eof: bool)
    requires at + HEADER_SIZE <= end <= |file|
    ensures var p := Parse(crc, file[at..end], eof); p.Piece? ==> Checked(crc, file, Found(at, p.t, p.payload))
  {
    var b := file[at..end];
    TwoBytes(b);
    var n := HEADER_SIZE + HeaderLength(b);
    if Parse(crc, b, eof).Piece? {
      assert b[6..n] == [b[6]] + b[7..n];
      SliceOfSlice(file, at, end, 0, 4);
      SliceOfSlice(file, at, end, 7, n);
    }
  }

  /** For any file, whatever fragment the reader hands over has its checksum. */
  lemma {:induction false} FragmentIsChecked(crc: Checksum, file: Slice, st: ReadState)
    requires st.In(file)
    ensures var (p, st') := ReadPhysical(crc, file, st);
      p.Piece? ==>
        var at := st'.pos - HEADER_SIZE - |p.payload|;
        at >= st.pos && Checked(crc, file, Found(at, p.t, p.payload))
    decreases |file| - st.end, !st.eof
  {
    hide Parse, Checked;
    if st.end - st.pos < HEADER_SIZE {
      if !st.eof {
        FragmentIsChecked(crc, file, Refill(file, st));
      }
    } else {
      PhysicalHere(crc, file, st);
      PieceIsChecked(crc, file, st.pos, st.end, st.eof);
    }
  }

  // ---------- Every record is checked ----------

  function Together(fs: seq<Found>): Slice {
    if fs == [] then [] else Together(fs[..|fs| - 1]) + fs[|fs| - 1].payload
  }

  ghost predicate AllChecked(crc: Checksum, file: Slice, fs: seq<Found>) {
    && (forall i :: 0 <= i < |fs| ==> Checked(crc, file, fs[i]))
    && (forall i, j :: 0 <= i < j < |fs| ==> fs[i].End() <= fs[j].at)
  }

  /** The first fragments of a record: one of type 2, and then some of type 3. */
  ghost predicate Collecting(crc: Checksum, file: Slice, fs: seq<Found>, a: Assembly, pos: nat) {
    && fs != [] && AllChecked(crc, file, fs) && fs[|fs| - 1].End() <= pos
    && a.scratch == Together(fs) && a.offset == fs[0].at
    && fs[0].t == 2 && forall i :: 1 <= i < |fs| ==> fs[i].t == 3
  }

  /** All its fragments: one of type 1, or one of type 2, some of type 3, and one
      of type 4. */
  ghost predicate IsRecord(crc: Checksum, file: Slice, fs: seq<Found>, data: Slice, offset: nat) {
    && fs != [] && AllChecked(crc, file, fs)
    && data == Together(fs) && offset == fs[0].at
    && (if |fs| == 1 then fs[0].t == 1
        else fs[0].t == 2 && fs[|fs| - 1].t == 4 && forall i :: 1 <= i < |fs| - 1 ==> fs[i].t == 3)
  }

  lemma {:induction false} OneChecked(crc: Checksum, file: Slice, f: Found)
    requires Checked(crc, file, f)
    ensures AllChecked(crc, file, [f]) && Together([f]) == f.payload
  {
    assert [f][..0] == [] && Together([]) == [];
    assert [] + f.payload == f.payload;
  }

  lemma {:induction false} OneMoreChecked(crc: Checksum, file: Slice, fs: seq<Found>, f: Found)
    requires fs != [] && AllChecked(crc, file, fs) && Checked(crc, file, f) && fs[|fs| - 1].End() <= f.at
    ensures AllChecked(crc, file, fs + [f]) && Together(fs + [f]) == Together(fs) + f.payload
  {
    assert (fs + [f])[..|fs|] == fs;
    var last := fs[|fs| - 1];
    forall i | 0 <= i < |fs|
      ensures fs[i].End() <= f.at
    {
      if i < |fs| - 1 {
        assert fs[i].End() <= last.at;
      }
    }
  }

  lemma {:induction false} RecordIsChecked(crc: Checksum, file: Slice, st: ReadState, a: Assembly, fs: seq<Found>)
      returns (all: seq<Found>)
    requires st.In(file) && (a.inFragment ==> Collecting(crc, file, fs, a, st.pos))
    ensures var r := ReadLogical(crc, file, st, a); r.0.Record? ==> IsRecord(crc, file, all, r.0.data, r.0.offset)
    decreases |file| - st.pos
  {
    hide ReadPhysical, ReadLogical, Checked, AllChecked, Together;
    FragmentIsChecked(crc, file, st);
    ReadLogicalStep(crc, file, st, a);
    var (p, st') := ReadPhysical(crc, file, st);
    all := [];
    var more := fs;
    if p.Piece? {
      var f := Found(st'.pos - HEADER_SIZE - |p.payload|, p.t, p.payload);
      OneChecked(crc, file, f);
      if p.t == FULL_TYPE || p.t == FIRST_TYPE {
        more := [f];
      } else if a.inFragment {
        OneMoreChecked(crc, file, fs, f);
        more := fs + [f];
      }
    }
    var step := Assemble(a, p, st'.pos);
    if step.Continue? {
      all := RecordIsChecked(crc, file, st', step.next, more);
    } else {
      all := more;
    }
  }

  /** For any file: every record that is read is put together from fragments that
      lie in the file in this order and have their checksums. */
  lemma {:induction false} AllRecordsAreChecked(crc: Checksum, file: Slice, st: ReadState, i: nat)
      returns (fs: seq<Found>)
    requires st.In(file) && i < |ReadAll(crc, file, st).0|
    ensures var (data, offset) := ReadAll(crc, file, st).0[i]; IsRecord(crc, file, fs, data, offset)
    decreases |file| - st.pos
  {
    hide ReadLogical;
    var r := ReadLogical(crc, file, st, FRESH);
    if i == 0 {
      fs := RecordIsChecked(crc, file, st, FRESH, []);
    } else {
      fs := AllRecordsAreChecked(crc, file, r.1, i - 1);
    }
  }

  // ---------- A bad fragment takes the rest of its block ----------

  /** The bytes begin with a header whose checksum does not fit, or that announces
      more than there is. */
  ghost predicate BadStart(crc: Checksum, b: Slice) {
    && |b| >= 7
    && var n := 7 + Announced(b[4], b[5]);
       n > |b| || (!(b[6] == 0 && n == 7) && crc(b[6..n]) != DecodeFixed(b[..4]))
  }

  lemma BadStartParses(crc: Checksum, b: Slice)
    requires BadStart(crc, b)
    ensures Parse(crc, b, false) == Bad(Some(|b|))
    ensures 7 + Announced(b[4], b[5]) <= |b| ==> Parse(crc, b, true) == Bad(Some(|b|))
  {
    TwoBytes(b);
  }

  /** In the middle of the file the rest of the block is dropped and reported. */
  lemma {:induction false} BadIsDropped(crc: Checksum, file: Slice, st: ReadState, q: BlockOffset, b: Slice,
      rest: Slice)
    requires Aligned(file, st, q) && file[st.pos..] == b + rest && q + |b| == BLOCK_SIZE && BadStart(crc, b)
    ensures var (p, st') := ReadPhysical(crc, file, st);
      p == Bad(Some(|b|)) && Aligned(file, st', BLOCK_SIZE) && file[st'.pos..] == rest
  {
    hide Parse;
    assert file[st.pos..st.end] == b;
    PhysicalHere(crc, file, st);
    BadStartParses(crc, b);
    var st' := ReadPhysical(crc, file, st).1;
    assert file[st'.pos..] == file[st.pos..][|b|..];
  }

  /** In the last block, if the checksum is what is wrong, so is the rest of the file. */
  lemma {:induction false} BadAtEndIsDropped(crc: Checksum, file: Slice, st: ReadState, q: BlockOffset, b: Slice)
    requires Aligned(file, st, q) && file[st.pos..] == b && q + |b| < BLOCK_SIZE
    requires BadStart(crc, b) && 7 + Announced(b[4], b[5]) <= |b|
    ensures var (p, st') := ReadPhysical(crc, file, st);
      p == Bad(Some(|b|)) && ReadPhysical(crc, file, st').0 == Eof
  {
    hide Parse;
    assert file[st.pos..st.end] == b;
    PhysicalHere(crc, file, st);
    BadStartParses(crc, b);
    AtEnd(crc, file, st.(pos := st.end));
  }

  /** The sizes of the fragments that are left of a record. */
  function OrphanSizes(d: Slice): seq<nat> {
    var n := FragmentLength(d, BLOCK_SIZE);
    [n] + if n == |d| then [] else OrphanSizes(d[n..])
  }

  /** The end of a record whose beginning is lost is skipped, fragment by fragment. */
  lemma {:induction false} SkipOrphan(crc: Checksum, file: Slice, st: ReadState, d: Slice, rest: Slice)
      returns (st': ReadState)
    requires Aligned(file, st, BLOCK_SIZE) && file[st.pos..] == Emitted(crc, d, BLOCK_SIZE, false) + rest
    ensures Aligned(file, st', OffsetAfter(d, BLOCK_SIZE)) && file[st'.pos..] == rest
    ensures var r, r' := ReadLogical(crc, file, st, FRESH), ReadLogical(crc, file, st', FRESH);
      r.0 == r'.0 && r.1 == r'.1 && r.2 == OrphanSizes(d) + r'.2
    decreases |d|
  {
    hide ReadPhysical, ReadLogical, Aligned, Physical, Trailer, HeaderOffset, Room, Emitted, OffsetAfter,
        FragmentLength;
    AlignedIn(file, st, BLOCK_SIZE);
    EmittedStep(crc, d, BLOCK_SIZE, false);
    BlockStart();
    var n := FragmentLength(d, BLOCK_SIZE);
    var t := FragmentType(false, n == |d|);
    var more := if n == |d| then [] else Emitted(crc, d[n..], BLOCK_SIZE, false);
    assert file[st.pos..] == Trailer(BLOCK_SIZE) + Physical(crc, t, d[..n]) + (more + rest);
    ReadFragment(crc, file, st, BLOCK_SIZE, t, d[..n], more + rest);
    ReadLogicalStep(crc, file, st, FRESH);
    var next := ReadPhysical(crc, file, st).1;
    assert file[next.pos..] == file[st.pos..][|Trailer(BLOCK_SIZE)| + HEADER_SIZE + n..] == more + rest;
    if n == |d| {
      st' := next;
      assert [] + rest == rest;
    } else {
      st' := SkipOrphan(crc, file, next, d[n..], rest);
      AlignedIn(file, st', OffsetAfter(d, BLOCK_SIZE));
      var r' := ReadLogical(crc, file, st', FRESH);
      assert [n] + (OrphanSizes(d[n..]) + r'.2) == [n] + OrphanSizes(d[n..]) + r'.2;
    }
  }

  // ---------- Where a block ends in a log ----------

  /** The bytes of a log from the start of a block on, if a record reaches into it. */
  function FromBlock(crc: Checksum, orphan: Slice, rs: seq<Slice>): Slice {
    if orphan == [] then LogBytes(crc, rs, BLOCK_SIZE)
    else Emitted(crc, orphan, BLOCK_SIZE, false) + LogBytes(crc, rs, OffsetAfter(orphan, BLOCK_SIZE))
  }

  /** Where the first header of record i is. */
  function StartOf(crc: Checksum, rs: seq<Slice>, o: BlockOffset, i: nat): nat
    requires i < |rs|
  {
    |LogBytes(crc, rs[..i], o)| + |Trailer(OffsetAfterAll(rs[..i], o))|
  }

  /** From the k-th on the records start at this place or behind it, and no sooner. */
  ghost predicate StartsFrom(crc: Checksum, rs: seq<Slice>, o: BlockOffset, place: int, k: nat) {
    k <= |rs| && forall i :: 0 <= i < |rs| ==> (i >= k <==> StartOf(crc, rs, o, i) >= place)
  }

  lemma {:induction false} StartAfter(crc: Checksum, rs: seq<Slice>, o: BlockOffset, i: nat)
    requires 1 <= i < |rs|
    ensures StartOf(crc, rs, o, i) == |Emitted(crc, rs[0], o, true)|
        + StartOf(crc, rs[1..], OffsetAfter(rs[0], o), i - 1)
  {
    hide Emitted, OffsetAfter, Trailer;
    PrefixStep(crc, rs, o, i);
  }

  lemma {:induction false} FirstStart(crc: Checksum, rs: seq<Slice>, o: BlockOffset)
    requires rs != []
    ensures StartOf(crc, rs, o, 0) == |Trailer(o)| <= |Emitted(crc, rs[0], o, true)|
  {
    hide Physical;
    assert rs[..0] == [];
  }

  /** All records start before the end of the log. */
  lemma {:induction false} StartsInside(crc: Checksum, rs: seq<Slice>, o: BlockOffset, place: nat)
    requires |LogBytes(crc, rs, o)| < place
    ensures StartsFrom(crc, rs, o, place, |rs|)
    decreases |rs|
  {
    hide Emitted, OffsetAfter, Trailer, StartOf;
    if rs != [] {
      var size, o' := |Emitted(crc, rs[0], o, true)|, OffsetAfter(rs[0], o);
      FirstStart(crc, rs, o);
      StartsInside(crc, rs[1..], o', place - size);
      forall i | 0 <= i < |rs|
        ensures StartOf(crc, rs, o, i) < place
      {
        if i > 0 {
          StartAfter(crc, rs, o, i);
        }
      }
    }
  }

  /** If all but the first record start behind it, and the first does not, or does. */
  lemma {:induction false} StartsAtOnce(crc: Checksum, rs: seq<Slice>, o: BlockOffset, place: nat, k: nat)
    requires rs != [] && k <= 1 && (k == 0 <==> |Trailer(o)| >= place) && |Emitted(crc, rs[0], o, true)| >= place
    ensures StartsFrom(crc, rs, o, place, k)
  {
    hide Emitted, OffsetAfter, Trailer, StartOf;
    FirstStart(crc, rs, o);
    forall i | 1 <= i < |rs|
      ensures StartOf(crc, rs, o, i) >= place
    {
      StartAfter(crc, rs, o, i);
    }
  }

  lemma {:induction false} StartsLater(crc: Checksum, rs: seq<Slice>, o: BlockOffset, place: nat, k: nat)
    requires rs != [] && |Emitted(crc, rs[0], o, true)| < place
    requires var size := |Emitted(crc, rs[0], o, true)|; StartsFrom(crc, rs[1..], OffsetAfter(rs[0], o), place - size,
        k)
    ensures StartsFrom(crc, rs, o, place, k + 1)
  {
    hide Emitted, OffsetAfter, Trailer, StartOf;
    FirstStart(crc, rs, o);
    var size, o' := |Emitted(crc, rs[0], o, true)|, OffsetAfter(rs[0], o);
    forall i | 0 <= i < |rs|
      ensures i >= k + 1 <==> StartOf(crc, rs, o, i) >= place
    {
      if i > 0 {
        StartAfter(crc, rs, o, i);
        assert i - 1 >= k <==> StartOf(crc, rs[1..], o', i - 1) >= place - size;
      }
    }
  }

  /** A log that reaches the end of its block: what lies in the block, the rest of
      a record that goes on behind it, and the records that start behind it. */
  lemma {:induction false} SplitAtBlock(crc: Checksum, rs: seq<Slice>, o: BlockOffset)
      returns (x: Slice, orphan: Slice, k: nat)
    requires |LogBytes(crc, rs, o)| >= BLOCK_SIZE - o
    ensures k <= |rs| && |x| == BLOCK_SIZE - o && LogBytes(crc, rs, o) == x + FromBlock(crc, orphan, rs[k..])
    ensures StartsFrom(crc, rs, o, BLOCK_SIZE - o, k)
    decreases |rs|
  {
    hide Emitted, OffsetAfter, Physical, FragmentLength, StartsFrom;
    var room := BLOCK_SIZE - o;
    x, orphan, k := [], [], 0;
    if room == 0 {
      assert rs[0..] == rs && [] + LogBytes(crc, rs, o) == LogBytes(crc, rs, o);
      EverythingStarts(crc, rs, o, 0);
    } else if room < HEADER_SIZE {
      x := Trailer(o);
      TrailerFirst(crc, rs, o);
      assert rs[0..] == rs;
      StartsAtOnce(crc, rs, o, room, 0);
    } else {
      NoTrailerHere(o);
      var n := room - HEADER_SIZE;
      if n < |rs[0]| {
        FillsBlock(crc, rs, o);
        x, orphan, k := Physical(crc, FIRST_TYPE, rs[0][..n]), rs[0][n..], 1;
        StartsAtOnce(crc, rs, o, room, 1);
      } else {
        EndsInBlock(crc, rs, o);
        var record := Emitted(crc, rs[0], o, true);
        if |record| == room {
          x, k := record, 1;
          assert LogBytes(crc, rs[1..], BLOCK_SIZE) == FromBlock(crc, [], rs[1..]);
          StartsAtOnce(crc, rs, o, room, 1);
        } else {
          var x', k';
          x', orphan, k' := SplitAtBlock(crc, rs[1..], o + |record|);
          x, k := record + x', k' + 1;
          assert rs[1..][k'..] == rs[k..];
          Regroup(record, x', FromBlock(crc, orphan, rs[k..]));
          StartsLater(crc, rs, o, room, k');
        }
      }
    }
  }

  /** The first record does not end in the block. */
  lemma {:induction false} FillsBlock(crc: Checksum, rs: seq<Slice>, o: BlockOffset)
    requires rs != [] && o + HEADER_SIZE <= BLOCK_SIZE && |rs[0]| > BLOCK_SIZE - o - HEADER_SIZE
    ensures var n := BLOCK_SIZE - o - HEADER_SIZE;
      && LogBytes(crc, rs, o) == Physical(crc, FIRST_TYPE, rs[0][..n]) + FromBlock(crc, rs[0][n..], rs[1..])
      && |Emitted(crc, rs[0], o, true)| >= BLOCK_SIZE - o
  {
    hide Emitted, OffsetAfter, Physical, FragmentLength;
    var n := BLOCK_SIZE - o - HEADER_SIZE;
    NextPart(crc, rs[0], o, true);
    var fragment, orphan := Physical(crc, FIRST_TYPE, rs[0][..n]), rs[0][n..];
    SkipTrailer(crc, orphan, BLOCK_SIZE, false);
    BlockStart();
    OrphanOffset(crc, rs[0], o, orphan);
    assert [] + Emitted(crc, orphan, 0, false) == Emitted(crc, orphan, 0, false);
    Regroup(fragment, Emitted(crc, orphan, 0, false), LogBytes(crc, rs[1..], OffsetAfter(rs[0], o)));
  }

  /** The first record does. */
  lemma {:induction false} EndsInBlock(crc: Checksum, rs: seq<Slice>, o: BlockOffset)
    requires rs != [] && o + HEADER_SIZE + |rs[0]| <= BLOCK_SIZE
    ensures var record := Emitted(crc, rs[0], o, true);
      && |record| == HEADER_SIZE + |rs[0]| && OffsetAfter(rs[0], o) == o + |record|
      && LogBytes(crc, rs, o) == record + LogBytes(crc, rs[1..], o + |record|)
  {
    hide Emitted, OffsetAfter, Physical, FragmentLength;
    NextPart(crc, rs[0], o, true);
  }

  lemma {:induction false} EverythingStarts(crc: Checksum, rs: seq<Slice>, o: BlockOffset, place: int)
    requires place <= 0
    ensures StartsFrom(crc, rs, o, place, 0)
  {
  }

  lemma {:induction false} TrailerFirst(crc: Checksum, rs: seq<Slice>, o: BlockOffset)
    requires rs != [] && 0 < BLOCK_SIZE - o < HEADER_SIZE
    ensures LogBytes(crc, rs, o) == Trailer(o) + FromBlock(crc, [], rs)
    ensures |Trailer(o)| == BLOCK_SIZE - o <= |Emitted(crc, rs[0], o, true)|
  {
    hide Emitted, OffsetAfter;
    SkipTrailer(crc, rs[0], o, true);
    BlockEndIsBlockStart(crc, rs);
    assert HeaderOffset(o) == 0;
    SkipTrailer(crc, rs[0], o, true);
    var more := LogBytes(crc, rs[1..], OffsetAfter(rs[0], o));
    assert OffsetAfter(rs[0], o) == OffsetAfter(rs[0], 0);
    assert Trailer(o) + Emitted(crc, rs[0], 0, true) + more == Trailer(o) + (Emitted(crc, rs[0], 0, true) + more);
  }

  lemma NoTrailerHere(o: BlockOffset)
    requires o + HEADER_SIZE <= BLOCK_SIZE
    ensures Trailer(o) == []
  {
  }

  lemma {:induction false} OrphanOffset(crc: Checksum, data: Slice, o: BlockOffset, orphan: Slice)
    requires BLOCK_SIZE - o >= HEADER_SIZE && |data| > BLOCK_SIZE - o - HEADER_SIZE
        && orphan == data[BLOCK_SIZE - o - HEADER_SIZE..]
    ensures OffsetAfter(data, o) == OffsetAfter(orphan, BLOCK_SIZE) && orphan != []
  {
  }

  // ---------- What a damaged fragment takes with it ----------

  /** Between records the position of the last one makes no difference. */
  lemma {:induction false} OffsetIrrelevant(crc: Checksum, file: Slice, st: ReadState, offset: nat)
    requires st.In(file)
    ensures ReadLogical(crc, file, st, Assembly(false, [], offset)) == ReadLogical(crc, file, st, FRESH)
    decreases |file| - st.pos
  {
    hide ReadPhysical, ReadLogical;
    var a := Assembly(false, [], offset);
    ReadLogicalStep(crc, file, st, a);
    ReadLogicalStep(crc, file, st, FRESH);
    var (p, st') := ReadPhysical(crc, file, st);
    if Assemble(a, p, st'.pos).Continue? && !Assemble(a, p, st'.pos).next.inFragment {
      OffsetIrrelevant(crc, file, st', offset);
    }
  }

  /** A reader that gets from one place to another with these reports and nothing
      else reads from there on. */
  lemma {:induction false} SkipsTo(crc: Checksum, file: Slice, s: ReadState, t: ReadState, extra: seq<nat>)
    requires s.In(file) && t.In(file)
    requires var r, r' := ReadLogical(crc, file, s, FRESH), ReadLogical(crc, file, t, FRESH);
      r.0 == r'.0 && r.1 == r'.1 && r.2 == extra + r'.2
    ensures ReadAll(crc, file, s) == (ReadAll(crc, file, t).0, extra + ReadAll(crc, file, t).1)
  {
    hide ReadLogical;
    var r' := ReadLogical(crc, file, t, FRESH);
    if r'.0.Record? {
      var rest := ReadAll(crc, file, r'.1);
      assert extra + (r'.2 + rest.1) == extra + r'.2 + rest.1;
    }
  }

  /** The rest of a log is read completely. */
  lemma {:induction false} ReadsToEnd(crc: Checksum, file: Slice, st: ReadState, o: BlockOffset, rs: seq<Slice>)
    requires Aligned(file, st, o) && file[st.pos..] == LogBytes(crc, rs, o)
    ensures var r := ReadAll(crc, file, st); |r.0| == |rs| && ReadsFirst(r.0, rs) && r.1 == []
  {
    hide Aligned, LogBytes, ReadAll;
    AlignedIn(file, st, o);
    var empty: Slice := [];
    assert LogBytes(crc, rs, o) + empty == LogBytes(crc, rs, o);
    var end, got := ReadsThenGoesOn(crc, file, st, o, rs, empty);
    AlignedIn(file, end, OffsetAfterAll(rs, o));
    EmptyLogReads(crc, file, end, OffsetAfterAll(rs, o));
    assert got + [] == got;
  }

  lemma {:induction false} EmptyLogReads(crc: Checksum, file: Slice, st: ReadState, o: BlockOffset)
    requires Aligned(file, st, o) && file[st.pos..] == []
    ensures ReadAll(crc, file, st) == ([], [])
  {
    hide Aligned, ReadLogical;
    AlignedIn(file, st, o);
    assert LogBytes(crc, [], o)[..0] == [];
    ReadCutLog(crc, file, st, o, [], 0);
  }

  /** Behind the start of a block the end of a torn record is skipped and the rest
      is read. */
  lemma {:induction false} ReadsFromBlock(crc: Checksum, file: Slice, st: ReadState, orphan: Slice, after: seq<Slice>)
    requires Aligned(file, st, BLOCK_SIZE) && file[st.pos..] == FromBlock(crc, orphan, after)
    ensures var r := ReadAll(crc, file, st);
      && |r.0| == |after| && ReadsFirst(r.0, after)
      && r.1 == if orphan == [] then [] else OrphanSizes(orphan)
  {
    hide Aligned, LogBytes, ReadAll, ReadLogical, Emitted, OffsetAfter;
    AlignedIn(file, st, BLOCK_SIZE);
    if orphan == [] {
      ReadsToEnd(crc, file, st, BLOCK_SIZE, after);
    } else {
      var o := OffsetAfter(orphan, BLOCK_SIZE);
      var st' := SkipOrphan(crc, file, st, orphan, LogBytes(crc, after, o));
      AlignedIn(file, st', o);
      SkipsTo(crc, file, st, st', OrphanSizes(orphan));
      ReadsToEnd(crc, file, st', o, after);
      assert OrphanSizes(orphan) + [] == OrphanSizes(orphan);
    }
  }

  /** What had been collected of a record is dropped with the rest of the block. */
  function Dropped(size: nat, data: Slice, off: BlockOffset, m: nat): seq<nat> {
    [size] + if m == 0 then [] else [HeadData(data, off, m)]
  }

  /** The reader at bad bytes, with the first m fragments of a record collected. */
  lemma {:induction false} BadStep(crc: Checksum, file: Slice, mid: ReadState, st: ReadState, a: Assembly,
      next: ReadState, size: nat,
                                   data: Slice, off: BlockOffset, m: nat)
    requires mid.In(file) && st.In(file) && next.In(file) && ReadPhysical(crc, file, st) == (Bad(Some(size)), next)
    requires ReadLogical(crc, file, mid, FRESH) == ReadLogical(crc, file, st, a)
    requires if m == 0 then a == FRESH else a.inFragment && |a.scratch| == HeadData(data, off, m)
    ensures ReadAll(crc, file, mid)
         == (ReadAll(crc, file, next).0, Dropped(size, data, off, m) + ReadAll(crc, file, next).1)
  {
    hide ReadPhysical, ReadLogical, ReadAll;
    ReadLogicalStep(crc, file, st, a);
    OffsetIrrelevant(crc, file, next, a.offset);
    assert [] + ReadLogical(crc, file, next, FRESH).2 == ReadLogical(crc, file, next, FRESH).2;
    SkipsTo(crc, file, mid, next, Dropped(size, data, off, m));
  }

  /** Bad bytes up to the end of a block: everything before is read, and everything
      that starts behind, and what is dropped is reported. */
  lemma {:induction false} DamageIsContained(crc: Checksum, before: seq<Slice>, data: Slice, m: nat, junk: Slice,
                                             orphan: Slice, after: seq<Slice>)
    requires m < |Fragments(data, OffsetAfterAll(before, 0), true)| && BadStart(crc, junk)
    requires (if m == 0 then HeaderOffset(OffsetAfterAll(before, 0)) else 0) + |junk| == BLOCK_SIZE
    ensures var off := OffsetAfterAll(before, 0);
      var file := LogBytes(crc, before, 0) + (Head(crc, data, off, true, m) + (junk + FromBlock(crc, orphan, after)));
      var r := ReadAll(crc, file, START);
      && |r.0| == |before + after| && ReadsFirst(r.0, before + after)
      && r.1 == Dropped(|junk|, data, off, m) + if orphan == [] then [] else OrphanSizes(orphan)
  {
    hide LogBytes, Head, ReadAll, Aligned, ReadLogical, ReadPhysical, Fragments, OffsetAfterAll, HeaderOffset,
        BadStart, FromBlock;
    var off := OffsetAfterAll(before, 0);
    var left, tail := Head(crc, data, off, true, m), junk + FromBlock(crc, orphan, after);
    var file := LogBytes(crc, before, 0) + (left + tail);
    ReadAllFromStart(crc, file);
    assert file[0..] == file;
    var mid, got := ReadsThenGoesOn(crc, file, Refill(file, START), 0, before, left + tail);
    AlignedIn(file, mid, off);
    var st, a := ReadHead(crc, file, mid, off, data, true, FRESH, m, tail);
    var q := if m == 0 then HeaderOffset(off) else 0;
    AlignedIn(file, st, q);
    BadIsDropped(crc, file, st, q, junk, FromBlock(crc, orphan, after));
    var next := ReadPhysical(crc, file, st).1;
    AlignedIn(file, next, BLOCK_SIZE);
    BadStep(crc, file, mid, st, a, next, |junk|, data, off, m);
    ReadsFromBlock(crc, file, next, orphan, after);
  }

  /** The same in the last block of the file, if the checksum is what is wrong. */
  lemma {:induction false} DamageAtEnd(crc: Checksum, before: seq<Slice>, data: Slice, m: nat, junk: Slice)
    requires m < |Fragments(data, OffsetAfterAll(before, 0), true)| && BadStart(crc, junk)
    requires 7 + Announced(junk[4], junk[5]) <= |junk|
    requires (if m == 0 then HeaderOffset(OffsetAfterAll(before, 0)) else 0) + |junk| < BLOCK_SIZE
    ensures var off := OffsetAfterAll(before, 0);
      var r := ReadAll(crc, LogBytes(crc, before, 0) + (Head(crc, data, off, true, m) + junk), START);
      && |r.0| == |before| && ReadsFirst(r.0, before)
      && r.1 == Dropped(|junk|, data, off, m)
  {
    hide LogBytes, Head, Aligned, ReadPhysical, Fragments, OffsetAfterAll, HeaderOffset, BadStart, ReadLogical;
    var off := OffsetAfterAll(before, 0);
    var left := Head(crc, data, off, true, m);
    var file := LogBytes(crc, before, 0) + (left + junk);
    ReadAllFromStart(crc, file);
    assert file[0..] == file;
    var mid, got := ReadsThenGoesOn(crc, file, Refill(file, START), 0, before, left + junk);
    AlignedIn(file, mid, off);
    var st, a := ReadHead(crc, file, mid, off, data, true, FRESH, m, junk);
    var q := if m == 0 then HeaderOffset(off) else 0;
    AlignedIn(file, st, q);
    BadAtEndIsDropped(crc, file, st, q, junk);
    var next := ReadPhysical(crc, file, st).1;
    ReadLogicalStep(crc, file, next, FRESH);
    BadStep(crc, file, mid, st, a, next, |junk|, data, off, m);
    assert got + [] == got && Dropped(|junk|, data, off, m) + [] == Dropped(|junk|, data, off, m);
  }

  lemma {:induction false} HeadStep(crc: Checksum, data: Slice, off: BlockOffset, begin: bool, m: nat)
    requires 0 < m < |Fragments(data, off, begin)|
    ensures var n := FragmentLength(data, off);
      var first := Trailer(off) + Physical(crc, FragmentType(begin, false), data[..n]);
      && n < |data| && m - 1 < |Fragments(data[n..], BLOCK_SIZE, false)|
      && Head(crc, data, off, begin, m) == first + Head(crc, data[n..], BLOCK_SIZE, false, m - 1)
      && Emitted(crc, data, off, begin) == first + Emitted(crc, data[n..], BLOCK_SIZE, false)
      && OffsetAfter(data, off) == OffsetAfter(data[n..], BLOCK_SIZE)
      && HeadData(data, off, m) == n + HeadData(data[n..], BLOCK_SIZE, m - 1)
  {
    hide Physical, Trailer;
    var n := FragmentLength(data, off);
    assert n < |data|;
    assert Fragments(data, off, begin)[1..] == Fragments(data[n..], BLOCK_SIZE, false);
  }

  /** A record from its fragment m on. */
  lemma {:induction false} HeadThenRest(crc: Checksum, data: Slice, off: BlockOffset, begin: bool, m: nat)
    requires m < |Fragments(data, off, begin)|
    ensures var d, q := data[HeadData(data, off, m)..], if m == 0 then HeaderOffset(off) else 0;
      && Emitted(crc, data, off, begin) == Head(crc, data, off, begin, m) + Emitted(crc, d, q, begin && m == 0)
      && OffsetAfter(data, off) == OffsetAfter(d, q)
    decreases m
  {
    hide Emitted, OffsetAfter, Fragments, Physical, Trailer, FragmentLength;
    if m == 0 {
      SkipTrailer(crc, data, off, begin);
      assert data[0..] == data;
    } else {
      HeadStep(crc, data, off, begin, m);
      var n := FragmentLength(data, off);
      HeadThenRest(crc, data[n..], BLOCK_SIZE, false, m - 1);
      assert HeaderOffset(BLOCK_SIZE) == 0;
      var d := data[HeadData(data, off, m)..];
      assert data[n..][HeadData(data[n..], BLOCK_SIZE, m - 1)..] == d;
      var first := Trailer(off) + Physical(crc, FragmentType(begin, false), data[..n]);
      var h := Head(crc, data[n..], BLOCK_SIZE, false, m - 1);
      assert first + (h + Emitted(crc, d, 0, false)) == first + h + Emitted(crc, d, 0, false);
    }
  }

  /** A fragment with other bytes in its place, whose length is still right and
      whose checksum is not. */
  ghost predicate Damaged(crc: Checksum, frag: Slice) {
    && |frag| >= 7 && 7 + Announced(frag[4], frag[5]) == |frag|
    && !(frag[6] == 0 && |frag| == 7)
    && crc(frag[6..]) != DecodeFixed(frag[..4])
  }

  lemma DamagedStartsBad(crc: Checksum, frag: Slice, more: Slice)
    requires Damaged(crc, frag)
    ensures BadStart(crc, frag + more) && 7 + Announced((frag + more)[4], (frag + more)[5]) <= |frag + more|
  {
    var b := frag + more;
    assert b[6..|frag|] == frag[6..] && b[..4] == frag[..4];
  }

  /** Fragment m of a record: what is left of the record there, and the offset. */
  function LeftAt(data: Slice, off: BlockOffset, m: nat): Slice { data[HeadData(data, off, m)..] }

  function OffsetAt(off: BlockOffset, m: nat): BlockOffset { if m == 0 then HeaderOffset(off) else 0 }

  function SizeAt(data: Slice, off: BlockOffset, m: nat): nat {
    HEADER_SIZE + FragmentLength(LeftAt(data, off, m), OffsetAt(off, m))
  }

  /** What follows fragment m of a record in a log. */
  function Behind(crc: Checksum, data: Slice, off: BlockOffset, m: nat, later: seq<Slice>): Slice {
    var d := LeftAt(data, off, m);
    var n := FragmentLength(d, OffsetAt(off, m));
    (if n == |d| then [] else Emitted(crc, d[n..], 0, false)) + LogBytes(crc, later, OffsetAfter(data, off))
  }

  lemma {:induction false} LogParts(crc: Checksum, before: seq<Slice>, data: Slice, m: nat, later: seq<Slice>)
    requires m < |Fragments(data, OffsetAfterAll(before, 0), true)|
    ensures var off := OffsetAfterAll(before, 0);
      var d, q := LeftAt(data, off, m), OffsetAt(off, m);
      var n := FragmentLength(d, q);
      var fragment := Physical(crc, FragmentType(m == 0, n == |d|), d[..n]);
      var rest := if n == |d| then [] else Emitted(crc, d[n..], 0, false);
      && LogBytes(crc, before + [data] + later, 0)
         == LogBytes(crc, before, 0) + (Head(crc, data, off, true, m) + (fragment + Behind(crc, data, off, m, later)))
      && LogBytes(crc, before + [data], 0) == LogBytes(crc, before, 0)
            + (Head(crc, data, off, true, m) + (fragment + rest))
      && q + HEADER_SIZE + n <= BLOCK_SIZE && (n < |d| ==> q + HEADER_SIZE + n == BLOCK_SIZE)
      && OffsetAfter(data, off) == (if n == |d| then q + HEADER_SIZE + n else OffsetAfter(d[n..], 0))
  {
    hide LogBytes, Head, Fragments, OffsetAfterAll, HeaderOffset, Emitted, OffsetAfter, Physical;
    var off := OffsetAfterAll(before, 0);
    var d, q := LeftAt(data, off, m), OffsetAt(off, m);
    HeadThenRest(crc, data, off, true, m);
    assert HeaderOffset(q) == q by { HeaderStays(off); }
    NextPart(crc, d, q, m == 0);
    var n := FragmentLength(d, q);
    var fragment := Physical(crc, FragmentType(m == 0, n == |d|), d[..n]);
    var rest := if n == |d| then [] else Emitted(crc, d[n..], 0, false);
    var first, left, more := LogBytes(crc, before, 0), Head(crc, data, off, true, m),
        LogBytes(crc, later, OffsetAfter(data, off));
    LogBytesAppend(crc, before, [data], 0);
    OneRecordBytes(crc, data, off);
    LogBytesAppend(crc, before + [data], later, 0);
    OffsetsOfOne(before, data);
    assert first + (left + (fragment + rest)) + more == first + (left + (fragment + (rest + more)));
  }

  lemma HeaderStays(off: BlockOffset)
    ensures HeaderOffset(HeaderOffset(off)) == HeaderOffset(off) && HeaderOffset(0) == 0
  {
  }

  lemma {:induction false} OneRecordBytes(crc: Checksum, data: Slice, off: BlockOffset)
    ensures LogBytes(crc, [data], off) == Emitted(crc, data, off, true)
  {
    hide Emitted, OffsetAfter;
    assert [data][1..] == [] && LogBytes(crc, [], OffsetAfter(data, off)) == [];
    assert Emitted(crc, data, off, true) + [] == Emitted(crc, data, off, true);
  }

  lemma {:induction false} OffsetsOfOne(before: seq<Slice>, data: Slice)
    ensures OffsetAfterAll(before + [data], 0) == OffsetAfter(data, OffsetAfterAll(before, 0))
  {
    OffsetsAppend(before, data, 0);
  }

  lemma {:induction false} OffsetsAppend(rs: seq<Slice>, record: Slice, off: BlockOffset)
    ensures OffsetAfterAll(rs + [record], off) == OffsetAfter(record, OffsetAfterAll(rs, off))
    decreases |rs|
  {
    hide OffsetAfter;
    if rs == [] {
      assert rs + [record] == [record] && [record][1..] == [];
    } else {
      assert (rs + [record])[1..] == rs[1..] + [record];
      OffsetsAppend(rs[1..], record, OffsetAfter(rs[0], off));
    }
  }

  /** The bytes of the block from the damaged fragment on, and what is behind it. */
  lemma {:induction false} RestOfBlock(crc: Checksum, data: Slice, off: BlockOffset, m: nat, later: seq<Slice>,
      frag: Slice)
      returns (x: Slice, orphan: Slice, k: nat)
    requires var d, q := LeftAt(data, off, m), OffsetAt(off, m);
      var n := FragmentLength(d, q);
      && |frag| == HEADER_SIZE + n && q + |frag| <= BLOCK_SIZE && (n < |d| ==> q + |frag| == BLOCK_SIZE)
      && OffsetAfter(data, off) == (if n == |d| then q + HEADER_SIZE + n else OffsetAfter(d[n..], 0))
    ensures var d, q := LeftAt(data, off, m), OffsetAt(off, m);
      var n := FragmentLength(d, q);
      var behind := Behind(crc, data, off, m, later);
      var rest := if n == |d| then [] else Emitted(crc, d[n..], 0, false);
      && k <= |later|
      && StartsFrom(crc, later, OffsetAfter(data, off), BLOCK_SIZE - q - |frag| - |rest|, k)
      && (if q + |frag| + |behind| >= BLOCK_SIZE
          then behind == x + FromBlock(crc, orphan, later[k..]) && q + |frag + x| == BLOCK_SIZE
          else behind == x && k == |later|)
  {
    hide LogBytes, Emitted, OffsetAfter, StartsFrom, HeaderOffset, FragmentLength, StartOf;
    var d, q := LeftAt(data, off, m), OffsetAt(off, m);
    var n := FragmentLength(d, q);
    var o := OffsetAfter(data, off);
    var more := LogBytes(crc, later, o);
    x, orphan, k := [], [], 0;
    if n < |d| {
      orphan := d[n..];
      SkipTrailer(crc, orphan, BLOCK_SIZE, false);
      BlockStart();
      assert [] + Emitted(crc, orphan, 0, false) == Emitted(crc, orphan, 0, false);
      assert later[0..] == later && Behind(crc, data, off, m, later) == [] + FromBlock(crc, orphan, later);
      EverythingStarts(crc, later, o, -|Emitted(crc, orphan, 0, false)|);
    } else {
      assert Behind(crc, data, off, m, later) == [] + more == more;
      if o + |more| >= BLOCK_SIZE {
        x, orphan, k := SplitAtBlock(crc, later, o);
      } else {
        x, k := more, |later|;
        StartsInside(crc, later, o, BLOCK_SIZE - o);
      }
    }
  }

  /** A log of any records in which the bytes of any one fragment of a record are
      replaced so that its checksum does not fit: the records before that one are
      read, and of those behind it exactly the ones that start behind its block.
      Nothing else is, and the rest of the block is reported. */
  lemma {:induction false} OneFragmentDamaged(crc: Checksum, before: seq<Slice>, data: Slice, m: nat, later: seq<Slice>,
                                              frag: Slice) returns (k: nat)
    requires m < |Fragments(data, OffsetAfterAll(before, 0), true)|
    requires Damaged(crc, frag) && |frag| == SizeAt(data, OffsetAfterAll(before, 0), m)
    ensures k <= |later|
    ensures var off := OffsetAfterAll(before, 0);
      var log := LogBytes(crc, before + [data] + later, 0);
      var at := |LogBytes(crc, before, 0)| + |Head(crc, data, off, true, m)|;
      var end := at + BLOCK_SIZE - OffsetAt(off, m);
      && at + |frag| <= |log|
      && StartsFrom(crc, later, OffsetAfter(data, off), end - |LogBytes(crc, before + [data], 0)|, k)
      && var r := ReadAll(crc, log[..at] + frag + log[at + |frag|..], START);
         && |r.0| == |before + later[k..]| && ReadsFirst(r.0, before + later[k..])
         && r.1 != [] && r.1[0] == (if end <= |log| then end else |log|) - at
  {
    hide LogBytes, Head, ReadAll, Fragments, OffsetAfterAll, HeaderOffset, Emitted, OffsetAfter, Damaged,
        FragmentLength,
        StartsFrom, BadStart, FromBlock, Physical, ReadsFirst, HeadData, Behind;
    var off := OffsetAfterAll(before, 0);
    var first, left, behind := LogBytes(crc, before, 0), Head(crc, data, off, true, m),
        Behind(crc, data, off, m, later);
    var log, at, q := LogBytes(crc, before + [data] + later, 0), |first| + |left|, OffsetAt(off, m);
    LogParts(crc, before, data, m, later);
    var d := LeftAt(data, off, m);
    var n := FragmentLength(d, q);
    Replace(first, left, Physical(crc, FragmentType(m == 0, n == |d|), d[..n]), behind, frag);
    var x, orphan;
    x, orphan, k := RestOfBlock(crc, data, off, m, later, frag);
    DamagedStartsBad(crc, frag, x);
    if q + |frag| + |behind| >= BLOCK_SIZE {
      Regroup(frag, x, FromBlock(crc, orphan, later[k..]));
      DamageIsContained(crc, before, data, m, frag + x, orphan, later[k..]);
    } else {
      DamageAtEnd(crc, before, data, m, frag + x);
      assert before + later[k..] == before;
    }
  }

  /** Other bytes in the place of a part of the same length. */
  lemma Replace(a: Slice, b: Slice, c: Slice, d: Slice, c': Slice)
    requires |c| == |c'|
    ensures var s, at := a + (b + (c + d)), |a| + |b|;
      at + |c'| <= |s| && s[..at] + c' + s[at + |c'|..] == a + (b + (c' + d))
  {
    var s, at := a + (b + (c + d)), |a| + |b|;
    assert s == a + b + c + d;
    assert s[..at] == a + b && s[at + |c|..] == d;
  }
}
