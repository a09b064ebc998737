/** The write-ahead log: records cut into checksummed fragments that never cross
    a 32 KiB block, and the reader that puts them together again. */
module Log {
  import opened DbFormat

  const BLOCK_SIZE := 32768
  const HEADER_SIZE := 7     // checksum (4), length (2), type (1)

  const ZERO_TYPE := 0
  const FULL_TYPE := 1
  const FIRST_TYPE := 2
  const MIDDLE_TYPE := 3
  const LAST_TYPE := 4

  // Results of ReadPhysicalRecord that share the type byte's range.
  const EOF_RESULT := 5
  const BAD_RESULT := 6

  type Fixed32 = n: int | 0 <= n < 0x1_0000_0000
  type BlockOffset = o: int | 0 <= o <= BLOCK_SIZE

  /** The masked CRC of a type byte and payload, as an arbitrary function. */
  type Checksum = Slice -> Fixed32

  // ---------- What the writer puts in the file ----------

  /** One fragment: its header, then its payload. */
  function Physical(crc: Checksum, t: Byte, payload: Slice): (s: Slice)
    requires |payload| < 0x1_0000
    ensures |s| == HEADER_SIZE + |payload|
  {
    EncodeFixed(crc([t] + payload), 4) + [|payload| % 0x100, |payload| / 0x100, t] + payload
  }

  /** The zero bytes that fill a block with no room left for a header. */
  function Trailer(off: BlockOffset): Slice {
    if BLOCK_SIZE - off < HEADER_SIZE then seq(BLOCK_SIZE - off, _ => 0) else []
  }

  /** The offset the next header goes to. */
  function HeaderOffset(off: BlockOffset): (o: BlockOffset)
    ensures o + HEADER_SIZE <= BLOCK_SIZE
  {
    if BLOCK_SIZE - off < HEADER_SIZE then 0 else off
  }

  function Room(off: BlockOffset): nat {
    BLOCK_SIZE - HeaderOffset(off) - HEADER_SIZE
  }

  function FragmentLength(data: Slice, off: BlockOffset): (n: nat)
    ensures n <= |data| && n <= Room(off) < 0x1_0000
  {
    if |data| < Room(off) then |data| else Room(off)
  }

  function FragmentType(begin: bool, end: bool): Byte {
    if begin && end then FULL_TYPE else if begin then FIRST_TYPE else if end then LAST_TYPE else MIDDLE_TYPE
  }

  datatype Fragment = Fragment(t: Byte, payload: Slice, off: BlockOffset)

  /** The fragments of one record written at block offset off.  A first fragment
      may be empty, so what decreases is the bytes left and then whether the
      current block still has room. */
  function Fragments(data: Slice, off: BlockOffset, begin: bool): (fs: seq<Fragment>)
    decreases |data|, Room(off) == 0
    ensures fs != []
    ensures forall f :: f in fs ==> |f.payload| < 0x1_0000
  {
    var n := FragmentLength(data, off);
    var f := Fragment(FragmentType(begin, n == |data|), data[..n], HeaderOffset(off));
    if n == |data| then [f] else [f] + Fragments(data[n..], BLOCK_SIZE, false)
  }

  /** The bytes AddRecord appends. */
  function Emitted(crc: Checksum, data: Slice, off: BlockOffset, begin: bool): Slice
    decreases |data|, Room(off) == 0
  {
    var n := FragmentLength(data, off);
    Trailer(off) + Physical(crc, FragmentType(begin, n == |data|), data[..n])
    + if n == |data| then [] else Emitted(crc, data[n..], BLOCK_SIZE, false)
  }

  function OffsetAfter(data: Slice, off: BlockOffset): BlockOffset
    decreases |data|, Room(off) == 0
  {
    var n := FragmentLength(data, off);
    if n == |data| then HeaderOffset(off) + HEADER_SIZE + n else OffsetAfter(data[n..], BLOCK_SIZE)
  }

  /** Full, or First Middle* Last. */
  ghost predicate WellTyped(fs: seq<Fragment>, begin: bool) {
    forall i :: 0 <= i < |fs| ==> fs[i].t == FragmentType(begin && i == 0, i == |fs| - 1)
  }

  ghost function Payloads(fs: seq<Fragment>): Slice {
    if fs == [] then [] else fs[0].payload + Payloads(fs[1..])
  }

  /** A record becomes Full, or First Middle* Last; the payloads put together are
      the record; and no fragment crosses the end of its block. */
  lemma {:induction false} FragmentsShape(data: Slice, off: BlockOffset, begin: bool)
    ensures var fs := Fragments(data, off, begin);
      && WellTyped(fs, begin)
      && Payloads(fs) == data
      && forall f :: f in fs ==> f.off + HEADER_SIZE + |f.payload| <= BLOCK_SIZE
    decreases |data|, Room(off) == 0
  {
    hide WellTyped, Payloads;
    var n := FragmentLength(data, off);
    var fs := Fragments(data, off, begin);
    if n < |data| {
      FragmentsShape(data[n..], BLOCK_SIZE, false);
      FirstAndRest(fs[0], Fragments(data[n..], BLOCK_SIZE, false), begin);
      assert data == data[..n] + data[n..];
    } else {
      OnlyFragment(fs[0], begin);
      assert data[..n] == data;
    }
  }

  lemma {:induction false} FirstAndRest(f: Fragment, fs: seq<Fragment>, begin: bool)
    requires fs != [] && f.t == FragmentType(begin, false) && WellTyped(fs, false)
    ensures WellTyped([f] + fs, begin) && Payloads([f] + fs) == f.payload + Payloads(fs)
  {
    assert ([f] + fs)[1..] == fs;
  }

  lemma {:induction false} OnlyFragment(f: Fragment, begin: bool)
    requires f.t == FragmentType(begin, true)
    ensures WellTyped([f], begin) && Payloads([f]) == f.payload
  {
    assert [f][1..] == [];
  }

  // ---------- The writer ----------

  /** What an append to the file does: all of it, or an error after some of it. */
  datatype Outcome = Done | Cut(kept: nat)

  /** The outcome of every append and flush, by their number. */
  type Outcomes = nat -> Outcome

  predicate AllDone(outcomes: Outcomes, from: nat, to: nat) {
    forall i :: from <= i < to ==> outcomes(i).Done?
  }

  function Appended(outcome: Outcome, bytes: Slice): Slice {
    if outcome.Done? || outcome.kept >= |bytes| then bytes else bytes[..outcome.kept]
  }

  class Writer {
    const crc: Checksum
    const outcomes: Outcomes
    var dest: Slice              // contents of the file
    var calls: nat               // appends and flushes so far
    var blockOffset: BlockOffset

    /** block_offset_ tracks the file position within its block. */
    ghost predicate Valid()
      reads this
    {
      (|dest| - blockOffset) % BLOCK_SIZE == 0
    }

    /** Opens a log whose file already holds `contents`. */
    constructor (crc: Checksum, outcomes: Outcomes, contents: Slice)
      ensures Valid() && this.crc == crc && this.outcomes == outcomes && dest == contents && calls == 0
      ensures blockOffset == |contents| % BLOCK_SIZE
    {
      this.crc, this.outcomes, dest, calls, blockOffset := crc, outcomes, contents, 0, |contents| % BLOCK_SIZE;
    }

    method Append(bytes: Slice) returns (ok: bool)
      modifies this
      ensures calls == old(calls) + 1 && blockOffset == old(blockOffset)
      ensures ok <==> outcomes(old(calls)).Done?
      ensures dest == old(dest) + Appended(outcomes(old(calls)), bytes)
    {
      dest := dest + Appended(outcomes(calls), bytes);
      ok := outcomes(calls).Done?;
      calls := calls + 1;
    }

    /** Header, payload and flush, up to the first error; the block offset moves
        past the fragment in any case. */
    method EmitPhysicalRecord(t: Byte, payload: Slice) returns (ok: bool)
      requires blockOffset + HEADER_SIZE + |payload| <= BLOCK_SIZE
      modifies this
      ensures blockOffset == old(blockOffset) + HEADER_SIZE + |payload|
      ensures old(calls) < calls && (ok <==> AllDone(outcomes, old(calls), calls)) && (!ok ==> outcomes(calls - 1).Cut?)
      ensures ok ==> outcomes(old(calls)).Done? && outcomes(old(calls) + 1).Done?
      ensures dest == old(dest) + FragmentLeft(outcomes, old(calls), Physical(crc, t, payload))
    {
      var header := EncodeFixed(crc([t] + payload), 4) + [|payload| % 0x100, |payload| / 0x100, t];
      assert Physical(crc, t, payload)[..HEADER_SIZE] == header && Physical(crc, t, payload)[HEADER_SIZE..] == payload;
      ok := Append(header);
      if ok {
        ok := Append(payload);
        if ok {
          ok := Append([]);          // Flush
        }
      }
      blockOffset := blockOffset + HEADER_SIZE + |payload|;
    }

    /** First what the append of a block trailer, whose error is ignored, leaves of
        it.  Behind that the whole record if everything else succeeds, and up to
        the first error if not; a record of one fragment is cut in it. */
    method AddRecord(data: Slice) returns (ok: bool)
      modifies this
      ensures old(calls) + TrailerCalls(old(blockOffset)) < calls
      ensures ok <==> AllDone(outcomes, old(calls) + TrailerCalls(old(blockOffset)), calls)
      ensures !ok ==> outcomes(calls - 1).Cut?
      ensures var trailer := Appended(outcomes(old(calls)), Trailer(old(blockOffset)));
        var record := Emitted(crc, data, HeaderOffset(old(blockOffset)), true);
        && (ok ==> dest == old(dest) + trailer + record && blockOffset == OffsetAfter(data, old(blockOffset)))
        && (ok && trailer == Trailer(old(blockOffset)) && old(Valid()) ==> Valid())
        && (!ok ==> exists k :: IsCut(dest, old(dest) + trailer, record, k))
        && (|data| <= Room(old(blockOffset)) ==>
              && blockOffset == HeaderOffset(old(blockOffset)) + HEADER_SIZE + |data|
              && dest == old(dest) + trailer
                       + FragmentLeft(outcomes, old(calls) + TrailerCalls(old(blockOffset)),
                           Physical(crc, FULL_TYPE, data)))
    {
      hide Emitted, OffsetAfter, Physical, Trailer, HeaderOffset, AllDone, Appended, FragmentLeft, AtTurn, IsCut,
          TrailerCalls;
      ghost var off0 := blockOffset;
      ghost var from := calls + TrailerCalls(off0);
      ghost var base := dest + Appended(outcomes(calls), Trailer(off0));
      var left := data;
      var begin := true;
      AllDoneEmpty(outcomes, from);
      FirstTurn(crc, data, off0, base);
      while true
        invariant begin ==> left == data && dest == old(dest) && calls == old(calls) && blockOffset == off0
        invariant !begin ==>
          && from < calls && blockOffset == BLOCK_SIZE && AllDone(outcomes, from, calls) && |data| > Room(off0)
        invariant AtTurn(crc, data, off0, base, left, begin, if begin then base else dest)
        decreases |left|, Room(blockOffset) == 0
      {
        BlockStart();
        ghost var was := dest;
        assert was + [] == was;
        SwitchBlock();
        ghost var at, calls1 := dest, calls;
        var avail := BLOCK_SIZE - blockOffset - HEADER_SIZE;
        var n := if |left| < avail then |left| else avail;
        var end := |left| == n;
        var t := if begin && end then FULL_TYPE else if begin then FIRST_TYPE else if end then
            LAST_TYPE else MIDDLE_TYPE;
        assert AtTurn(crc, data, off0, base, left, begin, at);
        assert end ==> left[..n] == left;
        ok := EmitPhysicalRecord(t, left[..n]);
        AllDoneJoin(outcomes, from, calls1, calls);
        TurnDone(crc, data, off0, base, left, begin, at, dest, outcomes, calls1, n);
        if !ok || end { break; }
        left := left[n..];
        begin := false;
      }
      StaysValid(crc, data, off0, old(dest), dest);
      assert !ok ==> IsCut(dest, base, Emitted(crc, data, HeaderOffset(off0), true), |dest| - |base|);
    }

    /** Fills the trailer and moves to a new block if no header fits.  An error is ignored. */
    method SwitchBlock()
      modifies this
      ensures calls == old(calls) + TrailerCalls(old(blockOffset))
      ensures dest == old(dest) + Appended(outcomes(old(calls)), Trailer(old(blockOffset)))
      ensures blockOffset == HeaderOffset(old(blockOffset))
    {
      var leftover := BLOCK_SIZE - blockOffset;
      if leftover < HEADER_SIZE {
        if leftover > 0 {
          var ignored := Append(seq(leftover, _ => 0));
        }
        blockOffset := 0;
      }
    }
  }

  /** How many appends a block trailer takes. */
  function TrailerCalls(off: BlockOffset): nat {
    if Trailer(off) == [] then 0 else 1
  }

  /** What is left of a fragment: its header is appended first, then its payload. */
  function FragmentLeft(outcomes: Outcomes, call: nat, fragment: Slice): Slice
    requires |fragment| >= HEADER_SIZE
  {
    var first := outcomes(call);
    if first.Cut? then Appended(first, fragment[..HEADER_SIZE])
    else fragment[..HEADER_SIZE] + Appended(outcomes(call + 1), fragment[HEADER_SIZE..])
  }

  /** In the loop of AddRecord, where the next header goes: what is left of the
      record makes the file whole. */
  ghost predicate AtTurn(crc: Checksum, data: Slice, off: BlockOffset, base: Slice, left: Slice, begin: bool,
      at: Slice) {
    var o := if begin then HeaderOffset(off) else 0;
    && base <= at
    && at + Emitted(crc, left, o, begin) == base + Emitted(crc, data, HeaderOffset(off), true)
    && OffsetAfter(left, o) == OffsetAfter(data, off)
  }

  lemma {:induction false} FirstTurn(crc: Checksum, data: Slice, off: BlockOffset, base: Slice)
    ensures AtTurn(crc, data, off, base, data, true, base)
    ensures Emitted(crc, data, off, true) == Trailer(off) + Emitted(crc, data, HeaderOffset(off), true)
  {
    hide Emitted, OffsetAfter, HeaderOffset, Trailer;
    SkipTrailer(crc, data, off, true);
  }

  /** The bytes of a record from a place where a header fits. */
  lemma {:induction false} NextPart(crc: Checksum, left: Slice, o: BlockOffset, begin: bool)
    requires o + HEADER_SIZE <= BLOCK_SIZE
    ensures var n := if |left| < BLOCK_SIZE - o - HEADER_SIZE then |left| else BLOCK_SIZE - o - HEADER_SIZE;
      && Emitted(crc, left, o, begin)
         == Physical(crc, FragmentType(begin, n == |left|), left[..n])
             + (if n == |left| then [] else Emitted(crc, left[n..], 0, false))
      && OffsetAfter(left, o) == (if n == |left| then o + HEADER_SIZE + n else OffsetAfter(left[n..], 0))
  {
    hide Physical;
    var n := FragmentLength(left, o);
    var fragment := Physical(crc, FragmentType(begin, n == |left|), left[..n]);
    assert [] + fragment == fragment;
    if n < |left| {
      SkipTrailer(crc, left[n..], BLOCK_SIZE, false);
      assert [] + Emitted(crc, left[n..], 0, false) == Emitted(crc, left[n..], 0, false);
    }
  }

  /** A fragment written up to its first error; without one the loop is done or
      goes on in the next block. */
  lemma {:induction false} TurnDone(crc: Checksum, data: Slice, off: BlockOffset, base: Slice, left: Slice, begin: bool,
                                    at: Slice, dest: Slice, outcomes: Outcomes, call: nat, n: nat)
    requires AtTurn(crc, data, off, base, left, begin, at)
    requires var o := if begin then HeaderOffset(off) else 0;
      n == if |left| < BLOCK_SIZE - o - HEADER_SIZE then |left| else BLOCK_SIZE - o - HEADER_SIZE
    requires dest == at + FragmentLeft(outcomes, call, Physical(crc, FragmentType(begin, n == |left|), left[..n]))
    ensures var record, o := Emitted(crc, data, HeaderOffset(off), true), if begin then HeaderOffset(off) else 0;
      && |base| <= |dest| && IsCut(dest, base, record, |dest| - |base|)
      && (outcomes(call).Done? && outcomes(call + 1).Done? ==>
            if n == |left| then dest == base + record && OffsetAfter(data, off) == o + HEADER_SIZE + n
            else o + HEADER_SIZE + n == BLOCK_SIZE && AtTurn(crc, data, off, base, left[n..], false, dest))
  {
    hide Emitted, OffsetAfter, Physical, Trailer, HeaderOffset, FragmentLeft, IsCut, FragmentType, FragmentLength;
    var record, o := Emitted(crc, data, HeaderOffset(off), true), if begin then HeaderOffset(off) else 0;
    NextPart(crc, left, o, begin);
    var rest := if n == |left| then [] else Emitted(crc, left[n..], 0, false);
    var fragment := Physical(crc, FragmentType(begin, n == |left|), left[..n]);
    FragmentSoFar(base, base + record, at, fragment, rest, dest, outcomes, call);
    assert at + fragment + rest == at + (fragment + rest);
    CutOff(dest, base, record);
  }

  lemma {:induction false} StaysValid(crc: Checksum, data: Slice, off: BlockOffset, before: Slice, dest: Slice)
    ensures var whole := before + Trailer(off) + Emitted(crc, data, HeaderOffset(off), true);
      dest == whole && (|before| - off) % BLOCK_SIZE == 0 ==> (|dest| - OffsetAfter(data, off)) % BLOCK_SIZE == 0
  {
    hide Emitted, Trailer, HeaderOffset, OffsetAfter;
    EmittedMoves(crc, data, off, true);
    SkipTrailer(crc, data, off, true);
  }

  /** The block offset moves with the end of the file. */
  lemma {:induction false} EmittedMoves(crc: Checksum, data: Slice, off: BlockOffset, begin: bool)
    ensures (off + |Emitted(crc, data, off, begin)| - OffsetAfter(data, off)) % BLOCK_SIZE == 0
    decreases |data|, Room(off) == 0
  {
    hide Physical;
    var n := FragmentLength(data, off);
    if n < |data| {
      EmittedMoves(crc, data[n..], BLOCK_SIZE, false);
    }
  }

  lemma BlockStart()
    ensures HeaderOffset(BLOCK_SIZE) == 0 && Trailer(BLOCK_SIZE) == [] && TrailerCalls(BLOCK_SIZE) == 0
    ensures forall outcome: Outcome :: Appended(outcome, []) == []
  {
  }

  /** A record is its trailer and then what is written in the block it starts in. */
  lemma {:induction false} SkipTrailer(crc: Checksum, data: Slice, off: BlockOffset, begin: bool)
    ensures Emitted(crc, data, off, begin) == Trailer(off) + Emitted(crc, data, HeaderOffset(off), begin)
    ensures OffsetAfter(data, off) == OffsetAfter(data, HeaderOffset(off))
  {
    hide Physical, Trailer, Room, FragmentLength;
    EmittedStep(crc, data, off, begin);
    EmittedStep(crc, data, HeaderOffset(off), begin);
    var n := FragmentLength(data, off);
    var more := if n == |data| then [] else Emitted(crc, data[n..], BLOCK_SIZE, false);
    var first := Physical(crc, FragmentType(begin, n == |data|), data[..n]);
    assert Trailer(HeaderOffset(off)) == [] by { NoTrailer(off); }
    assert [] + first + more == first + more;
    assert Trailer(off) + first + more == Trailer(off) + (first + more);
  }

  lemma NoTrailer(off: BlockOffset)
    ensures Trailer(HeaderOffset(off)) == []
  {
  }

  lemma AllDoneEmpty(outcomes: Outcomes, n: nat)
    ensures AllDone(outcomes, n, n)
  {
  }

  lemma AllDoneJoin(outcomes: Outcomes, a: nat, b: nat, c: nat)
    requires a <= b <= c
    ensures AllDone(outcomes, a, c) <==> AllDone(outcomes, a, b) && AllDone(outcomes, b, c)
  {
  }

  /** A fragment written up to its first error, on a file that is as it should be. */
  lemma FragmentSoFar(before: Slice, target: Slice, at: Slice, fragment: Slice, rest: Slice, dest: Slice,
      outcomes: Outcomes, call: nat)
    requires |fragment| >= HEADER_SIZE && at + (fragment + rest) == target && before <= at
    requires dest == at + FragmentLeft(outcomes, call, fragment)
    ensures before <= dest && |dest| <= |target| && dest == target[..|dest|]
    ensures outcomes(call).Done? && outcomes(call + 1).Done? ==> dest == at + fragment
  {
    var part := dest[|at|..];
    assert part == fragment[..|part|];
    assert target[..|dest|] == at + (fragment + rest)[..|part|];
  }

  /** The file is the old one and the first k of the new bytes. */
  ghost predicate IsCut(dest: Slice, before: Slice, added: Slice, k: nat) {
    k <= |added| && dest == before + added[..k]
  }

  lemma CutOff(dest: Slice, before: Slice, added: Slice)
    requires before <= dest && |dest| <= |before + added| && dest == (before + added)[..|dest|]
    ensures IsCut(dest, before, added, |dest| - |before|)
  {
  }

  lemma {:induction false} EmittedStep(crc: Checksum, data: Slice, off: BlockOffset, begin: bool)
    ensures var n := FragmentLength(data, off);
      && n == (if |data| < BLOCK_SIZE - HeaderOffset(off) - HEADER_SIZE then
            |data| else BLOCK_SIZE - HeaderOffset(off) - HEADER_SIZE)
      && Emitted(crc, data, off, begin) ==
         Trailer(off) + Physical(crc, FragmentType(begin, n == |data|), data[..n])
             + (if n == |data| then [] else Emitted(crc, data[n..], BLOCK_SIZE, false))
      && OffsetAfter(data, off) == (if n == |data| then
            HeaderOffset(off) + HEADER_SIZE + n else OffsetAfter(data[n..], BLOCK_SIZE))
      && (n < |data| ==>
            && HeaderOffset(off) + HEADER_SIZE + n == BLOCK_SIZE && Room(BLOCK_SIZE) > 0
            && (n == 0 ==> Room(off) == 0))
  {
  }

  lemma AppendAssociates(a: Slice, b: Slice, c: Slice, d: Slice)
    ensures a + b + c + d == a + (b + c + d)
  {
  }

  // ---------- What the reader does with any file ----------

  /** Bytes read from the file so far, the parse position within them, and
      whether the last read was short.  The reader's buffer is file[pos..end]. */
  datatype ReadState = ReadState(pos: nat, end: nat, eof: bool) {
    predicate In(file: Slice) { pos <= end <= |file| && (eof ==> end == |file|) }
  }

  const START := ReadState(0, 0, false)

  datatype PhysicalResult =
    | Piece(t: Byte, payload: Slice)
    | Bad(dropped: Option<nat>)     // bytes reported as corrupt, if reported
    | Eof

  function Refill(file: Slice, st: ReadState): (st': ReadState)
    requires st.In(file)
    ensures st'.In(file) && st'.pos == st.end
  {
    var end := if st.end + BLOCK_SIZE <= |file| then st.end + BLOCK_SIZE else |file|;
    ReadState(st.end, end, end - st.end < BLOCK_SIZE)
  }

  function HeaderLength(b: Slice): nat
    requires |b| >= HEADER_SIZE
  {
    DecodeFixed(b[4..6])
  }

  /** Parses the first physical record of a buffer that holds at least a header.
      Everything but a good record drops the rest of the buffer. */
  function Parse(crc: Checksum, b: Slice, eof: bool): (r: PhysicalResult)
    requires |b| >= HEADER_SIZE
    ensures r.Piece? ==> HEADER_SIZE + |r.payload| <= |b|
  {
    var length := HeaderLength(b);
    if HEADER_SIZE + length > |b| then
      if !eof then Bad(Some(|b|)) else Eof
    else if b[6] == ZERO_TYPE && length == 0 then
      Bad(None)
    else if crc(b[6..HEADER_SIZE + length]) != DecodeFixed(b[..4]) then
      Bad(Some(|b|))
    else
      Piece(b[6], b[HEADER_SIZE..HEADER_SIZE + length])
  }

  function ReadPhysical(crc: Checksum, file: Slice, st: ReadState): (r: (PhysicalResult, ReadState))
    requires st.In(file)
    ensures r.1.In(file) && r.1.pos >= st.pos
    ensures !r.0.Eof? ==> r.1.pos > st.pos
    ensures r.0.Piece? ==> r.1.pos >= HEADER_SIZE + |r.0.payload|
    decreases |file| - st.end, !st.eof
  {
    if st.end - st.pos < HEADER_SIZE then
      if !st.eof then ReadPhysical(crc, file, Refill(file, st)) else (Eof, st.(pos := st.end))
    else
      var p := Parse(crc, file[st.pos..st.end], st.eof);
      (p, st.(pos := if p.Piece? then st.pos + HEADER_SIZE + |p.payload| else st.end))
  }

  datatype LogicalResult = Record(data: Slice, offset: nat) | End

  /** What ReadRecord remembers between physical records. */
  datatype Assembly = Assembly(inFragment: bool, scratch: Slice, offset: nat) {
    function Abandon(): Assembly { if inFragment then Assembly(false, [], offset) else this }
    function Abandoned(): seq<nat> { if inFragment then [|scratch|] else [] }
  }

  datatype AssemblyStep = Finish(result: LogicalResult, reports: seq<nat>) | Continue(next: Assembly, reports: seq<nat>)

  /** What ReadRecord does with one physical record that ends at file offset `pos`. */
  function Assemble(a: Assembly, p: PhysicalResult, pos: nat): AssemblyStep
    requires p.Piece? ==> pos >= HEADER_SIZE + |p.payload|
  {
    match p
    case Eof => Finish(End, [])
    case Bad(dropped) => Continue(a.Abandon(), (if dropped.Some? then [dropped.value] else []) + a.Abandoned())
    case Piece(t, payload) =>
      var offset := pos - HEADER_SIZE - |payload|;
      if t == FULL_TYPE then Finish(Record(payload, offset), PartialDrop(a))
      else if t == FIRST_TYPE then Continue(Assembly(true, payload, offset), PartialDrop(a))
      else if t == MIDDLE_TYPE then
        if a.inFragment then Continue(a.(scratch := a.scratch + payload), []) else Continue(a, [|payload|])
      else if t == LAST_TYPE then
        if a.inFragment then Finish(Record(a.scratch + payload, a.offset), []) else Continue(a, [|payload|])
      else if t == EOF_RESULT then Finish(End, [])
      else if t == BAD_RESULT then Continue(a.Abandon(), a.Abandoned())
      else Continue(Assembly(false, [], a.offset), [|payload| + if a.inFragment then |a.scratch| else 0])
  }

  /** A new record starts while another is unfinished: reported unless nothing
      had been collected yet. */
  function PartialDrop(a: Assembly): seq<nat> {
    if a.inFragment && a.scratch != [] then [|a.scratch|] else []
  }

  /** The reassembly loop of ReadRecord: the result, the reader's state after
      it, and the sizes of the drops it reported, in order. */
  function ReadLogical(crc: Checksum, file: Slice, st: ReadState,
      a: Assembly): (r: (LogicalResult, ReadState, seq<nat>))
    requires st.In(file)
    ensures r.1.In(file) && r.1.pos >= st.pos
    ensures r.0.Record? ==> r.1.pos > st.pos
    decreases |file| - st.pos
  {
    var (p, st') := ReadPhysical(crc, file, st);
    match Assemble(a, p, st'.pos)
    case Finish(result, reports) => (result, st', reports)
    case Continue(next, reports) =>
      var r := ReadLogical(crc, file, st', next);
      (r.0, r.1, reports + r.2)
  }

  const FRESH := Assembly(false, [], 0)

  /** Calling ReadRecord until it returns false. */
  function ReadAll(crc: Checksum, file: Slice, st: ReadState): (r: (seq<(Slice, nat)>, seq<nat>))
    requires st.In(file)
    decreases |file| - st.pos
  {
    var (l, st', reports) := ReadLogical(crc, file, st, FRESH);
    match l
    case End => ([], reports)
    case Record(data, offset) =>
      var rest := ReadAll(crc, file, st');
      ([(data, offset)] + rest.0, reports + rest.1)
  }

  /** From here on the reassembly loop will arrive at `target`, having reported
      `total` by then. */
  ghost predicate Heading(crc: Checksum, file: Slice, st: ReadState, a: Assembly, reports: seq<nat>,
                          target: (LogicalResult, ReadState, seq<nat>), total: seq<nat>)
    requires st.In(file)
  {
    var r := ReadLogical(crc, file, st, a);
    r.0 == target.0 && r.1 == target.1 && reports + r.2 == total
  }

  lemma {:induction false} HeadingStarts(crc: Checksum, file: Slice, st: ReadState, reports: seq<nat>)
    requires st.In(file)
    ensures var r := ReadLogical(crc, file, st, FRESH); Heading(crc, file, st, FRESH, reports, r, reports + r.2)
  {
  }

  lemma {:induction false} HeadingStep(crc: Checksum, file: Slice, st: ReadState, a: Assembly, reports: seq<nat>,
                    target: (LogicalResult, ReadState, seq<nat>), total: seq<nat>)
    requires st.In(file) && Heading(crc, file, st, a, reports, target, total)
    ensures var (p, st') := ReadPhysical(crc, file, st);
      match Assemble(a, p, st'.pos)
      case Finish(result, more) => target.0 == result && target.1 == st' && total == reports + more
      case Continue(next, more) => Heading(crc, file, st', next, reports + more, target, total)
  {
  }

  lemma {:induction false} ReadPhysicalCases(crc: Checksum, file: Slice, st: ReadState)
    requires st.In(file)
    ensures st.end - st.pos < HEADER_SIZE && !st.eof ==>
      ReadPhysical(crc, file, st) == ReadPhysical(crc, file, Refill(file, st))
    ensures st.end - st.pos < HEADER_SIZE && st.eof ==>
      ReadPhysical(crc, file, st) == (Eof, ReadState(st.end, st.end, true))
    ensures st.end - st.pos >= HEADER_SIZE ==>
      var p := Parse(crc, file[st.pos..st.end], st.eof);
      ReadPhysical(crc, file, st) == (p, st.(pos := if p.Piece? then st.pos + HEADER_SIZE + |p.payload| else st.end))
  {
  }

  // ---------- The reader ----------

  class Reader {
    const crc: Checksum
    const file: Slice
    var buffer: Slice
    var endOfBufferOffset: nat
    var eof: bool
    var lastRecordOffset: nat
    var reports: seq<nat>          // what the reporter was told, in bytes

    ghost predicate Valid()
      reads `buffer, `endOfBufferOffset, `eof
    {
      && |buffer| <= endOfBufferOffset <= |file|
      && buffer == file[endOfBufferOffset - |buffer|..endOfBufferOffset]
      && (eof ==> endOfBufferOffset == |file|)
    }

    ghost function State(): (st: ReadState)
      requires Valid()
      reads `buffer, `endOfBufferOffset, `eof
      ensures st.In(file)
    {
      ReadState(endOfBufferOffset - |buffer|, endOfBufferOffset, eof)
    }

    constructor (crc: Checksum, file: Slice)
      ensures Valid() && this.crc == crc && this.file == file
      ensures State() == ReadState(0, 0, false) && reports == []
    {
      this.crc, this.file := crc, file;
      buffer, endOfBufferOffset, eof, lastRecordOffset, reports := [], 0, false, 0, [];
      new;
      assert Valid();
    }

    /** What ReadPhysicalRecord returns for a physical result. */
    twostate predicate Returned(p: PhysicalResult, t: Byte, fragment: Slice)
      reads `reports
    {
      match p
      case Eof => t == EOF_RESULT && reports == old(reports)
      case Bad(dropped) => t == BAD_RESULT && reports == old(reports) + if dropped.Some? then [dropped.value] else []
      case Piece(t', payload) => t == t' && fragment == payload && reports == old(reports)
    }

    /** The part of ReadPhysicalRecord that looks at the header. */
    method ParseHeader() returns (t: Byte, fragment: Slice)
      requires Valid() && |buffer| >= HEADER_SIZE
      modifies this`buffer, this`reports
      ensures Valid()
      ensures var p, st := Parse(crc, file[old(State()).pos..old(State()).end], eof), old(State());
        && Returned(p, t, fragment)
        && State() == st.(pos := if p.Piece? then st.pos + HEADER_SIZE + |p.payload| else st.end)
    {
      var header := buffer;
      var length := HeaderLength(header);
      if HEADER_SIZE + length > |buffer| {
        var dropSize := |buffer|;
        buffer := [];
        if !eof {
          reports := reports + [dropSize];
          return BAD_RESULT, [];
        }
        return EOF_RESULT, [];
      }
      if header[6] == ZERO_TYPE && length == 0 {
        buffer := [];
        return BAD_RESULT, [];
      }
      if crc(header[6..HEADER_SIZE + length]) != DecodeFixed(header[..4]) {
        var dropSize := |buffer|;
        buffer := [];
        reports := reports + [dropSize];
        return BAD_RESULT, [];
      }
      buffer := buffer[HEADER_SIZE + length..];
      return header[6], header[HEADER_SIZE..HEADER_SIZE + length];
    }

    method DropBuffer()
      requires Valid()
      modifies this`buffer
      ensures Valid() && State() == old(State()).(pos := endOfBufferOffset)
    {
      buffer := [];
    }

    /** Replaces the buffer by the next block of the file. */
    method ReadBlock()
      requires Valid() && !eof
      modifies this`buffer, this`endOfBufferOffset, this`eof
      ensures Valid() && State() == Refill(file, old(State()))
    {
      var end := if endOfBufferOffset + BLOCK_SIZE <= |file| then endOfBufferOffset + BLOCK_SIZE else |file|;
      buffer := file[endOfBufferOffset..end];
      endOfBufferOffset := end;
      if |buffer| < BLOCK_SIZE {
        eof := true;
      }
    }

    method ReadPhysicalRecord() returns (t: Byte, fragment: Slice)
      requires Valid()
      modifies this`buffer, this`endOfBufferOffset, this`eof, this`reports
      ensures Valid()
      ensures var r := ReadPhysical(crc, file, old(State())); State() == r.1 && Returned(r.0, t, fragment)
    {
      hide Parse, ReadPhysical;
      while |buffer| < HEADER_SIZE
        invariant Valid() && reports == old(reports)
        invariant ReadPhysical(crc, file, State()) == ReadPhysical(crc, file, old(State()))
        decreases |file| - endOfBufferOffset, !eof
      {
        ReadPhysicalCases(crc, file, State());
        if eof {
          DropBuffer();
          return EOF_RESULT, [];
        }
        ReadBlock();
      }
      ReadPhysicalCases(crc, file, State());
      t, fragment := ParseHeader();
    }

    method ReadRecord() returns (ok: bool, record: Slice)
      requires Valid()
      modifies this
      ensures Valid()
      ensures var r := ReadLogical(crc, file, old(State()), FRESH);
        && State() == r.1 && reports == old(reports) + r.2
        && (match r.0
            case End => !ok && lastRecordOffset == old(lastRecordOffset)
            case Record(data, offset) => ok && record == data && lastRecordOffset == offset)
    {
      hide ReadPhysical, ReadLogical, Heading, Valid;
      var inFragmentedRecord, scratch := false, [];
      var prospective: nat := 0;
      ghost var target := ReadLogical(crc, file, State(), FRESH);
      ghost var total := reports + target.2;
      HeadingStarts(crc, file, State(), reports);
      while true
        invariant Valid() && lastRecordOffset == old(lastRecordOffset)
        invariant Heading(crc, file, State(), Assembly(inFragmentedRecord, scratch, prospective), reports, target,
            total)
        decreases |file| - endOfBufferOffset + |buffer|
      {
        HeadingStep(crc, file, State(), Assembly(inFragmentedRecord, scratch, prospective), reports, target, total);
        ghost var before, physical := reports, ReadPhysical(crc, file, State());
        ghost var step := Assemble(Assembly(inFragmentedRecord, scratch, prospective), physical.0, physical.1.pos);
        var t, fragment := ReadPhysicalRecord();
        var physicalRecordOffset := endOfBufferOffset - |buffer| - HEADER_SIZE - |fragment|;
        if t == FULL_TYPE {
          if inFragmentedRecord && scratch != [] {
            reports := reports + [|scratch|];
          }
          lastRecordOffset := physicalRecordOffset;
          return true, fragment;
        } else if t == FIRST_TYPE {
          if inFragmentedRecord && scratch != [] {
            reports := reports + [|scratch|];
          }
          prospective := physicalRecordOffset;
          scratch := fragment;
          inFragmentedRecord := true;
        } else if t == MIDDLE_TYPE {
          if !inFragmentedRecord {
            reports := reports + [|fragment|];
          } else {
            scratch := scratch + fragment;
          }
        } else if t == LAST_TYPE {
          if !inFragmentedRecord {
            reports := reports + [|fragment|];
          } else {
            scratch := scratch + fragment;
            lastRecordOffset := prospective;
            return true, scratch;
          }
        } else if t == EOF_RESULT {
          return false, [];
        } else if t == BAD_RESULT {
          if inFragmentedRecord {
            reports := reports + [|scratch|];
            inFragmentedRecord := false;
            scratch := [];
          }
        } else {
          reports := reports + [|fragment| + if inFragmentedRecord then |scratch| else 0];
          inFragmentedRecord := false;
          scratch := [];
        }
        assert step.Continue? && step.next == Assembly(inFragmentedRecord, scratch, prospective);
        assert reports == before + step.reports;
      }
    }
  }
}
