/** The entries that recovery finds in the bytes of a log. */
module LogContents {
  import opened DbFormat
  import opened MultiVersion
  import opened Log
  import opened LogProofs
  import opened LogDamage
  import opened WriteBatch

  /** The checksum of the build: any function. */
  const CRC: Checksum

  // ---------- One record ----------

  function ToEntry(op: Op, seqno: Sequence): Entry {
    match op
    case Put(key, value) => Entry(key, PackSequenceAndType(seqno, TYPE_VALUE), value)
    case Delete(key) => Entry(key, PackSequenceAndType(seqno, TYPE_DELETION), [])
  }

  /** MemTableInserter: the operations are numbered upwards from the first number. */
  function Inserted(first: nat, ops: seq<Op>): (es: seq<Entry>)
    ensures |es| == |ops|
  {
    seq(|ops|, i requires 0 <= i < |ops| => ToEntry(ops[i], (first + i) % (MAX_SEQUENCE + 1)))
  }

  /** What RecoverLogFile inserts for a record: all operations up to the first bad
      one, even if the batch is not accepted.  Shorter records are skipped. */
  function BatchEntries(record: Slice): seq<Entry> {
    if |record| < BATCH_HEADER then [] else Inserted(DecodeFixed(record[..8]), Iterate(record).0)
  }

  /** The entries of a batch have the next sequence numbers, in order. */
  ghost predicate IsBatch(last: Sequence, batch: seq<Entry>) {
    && last + |batch| <= MAX_SEQUENCE
    && forall i :: 0 <= i < |batch| ==> batch[i].Parses() && batch[i].Seqno() == last + 1 + i
  }

  lemma EntriesParse(record: Slice)
    ensures forall e :: e in BatchEntries(record) ==> e.Parses()
  {
    hide Iterate, DecodeFixed;
  }

  /** The record of a batch that was built from operations that fit, and given the
      next sequence number, is read as those operations with the next numbers. */
  lemma BuiltBatch(rep: Slice, ops: seq<Op>, last: Sequence)
    requires IsRep(rep, ops) && AllFit(ops)
    requires DecodeFixed(rep[..8]) == last + 1 && last + |ops| <= MAX_SEQUENCE
    ensures BatchEntries(rep) == Inserted(last + 1, ops) && IsBatch(last, BatchEntries(rep))
  {
    hide IsRep, AllFit, Iterate, DecodeFixed;
    IteratesAsBuiltIff(rep, ops);
    assert |rep| >= BATCH_HEADER by { RepHasHeader(rep, ops); }
  }

  lemma RepHasHeader(rep: Slice, ops: seq<Op>)
    requires IsRep(rep, ops)
    ensures |rep| >= BATCH_HEADER
  {
  }

  // ---------- A file ----------

  /** The batches of the records that are read from a file. */
  function Batches(file: Slice): seq<seq<Entry>> {
    var got := ReadAll(CRC, file, START).0;
    seq(|got|, i requires 0 <= i < |got| => BatchEntries(got[i].0))
  }

  function Concat(batches: seq<seq<Entry>>): seq<Entry> {
    if batches == [] then [] else Concat(batches[..|batches| - 1]) + batches[|batches| - 1]
  }

  /** All that is found in a file. */
  function Contents(file: Slice): seq<Entry> {
    Concat(Batches(file))
  }

  lemma {:induction false} ConcatAppend(batches: seq<seq<Entry>>, batch: seq<Entry>)
    ensures Concat(batches + [batch]) == Concat(batches) + batch
  {
    assert (batches + [batch])[..|batches|] == batches;
  }

  lemma {:induction false} ConcatConcat(a: seq<seq<Entry>>, b: seq<seq<Entry>>)
    ensures Concat(a + b) == Concat(a) + Concat(b)
    decreases |b|
  {
    if b == [] {
      assert a + b == a;
    } else {
      var n := |b| - 1;
      ConcatConcat(a, b[..n]);
      assert (a + b)[..|a + b| - 1] == a + b[..n];
      assert Concat(a) + Concat(b[..n]) + b[n] == Concat(a) + (Concat(b[..n]) + b[n]);
    }
  }

  lemma {:induction false} ConcatHolds(batches: seq<seq<Entry>>, i: nat)
    requires i < |batches|
    ensures forall e :: e in batches[i] ==> e in Concat(batches)
    decreases |batches|
  {
    var n := |batches| - 1;
    if i < n {
      ConcatHolds(batches[..n], i);
    }
  }

  /** A longer file has the contents of a shorter one, and more behind them. */
  lemma {:induction false} ContentsGrow(f: Slice, g: Slice)
    requires f <= g
    ensures Batches(f) <= Batches(g) && Contents(f) <= Contents(g)
  {
    hide ReadAll, BatchEntries, Concat;
    ReadingIsMonotone(CRC, f, g);
    var n := |Batches(f)|;
    assert Batches(f) == Batches(g)[..n];
    ConcatConcat(Batches(f), Batches(g)[n..]);
    assert Batches(g) == Batches(f) + Batches(g)[n..];
  }

  lemma {:induction false} ContentsParse(file: Slice)
    ensures forall e :: e in Contents(file) ==> e.Parses()
  {
    hide ReadAll, BatchEntries, Concat;
    var got := ReadAll(CRC, file, START).0;
    forall i | 0 <= i < |got|
      ensures forall e :: e in Batches(file)[i] ==> e.Parses()
    {
      EntriesParse(got[i].0);
    }
    ConcatParses(Batches(file));
  }

  lemma {:induction false} ConcatParses(batches: seq<seq<Entry>>)
    requires forall i, e :: 0 <= i < |batches| && e in batches[i] ==> e.Parses()
    ensures forall e :: e in Concat(batches) ==> e.Parses()
  {
    if batches != [] {
      var n := |batches| - 1;
      assert forall i :: 0 <= i < n ==> batches[..n][i] == batches[i];
      ConcatParses(batches[..n]);
    }
  }

  /** The file of a log to which these records were added is read as all of them. */
  lemma {:induction false} BatchesOfLog(rs: seq<Slice>)
    ensures |Batches(LogBytes(CRC, rs, 0))| == |rs|
    ensures forall i :: 0 <= i < |rs| ==> Batches(LogBytes(CRC, rs, 0))[i] == BatchEntries(rs[i])
  {
    hide ReadAll, BatchEntries, LogBytes;
    RoundTrip(CRC, rs);
  }

  /** One more record at the end of an undamaged log. */
  lemma {:induction false} ContentsOfLonger(rs: seq<Slice>, record: Slice)
    ensures Contents(LogBytes(CRC, rs + [record], 0)) == Contents(LogBytes(CRC, rs, 0)) + BatchEntries(record)
  {
    hide ReadAll, BatchEntries, LogBytes, Concat;
    BatchesOfLog(rs);
    BatchesOfLog(rs + [record]);
    var before := Batches(LogBytes(CRC, rs, 0));
    assert Batches(LogBytes(CRC, rs + [record], 0)) == before + [BatchEntries(record)];
    ConcatAppend(before, BatchEntries(record));
  }

  /** A record cut off at the end of an undamaged log is not found, or as a whole. */
  lemma {:induction false} ContentsOfCut(rs: seq<Slice>, record: Slice, k: nat)
    requires k <= |Emitted(CRC, record, OffsetAfterAll(rs, 0), true)|
    ensures var found := Contents(LogBytes(CRC, rs, 0) + Emitted(CRC, record, OffsetAfterAll(rs, 0), true)[..k]);
      var before := Contents(LogBytes(CRC, rs, 0)); found == before || found == before + BatchEntries(record)
  {
    hide ReadAll, BatchEntries, LogBytes, Concat, Emitted, OffsetAfterAll;
    var log, whole := LogBytes(CRC, rs, 0), LogBytes(CRC, rs + [record], 0);
    LogBytesOne(rs, record);
    var cut := log + Emitted(CRC, record, OffsetAfterAll(rs, 0), true)[..k];
    assert log <= cut <= whole;
    ContentsGrow(log, cut);
    ContentsGrow(cut, whole);
    BatchesOfLog(rs);
    BatchesOfLog(rs + [record]);
    ContentsOfLonger(rs, record);
    if |Batches(cut)| == |rs| {
      assert Batches(cut) == Batches(log);
    } else {
      assert Batches(cut) == Batches(whole);
    }
  }

  lemma {:induction false} LogBytesOne(rs: seq<Slice>, record: Slice)
    ensures LogBytes(CRC, rs + [record], 0) == LogBytes(CRC, rs, 0) + Emitted(CRC, record, OffsetAfterAll(rs, 0), true)
    ensures OffsetAfterAll(rs + [record], 0) == OffsetAfter(record, OffsetAfterAll(rs, 0))
  {
    hide Emitted, OffsetAfter;
    LogBytesAppend(CRC, rs, [record], 0);
    var off := OffsetAfterAll(rs, 0);
    assert [record][1..] == [] && LogBytes(CRC, [], OffsetAfter(record, off)) == [];
    assert LogBytes(CRC, [record], off) == Emitted(CRC, record, off, true) + [] == Emitted(CRC, record, off, true);
    OffsetsAppend(rs, record, 0);
  }

  lemma {:induction false} OffsetsAppend(rs: seq<Slice>, record: Slice, off: BlockOffset)
    ensures OffsetAfterAll(rs + [record], off) == OffsetAfter(record, OffsetAfterAll(rs, off))
    decreases |rs|
  {
    hide OffsetAfter;
    if rs == [] {
      assert rs + [record] == [record] && [record][1..] == [];
    } else {
      assert (rs + [record])[1..] == rs[1..] + [record];
      OffsetsAppend(rs[1..], record, OffsetAfter(rs[0], off));
    }
  }
}
