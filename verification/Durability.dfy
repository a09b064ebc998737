/** Memtable rotation, flush, version commits, deletion of obsolete files, and
    recovery after a crash, as steps of one state machine.  Logs are the bytes that
    the writer leaves and the reader reads. */
module Durability {
  import opened DbFormat
  import opened MultiVersion
  import opened Compaction
  import opened Log
  import LogProofs
  import LogDamage
  import opened LogContents
  import WriteBatch

  // ---------- Files and versions ----------

  /** A log file, the writer's block offset, and how much of it is on stable
      storage.  `added` are the records added to it; once an append has failed the
      log is damaged and they no longer account for all its bytes. */
  datatype LogFile = LogFile(file: Slice, offset: BlockOffset, synced: nat, added: seq<Slice>, damaged: bool)

  const EMPTY_LOG := LogFile([], 0, 0, [], false)

  ghost predicate LogOk(log: LogFile) {
    && log.synced <= |log.file|
    && (!log.damaged ==>
          && log.file == LogProofs.LogBytes(CRC, log.added, 0)
          && log.offset == LogProofs.OffsetAfterAll(log.added, 0))
  }

  /** A reader of the file finds the entry. */
  predicate InLog(log: LogFile, e: Entry) { e in Contents(log.file) }

  /** A reader finds it in what is on stable storage. */
  predicate InSyncedLog(log: LogFile, e: Entry) {
    log.synced <= |log.file| && e in Contents(log.file[..log.synced])
  }

  /** A version: its table files, the oldest log it still needs, and the last
      sequence number recorded with it.  `covers` are the entries flushed into
      its tables over time, none with a sequence number above `top`; `contents`
      are those still there, which compaction makes fewer. */
  datatype Version = Version(files: set<nat>, logNumber: nat, last: Sequence, top: Sequence, covers: seq<Entry>,
      contents: seq<Entry>)

  datatype Flush =
    | Idle
    | Building(table: nat)                              // mutex released, table being written
    | Committing(newTable: Option<nat>, logNumber: nat) // mutex released, manifest being written

  datatype State = State(
    logs: map<nat, LogFile>,
    tables: map<nat, seq<Entry>>,
    current: Version,              // the version in memory
    manifest: Version,             // the version a restart would find
    logfileNumber: nat,
    nextFile: nat,
    mem: seq<Entry>,
    imm: Option<seq<Entry>>,
    immTop: Sequence,              // LastSequence when the memtable was last switched
    flush: Flush,
    pending: set<nat>,             // pending_outputs_
    lastSequence: Sequence,        // what readers see
    issued: Sequence,              // the last number given to a batch, published when its write ends
    bgError: bool,
    commitFailed: bool,            // the error was a manifest write; commits have stopped
    floor: Sequence,               // largest smallest_snapshot any compaction used
    acked: seq<Entry>,             // entries of batches whose write succeeded, found by a reader of the log
    synced: seq<Entry>,            // those of them written with sync set
    hidden: seq<Entry>)            // entries of batches whose write succeeded, not found by a reader

  function Imm(imm: Option<seq<Entry>>): seq<Entry> {
    if imm.Some? then imm.value else []
  }

  // ---------- Steps ----------

  datatype Step =
    | Write(record: Slice, trailer: Slice, sync: bool)   // logged, synced if asked, and inserted, without the mutex
    | WriteFails(record: Slice, trailer: Slice, cut: nat, offset: BlockOffset)   // AddRecord fails; no background error
    | WriteSyncFails(record: Slice, trailer: Slice)
    | WriteEnds                                  // LastSequence moves past the batch, whatever its status
    | Rotate                                     // MakeRoomForWrite switches memtables
    | FlushStart
    | FlushBuilt
    | FlushFails
    | FlushCommits
    | FlushCommitFails(durable: bool)            // the manifest write fails, maybe after reaching disk
    | CompactionOutput(es: seq<Entry>)
    | CompactionCommits(inputs: set<nat>, outputs: set<nat>, contents: seq<Entry>, smallest: Sequence)
    | CompactionCommitFails(inputs: set<nat>, outputs: set<nat>, contents: seq<Entry>, smallest: Sequence,
        durable: bool)
    | DeleteObsoleteFiles(live: set<nat>)
    | CrashAndRecover(crash: Crash)

  /** What a crash leaves and recovery makes of it: the bytes of each log, the
      tables built from all that is found in them, tables left over from recoveries
      that crashed themselves, and the new log. */
  datatype Crash = Crash(left: map<nat, Slice>, made: map<nat, seq<Entry>>, orphans: map<nat, seq<Entry>>, newLog: nat)

  predicate IsWrite(step: Step) { step.Write? || step.WriteFails? || step.WriteSyncFails? }

  /** A write has been logged and its sequence numbers are not published yet. */
  predicate Writing(s: State) { s.lastSequence != s.issued }

  ghost predicate Holds(tables: map<nat, seq<Entry>>, files: set<nat>, contents: seq<Entry>) {
    && (forall f :: f in files ==> f in tables)
    && (forall f, e :: f in files && f in tables && e in tables[f] ==> e in contents)
    && (forall e :: e in contents ==> exists f :: f in files && f in tables && e in tables[f])
  }

  /** Every entry of upper is newer than every entry of es. */
  ghost predicate AllNewer(upper: seq<Entry>, es: seq<Entry>) {
    forall u, e :: u in upper && e in es ==> u.Seqno() > e.Seqno()
  }

  /** Whatever newer entries lie on top, es can be replaced by es'. */
  ghost predicate Replaces(cmp: Comparator, es: seq<Entry>, es': seq<Entry>, smallest: Sequence) {
    && (forall e :: e in es' ==> e in es)
    && forall upper :: AllNewer(upper, es) ==> SameReads(cmp, upper + es, upper + es', smallest)
  }

  /** What a write may find of a block trailer it put before its record. */
  predicate TrailerLeft(offset: BlockOffset, trailer: Slice) { trailer <= Trailer(offset) }

  ghost predicate WritePossible(s: State, record: Slice, trailer: Slice) {
    && !Writing(s) && IsBatch(s.issued, BatchEntries(record))
    && (s.logfileNumber in s.logs ==> TrailerLeft(s.logs[s.logfileNumber].offset, trailer))
  }

  ghost predicate CompactionPossible(s: State, inputs: set<nat>, outputs: set<nat>, contents: seq<Entry>,
      smallest: Sequence) {
    && s.flush.Idle? && !s.commitFailed && inputs <= s.current.files && outputs <= s.pending
    && outputs !! s.current.files
    && s.floor <= smallest <= s.lastSequence
    && Holds(s.tables, s.current.files - inputs + outputs, contents)
  }

  /** A crash keeps the synced part of each log, and anything may be behind it. */
  ghost predicate CrashKeeps(logs: map<nat, LogFile>, c: Crash) {
    && c.left.Keys == logs.Keys
    && forall n :: n in logs ==> logs[n].synced <= |logs[n].file| && logs[n].file[..logs[n].synced] <= c.left[n]
  }

  /** It only cuts the logs. */
  ghost predicate CrashCuts(logs: map<nat, LogFile>, c: Crash) {
    forall n :: n in logs && n in c.left ==> c.left[n] <= logs[n].file
  }

  /** When the program can take the step. */
  ghost predicate Possible(s: State, step: Step) {
    match step
    case Write(record, trailer, sync) => WritePossible(s, record, trailer)
    case WriteFails(record, trailer, cut, offset) => WritePossible(s, record, trailer)
    case WriteSyncFails(record, trailer) => WritePossible(s, record, trailer)
    case WriteEnds => true
    case Rotate => !Writing(s) && s.imm.None? && !s.bgError
    case FlushStart => s.imm.Some? && s.flush.Idle? && !s.commitFailed
    case FlushBuilt => s.flush.Building?
    case FlushFails => s.flush.Building?
    case FlushCommits => s.flush.Committing?
    case FlushCommitFails(durable) => s.flush.Committing?
    case CompactionOutput(es) => s.flush.Idle?
    case CompactionCommits(inputs, outputs, contents, smallest) =>
        CompactionPossible(s, inputs, outputs, contents, smallest)
    case CompactionCommitFails(inputs, outputs, contents, smallest, durable) =>
        CompactionPossible(s, inputs, outputs, contents, smallest)
    case DeleteObsoleteFiles(live) => s.flush.Idle? && !s.bgError && s.current.files <= live
    case CrashAndRecover(c) =>
      && CrashKeeps(s.logs, c)
      && s.nextFile <= c.newLog
      && (forall f :: f in c.made.Keys + c.orphans.Keys ==> s.nextFile <= f < c.newLog)
      && c.made.Keys !! c.orphans.Keys
      && Holds(c.made, c.made.Keys, Replay(Surviving(s.logs, c), s.manifest.logNumber, s.nextFile))
  }

  /** Reads of the database depend on more: a reader of a log finds no record that
      was not written, a crash only cuts the logs, and compaction changes no read. */
  ghost predicate Enabled(cmp: Comparator, s: State, step: Step) {
    && Possible(s, step)
    && match step
       case CompactionCommits(inputs, outputs, contents, smallest) =>
           Replaces(cmp, s.current.contents, contents, smallest)
       case CompactionCommitFails(inputs, outputs, contents, smallest, durable) =>
           Replaces(cmp, s.current.contents, contents, smallest)
       case CrashAndRecover(c) => CrashCuts(s.logs, c)
       case _ => IsWrite(step) && s.logfileNumber in s.logs ==> NoStrays(s.logs[s.logfileNumber], step)
  }

  /** The reader of the log finds nothing more than before, or just the new batch. */
  ghost predicate NoStrays(log: LogFile, step: Step)
    requires IsWrite(step)
  {
    var found := Contents(Logged(log, step).file);
    found == Contents(log.file) || found == Contents(log.file) + BatchEntries(step.record)
  }

  // ---------- Recovery ----------

  function Surviving(logs: map<nat, LogFile>, c: Crash): map<nat, LogFile> {
    map n | n in logs ::
      if n in c.left then LogFile(c.left[n], 0, |c.left[n]|, [], true) else logs[n]
  }

  /** The logs numbered lo .. hi - 1, replayed in the order they were made. */
  function Replay(logs: map<nat, LogFile>, lo: nat, hi: nat): seq<Entry>
    decreases hi - lo
  {
    if lo >= hi then []
    else (if lo in logs then Contents(logs[lo].file) else []) + Replay(logs, lo + 1, hi)
  }

  function MaxSeqno(es: seq<Entry>, base: Sequence): Sequence {
    if es == [] then base
    else
      var m := MaxSeqno(es[..|es| - 1], base);
      if es[|es| - 1].Seqno() > m then es[|es| - 1].Seqno() else m
  }

  // ---------- The next state ----------

  /** What a call of AddRecord leaves, if it succeeds and if it fails. */
  function Logged(log: LogFile, step: Step): LogFile
    requires IsWrite(step)
  {
    var bytes := Emitted(CRC, step.record, HeaderOffset(log.offset), true);
    if step.WriteFails? then
      LogFile(log.file + step.trailer + (if step.cut <= |bytes| then bytes[..step.cut] else bytes), step.offset,
          log.synced, log.added, true)
    else
      var file := log.file + step.trailer + bytes;
      LogFile(file, OffsetAfter(step.record, log.offset), if step.Write? && step.sync then |file| else log.synced,
              log.added + [step.record], log.damaged || step.trailer != Trailer(log.offset))
  }

  function FlushedVersion(s: State): Version
    requires s.flush.Committing?
  {
    Version(s.current.files + (if s.flush.newTable.Some? then {s.flush.newTable.value} else {}), s.flush.logNumber,
            s.lastSequence, s.immTop, s.current.covers + Imm(s.imm), s.current.contents + Imm(s.imm))
  }

  function CompactedVersion(s: State, inputs: set<nat>, outputs: set<nat>, contents: seq<Entry>): Version {
    s.current.(files := s.current.files - inputs + outputs, contents := contents, last := s.lastSequence)
  }

  function Recovered(s: State, c: Crash): State {
    var logs := Surviving(s.logs, c);
    var replay := Replay(logs, s.manifest.logNumber, s.nextFile);
    var last := MaxSeqno(replay, s.manifest.last);
    var v := Version(s.manifest.files + c.made.Keys, c.newLog, last, last, s.manifest.covers + replay,
        s.manifest.contents + replay);
    State(logs[c.newLog := EMPTY_LOG], s.tables + c.orphans + c.made, v, v, c.newLog, c.newLog + 1, [], None, last,
        Idle, {}, last, last,
          false, false, s.floor, v.covers, s.synced, [])
  }

  function AfterWrite(s: State, step: Step): State
    requires IsWrite(step)
  {
    var n, batch := s.logfileNumber, BatchEntries(step.record);
    if n !in s.logs || s.issued + |batch| > MAX_SEQUENCE then s
    else
      var log := Logged(s.logs[n], step);
      var s' := s.(logs := s.logs[n := log], issued := s.issued + |batch|);
      if step.WriteFails? then s'
      else if step.WriteSyncFails? then s'.(bgError := true)
      else if forall e :: e in batch ==> InLog(log, e) then
        s'.(mem := s.mem + batch, acked := s.acked + batch, synced := if step.sync then s.synced + batch else s.synced)
      else
        s'.(mem := s.mem + batch, hidden := s.hidden + batch)
  }

  function Next(s: State, step: Step): State {
    match step
    case Write(record, trailer, sync) => AfterWrite(s, step)
    case WriteFails(record, trailer, cut, offset) => AfterWrite(s, step)
    case WriteSyncFails(record, trailer) => AfterWrite(s, step)
    case WriteEnds =>
      s.(lastSequence := s.issued)
    case Rotate =>
      s.(logs := s.logs[s.nextFile := EMPTY_LOG], logfileNumber := s.nextFile, nextFile := s.nextFile + 1,
         imm := Some(s.mem), immTop := s.lastSequence, mem := [])
    case FlushStart =>
      s.(flush := Building(s.nextFile), pending := s.pending + {s.nextFile}, nextFile := s.nextFile + 1)
    case FlushBuilt =>
      if !s.flush.Building? then s
      else if Imm(s.imm) == [] then
        s.(flush := Committing(None, s.logfileNumber), pending := s.pending - {s.flush.table})
      else
        s.(flush := Committing(Some(s.flush.table), s.logfileNumber), pending := s.pending - {s.flush.table},
           tables := s.tables[s.flush.table := Imm(s.imm)])
    case FlushFails =>
      if !s.flush.Building? then s
      else s.(flush := Idle, pending := s.pending - {s.flush.table}, bgError := true)
    case FlushCommits =>
      if !s.flush.Committing? then s
      else s.(flush := Idle, current := FlushedVersion(s), manifest := FlushedVersion(s), imm := None)
    case FlushCommitFails(durable) =>
      if !s.flush.Committing? then s
      else
        s.(flush := Idle, manifest := if durable then FlushedVersion(s) else s.manifest,
           bgError := true, commitFailed := true)
    case CompactionOutput(es) =>
      s.(tables := s.tables[s.nextFile := es], pending := s.pending + {s.nextFile}, nextFile := s.nextFile + 1)
    case CompactionCommits(inputs, outputs, contents, smallest) =>
      var v := CompactedVersion(s, inputs, outputs, contents);
      s.(current := v, manifest := v, pending := s.pending - outputs, floor := smallest)
    case CompactionCommitFails(inputs, outputs, contents, smallest, durable) =>
      var v := CompactedVersion(s, inputs, outputs, contents);
      s.(manifest := if durable then v else s.manifest, pending := s.pending - outputs,
         floor := if durable then smallest else s.floor,
         bgError := true, commitFailed := true)
    case DeleteObsoleteFiles(live) =>
      s.(logs := map n | n in s.logs && (n >= s.current.logNumber || n == 0) :: s.logs[n],
         tables := map f | f in s.tables && (f in live || f in s.pending) :: s.tables[f])
    case CrashAndRecover(c) => Recovered(s, c)
  }

  // ---------- What holds whatever is read from a damaged log ----------

  ghost predicate FilesOk(tables: map<nat, seq<Entry>>, nextFile: nat, v: Version) {
    Holds(tables, v.files, v.contents) && forall f :: f in v.files ==> f < nextFile
  }

  ghost predicate LogsOk(logs: map<nat, LogFile>, logfileNumber: nat, nextFile: nat) {
    && logfileNumber in logs && logfileNumber < nextFile
    && forall n :: n in logs ==> n <= logfileNumber && LogOk(logs[n])
  }

  ghost predicate FlushOk(s: State) {
    && (s.flush.Building? ==>
          s.imm.Some? && !s.commitFailed && s.flush.table < s.nextFile && s.flush.table !in s.current.files)
    && (s.flush.Committing? ==>
          && s.imm.Some? && !s.commitFailed && s.flush.logNumber == s.logfileNumber
          && (match s.flush.newTable
              case None => s.imm.value == []
              case Some(t) =>
                  && t < s.nextFile && t !in s.current.files && t !in s.pending && t in s.tables
                  && s.tables[t] == s.imm.value))
    && (s.commitFailed ==> s.bgError)
    && (!s.commitFailed ==> s.current == s.manifest)
    && (forall p :: p in s.pending ==> p < s.nextFile && p !in s.current.files)
  }

  /** The version and the logs it needs hold the entry. */
  ghost predicate Held(logs: map<nat, LogFile>, v: Version, e: Entry) {
    e in v.covers || exists n :: n in logs && v.logNumber <= n && InLog(logs[n], e)
  }

  /** The same, counting only what is on stable storage. */
  ghost predicate HeldSynced(logs: map<nat, LogFile>, v: Version, e: Entry) {
    e in v.covers || exists n :: n in logs && v.logNumber <= n && InSyncedLog(logs[n], e)
  }

  /** No acknowledged write is lost: a restart from either version would find it. */
  ghost predicate NothingLost(logs: map<nat, LogFile>, v: Version, acked: seq<Entry>, synced: seq<Entry>) {
    && (forall e :: e in acked ==> Held(logs, v, e))
    && (forall e :: e in synced ==> HeldSynced(logs, v, e))
  }

  /** Where acknowledged entries are while the database is running. */
  ghost predicate Placed(s: State) {
    s.logfileNumber in s.logs ==>
      var log := s.logs[s.logfileNumber];
      && (forall e :: e in s.acked ==> e in s.current.covers || e in Imm(s.imm) || (e in s.mem && InLog(log, e)))
      && (forall e :: e in s.synced ==> e in s.current.covers || e in Imm(s.imm) || (e in s.mem && InSyncedLog(log, e)))
      && (forall e :: e in s.hidden ==> e in s.current.covers || e in Imm(s.imm) || e in s.mem)
  }

  ghost predicate Safe(s: State) {
    && FilesOk(s.tables, s.nextFile, s.current) && FilesOk(s.tables, s.nextFile, s.manifest)
    && LogsOk(s.logs, s.logfileNumber, s.nextFile)
    && s.current.logNumber <= s.logfileNumber && s.manifest.logNumber <= s.logfileNumber
    && FlushOk(s)
    && NothingLost(s.logs, s.current, s.acked, s.synced)
    && NothingLost(s.logs, s.manifest, s.acked, s.synced)
    && Placed(s)
  }

  // ---------- What holds if nothing strays into a log ----------

  ghost predicate VersionOk(cmp: Comparator, floor: Sequence, v: Version) {
    && Replaces(cmp, v.covers, v.contents, floor)
    && v.top <= v.last
    && (forall e :: e in v.covers ==> e.Seqno() <= v.top)
    && (forall e :: e in v.contents ==> e.Parses())
  }

  /** The logs a version needs hold only entries newer than its tables. */
  ghost predicate LogsNewer(logs: map<nat, LogFile>, v: Version, last: Sequence) {
    forall n, e :: n in logs && v.logNumber <= n && InLog(logs[n], e) ==> v.top < e.Seqno() <= last
  }

  /** The memtable and its log are newer than imm, and imm is newer than the tables. */
  ghost predicate MemOk(logs: map<nat, LogFile>, logfileNumber: nat, mem: seq<Entry>, imm: seq<Entry>, immTop: Sequence,
                        last: Sequence, current: Version, manifest: Version) {
    && logfileNumber in logs
    && (forall e :: e in mem ==> e.Parses() && immTop < e.Seqno() <= last)
    && (forall e :: InLog(logs[logfileNumber], e) ==> e.Seqno() > immTop)
    && (forall e :: e in imm ==> e.Parses() && current.top < e.Seqno() <= immTop)
    && current.top <= immTop && manifest.top <= immTop
  }

  /** Entries that no reader finds are in no log that a restart would replay. */
  ghost predicate HiddenOk(s: State) {
    && (forall e :: e in s.hidden ==> e.Seqno() <= s.issued)
    && (forall e, n :: e in s.hidden && n in s.logs && s.manifest.logNumber <= n ==> !InLog(s.logs[n], e))
  }

  ghost predicate InOrder(cmp: Comparator, s: State) {
    && VersionOk(cmp, s.floor, s.current) && VersionOk(cmp, s.floor, s.manifest)
    && LogsNewer(s.logs, s.current, s.issued) && LogsNewer(s.logs, s.manifest, s.issued)
    && MemOk(s.logs, s.logfileNumber, s.mem, Imm(s.imm), s.immTop, s.issued, s.current, s.manifest)
    && s.lastSequence <= s.issued && s.immTop <= s.lastSequence && s.current.last <= s.lastSequence
    && s.manifest.last <= s.lastSequence && s.floor <= s.manifest.last
    && HiddenOk(s)
  }

  ghost predicate Inv(cmp: Comparator, s: State) { Safe(s) && InOrder(cmp, s) }

  // ---------- Reads depend only on membership ----------

  ghost predicate SameMembers(a: seq<Entry>, b: seq<Entry>) {
    forall e :: e in a <==> e in b
  }

  lemma SameMembersSameReads(cmp: Comparator, a: seq<Entry>, b: seq<Entry>, smallest: Sequence)
    requires SameMembers(a, b)
    ensures SameReads(cmp, a, b, smallest)
  {
    forall k: Slice, s: Sequence, r: Option<Slice>
      ensures Reads(cmp, a, k, s, r) <==> Reads(cmp, b, k, s, r)
    {
      forall e
        ensures IsNewest(cmp, a, k, s, e) <==> IsNewest(cmp, b, k, s, e)
      {
      }
    }
  }

  lemma SameReadsChain(cmp: Comparator, a: seq<Entry>, b: seq<Entry>, c: seq<Entry>, low: Sequence, high: Sequence)
    requires low <= high && SameReads(cmp, a, b, low) && SameReads(cmp, b, c, high)
    ensures SameReads(cmp, a, c, high)
  {
  }

  /** Adding the same newer entries to both sides. */
  lemma ReplacesUnder(cmp: Comparator, es: seq<Entry>, es': seq<Entry>, more: seq<Entry>, smallest: Sequence)
    requires Replaces(cmp, es, es', smallest) && AllNewer(more, es)
    ensures Replaces(cmp, es + more, es' + more, smallest)
  {
    forall upper | AllNewer(upper, es + more)
      ensures SameReads(cmp, upper + (es + more), upper + (es' + more), smallest)
    {
      var top := upper + more;
      assert AllNewer(top, es);
      SameMembersSameReads(cmp, upper + (es + more), top + es, smallest);
      SameMembersSameReads(cmp, top + es', upper + (es' + more), smallest);
      SameReadsChain(cmp, upper + (es + more), top + es, top + es', smallest, smallest);
      SameReadsChain(cmp, upper + (es + more), top + es', upper + (es' + more), smallest, smallest);
    }
  }

  lemma ReplacesChain(cmp: Comparator, a: seq<Entry>, b: seq<Entry>, c: seq<Entry>, low: Sequence, high: Sequence)
    requires low <= high && Replaces(cmp, a, b, low) && Replaces(cmp, b, c, high)
    ensures Replaces(cmp, a, c, high)
  {
    forall upper | AllNewer(upper, a)
      ensures SameReads(cmp, upper + a, upper + c, high)
    {
      assert AllNewer(upper, b);
      SameReadsChain(cmp, upper + a, upper + b, upper + c, low, high);
    }
  }

  /** What the compaction loop keeps of some of the tables' entries replaces all of them. */
  lemma {:induction false} CompactionReplaces(cmp: Comparator, isBase: Slice -> bool, upper: seq<Entry>,
      input: seq<Entry>, deeper: seq<Entry>,
                           before: seq<Entry>, after: seq<Entry>, smallest: Sequence)
    requires smallest < MAX_SEQUENCE && Sorted(cmp, input) && IsBaseContract(cmp, isBase, deeper)
    requires Newer(cmp, upper, input) && NothingResurfaces(cmp, isBase, input, smallest)
    requires SameMembers(before, upper + input + deeper)
    requires SameMembers(after, upper + Kept(cmp, isBase, input, smallest, |input|) + deeper)
    ensures Replaces(cmp, before, after, smallest)
  {
    var kept := Kept(cmp, isBase, input, smallest, |input|);
    forall e | e in after
      ensures e in before
    {
      KeptMembers(cmp, isBase, input, smallest, |input|, e);
    }
    forall top | AllNewer(top, before)
      ensures SameReads(cmp, top + before, top + after, smallest)
    {
      var upper' := top + upper;
      CompactionPreservesReads(cmp, isBase, upper', input, deeper, smallest);
      SameMembersSameReads(cmp, top + before, upper' + input + deeper, smallest);
      SameMembersSameReads(cmp, upper' + kept + deeper, top + after, smallest);
      SameReadsChain(cmp, top + before, upper' + input + deeper, upper' + kept + deeper, smallest, smallest);
      SameReadsChain(cmp, top + before, upper' + kept + deeper, top + after, smallest, smallest);
    }
  }

  // ---------- Writing keeps what is held ----------

  /** The logs are as before, but one of them is longer. */
  ghost predicate Grown(logs: map<nat, LogFile>, logs': map<nat, LogFile>, n: nat) {
    && n in logs && logs'.Keys == logs.Keys
    && (forall m :: m in logs && m != n ==> logs'[m] == logs[m])
    && (forall e :: InLog(logs[n], e) ==> InLog(logs'[n], e))
    && (forall e :: InSyncedLog(logs[n], e) ==> InSyncedLog(logs'[n], e))
  }

  /** Whatever an append leaves, nothing that was found is lost by it. */
  lemma {:induction false} LoggedGrows(logs: map<nat, LogFile>, n: nat, step: Step)
    requires IsWrite(step) && n in logs && LogOk(logs[n])
    ensures var log' := Logged(logs[n], step);
      Grown(logs, logs[n := log'], n) && log'.synced <= |log'.file|
    ensures step.Write? && step.sync ==> forall e :: InLog(Logged(logs[n], step), e) ==>
        InSyncedLog(Logged(logs[n], step), e)
  {
    hide Contents, Emitted, OffsetAfter, HeaderOffset, Trailer;
    var log, log' := logs[n], Logged(logs[n], step);
    ContentsGrow(log.file, log'.file);
    ContentsGrow(log.file[..log.synced], log'.file[..log'.synced]);
    assert log'.file[..|log'.file|] == log'.file;
  }

  lemma {:induction false} LoggedOk(log: LogFile, step: Step)
    requires IsWrite(step) && LogOk(log)
    ensures LogOk(Logged(log, step))
  {
    hide Contents, Emitted, OffsetAfter, HeaderOffset, Trailer, LogProofs.LogBytes, LogProofs.OffsetAfterAll;
    if !Logged(log, step).damaged {
      LogBytesOne(log.added, step.record);
      SkipTrailer(CRC, step.record, log.offset, true);
      assert log.file + Trailer(log.offset) + Emitted(CRC, step.record, HeaderOffset(log.offset), true)
          == log.file + (Trailer(log.offset) + Emitted(CRC, step.record, HeaderOffset(log.offset), true));
    }
  }

  lemma GrownKeepsHeld(logs: map<nat, LogFile>, logs': map<nat, LogFile>, n: nat, v: Version, acked: seq<Entry>,
      synced: seq<Entry>)
    requires Grown(logs, logs', n) && NothingLost(logs, v, acked, synced)
    ensures NothingLost(logs', v, acked, synced)
  {
    hide InLog, InSyncedLog;
    forall e | e in acked
      ensures Held(logs', v, e)
    {
      if e !in v.covers {
        var m :| m in logs && v.logNumber <= m && InLog(logs[m], e);
        assert InLog(logs'[m], e);
      }
    }
    forall e | e in synced
      ensures HeldSynced(logs', v, e)
    {
      if e !in v.covers {
        var m :| m in logs && v.logNumber <= m && InSyncedLog(logs[m], e);
        assert InSyncedLog(logs'[m], e);
      }
    }
  }

  lemma BatchIsHeld(logs: map<nat, LogFile>, n: nat, batch: seq<Entry>, sync: bool, v: Version, acked: seq<Entry>,
      synced: seq<Entry>)
    requires n in logs && v.logNumber <= n && NothingLost(logs, v, acked, synced)
    requires forall e :: e in batch ==> InLog(logs[n], e)
    requires sync ==> forall e :: e in batch ==> InSyncedLog(logs[n], e)
    ensures NothingLost(logs, v, acked + batch, if sync then synced + batch else synced)
  {
    hide InLog, InSyncedLog;
    forall e | e in batch
      ensures Held(logs, v, e) && (sync ==> HeldSynced(logs, v, e))
    {
      assert InLog(logs[n], e);
    }
  }

  /** A write, failed or not, loses nothing, whatever it leaves in the log. */
  lemma WriteIsSafe(s: State, step: Step)
    requires Safe(s) && Possible(s, step) && IsWrite(step)
    ensures Safe(Next(s, step))
  {
    hide FilesOk, NothingLost, Logged, InLog, InSyncedLog, LogOk, IsBatch, Grown, BatchEntries, Placed, TrailerLeft;
    var s' := Next(s, step);
    var n := s.logfileNumber;
    LoggedGrows(s.logs, n, step);
    LoggedOk(s.logs[n], step);
    WriteShape(s, step);
    GrownKeepsHeld(s.logs, s'.logs, n, s.current, s.acked, s.synced);
    GrownKeepsHeld(s.logs, s'.logs, n, s.manifest, s.acked, s.synced);
    if s'.acked != s.acked || s'.synced != s.synced {
      BatchIsHeld(s'.logs, n, BatchEntries(step.record), step.sync, s.current, s.acked, s.synced);
      BatchIsHeld(s'.logs, n, BatchEntries(step.record), step.sync, s.manifest, s.acked, s.synced);
    }
    WriteKeepsPlaced(s, step);
  }

  /** What a write changes. */
  lemma WriteShape(s: State, step: Step)
    requires Safe(s) && Possible(s, step) && IsWrite(step)
    ensures var s', n, batch := Next(s, step), s.logfileNumber, BatchEntries(step.record);
      && n in s.logs && s'.logs == s.logs[n := Logged(s.logs[n], step)]
      && s' == s.(logs := s'.logs, issued := s.issued + |batch|, mem := s'.mem, acked := s'.acked, synced := s'.synced,
                  hidden := s'.hidden, bgError := s'.bgError)
      && (s'.bgError == (s.bgError || step.WriteSyncFails?))
      && s'.mem == (if step.Write? then s.mem + batch else s.mem)
      && (var found := step.Write? && forall e :: e in batch ==> InLog(s'.logs[n], e);
          && s'.acked == (if found then s.acked + batch else s.acked)
          && s'.synced == (if found && step.sync then s.synced + batch else s.synced)
          && s'.hidden == (if step.Write? && !found then s.hidden + batch else s.hidden))
  {
    hide FilesOk, NothingLost, Logged, InLog, InSyncedLog, LogOk, BatchEntries, Placed, FlushOk, AfterWrite,
        TrailerLeft;
    AfterWriteShape(s, step);
    assert Next(s, step) == AfterWrite(s, step);
  }

  lemma AfterWriteShape(s: State, step: Step)
    requires IsWrite(step) && s.logfileNumber in s.logs && s.issued + |BatchEntries(step.record)| <= MAX_SEQUENCE
    ensures var s', n, batch := AfterWrite(s, step), s.logfileNumber, BatchEntries(step.record);
      && s'.logs == s.logs[n := Logged(s.logs[n], step)]
      && s' == s.(logs := s'.logs, issued := s.issued + |batch|, mem := s'.mem, acked := s'.acked, synced := s'.synced,
                  hidden := s'.hidden, bgError := s'.bgError)
      && (s'.bgError == (s.bgError || step.WriteSyncFails?))
      && s'.mem == (if step.Write? then s.mem + batch else s.mem)
      && (var found := step.Write? && forall e :: e in batch ==> InLog(s'.logs[n], e);
          && s'.acked == (if found then s.acked + batch else s.acked)
          && s'.synced == (if found && step.sync then s.synced + batch else s.synced)
          && s'.hidden == (if step.Write? && !found then s.hidden + batch else s.hidden))
  {
    hide Logged, InLog, BatchEntries;
  }

  lemma WriteKeepsPlaced(s: State, step: Step)
    requires Safe(s) && Possible(s, step) && IsWrite(step)
    ensures Placed(Next(s, step))
  {
    hide FilesOk, NothingLost, Logged, InLog, InSyncedLog, LogOk, IsBatch, BatchEntries, TrailerLeft, Next, Possible,
        FlushOk;
    var n := s.logfileNumber;
    LoggedGrows(s.logs, n, step);
    WriteShape(s, step);
  }

  // ---------- Every other step loses nothing either ----------

  /** Facts that survive when logs are only added or kept. */
  lemma KeptLogsHold(logs: map<nat, LogFile>, logs': map<nat, LogFile>, v: Version, acked: seq<Entry>,
      synced: seq<Entry>)
    requires NothingLost(logs, v, acked, synced)
    requires forall n :: n in logs && v.logNumber <= n ==> n in logs' && logs'[n] == logs[n]
    ensures NothingLost(logs', v, acked, synced)
  {
    hide InLog, InSyncedLog;
    forall e | e in acked
      ensures Held(logs', v, e)
    {
      if e !in v.covers {
        var m :| m in logs && v.logNumber <= m && InLog(logs[m], e);
        assert m in logs' && InLog(logs'[m], e);
      }
    }
    forall e | e in synced
      ensures HeldSynced(logs', v, e)
    {
      if e !in v.covers {
        var m :| m in logs && v.logNumber <= m && InSyncedLog(logs[m], e);
        assert m in logs' && InSyncedLog(logs'[m], e);
      }
    }
  }

  lemma WriteEndsIsSafe(s: State)
    requires Safe(s)
    ensures Safe(Next(s, WriteEnds))
  {
    hide FilesOk, NothingLost, LogsOk, InLog, InSyncedLog;
  }

  lemma RotateIsSafe(s: State)
    requires Safe(s) && Possible(s, Rotate)
    ensures Safe(Next(s, Rotate))
  {
    hide NothingLost, InLog, InSyncedLog, Holds;
    var s' := Next(s, Rotate);
    EmptyLog();
    KeptLogsHold(s.logs, s'.logs, s.current, s.acked, s.synced);
    assert s.current == s.manifest;
  }

  lemma EmptyLog()
    ensures LogOk(EMPTY_LOG) && forall e :: !InLog(EMPTY_LOG, e)
  {
    hide ReadAll;
    BatchesOfLog([]);
  }

  lemma MoreFiles(tables: map<nat, seq<Entry>>, tables': map<nat, seq<Entry>>, nextFile: nat, nextFile': nat,
      v: Version)
    requires FilesOk(tables, nextFile, v) && nextFile <= nextFile'
    requires forall f :: f in tables && f in v.files ==> f in tables' && tables'[f] == tables[f]
    ensures FilesOk(tables', nextFile', v)
  {
    forall e | e in v.contents
      ensures exists f :: f in v.files && f in tables' && e in tables'[f]
    {
      var f :| f in v.files && f in tables && e in tables[f];
      assert f in tables' && e in tables'[f];
    }
  }

  lemma FilesBelow(tables: map<nat, seq<Entry>>, nextFile: nat, v: Version)
    requires FilesOk(tables, nextFile, v)
    ensures forall f :: f in v.files ==> f < nextFile && f in tables
  {
  }

  lemma FlushStepIsSafe(s: State, step: Step)
    requires Safe(s) && Possible(s, step) && (step.FlushStart? || step.FlushBuilt? || step.FlushFails?)
    ensures Safe(Next(s, step))
  {
    hide NothingLost, InLog, InSyncedLog, LogOk, FilesOk;
    var s' := Next(s, step);
    FilesBelow(s.tables, s.nextFile, s.current);
    FilesBelow(s.tables, s.nextFile, s.manifest);
    MoreFiles(s.tables, s'.tables, s.nextFile, s'.nextFile, s.current);
    MoreFiles(s.tables, s'.tables, s.nextFile, s'.nextFile, s.manifest);
  }

  /** Adding entries to a version, in new files. */
  lemma GrowFiles(tables: map<nat, seq<Entry>>, tables': map<nat, seq<Entry>>, nextFile: nat, nextFile': nat,
      v: Version, v': Version,
                  files: set<nat>, more: seq<Entry>)
    requires FilesOk(tables, nextFile, v) && nextFile <= nextFile'
    requires forall f :: f in tables && f in v.files ==> f in tables' && tables'[f] == tables[f]
    requires Holds(tables', files, more) && forall f :: f in files ==> f < nextFile'
    requires v'.files == v.files + files && v'.contents == v.contents + more
    ensures FilesOk(tables', nextFile', v')
  {
    MoreFiles(tables, tables', nextFile, nextFile', v);
    UnionHolds(tables', v.files, files, v.contents, more);
  }

  lemma UnionHolds(tables: map<nat, seq<Entry>>, a: set<nat>, b: set<nat>, x: seq<Entry>, y: seq<Entry>)
    requires Holds(tables, a, x) && Holds(tables, b, y)
    ensures Holds(tables, a + b, x + y)
  {
    forall e | e in x + y
      ensures exists f :: f in a + b && f in tables && e in tables[f]
    {
      if e in x {
        var f :| f in a && f in tables && e in tables[f];
        assert f in a + b;
      } else {
        var f :| f in b && f in tables && e in tables[f];
        assert f in a + b;
      }
    }
  }

  lemma FlushedFilesOk(s: State)
    requires Safe(s) && s.flush.Committing?
    ensures FilesOk(s.tables, s.nextFile, FlushedVersion(s))
  {
    hide NothingLost, InLog, InSyncedLog, LogsOk, Placed, FilesOk;
    var files := if s.flush.newTable.Some? then {s.flush.newTable.value} else {};
    assert Holds(s.tables, files, Imm(s.imm));
    GrowFiles(s.tables, s.tables, s.nextFile, s.nextFile, s.current, FlushedVersion(s), files, Imm(s.imm));
  }

  /** The version a flush commits needs only the log of the current memtable.  That
      log number is still right when the commit happens, because no second switch
      can occur while imm is set. */
  lemma FlushedVersionLosesNothing(s: State)
    requires Safe(s) && s.flush.Committing?
    ensures NothingLost(s.logs, FlushedVersion(s), s.acked, s.synced) && FlushedVersion(s).logNumber == s.logfileNumber
  {
    hide NothingLost, InLog, InSyncedLog, FilesOk;
    var v, n := FlushedVersion(s), s.logfileNumber;
    assert n in s.logs && v.logNumber == n;
    forall e | e in s.acked
      ensures Held(s.logs, v, e)
    {
      if e in s.mem && InLog(s.logs[n], e) {
      }
    }
    forall e | e in s.synced
      ensures HeldSynced(s.logs, v, e)
    {
      if e in s.mem && InSyncedLog(s.logs[n], e) {
      }
    }
    NothingLostIntro(s.logs, v, s.acked, s.synced);
  }

  lemma NothingLostIntro(logs: map<nat, LogFile>, v: Version, acked: seq<Entry>, synced: seq<Entry>)
    requires forall e :: e in acked ==> Held(logs, v, e)
    requires forall e :: e in synced ==> HeldSynced(logs, v, e)
    ensures NothingLost(logs, v, acked, synced)
  {
  }

  lemma FlushCommitIsSafe(s: State, step: Step)
    requires Safe(s) && Possible(s, step) && (step.FlushCommits? || step.FlushCommitFails?)
    ensures Safe(Next(s, step))
  {
    hide NothingLost, InLog, InSyncedLog, LogsOk, FilesOk;
    FlushedFilesOk(s);
    FlushedVersionLosesNothing(s);
  }

  lemma CompactionOutputIsSafe(s: State, step: Step)
    requires Safe(s) && Possible(s, step) && step.CompactionOutput?
    ensures Safe(Next(s, step))
  {
    hide NothingLost, InLog, InSyncedLog, LogOk, FilesOk;
    var s' := Next(s, step);
    FilesBelow(s.tables, s.nextFile, s.current);
    FilesBelow(s.tables, s.nextFile, s.manifest);
    MoreFiles(s.tables, s'.tables, s.nextFile, s'.nextFile, s.current);
    MoreFiles(s.tables, s'.tables, s.nextFile, s'.nextFile, s.manifest);
  }

  lemma SameLogsAndCover(logs: map<nat, LogFile>, v: Version, v': Version, acked: seq<Entry>, synced: seq<Entry>)
    requires NothingLost(logs, v, acked, synced) && v'.logNumber == v.logNumber && v'.covers == v.covers
    ensures NothingLost(logs, v', acked, synced)
  {
    hide InLog, InSyncedLog;
    forall e | e in acked
      ensures Held(logs, v', e)
    {
      assert Held(logs, v, e);
    }
    forall e | e in synced
      ensures HeldSynced(logs, v', e)
    {
      assert HeldSynced(logs, v, e);
    }
  }

  lemma CompactionCommitIsSafe(s: State, step: Step)
    requires Safe(s) && Possible(s, step) && (step.CompactionCommits? || step.CompactionCommitFails?)
    ensures Safe(Next(s, step))
  {
    hide NothingLost, InLog, InSyncedLog, LogsOk, Holds;
    var v := CompactedVersion(s, step.inputs, step.outputs, step.contents);
    SameLogsAndCover(s.logs, s.current, v, s.acked, s.synced);
    assert FilesOk(s.tables, s.nextFile, v);
  }

  lemma DeleteIsSafe(s: State, live: set<nat>)
    requires Safe(s) && Possible(s, DeleteObsoleteFiles(live))
    ensures Safe(Next(s, DeleteObsoleteFiles(live)))
  {
    hide NothingLost, InLog, InSyncedLog, FilesOk, LogOk;
    var s' := Next(s, DeleteObsoleteFiles(live));
    assert s.current == s.manifest;
    FilesBelow(s.tables, s.nextFile, s.current);
    MoreFiles(s.tables, s'.tables, s.nextFile, s'.nextFile, s.current);
    KeptLogsHold(s.logs, s'.logs, s.current, s.acked, s.synced);
  }

  // ---------- Crash and recovery ----------

  lemma {:induction false} InReplay(logs: map<nat, LogFile>, lo: nat, hi: nat, e: Entry)
    ensures e in Replay(logs, lo, hi) <==> exists n :: n in logs && lo <= n < hi && InLog(logs[n], e)
    decreases hi - lo
  {
    hide Contents;
    if lo < hi {
      InReplay(logs, lo + 1, hi, e);
      if e in Replay(logs, lo, hi) {
        if lo in logs && e in Contents(logs[lo].file) {
          assert InLog(logs[lo], e);
        } else {
          var n :| n in logs && lo + 1 <= n < hi && InLog(logs[n], e);
        }
      }
      if n :| n in logs && lo <= n < hi && InLog(logs[n], e) {
        if n > lo {
          assert lo + 1 <= n;
        }
      }
    }
  }

  /** What a crash leaves of the logs: everything synced, and if it only cuts them
      nothing that was not there. */
  lemma SurvivingFacts(logs: map<nat, LogFile>, c: Crash)
    requires CrashKeeps(logs, c)
    ensures var logs' := Surviving(logs, c);
      && logs'.Keys == logs.Keys
      && (forall n :: n in logs ==> LogOk(logs'[n]))
      && (forall n, e :: n in logs && InSyncedLog(logs[n], e) ==> InLog(logs'[n], e))
      && (CrashCuts(logs, c) ==> forall n, e :: n in logs && InLog(logs'[n], e) ==> InLog(logs[n], e))
  {
    hide Contents;
    forall n | n in logs
      ensures Contents(logs[n].file[..logs[n].synced]) <= Contents(c.left[n])
      ensures CrashCuts(logs, c) ==> Contents(c.left[n]) <= Contents(logs[n].file)
    {
      ContentsGrow(logs[n].file[..logs[n].synced], c.left[n]);
      if CrashCuts(logs, c) {
        ContentsGrow(c.left[n], logs[n].file);
      }
    }
  }

  /** After any crash, whatever is in the version or found in the synced part of a
      log it needs is in the recovered version. */
  lemma HeldSurvives(s: State, c: Crash, e: Entry)
    requires Safe(s) && Possible(s, CrashAndRecover(c)) && HeldSynced(s.logs, s.manifest, e)
    ensures e in Recovered(s, c).current.covers
  {
    hide InLog, InSyncedLog, Replay, Surviving, FilesOk, FlushOk, Placed, NothingLost, LogOk;
    SurvivingFacts(s.logs, c);
    InReplay(Surviving(s.logs, c), s.manifest.logNumber, s.nextFile, e);
    if e !in s.manifest.covers {
      var n :| n in s.logs && s.manifest.logNumber <= n && InSyncedLog(s.logs[n], e);
      assert InLog(Surviving(s.logs, c)[n], e) && n < s.nextFile;
    }
  }

  /** Whatever was acknowledged with sync and is found by a reader survives any crash. */
  lemma SyncedWritesSurvive(s: State, c: Crash, e: Entry)
    requires Safe(s) && Possible(s, CrashAndRecover(c)) && e in s.synced
    ensures e in Recovered(s, c).current.covers
  {
    hide InLog, InSyncedLog, HeldSynced, Possible, Recovered, FilesOk, LogsOk, FlushOk, Placed;
    HeldSurvives(s, c, e);
  }

  /** If the process stops but the files are intact, so does every acknowledged
      write that is found by a reader. */
  lemma AckedWritesSurviveRestart(s: State, c: Crash, e: Entry)
    requires Safe(s) && Possible(s, CrashAndRecover(c)) && e in s.acked
    requires forall n :: n in s.logs ==> c.left[n] == s.logs[n].file
    ensures e in Recovered(s, c).current.covers
  {
    hide InSyncedLog, Replay, FilesOk, FlushOk, Placed, Contents;
    InReplay(Surviving(s.logs, c), s.manifest.logNumber, s.nextFile, e);
    assert Held(s.logs, s.manifest, e);
    if e !in s.manifest.covers {
      var n :| n in s.logs && s.manifest.logNumber <= n && InLog(s.logs[n], e);
      assert InLog(Surviving(s.logs, c)[n], e) && n < s.nextFile;
    }
  }

  lemma MadeHolds(tables: map<nat, seq<Entry>>, made: map<nat, seq<Entry>>, replay: seq<Entry>)
    requires Holds(made, made.Keys, replay)
    ensures Holds(tables + made, made.Keys, replay)
  {
    var all := tables + made;
    forall e | e in replay
      ensures exists f :: f in made.Keys && f in all && e in all[f]
    {
      var f :| f in made.Keys && f in made && e in made[f];
      assert f in all && all[f] == made[f];
    }
  }

  lemma RecoveredFilesOk(s: State, c: Crash)
    requires Safe(s) && Possible(s, CrashAndRecover(c))
    ensures FilesOk(Recovered(s, c).tables, Recovered(s, c).nextFile, Recovered(s, c).current)
  {
    hide InLog, InSyncedLog, Replay, Surviving, NothingLost, FlushOk, Placed, LogsOk, FilesOk, MaxSeqno;
    var s' := Recovered(s, c);
    var replay := Replay(Surviving(s.logs, c), s.manifest.logNumber, s.nextFile);
    FilesBelow(s.tables, s.nextFile, s.manifest);
    MadeHolds(s.tables + c.orphans, c.made, replay);
    assert forall f :: f in c.made || f in c.orphans ==> f in c.made.Keys + c.orphans.Keys;
    GrowFiles(s.tables, s'.tables, s.nextFile, s'.nextFile, s.manifest, s'.current, c.made.Keys, replay);
  }

  lemma RecoveredLogsOk(s: State, c: Crash)
    requires Safe(s) && Possible(s, CrashAndRecover(c))
    ensures LogsOk(Recovered(s, c).logs, Recovered(s, c).logfileNumber, Recovered(s, c).nextFile)
  {
    hide InLog, InSyncedLog, Replay, Surviving, NothingLost, FlushOk, Placed, FilesOk, MaxSeqno, LogOk;
    SurvivingFacts(s.logs, c);
    EmptyLog();
  }

  lemma RecoveryIsSafe(s: State, c: Crash)
    requires Safe(s) && Possible(s, CrashAndRecover(c))
    ensures Safe(Recovered(s, c))
  {
    hide InLog, InSyncedLog, Replay, Surviving, NothingLost, LogsOk, FilesOk, MaxSeqno, Possible;
    var s' := Recovered(s, c);
    RecoveredFilesOk(s, c);
    RecoveredLogsOk(s, c);
    forall e | e in s.synced
      ensures e in s'.current.covers
    {
      SyncedWritesSurvive(s, c, e);
    }
    NothingLostIntro(s'.logs, s'.current, s'.acked, s'.synced);
  }

  /** Every possible step of every kind, wherever failed appends are cut and
      whatever a crash leaves behind what is synced, loses nothing. */
  lemma StepIsSafe(s: State, step: Step)
    requires Safe(s) && Possible(s, step)
    ensures Safe(Next(s, step))
  {
    hide Safe, Possible;
    match step
    case Write(_, _, _) => WriteIsSafe(s, step);
    case WriteFails(_, _, _, _) => WriteIsSafe(s, step);
    case WriteSyncFails(_, _) => WriteIsSafe(s, step);
    case WriteEnds => WriteEndsIsSafe(s);
    case Rotate => RotateIsSafe(s);
    case FlushStart => FlushStepIsSafe(s, step);
    case FlushBuilt => FlushStepIsSafe(s, step);
    case FlushFails => FlushStepIsSafe(s, step);
    case FlushCommits => FlushCommitIsSafe(s, step);
    case FlushCommitFails(_) => FlushCommitIsSafe(s, step);
    case CompactionOutput(_) => CompactionOutputIsSafe(s, step);
    case CompactionCommits(_, _, _, _) => CompactionCommitIsSafe(s, step);
    case CompactionCommitFails(_, _, _, _, _) => CompactionCommitIsSafe(s, step);
    case DeleteObsoleteFiles(live) => DeleteIsSafe(s, live);
    case CrashAndRecover(c) => RecoveryIsSafe(s, c);
  }

  // ---------- Order: writing ----------

  /** On an undamaged log with its trailer whole a reader finds the batch if all of
      it was written, and nothing else that is new in any case. */
  lemma {:induction false} UndamagedHasNoStrays(log: LogFile, step: Step)
    requires IsWrite(step) && LogOk(log) && !log.damaged && step.trailer == Trailer(log.offset)
    ensures NoStrays(log, step)
    ensures !step.WriteFails? ==> Contents(Logged(log, step).file) == Contents(log.file) + BatchEntries(step.record)
  {
    hide Contents, Emitted, OffsetAfter, HeaderOffset, Trailer, LogProofs.LogBytes, LogProofs.OffsetAfterAll,
        BatchEntries;
    var off := log.offset;
    var record := Emitted(CRC, step.record, HeaderOffset(off), true);
    SkipTrailer(CRC, step.record, off, true);
    LogBytesOne(log.added, step.record);
    assert log.file + Trailer(off) + record == log.file + (Trailer(off) + record);
    ContentsOfLonger(log.added, step.record);
    if step.WriteFails? {
      var k := |Trailer(off)| + if step.cut <= |record| then step.cut else |record|;
      assert Logged(log, step).file == log.file + (Trailer(off) + record)[..k];
      ContentsOfCut(log.added, step.record, k);
    }
  }

  /** What a write adds to what a reader of the logs finds. */
  lemma WriteAdds(cmp: Comparator, s: State, step: Step)
    requires Inv(cmp, s) && Enabled(cmp, s, step) && IsWrite(step)
    ensures var s', n, batch := Next(s, step), s.logfileNumber, BatchEntries(step.record);
      && n in s.logs && s'.logs.Keys == s.logs.Keys && (forall m :: m in s.logs && m != n ==> s'.logs[m] == s.logs[m])
      && (forall e :: InLog(s'.logs[n], e) ==> InLog(s.logs[n], e) || e in batch)
      && ((exists e :: e in batch && !InLog(s'.logs[n], e)) ==> forall e :: InLog(s'.logs[n], e) ==>
            InLog(s.logs[n], e))
      && (forall e :: e in batch ==> e.Parses() && s.issued < e.Seqno() <= s'.issued)
      && s.issued <= s'.issued && s'.issued == s.issued + |batch|
  {
    hide Safe, InOrder, Logged, Contents, BatchEntries;
    assert s.logfileNumber in s.logs by { CurrentLog(s); }
    WriteShape(s, step);
  }

  lemma CurrentLog(s: State)
    requires Safe(s)
    ensures s.logfileNumber in s.logs && LogOk(s.logs[s.logfileNumber])
    ensures s.current.logNumber <= s.logfileNumber && s.manifest.logNumber <= s.logfileNumber
  {
  }

  lemma WriteKeepsOrder(cmp: Comparator, s: State, step: Step)
    requires Inv(cmp, s) && Enabled(cmp, s, step) && IsWrite(step)
    ensures InOrder(cmp, Next(s, step))
  {
    hide Safe, VersionOk, Possible, Enabled, Next, InLog, BatchEntries, HiddenOk, LogOk, LogsNewer, MemOk;
    var s', n, batch := Next(s, step), s.logfileNumber, BatchEntries(step.record);
    CurrentLog(s);
    WriteAdds(cmp, s, step);
    assert Possible(s, step) by { EnabledIsPossible(cmp, s, step); }
    WriteShape(s, step);
    WriteKeepsHidden(cmp, s, step);
    LongerLogKeepsOrder(s.logs, s'.logs, n, batch, s.issued, s'.issued, s.mem, s'.mem, Imm(s.imm), s.immTop,
        s.current, s.manifest);
  }

  lemma LongerLogKeepsOrder(logs: map<nat, LogFile>, logs': map<nat, LogFile>, n: nat, batch: seq<Entry>,
      last: Sequence,
                            last': Sequence, mem: seq<Entry>, mem': seq<Entry>, imm: seq<Entry>, immTop: Sequence,
                            current: Version, manifest: Version)
    requires n in logs && logs'.Keys == logs.Keys && (forall m :: m in logs && m != n ==> logs'[m] == logs[m])
    requires forall e :: InLog(logs'[n], e) ==> InLog(logs[n], e) || e in batch
    requires forall e :: e in batch ==> e.Parses() && last < e.Seqno() <= last'
    requires immTop <= last <= last' && (mem' == mem || mem' == mem + batch)
    requires LogsNewer(logs, current, last) && LogsNewer(logs, manifest, last)
    requires MemOk(logs, n, mem, imm, immTop, last, current, manifest)
    ensures LogsNewer(logs', current, last') && LogsNewer(logs', manifest, last')
    ensures MemOk(logs', n, mem', imm, immTop, last', current, manifest)
  {
    hide InLog;
  }

  lemma EnabledIsPossible(cmp: Comparator, s: State, step: Step)
    requires Enabled(cmp, s, step)
    ensures Possible(s, step)
  {
  }

  lemma WriteKeepsHidden(cmp: Comparator, s: State, step: Step)
    requires Inv(cmp, s) && Enabled(cmp, s, step) && IsWrite(step)
    ensures HiddenOk(Next(s, step))
  {
    hide Safe, VersionOk, Possible, Enabled, Next, InLog, BatchEntries, MemOk, LogOk;
    var s', n, batch := Next(s, step), s.logfileNumber, BatchEntries(step.record);
    CurrentLog(s);
    WriteAdds(cmp, s, step);
    assert Possible(s, step) by { EnabledIsPossible(cmp, s, step); }
    WriteShape(s, step);
    forall e, m | e in s'.hidden && m in s'.logs && s'.manifest.logNumber <= m
      ensures !InLog(s'.logs[m], e)
    {
      if e in s.hidden {
        assert !InLog(s.logs[m], e);
      } else {
        assert e.Seqno() > s.issued;
        assert !InLog(s.logs[m], e);
      }
    }
  }

  // ---------- Order: the other steps ----------

  lemma WriteEndsKeepsOrder(cmp: Comparator, s: State)
    requires Inv(cmp, s)
    ensures InOrder(cmp, Next(s, WriteEnds))
  {
    hide Safe, VersionOk, LogsNewer, MemOk;
  }

  lemma RotateKeepsOrder(cmp: Comparator, s: State)
    requires Inv(cmp, s) && Possible(s, Rotate)
    ensures InOrder(cmp, Next(s, Rotate))
  {
    hide VersionOk, InLog, FilesOk, NothingLost, Placed, LogOk;
    var s' := Next(s, Rotate);
    EmptyLog();
    assert VersionOk(cmp, s.floor, s.current) ==>
        s.current.top <= s.current.last by { VersionTop(cmp, s.floor, s.current); }
    assert s.current == s.manifest;
  }

  lemma VersionTop(cmp: Comparator, floor: Sequence, v: Version)
    ensures VersionOk(cmp, floor, v) ==> v.top <= v.last && forall e :: e in v.covers ==> e.Seqno() <= v.top
  {
  }

  lemma FlushStepKeepsOrder(cmp: Comparator, s: State, step: Step)
    requires Inv(cmp, s) && Possible(s, step) && (step.FlushStart? || step.FlushBuilt? || step.FlushFails?)
    ensures InOrder(cmp, Next(s, step))
  {
    hide Safe, VersionOk, LogsNewer, MemOk;
  }

  /** Adding newer entries to what a version covers. */
  lemma GrowVersion(cmp: Comparator, floor: Sequence, v: Version, v': Version, more: seq<Entry>)
    requires VersionOk(cmp, floor, v)
    requires forall e :: e in more ==> e.Parses() && v.top < e.Seqno() <= v'.top
    requires v.top <= v'.top <= v'.last
    requires v'.covers == v.covers + more && v'.contents == v.contents + more
    ensures VersionOk(cmp, floor, v')
  {
    ReplacesUnder(cmp, v.covers, v.contents, more, floor);
  }

  /** The version a flush commits covers the immutable memtable, and the log it
      needs holds only newer entries. */
  lemma FlushedVersionOk(cmp: Comparator, s: State)
    requires Inv(cmp, s) && s.flush.Committing?
    ensures var v := FlushedVersion(s);
      && VersionOk(cmp, s.floor, v) && LogsNewer(s.logs, v, s.issued)
      && v.top == s.immTop && v.last == s.lastSequence && v.covers == s.current.covers + Imm(s.imm)
  {
    hide VersionOk, InLog, FilesOk, NothingLost, Placed, LogOk, HiddenOk;
    GrowVersion(cmp, s.floor, s.current, FlushedVersion(s), Imm(s.imm));
  }

  lemma FlushCommitKeepsOrder(cmp: Comparator, s: State, step: Step)
    requires Inv(cmp, s) && Possible(s, step) && (step.FlushCommits? || step.FlushCommitFails?)
    ensures InOrder(cmp, Next(s, step))
  {
    hide Safe, InLog, VersionOk, LogsNewer;
    FlushedVersionOk(cmp, s);
    FlushKeepsHidden(cmp, s, step);
  }

  lemma FlushKeepsHidden(cmp: Comparator, s: State, step: Step)
    requires Inv(cmp, s) && Possible(s, step) && (step.FlushCommits? || step.FlushCommitFails?)
    ensures HiddenOk(Next(s, step))
  {
    hide InLog, VersionOk, LogsNewer, MemOk, FilesOk, NothingLost, Placed, LogOk;
  }

  lemma CompactionOutputKeepsOrder(cmp: Comparator, s: State, step: Step)
    requires Inv(cmp, s) && Possible(s, step) && step.CompactionOutput?
    ensures InOrder(cmp, Next(s, step))
  {
    hide Safe, VersionOk, LogsNewer, MemOk;
  }

  lemma RaiseFloor(cmp: Comparator, low: Sequence, high: Sequence, v: Version)
    requires VersionOk(cmp, low, v) && low <= high
    ensures VersionOk(cmp, high, v)
  {
    ReplacesHigher(cmp, v.covers, v.contents, low, high);
  }

  lemma ReplacesHigher(cmp: Comparator, es: seq<Entry>, es': seq<Entry>, low: Sequence, high: Sequence)
    requires Replaces(cmp, es, es', low) && low <= high
    ensures Replaces(cmp, es, es', high)
  {
    forall upper | AllNewer(upper, es)
      ensures SameReads(cmp, upper + es, upper + es', high)
    {
    }
  }

  lemma ReplacesMembers(cmp: Comparator, es: seq<Entry>, es': seq<Entry>, smallest: Sequence)
    requires Replaces(cmp, es, es', smallest)
    ensures forall e :: e in es' ==> e in es
  {
  }

  lemma CompactedVersionOk(cmp: Comparator, s: State, inputs: set<nat>, outputs: set<nat>, contents: seq<Entry>,
      smallest: Sequence)
    requires Inv(cmp, s) && s.floor <= smallest && Replaces(cmp, s.current.contents, contents, smallest)
    ensures VersionOk(cmp, smallest, CompactedVersion(s, inputs, outputs, contents))
    ensures VersionOk(cmp, smallest, s.current) && VersionOk(cmp, smallest, s.manifest)
  {
    hide Safe, LogsNewer, MemOk, Replaces, HiddenOk;
    RaiseFloor(cmp, s.floor, smallest, s.current);
    RaiseFloor(cmp, s.floor, smallest, s.manifest);
    ReplacesChain(cmp, s.current.covers, s.current.contents, contents, s.floor, smallest);
    ReplacesMembers(cmp, s.current.contents, contents, smallest);
  }

  lemma CompactionCommitKeepsOrder(cmp: Comparator, s: State, step: Step)
    requires Inv(cmp, s) && Enabled(cmp, s, step) && (step.CompactionCommits? || step.CompactionCommitFails?)
    ensures InOrder(cmp, Next(s, step))
  {
    hide InLog, VersionOk, Replaces, Holds, LogOk, NothingLost, Placed, FilesOk;
    CompactedVersionOk(cmp, s, step.inputs, step.outputs, step.contents, step.smallest);
  }

  lemma DeleteKeepsOrder(cmp: Comparator, s: State, live: set<nat>)
    requires Inv(cmp, s) && Possible(s, DeleteObsoleteFiles(live))
    ensures InOrder(cmp, Next(s, DeleteObsoleteFiles(live)))
  {
    hide InLog, VersionOk, LogOk, NothingLost, Placed, FilesOk;
  }

  // ---------- Order: recovery ----------

  lemma {:induction false} MaxSeqnoBounds(es: seq<Entry>, base: Sequence, limit: Sequence)
    requires base <= limit && forall e :: e in es ==> e.Seqno() <= limit
    ensures base <= MaxSeqno(es, base) <= limit
    ensures forall e :: e in es ==> e.Seqno() <= MaxSeqno(es, base)
    decreases |es|
  {
    if es != [] {
      MaxSeqnoBounds(es[..|es| - 1], base, limit);
    }
  }

  /** The entries recovery replays are newer than the version it starts from. */
  lemma {:induction false} ReplayNewer(logs: map<nat, LogFile>, c: Crash, v: Version, last: Sequence, hi: nat)
    requires CrashKeeps(logs, c) && CrashCuts(logs, c) && LogsNewer(logs, v, last)
    ensures forall e :: e in Replay(Surviving(logs, c), v.logNumber, hi) ==> e.Parses() && e.Seqno() > v.top
  {
    hide InLog, InSyncedLog, Replay, Surviving, LogOk;
    SurvivingFacts(logs, c);
    var logs' := Surviving(logs, c);
    forall e | e in Replay(logs', v.logNumber, hi)
      ensures e.Parses() && e.Seqno() > v.top
    {
      InReplay(logs', v.logNumber, hi, e);
      var n :| n in logs' && v.logNumber <= n < hi && InLog(logs'[n], e);
      InLogParses(logs[n], e);
    }
  }

  lemma InLogParses(log: LogFile, e: Entry)
    requires InLog(log, e)
    ensures e.Parses()
  {
    hide Contents;
    ContentsParse(log.file);
  }

  lemma RecoveredVersionOk(cmp: Comparator, s: State, c: Crash)
    requires Inv(cmp, s) && Enabled(cmp, s, CrashAndRecover(c))
    ensures var s' := Recovered(s, c); VersionOk(cmp, s'.floor, s'.current) && s'.floor <= s'.current.last
  {
    hide InLog, InSyncedLog, Replay, Surviving, Safe, MemOk, HiddenOk, Replaces;
    var s' := Recovered(s, c);
    var replay := Replay(Surviving(s.logs, c), s.manifest.logNumber, s.nextFile);
    ReplayNewer(s.logs, c, s.manifest, s.issued, s.nextFile);
    MaxSeqnoBounds(replay, s.manifest.last, MAX_SEQUENCE);
    GrowVersion(cmp, s.floor, s.manifest, s'.current, replay);
  }

  lemma RecoveryKeepsOrder(cmp: Comparator, s: State, c: Crash)
    requires Inv(cmp, s) && Enabled(cmp, s, CrashAndRecover(c))
    ensures InOrder(cmp, Recovered(s, c))
  {
    hide InLog, InSyncedLog, Replay, Surviving, VersionOk, MaxSeqno, FilesOk, NothingLost, Placed, LogOk, FlushOk;
    var s' := Recovered(s, c);
    RecoveredVersionOk(cmp, s, c);
    SurvivingFacts(s.logs, c);
    EmptyLog();
  }

  /** With nothing strayed into the logs every step keeps the order of the layers,
      so this holds in every state reached that way. */
  lemma StepKeepsInv(cmp: Comparator, s: State, step: Step)
    requires Inv(cmp, s) && Enabled(cmp, s, step)
    ensures Inv(cmp, Next(s, step))
  {
    hide Safe, InOrder, Possible;
    assert Inv(cmp, s) ==> Safe(s) && InOrder(cmp, s);
    StepIsSafe(s, step);
    match step
    case Write(_, _, _) => WriteKeepsOrder(cmp, s, step);
    case WriteFails(_, _, _, _) => WriteKeepsOrder(cmp, s, step);
    case WriteSyncFails(_, _) => WriteKeepsOrder(cmp, s, step);
    case WriteEnds => WriteEndsKeepsOrder(cmp, s);
    case Rotate => RotateKeepsOrder(cmp, s);
    case FlushStart => FlushStepKeepsOrder(cmp, s, step);
    case FlushBuilt => FlushStepKeepsOrder(cmp, s, step);
    case FlushFails => FlushStepKeepsOrder(cmp, s, step);
    case FlushCommits => FlushCommitKeepsOrder(cmp, s, step);
    case FlushCommitFails(_) => FlushCommitKeepsOrder(cmp, s, step);
    case CompactionOutput(_) => CompactionOutputKeepsOrder(cmp, s, step);
    case CompactionCommits(_, _, _, _) => CompactionCommitKeepsOrder(cmp, s, step);
    case CompactionCommitFails(_, _, _, _, _) => CompactionCommitKeepsOrder(cmp, s, step);
    case DeleteObsoleteFiles(live) => DeleteKeepsOrder(cmp, s, live);
    case CrashAndRecover(c) => RecoveryKeepsOrder(cmp, s, c);
  }

  // ---------- The compaction loop ----------

  lemma HoldsIsUnique(tables: map<nat, seq<Entry>>, files: set<nat>, a: seq<Entry>, b: seq<Entry>)
    requires Holds(tables, files, a) && Holds(tables, files, b)
    ensures SameMembers(a, b)
  {
  }

  /** A compaction by the drop loop is one the state machine allows: input files,
      merged in order, give way to output files that hold what the loop keeps,
      over any choice of what lies above and below. */
  lemma {:induction false} LoopIsAllowed(cmp: Comparator, isBase: Slice -> bool, s: State, inputs: set<nat>,
      outputs: set<nat>,
                      upper: seq<Entry>, input: seq<Entry>, deeper: seq<Entry>, smallest: Sequence)
    requires Inv(cmp, s) && s.flush.Idle? && !s.commitFailed && inputs <= s.current.files && outputs <= s.pending
    requires s.floor <= smallest <= s.lastSequence && smallest < MAX_SEQUENCE
    requires Holds(s.tables, inputs, input) && Holds(s.tables, s.current.files - inputs, upper + deeper)
    requires Holds(s.tables, outputs, Kept(cmp, isBase, input, smallest, |input|))
    requires Sorted(cmp, input) && IsBaseContract(cmp, isBase, deeper) && Newer(cmp, upper, input)
    ensures var contents := upper + Kept(cmp, isBase, input, smallest, |input|) + deeper;
      && Enabled(cmp, s, CompactionCommits(inputs, outputs, contents, smallest))
      && var s' := Next(s, CompactionCommits(inputs, outputs, contents, smallest));
         && s'.current == s'.manifest && Holds(s'.tables, s'.current.files, contents)
         && (forall f :: f in inputs && f !in outputs ==> f !in s'.current.files)
  {
    hide NothingLost, InLog, InSyncedLog, LogsNewer, LogsOk, MemOk, Replaces, Holds, Placed, HiddenOk, SameMembers,
        IsBaseContract, Newer, Sorted;
    var kept := Kept(cmp, isBase, input, smallest, |input|);
    var rest := s.current.files - inputs;
    var before, after := s.current.contents, upper + kept + deeper;
    assert rest + inputs == s.current.files;
    UnionHolds(s.tables, rest, inputs, upper + deeper, input);
    HoldsIsUnique(s.tables, s.current.files, before, upper + deeper + input);
    UnionHolds(s.tables, rest, outputs, upper + deeper, kept);
    Reorder(before, upper, deeper, input);
    Reorder(upper + deeper + kept, upper, deeper, kept);
    SameHolds(s.tables, rest + outputs, upper + deeper + kept, after);
    InputParses(before, upper, deeper, input);
    WellFormedNeverResurfaces(cmp, isBase, input, smallest);
    SelfMembers(after);
    CompactionReplaces(cmp, isBase, upper, input, deeper, before, after, smallest);
  }

  lemma SelfMembers(a: seq<Entry>)
    ensures SameMembers(a, a)
  {
  }

  lemma Reorder(all: seq<Entry>, upper: seq<Entry>, deeper: seq<Entry>, es: seq<Entry>)
    requires SameMembers(all, upper + deeper + es)
    ensures SameMembers(all, upper + es + deeper)
  {
  }

  lemma SameHolds(tables: map<nat, seq<Entry>>, files: set<nat>, a: seq<Entry>, b: seq<Entry>)
    requires Holds(tables, files, a) && SameMembers(a, b)
    ensures Holds(tables, files, b)
  {
  }

  lemma InputParses(all: seq<Entry>, upper: seq<Entry>, deeper: seq<Entry>, input: seq<Entry>)
    requires SameMembers(all, upper + input + deeper) && forall e :: e in all ==> e.Parses()
    ensures forall e :: e in input ==> e.Parses()
  {
  }

  // ---------- Whole runs ----------

  /** A new database, opened: an empty log and an empty version. */
  const FIRST_LOG := 3
  const EMPTY_VERSION := Version({}, FIRST_LOG, 0, 0, [], [])
  const INITIAL := State(map[FIRST_LOG := EMPTY_LOG], map[], EMPTY_VERSION, EMPTY_VERSION, FIRST_LOG, FIRST_LOG + 1,
                         [], None, 0, Idle, {}, 0, 0, false, false, 0, [], [], [])

  lemma InitialIsSafe()
    ensures Safe(INITIAL)
  {
    EmptyLog();
  }

  lemma InitialInv(cmp: Comparator)
    ensures Inv(cmp, INITIAL)
  {
    hide Safe;
    InitialIsSafe();
    EmptyLog();
    forall upper: seq<Entry>
      ensures SameReads(cmp, upper + [], upper + [], 0)
    {
      SameMembersSameReads(cmp, upper + [], upper + [], 0);
    }
  }

  ghost predicate PossibleRun(s: State, steps: seq<Step>)
    decreases |steps|
  {
    steps != [] ==> Possible(s, steps[0]) && PossibleRun(Next(s, steps[0]), steps[1..])
  }

  ghost predicate EnabledRun(cmp: Comparator, s: State, steps: seq<Step>)
    decreases |steps|
  {
    steps != [] ==> Enabled(cmp, s, steps[0]) && EnabledRun(cmp, Next(s, steps[0]), steps[1..])
  }

  function After(s: State, steps: seq<Step>): State
    decreases |steps|
  {
    if steps == [] then s else After(Next(s, steps[0]), steps[1..])
  }

  /** Over any run nothing is lost, and what was acknowledged with sync stays so. */
  lemma {:induction false} RunIsSafe(s: State, steps: seq<Step>)
    requires Safe(s) && PossibleRun(s, steps)
    ensures Safe(After(s, steps)) && s.synced <= After(s, steps).synced
    decreases |steps|
  {
    hide Safe, Possible;
    if steps != [] {
      StepIsSafe(s, steps[0]);
      RunIsSafe(Next(s, steps[0]), steps[1..]);
      SyncedGrows(s, steps[0]);
    }
  }

  lemma SyncedGrows(s: State, step: Step)
    ensures s.synced <= Next(s, step).synced
  {
    hide InLog, Logged, BatchEntries;
  }

  lemma {:induction false} RunKeepsInv(cmp: Comparator, s: State, steps: seq<Step>)
    requires Inv(cmp, s) && EnabledRun(cmp, s, steps)
    ensures Inv(cmp, After(s, steps))
    decreases |steps|
  {
    hide Inv, Enabled;
    if steps != [] {
      StepKeepsInv(cmp, s, steps[0]);
      RunKeepsInv(cmp, Next(s, steps[0]), steps[1..]);
    }
  }

  lemma {:induction false} RunSplits(s: State, a: seq<Step>, b: seq<Step>)
    ensures PossibleRun(s, a + b) <==> PossibleRun(s, a) && PossibleRun(After(s, a), b)
    ensures After(s, a + b) == After(After(s, a), b)
    decreases |a|
  {
    hide Possible, Next;
    if a == [] {
      assert a + b == b;
    } else {
      assert (a + b)[1..] == a[1..] + b;
      RunSplits(Next(s, a[0]), a[1..], b);
    }
  }

  /** A write on a log on which nothing has failed is found by a reader of it. */
  lemma CleanWriteIsFound(s: State, step: Step)
    requires Safe(s) && Possible(s, step) && step.Write?
    requires s.logfileNumber in s.logs ==>
      var log := s.logs[s.logfileNumber]; !log.damaged && step.trailer == Trailer(log.offset)
    ensures var s' := Next(s, step);
      && s'.acked == s.acked + BatchEntries(step.record) && s'.hidden == s.hidden
      && (step.sync ==> s'.synced == s.synced + BatchEntries(step.record))
  {
    hide Safe, Logged, Contents, BatchEntries, Possible, Next, LogOk;
    CurrentLog(s);
    UndamagedHasNoStrays(s.logs[s.logfileNumber], step);
    WriteShape(s, step);
  }

  /** Over every run from a new database, with any failures and crashes before and
      after, and any crash at the end: what was acknowledged with sync while nothing
      had failed on its log is in the recovered version. */
  lemma {:induction false} NoSyncedWriteLost(before: seq<Step>, step: Step, after: seq<Step>, c: Crash)
    requires PossibleRun(INITIAL, before + [step] + after) && step.Write? && step.sync
    requires var s := After(INITIAL, before);
      s.logfileNumber in s.logs ==>
        var log := s.logs[s.logfileNumber]; !log.damaged && step.trailer == Trailer(log.offset)
    requires Possible(After(INITIAL, before + [step] + after), CrashAndRecover(c))
    ensures forall e :: e in BatchEntries(step.record) ==>
      e in Recovered(After(INITIAL, before + [step] + after), c).current.covers
  {
    hide Safe, Possible, Next, BatchEntries, Recovered;
    RunSplits(INITIAL, before + [step], after);
    RunSplits(INITIAL, before, [step]);
    InitialIsSafe();
    RunIsSafe(INITIAL, before);
    var s := After(INITIAL, before);
    assert [step][1..] == [];
    CleanWriteIsFound(s, step);
    StepIsSafe(s, step);
    var s' := Next(s, step);
    assert After(s, [step]) == s';
    RunIsSafe(s', after);
    var end := After(s', after);
    StillThere(s.synced, BatchEntries(step.record), end.synced);
    forall e | e in BatchEntries(step.record)
      ensures e in Recovered(end, c).current.covers
    {
      SyncedWritesSurvive(end, c, e);
    }
  }

  lemma StillThere(a: seq<Entry>, b: seq<Entry>, all: seq<Entry>)
    requires a + b <= all
    ensures forall e :: e in b ==> e in all
  {
    assert forall i :: 0 <= i < |b| ==> all[|a| + i] == b[i];
  }

  /** While the database runs, its three layers are ordered newest first, and
      reading them at any snapshot from the floor on is reading everything that
      was ever flushed together with both memtables. */
  lemma LiveReads(cmp: Comparator, s: State)
    requires Inv(cmp, s)
    ensures AllNewer(s.mem, Imm(s.imm)) && AllNewer(s.mem + Imm(s.imm), s.current.contents)
    ensures SameReads(cmp, s.mem + Imm(s.imm) + s.current.covers, s.mem + Imm(s.imm) + s.current.contents, s.floor)
  {
    hide InLog, InSyncedLog, Safe, LogsNewer, HiddenOk;
    assert AllNewer(s.mem + Imm(s.imm), s.current.covers);
  }

  /** Over every run in which nothing strays into the logs, ending in a crash that
      cuts them: reads of the recovered tables answer as reads of all they cover. */
  lemma {:induction false} RecoveredReads(cmp: Comparator, steps: seq<Step>, c: Crash)
    requires EnabledRun(cmp, INITIAL, steps) && Enabled(cmp, After(INITIAL, steps), CrashAndRecover(c))
    ensures var s' := Recovered(After(INITIAL, steps), c); SameReads(cmp, s'.current.covers, s'.current.contents,
        s'.floor)
  {
    hide Inv, Enabled, Next, SameReads, Replay, Surviving, MaxSeqno;
    InitialInv(cmp);
    RunKeepsInv(cmp, INITIAL, steps);
    var s := After(INITIAL, steps);
    StepKeepsInv(cmp, s, CrashAndRecover(c));
    var s' := Recovered(s, c);
    assert Next(s, CrashAndRecover(c)) == s' by { NextIsRecovered(s, c); }
    LiveReads(cmp, s');
    assert s'.mem + Imm(s'.imm) + s'.current.covers == s'.current.covers;
    assert s'.mem + Imm(s'.imm) + s'.current.contents == s'.current.contents;
  }

  lemma NextIsRecovered(s: State, c: Crash)
    ensures Next(s, CrashAndRecover(c)) == Recovered(s, c)
  {
  }

  // ---------- What steps achieve ----------

  /** Once a write has ended its batch is in the memtable and readers see it. */
  lemma WrittenIsVisible(s: State, step: Step)
    requires Safe(s) && Possible(s, step) && step.Write?
    ensures var s' := Next(Next(s, step), WriteEnds);
      && s'.mem == s.mem + BatchEntries(step.record)
      && s'.lastSequence == s.lastSequence + |BatchEntries(step.record)|
      && forall e :: e in BatchEntries(step.record) ==> e.Seqno() <= s'.lastSequence
  {
    hide Safe, Logged, InLog, BatchEntries, LogOk, TrailerLeft;
    WriteShape(s, step);
  }

  /** Switching memtables and flushing the old one. */
  function SwitchAndFlush(live: set<nat>): seq<Step> {
    [Rotate, FlushStart, FlushBuilt, FlushCommits, DeleteObsoleteFiles(live)]
  }

  /** All that was in the memtable is in the tables of the version then, no memtable
      is waiting, and of the logs only the new one is left, which is empty. */
  lemma {:induction false} FlushFreesLogs(s: State, live: set<nat>)
    requires Safe(s) && Possible(s, Rotate) && s.flush.Idle? && s.current.files + {s.nextFile + 1} <= live
    ensures PossibleRun(s, SwitchAndFlush(live))
    ensures var s' := After(s, SwitchAndFlush(live));
      && s'.mem == [] && s'.imm == None && s'.flush.Idle?
      && s'.current.covers == s.current.covers + s.mem && s'.current == s'.manifest
      && (forall e :: e in s.mem ==> exists f :: f in s'.current.files && f in s'.tables && e in s'.tables[f])
      && (forall n :: n in s'.logs && n != 0 ==> n == s.nextFile && s'.logs[n] == EMPTY_LOG)
  {
    hide FilesOk, NothingLost, Placed, LogOk, PossibleRun, After;
    var s1 := Next(s, Rotate);
    RotateIsSafe(s);
    var s2 := Next(s1, FlushStart);
    FlushStepIsSafe(s1, FlushStart);
    var s3 := Next(s2, FlushBuilt);
    FlushStepIsSafe(s2, FlushBuilt);
    var s4 := Next(s3, FlushCommits);
    FlushCommitIsSafe(s3, FlushCommits);
    var s5 := Next(s4, DeleteObsoleteFiles(live));
    RunOfFive(s, Rotate, FlushStart, FlushBuilt, FlushCommits, DeleteObsoleteFiles(live));
    forall e | e in s.mem
      ensures exists f :: f in s5.current.files && f in s5.tables && e in s5.tables[f]
    {
      assert s.nextFile + 1 in s5.current.files && s5.tables[s.nextFile + 1] == s.mem;
    }
  }

  lemma {:induction false} RunOfFive(s: State, v: Step, w: Step, x: Step, y: Step, z: Step)
    ensures var s2 := Next(Next(s, v), w);
      && (PossibleRun(s, [v, w, x, y, z]) <==>
            && Possible(s, v) && Possible(Next(s, v), w)
            && Possible(s2, x) && Possible(Next(s2, x), y) && Possible(Next(Next(s2, x), y), z))
      && After(s, [v, w, x, y, z]) == Next(Next(Next(s2, x), y), z)
  {
    hide Possible, Next;
    var s1 := Next(s, v);
    var s2 := Next(s1, w);
    RunOfThree(s2, x, y, z);
    assert [v, w, x, y, z][1..] == [w, x, y, z] && [w, x, y, z][1..] == [x, y, z];
    assert PossibleRun(s1, [w, x, y, z]) <==> Possible(s1, w) && PossibleRun(s2, [x, y, z]);
    assert After(s1, [w, x, y, z]) == After(s2, [x, y, z]);
  }

  /** What recovery makes of a crash: exactly what was flushed and what is found in
      the logs that are still needed, all of it in tables, and an empty log. */
  lemma {:induction false} RecoveredIff(s: State, c: Crash, e: Entry)
    requires Safe(s) && Possible(s, CrashAndRecover(c))
    ensures var s' := Next(s, CrashAndRecover(c));
      && (e in s'.current.covers <==>
            || e in s.manifest.covers
            || exists n :: n in s.logs && s.manifest.logNumber <= n && n in c.left && e in Contents(c.left[n]))
      && Holds(s'.tables, s'.current.files, s.manifest.contents
            + Replay(Surviving(s.logs, c), s.manifest.logNumber, s.nextFile))
      && s'.mem == [] && s'.imm == None && s'.logfileNumber in s'.logs && s'.logs[s'.logfileNumber] == EMPTY_LOG
  {
    hide NothingLost, FlushOk, Placed, Replay, MaxSeqno, Contents, LogOk, FilesOk;
    RecoveredFilesOk(s, c);
    var logs := Surviving(s.logs, c);
    InReplay(logs, s.manifest.logNumber, s.nextFile, e);
    FilesHold(Recovered(s, c));
    if n :| n in s.logs && s.manifest.logNumber <= n && n in c.left && e in Contents(c.left[n]) {
      assert InLog(logs[n], e) && n < s.nextFile;
    }
  }

  lemma FilesHold(s: State)
    requires FilesOk(s.tables, s.nextFile, s.current)
    ensures Holds(s.tables, s.current.files, s.current.contents)
  {
  }

  // ---------- Exactly what survives ----------

  /** The crash that leaves no more than it must. */
  function WorstCrash(s: State): Crash {
    var left := map n | n in s.logs :: if s.logs[n].synced <= |s.logs[n].file| then
        s.logs[n].file[..s.logs[n].synced] else [];
    var replay := Replay(Surviving(s.logs, Crash(left, map[], map[], 0)), s.manifest.logNumber, s.nextFile);
    Crash(left, map[s.nextFile := replay], map[], s.nextFile + 1)
  }

  lemma WorstCrashIsPossible(s: State)
    requires Safe(s)
    ensures Possible(s, CrashAndRecover(WorstCrash(s))) && CrashCuts(s.logs, WorstCrash(s))
  {
    hide NothingLost, InLog, InSyncedLog, FilesOk, FlushOk, Placed, Replay, Surviving;
    var c := WorstCrash(s);
    SameLeft(s.logs, c, Crash(c.left, map[], map[], 0));
    assert s.nextFile in c.made.Keys;
  }

  lemma SameLeft(logs: map<nat, LogFile>, c: Crash, c': Crash)
    requires c.left == c'.left
    ensures Surviving(logs, c) == Surviving(logs, c')
  {
  }

  lemma WorstCrashKeepsOnlyHeld(s: State, e: Entry)
    requires Safe(s) && e in Recovered(s, WorstCrash(s)).current.covers
    ensures HeldSynced(s.logs, s.manifest, e)
  {
    hide NothingLost, FilesOk, FlushOk, Placed, Replay, MaxSeqno, Contents;
    var c := WorstCrash(s);
    var logs := Surviving(s.logs, c);
    InReplay(logs, s.manifest.logNumber, s.nextFile, e);
    if e !in s.manifest.covers {
      var n :| n in logs && s.manifest.logNumber <= n < s.nextFile && InLog(logs[n], e);
      assert InSyncedLog(s.logs[n], e);
    }
  }

  /** Exactly what every crash leaves, whatever bytes the logs hold: what has been
      flushed, and what a reader finds in the synced part of a needed log. */
  lemma SurvivesEveryCrashIff(s: State, e: Entry)
    requires Safe(s)
    ensures (forall c :: Possible(s, CrashAndRecover(c)) ==> e in Recovered(s, c).current.covers)
       <==> HeldSynced(s.logs, s.manifest, e)
  {
    hide Safe, Possible, Recovered, WorstCrash, HeldSynced;
    WorstCrashIsPossible(s);
    if e in Recovered(s, WorstCrash(s)).current.covers {
      WorstCrashKeepsOnlyHeld(s, e);
    }
    if HeldSynced(s.logs, s.manifest, e) {
      forall c | Possible(s, CrashAndRecover(c))
        ensures e in Recovered(s, c).current.covers
      {
        HeldSurvives(s, c, e);
      }
    }
  }

  /** A write that succeeded, with sync or not, and that no reader of the log finds,
      is there after a crash, whatever the crash keeps, if and only if it has been
      flushed. */
  lemma HiddenSurvivesIff(cmp: Comparator, s: State, c: Crash, e: Entry)
    requires Inv(cmp, s) && e in s.hidden && Enabled(cmp, s, CrashAndRecover(c))
    ensures e in Recovered(s, c).current.covers <==> e in s.manifest.covers
  {
    hide InSyncedLog, InLog, Replay, Surviving, MaxSeqno, Safe, VersionOk, LogsNewer, MemOk;
    SurvivingFacts(s.logs, c);
    InReplay(Surviving(s.logs, c), s.manifest.logNumber, s.nextFile, e);
  }

  // ---------- Which writes on a damaged log are found ----------

  /** A write on a log that was damaged between two fragments, or before the first
      of a record, is found if no trailer was written since and it ends in the block
      the reader is in. */
  lemma {:induction false} FoundBehindWholeFragments(log: LogFile, step: Step, rs: seq<Slice>, data: Slice, m: nat,
                                                     earlier: seq<Slice>, o: BlockOffset)
    requires step.Write? && step.trailer == [] && log.offset == LogProofs.OffsetAfterAll(earlier, o)
    requires var off := LogProofs.OffsetAfterAll(rs, 0);
      && m < |Fragments(data, off, true)|
      && log.file == LogProofs.LogBytes(CRC, rs, 0)
            + (LogDamage.Head(CRC, data, off, true, m) + LogProofs.LogBytes(CRC, earlier, o))
      && LogDamage.NoTrailers(earlier + [step.record], o) && Trailer(log.offset) == []
      && (if m == 0 then HeaderOffset(off) else 0) + |LogProofs.LogBytes(CRC, earlier + [step.record], o)| <= BLOCK_SIZE
    ensures forall e :: e in BatchEntries(step.record) ==> InLog(Logged(log, step), e)
  {
    hide ReadAll, BatchEntries, Concat, Emitted, OffsetAfter, HeaderOffset, LogProofs.LogBytes, LogDamage.Head,
         LogDamage.NoTrailers, Trailer, LogProofs.OffsetAfterAll, Fragments;
    var off := LogProofs.OffsetAfterAll(rs, 0);
    var log0, left, before := LogProofs.LogBytes(CRC, rs, 0), LogDamage.Head(CRC, data, off, true, m),
        LogProofs.LogBytes(CRC, earlier, o);
    var record := Emitted(CRC, step.record, log.offset, true);
    LogDamage.WholeFragmentsHideNothing(CRC, rs, data, m, earlier + [step.record], o, []);
    LogProofs.LogBytesAppend(CRC, earlier, [step.record], o);
    OneMore(step.record, log.offset);
    SkipTrailer(CRC, step.record, log.offset, true);
    assert [] + Emitted(CRC, step.record, HeaderOffset(log.offset), true) == record;
    var file := Logged(log, step).file;
    assert file == log0 + (left + before) + [] + record == log0 + (left + (before + record + []));
    var n := |rs + earlier|;
    assert (rs + (earlier + [step.record]))[n] == step.record;
    assert Batches(file)[n] == BatchEntries(step.record);
    ConcatHolds(Batches(file), n);
  }

  lemma {:induction false} OneMore(record: Slice, off: BlockOffset)
    ensures LogProofs.LogBytes(CRC, [record], off) == Emitted(CRC, record, off, true)
  {
    hide Emitted, OffsetAfter;
    assert [record][1..] == [] && LogProofs.LogBytes(CRC, [], OffsetAfter(record, off)) == [];
    assert Emitted(CRC, record, off, true) + [] == Emitted(CRC, record, off, true);
  }

  /** Behind the header of a fragment whose payload is missing nothing is found
      while less has been written than the header announces. */
  lemma {:induction false} NothingFoundBehindHeader(log: LogFile, step: Step, rs: seq<Slice>, t: Byte, payload: Slice,
      later: Slice)
    requires IsWrite(step) && LogProofs.OffsetAfterAll(rs, 0) + HEADER_SIZE + |payload| <= BLOCK_SIZE
    requires log.file == LogProofs.LogBytes(CRC, rs, 0) + (Physical(CRC, t, payload)[..HEADER_SIZE] + later)
    requires |Logged(log, step).file| < |LogProofs.LogBytes(CRC, rs, 0)| + HEADER_SIZE + |payload|
    ensures Contents(Logged(log, step).file) == Contents(log.file) == Contents(LogProofs.LogBytes(CRC, rs, 0))
  {
    hide ReadAll, BatchEntries, Concat, Emitted, OffsetAfter, HeaderOffset, LogProofs.LogBytes, Physical,
        LogProofs.OffsetAfterAll, Contents;
    var log0, header, file := LogProofs.LogBytes(CRC, rs, 0), Physical(CRC, t, payload)[..HEADER_SIZE],
        Logged(log, step).file;
    var more := file[|log.file|..];
    assert file == log.file + more;
    assert file == log0 + (header + (later + more));
    BehindHeader(rs, t, payload, later);
    BehindHeader(rs, t, payload, later + more);
  }

  lemma {:induction false} BehindHeader(rs: seq<Slice>, t: Byte, payload: Slice, later: Slice)
    requires LogProofs.OffsetAfterAll(rs, 0) + HEADER_SIZE + |payload| <= BLOCK_SIZE && |later| < |payload|
    ensures Contents(LogProofs.LogBytes(CRC, rs, 0) + (Physical(CRC, t, payload)[..HEADER_SIZE] + later))
         == Contents(LogProofs.LogBytes(CRC, rs, 0))
  {
    hide ReadAll, BatchEntries, Concat, LogProofs.LogBytes, Physical, LogProofs.OffsetAfterAll;
    var log, file := LogProofs.LogBytes(CRC, rs, 0),
        LogProofs.LogBytes(CRC, rs, 0) + (Physical(CRC, t, payload)[..HEADER_SIZE] + later);
    LogDamage.LostBehindHeader(CRC, rs, t, payload, later);
    BatchesOfLog(rs);
    assert Batches(file) == Batches(log);
  }

  // ---------- Two runs with a failed append ----------

  /** The first append of record a fails after `left` bytes, and then record b is
      written with sync. */
  function FailThenWrite(a: Slice, b: Slice, left: nat): seq<Step>
    requires HEADER_SIZE + |a| <= BLOCK_SIZE
  {
    [WriteFails(a, [], left, HEADER_SIZE + |a|), WriteEnds, Write(b, [], true)]
  }

  /** Two batches, the second numbered behind the first, that fit one block. */
  ghost predicate TwoBatches(a: Slice, b: Slice) {
    && HEADER_SIZE + |a| + HEADER_SIZE + |b| <= BLOCK_SIZE
    && IsBatch(0, BatchEntries(a)) && IsBatch(|BatchEntries(a)|, BatchEntries(b))
  }

  lemma {:induction false} RunOfThree(s: State, x: Step, y: Step, z: Step)
    ensures PossibleRun(s, [x, y, z]) <==>
      Possible(s, x) && Possible(Next(s, x), y) && Possible(Next(Next(s, x), y), z)
    ensures After(s, [x, y, z]) == Next(Next(Next(s, x), y), z)
  {
    hide Possible, Next;
    var s1 := Next(s, x);
    var s2 := Next(s1, y);
    assert [x, y, z][1..] == [y, z] && [y, z][1..] == [z] && [z][1..] == [];
    assert PossibleRun(s2, [z]) <==> Possible(s2, z);
    assert PossibleRun(s1, [y, z]) <==> Possible(s1, y) && PossibleRun(s2, [z]);
    assert After(s2, [z]) == Next(s2, z) && After(s1, [y, z]) == After(s2, [z]);
  }

  lemma {:induction false} FailedState(a: Slice, b: Slice, left: nat)
    requires TwoBatches(a, b) && left <= HEADER_SIZE + |a|
    ensures PossibleRun(INITIAL, FailThenWrite(a, b, left))
    ensures var s1 := Next(INITIAL, FailThenWrite(a, b, left)[0]);
      var s2 := Next(s1, WriteEnds);
      var s3 := After(INITIAL, FailThenWrite(a, b, left));
      && s3 == Next(s2, Write(b, [], true))
      && s2.logfileNumber == FIRST_LOG && FIRST_LOG in s2.logs
      && s2.logs[FIRST_LOG].file == Physical(CRC, FULL_TYPE, a)[..left]
      && s3.logs == s2.logs[FIRST_LOG := Logged(s2.logs[FIRST_LOG], Write(b, [], true))] && s3.manifest == EMPTY_VERSION
      && s3.logs[FIRST_LOG].file == Physical(CRC, FULL_TYPE, a)[..left] + Physical(CRC, FULL_TYPE, b)
      && (if forall e :: e in BatchEntries(b) ==> InLog(s3.logs[FIRST_LOG], e)
          then s3.synced == BatchEntries(b) && s3.hidden == [] else s3.hidden == BatchEntries(b))
  {
    hide InLog, BatchEntries, Physical, Emitted, OffsetAfter, Trailer, HeaderOffset, PossibleRun, After;
    RunOfThree(INITIAL, WriteFails(a, [], left, HEADER_SIZE + |a|), WriteEnds, Write(b, [], true));
    LogDamage.OneFragment(CRC, a, 0);
    LogDamage.OneFragment(CRC, b, HEADER_SIZE + |a|);
    EmptyPrefix(0);
    EmptyPrefix(HEADER_SIZE + |a|);
    var x, y := Physical(CRC, FULL_TYPE, a)[..left], Physical(CRC, FULL_TYPE, b);
    assert [] + [] + x == x && x + [] + y == x + y;
    assert [] + BatchEntries(b) == BatchEntries(b);
  }

  lemma EmptyPrefix(offset: BlockOffset)
    ensures TrailerLeft(offset, [])
  {
  }

  /** If the failed append left the header of its fragment, the second batch is
      acknowledged with sync and found by no reader: no crash keeps it. */
  lemma {:induction false} HeaderLeftLosesBatch(cmp: Comparator, a: Slice, b: Slice)
    requires TwoBatches(a, b) && HEADER_SIZE + |b| < |a| && BatchEntries(b) != []
    ensures EnabledRun(cmp, INITIAL, FailThenWrite(a, b, HEADER_SIZE))
    ensures var s := After(INITIAL, FailThenWrite(a, b, HEADER_SIZE));
      && s.hidden == BatchEntries(b)
      && forall c, e :: Enabled(cmp, s, CrashAndRecover(c)) && e in BatchEntries(b) ==>
            e !in Recovered(s, c).current.covers
  {
    hide BatchEntries, Inv, Enabled, Recovered, Contents, FailThenWrite, PossibleRun, Next, IsBatch;
    FailedState(a, b, HEADER_SIZE);
    HeaderRun(cmp, a, b);
    InitialInv(cmp);
    var steps := FailThenWrite(a, b, HEADER_SIZE);
    RunKeepsInv(cmp, INITIAL, steps);
    var s := After(INITIAL, steps);
    NothingFound(a, b);
    assert BatchEntries(b)[0] in BatchEntries(b) && !InLog(s.logs[FIRST_LOG], BatchEntries(b)[0]);
    forall c, e | Enabled(cmp, s, CrashAndRecover(c)) && e in BatchEntries(b)
      ensures e !in Recovered(s, c).current.covers
    {
      HiddenSurvivesIff(cmp, s, c, e);
    }
  }

  lemma {:induction false} NothingFound(a: Slice, b: Slice)
    requires HEADER_SIZE + |a| <= BLOCK_SIZE && HEADER_SIZE + |b| < |a|
    ensures var header := Physical(CRC, FULL_TYPE, a)[..HEADER_SIZE];
      Contents([]) == [] && Contents(header) == [] && Contents(header + Physical(CRC, FULL_TYPE, b)) == []
  {
    hide Physical, ReadAll, BatchEntries;
    var header, later := Physical(CRC, FULL_TYPE, a)[..HEADER_SIZE], Physical(CRC, FULL_TYPE, b);
    LogDamage.LostBehindHeader(CRC, [], FULL_TYPE, a, later);
    assert LogProofs.LogBytes(CRC, [], 0) + (header + later) == header + later;
    assert Batches(header + later) == [];
    ContentsGrow(header, header + later);
    ContentsGrow([], header);
  }

  lemma {:induction false} HeaderRun(cmp: Comparator, a: Slice, b: Slice)
    requires TwoBatches(a, b) && HEADER_SIZE + |b| < |a|
    ensures EnabledRun(cmp, INITIAL, FailThenWrite(a, b, HEADER_SIZE))
  {
    hide BatchEntries, Contents, Physical, Logged, Possible, Next, After;
    var steps := FailThenWrite(a, b, HEADER_SIZE);
    FailedState(a, b, HEADER_SIZE);
    RunOfThree(INITIAL, steps[0], WriteEnds, steps[2]);
    NothingFound(a, b);
    var s1 := Next(INITIAL, steps[0]);
    var s2 := Next(s1, WriteEnds);
    assert LogOk(EMPTY_LOG) && steps[0].trailer == Trailer(0) by { EmptyLog(); LogDamage.OneFragment(CRC, a, 0); }
    UndamagedHasNoStrays(EMPTY_LOG, steps[0]);
    assert Enabled(cmp, s2, steps[2]) && EnabledRun(cmp, s2, [steps[2]]);
    assert steps[1..] == [WriteEnds, steps[2]] && [WriteEnds, steps[2]][1..] == [steps[2]];
    assert EnabledRun(cmp, s1, steps[1..]);
  }

  /** If it left nothing, the second batch is found, and every crash keeps it. */
  lemma {:induction false} NothingLeftKeepsBatch(a: Slice, b: Slice, c: Crash)
    requires TwoBatches(a, b)
    ensures PossibleRun(INITIAL, FailThenWrite(a, b, 0))
    ensures var s := After(INITIAL, FailThenWrite(a, b, 0));
      && s.synced == BatchEntries(b)
      && (Possible(s, CrashAndRecover(c)) ==> forall e :: e in BatchEntries(b) ==> e in Recovered(s, c).current.covers)
  {
    hide BatchEntries, Safe, Possible, Recovered, Contents, FailThenWrite, PossibleRun, Next, IsBatch, Physical;
    FailedState(a, b, 0);
    InitialIsSafe();
    var steps := FailThenWrite(a, b, 0);
    RunIsSafe(INITIAL, steps);
    var s := After(INITIAL, steps);
    OneRecordFound(a, b);
    forall e | Possible(s, CrashAndRecover(c)) && e in s.synced
      ensures e in Recovered(s, c).current.covers
    {
      SyncedWritesSurvive(s, c, e);
    }
  }

  lemma {:induction false} OneRecordFound(a: Slice, b: Slice)
    requires HEADER_SIZE + |a| <= BLOCK_SIZE && HEADER_SIZE + |b| <= BLOCK_SIZE
    ensures Contents(Physical(CRC, FULL_TYPE, a)[..0] + Physical(CRC, FULL_TYPE, b)) == BatchEntries(b)
  {
    hide Physical, BatchEntries, Contents;
    LogDamage.OneFragment(CRC, b, 0);
    LogBytesOne([], b);
    var y := Physical(CRC, FULL_TYPE, b);
    assert [] + [b] == [b] && Physical(CRC, FULL_TYPE, a)[..0] + y == y;
    assert LogProofs.LogBytes(CRC, [], 0) + y == y;
    ContentsOfLonger([], b);
    assert Contents([]) == [] by { EmptyContents(); }
    assert [] + BatchEntries(b) == BatchEntries(b);
  }

  lemma EmptyContents()
    ensures Contents([]) == []
  {
    hide ReadAll;
    BatchesOfLog([]);
  }

  /** There are such batches: a put of a hundred bytes and a short one. */
  lemma SuchBatches() returns (a: Slice, b: Slice)
    ensures TwoBatches(a, b) && HEADER_SIZE + |b| < |a| && BatchEntries(b) != []
  {
    hide BatchEntries, WriteBatch.EncodeOps;
    var first, second := WriteBatch.Put([1], seq(100, _ => 0)), WriteBatch.Put([2], []);
    a := BuildOne(first, 1);
    b := BuildOne(second, 2);
  }

  lemma {:induction false} BuildOne(op: WriteBatch.Op, seqno: Sequence) returns (rep: Slice)
    requires op.Put? && |op.key| == 1 && |op.value| < 0x80 && seqno >= 1
    ensures |rep| == 16 + |op.value|
    ensures IsBatch(seqno - 1, BatchEntries(rep)) && |BatchEntries(rep)| == 1
  {
    hide BatchEntries, EncodeFixed, DecodeFixed;
    rep := EncodeFixed(seqno, 8) + EncodeFixed(1, 4) + WriteBatch.EncodeOps([op]);
    WriteBatch.EncodeOpsOne(op);
    assert rep[..8] == EncodeFixed(seqno, 8) && rep[8..12] == EncodeFixed(1, 4)
        && rep[12..] == WriteBatch.EncodeOps([op]);
    Pow256Of8();
    DecodeAfterEncodeFixed(seqno, 8);
    BuiltBatch(rep, [op], seqno - 1);
  }
}
