/** The writer queue of DBImpl::Write: one writer at the front logs and applies a
    group of batches for itself and for writers queued behind it. */
module WriteQueue {
  import opened DbFormat
  import opened WriteBatch

  /** A caller's write batch: its operations, and its contents. */
  datatype Batch = Batch(ops: seq<Op>, rep: Slice)

  /** A caller of Write.  A null batch only waits for its turn (and forces a new memtable). */
  datatype Writer = Writer(id: nat, batch: Option<Batch>, sync: bool) {
    function Ops(): seq<Op> { if batch.Some? then batch.value.ops else [] }
    function Size(): nat { if batch.Some? then |batch.value.rep| else 0 }

    /** The batch was made by Put, Delete and Append. */
    ghost predicate Built() { batch.Some? ==> IsRep(batch.value.rep, batch.value.ops) }
  }

  ghost predicate AllBuilt(ws: seq<Writer>) {
    forall w :: w in ws ==> w.Built()
  }

  // ---------- Forming a group ----------

  const SMALL_WRITE := 0x2_0000      // 128 << 10
  const MAX_GROUP := 0x10_0000       // 1 << 20

  function MaxGroupSize(first: nat): nat {
    if first <= SMALL_WRITE then first + SMALL_WRITE else MAX_GROUP
  }

  function TotalSize(ws: seq<Writer>): nat {
    if ws == [] then 0 else TotalSize(ws[..|ws| - 1]) + ws[|ws| - 1].Size()
  }

  function MergedOps(ws: seq<Writer>): seq<Op> {
    if ws == [] then [] else MergedOps(ws[..|ws| - 1]) + ws[|ws| - 1].Ops()
  }

  /** Writer i may join the group led by the first writer, given those before it. */
  predicate Joins(queue: seq<Writer>, i: nat)
    requires 0 < i < |queue|
  {
    && !(queue[i].sync && !queue[0].sync)
    && (queue[i].batch.Some? ==> TotalSize(queue[..i + 1]) <= MaxGroupSize(queue[0].Size()))
  }

  /** The group is the longest run of writers from the front that may join. */
  ghost predicate IsGroup(queue: seq<Writer>, n: nat) {
    && 1 <= n <= |queue|
    && (forall i :: 0 < i < n ==> Joins(queue, i))
    && (n < |queue| ==> !Joins(queue, n))
  }

  lemma GroupIsUnique(queue: seq<Writer>, m: nat, n: nat)
    requires IsGroup(queue, m) && IsGroup(queue, n)
    ensures m == n
  {
  }

  lemma {:induction false} OpsTakeBytes(ops: seq<Op>)
    ensures |ops| <= |EncodeOps(ops)|
    decreases |ops|
  {
    hide EncodeOp;
    if ops != [] {
      OpsTakeBytes(ops[1..]);
    }
  }

  lemma {:induction false} GroupTakesBytes(ws: seq<Writer>)
    requires AllBuilt(ws)
    ensures |MergedOps(ws)| <= TotalSize(ws)
    decreases |ws|
  {
    hide EncodeOps;
    if ws != [] {
      var n := |ws| - 1;
      GroupTakesBytes(ws[..n]);
      OpsTakeBytes(ws[n].Ops());
      assert ws[n] in ws;
    }
  }

  /** The operations of any group can be counted in one batch. */
  lemma {:induction false} GroupCountFits(queue: seq<Writer>, n: nat)
    requires 1 <= n <= |queue| && (forall i :: 0 < i < n ==> Joins(queue, i)) && AllBuilt(queue)
    ensures |MergedOps(queue[..n])| <= MAX_COUNT
    decreases n
  {
    hide IsRep;
    var ws := queue[..n];
    assert ws[..n - 1] == queue[..n - 1];
    if n == 1 {
      BuiltCountFits(queue[0]);
      assert MergedOps(queue[..0]) == [];
    } else if queue[n - 1].batch.Some? {
      GroupTakesBytes(ws);
      assert Joins(queue, n - 1);
    } else {
      GroupCountFits(queue, n - 1);
    }
  }

  lemma BuiltCountFits(w: Writer)
    requires w.Built()
    ensures |w.Ops()| <= MAX_COUNT
  {
  }

  /** One more writer in a group. */
  lemma {:induction false} GroupGrows(queue: seq<Writer>, n: nat)
    requires 1 <= n < |queue|
    ensures TotalSize(queue[..n + 1]) == TotalSize(queue[..n]) + queue[n].Size()
    ensures MergedOps(queue[..n + 1]) == MergedOps(queue[..n]) + queue[n].Ops()
    ensures queue[n].batch.None? ==> MergedOps(queue[..n + 1]) == MergedOps(queue[..n])
  {
    assert queue[..n + 1][..n] == queue[..n];
  }

  lemma {:induction false} GroupOfOne(queue: seq<Writer>)
    requires queue != []
    ensures TotalSize(queue[..1]) == queue[0].Size() && MergedOps(queue[..1]) == queue[0].Ops()
  {
    assert queue[..1][..0] == [] && TotalSize([]) == 0 && MergedOps([]) == [];
    assert [] + queue[0].Ops() == queue[0].Ops();
  }

  /** BuildBatchGroup: how many writers the group takes, and its combined batch. */
  method BuildBatchGroup(queue: seq<Writer>) returns (n: nat, result: Slice)
    requires queue != [] && queue[0].batch.Some? && AllBuilt(queue)
    ensures IsGroup(queue, n) && IsRep(result, MergedOps(queue[..n]))
  {
    hide IsRep, EncodeOps, TotalSize, MergedOps;
    var first := queue[0];
    assert first in queue;
    result := first.batch.value.rep;
    var tmp: WriteBatch? := null;
    var size := |result|;
    var maxSize := MAX_GROUP;
    if size <= SMALL_WRITE {
      maxSize := size + SMALL_WRITE;
    }
    n := 1;
    GroupOfOne(queue);
    while n < |queue|
      invariant 1 <= n <= |queue|
      invariant size == TotalSize(queue[..n]) && IsRep(result, MergedOps(queue[..n]))
      invariant tmp != null ==> fresh(tmp) && tmp.Valid() && tmp.ops == MergedOps(queue[..n])
      invariant tmp == null ==> MergedOps(queue[..n]) == first.Ops() && result == first.batch.value.rep
      invariant forall i :: 0 < i < n ==> Joins(queue, i)
    {
      var w := queue[n];
      assert w in queue;
      GroupGrows(queue, n);
      if w.sync && !first.sync { return; }
      if w.batch.Some? {
        size := size + |w.batch.value.rep|;
        if size > maxSize { return; }
        GroupCountFits(queue, n + 1);
        if tmp == null {
          tmp := new WriteBatch();
          BuiltCountFits(first);
          tmp.Append(first.batch.value.rep, first.batch.value.ops);
          assert [] + first.batch.value.ops == first.Ops();
        }
        tmp.Append(w.batch.value.rep, w.batch.value.ops);
        result := tmp.rep;
      }
      n := n + 1;
    }
  }

  // ---------- The protocol as a state machine ----------

  datatype Status = OK | Failed

  datatype LogRecord = LogRecord(start: nat, ops: seq<Op>)
  datatype MemEntry = MemEntry(seqno: nat, op: Op)

  /** A group, its combined batch, and how far it got: in the log, synced, and
      how many of the operations that Iterate hands over reached the memtable. */
  datatype Group = Group(writers: seq<Writer>, start: nat, ops: seq<Op>, rep: Slice, logged: bool, synced: bool,
      inserted: nat, status: Status) {
    function End(): int { start + |ops| - 1 }
    function Handed(): seq<Op> { Iterate(rep).0 }
    predicate Accepted() { Iterate(rep).1 }
  }

  datatype Stage = ToLog | ToSync | ToInsert | ToFinish

  datatype State = State(
    queue: seq<Writer>,
    log: seq<LogRecord>,
    mem: seq<MemEntry>,
    lastSequence: nat,
    bgError: bool,
    done: seq<(Writer, Status)>,      // writers released so far, in order
    arrived: seq<Writer>,             // writers that ever called Write, in order
    current: Option<Group>,           // the group being committed with the mutex released
    stage: Stage,
    syncError: bool,
    history: seq<(Group, nat)>)       // finished groups, each with its writers' place in done

  const INITIAL := State([], [], [], 0, false, [], [], None, ToFinish, false, [])

  datatype Step =
    | Enqueue(w: Writer)
    | NoRoom                 // MakeRoomForWrite fails for the front writer
    | NullBatch              // MakeRoomForWrite succeeds for a null batch
    | Begin(n: nat, rep: Slice)   // it succeeds, and a group of n writers is formed
    | AddRecord(ok: bool)    // the log append, without the mutex
    | Sync(ok: bool)
    | Insert                 // one operation reaches the memtable
    | InsertOk               // all that is handed over is inserted, and Iterate returns OK
    | InsertFails            // or an error
    | Finish                 // LastSequence advances and the group leaves the queue

  function Released(ws: seq<Writer>, status: Status): (r: seq<(Writer, Status)>)
    ensures |r| == |ws| && forall i :: 0 <= i < |ws| ==> r[i] == (ws[i], status)
  {
    seq(|ws|, i requires 0 <= i < |ws| => (ws[i], status))
  }

  class WriterDeque {
    var writers: seq<Writer>
    var done: seq<(Writer, Status)>

    constructor ()
      ensures writers == [] && done == []
    {
      writers, done := [], [];
    }

    /** The loop at the end of Write: pops writers from the front up to and
        including the last one of the group, giving each the group's status. */
    method ReleaseGroup(ghost n: nat, lastWriter: Writer, status: Status)
      requires 1 <= n <= |writers| && writers[n - 1] == lastWriter
      requires forall i, j :: 0 <= i < j < |writers| ==> writers[i] != writers[j]
      modifies this
      ensures writers == old(writers)[n..]
      ensures done == old(done) + Released(old(writers)[..n], status)
    {
      ghost var k := 0;
      while true
        invariant 0 <= k < n && writers == old(writers)[k..]
        invariant done == old(done) + Released(old(writers)[..k], status)
        decreases n - k
      {
        var ready := writers[0];
        writers := writers[1..];
        done := done + [(ready, status)];
        assert Released(old(writers)[..k + 1], status) == Released(old(writers)[..k], status) + [(ready, status)];
        k := k + 1;
        if ready == lastWriter { break; }
      }
    }
  }

  ghost predicate Enabled(s: State, step: Step) {
    match step
    case Enqueue(w) => w.Built()
    case NoRoom => s.current.None? && s.queue != []
    case NullBatch => s.current.None? && s.queue != [] && s.queue[0].batch.None? && !s.bgError
    case Begin(n, rep) =>
      && s.current.None? && s.queue != [] && s.queue[0].batch.Some? && !s.bgError
      && IsGroup(s.queue, n) && IsRep(rep, MergedOps(s.queue[..n]))
    case AddRecord(_) => s.current.Some? && s.stage.ToLog?
    case Sync(_) => s.current.Some? && s.stage.ToSync?
    case Insert => s.current.Some? && s.stage.ToInsert? && s.current.value.inserted < |s.current.value.Handed()|
    case InsertOk => s.current.Some? && s.stage.ToInsert? && s.current.value.inserted == |s.current.value.Handed()|
        && s.current.value.Accepted()
    case InsertFails => s.current.Some? && s.stage.ToInsert? && s.current.value.inserted == |s.current.value.Handed()|
        && !s.current.value.Accepted()
    case Finish => s.current.Some? && s.stage.ToFinish?
  }

  function PopFront(s: State, status: Status): State
    requires s.queue != []
  {
    s.(queue := s.queue[1..], done := s.done + Released(s.queue[..1], status))
  }

  // ---------- The invariant ----------

  function LogOf(g: Group): seq<LogRecord> {
    if g.logged then [LogRecord(g.start, g.ops)] else []
  }

  /** The first n operations with the sequence numbers they are given. */
  function Numbered(start: nat, ops: seq<Op>, n: nat): (m: seq<MemEntry>)
    requires n <= |ops|
    ensures |m| == n && forall i :: 0 <= i < n ==> m[i] == MemEntry(start + i, ops[i])
  {
    seq(n, i requires 0 <= i < n => MemEntry(start + i, ops[i]))
  }

  function MemOf(g: Group): seq<MemEntry> {
    if g.inserted <= |g.Handed()| then Numbered(g.start, g.Handed(), g.inserted) else []
  }

  ghost predicate GroupOk(g: Group) {
    && g.writers != [] && g.ops == MergedOps(g.writers) && IsRep(g.rep, g.ops)
    && g.inserted <= |g.Handed()| && (g.inserted > 0 ==> g.logged)
    && (forall w :: w in g.writers && w.sync ==> g.writers[0].sync)
  }

  /** What a group's status says once nothing more happens to it. */
  ghost predicate Settled(g: Group)
    requires g.writers != []
  {
    && (g.inserted == 0 || g.inserted == |g.Handed()|)
    && (g.status.OK? ==> g.logged && g.inserted == |g.Handed()| && g.Accepted() && (g.writers[0].sync ==> g.synced))
    && (g.status.Failed? ==> g.inserted == 0 || !g.Accepted())
  }

  ghost predicate StageOk(g: Group, stage: Stage)
    requires g.writers != []
  {
    match stage
    case ToLog => g.status.OK? && !g.logged && g.inserted == 0
    case ToSync => g.status.OK? && g.logged && g.inserted == 0 && g.writers[0].sync
    case ToInsert => g.status.OK? && g.logged && (g.writers[0].sync ==> g.synced)
    case ToFinish => Settled(g)
  }

  /** Sequence numbers are handed out to finished groups without gap or overlap. */
  ghost predicate Contiguous(history: seq<(Group, nat)>, last: nat)
    decreases |history|
  {
    if history == [] then last == 0
    else
      var n := |history| - 1;
      && history[n].0.End() == last && history[n].0.start >= 1
      && Contiguous(history[..n], history[n].0.start - 1)
  }

  ghost predicate HistoryOk(history: seq<(Group, nat)>, done: seq<(Writer, Status)>) {
    forall h :: h in history ==>
      && GroupOk(h.0) && Settled(h.0)
      && h.1 + |h.0.writers| <= |done|
      && done[h.1..h.1 + |h.0.writers|] == Released(h.0.writers, h.0.status)
  }

  ghost function AllLogs(history: seq<(Group, nat)>): seq<LogRecord> {
    if history == [] then [] else AllLogs(history[..|history| - 1]) + LogOf(history[|history| - 1].0)
  }

  ghost function AllMem(history: seq<(Group, nat)>): seq<MemEntry> {
    if history == [] then [] else AllMem(history[..|history| - 1]) + MemOf(history[|history| - 1].0)
  }

  ghost predicate CurrentOk(current: Option<Group>, stage: Stage, queue: seq<Writer>, lastSequence: nat) {
    current.Some? ==>
      var g := current.value;
      && GroupOk(g) && StageOk(g, stage)
      && |g.writers| <= |queue| && g.writers == queue[..|g.writers|]
      && g.start == lastSequence + 1
  }

  /** Every writer that arrived is in the queue or was released, in order, once. */
  ghost predicate QueueOk(arrived: seq<Writer>, done: seq<(Writer, Status)>, queue: seq<Writer>) {
    && |arrived| == |done| + |queue|
    && (forall i :: 0 <= i < |done| ==> done[i].0 == arrived[i])
    && queue == arrived[|done|..]
    && AllBuilt(arrived)
  }

  /** The log and the memtable hold the groups in order and nothing else. */
  ghost predicate ContentsOk(log: seq<LogRecord>, mem: seq<MemEntry>, history: seq<(Group, nat)>,
      current: Option<Group>) {
    && log == AllLogs(history) + (if current.Some? then LogOf(current.value) else [])
    && mem == AllMem(history) + (if current.Some? then MemOf(current.value) else [])
  }

  ghost predicate Inv(s: State) {
    && HistoryOk(s.history, s.done)
    && Contiguous(s.history, s.lastSequence)
    && CurrentOk(s.current, s.stage, s.queue, s.lastSequence)
    && QueueOk(s.arrived, s.done, s.queue)
    && ContentsOk(s.log, s.mem, s.history, s.current)
  }

  ghost function Next(s: State, step: Step): State
    requires Inv(s) && Enabled(s, step)
  {
    hide HistoryOk, Contiguous, ContentsOk, QueueOk, StageOk, IsRep, Joins;
    match step
    case Enqueue(w) => s.(queue := s.queue + [w], arrived := s.arrived + [w])
    case NoRoom => PopFront(s, Failed)
    case NullBatch => PopFront(s, OK)
    case Begin(n, rep) =>
      s.(current := Some(Group(s.queue[..n], s.lastSequence + 1, MergedOps(s.queue[..n]), rep, false, false, 0, OK)),
          stage := ToLog, syncError := false)
    case AddRecord(ok) =>
      var g := s.current.value;
      if ok then
        s.(log := s.log + [LogRecord(g.start, g.ops)], current := Some(g.(logged := true)),
           stage := if g.writers[0].sync then ToSync else ToInsert)
      else
        s.(current := Some(g.(status := Failed)), stage := ToFinish)
    case Sync(ok) =>
      var g := s.current.value;
      if ok then s.(current := Some(g.(synced := true)), stage := ToInsert)
      else s.(current := Some(g.(status := Failed)), stage := ToFinish, syncError := true)
    case Insert =>
      var g := s.current.value;
      s.(mem := s.mem + [MemEntry(g.start + g.inserted, g.Handed()[g.inserted])],
          current := Some(g.(inserted := g.inserted + 1)))
    case InsertOk => s.(stage := ToFinish)
    case InsertFails => s.(current := Some(s.current.value.(status := Failed)), stage := ToFinish)
    case Finish =>
      var g := s.current.value;
      s.(lastSequence := s.lastSequence + |g.ops|, bgError := s.bgError || s.syncError,
         queue := s.queue[|g.writers|..], done := s.done + Released(g.writers, g.status),
         history := s.history + [(g, |s.done|)], current := None)
  }

  lemma InitialInv()
    ensures Inv(INITIAL)
  {
  }

  lemma StepKeepsInv(s: State, step: Step)
    requires Inv(s) && Enabled(s, step)
    ensures Inv(Next(s, step))
  {
    hide AllLogs, AllMem, Contiguous;
    match step
    case Enqueue(w) => EnqueueKeepsInv(s, w);
    case NoRoom => PopKeepsInv(s, Failed);
    case NullBatch => PopKeepsInv(s, OK);
    case Begin(n, rep) => BeginKeepsInv(s, n, rep);
    case AddRecord(ok) => AddRecordKeepsInv(s, ok);
    case Sync(ok) => SyncOrFailKeepsInv(s, step);
    case Insert => InsertKeepsInv(s);
    case InsertOk => SyncOrFailKeepsInv(s, step);
    case InsertFails => SyncOrFailKeepsInv(s, step);
    case Finish => FinishKeepsInv(s);
  }

  lemma EnqueueKeepsInv(s: State, w: Writer)
    requires Inv(s) && w.Built()
    ensures Inv(Next(s, Enqueue(w)))
  {
    hide AllLogs, AllMem, Contiguous, HistoryOk, GroupOk, StageOk, IsRep;
  }

  lemma ReleaseKeepsQueue(s: State, n: nat, status: Status)
    requires QueueOk(s.arrived, s.done, s.queue) && n <= |s.queue| && HistoryOk(s.history, s.done)
    ensures var s' := s.(queue := s.queue[n..], done := s.done + Released(s.queue[..n], status));
      QueueOk(s'.arrived, s'.done, s'.queue) && HistoryOk(s'.history, s'.done)
  {
    hide GroupOk, Settled;
    var done' := s.done + Released(s.queue[..n], status);
    forall h | h in s.history
      ensures done'[h.1..h.1 + |h.0.writers|] == s.done[h.1..h.1 + |h.0.writers|]
    {
    }
  }

  lemma PopKeepsInv(s: State, status: Status)
    requires Inv(s) && s.current.None? && s.queue != []
    ensures Inv(PopFront(s, status))
  {
    hide AllLogs, AllMem, Contiguous, HistoryOk, QueueOk, IsRep, Iterate;
    ReleaseKeepsQueue(s, 1, status);
  }

  lemma BeginKeepsInv(s: State, n: nat, rep: Slice)
    requires Inv(s) && Enabled(s, Begin(n, rep))
    ensures Inv(Next(s, Begin(n, rep)))
  {
    hide AllLogs, AllMem, Contiguous, HistoryOk, QueueOk, IsRep, Iterate;
    var ws := s.queue[..n];
    forall w | w in ws && w.sync
      ensures ws[0].sync
    {
      var i :| 0 <= i < n && s.queue[i] == w;
      assert i > 0 ==> Joins(s.queue, i);
    }
  }

  lemma AddRecordKeepsInv(s: State, ok: bool)
    requires Inv(s) && Enabled(s, AddRecord(ok))
    ensures Inv(Next(s, AddRecord(ok)))
  {
    hide AllLogs, AllMem, Contiguous, HistoryOk, QueueOk, IsRep, Iterate;
  }

  lemma SyncOrFailKeepsInv(s: State, step: Step)
    requires Inv(s) && Enabled(s, step) && (step.Sync? || step.InsertOk? || step.InsertFails?)
    ensures Inv(Next(s, step))
  {
    hide AllLogs, AllMem, Contiguous, HistoryOk, QueueOk, IsRep, Iterate;
  }

  lemma InsertKeepsInv(s: State)
    requires Inv(s) && Enabled(s, Insert)
    ensures Inv(Next(s, Insert))
  {
    hide AllLogs, AllMem, Contiguous, HistoryOk, QueueOk, IsRep, Iterate;
    var g := s.current.value;
    var g' := Next(s, Insert).current.value;
    assert MemOf(g') == MemOf(g) + [MemEntry(g.start + g.inserted, g.Handed()[g.inserted])];
    assert Next(s, Insert).mem == AllMem(s.history) + MemOf(g');
  }

  lemma FinishKeepsInv(s: State)
    requires Inv(s) && Enabled(s, Finish)
    ensures Inv(Next(s, Finish))
  {
    hide HistoryOk, QueueOk, LogOf, MemOf, GroupOk, Settled, IsRep, Iterate, MergedOps, IsGroup;
    var g := s.current.value;
    var s' := Next(s, Finish);
    assert s'.history[..|s.history|] == s.history;
    ReleaseKeepsQueue(s, |g.writers|, g.status);
    HistoryGrows(s, g, s'.done);
  }

  lemma HistoryGrows(s: State, g: Group, done': seq<(Writer, Status)>)
    requires HistoryOk(s.history, done') && GroupOk(g) && Settled(g)
    requires done' == s.done + Released(g.writers, g.status)
    ensures HistoryOk(s.history + [(g, |s.done|)], done')
  {
  }

  // ---------- Runs ----------

  ghost predicate EnabledRun(s: State, steps: seq<Step>)
    requires Inv(s)
    decreases |steps|
  {
    steps != [] ==>
      && Enabled(s, steps[0])
      && (StepKeepsInv(s, steps[0]); EnabledRun(Next(s, steps[0]), steps[1..]))
  }

  /** The state after a run, which keeps the invariant. */
  ghost function After(s: State, steps: seq<Step>): (s': State)
    requires Inv(s) && EnabledRun(s, steps)
    ensures Inv(s')
    decreases |steps|
  {
    if steps == [] then s
    else
      StepKeepsInv(s, steps[0]);
      After(Next(s, steps[0]), steps[1..])
  }

  function Visible(mem: seq<MemEntry>, snapshot: nat): seq<MemEntry> {
    if mem == [] then []
    else
      var n := |mem| - 1;
      Visible(mem[..n], snapshot) + if mem[n].seqno <= snapshot then [mem[n]] else []
  }

  /** What a reader at an old LastSequence sees never changes afterwards, and
      records, releases and groups are only ever added at the end. */
  lemma {:induction false} RunOnlyAppends(s: State, steps: seq<Step>, snapshot: nat)
    requires Inv(s) && EnabledRun(s, steps) && snapshot <= s.lastSequence
    ensures var s' := After(s, steps);
      && s.lastSequence <= s'.lastSequence
      && s.log <= s'.log && s.mem <= s'.mem && s.done <= s'.done && s.history <= s'.history && s.arrived <= s'.arrived
      && Visible(s'.mem, snapshot) == Visible(s.mem, snapshot)
    decreases |steps|
  {
    if steps != [] {
      StepKeepsInv(s, steps[0]);
      StepOnlyAppends(s, steps[0], snapshot);
      RunOnlyAppends(Next(s, steps[0]), steps[1..], snapshot);
    }
  }

  lemma {:induction false} StepOnlyAppends(s: State, step: Step, snapshot: nat)
    requires Inv(s) && Enabled(s, step) && snapshot <= s.lastSequence
    ensures var s' := Next(s, step);
      && s.lastSequence <= s'.lastSequence
      && s.log <= s'.log && s.mem <= s'.mem && s.done <= s'.done && s.history <= s'.history && s.arrived <= s'.arrived
      && Visible(s'.mem, snapshot) == Visible(s.mem, snapshot)
  {
    hide HistoryOk, Contiguous, QueueOk, ContentsOk, GroupOk, StageOk, IsGroup, IsRep, Iterate;
    if step.Insert? {
      var s' := Next(s, step);
      assert s'.mem[..|s'.mem| - 1] == s.mem;
    }
  }

  // ---------- Sequence numbers ----------

  /** Groups take disjoint ranges of sequence numbers, in queue order. */
  lemma {:induction false} RangesDisjoint(history: seq<(Group, nat)>, last: nat, i: nat, j: nat)
    requires Contiguous(history, last) && i < j < |history|
    ensures history[i].0.End() < history[j].0.start && history[j].0.End() <= last
    decreases |history|
  {
    var n := |history| - 1;
    if j < n {
      RangesDisjoint(history[..n], history[n].0.start - 1, i, j);
    } else if i < n - 1 {
      RangesDisjoint(history[..n], history[n].0.start - 1, i, n - 1);
    }
  }

  /** The group's batch is handed over as it was built. */
  predicate AsBuilt(g: Group) { g.Handed() == g.ops && g.Accepted() && g.inserted <= |g.ops| }

  /** No group inserted more than it has sequence numbers for. */
  ghost predicate AllWithin(history: seq<(Group, nat)>) {
    forall i :: 0 <= i < |history| ==>
        && history[i].0.inserted <= |history[i].0.ops|
        && history[i].0.inserted <= |history[i].0.Handed()|
  }

  lemma {:induction false} MemBounded(history: seq<(Group, nat)>, last: nat, e: MemEntry)
    requires Contiguous(history, last) && e in AllMem(history) && AllWithin(history)
    ensures 1 <= e.seqno <= last
    decreases |history|
  {
    hide Iterate;
    var n := |history| - 1;
    assert history[n].0.inserted <= |history[n].0.ops|;
    if e in AllMem(history[..n]) {
      MemBounded(history[..n], history[n].0.start - 1, e);
    }
  }

  lemma MemOfMembers(g: Group, e: MemEntry)
    requires g.inserted <= |g.Handed()|
    ensures e in MemOf(g) <==> 0 <= e.seqno - g.start < g.inserted && e.op == g.Handed()[e.seqno - g.start]
  {
    hide Iterate;
    if 0 <= e.seqno - g.start < g.inserted && e.op == g.Handed()[e.seqno - g.start] {
      assert MemOf(g)[e.seqno - g.start] == e;
    }
  }

  lemma {:induction false} AllMemMembers(history: seq<(Group, nat)>, e: MemEntry)
    requires history != []
    ensures e in AllMem(history) <==> e in AllMem(history[..|history| - 1]) || e in MemOf(history[|history| - 1].0)
  {
  }

  /** Exactly the operations a group inserted are in the memtable under the
      sequence numbers it was given. */
  lemma {:induction false} InMemIff(history: seq<(Group, nat)>, last: nat, k: nat, e: MemEntry)
    requires Contiguous(history, last) && k < |history| && AllWithin(history)
    requires history[k].0.start <= e.seqno <= history[k].0.End()
    ensures e in AllMem(history) <==>
      var i := e.seqno - history[k].0.start;
      && i < history[k].0.inserted <= |history[k].0.Handed()|
      && e.op == history[k].0.Handed()[i]
    decreases |history|
  {
    hide AllMem, MemOf, Iterate;
    var n := |history| - 1;
    var front := history[..n];
    var g := history[n].0;
    assert g.inserted <= |g.ops|;
    AllMemMembers(history, e);
    MemOfMembers(g, e);
    if k == n {
      if e in AllMem(front) {
        MemBounded(front, g.start - 1, e);
      }
    } else {
      RangesDisjoint(history, last, k, n);
      InMemIff(front, g.start - 1, k, e);
    }
  }

  // ---------- All or nothing ----------

  /** Entry i of group g, under the sequence number it was given. */
  function EntryOf(g: Group, i: nat): MemEntry
    requires i < |g.ops|
  {
    MemEntry(g.start + i, g.ops[i])
  }

  /** Every key and value that a caller put in a batch is shorter than 2^32 bytes. */
  predicate CallersFit(ws: seq<Writer>) {
    forall w :: w in ws ==> AllFit(w.Ops())
  }

  lemma {:induction false} MergedFit(ws: seq<Writer>)
    requires CallersFit(ws)
    ensures AllFit(MergedOps(ws))
    decreases |ws|
  {
    hide Fits;
    if ws != [] {
      MergedFit(ws[..|ws| - 1]);
      assert ws[|ws| - 1] in ws;
    }
  }

  /** What is inserted for a group is the group if and only if all of it fits. */
  lemma GroupAsBuiltIff(g: Group)
    requires GroupOk(g)
    ensures AsBuilt(g) <==> AllFit(g.ops)
  {
    hide AllFit, IsRep, Iterate;
    IteratesAsBuiltIff(g.rep, g.ops);
    assert Iterate(g.rep) == (g.Handed(), g.Accepted());
  }

  /** While all that callers write fits, no insertion fails. */
  lemma InsertFailsDisabled(s: State)
    requires Inv(s) && CallersFit(s.queue)
    ensures !Enabled(s, InsertFails)
  {
    hide HistoryOk, Contiguous, ContentsOk, IsRep, Iterate, AllFit, StageOk;
    if s.current.Some? {
      var g := s.current.value;
      MergedFit(g.writers);
      GroupAsBuiltIff(g);
    }
  }

  lemma FinishedFit(s: State, k: nat)
    requires Inv(s) && CallersFit(s.arrived) && k < |s.history|
    ensures GroupOk(s.history[k].0) && Settled(s.history[k].0) && AsBuilt(s.history[k].0)
  {
    hide Contiguous, ContentsOk, CurrentOk, IsRep, Iterate, AllFit, GroupOk, Settled;
    var h := s.history[k];
    assert h in s.history;
    GroupNotEmpty(h.0);
    forall w | w in h.0.writers
      ensures w in s.arrived
    {
      var j :| 0 <= j < |h.0.writers| && h.0.writers[j] == w;
      assert s.done[h.1..h.1 + |h.0.writers|][j] == Released(h.0.writers, h.0.status)[j];
      assert s.done[h.1 + j].0 == w;
    }
    MergedFit(h.0.writers);
    GroupOps(h.0);
    GroupAsBuiltIff(h.0);
  }

  lemma GroupNotEmpty(g: Group)
    requires GroupOk(g)
    ensures g.writers != []
  {
  }

  lemma GroupOps(g: Group)
    requires GroupOk(g)
    ensures g.ops == MergedOps(g.writers)
  {
  }

  lemma FinishedWithin(s: State)
    requires Inv(s) && CallersFit(s.arrived)
    ensures AllWithin(s.history)
  {
    hide Contiguous, AllMem, AllLogs, QueueOk, HistoryOk, StageOk, MemOf, IsRep, Iterate, CallersFit, ContentsOk,
        CurrentOk;
    forall j | 0 <= j < |s.history|
      ensures AsBuilt(s.history[j].0)
    {
      FinishedFit(s, j);
    }
  }

  lemma InMemtable(s: State, k: nat, i: nat)
    requires Inv(s) && AllWithin(s.history) && k < |s.history| && i < |s.history[k].0.ops|
    ensures s.history[k].0.End() <= s.lastSequence
    ensures EntryOf(s.history[k].0, i) in s.mem <==>
      var g := s.history[k].0; i < g.inserted <= |g.Handed()| && g.Handed()[i] == g.ops[i]
  {
    hide Contiguous, AllMem, AllLogs, QueueOk, HistoryOk, StageOk, MemOf, IsRep, Iterate;
    var g := s.history[k].0;
    EndsByLast(s.history, s.lastSequence, k);
    InMemIff(s.history, s.lastSequence, k, EntryOf(g, i));
    if s.current.Some? {
      MemOfMembers(s.current.value, EntryOf(g, i));
    }
  }

  lemma {:induction false} EndsByLast(history: seq<(Group, nat)>, last: nat, k: nat)
    requires Contiguous(history, last) && k < |history|
    ensures history[k].0.End() <= last
  {
    if k < |history| - 1 {
      RangesDisjoint(history, last, k, |history| - 1);
    }
  }

  /** While all that callers write fits, a reader at LastSequence sees all of a
      finished group if its writers were told OK, and none of it if not. */
  lemma AllOrNothing(s: State, k: nat)
    requires Inv(s) && CallersFit(s.arrived) && k < |s.history|
    ensures var g := s.history[k].0;
      && g.End() <= s.lastSequence
      && (g.status.OK? ==> forall i :: 0 <= i < |g.ops| ==> EntryOf(g, i) in s.mem)
      && (g.status.Failed? ==> forall i :: 0 <= i < |g.ops| ==> EntryOf(g, i) !in s.mem)
  {
    hide Inv, Contiguous, Iterate, CallersFit;
    var g := s.history[k].0;
    FinishedFit(s, k);
    FinishedWithin(s);
    GroupNotEmpty(g);
    FinishedEnds(s, k);
    forall i | 0 <= i < |g.ops|
      ensures EntryOf(g, i) in s.mem <==> i < g.inserted
    {
      InMemtable(s, k, i);
    }
  }

  /** A finished group that was inserted, and of which the first operation fits and
      another does not, is seen in part. */
  lemma {:induction false} SeenInPart(s: State, k: nat)
    requires Inv(s) && AllWithin(s.history) && k < |s.history|
    requires var g := s.history[k].0; g.inserted > 0 && g.ops != [] && Fits(g.ops[0]) && !AllFit(g.ops)
    ensures var g := s.history[k].0;
      && EntryOf(g, 0) in s.mem
      && exists i :: 0 <= i < |g.ops| && EntryOf(g, i) !in s.mem
  {
    hide Contiguous, AllMem, AllLogs, QueueOk, StageOk, MemOf, IsRep, Iterate, Fits, ContentsOk, CurrentOk;
    var g := s.history[k].0;
    assert s.history[k] in s.history;
    var j := FirstUnfit(g.ops);
    HandedBeforeUnfit(g.rep, g.ops, j);
    assert g.Handed() == Iterate(g.rep).0;
    assert g.ops[..j][0] == g.ops[0];
    InMemtable(s, k, 0);
    InMemtable(s, k, j);
  }

  lemma {:induction false} FirstUnfit(ops: seq<Op>) returns (j: nat)
    requires !AllFit(ops)
    ensures j < |ops| && AllFit(ops[..j]) && !Fits(ops[j])
  {
    hide Fits;
    var n := |ops| - 1;
    if AllFit(ops[..n]) {
      j := n;
      assert ops == ops[..n] + [ops[n]];
    } else {
      j := FirstUnfit(ops[..n]);
      assert ops[..n][..j] == ops[..j];
    }
  }

  lemma FinishedEnds(s: State, k: nat)
    requires Inv(s) && k < |s.history|
    ensures s.history[k].0.End() <= s.lastSequence
  {
    hide HistoryOk, CurrentOk, QueueOk, ContentsOk, Contiguous;
    EndsByLast(s.history, s.lastSequence, k);
  }

  /** A successful group is visible as a whole at every LastSequence taken from
      its commit on, and not at all at any taken before. */
  lemma {:induction false} SuccessfulGroupIsAtomic(s: State, steps: seq<Step>, k: nat)
    requires Inv(s) && EnabledRun(s, steps) && k < |After(s, steps).history|
    requires CallersFit(After(s, steps).arrived) && After(s, steps).history[k].0.status.OK?
    ensures var s', g := After(s, steps), After(s, steps).history[k].0;
      if k < |s.history| then g.End() <= s.lastSequence && forall i :: 0 <= i < |g.ops| ==> EntryOf(g, i) in s.mem
      else s.lastSequence < g.start
  {
    hide Inv, EnabledRun, After, AllFit;
    var s' := After(s, steps);
    RunOnlyAppends(s, steps, s.lastSequence);
    if k < |s.history| {
      assert s.history[k] == s'.history[k];
      assert forall w :: w in s.arrived ==> w in s'.arrived;
      AllOrNothing(s, k);
    } else {
      LaterGroupsStartLater(s, s', k);
    }
  }

  ghost function LastOf(history: seq<(Group, nat)>): int {
    if history == [] then 0 else history[|history| - 1].0.End()
  }

  lemma {:induction false} PrefixEnds(history: seq<(Group, nat)>, last: nat, m: nat)
    requires Contiguous(history, last) && m <= |history|
    ensures LastOf(history[..m]) <= last && (m == |history| ==> LastOf(history) == last)
    decreases |history|
  {
    if m < |history| {
      var n := |history| - 1;
      PrefixEnds(history[..n], history[n].0.start - 1, m);
      assert history[..n][..m] == history[..m];
    } else {
      assert history[..m] == history;
    }
  }

  lemma {:induction false} StartsAfterPrefix(history: seq<(Group, nat)>, last: nat, m: nat, k: nat)
    requires Contiguous(history, last) && m <= k < |history|
    ensures LastOf(history[..m]) < history[k].0.start
    decreases |history|
  {
    var n := |history| - 1;
    assert history[..n][..m] == history[..m];
    if k < n {
      StartsAfterPrefix(history[..n], history[n].0.start - 1, m, k);
    } else {
      PrefixEnds(history[..n], history[n].0.start - 1, m);
    }
  }

  lemma LaterGroupsStartLater(s: State, s': State, k: nat)
    requires Inv(s) && Inv(s') && s.history <= s'.history && |s.history| <= k < |s'.history|
    ensures s.lastSequence < s'.history[k].0.start
  {
    hide HistoryOk, CurrentOk, QueueOk, ContentsOk;
    StartsAfterPrefix(s'.history, s'.lastSequence, |s.history|, k);
    PrefixEnds(s.history, s.lastSequence, |s.history|);
    assert s'.history[..|s.history|] == s.history;
  }

  // ---------- Release ----------

  /** Each writer of a finished group was released once, in arrival order, with
      the status of its group. */
  lemma ReleasedWithGroupStatus(s: State, k: nat, j: nat)
    requires Inv(s) && k < |s.history| && j < |s.history[k].0.writers|
    ensures var (g, at) := s.history[k];
      at + j < |s.done| && s.done[at + j] == (g.writers[j], g.status) && s.arrived[at + j] == g.writers[j]
  {
    var h := s.history[k];
    assert h in s.history;
    assert s.done[h.1..h.1 + |h.0.writers|][j] == Released(h.0.writers, h.0.status)[j];
  }

  /** The operations of each writer of a group sit together in the group's batch,
      after those of the writers before it. */
  lemma {:induction false} BatchInGroup(ws: seq<Writer>, j: nat)
    requires j < |ws|
    ensures MergedOps(ws[..j]) + ws[j].Ops() <= MergedOps(ws)
    decreases |ws|
  {
    var n := |ws| - 1;
    if j < n {
      BatchInGroup(ws[..n], j);
      assert ws[..n][..j] == ws[..j];
    }
  }

  /** A synced writer is told OK only after its group was synced. */
  lemma OkMeansSynced(s: State, k: nat, w: Writer)
    requires Inv(s) && k < |s.history| && w in s.history[k].0.writers && w.sync
    requires s.history[k].0.status.OK?
    ensures s.history[k].0.synced && s.history[k].0.logged
  {
    assert s.history[k] in s.history;
  }

  // ---------- Who is told OK ----------

  /** A writer with a batch was told OK only with a group that succeeded. */
  ghost predicate OkInGroup(s: State) {
    forall d :: d in s.done && d.0.batch.Some? && d.1.OK? ==> InGoodGroup(s.history, d.0)
  }

  ghost predicate InGoodGroup(history: seq<(Group, nat)>, w: Writer) {
    exists h :: h in history && w in h.0.writers && h.0.status.OK?
  }

  lemma StepKeepsOkInGroup(s: State, step: Step)
    requires Inv(s) && OkInGroup(s) && Enabled(s, step)
    ensures OkInGroup(Next(s, step))
  {
    hide HistoryOk, Contiguous, QueueOk, ContentsOk, IsRep, IsGroup, Iterate, StageOk, GroupOk;
    var s' := Next(s, step);
    forall d | d in s'.done && d.0.batch.Some? && d.1.OK?
      ensures InGoodGroup(s'.history, d.0)
    {
      if d in s.done {
        assert forall h :: h in s.history ==> h in s'.history;
      } else if step.Finish? {
        var g := s.current.value;
        assert d in Released(g.writers, g.status);
        assert (g, |s.done|) in s'.history && d.0 in g.writers;
      }
    }
  }

  lemma {:induction false} RunKeepsOkInGroup(s: State, steps: seq<Step>)
    requires Inv(s) && OkInGroup(s) && EnabledRun(s, steps)
    ensures OkInGroup(After(s, steps))
    decreases |steps|
  {
    hide Inv, OkInGroup, Enabled, Next;
    if steps != [] {
      StepKeepsInv(s, steps[0]);
      StepKeepsOkInGroup(s, steps[0]);
      RunKeepsOkInGroup(Next(s, steps[0]), steps[1..]);
    }
  }

  /** Over every run: a writer with a batch that was told OK was in a group that
      was logged, synced if the writer asked for it, and, as all it wrote fits,
      inserted as a whole. */
  lemma {:induction false} ToldOk(steps: seq<Step>, w: Writer) returns (k: nat)
    requires EnabledRun(INITIAL, steps) && w.batch.Some? && (w, OK) in After(INITIAL, steps).done
    requires CallersFit(After(INITIAL, steps).arrived)
    ensures var s := After(INITIAL, steps);
      && k < |s.history| && w in s.history[k].0.writers
      && var g := s.history[k].0;
         && g.logged && (w.sync ==> g.synced)
         && forall i :: 0 <= i < |g.ops| ==> EntryOf(g, i) in s.mem
  {
    hide Inv, EnabledRun, After, CallersFit, AllFit;
    InitialInv();
    RunKeepsOkInGroup(INITIAL, steps);
    var s := After(INITIAL, steps);
    assert InGoodGroup(s.history, w);
    var h :| h in s.history && w in h.0.writers && h.0.status.OK?;
    k :| 0 <= k < |s.history| && s.history[k] == h;
    AllOrNothing(s, k);
    SucceededIsLogged(s, k);
    if w.sync {
      OkMeansSynced(s, k, w);
    }
  }

  lemma SucceededIsLogged(s: State, k: nat)
    requires Inv(s) && k < |s.history| && s.history[k].0.status.OK?
    ensures s.history[k].0.logged
  {
    assert s.history[k] in s.history;
  }

  // ---------- The size of a group ----------

  /** A group of more than one batch is at most a megabyte, and at most 128
      kilobytes more than the first batch where that is as small. */
  lemma {:induction false} GroupIsBounded(queue: seq<Writer>, n: nat)
    requires 1 <= n <= |queue| && forall i :: 0 < i < n ==> Joins(queue, i)
    ensures var first := queue[0].Size();
      && TotalSize(queue[..n]) <= (if first > 0x10_0000 then first else 0x10_0000)
      && (first <= 0x2_0000 ==> TotalSize(queue[..n]) <= first + 0x2_0000)
  {
    if n == 1 {
      GroupOfOne(queue);
    } else {
      GroupIsBounded(queue, n - 1);
      GroupGrows(queue, n - 1);
      assert Joins(queue, n - 1);
    }
  }

  // ---------- After a failed sync ----------

  /** The group was logged and should have been synced, and was not. */
  ghost predicate SyncFailed(g: Group) {
    g.logged && (exists w :: w in g.writers && w.sync) && !g.synced && g.status.Failed?
  }

  ghost predicate ErrorsNoted(s: State) {
    && (s.current.Some? && s.stage.ToFinish? && SyncFailed(s.current.value) ==> s.syncError)
    && (forall h :: h in s.history && SyncFailed(h.0) ==> s.bgError)
  }

  lemma StepKeepsNoted(s: State, step: Step)
    requires Inv(s) && ErrorsNoted(s) && Enabled(s, step)
    ensures ErrorsNoted(Next(s, step))
  {
    hide HistoryOk, Contiguous, QueueOk, ContentsOk, IsRep, IsGroup, Iterate;
  }

  lemma {:induction false} RunKeepsNoted(s: State, steps: seq<Step>)
    requires Inv(s) && ErrorsNoted(s) && EnabledRun(s, steps)
    ensures Inv(After(s, steps)) && ErrorsNoted(After(s, steps))
    decreases |steps|
  {
    hide Inv, ErrorsNoted, Enabled, Next;
    if steps != [] {
      StepKeepsInv(s, steps[0]);
      StepKeepsNoted(s, steps[0]);
      RunKeepsNoted(Next(s, steps[0]), steps[1..]);
    }
  }

  /** In no run does a group begin, or a writer without a batch return OK, after a
      group whose sync failed has finished. */
  lemma {:induction false} NothingAfterFailedSync(steps: seq<Step>, step: Step)
    requires EnabledRun(INITIAL, steps) && (step.Begin? || step.NullBatch?)
    requires exists h :: h in After(INITIAL, steps).history && SyncFailed(h.0)
    ensures !Enabled(After(INITIAL, steps), step)
  {
    hide Inv, EnabledRun, After, SyncFailed;
    InitialInv();
    RunKeepsNoted(INITIAL, steps);
  }

  // ---------- A group that is cut short ----------

  const GOOD_PUT := Put([1], [1])

  ghost function BadOps(): seq<Op> {
    [GOOD_PUT, Put(LongKey(), [])]
  }

  /** A batch with a key of 2^32 bytes.  Its length is cut to zero when it is
      put, so inserting fails behind the first operation; LastSequence moves past
      the batch all the same, and a reader sees the first operation alone. */
  lemma PartialGroupExample(w: Writer)
    requires w.batch.Some? && w.Ops() == BadOps() && w.Built() && !w.sync
    ensures var steps := [Enqueue(w), Begin(1, w.batch.value.rep), AddRecord(true), Insert, InsertFails, Finish];
      && Inv(INITIAL) && EnabledRun(INITIAL, steps)
      && var s := After(INITIAL, steps);
         && s.lastSequence == 2 && s.mem == [MemEntry(1, GOOD_PUT)] && s.done == [(w, Failed)]
  {
    hide Inv, After, EnabledRun, Iterate, IsRep, LongKey;
    var rep := w.batch.value.rep;
    RejectedHalfWayExample(rep, GOOD_PUT, []);
    var s1, s2, s3 := PartialBegin(w);
    var s4 := Next(s3, Insert);
    StepKeepsInv(s3, Insert);
    var s5 := Next(s4, InsertFails);
    StepKeepsInv(s4, InsertFails);
    var s6 := Next(s5, Finish);
    StepKeepsInv(s5, Finish);
    PartialRun(w, INITIAL, s1, s2, s3, s4, s5, s6);
  }

  lemma PartialBegin(w: Writer) returns (s1: State, s2: State, s3: State)
    requires w.batch.Some? && w.Ops() == BadOps() && w.Built() && !w.sync
    ensures Inv(INITIAL) && s1 == Next(INITIAL, Enqueue(w)) && Inv(s1)
    ensures Enabled(s1, Begin(1, w.batch.value.rep)) && s2 == Next(s1, Begin(1, w.batch.value.rep)) && Inv(s2)
    ensures Enabled(s2, AddRecord(true)) && s3 == Next(s2, AddRecord(true)) && Inv(s3)
    ensures s3 == INITIAL.(queue := [w], arrived := [w], stage := ToInsert, log := [LogRecord(1, BadOps())],
                           current := Some(Group([w], 1, BadOps(), w.batch.value.rep, true, false, 0, OK)))
  {
    hide Inv, IsRep, Iterate, LongKey;
    InitialInv();
    var rep := w.batch.value.rep;
    s1 := Next(INITIAL, Enqueue(w));
    StepKeepsInv(INITIAL, Enqueue(w));
    assert s1.queue == [w] && s1.queue[..1] == [w] && [w][..0] == [] && MergedOps([]) == [];
    assert [] + BadOps() == BadOps() == MergedOps([w]);
    assert IsGroup(s1.queue, 1);
    s2 := Next(s1, Begin(1, rep));
    StepKeepsInv(s1, Begin(1, rep));
    s3 := Next(s2, AddRecord(true));
    StepKeepsInv(s2, AddRecord(true));
  }

  lemma {:induction false} PartialRun(w: Writer, s0: State, s1: State, s2: State, s3: State, s4: State, s5: State,
      s6: State)
    requires w.batch.Some?
    requires Inv(s0) && Enabled(s0, Enqueue(w)) && s1 == Next(s0, Enqueue(w))
    requires Inv(s1) && Enabled(s1, Begin(1, w.batch.value.rep)) && s2 == Next(s1, Begin(1, w.batch.value.rep))
    requires Inv(s2) && Enabled(s2, AddRecord(true)) && s3 == Next(s2, AddRecord(true))
    requires Inv(s3) && Enabled(s3, Insert) && s4 == Next(s3, Insert)
    requires Inv(s4) && Enabled(s4, InsertFails) && s5 == Next(s4, InsertFails)
    requires Inv(s5) && Enabled(s5, Finish) && s6 == Next(s5, Finish)
    requires Inv(s6)
    ensures var steps := [Enqueue(w), Begin(1, w.batch.value.rep), AddRecord(true), Insert, InsertFails, Finish];
      EnabledRun(s0, steps) && After(s0, steps) == s6
  {
    hide Inv, Enabled, Next;
    var begin := Begin(1, w.batch.value.rep);
    var e5 := [Finish];
    var e4 := [InsertFails] + e5;
    var e3 := [Insert] + e4;
    var e2 := [AddRecord(true)] + e3;
    var e1 := [begin] + e2;
    var e0 := [Enqueue(w)] + e1;
    RunCons(s5, Finish, []);
    RunCons(s4, InsertFails, e5);
    RunCons(s3, Insert, e4);
    RunCons(s2, AddRecord(true), e3);
    RunCons(s1, begin, e2);
    RunCons(s0, Enqueue(w), e1);
    assert e0 == [Enqueue(w), begin, AddRecord(true), Insert, InsertFails, Finish];
  }

  lemma {:induction false} RunCons(s: State, step: Step, steps: seq<Step>)
    requires Inv(s) && Enabled(s, step) && Inv(Next(s, step)) && EnabledRun(Next(s, step), steps)
    ensures EnabledRun(s, [step] + steps) && After(s, [step] + steps) == After(Next(s, step), steps)
  {
    assert ([step] + steps)[1..] == steps;
  }

  /** There is such a batch. */
  lemma BadBatchExists() returns (w: Writer)
    ensures w.batch.Some? && w.Ops() == BadOps() && w.Built() && !w.sync && !AllFit(w.Ops())
  {
    hide EncodeOps, EncodeFixed, LongKey;
    var ops := BadOps();
    var rep := seq(8, _ => 0) + EncodeFixed(2, 4) + EncodeOps(ops);
    assert rep[8..12] == EncodeFixed(|ops|, 4) && rep[12..] == EncodeOps(ops);
    w := Writer(1, Some(Batch(ops, rep)), false);
    assert ops[1] in ops && !Fits(ops[1]);
  }
}
