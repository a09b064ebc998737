/** The loops of DBImpl whose combined effect the state machine of Durability uses. */
module DbImpl {
  import opened DbFormat
  import opened MultiVersion
  import opened Compaction
  import opened LogContents
  import opened Durability

  // ---------- Layered lookup ----------

  lemma LookupIsRead(cmp: Comparator, es: seq<Entry>, k: Slice, s: Sequence, r: Lookup)
    requires LooksUp(cmp, es, k, s, r)
    ensures Reads(cmp, es, k, s, if r.Found? then Some(r.value) else None)
  {
  }

  /** An upper layer with newer versions answers for both layers unless it has none. */
  lemma UpperLayerDecides(cmp: Comparator, upper: seq<Entry>, lower: seq<Entry>, k: Slice, s: Sequence, r: Lookup,
      r': Lookup)
    requires Newer(cmp, upper, lower) && LooksUp(cmp, upper, k, s, r) && LooksUp(cmp, lower, k, s, r')
    ensures LooksUp(cmp, upper + lower, k, s, if r.Missing? then r' else r)
  {
    if r.Missing? {
      forall e | r' != Missing && IsNewest(cmp, lower, k, s, e)
        ensures IsNewest(cmp, upper + lower, k, s, e)
      {
      }
    } else {
      var e :| IsNewest(cmp, upper, k, s, e) && (if r.Deleted? then
          e.IsDeletion() else e.IsValue() && e.value == r.value);
      forall d | d in lower && Matches(cmp, d, k, s)
        ensures d.tag <= e.tag
      {
        MatchesSameKey(cmp, e, d, k);
      }
      assert IsNewest(cmp, upper + lower, k, s, e);
    }
  }

  /** DBImpl::Get: the memtable, then the immutable memtable if there is one,
      then the version.  The first layer that knows the key answers correctly
      for all of them together. */
  method Get(cmp: Comparator, k: Slice, snapshot: Sequence, inMem: Lookup, inImm: Option<Lookup>, inVersion: Lookup,
             ghost mem: seq<Entry>, ghost imm: Option<seq<Entry>>, ghost tables: seq<Entry>) returns (r: Lookup)
    requires LooksUp(cmp, mem, k, snapshot, inMem) && LooksUp(cmp, tables, k, snapshot, inVersion)
    requires inImm.Some? <==> imm.Some?
    requires imm.Some? ==> LooksUp(cmp, imm.value, k, snapshot, inImm.value)
    requires Newer(cmp, mem, Imm(imm)) && Newer(cmp, mem + Imm(imm), tables)
    ensures LooksUp(cmp, mem + Imm(imm) + tables, k, snapshot, r)
    ensures Reads(cmp, mem + Imm(imm) + tables, k, snapshot, if r.Found? then Some(r.value) else None)
  {
    ghost var middle := if inImm.Some? then inImm.value else Missing;
    UpperLayerDecides(cmp, mem, Imm(imm), k, snapshot, inMem, middle);
    UpperLayerDecides(cmp, mem + Imm(imm), tables, k, snapshot, if inMem.Missing? then middle else inMem, inVersion);
    if !inMem.Missing? {
      r := inMem;
    } else if inImm.Some? && !inImm.value.Missing? {
      r := inImm.value;
    } else {
      r := inVersion;
    }
    LookupIsRead(cmp, mem + Imm(imm) + tables, k, snapshot, r);
  }

  /** In every reachable state the layers meet what Get relies on, and its
      answer is a read of everything acknowledged and flushed so far. */
  lemma GetReadsEverything(cmp: Comparator, st: State, k: Slice, snapshot: Sequence, r: Lookup)
    requires Inv(cmp, st) && snapshot >= st.floor
    requires LooksUp(cmp, st.mem + Imm(st.imm) + st.current.contents, k, snapshot, r)
    ensures Newer(cmp, st.mem, Imm(st.imm)) && Newer(cmp, st.mem + Imm(st.imm), st.current.contents)
    ensures Reads(cmp, st.mem + Imm(st.imm) + st.current.covers, k, snapshot, if r.Found? then Some(r.value) else None)
  {
    hide Inv;
    LiveReads(cmp, st);
    LookupIsRead(cmp, st.mem + Imm(st.imm) + st.current.contents, k, snapshot, r);
  }

  // ---------- Making room ----------

  const SLOWDOWN_TRIGGER := 8
  const STOP_TRIGGER := 12

  /** What MakeRoomForWrite sees on one turn of its loop; between turns the
      mutex may have been released. */
  datatype Observation = Observation(bgError: bool, level0: nat, memBytes: nat, immBusy: bool, newFileOk: bool)

  datatype RoomAction = Delayed | Waited | Switched

  datatype RoomResult = Ready | Refused | StillWaiting

  /** The one delay of a write that is not forced comes on the first turn that
      finds this many tables at level 0. */
  predicate DelayDue(force: bool, o: Observation, before: seq<RoomAction>) {
    !force && Delayed !in before && o.level0 >= 8
  }

  /** The memtable has to be switched: it is full, or a forced switch is still due. */
  predicate SwitchDue(force: bool, writeBufferSize: nat, o: Observation, before: seq<RoomAction>) {
    (force && Switched !in before) || o.memBytes > writeBufferSize
  }

  /** Nothing stands in the way of a switch. */
  predicate MaySwitch(o: Observation) {
    !o.bgError && !o.immBusy && o.level0 < 12 && o.newFileOk
  }

  /** What each turn does. */
  ghost predicate TurnOk(force: bool, writeBufferSize: nat, o: Observation, before: seq<RoomAction>,
      action: RoomAction) {
    && !o.bgError
    && (action.Delayed? <==> DelayDue(force, o, before))
    && (action.Waited? ==> SwitchDue(force, writeBufferSize, o, before) && (o.immBusy || o.level0 >= 12))
    && (action.Switched? <==>
          !DelayDue(force, o, before) && SwitchDue(force, writeBufferSize, o, before) && MaySwitch(o))
  }

  ghost predicate TurnsOk(force: bool, writeBufferSize: nat, obs: seq<Observation>, actions: seq<RoomAction>)
    requires |actions| <= |obs|
  {
    forall i :: 0 <= i < |actions| ==> TurnOk(force, writeBufferSize, obs[i], actions[..i], actions[i])
  }

  /** What is done and decided, on all observations. */
  ghost predicate MadeRoom(force: bool, writeBufferSize: nat, obs: seq<Observation>, result: RoomResult,
                           actions: seq<RoomAction>) {
    && |actions| <= |obs| && (result.StillWaiting? <==> |actions| == |obs|)
    && TurnsOk(force, writeBufferSize, obs, actions)
    && (!result.StillWaiting? ==>
          var o := obs[|actions|];
          && (o.bgError ==> result.Refused?)
          && (!o.bgError ==> !DelayDue(force, o, actions))
          && (result.Ready? ==> !SwitchDue(force, writeBufferSize, o, actions))
          && (result.Refused? && !o.bgError ==>
                SwitchDue(force, writeBufferSize, o, actions) && !o.immBusy && o.level0 < 12 && !o.newFileOk))
  }

  /** MakeRoomForWrite over the observations it makes, until it decides. */
  method MakeRoomForWrite(force: bool, writeBufferSize: nat, obs: seq<Observation>)
      returns (result: RoomResult, actions: seq<RoomAction>)
    ensures MadeRoom(force, writeBufferSize, obs, result, actions)
  {
    hide TurnsOk;
    NoTurns(force, writeBufferSize, obs);
    actions := [];
    var allowDelay := !force;
    var forced := force;
    while |actions| < |obs|
      invariant |actions| <= |obs|
      invariant TurnsOk(force, writeBufferSize, obs, actions)
      invariant allowDelay <==> !force && Delayed !in actions
      invariant forced <==> force && Switched !in actions
    {
      var o := obs[|actions|];
      if o.bgError {
        return Refused, actions;
      } else if allowDelay && o.level0 >= SLOWDOWN_TRIGGER {
        allowDelay := false;
        OneMoreTurn(force, writeBufferSize, obs, actions, Delayed);
        actions := actions + [Delayed];
      } else if !forced && o.memBytes <= writeBufferSize {
        return Ready, actions;
      } else if o.immBusy {
        OneMoreTurn(force, writeBufferSize, obs, actions, Waited);
        actions := actions + [Waited];
      } else if o.level0 >= STOP_TRIGGER {
        OneMoreTurn(force, writeBufferSize, obs, actions, Waited);
        actions := actions + [Waited];
      } else if !o.newFileOk {
        return Refused, actions;
      } else {
        forced := false;
        OneMoreTurn(force, writeBufferSize, obs, actions, Switched);
        actions := actions + [Switched];
      }
    }
    return StillWaiting, actions;
  }

  lemma NoTurns(force: bool, writeBufferSize: nat, obs: seq<Observation>)
    ensures TurnsOk(force, writeBufferSize, obs, [])
  {
  }

  lemma OneMoreTurn(force: bool, writeBufferSize: nat, obs: seq<Observation>, before: seq<RoomAction>,
      action: RoomAction)
    requires |before| < |obs| && TurnsOk(force, writeBufferSize, obs, before)
    requires var o := obs[|before|];
      && !o.bgError && (action.Delayed? <==> DelayDue(force, o, before))
      && (action.Waited? ==> SwitchDue(force, writeBufferSize, o, before) && (o.immBusy || o.level0 >= 12))
      && (action.Switched? ==> SwitchDue(force, writeBufferSize, o, before) && MaySwitch(o))
    ensures TurnsOk(force, writeBufferSize, obs, before + [action])
  {
    var actions := before + [action];
    forall i | 0 <= i < |actions|
      ensures TurnOk(force, writeBufferSize, obs[i], actions[..i], actions[i])
    {
      assert actions[..i] == before[..i];
      assert before[..|before|] == before;
    }
  }

  lemma {:induction false} SameActions(force: bool, writeBufferSize: nat, obs: seq<Observation>, r: RoomResult,
                                       a: seq<RoomAction>, r': RoomResult, a': seq<RoomAction>, n: nat)
    requires MadeRoom(force, writeBufferSize, obs, r, a) && MadeRoom(force, writeBufferSize, obs, r', a')
    requires n <= |a| && n <= |a'|
    ensures a[..n] == a'[..n] && (n == |a| ==> a'[..n] == a) && (n == |a'| ==> a[..n] == a')
  {
    if n > 0 {
      SameActions(force, writeBufferSize, obs, r, a, r', a', n - 1);
      assert TurnOk(force, writeBufferSize, obs[n - 1], a[..n - 1], a[n - 1]);
      assert TurnOk(force, writeBufferSize, obs[n - 1], a'[..n - 1], a'[n - 1]);
      assert a[..n] == a[..n - 1] + [a[n - 1]] && a'[..n] == a'[..n - 1] + [a'[n - 1]];
    }
  }

  /** Where one run has decided there is no turn. */
  lemma NoTurnThere(force: bool, writeBufferSize: nat, obs: seq<Observation>, r: RoomResult, a: seq<RoomAction>)
    requires MadeRoom(force, writeBufferSize, obs, r, a) && !r.StillWaiting?
    ensures forall action :: !TurnOk(force, writeBufferSize, obs[|a|], a, action)
  {
  }

  lemma {:induction false} NotLonger(force: bool, writeBufferSize: nat, obs: seq<Observation>, r: RoomResult,
                                     a: seq<RoomAction>, r': RoomResult, a': seq<RoomAction>)
    requires MadeRoom(force, writeBufferSize, obs, r, a) && MadeRoom(force, writeBufferSize, obs, r', a')
    ensures |a'| <= |a|
  {
    hide TurnOk, DelayDue, SwitchDue;
    if |a| < |a'| {
      SameActions(force, writeBufferSize, obs, r, a, r', a', |a|);
      NoTurnThere(force, writeBufferSize, obs, r, a);
    }
  }

  /** The observations determine the answer and every action. */
  lemma {:induction false} RoomIsUnique(force: bool, writeBufferSize: nat, obs: seq<Observation>, r: RoomResult,
                                        a: seq<RoomAction>, r': RoomResult, a': seq<RoomAction>)
    requires MadeRoom(force, writeBufferSize, obs, r, a) && MadeRoom(force, writeBufferSize, obs, r', a')
    ensures a == a' && r == r'
  {
    NotLonger(force, writeBufferSize, obs, r, a, r', a');
    NotLonger(force, writeBufferSize, obs, r', a', r, a);
    SameActions(force, writeBufferSize, obs, r, a, r', a', |a|);
  }

  /** While nothing is outstanding, level 0 is below the stop trigger and files
      open, no turn waits, and if there is room after a switch then one delay and
      one switch at most come before the write can go on. */
  lemma NothingOutstandingIsQuick(force: bool, writeBufferSize: nat, obs: seq<Observation>, result: RoomResult,
                                  actions: seq<RoomAction>)
    requires MadeRoom(force, writeBufferSize, obs, result, actions)
    requires forall i :: 0 <= i < |obs| ==> MaySwitch(obs[i])
    requires forall i, j :: 0 <= i < j < |obs| && i < |actions| && actions[i].Switched? ==>
        obs[j].memBytes <= writeBufferSize
    ensures Waited !in actions && |actions| <= 2
    ensures forall i, j :: 0 <= i < j < |actions| ==> actions[i] != actions[j]
    ensures |obs| > 2 ==> result.Ready?
  {
    forall i | 0 <= i < |actions|
      ensures !actions[i].Waited?
    {
      assert TurnOk(force, writeBufferSize, obs[i], actions[..i], actions[i]);
    }
    forall i, j | 0 <= i < j < |actions|
      ensures actions[i] != actions[j]
    {
      assert TurnOk(force, writeBufferSize, obs[j], actions[..j], actions[j]);
      assert actions[i] == actions[..j][i] && actions[i] in actions[..j];
    }
    if |actions| > 2 {
      TwoKinds(actions[0], actions[1], actions[2]);
    }
  }

  lemma TwoKinds(a: RoomAction, b: RoomAction, c: RoomAction)
    ensures a.Waited? || b.Waited? || c.Waited? || a == b || a == c || b == c
  {
  }

  /** A switch MakeRoomForWrite may make is one the state machine can take. */
  lemma SwitchIsPossible(st: State, o: Observation)
    requires MaySwitch(o) && o.bgError == st.bgError && o.immBusy == st.imm.Some? && !Writing(st)
    ensures Possible(st, Rotate)
  {
  }

  // ---------- Deleting obsolete files ----------

  datatype FileType = LogFileType | DescriptorFile | TableFile | TempFile | CurrentFile | DbLockFile | InfoLogFile

  datatype FileName = FileName(number: nat, typ: FileType)

  /** A listing without the manifests older than the one in use, the logs older
      than the version needs, and the tables and temporary files nobody uses. */
  ghost predicate OnlyObsoleteGone(kept: seq<Option<FileName>>, names: seq<Option<FileName>>, logNumber: nat,
                                   prevLogNumber: nat, manifestNumber: nat, live: set<nat>) {
    && (forall n :: n in kept ==> n in names)
    && (forall n :: n in names ==>
          (n !in kept <==>
             && n.Some?
             && var number := n.value.number;
                match n.value.typ
                case DescriptorFile => number < manifestNumber
                case LogFileType => number < logNumber && number != prevLogNumber
                case TableFile => number !in live
                case TempFile => number !in live
                case _ => false))
  }

  /** DeleteObsoleteFiles over the directory listing; names that do not parse are None. */
  method DeleteObsoleteFiles(names: seq<Option<FileName>>, bgError: bool, pending: set<nat>, versionFiles: set<nat>,
                             logNumber: nat, prevLogNumber: nat, manifestNumber: nat)
                                 returns (kept: seq<Option<FileName>>)
    ensures bgError ==> kept == names
    ensures !bgError ==> OnlyObsoleteGone(kept, names, logNumber, prevLogNumber, manifestNumber, pending + versionFiles)
  {
    if bgError { return names; }
    var live := pending + versionFiles;
    kept := [];
    var i := 0;
    while i < |names|
      invariant 0 <= i <= |names|
      invariant OnlyObsoleteGone(kept, names[..i], logNumber, prevLogNumber, manifestNumber, live)
    {
      var keep := true;
      if names[i].Some? {
        var f := names[i].value;
        match f.typ {
          case LogFileType => keep := f.number >= logNumber || f.number == prevLogNumber;
          case DescriptorFile => keep := f.number >= manifestNumber;
          case TableFile => keep := f.number in live;
          case TempFile => keep := f.number in live;
          case CurrentFile =>
          case DbLockFile =>
          case InfoLogFile =>
        }
      }
      assert names[..i + 1] == names[..i] + [names[i]];
      if keep {
        kept := kept + [names[i]];
      }
      i := i + 1;
    }
    assert names[..i] == names;
  }

  /** A directory holds exactly these logs and tables. */
  ghost predicate Lists(names: seq<Option<FileName>>, logs: set<nat>, tables: set<nat>) {
    && (forall n: nat :: n in logs <==> Some(FileName(n, LogFileType)) in names)
    && (forall n: nat :: n in tables <==> Some(FileName(n, TableFile)) in names)
  }

  /** The files that opening the database reads are there: CURRENT, the manifest it
      names, the version's tables, and those of the logs that it still needs. */
  ghost predicate Recoverable(names: seq<Option<FileName>>, v: Version, logs: set<nat>, manifestNumber: nat) {
    && Some(FileName(0, CurrentFile)) in names
    && Some(FileName(manifestNumber, DescriptorFile)) in names
    && (forall f: nat :: f in v.files ==> Some(FileName(f, TableFile)) in names)
    && (forall n: nat :: n in logs && n >= v.logNumber ==> Some(FileName(n, LogFileType)) in names)
  }

  /** What opening the database reads, the lock, what is being written, and files
      that are none of its business all stay. */
  lemma RestartFilesStay(names: seq<Option<FileName>>, kept: seq<Option<FileName>>, v: Version, logs: set<nat>,
                         prevLogNumber: nat, manifestNumber: nat, live: set<nat>)
    requires OnlyObsoleteGone(kept, names, v.logNumber, prevLogNumber, manifestNumber, live) && v.files <= live
    requires Recoverable(names, v, logs, manifestNumber)
    ensures Recoverable(kept, v, logs, manifestNumber)
    ensures forall n :: n in names && (n == None || n.value.typ.DbLockFile? || n.value.typ.InfoLogFile?) ==> n in kept
    ensures forall f: nat :: f in live && Some(FileName(f, TempFile)) in names ==> Some(FileName(f, TempFile)) in kept
    ensures forall m: nat :: m >= manifestNumber && Some(FileName(m, DescriptorFile)) in names ==>
      Some(FileName(m, DescriptorFile)) in kept
    ensures Some(FileName(prevLogNumber, LogFileType)) in names ==> Some(FileName(prevLogNumber, LogFileType)) in kept
  {
  }

  /** What the loop leaves in the directory is what the step of the state machine
      leaves.  It loses nothing acknowledged, and the database can be opened again
      from what is left. */
  lemma DeletionIsTheStep(st: State, live: set<nat>, names: seq<Option<FileName>>, kept: seq<Option<FileName>>,
      manifestNumber: nat)
    requires Safe(st) && Possible(st, Step.DeleteObsoleteFiles(live))
    requires Lists(names, st.logs.Keys, st.tables.Keys) && Some(FileName(0, CurrentFile)) in names
    requires Some(FileName(manifestNumber, DescriptorFile)) in names
    requires OnlyObsoleteGone(kept, names, st.current.logNumber, 0, manifestNumber, st.pending + live)
    ensures var st' := Next(st, Step.DeleteObsoleteFiles(live));
      && Lists(kept, st'.logs.Keys, st'.tables.Keys)
      && Safe(st')
      && Recoverable(kept, st'.manifest, st'.logs.Keys, manifestNumber)
  {
    hide Safe, Recoverable;
    StepIsSafe(st, Step.DeleteObsoleteFiles(live));
    ManifestInUse(st);
    assert Recoverable(names, st.manifest, st.logs.Keys, manifestNumber) by { Openable(st, names, manifestNumber); }
    RestartFilesStay(names, kept, st.manifest, st.logs.Keys, 0, manifestNumber, st.pending + live);
    FewerLogs(kept, st.manifest, st.logs.Keys, Next(st, Step.DeleteObsoleteFiles(live)).logs.Keys, manifestNumber);
  }

  lemma ManifestInUse(st: State)
    requires Safe(st) && !st.bgError
    ensures st.current == st.manifest
  {
  }

  lemma Openable(st: State, names: seq<Option<FileName>>, manifestNumber: nat)
    requires Safe(st) && Lists(names, st.logs.Keys, st.tables.Keys)
    requires Some(FileName(0, CurrentFile)) in names && Some(FileName(manifestNumber, DescriptorFile)) in names
    ensures Recoverable(names, st.manifest, st.logs.Keys, manifestNumber)
  {
    hide NothingLost, Placed, LogsOk, FlushOk;
    FilesBelow(st.tables, st.nextFile, st.manifest);
  }

  lemma FewerLogs(names: seq<Option<FileName>>, v: Version, logs: set<nat>, fewer: set<nat>, manifestNumber: nat)
    requires Recoverable(names, v, logs, manifestNumber) && fewer <= logs
    ensures Recoverable(names, v, fewer, manifestNumber)
  {
  }

  // ---------- Replaying the logs ----------

  /** RecoverLogFile: fills a memtable from the records of one log and writes it
      out as a table whenever it is full, and once more at the end.  `full` says
      after which records the memtable exceeds its budget. */
  method RecoverLogFile(records: seq<seq<Entry>>, full: nat -> bool, maxSequence: Sequence)
      returns (tables: seq<seq<Entry>>, newMax: Sequence)
    requires forall i :: 0 <= i < |records| ==> Numbered(records[i])
    ensures Concat(tables) == Concat(records)
    ensures newMax == MaxSeqno(Concat(records), maxSequence)
  {
    hide Concat, MaxSeqno, RaiseMaximum, Numbered;
    tables, newMax := [], maxSequence;
    var mem: Option<seq<Entry>> := None;
    var i := 0;
    NoRecords(records, maxSequence);
    while i < |records|
      invariant 0 <= i <= |records|
      invariant Concat(tables) + Imm(mem) == Concat(records[..i])
      invariant newMax == MaxSeqno(Concat(records[..i]), maxSequence)
    {
      OneMoreRecord(records, i, maxSequence);
      if mem.None? {
        mem := Some([]);
      }
      ghost var before := mem.value;
      RaisedIsMaximum(records[i], newMax);
      newMax := RaiseMaximum(records[i], newMax);
      mem := Some(mem.value + records[i]);
      MemGrows(tables, before, records[i]);
      if full(i) {
        tables := tables + [mem.value];
        mem := None;
      }
      i := i + 1;
    }
    assert records[..i] == records;
    if mem.Some? {
      MemGrows(tables, mem.value, []);
      tables := tables + [mem.value];
    }
  }

  lemma {:induction false} MemGrows(tables: seq<seq<Entry>>, mem: seq<Entry>, more: seq<Entry>)
    ensures Concat(tables) + (mem + more) == Concat(tables) + mem + more
    ensures Concat(tables + [mem + more]) == Concat(tables) + mem + more
    ensures mem + [] == mem && Concat(tables) + [] == Concat(tables)
  {
    hide Concat;
    ConcatAppend(tables, mem + more);
    Reassociated(Concat(tables), mem, more);
  }

  lemma Reassociated(a: seq<Entry>, b: seq<Entry>, c: seq<Entry>)
    ensures a + (b + c) == a + b + c
  {
  }

  lemma {:induction false} NoRecords(records: seq<seq<Entry>>, base: Sequence)
    ensures Concat([]) == [] && Concat(records[..0]) == [] && MaxSeqno([], base) == base
  {
  }

  lemma {:induction false} OneMoreRecord(records: seq<seq<Entry>>, i: nat, base: Sequence)
    requires i < |records|
    ensures Concat(records[..i + 1]) == Concat(records[..i]) + records[i]
    ensures MaxSeqno(Concat(records[..i + 1]), base) == MaxSeqno(records[i], MaxSeqno(Concat(records[..i]), base))
  {
    assert records[..i + 1][..i] == records[..i];
    MaxSeqnoAppend(Concat(records[..i]), records[i], base);
  }

  /** The entries of a batch are numbered upwards from its sequence number. */
  predicate Numbered(batch: seq<Entry>) {
    forall i :: 0 <= i < |batch| ==> batch[i].Seqno() == batch[0].Seqno() + i
  }

  /** The largest number in use, from the sequence number and the count of a batch. */
  function RaiseMaximum(batch: seq<Entry>, max: Sequence): Sequence
    requires Numbered(batch)
  {
    if batch == [] then max
    else
      assert batch[|batch| - 1].Seqno() == batch[0].Seqno() + (|batch| - 1);
      var last := batch[0].Seqno() + (|batch| - 1);
      if last > max then last else max
  }

  /** That is the maximum over all its entries. */
  lemma {:induction false} RaisedIsMaximum(batch: seq<Entry>, max: Sequence)
    requires Numbered(batch)
    ensures RaiseMaximum(batch, max) == MaxSeqno(batch, max)
    decreases |batch|
  {
    if |batch| > 1 {
      var front := batch[..|batch| - 1];
      assert front[0] == batch[0];
      RaisedIsMaximum(front, max);
    } else if |batch| == 1 {
      assert batch[..0] == [] && MaxSeqno([], max) == max;
    }
  }

  lemma {:induction false} MaxSeqnoAppend(a: seq<Entry>, b: seq<Entry>, base: Sequence)
    ensures MaxSeqno(a + b, base) == MaxSeqno(b, MaxSeqno(a, base))
    decreases |b|
  {
    if b == [] {
      assert a + b == a;
    } else {
      var n := |b| - 1;
      assert (a + b)[..|a + b| - 1] == a + b[..n];
      MaxSeqnoAppend(a, b[..n], base);
    }
  }

  /** Recover: replays, in order of number, every log the version still needs. */
  method Recover(logs: map<nat, LogFile>, minLog: nat, nextFile: nat, full: (nat, nat) -> bool, versionLast: Sequence)
      returns (tables: seq<seq<Entry>>, lastSequence: Sequence)
    requires forall n, i :: n in logs && 0 <= i < |Batches(logs[n].file)| ==> Numbered(Batches(logs[n].file)[i])
    ensures Concat(tables) == Replay(logs, minLog, nextFile)
    ensures lastSequence == MaxSeqno(Replay(logs, minLog, nextFile), versionLast)
  {
    hide Concat, MaxSeqno, Replay, Numbered;
    tables, lastSequence := [], versionLast;
    ghost var target := Replay(logs, minLog, nextFile);
    NoRecords([], versionLast);
    var n := minLog;
    while n < nextFile
      invariant minLog <= n
      invariant Concat(tables) + Replay(logs, n, nextFile) == target
      invariant MaxSeqno(Replay(logs, n, nextFile), lastSequence) == MaxSeqno(target, versionLast)
      decreases nextFile - n
    {
      ReplayStep(logs, n, nextFile, lastSequence);
      if n in logs {
        var more, max := RecoverLogFile(Batches(logs[n].file), (i: nat) => full(n, i), lastSequence);
        ConcatConcat(tables, more);
        tables := tables + more;
        lastSequence := max;
      }
      n := n + 1;
    }
    NothingToReplay(logs, n, nextFile, lastSequence);
  }

  lemma ReplayStep(logs: map<nat, LogFile>, n: nat, hi: nat, base: Sequence)
    requires n < hi
    ensures n in logs ==> Replay(logs, n, hi) == Contents(logs[n].file) + Replay(logs, n + 1, hi)
    ensures n in logs ==>
      MaxSeqno(Replay(logs, n, hi), base) == MaxSeqno(Replay(logs, n + 1, hi), MaxSeqno(Contents(logs[n].file), base))
    ensures n !in logs ==> Replay(logs, n, hi) == Replay(logs, n + 1, hi)
  {
    hide Contents, MaxSeqno;
    if n in logs {
      MaxSeqnoAppend(Contents(logs[n].file), Replay(logs, n + 1, hi), base);
    }
  }

  lemma {:induction false} NothingToReplay(logs: map<nat, LogFile>, n: nat, hi: nat, base: Sequence)
    requires n >= hi
    ensures Replay(logs, n, hi) == [] && MaxSeqno([], base) == base
  {
  }
}
