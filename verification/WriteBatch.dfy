/** Write batches: a header with a sequence number and a count, and one record
    for every put and delete. */
module WriteBatch {
  import opened DbFormat
  import opened Varint
  import opened Coding

  const BATCH_HEADER := 12

  datatype Op = Put(key: Slice, value: Slice) | Delete(key: Slice)

  // ---------- Contents ----------

  function EncodeOp(op: Op): (s: Slice)
    ensures s != []
  {
    match op
    case Put(key, value) => [TYPE_VALUE] + LengthPrefixed(key) + LengthPrefixed(value)
    case Delete(key) => [TYPE_DELETION] + LengthPrefixed(key)
  }

  function EncodeOps(ops: seq<Op>): Slice {
    if ops == [] then [] else EncodeOp(ops[0]) + EncodeOps(ops[1..])
  }

  /** The (int) cast of the 32-bit count. */
  function Count(rep: Slice): int
    requires |rep| >= BATCH_HEADER
  {
    var n := DecodeFixed(rep[8..12]);
    if n >= TWO_31 then n - TWO_32 else n
  }

  function SetCount(rep: Slice, n: nat): (r: Slice)
    requires |rep| >= BATCH_HEADER
    ensures |r| == |rep|
  {
    rep[..8] + EncodeFixed(n, 4) + rep[12..]
  }

  /** Most operations a batch can hold: the count is an int. */
  const MAX_COUNT := TWO_31 - 1

  /** The contents of a batch of these operations, with any sequence number. */
  ghost predicate IsRep(rep: Slice, ops: seq<Op>) {
    && |rep| >= BATCH_HEADER && |ops| <= MAX_COUNT
    && rep[8..12] == EncodeFixed(|ops|, 4)
    && rep[12..] == EncodeOps(ops)
  }

  lemma CountOfRep(rep: Slice, ops: seq<Op>)
    requires IsRep(rep, ops)
    ensures Count(rep) == |ops|
  {
    Pow256Of8();
    DecodeAfterEncodeFixed(|ops|, 4);
  }

  lemma {:induction false} EncodeOpsAppend(a: seq<Op>, b: seq<Op>)
    ensures EncodeOps(a + b) == EncodeOps(a) + EncodeOps(b)
    decreases |a|
  {
    hide EncodeOp;
    if a == [] {
      assert a + b == b;
    } else {
      EncodeOpsAppend(a[1..], b);
      assert (a + b)[1..] == a[1..] + b;
    }
  }

  lemma EncodeOpsOne(op: Op)
    ensures EncodeOps([op]) == EncodeOp(op)
  {
    hide EncodeOp;
    assert [op][1..] == [];
    assert EncodeOp(op) + [] == EncodeOp(op);
  }

  lemma {:induction false} AppendsRep(rep: Slice, ops: seq<Op>, more: seq<Op>)
    requires IsRep(rep, ops) && |ops| + |more| <= MAX_COUNT
    ensures IsRep(SetCount(rep, |ops| + |more|) + EncodeOps(more), ops + more)
  {
    hide EncodeOps, EncodeFixed;
    EncodeOpsAppend(ops, more);
    var r := SetCount(rep, |ops| + |more|) + EncodeOps(more);
    assert r[8..12] == EncodeFixed(|ops| + |more|, 4);
    assert r[12..] == rep[12..] + EncodeOps(more);
  }

  // ---------- Iterating ----------

  /** The operations handed over before the end or the first bad record, and
      whether the end was reached. */
  datatype Iterated = Iterated(ops: seq<Op>, complete: bool) {
    function After(op: Op): Iterated { Iterated([op] + ops, complete) }
  }

  /** One record, and the bytes it takes; None if it is malformed. */
  datatype Parsed = Parsed(op: Op, size: nat)

  function ParseOp(input: Slice): (r: Option<Parsed>)
    requires input != []
    ensures r.Some? ==> 0 < r.value.size <= |input|
  {
    var key := GetLengthPrefixed(input[1..]);
    if input[0] == TYPE_VALUE then
      if key.None? then None
      else
        var value := GetLengthPrefixed(input[1 + key.value.size..]);
        if value.None? then None
        else Some(Parsed(Put(key.value.slice, value.value.slice), 1 + key.value.size + value.value.size))
    else if input[0] == TYPE_DELETION then
      if key.None? then None else Some(Parsed(Delete(key.value.slice), 1 + key.value.size))
    else None
  }

  function IterateFrom(input: Slice): Iterated
    decreases |input|
  {
    if input == [] then Iterated([], true)
    else
      var p := ParseOp(input);
      if p.None? then Iterated([], false) else IterateFrom(input[p.value.size..]).After(p.value.op)
  }

  /** WriteBatch::Iterate: what the handler gets, and whether the status is OK. */
  function Iterate(rep: Slice): (r: (seq<Op>, bool)) {
    if |rep| < BATCH_HEADER then ([], false)
    else
      var it := IterateFrom(rep[BATCH_HEADER..]);
      (it.ops, it.complete && |it.ops| == Count(rep))
  }

  /** Operations whose keys and values have lengths of 32 bits. */
  predicate Fits(op: Op) {
    |op.key| < TWO_32 && (op.Put? ==> |op.value| < TWO_32)
  }

  predicate AllFit(ops: seq<Op>) {
    forall op :: op in ops ==> Fits(op)
  }

  lemma OpReadsBack(op: Op, rest: Slice)
    requires Fits(op)
    ensures ParseOp(EncodeOp(op) + rest) == Some(Parsed(op, |EncodeOp(op)|))
  {
    hide LengthPrefixed, GetLengthPrefixed;
    var input := EncodeOp(op) + rest;
    match op
    case Put(key, value) =>
      assert input[1..] == LengthPrefixed(key) + (LengthPrefixed(value) + rest);
      SliceReadsBack(key, LengthPrefixed(value) + rest);
      assert input[1 + |LengthPrefixed(key)|..] == LengthPrefixed(value) + rest;
      SliceReadsBack(value, rest);
    case Delete(key) =>
      assert input[1..] == LengthPrefixed(key) + rest;
      SliceReadsBack(key, rest);
  }

  lemma {:induction false} OpsReadBack(ops: seq<Op>)
    requires AllFit(ops)
    ensures IterateFrom(EncodeOps(ops)) == Iterated(ops, true)
    decreases |ops|
  {
    hide EncodeOp, ParseOp, Fits;
    if ops != [] {
      OpReadsBack(ops[0], EncodeOps(ops[1..]));
      OpsReadBack(ops[1..]);
      assert EncodeOps(ops)[|EncodeOp(ops[0])|..] == EncodeOps(ops[1..]);
      assert [ops[0]] + ops[1..] == ops;
    }
  }

  lemma {:induction false} IteratedFit(input: Slice)
    ensures AllFit(IterateFrom(input).ops)
    decreases |input|
  {
    if input != [] {
      var p := ParseOp(input);
      if p.Some? {
        IteratedFit(input[p.value.size..]);
      }
    }
  }

  /** A batch is handed over as it was built, and accepted, if and only if every
      key and value in it is shorter than 2^32 bytes. */
  lemma {:induction false} IteratesAsBuiltIff(rep: Slice, ops: seq<Op>)
    requires IsRep(rep, ops)
    ensures Iterate(rep) == (ops, true) <==> AllFit(ops)
  {
    hide EncodeOps, IterateFrom, AllFit;
    CountOfRep(rep, ops);
    IteratedFit(rep[12..]);
    if AllFit(ops) {
      OpsReadBack(ops);
    }
  }

  lemma {:induction false} IteratesPrefix(ops: seq<Op>, rest: Slice)
    requires AllFit(ops)
    ensures IterateFrom(EncodeOps(ops) + rest).ops == ops + IterateFrom(rest).ops
    decreases |ops|
  {
    hide EncodeOp, ParseOp, Fits;
    if ops == [] {
      assert EncodeOps(ops) + rest == rest;
    } else {
      var more := EncodeOps(ops[1..]) + rest;
      OpReadsBack(ops[0], more);
      IteratesPrefix(ops[1..], rest);
      assert EncodeOps(ops) + rest == EncodeOp(ops[0]) + more;
      assert (EncodeOp(ops[0]) + more)[|EncodeOp(ops[0])|..] == more;
      assert [ops[0]] + (ops[1..] + IterateFrom(rest).ops) == ops + IterateFrom(rest).ops;
    }
  }

  /** Of a batch with an operation that does not fit, the operations before it are
      handed over, and the operation itself never is. */
  lemma {:induction false} HandedBeforeUnfit(rep: Slice, ops: seq<Op>, j: nat)
    requires IsRep(rep, ops) && j < |ops| && AllFit(ops[..j]) && !Fits(ops[j])
    ensures ops[..j] <= Iterate(rep).0 && (j < |Iterate(rep).0| ==> Iterate(rep).0[j] != ops[j])
  {
    hide EncodeOps, IterateFrom, Fits;
    var rest := EncodeOps(ops[j..]);
    assert ops == ops[..j] + ops[j..];
    EncodeOpsAppend(ops[..j], ops[j..]);
    IteratesPrefix(ops[..j], rest);
    IteratedFit(rest);
    var handed := Iterate(rep).0;
    assert handed == ops[..j] + IterateFrom(rest).ops;
    if j < |handed| {
      assert handed[j] == IterateFrom(rest).ops[0];
    }
  }

  // ---------- A batch that is not accepted ----------

  /** A key of 2^32 bytes: its length is written as zero. */
  function LongKey(): (k: Slice)
    ensures |k| == TWO_32
  {
    seq(TWO_32, _ => 0xFF)
  }

  lemma {:induction false} NoNumber(s: Slice, i: nat, result: Uint32)
    requires i <= 5 <= |s| && forall j :: 0 <= j < 5 ==> s[j] >= 0x80
    ensures GetVarint32From(s, i, result) == None
    decreases 5 - i
  {
    hide Or, Pow2;
    if i < 5 {
      GetVarint32Step(s, i, result);
      NoNumber(s, i + 1, Or(result, s[i] % 0x80 * Pow2(7 * i) % TWO_32) % TWO_32);
    }
  }

  lemma TruncatedKey(value: Slice)
    ensures ParseOp(EncodeOps([Put(LongKey(), value)])) == None
  {
    hide GetVarint32From;
    var key := LongKey();
    EncodeOpsOne(Put(key, value));
    assert TWO_32 % TWO_32 == 0 && EncodeVarint(0) == [0];
    assert LengthPrefixed(key) == [0] + key;
    var input := EncodeOp(Put(key, value));
    var tail := key + LengthPrefixed(value);
    assert input[1..] == EncodeVarint(0) + tail;
    Varint32ReadsBack(0, tail);
    assert input[1..][1..1] == [];
    assert input[2..] == tail;
    assert forall i :: 0 <= i < 5 ==> tail[i] == 0xFF;
    NoNumber(tail, 0, 0);
  }

  /** A good put and then one whose key is too long: the first is handed over,
      and the batch is rejected at the second. */
  lemma RejectedHalfWayExample(rep: Slice, good: Op, value: Slice)
    requires Fits(good) && IsRep(rep, [good, Put(LongKey(), value)])
    ensures Iterate(rep) == ([good], false)
  {
    hide EncodeOp, ParseOp, LongKey;
    var bad := Put(LongKey(), value);
    var ops := [good, bad];
    assert ops[1..] == [bad];
    var input := rep[12..];
    assert input == EncodeOp(good) + EncodeOps([bad]);
    OpReadsBack(good, EncodeOps([bad]));
    assert input[|EncodeOp(good)|..] == EncodeOps([bad]);
    EncodeOpsOne(bad);
    TruncatedKey(value);
    assert EncodeOps([bad]) == EncodeOp(bad) && EncodeOp(bad) != [];
    assert IterateFrom(EncodeOps([bad])) == Iterated([], false);
    assert IterateFrom(input) == IterateFrom(EncodeOps([bad])).After(good) == Iterated([good] + [], false);
    assert [good] + [] == [good];
  }

  // ---------- Other batches that are not accepted ----------

  /** With any other count the operations are handed over and the batch is rejected. */
  lemma {:induction false} WrongCountRejected(rep: Slice, ops: seq<Op>)
    requires |rep| >= 12 && rep[12..] == EncodeOps(ops) && AllFit(ops) && Count(rep) != |ops|
    ensures Iterate(rep) == (ops, false)
  {
    hide EncodeOps, IterateFrom, AllFit;
    OpsReadBack(ops);
  }

  /** At a byte that is neither 0 nor 1 where a record begins iterating stops, and
      so it does where nothing but such a byte is left of a record. */
  lemma {:induction false} BadRecordRejected(rep: Slice, ops: seq<Op>, rest: Slice)
    requires |rep| >= 12 && rep[12..] == EncodeOps(ops) + rest && AllFit(ops)
    requires rest != [] && (rest[0] > 1 || |rest| == 1)
    ensures Iterate(rep) == (ops, false)
  {
    hide EncodeOps, AllFit;
    NotParsed(rest);
    IteratesPrefix(ops, rest);
    PrefixIncomplete(ops, rest);
    assert ops + [] == ops;
  }

  lemma {:induction false} NotParsed(rest: Slice)
    requires rest != [] && (rest[0] > 1 || |rest| == 1)
    ensures IterateFrom(rest) == Iterated([], false)
  {
  }

  lemma {:induction false} PrefixIncomplete(ops: seq<Op>, rest: Slice)
    requires AllFit(ops) && !IterateFrom(rest).complete
    ensures !IterateFrom(EncodeOps(ops) + rest).complete
    decreases |ops|
  {
    hide EncodeOp, ParseOp, Fits;
    if ops == [] {
      assert EncodeOps(ops) + rest == rest;
    } else {
      var more := EncodeOps(ops[1..]) + rest;
      OpReadsBack(ops[0], more);
      PrefixIncomplete(ops[1..], rest);
      assert EncodeOps(ops) + rest == EncodeOp(ops[0]) + more;
      assert (EncodeOp(ops[0]) + more)[|EncodeOp(ops[0])|..] == more;
    }
  }

  // ---------- The class ----------

  class WriteBatch {
    var rep: Slice
    ghost var ops: seq<Op>

    ghost predicate Valid()
      reads this
    {
      IsRep(rep, ops)
    }

    constructor ()
      ensures Valid() && ops == []
    {
      rep := seq(BATCH_HEADER, _ => 0);
      ops := [];
      new;
      Clear();
    }

    method Clear()
      modifies this
      ensures Valid() && ops == []
    {
      rep := seq(BATCH_HEADER, _ => 0);
      ops := [];
      assert EncodeFixed(0, 4) == [0, 0, 0, 0] by { ZeroCount(); }
    }

    method Put(key: Slice, value: Slice)
      requires Valid() && |ops| < MAX_COUNT
      modifies this
      ensures Valid() && ops == old(ops) + [Op.Put(key, value)]
    {
      hide EncodeOps, EncodeFixed, LengthPrefixed;
      CountOfRep(rep, ops);
      AppendsRep(rep, ops, [Op.Put(key, value)]);
      EncodeOpsOne(Op.Put(key, value));
      rep := SetCount(rep, Count(rep) + 1);
      ghost var counted := rep;
      rep := rep + [TYPE_VALUE];
      rep := rep + LengthPrefixed(key);
      rep := rep + LengthPrefixed(value);
      assert rep == counted + EncodeOp(Op.Put(key, value));
      ops := ops + [Op.Put(key, value)];
    }

    method Delete(key: Slice)
      requires Valid() && |ops| < MAX_COUNT
      modifies this
      ensures Valid() && ops == old(ops) + [Op.Delete(key)]
    {
      hide EncodeOps, EncodeFixed, LengthPrefixed;
      CountOfRep(rep, ops);
      AppendsRep(rep, ops, [Op.Delete(key)]);
      EncodeOpsOne(Op.Delete(key));
      rep := SetCount(rep, Count(rep) + 1);
      ghost var counted := rep;
      rep := rep + [TYPE_DELETION];
      rep := rep + LengthPrefixed(key);
      assert rep == counted + EncodeOp(Op.Delete(key));
      ops := ops + [Op.Delete(key)];
    }

    /** WriteBatchInternal::Append. */
    method Append(source: Slice, ghost more: seq<Op>)
      requires Valid() && IsRep(source, more) && |ops| + |more| <= MAX_COUNT
      modifies this
      ensures Valid() && ops == old(ops) + more
    {
      hide EncodeOps, EncodeFixed;
      CountOfRep(rep, ops);
      CountOfRep(source, more);
      AppendsRep(rep, ops, more);
      rep := SetCount(rep, Count(rep) + Count(source));
      rep := rep + source[BATCH_HEADER..];
      ops := ops + more;
    }
  }

  lemma ZeroCount()
    ensures EncodeFixed(0, 4) == [0, 0, 0, 0]
  {
    assert EncodeFixed(0, 2) == [0] + EncodeFixed(0, 1);
    assert EncodeFixed(0, 3) == [0] + EncodeFixed(0, 2);
  }

  /** The loop of Iterate, which hands each record to the inserter as it is read. */
  method IterateRep(rep: Slice) returns (handed: seq<Op>, ok: bool)
    ensures (handed, ok) == Iterate(rep)
  {
    hide ParseOp;
    handed := [];
    if |rep| < BATCH_HEADER {
      return handed, false;
    }
    var input := rep[BATCH_HEADER..];
    var found := 0;
    while input != []
      invariant found == |handed|
      invariant IterateFrom(rep[BATCH_HEADER..])
             == Iterated(handed + IterateFrom(input).ops, IterateFrom(input).complete)
      decreases |input|
    {
      found := found + 1;
      var p := ParseOp(input);
      if p.None? {
        assert handed + [] == handed;
        return handed, false;
      }
      ghost var rest := IterateFrom(input[p.value.size..]).ops;
      assert handed + ([p.value.op] + rest) == handed + [p.value.op] + rest;
      handed := handed + [p.value.op];
      input := input[p.value.size..];
    }
    assert handed + [] == handed;
    ok := found == Count(rep);
  }
}
