/** Internal keys: a user key followed by eight little-endian bytes that pack a
    56-bit sequence number and a type byte.  Internal keys are ordered by user
    key ascending, then by that packed number descending, so the newest version
    of a user key comes first. */
module DbFormat {

  type Byte = b: int | 0 <= b < 256
  type Slice = seq<Byte>

  const TWO_64 := 0x1_0000_0000_0000_0000
  const MAX_SEQUENCE := 0x100_0000_0000_0000 - 1
  const TYPE_DELETION := 0
  const TYPE_VALUE := 1
  const TYPE_FOR_SEEK := TYPE_VALUE

  type Fixed64 = n: int | 0 <= n < TWO_64
  type Sequence = s: int | 0 <= s <= MAX_SEQUENCE
  type ValueType = t: int | TYPE_DELETION <= t <= TYPE_VALUE

  datatype Option<+T> = None | Some(value: T)

  // ---------- User comparators ----------

  /** Always true: naming three keys here is what instantiates the laws below. */
  ghost predicate Instance(a: Slice, b: Slice, c: Slice) { true }

  ghost predicate IsThreeWayOrder(cmp: (Slice, Slice) -> int) {
    forall a, b, c {:trigger Instance(a, b, c)} :: Instance(a, b, c) ==>
      && (cmp(a, b) < 0 <==> cmp(b, a) > 0)
      && (cmp(a, b) <= 0 && cmp(b, c) <= 0 ==> cmp(a, c) <= 0)
  }

  /** Any user-supplied three-way order.  Distinct byte strings may compare equal. */
  type Comparator = cmp: (Slice, Slice) -> int | IsThreeWayOrder(cmp)
    witness (a: Slice, b: Slice) => 0

  lemma OrderLaws(cmp: Comparator, a: Slice, b: Slice, c: Slice)
    ensures cmp(a, a) == 0
    ensures cmp(a, b) < 0 <==> cmp(b, a) > 0
    ensures cmp(a, b) == 0 <==> cmp(b, a) == 0
    ensures cmp(a, b) <= 0 && cmp(b, c) <= 0 ==> cmp(a, c) <= 0
    ensures cmp(a, b) <= 0 && cmp(b, c) < 0 ==> cmp(a, c) < 0
    ensures cmp(a, b) < 0 && cmp(b, c) <= 0 ==> cmp(a, c) < 0
    ensures cmp(a, b) == 0 ==> (cmp(a, c) < 0 <==> cmp(b, c) < 0) && (cmp(a, c) == 0 <==> cmp(b, c) == 0)
  {
    assert Instance(a, a, a) && Instance(a, b, c) && Instance(b, a, c) && Instance(a, c, b);
    assert Instance(c, a, b) && Instance(c, b, a) && Instance(b, c, a);
  }

  // ---------- Fixed-width little-endian integers ----------

  function Pow256(width: nat): (p: nat)
    ensures p >= 1
  {
    if width == 0 then 1 else 0x100 * Pow256(width - 1)
  }

  function EncodeFixed(n: nat, width: nat): (s: Slice)
    ensures |s| == width
  {
    if width == 0 then [] else [n % 0x100] + EncodeFixed(n / 0x100, width - 1)
  }

  function DecodeFixed(s: Slice): (n: nat)
    ensures n < Pow256(|s|)
  {
    if s == [] then 0 else s[0] + 0x100 * DecodeFixed(s[1..])
  }

  lemma {:induction false} DecodeAfterEncodeFixed(n: nat, width: nat)
    requires n < Pow256(width)
    ensures DecodeFixed(EncodeFixed(n, width)) == n
  {
    if width > 0 {
      DecodeAfterEncodeFixed(n / 0x100, width - 1);
      assert EncodeFixed(n, width)[1..] == EncodeFixed(n / 0x100, width - 1);
    }
  }

  lemma LowByte(low: Byte, high: nat)
    ensures (low + 0x100 * high) % 0x100 == low && (low + 0x100 * high) / 0x100 == high
  {
  }

  lemma {:induction false} EncodeAfterDecodeFixed(s: Slice)
    ensures EncodeFixed(DecodeFixed(s), |s|) == s
  {
    if s != [] {
      EncodeAfterDecodeFixed(s[1..]);
      LowByte(s[0], DecodeFixed(s[1..]));
    }
  }

  lemma Pow256Of8()
    ensures Pow256(4) == 0x1_0000_0000
    ensures Pow256(8) == TWO_64
  {
    assert Pow256(4) == 0x100 * Pow256(3) == 0x1_0000 * Pow256(2);
    assert Pow256(8) == 0x100 * Pow256(7) == 0x1_0000 * Pow256(6);
    assert Pow256(6) == 0x100 * Pow256(5) == 0x1_0000 * Pow256(4);
  }

  function EncodeFixed64(n: Fixed64): (s: Slice)
    ensures |s| == 8
  {
    EncodeFixed(n, 8)
  }

  function DecodeFixed64(s: Slice): (n: Fixed64)
    requires |s| == 8
  {
    Pow256Of8();
    DecodeFixed(s)
  }

  // ---------- Internal keys as bytes ----------

  datatype ParsedInternalKey = ParsedInternalKey(userKey: Slice, sequence: Sequence, typ: ValueType)

  function PackSequenceAndType(seqno: Sequence, t: ValueType): (n: Fixed64)
    ensures n / 0x100 == seqno && n % 0x100 == t
  {
    seqno * 0x100 + t
  }

  function AppendInternalKey(dst: Slice, key: ParsedInternalKey): Slice {
    dst + key.userKey + EncodeFixed64(PackSequenceAndType(key.sequence, key.typ))
  }

  function ExtractUserKey(internalKey: Slice): Slice
    requires |internalKey| >= 8
  {
    internalKey[..|internalKey| - 8]
  }

  function ExtractTag(internalKey: Slice): Fixed64
    requires |internalKey| >= 8
  {
    DecodeFixed64(internalKey[|internalKey| - 8..])
  }

  /** None when the slice is shorter than eight bytes or its type byte is unknown. */
  function ParseInternalKey(internalKey: Slice): Option<ParsedInternalKey> {
    if |internalKey| < 8 then None
    else
      var num := ExtractTag(internalKey);
      if num % 0x100 <= TYPE_VALUE
      then Some(ParsedInternalKey(ExtractUserKey(internalKey), num / 0x100, num % 0x100))
      else None
  }

  lemma ParseAfterAppend(key: ParsedInternalKey)
    ensures ParseInternalKey(AppendInternalKey([], key)) == Some(key)
  {
    var tag := PackSequenceAndType(key.sequence, key.typ);
    var bytes := AppendInternalKey([], key);
    assert bytes == key.userKey + EncodeFixed64(tag);
    assert bytes[..|bytes| - 8] == key.userKey;
    assert bytes[|bytes| - 8..] == EncodeFixed64(tag);
    Pow256Of8();
    DecodeAfterEncodeFixed(tag, 8);
  }

  /** Every slice that parses is the serialization of what it parses to, and no
      other key has that serialization. */
  lemma AppendAfterParse(bytes: Slice, key: ParsedInternalKey)
    ensures ParseInternalKey(bytes) == Some(key) <==> bytes == AppendInternalKey([], key)
  {
    ParseAfterAppend(key);
    if ParseInternalKey(bytes) == Some(key) {
      EncodeAfterDecodeFixed(bytes[|bytes| - 8..]);
      assert bytes == bytes[..|bytes| - 8] + bytes[|bytes| - 8..];
      assert AppendInternalKey([], key) == key.userKey + EncodeFixed64(ExtractTag(bytes));
    }
  }

  // ---------- Internal key order ----------

  /** InternalKeyComparator::Compare. */
  function Compare(cmp: Comparator, a: Slice, b: Slice): int
    requires |a| >= 8 && |b| >= 8
  {
    var r := cmp(ExtractUserKey(a), ExtractUserKey(b));
    if r != 0 then r
    else if ExtractTag(a) > ExtractTag(b) then -1
    else if ExtractTag(a) < ExtractTag(b) then 1
    else 0
  }

  lemma CompareIsThreeWayOrder(cmp: Comparator, a: Slice, b: Slice, c: Slice)
    requires |a| >= 8 && |b| >= 8 && |c| >= 8
    ensures Compare(cmp, a, a) == 0
    ensures Compare(cmp, a, b) < 0 <==> Compare(cmp, b, a) > 0
    ensures Compare(cmp, a, b) <= 0 && Compare(cmp, b, c) <= 0 ==> Compare(cmp, a, c) <= 0
  {
    var ua, ub, uc := ExtractUserKey(a), ExtractUserKey(b), ExtractUserKey(c);
    OrderLaws(cmp, ua, ub, uc);
    OrderLaws(cmp, ub, ua, uc);
    OrderLaws(cmp, ub, uc, ua);
  }

  /** Two versions of one user key: the one with the larger sequence sorts first. */
  lemma NewestFirst(cmp: Comparator, u: Slice, s1: Sequence, t1: ValueType, s2: Sequence, t2: ValueType)
    ensures s1 > s2 ==>
      Compare(cmp, AppendInternalKey([], ParsedInternalKey(u, s1, t1)),
                   AppendInternalKey([], ParsedInternalKey(u, s2, t2))) < 0
  {
    ParseAfterAppend(ParsedInternalKey(u, s1, t1));
    ParseAfterAppend(ParsedInternalKey(u, s2, t2));
    OrderLaws(cmp, u, u, u);
  }

  /** The seek key for (user key, sequence) separates, among all parseable keys,
      exactly the smaller user keys and the versions newer than the sequence. */
  lemma SeekKeySeparates(cmp: Comparator, key: Slice, u: Slice, s: Sequence)
    requires ParseInternalKey(key).Some?
    ensures var seek := AppendInternalKey([], ParsedInternalKey(u, s, TYPE_FOR_SEEK));
      var k := ParseInternalKey(key).value;
      Compare(cmp, key, seek) < 0 <==>
        cmp(k.userKey, u) < 0 || (cmp(k.userKey, u) == 0 && k.sequence > s)
  {
    ParseAfterAppend(ParsedInternalKey(u, s, TYPE_FOR_SEEK));
  }

  // ---------- Shortened separators ----------

  /** What a user comparator promises of FindShortestSeparator(start, limit). */
  ghost predicate SeparatesUserKeys(cmp: Comparator, start: Slice, limit: Slice, r: Slice) {
    cmp(start, limit) < 0 ==> cmp(start, r) <= 0 && cmp(r, limit) < 0
  }

  /** InternalKeyComparator::FindShortestSeparator; `shorter` is the user
      comparator's answer for the two user keys. */
  function FindShortestSeparator(cmp: Comparator, start: Slice, limit: Slice, shorter: Slice): (r: Slice)
    requires |start| >= 8 && |limit| >= 8
    ensures |r| >= 8
  {
    var userStart := ExtractUserKey(start);
    if |shorter| < |userStart| && cmp(userStart, shorter) < 0 then
      shorter + EncodeFixed64(PackSequenceAndType(MAX_SEQUENCE, TYPE_FOR_SEEK))
    else
      start
  }

  lemma SeparatorSeparates(cmp: Comparator, start: Slice, limit: Slice, shorter: Slice)
    requires |start| >= 8 && |limit| >= 8 && Compare(cmp, start, limit) < 0
    requires SeparatesUserKeys(cmp, ExtractUserKey(start), ExtractUserKey(limit), shorter)
    requires cmp(ExtractUserKey(start), ExtractUserKey(limit)) == 0 ==> |shorter| >= |ExtractUserKey(start)|
    ensures var r := FindShortestSeparator(cmp, start, limit, shorter);
      Compare(cmp, start, r) <= 0 && Compare(cmp, r, limit) < 0 && |r| <= |start|
  {
    var us, ul := ExtractUserKey(start), ExtractUserKey(limit);
    OrderLaws(cmp, us, us, us);
    if |shorter| < |us| && cmp(us, shorter) < 0 {
      var r := FindShortestSeparator(cmp, start, limit, shorter);
      assert ExtractUserKey(r) == shorter;
    }
  }

  /** InternalKeyComparator::FindShortSuccessor; `shorter` is the user comparator's answer. */
  function FindShortSuccessor(cmp: Comparator, key: Slice, shorter: Slice): (r: Slice)
    requires |key| >= 8
    ensures |r| >= 8
  {
    FindShortestSeparator(cmp, key, key, shorter)
  }

  lemma SuccessorNotBefore(cmp: Comparator, key: Slice, shorter: Slice)
    requires |key| >= 8
    ensures Compare(cmp, key, FindShortSuccessor(cmp, key, shorter)) <= 0
    ensures |FindShortSuccessor(cmp, key, shorter)| <= |key|
  {
    var u := ExtractUserKey(key);
    OrderLaws(cmp, u, u, u);
    var r := FindShortSuccessor(cmp, key, shorter);
    if r != key {
      assert ExtractUserKey(r) == shorter;
    }
  }
}
