/** Base 128 varints and zigzag integers, as nanopb reads and writes them. */
module Varint {
  import opened DbFormat

  const TWO_32 := 0x1_0000_0000
  const TWO_31 := 0x8000_0000
  const TWO_63 := 0x8000_0000_0000_0000

  type Uint64 = n: int | 0 <= n < TWO_64
  type Uint32 = n: int | 0 <= n < TWO_32
  type Int64 = n: int | -TWO_63 <= n < TWO_63

  // ---------- Bits ----------

  function Pow2(n: nat): (p: nat)
    ensures p >= 1
  {
    if n == 0 then 1 else 2 * Pow2(n - 1)
  }

  /** Bitwise or. */
  function Or(a: nat, b: nat): nat
    decreases a + b
  {
    if a == 0 then b
    else if b == 0 then a
    else (if a % 2 == 1 || b % 2 == 1 then 1 else 0) + 2 * Or(a / 2, b / 2)
  }

  /** Or of numbers without common bits is their sum. */
  lemma {:induction false} OrIsSum(a: nat, m: nat, k: nat)
    requires a < Pow2(k)
    ensures Or(a, m * Pow2(k)) == a + m * Pow2(k)
    decreases k
  {
    if k > 0 && a > 0 && m > 0 {
      HalveProduct(m, k);
      OrIsSum(a / 2, m, k - 1);
    } else if k == 0 {
      assert a == 0;
    }
  }

  lemma HalveProduct(m: nat, k: nat)
    requires k > 0
    ensures m * Pow2(k) == 2 * (m * Pow2(k - 1)) && (m * Pow2(k)) % 2 == 0 && (m * Pow2(k)) / 2 == m * Pow2(k - 1)
  {
    var p := Pow2(k - 1);
    assert m * (2 * p) == 2 * (m * p);
  }

  // ---------- Encoding ----------

  function EncodeVarint(v: nat): (s: Slice)
    ensures |s| >= 1
  {
    if v < 0x80 then [v] else [v % 0x80 + 0x80] + EncodeVarint(v / 0x80)
  }

  lemma {:induction false} EncodedLength(v: nat, n: nat)
    requires v < Pow2(7 * n) && n >= 1
    ensures |EncodeVarint(v)| <= n
    decreases n
  {
    if v >= 0x80 {
      Pow2Doubling(7 * (n - 1), Pow2(7 * (n - 1)), 7);
      EncodedLength(v / 0x80, n - 1);
    }
  }

  lemma Pow2Of7()
    ensures Pow2(7) == 0x80 && Pow2(14) == 0x4000 && Pow2(28) == 0x1000_0000 && Pow2(32) == TWO_32
    ensures Pow2(63) == TWO_63 && Pow2(64) == TWO_64
  {
    Pow2Doubling(0, 1, 7);
    Pow2Doubling(7, 0x80, 7);
    Pow2Doubling(14, 0x4000, 7);
    Pow2Doubling(21, 0x20_0000, 7);
    Pow2Doubling(28, 0x1000_0000, 4);
    Pow2Doubling(32, TWO_32, 7);
    Pow2Doubling(39, 0x80 * TWO_32, 7);
    Pow2Doubling(46, 0x4000 * TWO_32, 7);
    Pow2Doubling(53, 0x20_0000 * TWO_32, 7);
    Pow2Doubling(60, 0x1000_0000 * TWO_32, 3);
    assert Pow2(64) == 2 * Pow2(63);
  }

  lemma Pow2Doubling(n: nat, p: nat, k: nat)
    requires Pow2(n) == p && k <= 7
    ensures k == 3 ==> Pow2(n + k) == 8 * p
    ensures k == 4 ==> Pow2(n + k) == 16 * p
    ensures k == 7 ==> Pow2(n + k) == 0x80 * p
  {
    assert Pow2(n + 1) == 2 * p;
    assert Pow2(n + 2) == 4 * p;
    assert Pow2(n + 3) == 8 * p;
    assert Pow2(n + 4) == 16 * p;
    assert Pow2(n + 5) == 32 * p;
    assert Pow2(n + 6) == 64 * p;
    assert Pow2(n + 7) == 128 * p;
  }

  /** pb_encode_varint: a 64-bit value never needs more than the ten bytes of its buffer. */
  method EncodeVarintBuffer(value: Uint64) returns (bytes: Slice)
    ensures bytes == EncodeVarint(value) && |bytes| <= 10
  {
    TenBytesSuffice(value);
    if value <= 0x7F {
      return [value];
    }
    var buffer := new Byte[10];
    var i := 0;
    var v: nat := value;
    while v != 0
      invariant 0 <= i <= 10
      invariant v > 0 ==> |EncodeVarint(v)| + i <= 10 && buffer[..i] + EncodeVarint(v) == EncodeVarint(value)
      invariant v == 0 ==>
          && i > 0 && buffer[i - 1] >= 0x80
          && buffer[..i - 1] + [buffer[i - 1] - 0x80] == EncodeVarint(value)
      decreases v
    {
      ghost var before := buffer[..i];
      EncodeStep(before, v);
      buffer[i] := v % 0x80 + 0x80;
      assert buffer[..i] == before && buffer[..i + 1] == before + [v % 0x80 + 0x80];
      v := v / 0x80;
      i := i + 1;
    }
    buffer[i - 1] := buffer[i - 1] - 0x80;
    bytes := buffer[..i];
  }

  lemma {:induction false} EncodeStep(before: Slice, v: nat)
    requires v > 0
    ensures v / 0x80 < v
    ensures v / 0x80 > 0 ==>
      before + EncodeVarint(v) == before + [v % 0x80 + 0x80] + EncodeVarint(v / 0x80)
          && |EncodeVarint(v)| == 1 + |EncodeVarint(v / 0x80)|
    ensures v / 0x80 == 0 ==> before + EncodeVarint(v) == before + [v % 0x80]
  {
  }

  lemma {:induction false} TenBytesSuffice(value: Uint64)
    ensures |EncodeVarint(value)| <= 10
  {
    Pow2Of7();
    Pow2Doubling(63, TWO_63, 7);
    EncodedLength(value, 10);
  }

  /** Reading the first byte of an encoding in the middle of a stream. */
  lemma {:induction false} FirstByte(before: Slice, v: nat, rest: Slice)
    ensures var s := before + EncodeVarint(v) + rest;
      && |before| < |s|
      && s[|before|] == (if v < 0x80 then v else v % 0x80 + 0x80)
      && s[|before|] % 0x80 == v % 0x80 && (s[|before|] < 0x80 <==> v < 0x80)
      && (v < 0x80 ==> |EncodeVarint(v)| == 1)
      && (v >= 0x80 ==>
            && s == (before + [s[|before|]]) + EncodeVarint(v / 0x80) + rest
            && |EncodeVarint(v)| == 1 + |EncodeVarint(v / 0x80)|)
  {
    var s := before + EncodeVarint(v) + rest;
    assert s[|before|] == EncodeVarint(v)[0];
    if v >= 0x80 {
      assert s == (before + [s[|before|]]) + EncodeVarint(v / 0x80) + rest;
    }
  }

  // ---------- Decoding 64 bits ----------

  datatype DecodeError = EndOfStream | VarintOverflow

  datatype Decoded = Ok(value: nat, size: nat) | Err(error: DecodeError)

  /** The loop of pb_decode_varint, about to read byte i with `result` so far. */
  function Decode64From(s: Slice, i: nat, result: Uint64): (d: Decoded)
    ensures d.Ok? ==> d.value < TWO_64 && i < d.size <= |s|
    decreases |s| - i
  {
    if 7 * i >= 64 then Err(VarintOverflow)
    else if i >= |s| then Err(EndOfStream)
    else
      var r := Or(result, s[i] % 0x80 * Pow2(7 * i) % TWO_64) % TWO_64;
      if s[i] < 0x80 then Ok(r, i + 1) else Decode64From(s, i + 1, r)
  }

  function DecodeVarint(s: Slice): (d: Decoded)
    ensures d.Ok? ==> d.value < TWO_64 && 0 < d.size <= |s|
  {
    Decode64From(s, 0, 0)
  }

  /** Splitting off the low seven bits at bit position 7 * i. */
  lemma SplitLow(v: nat, p: nat)
    ensures v % 0x80 * p + v / 0x80 * (0x80 * p) == v * p
  {
    var q, r := v / 0x80, v % 0x80;
    assert v == 0x80 * q + r;
    assert (0x80 * q + r) * p == 0x80 * q * p + r * p;
  }

  /** The bits of one byte do not meet those already collected. */
  lemma {:induction false} OneByte(result: nat, low: nat, i: nat, bound: nat)
    requires result < Pow2(7 * i) && low < 0x80 && result + low * Pow2(7 * i) < bound
    ensures Or(result, low * Pow2(7 * i) % bound) % bound == result + low * Pow2(7 * i) < Pow2(7 * (i + 1))
  {
    hide Or, Pow2;
    var p := Pow2(7 * i);
    Pow2Doubling(7 * i, p, 7);
    AtMost127(low, p);
    OrIsSum(result, low, 7 * i);
    ModSmall(low * p, bound);
    ModSmall(result + low * p, bound);
  }

  lemma AtMost127(low: nat, p: nat)
    requires low < 0x80
    ensures low * p <= 0x7F * p
  {
  }

  lemma {:induction false} Decode64Encoded(before: Slice, v: nat, rest: Slice, result: Uint64)
    requires result < Pow2(7 * |before|) && result + v * Pow2(7 * |before|) < TWO_64
    requires before != [] ==> v > 0
    ensures Decode64From(before + EncodeVarint(v) + rest, |before|, result)
         == Ok(result + v * Pow2(7 * |before|), |before| + |EncodeVarint(v)|)
    decreases v
  {
    hide Decode64From, EncodeVarint, Or, Pow2;
    var i := |before|;
    var p := Pow2(7 * i);
    var s := before + EncodeVarint(v) + rest;
    InRange64(v, i, result);
    FirstByte(before, v, rest);
    Decode64Step(s, i, result);
    SplitLow(v, p);
    Pow2Doubling(7 * i, p, 7);
    LowFits(v, p, result);
    OneByte(result, v % 0x80, i, TWO_64);
    if v >= 0x80 {
      Decode64Encoded(before + [s[i]], v / 0x80, rest, result + v % 0x80 * p);
    } else {
      assert v % 0x80 == v;
    }
  }

  lemma LowFits(v: nat, p: nat, result: nat)
    requires result + v * p < TWO_64
    ensures result + v % 0x80 * p < TWO_64
  {
    SplitLow(v, p);
    var h := v / 0x80;
    assert h * (0x80 * p) >= 0;
  }

  lemma Decode64Step(s: Slice, i: nat, result: Uint64)
    requires i < |s| && 7 * i < 64
    ensures var r := Or(result, s[i] % 0x80 * Pow2(7 * i) % TWO_64) % TWO_64;
      Decode64From(s, i, result) == if s[i] < 0x80 then Ok(r, i + 1) else Decode64From(s, i + 1, r)
  {
  }

  lemma ProductAtLeast(v: nat, p: nat)
    ensures v > 0 ==> v * p >= p
  {
  }

  lemma ModSmall(x: nat, bound: nat)
    requires x < bound
    ensures x % bound == x
  {
  }

  lemma {:induction false} InRange64(v: nat, i: nat, result: nat)
    requires result + v * Pow2(7 * i) < TWO_64 && (i > 0 ==> v > 0)
    ensures 7 * i < 64
  {
    ProductAtLeast(v, Pow2(7 * i));
    Pow2Of7();
    if i >= 10 {
      Pow2Monotone(64, 7 * i);
    }
  }

  lemma {:induction false} Pow2Monotone(a: nat, b: nat)
    requires a <= b
    ensures Pow2(a) <= Pow2(b)
    decreases b
  {
    if a < b {
      Pow2Monotone(a, b - 1);
    }
  }

  /** Decoding an encoded 64-bit value, whatever follows it, gives it back and
      consumes exactly its encoding. */
  lemma {:induction false} DecodeAfterEncode(v: Uint64, rest: Slice)
    ensures DecodeVarint(EncodeVarint(v) + rest) == Ok(v, |EncodeVarint(v)|) && |EncodeVarint(v)| <= 10
  {
    assert [] + EncodeVarint(v) + rest == EncodeVarint(v) + rest;
    Decode64Encoded([], v, rest, 0);
    TenBytesSuffice(v);
  }

  // ---------- Varints in any stream ----------

  /** The number in groups of seven bits, the lowest first. */
  function Base128(s: Slice): nat {
    if s == [] then 0 else s[0] % 128 + 128 * Base128(s[1..])
  }

  /** Every byte but the last announces another. */
  predicate Continues(s: Slice) {
    s != [] && s[|s| - 1] < 128 && forall i :: 0 <= i < |s| - 1 ==> s[i] >= 128
  }

  lemma {:induction false} VarintOnWire(v: nat)
    ensures Continues(EncodeVarint(v)) && Base128(EncodeVarint(v)) == v
    decreases v
  {
    if v >= 0x80 {
      VarintOnWire(v / 0x80);
      var s := EncodeVarint(v);
      assert s[1..] == EncodeVarint(v / 0x80);
      forall i | 0 <= i < |s| - 1
        ensures s[i] >= 128
      {
        if i > 0 {
          assert s[i] == s[1..][i - 1];
        }
      }
      assert s[|s| - 1] == s[1..][|s| - 2];
    } else {
      assert EncodeVarint(v)[1..] == [];
    }
  }

  /** What the loop reads is the rest of such bytes, at most ten in all. */
  lemma {:induction false} AnyFrom64(s: Slice, i: nat, result: Uint64, n: nat)
    requires i <= 10 && i <= n <= |s| && (i <= 9 ==> result < Pow2(7 * i))
    ensures var d := Decode64From(s, i, result);
      && (d.Ok? && d.size == n <==> n <= 10 && Continues(s[i..n]))
      && (d.Ok? && d.size == n ==> d.value == (result + Base128(s[i..n]) * Pow2(7 * i)) % TWO_64)
    decreases |s| - i
  {
    hide Or, Pow2, Base128;
    if i < 10 && i < n {
      var low, p := s[i] % 0x80, Pow2(7 * i);
      var r := Or(result, low * p % TWO_64) % TWO_64;
      Decode64Step(s, i, result);
      FirstGroup(s[i..n], p);
      assert s[i..n][1..] == s[i + 1..n];
      Pow2Doubling(7 * i, p, 7);
      TenthByte(result, low, i);
      if i == 9 {
        TooLong(s, r);
      } else {
        AnyFrom64(s, i + 1, r, n);
      }
    }
  }

  lemma {:induction false} TooLong(s: Slice, r: Uint64)
    ensures Decode64From(s, 10, r).Err?
  {
  }

  /** A byte adds its seven bits, of which the tenth has only one that counts. */
  lemma {:induction false} TenthByte(result: Uint64, low: nat, i: nat)
    requires i <= 9 && result < Pow2(7 * i) && low < 0x80
    ensures var r := Or(result, low * Pow2(7 * i) % TWO_64) % TWO_64;
      && r == (result + low * Pow2(7 * i)) % TWO_64
      && (i < 9 ==> r == result + low * Pow2(7 * i) < Pow2(7 * (i + 1)))
  {
    hide Or, Pow2;
    Pow2Of7();
    if i < 9 {
      LowByteOf64(result, low, i);
    } else {
      TopBit(result, low);
      OrIsSum(result, low % 2, 63);
    }
  }

  lemma {:induction false} LowByteOf64(result: Uint64, low: nat, i: nat)
    requires i < 9 && result < Pow2(7 * i) && low < 0x80
    ensures var r := Or(result, low * Pow2(7 * i) % TWO_64) % TWO_64;
      r == (result + low * Pow2(7 * i)) % TWO_64 == result + low * Pow2(7 * i) < Pow2(7 * (i + 1))
  {
    hide Or, Pow2;
    var p := Pow2(7 * i);
    Pow2Of7();
    Pow2Doubling(7 * i, p, 7);
    Pow2Monotone(7 * (i + 1), 63);
    AtMost127(low, p);
    OneByte(result, low, i, TWO_64);
    ModSmall(result + low * p, TWO_64);
  }

  lemma TopBit(result: nat, low: nat)
    requires result < TWO_63
    ensures low * TWO_63 % TWO_64 == low % 2 * TWO_63
    ensures (result + low * TWO_63) % TWO_64 == result + low % 2 * TWO_63 == (result + low % 2 * TWO_63) % TWO_64
  {
    var half := low / 2;
    assert low * TWO_63 == half * TWO_64 + low % 2 * TWO_63;
  }

  lemma {:induction false} FirstGroup(s: Slice, p: nat)
    requires s != []
    ensures Base128(s) * p == s[0] % 0x80 * p + Base128(s[1..]) * (0x80 * p)
    ensures |s| == 1 ==> Base128(s) * p == s[0] % 0x80 * p && (Continues(s) <==> s[0] < 0x80)
    ensures |s| > 1 ==> (Continues(s) <==> s[0] >= 0x80 && Continues(s[1..]))
  {
    var low, more := s[0] % 0x80, Base128(s[1..]);
    assert (low + 0x80 * more) * p == low * p + more * (0x80 * p);
    if |s| == 1 {
      assert s[1..] == [];
    } else {
      assert s[1..][|s| - 2] == s[|s| - 1];
      if s[0] >= 0x80 && Continues(s[1..]) {
        assert forall i :: 1 <= i < |s| - 1 ==> s[i] == s[1..][i - 1];
      }
      if Continues(s) {
        assert forall i :: 0 <= i < |s| - 2 ==> s[1..][i] == s[i + 1];
      }
    }
  }

  /** For any stream: the 64-bit decoder takes at most ten bytes, of which all but
      the last announce another, and gives their number modulo 2^64. */
  lemma {:induction false} AnyVarint64(s: Slice, n: nat)
    requires n <= |s|
    ensures var d := DecodeVarint(s);
      && (d.Ok? && d.size == n <==> n <= 10 && Continues(s[..n]))
      && (d.Ok? && d.size == n ==> d.value == Base128(s[..n]) % TWO_64)
  {
    hide Base128, Decode64From;
    assert Pow2(7 * 0) == 1;
    AnyFrom64(s, 0, 0, n);
    assert s[0..n] == s[..n];
  }

  // ---------- Decoding 32 bits ----------

  /** The only byte with non-zero bits that may follow a full 32-bit result. */
  function SignExtension(bitpos: nat): Byte {
    if bitpos < 63 then 0xFF else 0x01
  }

  /** The loop of pb_decode_varint32_eof, about to read byte i.  The bit position
      is kept in eight bits. */
  function Decode32From(s: Slice, i: nat, bitpos: Byte, result: Uint32): (d: Decoded)
    ensures d.Ok? ==> d.value < TWO_32 && i < d.size <= |s|
    decreases |s| - i
  {
    if i >= |s| then Err(EndOfStream)
    else
      var b := s[i];
      if bitpos >= 32 && b % 0x80 != 0 && (result < TWO_31 || b != SignExtension(bitpos)) then Err(VarintOverflow)
      else
        var r := if bitpos >= 32 then result else Or(result, b % 0x80 * Pow2(bitpos) % TWO_32) % TWO_32;
        var next := (bitpos + 7) % 0x100;
        if b >= 0x80 then Decode32From(s, i + 1, next, r)
        else if next == 35 && b / 0x10 % 8 != 0 then Err(VarintOverflow)
        else Ok(r, i + 1)
  }

  function DecodeVarint32(s: Slice): (d: Decoded)
    ensures d.Ok? ==> d.value < TWO_32 && 0 < d.size <= |s|
  {
    if s == [] then Err(EndOfStream)
    else if s[0] < 0x80 then Ok(s[0], 1)
    else Decode32From(s, 1, 7, s[0] % 0x80)
  }

  /** n seven-bit groups that are each all zeros or all ones, and then a one. */
  predicate UniformGroups(u: nat, n: nat) {
    if n == 0 then u == 1 else (u % 0x80 == 0 || u % 0x80 == 0x7F) && UniformGroups(u / 0x80, n - 1)
  }

  /** The 64-bit values whose encoding the 32-bit decoder takes: those that fit,
      and those that look like a negative 32-bit value sign-extended to 64 bits,
      as far as the decoder checks. */
  predicate Accepts32(v: Uint64) {
    v < TWO_32 || (v % TWO_32 >= TWO_31 && UniformGroups(v / (8 * TWO_32), 4))
  }

  lemma Decode32Step(s: Slice, i: nat, bitpos: Byte, result: Uint32)
    requires i < |s|
    ensures var b, next := s[i], (bitpos + 7) % 0x100;
      var r := if bitpos >= 32 then result else Or(result, b % 0x80 * Pow2(bitpos) % TWO_32) % TWO_32;
      Decode32From(s, i, bitpos, result) ==
        if bitpos >= 32 && b % 0x80 != 0 && (result < TWO_31 || b != SignExtension(bitpos)) then Err(VarintOverflow)
        else if b >= 0x80 then Decode32From(s, i + 1, next, r)
        else if next == 35 && b / 0x10 % 8 != 0 then Err(VarintOverflow)
        else Ok(r, i + 1)
  {
  }

  lemma {:induction false} ZeroIsNotUniform(n: nat)
    ensures !UniformGroups(0, n)
    decreases n
  {
    if n > 0 {
      ZeroIsNotUniform(n - 1);
    }
  }

  /** The result on the encoding of v, which takes `size` bytes. */
  function Expected32(v: Uint64, size: nat): Decoded {
    if Accepts32(v) then Ok(v % TWO_32, size) else Err(VarintOverflow)
  }

  /** The bytes after the fifth only say whether the value is accepted. */
  lemma {:induction false} Decode32Tail(before: Slice, u: nat, rest: Slice, result: Uint32)
    requires 5 <= |before| <= 9 && 0 < u < Pow2(64 - 7 * |before|)
    ensures Decode32From(before + EncodeVarint(u) + rest, |before|, 7 * |before|, result)
         == if result >= TWO_31 && UniformGroups(u, 9 - |before|) then
             Ok(result, |before| + |EncodeVarint(u)|) else Err(VarintOverflow)
    decreases u
  {
    hide Decode32From, EncodeVarint;
    var i := |before|;
    var s := before + EncodeVarint(u) + rest;
    FirstByte(before, u, rest);
    Decode32Step(s, i, 7 * i, result);
    ZeroIsNotUniform(9 - i);
    if i < 9 {
      ZeroIsNotUniform(8 - i);
    }
    assert Pow2(1) == 2;
    if u >= 0x80 && i < 9 {
      Pow2Doubling(64 - 7 * (i + 1), Pow2(64 - 7 * (i + 1)), 7);
      Decode32Tail(before + [s[i]], u / 0x80, rest, result);
    }
  }

  /** The fifth byte carries the top four bits; its other bits are checked only
      when it is the last byte. */
  lemma {:induction false} Decode32Fifth(before: Slice, v: nat, rest: Slice, result: Uint32)
    requires |before| == 4 && v > 0 && result < 0x1000_0000 && result + v * 0x1000_0000 < TWO_64
    ensures var whole := result + v * 0x1000_0000;
      Decode32From(before + EncodeVarint(v) + rest, 4, 28, result)
         == Expected32(whole, 4 + |EncodeVarint(v)|)
  {
    hide Decode32From, EncodeVarint, Expected32;
    if v < 0x80 {
      Decode32FifthLast(before, v, rest, result);
    } else {
      Decode32FifthMore(before, v, rest, result);
    }
  }

  lemma {:induction false} Decode32FifthLast(before: Slice, v: nat, rest: Slice, result: Uint32)
    requires |before| == 4 && v < 0x80 && result < 0x1000_0000
    ensures Decode32From(before + EncodeVarint(v) + rest, 4, 28, result)
         == Expected32(result + v * 0x1000_0000, 4 + |EncodeVarint(v)|)
  {
    hide Decode32From, EncodeVarint, Or, Pow2, Accepts32;
    FirstByte(before, v, rest);
    Decode32Step(before + EncodeVarint(v) + rest, 4, 28, result);
    FifthBits(result, v, 0, result + v * 0x1000_0000);
    FifthIsLast(result + v * 0x1000_0000);
  }

  lemma {:induction false} Decode32FifthMore(before: Slice, v: nat, rest: Slice, result: Uint32)
    requires |before| == 4 && v >= 0x80 && result < 0x1000_0000 && result + v * 0x1000_0000 < TWO_64
    ensures Decode32From(before + EncodeVarint(v) + rest, 4, 28, result)
         == Expected32(result + v * 0x1000_0000, 4 + |EncodeVarint(v)|)
  {
    hide Decode32From, EncodeVarint, Or, Pow2, Expected32, UniformGroups;
    var s := before + EncodeVarint(v) + rest;
    FirstByte(before, v, rest);
    Decode32Step(s, 4, 28, result);
    FifthMoreBits(v, result);
    var r: Uint32 := Or(result, v % 0x80 * Pow2(28) % TWO_32) % TWO_32;
    Decode32Tail(before + [s[4]], v / 0x80, rest, r);
    FifthExpected(result + v * 0x1000_0000, v / 0x80, r, 4 + |EncodeVarint(v)|);
  }

  lemma {:induction false} FifthExpected(whole: Uint64, u: nat, r: Uint32, size: nat)
    requires u > 0 && u == whole / (8 * TWO_32) && r == whole % TWO_32
    ensures Expected32(whole, size) == if r >= TWO_31 && UniformGroups(u, 4) then Ok(r, size) else Err(VarintOverflow)
  {
    hide UniformGroups;
    FifthAccepts(whole, u);
  }

  lemma {:induction false} FifthMoreBits(v: nat, result: nat)
    requires v >= 0x80 && result < 0x1000_0000 && result + v * 0x1000_0000 < TWO_64
    ensures var whole, u := result + v * 0x1000_0000, v / 0x80;
      && Or(result, v % 0x80 * Pow2(28) % TWO_32) % TWO_32 == whole % TWO_32
      && u == whole / (8 * TWO_32) && 0 < u < Pow2(29)
  {
    hide Or, Pow2;
    var g, u := v % 0x80, v / 0x80;
    assert v == u * 0x80 + g;
    FifthBits(result, g, u, result + v * 0x1000_0000);
    TailRange(result + v * 0x1000_0000, u);
  }

  lemma {:induction false} FifthAccepts(whole: Uint64, u: nat)
    requires u > 0 && u == whole / (8 * TWO_32)
    ensures Accepts32(whole) <==> whole % TWO_32 >= TWO_31 && UniformGroups(u, 4)
  {
    hide UniformGroups;
  }

  lemma FifthIsLast(whole: Uint64)
    requires whole / (8 * TWO_32) == 0
    ensures Accepts32(whole) <==> whole < TWO_32
  {
    ZeroIsNotUniform(4);
  }

  lemma SplitAt32(low: nat, high: nat)
    requires low < TWO_32
    ensures (low + high * TWO_32) % TWO_32 == low
  {
  }

  lemma SplitAt35(low: nat, high: nat)
    requires low < 8 * TWO_32
    ensures (low + high * (8 * TWO_32)) / (8 * TWO_32) == high
  {
  }

  lemma {:induction false} FifthBits(result: nat, g: nat, u: nat, whole: nat)
    requires g < 0x80 && result < 0x1000_0000 && whole == result + (u * 0x80 + g) * 0x1000_0000
    ensures Or(result, g * Pow2(28) % TWO_32) % TWO_32 == whole % TWO_32
    ensures whole / (8 * TWO_32) == u
    ensures u == 0 ==> (whole < TWO_32 <==> g / 0x10 % 8 == 0)
  {
    hide Or, Pow2;
    Pow2Of7();
    var l, h := g % 0x10, g / 0x10;
    assert g == 0x10 * h + l;
    var r := result + l * 0x1000_0000;
    SplitAt32(l * 0x1000_0000, h);
    OrIsSum(result, l, 28);
    SplitAt32(r, h + 8 * u);
    SplitAt35(r + h * TWO_32, u);
    ModSmall(r, TWO_32);
  }

  lemma TailRange(whole: Uint64, u: nat)
    requires u == whole / (8 * TWO_32)
    ensures u < Pow2(64 - 7 * 5)
  {
    Pow2Of7();
    assert Pow2(29) == 2 * Pow2(28);
  }

  lemma {:induction false} Decode32Head(before: Slice, v: nat, rest: Slice, result: Uint32)
    requires 1 <= |before| <= 4 && v > 0 && result < Pow2(7 * |before|) && result + v * Pow2(7 * |before|) < TWO_64
    ensures var whole := result + v * Pow2(7 * |before|);
      Decode32From(before + EncodeVarint(v) + rest, |before|, 7 * |before|, result)
         == Expected32(whole, |before| + |EncodeVarint(v)|)
    decreases v
  {
    hide Decode32From, EncodeVarint, Or, Pow2, Expected32;
    var i := |before|;
    var p := Pow2(7 * i);
    Pow2Of7();
    if i == 4 {
      Decode32Fifth(before, v, rest, result);
    } else {
      var s := before + EncodeVarint(v) + rest;
      FirstByte(before, v, rest);
      Decode32Step(s, i, 7 * i, result);
      SplitLow(v, p);
      HeadRange(v % 0x80, i, result);
      OneByte(result, v % 0x80, i, TWO_32);
      if v >= 0x80 {
        Pow2Doubling(7 * i, p, 7);
        Decode32Head(before + [s[i]], v / 0x80, rest, result + v % 0x80 * p);
      } else {
        SmallExpected32(result + v * p, i + 1);
      }
    }
  }

  lemma SmallExpected32(v: Uint64, size: nat)
    requires v < TWO_32
    ensures Expected32(v, size) == Ok(v, size)
  {
  }

  lemma {:induction false} HeadRange(low: nat, i: nat, result: nat)
    requires 1 <= i <= 3 && low < 0x80 && result < Pow2(7 * i)
    ensures result + low * Pow2(7 * i) < 0x1000_0000
  {
    hide Pow2;
    Pow2Of7();
    Pow2Doubling(14, 0x4000, 7);
    var p := Pow2(7 * i);
    assert p <= 0x20_0000;
    AtMost127(low, p);
  }

  /** What the 32-bit decoder makes of any encoded 64-bit value. */
  lemma {:induction false} Decode32AfterEncode(v: Uint64, rest: Slice)
    ensures DecodeVarint32(EncodeVarint(v) + rest)
         == if Accepts32(v) then Ok(v % TWO_32, |EncodeVarint(v)|) else Err(VarintOverflow)
  {
    hide Decode32From, EncodeVarint, Or, Pow2, Accepts32;
    var s := EncodeVarint(v) + rest;
    assert [] + EncodeVarint(v) + rest == s;
    FirstByte([], v, rest);
    Pow2Of7();
    if v >= 0x80 {
      assert [] + [s[0]] == [s[0]];
      Decode32Head([s[0]], v / 0x80, rest, v % 0x80);
    } else {
      SmallExpected32(v, 1);
    }
  }

  /** Values that fit are returned, sign-extended negative values give their low
      32 bits, and everything else below 2^63 is rejected. */
  lemma Accepted32(v: Uint64)
    ensures v < TWO_32 ==> Accepts32(v) && v % TWO_32 == v
    ensures v >= TWO_64 - TWO_31 ==> Accepts32(v)
    ensures TWO_32 <= v < TWO_63 ==> !Accepts32(v)
  {
    var u := v / (8 * TWO_32);
    var u1 := u / 0x80;
    var u2 := u1 / 0x80;
    var u3 := u2 / 0x80;
    assert UniformGroups(u, 4) <==> (u % 0x80 == 0 || u % 0x80 == 0x7F) && UniformGroups(u1, 3);
    assert UniformGroups(u1, 3) <==> (u1 % 0x80 == 0 || u1 % 0x80 == 0x7F) && UniformGroups(u2, 2);
    assert UniformGroups(u2, 2) <==> (u2 % 0x80 == 0 || u2 % 0x80 == 0x7F) && UniformGroups(u3, 1);
    assert UniformGroups(u3, 1) <==> (u3 % 0x80 == 0 || u3 % 0x80 == 0x7F) && u3 / 0x80 == 1;
    if v >= TWO_64 - TWO_31 {
      assert u == 0x1FFF_FFFF;
    }
  }

  /** The check is not exact: this value is not the sign extension of anything,
      and is accepted. */
  lemma NotSignExtendedExample()
    ensures Accepts32(TWO_63 + TWO_31) && TWO_63 + TWO_31 < TWO_64 - TWO_31
  {
    var u := (TWO_63 + TWO_31) / (8 * TWO_32);
    assert u == 0x1000_0000;
    assert UniformGroups(1, 0) && UniformGroups(0x80, 1) && UniformGroups(0x4000, 2) && UniformGroups(0x20_0000, 3);
  }

  // ---------- Zigzag ----------

  /** A signed 64-bit value as the unsigned value with the same bits. */
  function ToUnsigned(v: Int64): Uint64 {
    if v < 0 then v + TWO_64 else v
  }

  function ToSigned(u: Uint64): Int64 {
    if u >= TWO_63 then u - TWO_64 else u
  }

  function BitNot(u: Uint64): Uint64 {
    TWO_64 - 1 - u
  }

  /** pb_encode_svarint: shift left, and complement if the value was negative. */
  function ZigZag(v: Int64): Uint64 {
    if v < 0 then BitNot(ToUnsigned(v) * 2 % TWO_64) else ToUnsigned(v) * 2 % TWO_64
  }

  /** pb_decode_svarint: shift right, and complement if the low bit was set. */
  function UnZigZag(u: Uint64): Int64 {
    if u % 2 == 1 then ToSigned(BitNot(u / 2)) else ToSigned(u / 2)
  }

  /** Zigzag is a bijection that keeps small magnitudes small. */
  lemma ZigZagBijection(v: Int64, u: Uint64)
    ensures ZigZag(v) == u <==> v == UnZigZag(u)
    ensures ZigZag(v) == if v < 0 then -2 * v - 1 else 2 * v
  {
  }

  /** Signed values survive encoding, and take at most ten bytes. */
  lemma SvarintRoundTrip(v: Int64, rest: Slice)
    ensures var d := DecodeVarint(EncodeVarint(ZigZag(v)) + rest);
      d.Ok? && UnZigZag(d.value) == v && d.size == |EncodeVarint(ZigZag(v))| <= 10
  {
    DecodeAfterEncode(ZigZag(v), rest);
    ZigZagBijection(v, ZigZag(v));
  }
}
