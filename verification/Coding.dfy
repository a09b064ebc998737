/** Length-prefixed slices, as LevelDB writes and reads them. */
module Coding {
  import opened DbFormat
  import opened Varint

  /** PutLengthPrefixedSlice.  The length is cut to 32 bits. */
  function LengthPrefixed(s: Slice): Slice {
    EncodeVarint(|s| % TWO_32) + s
  }

  /** A number read from a stream, and the bytes it took. */
  datatype Length = Length(value: Uint32, size: nat)

  /** The loop of GetVarint32Ptr, about to read byte i: at most five bytes. */
  function GetVarint32From(s: Slice, i: nat, result: Uint32): (r: Option<Length>)
    ensures r.Some? ==> i < r.value.size <= |s|
    decreases |s| - i
  {
    if 7 * i > 28 || i >= |s| then None
    else
      var r := Or(result, s[i] % 0x80 * Pow2(7 * i) % TWO_32) % TWO_32;
      if s[i] < 0x80 then Some(Length(r, i + 1)) else GetVarint32From(s, i + 1, r)
  }

  function GetVarint32(s: Slice): (r: Option<Length>)
    ensures r.Some? ==> 0 < r.value.size <= |s|
  {
    GetVarint32From(s, 0, 0)
  }

  /** A slice read from a stream, and the bytes it took with its length. */
  datatype Item = Item(slice: Slice, size: nat)

  function GetLengthPrefixed(s: Slice): (r: Option<Item>)
    ensures r.Some? ==> 0 < r.value.size <= |s| && |r.value.slice| < TWO_32
  {
    var n := GetVarint32(s);
    if n.Some? && n.value.value <= |s| - n.value.size then
      Some(Item(s[n.value.size..n.value.size + n.value.value], n.value.size + n.value.value))
    else None
  }

  lemma GetVarint32Step(s: Slice, i: nat, result: Uint32)
    requires i < |s| && 7 * i <= 28
    ensures var r := Or(result, s[i] % 0x80 * Pow2(7 * i) % TWO_32) % TWO_32;
      GetVarint32From(s, i, result) == if s[i] < 0x80 then Some(Length(r, i + 1)) else GetVarint32From(s, i + 1, r)
  {
  }

  lemma {:induction false} InRange32(v: nat, i: nat, result: nat)
    requires result + v * Pow2(7 * i) < TWO_32 && (i > 0 ==> v > 0)
    ensures 7 * i <= 28
  {
    hide Pow2;
    ProductAtLeast(v, Pow2(7 * i));
    Pow2Of7();
    if i >= 5 {
      Pow2Monotone(32, 7 * i);
    }
  }

  lemma LowFits32(v: nat, p: nat, result: nat)
    requires result + v * p < TWO_32
    ensures result + v % 0x80 * p < TWO_32
  {
    SplitLow(v, p);
    var h := v / 0x80;
    assert h * (0x80 * p) >= 0;
  }

  lemma {:induction false} Varint32Encoded(before: Slice, v: nat, rest: Slice, result: Uint32)
    requires result < Pow2(7 * |before|) && result + v * Pow2(7 * |before|) < TWO_32
    requires before != [] ==> v > 0
    ensures GetVarint32From(before + EncodeVarint(v) + rest, |before|, result)
         == Some(Length(result + v * Pow2(7 * |before|), |before| + |EncodeVarint(v)|))
    decreases v
  {
    hide GetVarint32From, EncodeVarint, Or, Pow2;
    var i := |before|;
    var p := Pow2(7 * i);
    var s := before + EncodeVarint(v) + rest;
    InRange32(v, i, result);
    FirstByte(before, v, rest);
    GetVarint32Step(s, i, result);
    SplitLow(v, p);
    Pow2Doubling(7 * i, p, 7);
    LowFits32(v, p, result);
    OneByte(result, v % 0x80, i, TWO_32);
    if v >= 0x80 {
      Varint32Encoded(before + [s[i]], v / 0x80, rest, result + v % 0x80 * p);
    } else {
      assert v % 0x80 == v;
    }
  }

  lemma {:induction false} Varint32ReadsBack(v: Uint32, rest: Slice)
    ensures GetVarint32(EncodeVarint(v) + rest) == Some(Length(v, |EncodeVarint(v)|))
  {
    assert [] + EncodeVarint(v) + rest == EncodeVarint(v) + rest;
    Varint32Encoded([], v, rest, 0);
  }

  /** What the loop reads is the rest of a varint of at most five bytes in all. */
  lemma {:induction false} AnyFrom32(s: Slice, i: nat, result: Uint32, n: nat)
    requires i <= 5 && i <= n <= |s| && (i <= 4 ==> result < Pow2(7 * i))
    ensures var r := GetVarint32From(s, i, result);
      && (r.Some? && r.value.size == n <==> n <= 5 && Continues(s[i..n]))
      && (r.Some? && r.value.size == n ==> r.value.value == (result + Base128(s[i..n]) * Pow2(7 * i)) % TWO_32)
    decreases |s| - i
  {
    hide Or, Pow2, Base128;
    if i < 5 && i < n {
      var low, p := s[i] % 0x80, Pow2(7 * i);
      var r := Or(result, low * p % TWO_32) % TWO_32;
      GetVarint32Step(s, i, result);
      FirstGroup(s[i..n], p);
      assert s[i..n][1..] == s[i + 1..n];
      Pow2Doubling(7 * i, p, 7);
      FifthByte(result, low, i);
      if i == 4 {
        TooLong32(s, r);
      } else {
        AnyFrom32(s, i + 1, r, n);
      }
    }
  }

  lemma {:induction false} TooLong32(s: Slice, r: Uint32)
    ensures GetVarint32From(s, 5, r) == None
  {
  }

  /** A byte adds its seven bits, of which the fifth has four that count. */
  lemma {:induction false} FifthByte(result: Uint32, low: nat, i: nat)
    requires i <= 4 && result < Pow2(7 * i) && low < 0x80
    ensures var r := Or(result, low * Pow2(7 * i) % TWO_32) % TWO_32;
      && r == (result + low * Pow2(7 * i)) % TWO_32
      && (i < 4 ==> r == result + low * Pow2(7 * i) < Pow2(7 * (i + 1)))
  {
    hide Or, Pow2;
    Pow2Of7();
    var p := Pow2(7 * i);
    if i < 4 {
      Pow2Doubling(7 * i, p, 7);
      Pow2Monotone(7 * (i + 1), 28);
      AtMost127(low, p);
      OneByte(result, low, i, TWO_32);
      ModSmall(result + low * p, TWO_32);
    } else {
      TopBits(result, low);
      OrIsSum(result, low % 0x10, 28);
    }
  }

  lemma TopBits(result: nat, low: nat)
    requires result < 0x1000_0000
    ensures low * 0x1000_0000 % TWO_32 == low % 0x10 * 0x1000_0000
    ensures (result + low * 0x1000_0000) % TWO_32 == result + low % 0x10 * 0x1000_0000
         == (result + low % 0x10 * 0x1000_0000) % TWO_32
  {
    var high := low / 0x10;
    assert low * 0x1000_0000 == high * TWO_32 + low % 0x10 * 0x1000_0000;
  }

  /** For any bytes: a length takes at most five of them, of which all but the last
      announce another, and is their number modulo 2^32. */
  lemma {:induction false} AnyVarint32(s: Slice, n: nat)
    requires n <= |s|
    ensures var r := GetVarint32(s);
      && (r.Some? && r.value.size == n <==> n <= 5 && Continues(s[..n]))
      && (r.Some? && r.value.size == n ==> r.value.value == Base128(s[..n]) % TWO_32)
  {
    hide Base128, GetVarint32From;
    assert Pow2(7 * 0) == 1;
    AnyFrom32(s, 0, 0, n);
    assert s[0..n] == s[..n];
  }

  /** A slice shorter than 2^32 bytes is read back exactly, whatever follows it. */
  lemma SliceReadsBack(s: Slice, rest: Slice)
    requires |s| < TWO_32
    ensures GetLengthPrefixed(LengthPrefixed(s) + rest) == Some(Item(s, |LengthPrefixed(s)|))
  {
    hide GetVarint32, EncodeVarint;
    var n := |EncodeVarint(|s|)|;
    assert LengthPrefixed(s) + rest == EncodeVarint(|s|) + (s + rest);
    Varint32ReadsBack(|s|, s + rest);
    assert (LengthPrefixed(s) + rest)[n..n + |s|] == s;
  }
}
