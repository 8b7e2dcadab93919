/** Bytes, the little-endian integer fields both IPC endpoints are built from, and bits. */
module Bytes {
  import opened Arithmetic

  type byte = x: int | 0 <= x < 256

  const U16_LIMIT := 0x1_0000
  const U32_LIMIT := 0x1_0000_0000
  const U64_LIMIT := 0x1_0000_0000_0000_0000

  function Pow256(n: nat): (r: nat)
    ensures r > 0
  {
    if n == 0 then 1 else 256 * Pow256(n - 1)
  }

  /** The low `n` bytes of `v`, least significant byte first. */
  function LittleEndian(n: nat, v: nat): (r: seq<byte>)
    ensures |r| == n
  {
    if n == 0 then [] else [v % 256] + LittleEndian(n - 1, v / 256)
  }

  /** The number whose little-endian bytes are `s`. */
  function Value(s: seq<byte>): (r: nat)
    ensures r < Pow256(|s|)
  {
    if s == [] then 0 else s[0] + 256 * Value(s[1..])
  }

  lemma {:induction false} ValueOfLittleEndian(n: nat, v: nat)
    requires v < Pow256(n)
    ensures Value(LittleEndian(n, v)) == v
  {
    if n > 0 {
      var s := LittleEndian(n, v);
      assert s[1..] == LittleEndian(n - 1, v / 256);
      ValueOfLittleEndian(n - 1, v / 256);
    }
  }

  lemma {:induction false} LittleEndianOfValue(s: seq<byte>)
    ensures LittleEndian(|s|, Value(s)) == s
  {
    if s != [] {
      LittleEndianOfValue(s[1..]);
      assert Value(s) % 256 == s[0] && Value(s) / 256 == Value(s[1..]);
    }
  }

  /** Byte i of a little-endian field is the i-th digit of the number in base 256. */
  lemma {:induction false} DigitAt(n: nat, v: nat, i: nat)
    requires i < n
    ensures LittleEndian(n, v)[i] == v / Pow256(i) % 256
    decreases i
  {
    if i > 0 {
      DigitAt(n - 1, v / 256, i - 1);
      DivideTwice(v, Pow256(i - 1));
    }
  }

  lemma DivideTwice(v: nat, d: nat)
    requires d > 0
    ensures v / 256 / d == v / (256 * d)
  {
    var q, r := v / 256 / d, v / 256 % d;
    assert v == 256 * (v / 256) + v % 256;
    assert v / 256 == q * d + r;
    assert 256 * (q * d) == q * (256 * d);
    QuotientUnique(v, 256 * d, q, 256 * r + v % 256);
  }

  /** The field widths of the protocol, as powers of 256. */
  lemma FieldLimits()
    ensures Pow256(1) == 256 && Pow256(2) == U16_LIMIT && Pow256(4) == U32_LIMIT && Pow256(8) == U64_LIMIT
  {
    assert Pow256(1) == 256;
    assert Pow256(2) == 256 * Pow256(1);
    assert Pow256(3) == 256 * Pow256(2);
    assert Pow256(4) == 256 * Pow256(3);
    assert Pow256(5) == 256 * Pow256(4);
    assert Pow256(6) == 256 * Pow256(5);
    assert Pow256(7) == 256 * Pow256(6);
    assert Pow256(8) == 256 * Pow256(7);
  }

  function Pow2(n: nat): (r: nat)
    ensures r > 0
  {
    if n == 0 then 1 else 2 * Pow2(n - 1)
  }

  /** The low `n` bits of `v`, least significant bit first. */
  function BitsOf(n: nat, v: nat): (r: seq<bool>)
    ensures |r| == n
  {
    if n == 0 then [] else [v % 2 == 1] + BitsOf(n - 1, v / 2)
  }

  function NumberOf(s: seq<bool>): (r: nat)
    ensures r < Pow2(|s|)
  {
    if s == [] then 0 else (if s[0] then 1 else 0) + 2 * NumberOf(s[1..])
  }

  lemma {:induction false} NumberOfBits(n: nat, v: nat)
    requires v < Pow2(n)
    ensures NumberOf(BitsOf(n, v)) == v
  {
    if n > 0 {
      assert BitsOf(n, v)[1..] == BitsOf(n - 1, v / 2);
      NumberOfBits(n - 1, v / 2);
    }
  }

  lemma {:induction false} BitsOfNumber(s: seq<bool>)
    ensures BitsOf(|s|, NumberOf(s)) == s
  {
    if s != [] {
      BitsOfNumber(s[1..]);
      var rest := NumberOf(s[1..]);
      assert NumberOf(s) / 2 == rest;
      assert NumberOf(s) % 2 == (if s[0] then 1 else 0);
    }
  }

  lemma ByteIsEightBits()
    ensures Pow2(8) == 256
  {
    assert Pow2(4) == 16;
    assert Pow2(8) == 16 * Pow2(4);
  }

  function Concat(parts: seq<seq<byte>>): seq<byte> {
    if parts == [] then [] else parts[0] + Concat(parts[1..])
  }
}
