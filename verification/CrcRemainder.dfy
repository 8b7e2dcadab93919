/**
 What the checksum is: the remainder of a division of polynomials with coefficients 0 and 1, as section 8.1.1.6.2 of
 ITU-T V.42 defines the 32-bit frame check sequence that section 8 of RFC 1952 refers to. Neither the table nor the
 bit-serial reference is part of the definition.
 */
module CrcRemainder {
  import opened Bytes
  import opened Crc32

  /** A polynomial over the field of two elements: its coefficients, that of the highest power first. */
  type Poly = seq<bool>

  function Sum(p: Poly, q: Poly): (r: Poly)
    requires |p| == |q|
    ensures |r| == |p|
  {
    seq(|p|, i requires 0 <= i < |p| => p[i] != q[i])
  }

  // ---------- Division ----------

  /** x^32 and the lower powers that the bits of a word tell. */
  function Monic(g: Word): Poly {
    [true] + g
  }

  /** The generator times `q`. */
  function Product(g: Word, q: Poly): (p: Poly)
    ensures |p| == |q| + 32
    decreases q
  {
    if q == [] then Zeros(32) else Sum(Leading(g, q), [false] + Product(g, q[1..]))
  }

  /** The generator times the leading term of `q`. */
  function Leading(g: Word, q: Poly): (p: Poly)
    requires q != []
    ensures |p| == |q| + 32
  {
    if q[0] then Monic(g) + Zeros(|q| - 1) else Zeros(|q| + 32)
  }

  /** Dividing `p` by the generator leaves `r`. */
  ghost predicate Leaves(g: Word, p: Poly, r: Word) {
    exists q: Poly :: Divides(g, p, q, r)
  }

  predicate Divides(g: Word, p: Poly, q: Poly, r: Word) {
    |q| + 32 == |p| && p == Sum(Product(g, q), Zeros(|q|) + r)
  }

  lemma ProductLeads(g: Word, q: Poly)
    requires q != []
    ensures Product(g, q)[0] == q[0]
  {
    assert Product(g, q)[0] == Leading(g, q)[0];
  }

  lemma ProductRest(g: Word, q: Poly, i: nat)
    requires q != [] && i < |q| + 31
    ensures Product(g, q)[i + 1] == (Leading(g, q)[i + 1] != Product(g, q[1..])[i])
  {
  }

  lemma {:induction false} SameRemainder(g: Word, p: Poly, q1: Poly, r1: Word, q2: Poly, r2: Word)
    requires Divides(g, p, q1, r1) && Divides(g, p, q2, r2)
    ensures r1 == r2
    decreases q1
  {
    if q1 == [] {
      forall i | 0 <= i < 32
        ensures r1[i] == r2[i]
      {
        assert p[i] == r1[i] && p[i] == r2[i];
      }
    } else {
      ProductLeads(g, q1);
      ProductLeads(g, q2);
      assert p[0] == q1[0] && p[0] == q2[0];
      var t1 := Sum(Product(g, q1[1..]), Zeros(|q1| - 1) + r1);
      var t2 := Sum(Product(g, q2[1..]), Zeros(|q2| - 1) + r2);
      forall i | 0 <= i < |t1|
        ensures t1[i] == t2[i]
      {
        ProductRest(g, q1, i);
        ProductRest(g, q2, i);
        assert p[i + 1] == (Product(g, q1)[i + 1] != (Zeros(|q1|) + r1)[i + 1]);
        assert p[i + 1] == (Product(g, q2)[i + 1] != (Zeros(|q2|) + r2)[i + 1]);
      }
      SameRemainder(g, t1, q1[1..], r1, q2[1..], r2);
    }
  }

  /** There is one remainder only. */
  lemma RemainderUnique(g: Word, p: Poly, r1: Word, r2: Word)
    requires Leaves(g, p, r1) && Leaves(g, p, r2)
    ensures r1 == r2
  {
    var q1: Poly :| Divides(g, p, q1, r1);
    var q2: Poly :| Divides(g, p, q2, r2);
    SameRemainder(g, p, q1, r1, q2, r2);
  }

  // ---------- The bit-serial reference divides ----------

  /** What a state of the checksum and the bits not read yet stand for. */
  function Pending(crc: Word, bits: seq<bool>): (p: Poly)
    ensures |p| == |bits| + 32
  {
    Sum(bits + Zeros(32), crc + Zeros(|bits|))
  }

  function Quotient(crc: Word, bits: seq<bool>): (q: Poly)
    ensures |q| == |bits|
    decreases bits
  {
    if bits == [] then [] else [crc[0] != bits[0]] + Quotient(FeedBit(crc, bits[0]), bits[1..])
  }

  /** One bit read takes the generator off once, if the leading coefficient is one. */
  lemma PendingRest(g: Word, crc: Word, bits: seq<bool>, i: nat)
    requires g == POLYNOMIAL && bits != [] && i < |bits| + 31
    ensures Pending(crc, bits)[i + 1]
      == (Leading(g, [crc[0] != bits[0]] + bits[1..])[i + 1] != Pending(FeedBit(crc, bits[0]), bits[1..])[i])
  {
    assert (bits + Zeros(32))[i + 1] == (bits[1..] + Zeros(32))[i];
    if i < 32 {
      assert (Monic(g) + Zeros(|bits| - 1))[i + 1] == g[i];
      assert ShiftRight(crc, 1)[i] == (crc + [false])[i + 1];
    }
  }

  lemma LeadingOf(g: Word, q1: Poly, q2: Poly)
    requires q1 != [] && |q1| == |q2| && q1[0] == q2[0]
    ensures Leading(g, q1) == Leading(g, q2)
  {
  }

  lemma {:induction false} ReadingDivides(g: Word, crc: Word, bits: seq<bool>)
    requires g == POLYNOMIAL
    ensures Divides(g, Pending(crc, bits), Quotient(crc, bits), FeedBits(crc, bits))
    decreases bits
  {
    var p, q, r := Pending(crc, bits), Quotient(crc, bits), FeedBits(crc, bits);
    if bits != [] {
      var next := FeedBit(crc, bits[0]);
      ReadingDivides(g, next, bits[1..]);
      assert q[1..] == Quotient(next, bits[1..]);
      LeadingOf(g, q, [crc[0] != bits[0]] + bits[1..]);
      forall i | 0 < i < |p|
        ensures p[i] == (Leading(g, q)[i] != Pending(next, bits[1..])[i - 1])
      {
        PendingRest(g, crc, bits, i - 1);
      }
      DividesMore(g, p, q, r, Pending(next, bits[1..]));
    }
  }

  lemma DividesMore(g: Word, p: Poly, q: Poly, r: Word, rest: Poly)
    requires q != [] && |p| == |q| + 32 && p[0] == q[0] && Divides(g, rest, q[1..], r)
    requires forall i :: 0 < i < |p| ==> p[i] == (Leading(g, q)[i] != rest[i - 1])
    ensures Divides(g, p, q, r)
  {
    var s := Sum(Product(g, q), Zeros(|q|) + r);
    ProductLeads(g, q);
    forall i | 0 < i < |p|
      ensures p[i] == s[i]
    {
      ProductRest(g, q, i - 1);
      assert rest[i - 1] == (Product(g, q[1..])[i - 1] != (Zeros(|q| - 1) + r)[i - 1]);
    }
  }

  // ---------- The checksum ----------

  /** The bits of a message as they are sent: byte by byte, the lowest bit first. */
  function MessageBits(data: seq<byte>): seq<bool> {
    if data == [] then [] else BitsOf(8, data[0]) + MessageBits(data[1..])
  }

  lemma {:induction false} FeedBitsAppend(crc: Word, a: seq<bool>, b: seq<bool>)
    ensures FeedBits(crc, a + b) == FeedBits(FeedBits(crc, a), b)
    decreases a
  {
    if a == [] {
      assert a + b == b;
    } else {
      assert (a + b)[1..] == a[1..] + b;
      FeedBitsAppend(FeedBit(crc, a[0]), a[1..], b);
    }
  }

  lemma {:induction false} BytesAreBits(crc: Word, data: seq<byte>)
    ensures FeedBytes(crc, data) == FeedBits(crc, MessageBits(data))
    decreases data
  {
    if data != [] {
      FeedBitsAppend(crc, BitsOf(8, data[0]), MessageBits(data[1..]));
      BytesAreBits(FeedByte(crc, data[0]), data[1..]);
    }
  }

  /** The message times x^32, its first 32 coefficients complemented. */
  function Dividend(data: seq<byte>): Poly {
    var p := MessageBits(data) + Zeros(32);
    seq(|p|, i requires 0 <= i < |p| => p[i] != (i < 32))
  }

  function Complement(r: Word): Word {
    seq(32, i requires 0 <= i < 32 => !r[i])
  }

  lemma {:induction false} AllOnes(n: nat, v: nat)
    requires v + 1 == Pow2(n)
    ensures forall i :: 0 <= i < n ==> BitsOf(n, v)[i]
    decreases n
  {
    if n > 0 {
      AllOnes(n - 1, v / 2);
    }
  }

  lemma AllOnesSet()
    ensures forall i :: 0 <= i < 32 ==> ALL_ONES[i]
  {
    assert Pow2(8) == 256;
    assert Pow2(16) == 256 * Pow2(8);
    assert Pow2(24) == 256 * Pow2(16);
    assert Pow2(32) == 256 * Pow2(24);
    AllOnes(32, 0xFFFFFFFF);
  }

  lemma DividendPends(data: seq<byte>)
    ensures Dividend(data) == Pending(ALL_ONES, MessageBits(data))
  {
    AllOnesSet();
  }

  lemma ComplementOf(r: Word, left: Word)
    ensures Xor(left, ALL_ONES) == Complement(r) <==> left == r
  {
    AllOnesSet();
    assert Xor(left, ALL_ONES) == Complement(left);
    if Complement(left) == Complement(r) {
      forall i | 0 <= i < 32
        ensures r[i] == left[i]
      {
        assert Complement(r)[i] == !r[i] && Complement(left)[i] == !left[i];
      }
    }
  }

  lemma ChecksumDivides(g: Word, data: seq<byte>, r: Word)
    requires g == POLYNOMIAL
    ensures Leaves(g, Dividend(data), r) <==> Reference(data) == Complement(r)
  {
    var bits := MessageBits(data);
    var left := FeedBits(ALL_ONES, bits);
    DividendPends(data);
    ReadingDivides(g, ALL_ONES, bits);
    BytesAreBits(ALL_ONES, data);
    assert Leaves(g, Dividend(data), left);
    ComplementOf(r, left);
    if Leaves(g, Dividend(data), r) {
      RemainderUnique(g, Dividend(data), r, left);
    }
  }

  /** The checksum is the complement of the remainder, and of nothing else. */
  lemma ChecksumIsRemainder(data: seq<byte>, r: Word)
    ensures Leaves(POLYNOMIAL, Dividend(data), r) <==> Reference(data) == Complement(r)
  {
    ChecksumDivides(POLYNOMIAL, data, r);
  }

  // ---------- The generator ----------

  lemma LowestBit(s: seq<bool>, rest: seq<bool>)
    requires s != [] && s == [s[0]] + rest
    ensures NumberOf(s) == (if s[0] then 1 else 0) + 2 * NumberOf(rest)
  {
    assert s[1..] == rest;
  }

  /** Four bits make one hexadecimal digit. */
  lemma Nibble(b0: bool, b1: bool, b2: bool, b3: bool, rest: seq<bool>)
    ensures NumberOf([b0, b1, b2, b3] + rest)
      == (if b0 then 1 else 0) + (if b1 then 2 else 0) + (if b2 then 4 else 0) + (if b3 then 8 else 0)
         + 16 * NumberOf(rest)
  {
    LowestBit([b0, b1, b2, b3] + rest, [b1, b2, b3] + rest);
    LowestBit([b1, b2, b3] + rest, [b2, b3] + rest);
    LowestBit([b2, b3] + rest, [b3] + rest);
    LowestBit([b3] + rest, rest);
  }

  /** The powers below x^32, sixteen by sixteen. */
  lemma HighHalf(s: seq<bool>)
    requires s == [false, false, false, true] + ([true, true, false, true]
      + ([true, false, true, true] + ([false, true, true, true] + [])))
    ensures NumberOf(s) == 0xEDB8
  {
    Nibble(false, true, true, true, []);
    Nibble(true, false, true, true, [false, true, true, true] + []);
    Nibble(true, true, false, true, [true, false, true, true] + ([false, true, true, true] + []));
    Nibble(false, false, false, true,
           [true, true, false, true] + ([true, false, true, true] + ([false, true, true, true] + [])));
  }

  lemma Halves(low: seq<bool>, high: seq<bool>)
    requires low == [false, false, false, false] + ([false, true, false, false]
      + ([true, true, false, false] + ([false, false, false, true] + high)))
    ensures NumberOf(low) == 0x8320 + 0x10000 * NumberOf(high)
  {
    Nibble(false, false, false, true, high);
    Nibble(true, true, false, false, [false, false, false, true] + high);
    Nibble(false, true, false, false, [true, true, false, false] + ([false, false, false, true] + high));
    Nibble(false, false, false, false,
           [false, true, false, false] + ([true, true, false, false] + ([false, false, false, true] + high)));
  }

  /** The generator: x^32 + x^26 + x^23 + x^22 + x^16 + x^12 + x^11 + x^10 + x^8 + x^7 + x^5 + x^4 + x^2 + x + 1. */
  const POWERS := {32, 26, 23, 22, 16, 12, 11, 10, 8, 7, 5, 4, 2, 1, 0}

  /** The word with the bits of the powers. */
  function PowersWord(): Word {
    seq(32, i requires 0 <= i < 32 => 31 - i in POWERS)
  }

  lemma PowersHalves(low: seq<bool>, high: seq<bool>)
    requires low == PowersWord() && high == low[16..]
    ensures high == [false, false, false, true] + ([true, true, false, true]
      + ([true, false, true, true] + ([false, true, true, true] + [])))
    ensures low == [false, false, false, false] + ([false, true, false, false]
      + ([true, true, false, false] + ([false, false, false, true] + high)))
  {
  }

  lemma FromNumber(n: nat, v: nat, s: seq<bool>)
    requires |s| == n && NumberOf(s) == v
    ensures BitsOf(n, v) == s
  {
    BitsOfNumber(s);
  }

  lemma WordOfPowers(v: nat)
    requires v == 0xEDB88320
    ensures BitsOf(32, v) == PowersWord()
  {
    var low := PowersWord();
    PowersHalves(low, low[16..]);
    HighHalf(low[16..]);
    Halves(low, low[16..]);
    FromNumber(32, v, low);
  }

  lemma GeneratorPowers(k: nat)
    requires k <= 32
    ensures Monic(POLYNOMIAL)[32 - k] <==> k in POWERS
  {
    WordOfPowers(0xEDB88320);
  }

  // ---------- The checksum field ----------

  /** Low bits before high ones. */
  lemma {:induction false} NumberOfAppend(a: seq<bool>, b: seq<bool>)
    ensures NumberOf(a + b) == NumberOf(a) + Pow2(|a|) * NumberOf(b)
    decreases a
  {
    if a == [] {
      assert a + b == b;
    } else {
      LowestBit(a + b, a[1..] + b);
      NumberOfAppend(a[1..], b);
      Twice(Pow2(|a| - 1), NumberOf(b));
    }
  }

  lemma Twice(p: nat, x: nat)
    ensures 2 * (p * x) == (2 * p) * x
  {
  }

  lemma Octet(s: seq<bool>)
    requires |s| >= 8
    ensures NumberOf(s) == NumberOf(s[..8]) + 256 * NumberOf(s[8..])
  {
    ByteIsEightBits();
    NumberOfAppend(s[..8], s[8..]);
    assert s == s[..8] + s[8..];
  }

  lemma LowestByte(s: seq<byte>, rest: seq<byte>)
    requires s != [] && s[1..] == rest
    ensures Value(s) == s[0] + 256 * Value(rest)
  {
  }

  lemma FourBytes(s: seq<byte>)
    requires |s| == 4
    ensures Value(s) == s[0] as int + 256 * (s[1] as int + 256 * (s[2] as int + 256 * s[3] as int))
  {
    LowestByte(s, s[1..]);
    LowestByte(s[1..], s[2..]);
    LowestByte(s[2..], s[3..]);
    LowestByte(s[3..], []);
  }

  lemma ByteAt(crc: Word, n: nat)
    requires n <= 24
    ensures LowByte(ShiftRight(crc, n)) == NumberOf(crc[n..][..8])
    ensures NumberOf(crc[n..]) == NumberOf(crc[n..][..8]) + 256 * NumberOf(crc[n + 8..])
  {
    Octet(crc[n..]);
    assert ShiftRight(crc, n)[..8] == crc[n..][..8];
    assert crc[n..][8..] == crc[n + 8..];
  }

  /** The field holds the checksum as a number, least significant byte first. */
  lemma FieldIsLittleEndian(crc: Word)
    ensures FieldBytes(crc) == LittleEndian(4, NumberOf(crc))
  {
    ByteAt(crc, 0);
    ByteAt(crc, 8);
    ByteAt(crc, 16);
    ByteAt(crc, 24);
    assert crc[0..] == crc && ShiftRight(crc, 0) == crc;
    FourBytes(FieldBytes(crc));
    LittleEndianOfValue(FieldBytes(crc));
  }
}
