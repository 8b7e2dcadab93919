/**
 The header checksum of native-plugin/src/framing.cpp: a table-driven CRC-32.

 A 32-bit word is its 32 bits, least significant first. The reference reads the
 message one bit at a time, least significant bit first, the way the reflected
 polynomial of section 8 of RFC 1952 is defined; the code looks up whole bytes.
 */
module Crc32 {
  import opened Bytes

  type Word = s: seq<bool> | |s| == 32 witness BitsOf(32, 0)

  const POLYNOMIAL: Word := BitsOf(32, 0xEDB88320)
  const ALL_ONES: Word := BitsOf(32, 0xFFFFFFFF)

  function Xor(x: Word, y: Word): Word {
    seq(32, i requires 0 <= i < 32 => x[i] != y[i])
  }

  function Zeros(n: nat): (s: seq<bool>)
    ensures |s| == n && forall i :: 0 <= i < n ==> !s[i]
  {
    seq(n, i => false)
  }

  /** `x >> n` */
  function ShiftRight(x: Word, n: nat): Word
    requires n <= 32
  {
    x[n..] + Zeros(n)
  }

  /** The word whose low bits are `bits`. */
  function Pad(bits: seq<bool>): Word
    requires |bits| <= 32
  {
    bits + Zeros(32 - |bits|)
  }

  // ---------- The reference: one message bit at a time ----------

  /** One step of the division by the polynomial. */
  function FeedBit(crc: Word, bit: bool): Word {
    if crc[0] != bit then Xor(POLYNOMIAL, ShiftRight(crc, 1)) else ShiftRight(crc, 1)
  }

  function FeedBits(crc: Word, bits: seq<bool>): Word
    decreases bits
  {
    if bits == [] then crc else FeedBits(FeedBit(crc, bits[0]), bits[1..])
  }

  function FeedByte(crc: Word, b: byte): Word {
    FeedBits(crc, BitsOf(8, b))
  }

  function FeedBytes(crc: Word, data: seq<byte>): Word
    decreases data
  {
    if data == [] then crc else FeedBytes(FeedByte(crc, data[0]), data[1..])
  }

  function Reference(data: seq<byte>): Word {
    Xor(FeedBytes(ALL_ONES, data), ALL_ONES)
  }

  // ---------- The table-driven loop ----------

  function ShiftBit(crc: Word): Word {
    if crc[0] then Xor(POLYNOMIAL, ShiftRight(crc, 1)) else ShiftRight(crc, 1)
  }

  function ShiftBits(crc: Word, n: nat): Word
    decreases n
  {
    if n == 0 then crc else ShiftBit(ShiftBits(crc, n - 1))
  }

  function TableEntry(i: nat): Word {
    ShiftBits(Pad(BitsOf(8, i)), 8)
  }

  ghost predicate IsTable(table: seq<Word>) {
    |table| == 256 && forall i :: 0 <= i < 256 ==> table[i] == TableEntry(i)
  }

  /** The inner loop of make_crc_table. */
  method MakeEntry(i: nat) returns (crc: Word)
    ensures crc == TableEntry(i)
  {
    crc := Pad(BitsOf(8, i));
    var bit := 0;
    while bit < 8
      invariant 0 <= bit <= 8
      invariant crc == ShiftBits(Pad(BitsOf(8, i)), bit)
    {
      crc := ShiftBit(crc);
      bit := bit + 1;
    }
  }

  /** make_crc_table: entry i is i shifted through the polynomial eight times. */
  method MakeTable() returns (table: array<Word>)
    ensures fresh(table) && IsTable(table[..])
  {
    table := new Word[256];
    var i := 0;
    while i < 256
      invariant 0 <= i <= 256
      invariant forall j :: 0 <= j < i ==> table[j] == TableEntry(j)
    {
      var crc := MakeEntry(i);
      table[i] := crc;
      i := i + 1;
    }
  }

  /** The low byte of a word, as a number. */
  function LowByte(x: Word): byte {
    ByteIsEightBits();
    NumberOf(x[..8])
  }

  /** crc32: the table-driven loop computes the bit-serial reference. */
  method Compute(table: array<Word>, data: seq<byte>) returns (r: Word)
    requires IsTable(table[..])
    ensures r == Reference(data)
  {
    var crc := ALL_ONES;
    var i := 0;
    assert data[0..] == data;
    while i < |data|
      invariant 0 <= i <= |data|
      invariant FeedBytes(crc, data[i..]) == FeedBytes(ALL_ONES, data)
    {
      var index := LowByte(Xor(crc, Pad(BitsOf(8, data[i]))));
      TableStep(crc, data[i], table[index]);
      assert data[i..][1..] == data[i + 1..];
      crc := Xor(table[index], ShiftRight(crc, 8));
      i := i + 1;
    }
    r := Xor(crc, ALL_ONES);
  }

  // ---------- Why the table works ----------

  lemma {:induction false} ShiftFirst(x: Word, n: nat)
    ensures ShiftBits(x, n + 1) == ShiftBits(ShiftBit(x), n)
    decreases n
  {
    if n > 0 {
      ShiftFirst(x, n - 1);
    }
  }

  lemma ShiftBitLinear(x: Word, y: Word)
    ensures ShiftBit(Xor(x, y)) == Xor(ShiftBit(x), ShiftBit(y))
  {
  }

  /** Shifting through the polynomial is linear. */
  lemma {:induction false} ShiftsLinear(x: Word, y: Word, n: nat)
    ensures ShiftBits(Xor(x, y), n) == Xor(ShiftBits(x, n), ShiftBits(y, n))
    decreases n
  {
    if n > 0 {
      ShiftsLinear(x, y, n - 1);
      ShiftBitLinear(ShiftBits(x, n - 1), ShiftBits(y, n - 1));
    }
  }

  lemma FeedBitIsShift(crc: Word, bits: seq<bool>)
    requires 0 < |bits| <= 32
    ensures ShiftBit(Xor(crc, Pad(bits))) == Xor(FeedBit(crc, bits[0]), Pad(bits[1..]))
  {
  }

  /** Taking bits in singly is the same as mixing them all in first and then shifting. */
  lemma {:induction false} FeedsAreShifts(crc: Word, bits: seq<bool>)
    requires |bits| <= 32
    ensures FeedBits(crc, bits) == ShiftBits(Xor(crc, Pad(bits)), |bits|)
    decreases bits
  {
    if bits == [] {
      assert Xor(crc, Pad(bits)) == crc;
    } else {
      FeedBitIsShift(crc, bits);
      ShiftFirst(Xor(crc, Pad(bits)), |bits| - 1);
      FeedsAreShifts(FeedBit(crc, bits[0]), bits[1..]);
    }
  }

  lemma ShiftRightOnce(x: Word, n: nat)
    requires n < 32 && !x[n]
    ensures ShiftBit(ShiftRight(x, n)) == ShiftRight(x, n + 1)
  {
    var y := ShiftRight(x, n);
    assert y[0] == x[n];
    assert ShiftBit(y) == ShiftRight(y, 1);
    assert ShiftRight(y, 1) == ShiftRight(x, n + 1);
  }

  /** A word whose low bits are zero only moves down. */
  lemma {:induction false} ZerosShiftOut(x: Word, n: nat)
    requires n <= 32 && forall i :: 0 <= i < n ==> !x[i]
    ensures ShiftBits(x, n) == ShiftRight(x, n)
    decreases n
  {
    if n == 0 {
      assert ShiftRight(x, 0) == x;
    } else {
      ZerosShiftOut(x, n - 1);
      ShiftRightOnce(x, n - 1);
    }
  }

  /** The low part of a word is divided, the high part moves down. */
  lemma DivideLowPart(x: Word, n: nat)
    requires n <= 32
    ensures ShiftBits(x, n) == Xor(ShiftBits(Pad(x[..n]), n), ShiftRight(x, n))
  {
    var high: Word := Zeros(n) + x[n..];
    assert x == Xor(Pad(x[..n]), high);
    ShiftsLinear(Pad(x[..n]), high, n);
    ZerosShiftOut(high, n);
    assert ShiftRight(high, n) == ShiftRight(x, n);
  }

  lemma MixKeepsHighPart(crc: Word, bits: seq<bool>)
    requires |bits| <= 32
    ensures ShiftRight(Xor(crc, Pad(bits)), |bits|) == ShiftRight(crc, |bits|)
  {
  }

  /** One step of the table-driven loop equals eight steps of the reference. */
  lemma TableStep(crc: Word, b: byte, entry: Word)
    requires entry == TableEntry(LowByte(Xor(crc, Pad(BitsOf(8, b)))))
    ensures Xor(entry, ShiftRight(crc, 8)) == FeedByte(crc, b)
  {
    var x := Xor(crc, Pad(BitsOf(8, b)));
    FeedsAreShifts(crc, BitsOf(8, b));
    DivideLowPart(x, 8);
    BitsOfNumber(x[..8]);
    MixKeepsHighPart(crc, BitsOf(8, b));
  }

  // ---------- Error detection ----------

  lemma {:induction false} HighestBit(n: nat, v: nat)
    requires n > 0 && Pow2(n - 1) <= v < Pow2(n)
    ensures BitsOf(n, v)[n - 1]
    decreases n
  {
    if n == 1 {
      assert Pow2(0) == 1;
    } else {
      HighestBit(n - 1, v / 2);
    }
  }

  lemma PolynomialTopBit()
    ensures POLYNOMIAL[31]
  {
    assert Pow2(7) == 128;
    assert Pow2(15) == 256 * Pow2(7);
    assert Pow2(23) == 256 * Pow2(15);
    assert Pow2(31) == 256 * Pow2(23);
    HighestBit(32, 0xEDB88320);
  }

  lemma SubtractInjective(p: Word, x: Word, y: Word)
    requires p[31]
    requires (if x[0] then Xor(p, ShiftRight(x, 1)) else ShiftRight(x, 1))
      == (if y[0] then Xor(p, ShiftRight(y, 1)) else ShiftRight(y, 1))
    ensures x == y
  {
    var z := if x[0] then Xor(p, ShiftRight(x, 1)) else ShiftRight(x, 1);
    assert z[31] == x[0] && z[31] == y[0];
    forall i | 0 < i < 32
      ensures x[i] == y[i]
    {
      assert ShiftRight(x, 1)[i - 1] == x[i] && ShiftRight(y, 1)[i - 1] == y[i];
      assert z[i - 1] == (if x[0] then p[i - 1] != x[i] else x[i]);
      assert z[i - 1] == (if y[0] then p[i - 1] != y[i] else y[i]);
    }
  }

  /** The polynomial has its top bit set, so the top bit of the result tells what was shifted out. */
  lemma ShiftBitInjective(x: Word, y: Word)
    requires ShiftBit(x) == ShiftBit(y)
    ensures x == y
  {
    PolynomialTopBit();
    SubtractInjective(POLYNOMIAL, x, y);
  }

  lemma {:induction false} ShiftsInjective(x: Word, y: Word, n: nat)
    requires ShiftBits(x, n) == ShiftBits(y, n)
    ensures x == y
    decreases n
  {
    if n > 0 {
      ShiftBitInjective(ShiftBits(x, n - 1), ShiftBits(y, n - 1));
      ShiftsInjective(x, y, n - 1);
    }
  }

  lemma XorCancel(x: Word, y: Word, z: Word)
    requires Xor(x, z) == Xor(y, z)
    ensures x == y
  {
    forall i | 0 <= i < 32
      ensures x[i] == y[i]
    {
      assert Xor(x, z)[i] == (x[i] != z[i]) && Xor(y, z)[i] == (y[i] != z[i]);
    }
  }

  lemma XorCommutes(x: Word, y: Word)
    ensures Xor(x, y) == Xor(y, x)
  {
  }

  /** A byte step loses nothing of the checksum state. */
  lemma FeedByteInjectiveInState(x: Word, y: Word, b: byte)
    requires FeedByte(x, b) == FeedByte(y, b)
    ensures x == y
  {
    var word := Pad(BitsOf(8, b));
    FeedsAreShifts(x, BitsOf(8, b));
    FeedsAreShifts(y, BitsOf(8, b));
    ShiftsInjective(Xor(x, word), Xor(y, word), 8);
    XorCancel(x, y, word);
  }

  /** A byte step tells any two bytes apart. */
  lemma FeedByteInjectiveInByte(x: Word, a: byte, b: byte)
    requires FeedByte(x, a) == FeedByte(x, b)
    ensures a == b
  {
    var wordA, wordB := Pad(BitsOf(8, a)), Pad(BitsOf(8, b));
    FeedsAreShifts(x, BitsOf(8, a));
    FeedsAreShifts(x, BitsOf(8, b));
    ShiftsInjective(Xor(x, wordA), Xor(x, wordB), 8);
    XorCommutes(x, wordA);
    XorCommutes(x, wordB);
    XorCancel(wordA, wordB, x);
    assert BitsOf(8, a) == wordA[..8] == wordB[..8] == BitsOf(8, b);
    SameBits(a, b);
  }

  lemma {:induction false} FeedBytesInjectiveInState(x: Word, y: Word, data: seq<byte>)
    requires FeedBytes(x, data) == FeedBytes(y, data)
    ensures x == y
    decreases data
  {
    if data != [] {
      FeedBytesInjectiveInState(FeedByte(x, data[0]), FeedByte(y, data[0]), data[1..]);
      FeedByteInjectiveInState(x, y, data[0]);
    }
  }

  lemma {:induction false} FeedSingleChange(crc: Word, data: seq<byte>, i: nat, b: byte)
    requires i < |data| && data[i] != b
    ensures FeedBytes(crc, data[i := b]) != FeedBytes(crc, data)
    decreases data
  {
    if i == 0 {
      assert data[0 := b][1..] == data[1..];
      if FeedBytes(crc, data[0 := b]) == FeedBytes(crc, data) {
        FeedBytesInjectiveInState(FeedByte(crc, b), FeedByte(crc, data[0]), data[1..]);
        FeedByteInjectiveInByte(crc, b, data[0]);
      }
    } else {
      assert data[i := b][1..] == data[1..][i - 1 := b];
      FeedSingleChange(FeedByte(crc, data[0]), data[1..], i - 1, b);
    }
  }

  /** Changing exactly one byte of a message always changes its checksum. */
  lemma SingleByteChangeDetected(data: seq<byte>, i: nat, b: byte)
    requires i < |data| && data[i] != b
    ensures Reference(data[i := b]) != Reference(data)
  {
    FeedSingleChange(ALL_ONES, data, i, b);
    if Reference(data[i := b]) == Reference(data) {
      XorCancel(FeedBytes(ALL_ONES, data[i := b]), FeedBytes(ALL_ONES, data), ALL_ONES);
    }
  }

  // ---------- The checksum as a 32-bit header field ----------

  /** write_u32_le of a checksum. */
  function FieldBytes(crc: Word): (r: seq<byte>)
    ensures |r| == 4
  {
    [LowByte(crc), LowByte(ShiftRight(crc, 8)), LowByte(ShiftRight(crc, 16)), LowByte(ShiftRight(crc, 24))]
  }

  /** read_u32_le of a checksum. */
  function FieldWord(s: seq<byte>): Word
    requires |s| == 4
  {
    BitsOf(8, s[0]) + BitsOf(8, s[1]) + BitsOf(8, s[2]) + BitsOf(8, s[3])
  }

  lemma FieldRoundTrip(crc: Word)
    ensures FieldWord(FieldBytes(crc)) == crc
  {
    BitsOfNumber(crc[..8]);
    BitsOfNumber(ShiftRight(crc, 8)[..8]);
    BitsOfNumber(ShiftRight(crc, 16)[..8]);
    BitsOfNumber(ShiftRight(crc, 24)[..8]);
  }

  lemma SplitEqual(a: seq<bool>, b: seq<bool>, c: seq<bool>, d: seq<bool>)
    requires |a| == |c| && a + b == c + d
    ensures a == c && b == d
  {
    assert a == (a + b)[..|a|] && c == (c + d)[..|a|];
    assert b == (a + b)[|a|..] && d == (c + d)[|a|..];
  }

  lemma SameBits(a: byte, b: byte)
    requires BitsOf(8, a) == BitsOf(8, b)
    ensures a == b
  {
    ByteIsEightBits();
    NumberOfBits(8, a);
    NumberOfBits(8, b);
  }

  lemma FieldWordInjective(s: seq<byte>, t: seq<byte>)
    requires |s| == 4 && |t| == 4 && FieldWord(s) == FieldWord(t)
    ensures s == t
  {
    SplitEqual(BitsOf(8, s[0]) + BitsOf(8, s[1]) + BitsOf(8, s[2]), BitsOf(8, s[3]),
               BitsOf(8, t[0]) + BitsOf(8, t[1]) + BitsOf(8, t[2]), BitsOf(8, t[3]));
    SplitEqual(BitsOf(8, s[0]) + BitsOf(8, s[1]), BitsOf(8, s[2]), BitsOf(8, t[0]) + BitsOf(8, t[1]), BitsOf(8, t[2]));
    SplitEqual(BitsOf(8, s[0]), BitsOf(8, s[1]), BitsOf(8, t[0]), BitsOf(8, t[1]));
    SameBits(s[0], t[0]);
    SameBits(s[1], t[1]);
    SameBits(s[2], t[2]);
    SameBits(s[3], t[3]);
  }
}
