/**
 What the checksum of `src/codec.rs` is: CRC-32 as a remainder of polynomials over the field of two
 elements (ISO 3309, and section 8 of RFC 1952). Nothing in the definition speaks of a register.
 */
module Polynomials {
  import opened Bytes
  import opened Crc

  // --- the definition -------------------------------------------------------------------------------

  // The exponents of the generator: x^32 + x^26 + x^23 + ... + x + 1.
  const GENERATOR: seq<nat> := [32, 26, 23, 22, 16, 12, 11, 10, 8, 7, 5, 4, 2, 1, 0]

  // Whether x^e occurs in a polynomial.
  predicate Coef(p: seq<bool>, e: int) {
    0 <= e < |p| && p[e]
  }

  // Whether x^e occurs in the product with the sum of x^g for all the exponents `gs`.
  predicate Times(q: seq<bool>, gs: seq<nat>, e: int) {
    gs != [] && Coef(q, e - gs[0]) != Times(q, gs[1..], e)
  }

  predicate Bit(v: nat, i: nat) {
    v / Pow2(i) % 2 == 1
  }

  // The bits of the message in the order in which they are sent: of each octet, the lowest first.
  predicate MessageBit(data: bytes, j: nat)
    requires j < 8 * |data|
  {
    Bit(data[j / 8], j % 8)
  }

  // Whether x^e occurs in what is divided: the message, its first bit at the highest power, followed by
  // 32 zeros, and all ones added to its first 32 bits.
  predicate Dividend(data: bytes, e: nat) {
    var n := 8 * |data|;
    (32 <= e < n + 32 && MessageBit(data, n + 31 - e)) != (n <= e < n + 32)
  }

  // Whether x^e occurs in the remainder that a sum stands for: bit by bit turned round, and inverted.
  predicate Rest(sum: u32, e: nat) {
    e < 32 && !Bit(sum, 31 - e)
  }

  predicate Divides(data: bytes, q: seq<bool>, sum: u32, e: nat) {
    Dividend(data, e) == (Times(q, GENERATOR, e) != Rest(sum, e))
  }

  // The sum is the remainder of the message: some multiple of the generator makes up the difference.
  ghost predicate IsCrc(data: bytes, sum: u32) {
    exists q: seq<bool> :: IsQuotient(data, q, sum)
  }

  ghost predicate IsQuotient(data: bytes, q: seq<bool>, sum: u32) {
    forall e: nat :: Divides(data, q, sum, e)
  }

  // --- numbers and bits -----------------------------------------------------------------------------

  lemma {:induction false} BitsAt(v: nat, n: nat, i: nat)
    requires i < n
    ensures Bits(v, n)[i] == Bit(v, i)
  {
    if i > 0 {
      BitsAt(v / 2, n - 1, i - 1);
      HalfThen(v, Pow2(i - 1));
    }
  }

  lemma NumberAt(c: Word, i: nat)
    requires i < 32
    ensures Bit(Number(c), i) == c[i]
  {
    NumberHalves(c, i);
    assert c[i..][0] == c[i];
  }

  // --- the generator is the code's constant ------------------------------------------------------------

  // The low octet, and what is left.
  lemma OctetOf(v: nat, n: nat)
    requires n >= 8
    ensures forall i :: 0 <= i < 8 ==> Bits(v, n)[i] == Bit(v, i)
    ensures forall i :: 8 <= i < n ==> Bits(v, n)[i] == Bits(v / 0x100, n - 8)[i - 8]
  {
    hide Bits, Bit;
    forall i | 0 <= i < n ensures Bits(v, n)[i] == Bit(v, i) {
      BitsAt(v, n, i);
    }
    forall i | 8 <= i < n ensures Bits(v, n)[i] == Bits(v / 0x100, n - 8)[i - 8] {
      BitsAt(v / 0x100, n - 8, i - 8);
      BitAbove(v, i);
    }
  }

  lemma {:induction false} BitAbove(v: nat, i: nat)
    requires i >= 8
    ensures Bit(v, i) == Bit(v / 0x100, i - 8)
  {
    assert v / 2 / 2 / 2 / 2 / 2 / 2 / 2 / 2 == v / 0x100;
    HalfAbove(v, i);
    HalfAbove(v / 2, i - 1);
    HalfAbove(v / 2 / 2, i - 2);
    HalfAbove(v / 2 / 2 / 2, i - 3);
    HalfAbove(v / 2 / 2 / 2 / 2, i - 4);
    HalfAbove(v / 2 / 2 / 2 / 2 / 2, i - 5);
    HalfAbove(v / 2 / 2 / 2 / 2 / 2 / 2, i - 6);
    HalfAbove(v / 2 / 2 / 2 / 2 / 2 / 2 / 2, i - 7);
  }

  lemma HalfAbove(v: nat, i: nat)
    requires i >= 1
    ensures Bit(v, i) == Bit(v / 2, i - 1)
  {
    HalfThen(v, Pow2(i - 1));
  }

  // The powers of two below an octet's.
  lemma SmallPowers()
    ensures Pow2(0) == 1 && Pow2(1) == 2 && Pow2(2) == 4 && Pow2(3) == 8
    ensures Pow2(4) == 16 && Pow2(5) == 32 && Pow2(6) == 64 && Pow2(7) == 128
  {
  }

  // The four octets of the constant, the lowest first.
  lemma FirstOfPoly(i: nat)
    requires i < 8
    ensures Bit(0xEDB8_8320, i) <==> i == 5
  {
    SmallPowers();
    hide Pow2;
  }

  lemma SecondOfPoly(i: nat)
    requires i < 8
    ensures Bit(0xED_B883, i) <==> i in {0, 1, 7}
  {
    SmallPowers();
    hide Pow2;
  }

  lemma ThirdOfPoly(i: nat)
    requires i < 8
    ensures Bit(0xEDB8, i) <==> i in {3, 4, 5, 7}
  {
    SmallPowers();
    hide Pow2;
  }

  lemma FourthOfPoly(i: nat)
    requires i < 8
    ensures Bit(0xED, i) <==> i in {0, 2, 3, 5, 6, 7}
  {
    SmallPowers();
    hide Pow2;
  }

  lemma PolyOctets(i: nat)
    requires i < 32
    ensures POLY[i] == if i < 8 then Bit(0xEDB8_8320, i) else if i < 16 then Bit(0xED_B883, i - 8)
      else if i < 24 then Bit(0xEDB8, i - 16) else Bit(0xED, i - 24)
  {
    hide Bits, Bit;
    OctetOf(0xEDB8_8320, 32);
    OctetOf(0xED_B883, 24);
    OctetOf(0xEDB8, 16);
    OctetOf(0xED, 8);
  }

  lemma InGenerator(e: nat)
    ensures e in GENERATOR <==> e in {32, 26, 23, 22, 16, 12, 11, 10, 8, 7, 5, 4, 2, 1, 0}
  {
  }

  lemma GeneratorIsPoly(e: nat)
    requires e < 32
    ensures POLY[31 - e] <==> e in GENERATOR
  {
    hide Bits, Bit;
    var i := 31 - e;
    PolyOctets(i);
    InGenerator(e);
    if i < 8 {
      FirstOfPoly(i);
    } else if i < 16 {
      SecondOfPoly(i - 8);
    } else if i < 24 {
      ThirdOfPoly(i - 16);
    } else {
      FourthOfPoly(i - 24);
    }
  }

  // --- one turn of the register ------------------------------------------------------------------------

  lemma {:induction false} TimesUp(b: bool, q: seq<bool>, gs: seq<nat>, e: nat)
    requires forall i, j :: 0 <= i < j < |gs| ==> gs[i] != gs[j]
    ensures Times([b] + q, gs, e) == ((e in gs && b) != Times(q, gs, e - 1))
  {
    if gs != [] {
      TimesUp(b, q, gs[1..], e);
      assert Coef([b] + q, e - gs[0]) == if e == gs[0] then b else Coef(q, e - 1 - gs[0]);
      assert e in gs <==> e == gs[0] || e in gs[1..];
    }
  }

  // The polynomial of a register: its low bit at the highest power.
  predicate Held(c: Word, e: int) {
    0 <= e < 32 && c[31 - e]
  }

  predicate LeavesAt(d: seq<bool>, q: seq<bool>, c: Word, e: nat) {
    Coef(d, e) == (Times(q, GENERATOR, e) != Held(c, e))
  }

  // The register holds a remainder of `d`.
  ghost predicate Leaves(d: seq<bool>, q: seq<bool>, c: Word) {
    forall e: nat :: LeavesAt(d, q, c, e)
  }

  lemma ShiftHeld(c: Word, e: nat)
    requires e < 32
    ensures Held(Shift(c), e) == (Held(c, e - 1) != ((e in GENERATOR) && c[0]))
  {
    ShiftReveals(c);
    GeneratorIsPoly(e);
    GeneratorIsPoly(0);
    InGenerator(e);
    hide Shift;
    assert e > 0 ==> Shift(c)[31 - e] == (c[31 - e + 1] != (c[0] && POLY[31 - e]));
  }

  // A turn multiplies by x and takes the generator away if x^32 comes up.
  lemma ShiftLeaves(d: seq<bool>, q: seq<bool>, c: Word)
    requires Leaves(d, q, c)
    ensures Leaves([false] + d, [c[0]] + q, Shift(c))
  {
    hide Shift;
    forall e: nat ensures LeavesAt([false] + d, [c[0]] + q, Shift(c), e) {
      TimesUp(c[0], q, GENERATOR, e);
      assert Coef([false] + d, e) == Coef(d, e - 1);
      if e > 0 {
        assert LeavesAt(d, q, c, e - 1);
      } else {
        TimesBelow(q, GENERATOR, -1);
      }
      if e >= 32 {
        InGenerator(e);
        assert Held(c, e - 1) <==> e == 32 && c[0];
      } else {
        ShiftHeld(c, e);
      }
    }
  }

  lemma {:induction false} TimesBelow(q: seq<bool>, gs: seq<nat>, e: int)
    requires e < 0
    ensures !Times(q, gs, e)
  {
    if gs != [] {
      TimesBelow(q, gs[1..], e);
    }
  }

  function Zeros(n: nat): (z: seq<bool>)
    ensures |z| == n && forall i :: 0 <= i < n ==> !z[i]
  {
    seq(n, _ => false)
  }

  lemma {:induction false} ShiftNLeaves(d: seq<bool>, q: seq<bool>, c: Word, n: nat) returns (q': seq<bool>)
    requires Leaves(d, q, c)
    ensures Leaves(Zeros(n) + d, q', ShiftN(c, n))
    decreases n
  {
    hide Shift, Leaves;
    if n == 0 {
      q' := q;
      assert Zeros(0) + d == d;
    } else {
      ShiftLeaves(d, q, c);
      q' := ShiftNLeaves([false] + d, [c[0]] + q, Shift(c), n - 1);
      assert Zeros(n - 1) + ([false] + d) == Zeros(n) + d;
    }
  }

  // A word added to the register is added to the dividend.
  function Plus(d: seq<bool>, w: Word): (r: seq<bool>)
    ensures |r| == |d| && forall e :: 0 <= e < |d| ==> r[e] == (d[e] != Held(w, e))
  {
    seq(|d|, e requires 0 <= e < |d| => d[e] != Held(w, e))
  }

  lemma XorLeaves(d: seq<bool>, q: seq<bool>, c: Word, w: Word)
    requires Leaves(d, q, c) && |d| >= 32
    ensures Leaves(Plus(d, w), q, Xor(c, w))
  {
    forall e: nat ensures LeavesAt(Plus(d, w), q, Xor(c, w), e) {
      assert LeavesAt(d, q, c, e);
    }
  }

  // --- the message ------------------------------------------------------------------------------------

  // The dividend after some bytes.
  function Folded(d: seq<bool>, data: bytes): seq<bool>
    decreases |data|
  {
    if data == [] then d else Folded(Zeros(8) + Plus(d, Bits(data[0], 32)), data[1..])
  }

  lemma {:induction false} RegisterLeaves(d: seq<bool>, q: seq<bool>, c: Word, data: bytes) returns (q': seq<bool>)
    requires Leaves(d, q, c) && |d| >= 32
    ensures Leaves(Folded(d, data), q', Register(c, data))
    decreases |data|
  {
    hide Leaves, ShiftN, Xor, Bits;
    if data == [] {
      q' := q;
    } else {
      var w := Bits(data[0], 32);
      XorLeaves(d, q, c, w);
      var r := ShiftNLeaves(Plus(d, w), q, Xor(c, w), 8);
      q' := RegisterLeaves(Zeros(8) + Plus(d, w), r, Step(c, data[0]), data[1..]);
    }
  }

  lemma OctetHeld(b: byte, e: nat)
    ensures Held(Bits(b, 32), e) <==> 24 <= e < 32 && Bit(b, 31 - e)
  {
    Pow2Values();
    HighBitsClear(b, 8, 32);
    if 24 <= e < 32 {
      BitsAt(b, 32, 31 - e);
    }
  }

  // Whether x^e occurs in the message alone, followed by 32 zeros.
  predicate InMessage(data: bytes, e: int) {
    32 <= e < 8 * |data| + 32 && MessageBit(data, 8 * |data| + 31 - e)
  }

  lemma {:induction false} FoldedAt(d: seq<bool>, data: bytes, e: nat)
    requires |d| >= 32
    ensures Coef(Folded(d, data), e) == (Coef(d, e - 8 * |data|) != InMessage(data, e))
    decreases |data|
  {
    hide Bit;
    if data != [] {
      var n := 8 * (|data| - 1);
      var d1 := Zeros(8) + Plus(d, Bits(data[0], 32));
      FoldedAt(d1, data[1..], e);
      FirstOctet(d, data[0], e - n);
      if 32 <= e < n + 32 {
        TailBit(data, n + 31 - e);
      } else if n + 32 <= e < n + 40 {
        assert n + 39 - e < 8;
      }
    }
  }

  lemma TailBit(data: bytes, j: nat)
    requires data != [] && j < 8 * (|data| - 1)
    ensures MessageBit(data[1..], j) == MessageBit(data, j + 8)
  {
    assert (j + 8) / 8 == j / 8 + 1 && (j + 8) % 8 == j % 8;
    assert data[1..][j / 8] == data[j / 8 + 1];
  }

  lemma FirstOctet(d: seq<bool>, b: byte, e: int)
    requires |d| >= 32
    ensures Coef(Zeros(8) + Plus(d, Bits(b, 32)), e) == (Coef(d, e - 8) != (32 <= e < 40 && Bit(b, 39 - e)))
  {
    var w := Bits(b, 32);
    assert Coef(Zeros(8) + Plus(d, w), e) == Coef(Plus(d, w), e - 8);
    if e >= 8 {
      OctetHeld(b, e - 8);
    }
  }

  // All ones, in the register and before the message.
  function Ones(): (d: seq<bool>)
    ensures |d| == 32 && forall i :: 0 <= i < 32 ==> d[i]
  {
    seq(32, _ => true)
  }

  lemma {:induction false} AllOnes(v: nat, n: nat)
    requires v == Pow2(n) - 1
    ensures forall i :: 0 <= i < n ==> Bits(v, n)[i]
  {
    if n > 0 {
      AllOnes(v / 2, n - 1);
    }
  }

  lemma OnesBits()
    ensures forall i :: 0 <= i < 32 ==> ONES[i]
  {
    hide Bits;
    Pow2Values();
    AllOnes(0xFFFF_FFFF, 32);
  }

  lemma {:induction false} TimesNothing(gs: seq<nat>, e: int)
    ensures !Times([], gs, e)
  {
    if gs != [] {
      TimesNothing(gs[1..], e);
    }
  }

  lemma StartLeaves()
    ensures Leaves(Ones(), [], ONES)
  {
    OnesBits();
    forall e: nat ensures LeavesAt(Ones(), [], ONES, e) {
      TimesNothing(GENERATOR, e);
    }
  }

  lemma SumHeld(c: Word, e: nat)
    requires e < 32
    ensures Number(Xor(c, ONES)) < TWO32 && (Bit(Number(Xor(c, ONES)), 31 - e) <==> !Held(c, e))
  {
    OnesBits();
    NumberBound(Xor(c, ONES));
    NumberAt(Xor(c, ONES), 31 - e);
  }

  // The code's sum is the remainder.
  lemma CrcIsRemainder(data: bytes)
    ensures IsCrc(data, Crc32(data))
  {
    StartLeaves();
    var q := RegisterLeaves(Ones(), [], ONES, data);
    var c := Register(ONES, data);
    forall e: nat ensures Divides(data, q, Crc32(data), e) {
      hide Register, Folded, ShiftN, Xor, Bits, Number, Bit, Times;
      assert LeavesAt(Folded(Ones(), data), q, c, e);
      FoldedAt(Ones(), data, e);
      if e < 32 {
        SumHeld(c, e);
      }
    }
    assert IsQuotient(data, q, Crc32(data));
  }

  // --- there is one remainder ---------------------------------------------------------------------------

  lemma {:induction false} TimesSame(p: seq<bool>, q: seq<bool>, gs: seq<nat>, e: int)
    requires forall g :: g in gs ==> Coef(p, e - g) == Coef(q, e - g)
    ensures Times(p, gs, e) == Times(q, gs, e)
  {
    if gs != [] {
      assert gs[0] in gs && forall g :: g in gs[1..] ==> g in gs;
      TimesSame(p, q, gs[1..], e);
    }
  }

  predicate SameAbove(p: seq<bool>, q: seq<bool>, k: nat) {
    forall e :: k <= e < |p| + |q| ==> Coef(p, e) == Coef(q, e)
  }

  // Where two multiples of the generator differ below x^32 only, the highest powers of the factors agree
  // one after the other.
  lemma {:induction false} FactorsAgree(p: seq<bool>, q: seq<bool>, k: nat)
    requires forall e: nat :: e >= 32 ==> Times(p, GENERATOR, e) == Times(q, GENERATOR, e)
    requires SameAbove(p, q, k)
    ensures SameAbove(p, q, 0)
    decreases k
  {
    hide Times, SameAbove;
    if k > 0 {
      TopAgrees(p, q, k);
      FactorsAgree(p, q, k - 1);
    }
  }

  lemma TopPower(q: seq<bool>, e: int)
    ensures Times(q, GENERATOR, e) == (Coef(q, e - 32) != Times(q, GENERATOR[1..], e))
  {
  }

  lemma LowPowers()
    ensures forall g :: g in GENERATOR[1..] ==> g < 32
  {
  }

  lemma TopAgrees(p: seq<bool>, q: seq<bool>, k: nat)
    requires k > 0 && Times(p, GENERATOR, k + 31) == Times(q, GENERATOR, k + 31) && SameAbove(p, q, k)
    ensures SameAbove(p, q, k - 1)
  {
    TopPower(p, k + 31);
    TopPower(q, k + 31);
    LowPowers();
    RestSame(p, q, GENERATOR[1..], k);
    hide Times;
  }

  lemma RestSame(p: seq<bool>, q: seq<bool>, gs: seq<nat>, k: nat)
    requires k > 0 && SameAbove(p, q, k) && forall g :: g in gs ==> g < 32
    ensures Times(p, gs, k + 31) == Times(q, gs, k + 31)
  {
    hide Times;
    forall g | g in gs ensures Coef(p, k + 31 - g) == Coef(q, k + 31 - g) {
      assert k + 31 - g >= k;
    }
    TimesSame(p, q, gs, k + 31);
  }

  lemma SameBits(s: u32, t: u32)
    requires forall i :: 0 <= i < 32 ==> Bit(s, i) == Bit(t, i)
    ensures s == t
  {
    hide Bit, Bits;
    forall i | 0 <= i < 32 ensures Bits(s, 32)[i] == Bits(t, 32)[i] {
      BitsAt(s, 32, i);
      BitsAt(t, 32, i);
    }
    assert Bits(s, 32) == Bits(t, 32);
    Pow2Values();
    BitsRoundTrip(s, 32);
    BitsRoundTrip(t, 32);
  }

  lemma OneRemainder(data: bytes, s: u32, t: u32)
    requires IsCrc(data, s) && IsCrc(data, t)
    ensures s == t
  {
    hide Times, Dividend, Bit;
    var p: seq<bool> :| IsQuotient(data, p, s);
    var q: seq<bool> :| IsQuotient(data, q, t);
    forall e: nat | e >= 32 ensures Times(p, GENERATOR, e) == Times(q, GENERATOR, e) {
      assert Divides(data, p, s, e) && Divides(data, q, t, e);
    }
    FactorsAgree(p, q, |p| + |q|);
    forall i | 0 <= i < 32 ensures Bit(s, i) == Bit(t, i) {
      var e := 31 - i;
      assert Divides(data, p, s, e) && Divides(data, q, t, e);
      TimesSame(p, q, GENERATOR, e);
    }
    SameBits(s, t);
  }

  // The code's sum is that remainder, and no other number is.
  lemma CrcIff(data: bytes, sum: u32)
    ensures sum == Crc32(data) <==> IsCrc(data, sum)
  {
    CrcIsRemainder(data);
    if IsCrc(data, sum) {
      OneRemainder(data, sum, Crc32(data));
    }
  }
}
