/**
 CRC-32 of `src/codec.rs`. A 32-bit register is its sequence of bits, least significant first,
 so that exclusive or and the right shift are what they are bit by bit. The register step is
 linear over exclusive or and can be undone; hence a burst of at most four bytes is noticed.
 */
module Crc {
  import opened Bytes

  type Word = w: seq<bool> | |w| == 32 witness seq(32, _ => false)

  // The `n` low bits of `v`, and the number some bits stand for.
  function Bits(v: nat, n: nat): (b: seq<bool>)
    ensures |b| == n
  {
    if n == 0 then [] else [v % 2 == 1] + Bits(v / 2, n - 1)
  }

  function Number(b: seq<bool>): nat {
    if b == [] then 0 else (if b[0] then 1 else 0) + 2 * Number(b[1..])
  }

  const ONES: Word := Bits(0xFFFF_FFFF, 32)
  const POLY: Word := Bits(0xEDB8_8320, 32)

  function Xor(a: Word, b: Word): Word {
    seq(32, i requires 0 <= i < 32 => a[i] != b[i])
  }

  // One turn of the inner loop: the mask is all ones exactly when the low bit is set.
  function Shift(c: Word): Word {
    var half := c[1..] + [false];
    if c[0] then Xor(half, POLY) else half
  }

  function ShiftN(c: Word, n: nat): Word
    decreases n
  {
    if n == 0 then c else ShiftN(Shift(c), n - 1)
  }

  // The register after one more byte: it is folded into the low octet, then shifted out.
  function Step(c: Word, b: byte): Word {
    ShiftN(Xor(c, Bits(b, 32)), 8)
  }

  function Register(c: Word, data: bytes): Word
    decreases |data|
  {
    if data == [] then c else Register(Step(c, data[0]), data[1..])
  }

  function Crc32(data: bytes): u32 {
    var c := Xor(Register(ONES, data), ONES);
    NumberBound(c);
    Number(c)
  }

  method ComputeCrc32(data: bytes) returns (sum: u32)
    ensures sum == Crc32(data)
  {
    hide Shift, Xor, Bits, Number;
    var crc := ONES;
    for i := 0 to |data|
      invariant Register(crc, data[i..]) == Register(ONES, data)
    {
      ghost var before := crc;
      assert data[i..][0] == data[i] && data[i..][1..] == data[i + 1..];
      crc := Xor(crc, Bits(data[i], 32));
      for k := 0 to 8
        invariant ShiftN(crc, 8 - k) == Step(before, data[i])
      {
        crc := Shift(crc);
      }
    }
    crc := Xor(crc, ONES);
    NumberBound(crc);
    sum := Number(crc);
  }

  // --- numbers and bits -----------------------------------------------------------------------

  function Pow2(n: nat): (p: nat)
    ensures p > 0
  {
    if n == 0 then 1 else 2 * Pow2(n - 1)
  }

  lemma {:induction false} NumberLess(b: seq<bool>)
    ensures Number(b) < Pow2(|b|)
  {
    if b != [] {
      NumberLess(b[1..]);
    }
  }

  lemma Pow2Values()
    ensures Pow2(8) == 0x100 && Pow2(16) == 0x1_0000 && Pow2(24) == 0x100_0000 && Pow2(32) == TWO32
  {
    assert Pow2(4) == 0x10;
    assert Pow2(12) == 0x1000;
    assert Pow2(20) == 0x10_0000;
    assert Pow2(28) == 0x1000_0000;
  }

  lemma NumberBound(c: Word)
    ensures Number(c) < TWO32
  {
    NumberLess(c);
    Pow2Values();
  }

  lemma {:induction false} NumberInjective(a: seq<bool>, b: seq<bool>)
    requires |a| == |b| && Number(a) == Number(b)
    ensures a == b
  {
    if a != [] {
      NumberInjective(a[1..], b[1..]);
      assert a == [a[0]] + a[1..] && b == [b[0]] + b[1..];
    }
  }

  lemma {:induction false} BitsRoundTrip(v: nat, n: nat)
    requires v < Pow2(n)
    ensures Number(Bits(v, n)) == v
  {
    if n > 0 {
      BitsRoundTrip(v / 2, n - 1);
      assert Bits(v, n)[1..] == Bits(v / 2, n - 1);
    }
  }

  lemma {:induction false} HighBitsClear(v: nat, k: nat, n: nat)
    requires v < Pow2(k)
    ensures forall i :: k <= i < n ==> !Bits(v, n)[i]
  {
    if n > 0 && k > 0 {
      HighBitsClear(v / 2, k - 1, n - 1);
    } else if n > 0 {
      HighBitsClear(0, 0, n - 1);
    }
  }

  // --- the step is linear and injective --------------------------------------------------------

  lemma ShiftLinear(c: Word, d: Word)
    ensures Shift(Xor(c, d)) == Xor(Shift(c), Shift(d))
  {
  }

  lemma {:induction false} ShiftNLinear(c: Word, d: Word, n: nat)
    ensures ShiftN(Xor(c, d), n) == Xor(ShiftN(c, n), ShiftN(d, n))
    decreases n
  {
    if n > 0 {
      ShiftLinear(c, d);
      ShiftNLinear(Shift(c), Shift(d), n - 1);
    }
  }

  lemma {:induction false} TopBit(v: nat, n: nat)
    requires n > 0 && Pow2(n - 1) <= v < Pow2(n)
    ensures Bits(v, n)[n - 1]
  {
    if n > 1 {
      TopBit(v / 2, n - 1);
    }
  }

  // The top bit of the polynomial is set, so a step reveals the bit it dropped.
  lemma PolyTopBit()
    ensures POLY[31]
  {
    Pow2Values();
    assert Pow2(32) == 2 * Pow2(31);
    TopBit(0xEDB8_8320, 32);
  }

  lemma ShiftReveals(c: Word)
    ensures Shift(c)[31] == c[0]
    ensures forall i :: 0 <= i < 31 ==> Shift(c)[i] == (c[i + 1] != (c[0] && POLY[i]))
  {
    PolyTopBit();
  }

  lemma ShiftInjective(c: Word, d: Word)
    requires Shift(c) == Shift(d)
    ensures c == d
  {
    ShiftReveals(c);
    ShiftReveals(d);
    forall i | 0 <= i < 32
      ensures c[i] == d[i]
    {
      if i > 0 {
        assert Shift(c)[i - 1] == Shift(d)[i - 1];
      }
    }
  }

  lemma {:induction false} ShiftNInjective(c: Word, d: Word, n: nat)
    requires ShiftN(c, n) == ShiftN(d, n)
    ensures c == d
    decreases n
  {
    if n > 0 {
      ShiftNInjective(Shift(c), Shift(d), n - 1);
      ShiftInjective(c, d);
    }
  }

  lemma XorCancel(a: Word, b: Word, p: Word)
    requires Xor(a, p) == Xor(b, p)
    ensures a == b
  {
    forall i | 0 <= i < 32
      ensures a[i] == b[i]
    {
      assert Xor(a, p)[i] == Xor(b, p)[i];
    }
  }

  lemma {:induction false} RegisterInjective(c: Word, d: Word, data: bytes)
    requires Register(c, data) == Register(d, data)
    ensures c == d
    decreases |data|
  {
    if data != [] {
      var w := Bits(data[0], 32);
      RegisterInjective(Step(c, data[0]), Step(d, data[0]), data[1..]);
      ShiftNInjective(Xor(c, w), Xor(d, w), 8);
      XorCancel(c, d, w);
    }
  }

  lemma {:induction false} RegisterAppend(c: Word, a: bytes, b: bytes)
    ensures Register(c, a + b) == Register(Register(c, a), b)
    decreases |a|
  {
    if a == [] {
      assert a + b == b;
    } else {
      assert (a + b)[1..] == a[1..] + b;
      RegisterAppend(Step(c, a[0]), a[1..], b);
    }
  }

  // --- bursts ------------------------------------------------------------------------------------

  // The bits from `k` on are clear.
  predicate Below(c: Word, k: nat) {
    forall i :: k <= i < 32 ==> !c[i]
  }

  lemma ShiftDown(c: Word)
    requires !Shift(c)[31]
    ensures !c[0]
    ensures forall i :: 1 <= i < 32 ==> c[i] == Shift(c)[i - 1]
  {
    ShiftReveals(c);
    forall i | 1 <= i < 32
      ensures c[i] == Shift(c)[i - 1]
    {
      assert Shift(c)[i - 1] == c[i - 1 + 1];
    }
  }

  // A register that ends up small after a few turns has only been shifted.
  lemma {:induction false} ShiftNBack(c: Word, n: nat, k: nat)
    requires n + k <= 32
    requires Below(ShiftN(c, n), k)
    ensures Below(c, n + k)
    ensures forall i :: 0 <= i < n ==> !c[i]
    ensures forall i :: n <= i < 32 ==> c[i] == ShiftN(c, n)[i - n]
    decreases n
  {
    hide Shift;
    if n > 0 {
      ShiftNBack(Shift(c), n - 1, k);
      ShiftDown(c);
    }
  }

  lemma OctetBits(b: byte)
    ensures Below(Bits(b, 32), 8)
  {
    Pow2Values();
    HighBitsClear(b, 8, 32);
  }

  lemma OctetInjective(a: byte, b: byte)
    requires Bits(a, 32) == Bits(b, 32)
    ensures a == b
  {
    Pow2Values();
    BitsRoundTrip(a, 32);
    BitsRoundTrip(b, 32);
  }

  // The difference of two registers after one byte each, undone: if it then lies in the low
  // 8k bits, it was the difference of the two bytes plus that difference moved up by 8 bits.
  lemma StepDifference(c: Word, d: Word, a: byte, b: byte, k: nat)
    requires k <= 3
    requires Below(Xor(Step(c, a), Step(d, b)), 8 * k)
    ensures Below(Xor(c, d), 8 * k + 8)
    ensures c == d ==> Step(c, a) == Step(d, b) && a == b
  {
    var x, y := Xor(c, Bits(a, 32)), Xor(d, Bits(b, 32));
    ShiftNLinear(x, y, 8);
    ShiftNBack(Xor(x, y), 8, 8 * k);
    OctetBits(a);
    OctetBits(b);
    forall i | 8 * k + 8 <= i < 32
      ensures !Xor(c, d)[i]
    {
      assert !Xor(x, y)[i];
    }
    if c == d {
      forall i | 0 <= i < 32
        ensures Bits(a, 32)[i] == Bits(b, 32)[i]
      {
        assert i < 8 ==> !Xor(x, y)[i];
      }
      assert Bits(a, 32) == Bits(b, 32);
      OctetInjective(a, b);
    }
  }

  // A difference that ends up in the low 8j bits lay in the low bits before, 8 more for each byte.
  lemma {:induction false} ShortDifference(c: Word, d: Word, x: bytes, y: bytes, j: nat)
    requires |x| == |y| && |x| + j <= 4
    requires Below(Xor(Register(c, x), Register(d, y)), 8 * j)
    ensures Below(Xor(c, d), 8 * (|x| + j))
    decreases |x|
  {
    if x != [] {
      ShortDifference(Step(c, x[0]), Step(d, y[0]), x[1..], y[1..], j);
      StepDifference(c, d, x[0], y[0], |x| - 1 + j);
    }
  }

  // From one register, different bytes of equal length lead to registers that differ in as many of
  // their high octets.
  lemma {:induction false} ShortInjective(c: Word, x: bytes, y: bytes, j: nat)
    requires |x| == |y| && |x| + j <= 4
    requires Below(Xor(Register(c, x), Register(c, y)), 8 * j)
    ensures x == y
    decreases |x|
  {
    if x != [] {
      ShortDifference(Step(c, x[0]), Step(c, y[0]), x[1..], y[1..], j);
      StepDifference(c, c, x[0], y[0], |x| - 1 + j);
      ShortInjective(Step(c, x[0]), x[1..], y[1..], j);
    }
  }

  // Whatever stands before and after it, a burst of at most four changed bytes changes the sum.
  lemma BurstChangesCrc(before: bytes, x: bytes, y: bytes, after: bytes)
    requires |x| == |y| <= 4 && x != y
    ensures Crc32(before + x + after) != Crc32(before + y + after)
  {
    var c := Register(ONES, before);
    RegisterAppend(ONES, before, x);
    RegisterAppend(ONES, before, y);
    RegisterAppend(ONES, before + x, after);
    RegisterAppend(ONES, before + y, after);
    if Crc32(before + x + after) == Crc32(before + y + after) {
      var p, q := Register(ONES, before + x + after), Register(ONES, before + y + after);
      NumberInjective(Xor(p, ONES), Xor(q, ONES));
      XorCancel(p, q, ONES);
      RegisterInjective(Register(c, x), Register(c, y), after);
      ShortInjective(c, x, y, 0);
      assert false;
    }
  }

  // --- bursts across the stored sum --------------------------------------------------------------

  // What is left of a number without its `j` low octets.
  function Without(v: nat, j: nat): nat {
    if j == 0 then v else Without(v / 0x100, j - 1)
  }

  // The bytes from `j` on are the same.
  predicate SameFrom(a: bytes, b: bytes, j: nat) {
    |a| == |b| && forall i :: j <= i < |a| ==> a[i] == b[i]
  }

  lemma {:induction false} HighOctets(v: nat, w: nat, k: nat, j: nat)
    requires j <= k && v < Pow256(k) && w < Pow256(k) && SameFrom(Le(v, k), Le(w, k), j)
    ensures Without(v, j) == Without(w, j)
  {
    if j == 0 {
      LeRoundTrip(v, k);
      LeRoundTrip(w, k);
      assert Le(v, k) == Le(w, k);
    } else {
      var a, b := Le(v / 0x100, k - 1), Le(w / 0x100, k - 1);
      forall i | j - 1 <= i < k - 1 ensures a[i] == b[i] {
        assert Le(v, k)[i + 1] == Le(w, k)[i + 1];
      }
      HighOctets(v / 0x100, w / 0x100, k - 1, j - 1);
    }
  }

  lemma {:induction false} NumberHalves(b: seq<bool>, n: nat)
    requires n <= |b|
    ensures Number(b) / Pow2(n) == Number(b[n..])
  {
    if n > 0 {
      NumberHalves(b[1..], n - 1);
      assert b[1..][n - 1..] == b[n..];
      HalfThen(Number(b), Pow2(n - 1));
    } else {
      assert b[0..] == b;
    }
  }

  lemma HalfThen(v: nat, p: nat)
    requires p > 0
    ensures v / (2 * p) == v / 2 / p
  {
    var q := v / 2 / p;
    assert v / 2 == q * p + v / 2 % p;
    assert q * (2 * p) == 2 * (q * p) && (q + 1) * (2 * p) == 2 * (q * p) + 2 * p;
    QuotientIs(v, 2 * p, q);
  }

  lemma {:induction false} NumberWithout(b: seq<bool>, j: nat)
    requires 8 * j <= |b|
    ensures Without(Number(b), j) == Number(b[8 * j..])
  {
    if j > 0 {
      Pow2Values();
      NumberHalves(b, 8);
      NumberWithout(b[8..], j - 1);
      assert b[8..][8 * (j - 1)..] == b[8 * j..];
    } else {
      assert b[0..] == b;
    }
  }

  // Two sums that agree in their octets from `j` on come from registers that differ below 8j only.
  lemma SameHighOctets(p: Word, q: Word, j: nat)
    requires j <= 4 && SameFrom(Le(Number(p), 4), Le(Number(q), 4), j)
    ensures Below(Xor(p, q), 8 * j)
  {
    NumberBound(p);
    NumberBound(q);
    Pow256Values();
    HighOctets(Number(p), Number(q), 4, j);
    NumberWithout(p, j);
    NumberWithout(q, j);
    NumberInjective(p[8 * j..], q[8 * j..]);
    forall i | 8 * j <= i < 32 ensures !Xor(p, q)[i] {
      assert p[i] == p[8 * j..][i - 8 * j] && q[i] == q[8 * j..][i - 8 * j];
    }
  }

  // A burst that ends the data and reaches into the stored sum is noticed: the new sum differs from
  // the old one in an octet behind those that the burst overwrites.
  lemma BurstAcrossSum(before: bytes, x: bytes, y: bytes, j: nat)
    requires |x| == |y| && |x| + j <= 4 && x != y
    ensures !SameFrom(Le(Crc32(before + x), 4), Le(Crc32(before + y), 4), j)
  {
    hide Le, Number, Xor, Below, SameFrom;
    var c := Register(ONES, before);
    RegisterAppend(ONES, before, x);
    RegisterAppend(ONES, before, y);
    var p, q := Register(c, x), Register(c, y);
    if SameFrom(Le(Crc32(before + x), 4), Le(Crc32(before + y), 4), j) {
      SameHighOctets(Xor(p, ONES), Xor(q, ONES), j);
      XorBoth(p, q, ONES);
      ShortInjective(c, x, y, j);
    }
  }

  lemma XorBoth(p: Word, q: Word, m: Word)
    ensures Xor(Xor(p, m), Xor(q, m)) == Xor(p, q)
  {
  }
}
