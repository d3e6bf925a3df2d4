/** Bytes, machine integers and their little-endian encodings. */
module Bytes {
  type byte = x: int | 0 <= x < 0x100
  type bytes = seq<byte>

  const TWO32: int := 0x1_0000_0000
  const TWO63: int := 0x8000_0000_0000_0000
  const TWO64: int := 0x1_0000_0000_0000_0000

  type u32 = x: int | 0 <= x < TWO32
  type u64 = x: int | 0 <= x < TWO64
  type i64 = x: int | -TWO63 <= x < TWO63

  // The low `k` bytes of `v`, least significant first: `to_le_bytes` of an
  // unsigned integer of that width, including the truncation of a wider one.
  function Le(v: nat, k: nat): (b: bytes)
    ensures |b| == k
  {
    if k == 0 then [] else [v % 0x100] + Le(v / 0x100, k - 1)
  }

  // `from_le_bytes`.
  function UnLe(b: bytes): nat {
    if b == [] then 0 else b[0] + 0x100 * UnLe(b[1..])
  }

  function Pow256(k: nat): nat {
    if k == 0 then 1 else 0x100 * Pow256(k - 1)
  }

  lemma Pow256Values()
    ensures Pow256(1) == 0x100 && Pow256(4) == TWO32 && Pow256(8) == TWO64
  {
    assert Pow256(2) == 0x1_0000;
    assert Pow256(3) == 0x100_0000;
    assert Pow256(5) == 0x100_0000_0000;
    assert Pow256(6) == 0x1_0000_0000_0000;
    assert Pow256(7) == 0x100_0000_0000_0000;
  }

  lemma {:induction false} LeRoundTrip(v: nat, k: nat)
    requires v < Pow256(k)
    ensures UnLe(Le(v, k)) == v
  {
    if k > 0 {
      LeRoundTrip(v / 0x100, k - 1);
      assert Le(v, k)[1..] == Le(v / 0x100, k - 1);
    }
  }

  lemma {:induction false} UnLeBound(b: bytes)
    ensures UnLe(b) < Pow256(|b|)
  {
    if b != [] {
      UnLeBound(b[1..]);
    }
  }

  lemma {:induction false} UnLeRoundTrip(b: bytes)
    ensures Le(UnLe(b), |b|) == b
  {
    if b != [] {
      UnLeRoundTrip(b[1..]);
    }
  }

  lemma U32RoundTrip(v: u32)
    ensures UnLe(Le(v, 4)) == v
  {
    Pow256Values();
    LeRoundTrip(v, 4);
  }

  lemma U64RoundTrip(v: u64)
    ensures UnLe(Le(v, 8)) == v
  {
    Pow256Values();
    LeRoundTrip(v, 8);
  }

  // The bit pattern of a signed 64-bit integer as an unsigned one, and back.
  function AsU64(x: i64): u64 {
    if x < 0 then x + TWO64 else x
  }

  function AsI64(x: u64): i64 {
    if x < TWO63 then x else x - TWO64
  }

  lemma Assoc(a: bytes, b: bytes, c: bytes)
    ensures a + b + c == a + (b + c)
  {
  }

  // A quotient is the number whose multiple is the nearest one below.
  lemma QuotientIs(n: int, d: int, q: int)
    requires d > 0 && q * d <= n < (q + 1) * d
    ensures n / d == q && n % d == n - q * d
  {
    var r := n / d;
    assert n == r * d + n % d;
    assert r < q ==> (r + 1) * d <= q * d;
    assert r > q ==> (q + 1) * d <= r * d;
  }
}
