/**
 What it is to be smaller, for the values that order rows, and to be sorted by several keys. The
 comparators of `src/exec.rs` are proved against these.
 */
module Orders {
  import opened Bytes
  import opened Wrappers
  import opened Columns
  import opened Arrays

  // --- values -----------------------------------------------------------------------------------------

  // A proper prefix, or the smaller octet at the first place where they differ.
  predicate PartsAt(a: bytes, b: bytes, k: nat) {
    && k <= |a| && k < |b| && a[..k] == b[..k]
    && (k == |a| || a[k] < b[k])
  }

  predicate TextBelow(a: bytes, b: bytes) {
    exists k :: 0 <= k < |b| && PartsAt(a, b, k)
  }

  // By sign, then by magnitude: the sign is the highest bit.
  predicate Negative(x: u64) {
    x >= TWO63
  }

  function Magnitude(x: u64): nat {
    x % TWO63
  }

  predicate DoubleBelow(x: u64, y: u64) {
    if Negative(x) != Negative(y) then Negative(x)
    else if Negative(x) then Magnitude(y) < Magnitude(x)
    else Magnitude(x) < Magnitude(y)
  }

  predicate Smaller(v: Value, w: Value) {
    match (v, w)
    case (I64(x), I64(y)) => x < y
    case (F64(x), F64(y)) => DoubleBelow(x, y)
    case (Bool(x), Bool(y)) => !x && y
    case (Str(x), Str(y)) => TextBelow(x, y)
    case _ => false
  }

  // Values of one type; vectors do not order anything.
  predicate SameKind(v: Value, w: Value) {
    match v
    case I64(_) => w.I64?
    case F64(_) => w.F64?
    case Bool(_) => w.Bool?
    case Str(_) => w.Str?
    case Vector(_) => w.Vector?
  }

  predicate Tied(v: Value, w: Value) {
    v == w || (v.Vector? && w.Vector?)
  }

  // The comparison of texts is that order.
  lemma {:induction false} TextsCompared(a: bytes, b: bytes)
    ensures CompareTexts(a, b) == Less <==> TextBelow(a, b)
    ensures CompareTexts(a, b) == Equal <==> a == b
    ensures CompareTexts(a, b) == Greater <==> TextBelow(b, a)
    decreases |a|
  {
    if a == [] || b == [] || a[0] != b[0] {
      HeadsDecide(a, b);
      HeadsDecide(b, a);
    } else {
      TextsCompared(a[1..], b[1..]);
      TailsDecide(a, b);
      TailsDecide(b, a);
      assert a == [a[0]] + a[1..] && b == [b[0]] + b[1..];
    }
  }

  lemma HeadsDecide(a: bytes, b: bytes)
    requires a == [] || b == [] || a[0] != b[0]
    ensures TextBelow(a, b) <==> b != [] && (a == [] || a[0] < b[0])
  {
    if b != [] && (a == [] || a[0] < b[0]) {
      assert PartsAt(a, b, 0);
    }
    if TextBelow(a, b) {
      var k :| 0 <= k < |b| && PartsAt(a, b, k);
      if k > 0 {
        HeadsSame(a, b, k);
        assert false;
      }
    }
  }

  lemma HeadsSame(a: bytes, b: bytes, k: nat)
    requires 0 < k <= |a| && k <= |b| && a[..k] == b[..k]
    ensures a != [] && b != [] && a[0] == b[0]
  {
    assert a[..k][0] == b[..k][0];
  }

  lemma TailsDecide(a: bytes, b: bytes)
    requires a != [] && b != [] && a[0] == b[0]
    ensures TextBelow(a, b) <==> TextBelow(a[1..], b[1..])
  {
    if TextBelow(a, b) {
      var k :| 0 <= k < |b| && PartsAt(a, b, k);
      assert a[1..][..k - 1] == a[..k][1..] && b[1..][..k - 1] == b[..k][1..];
      assert PartsAt(a[1..], b[1..], k - 1);
    }
    if TextBelow(a[1..], b[1..]) {
      var k :| 0 <= k < |b[1..]| && PartsAt(a[1..], b[1..], k);
      assert a[..k + 1] == [a[0]] + a[1..][..k] && b[..k + 1] == [b[0]] + b[1..][..k];
      assert PartsAt(a, b, k + 1);
    }
  }

  // --- rows -------------------------------------------------------------------------------------------

  predicate TiedTo(x: seq<Value>, y: seq<Value>, k: nat) {
    k <= |x| && k <= |y| && forall m :: 0 <= m < k ==> Tied(x[m], y[m])
  }

  // At the first key on which they differ, `x` has the smaller value if that key is ascending, and the
  // larger if it is descending.
  predicate DecidedAt(asc: seq<bool>, x: seq<Value>, y: seq<Value>, k: nat)
    requires |x| == |y| == |asc|
  {
    && k < |asc| && TiedTo(x, y, k) && !Tied(x[k], y[k])
    && if asc[k] then Smaller(x[k], y[k]) else Smaller(y[k], x[k])
  }

  predicate Before(asc: seq<bool>, x: seq<Value>, y: seq<Value>)
    requires |x| == |y| == |asc|
  {
    exists k :: 0 <= k < |asc| && DecidedAt(asc, x, y, k)
  }

  predicate SameKinds(x: seq<Value>, y: seq<Value>) {
    |x| == |y| && forall k :: 0 <= k < |x| ==> SameKind(x[k], y[k])
  }

  predicate Widths(rows: seq<seq<Value>>, w: nat) {
    forall i :: 0 <= i < |rows| ==> |rows[i]| == w
  }

  // The rows are sorted, and rows with equal keys stand as they stood.
  predicate InOrder(asc: seq<bool>, rows: seq<seq<Value>>, i: nat, j: nat)
    requires Widths(rows, |asc|) && i < |rows| && j < |rows|
  {
    Before(asc, rows[i], rows[j]) || (TiedTo(rows[i], rows[j], |asc|) && i < j)
  }

  predicate AllOnce(order: seq<nat>, n: nat) {
    && |order| == n && (forall a :: 0 <= a < n ==> order[a] < n)
    && forall a, b :: 0 <= a < b < n ==> order[a] != order[b]
  }

  predicate Arranged(asc: seq<bool>, rows: seq<seq<Value>>, order: seq<nat>)
    requires Widths(rows, |asc|)
  {
    && AllOnce(order, |rows|)
    && forall a, b :: 0 <= a < b < |order| ==> InOrder(asc, rows, order[a], order[b])
  }

  // What OFFSET and LIMIT leave: so many entries, and entry `i` is entry `offset + i`.
  predicate Cut<T(==)>(all: seq<T>, limit: Option<nat>, offset: nat, part: seq<T>) {
    && |part| == (if offset >= |all| then 0
                  else if limit.Some? && limit.value < |all| - offset then limit.value
                  else |all| - offset)
    && forall i :: 0 <= i < |part| ==> part[i] == all[offset + i]
  }
}
