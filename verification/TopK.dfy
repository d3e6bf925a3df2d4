/**
 ORDER BY, LIMIT and OFFSET (`src/exec.rs`): the comparator over several keys, the full sort, and
 the shorter path that selects the first rows before it sorts them.
 */
module TopK {
  import opened Bytes
  import opened Wrappers
  import opened Columns
  import opened Plan
  import opened Arrays
  import opened Orders
  import opened Functions
  import opened Evaluation
  import opened Refinement

  // --- the order on keys --------------------------------------------------------------------------

  function Reverse(o: Ordering): Ordering {
    match o
    case Less => Greater
    case Equal => Equal
    case Greater => Less
  }

  // The order of doubles by their bits: totalOrder of IEEE 754-2008, section 5.10. The numbers with
  // the sign bit come first, the larger magnitude earlier.
  function TotalKey(bits: u64): int {
    if bits < TWO63 then bits else -1 - (bits - TWO63)
  }

  function Kind(v: Value): nat {
    match v
    case I64(_) => 0
    case F64(_) => 1
    case Bool(_) => 2
    case Str(_) => 3
    case Vector(_) => 4
  }

  // Vectors do not order rows. The values of one key have one type, so kinds differ in no query.
  function CompareValues(a: Value, b: Value): Ordering {
    match (a, b)
    case (I64(x), I64(y)) => CompareInts(x, y)
    case (F64(x), F64(y)) => CompareInts(TotalKey(x), TotalKey(y))
    case (Bool(x), Bool(y)) => CompareInts(Byte(x), Byte(y))
    case (Str(x), Str(y)) => CompareTexts(x, y)
    case (Vector(_), Vector(_)) => Equal
    case _ => CompareInts(Kind(a), Kind(b))
  }

  // The first key that differs decides, turned round when it is descending.
  function CompareKeys(asc: seq<bool>, a: seq<Value>, b: seq<Value>): Ordering
    requires |a| == |b| == |asc|
  {
    if asc == [] then Equal
    else
      var o := CompareValues(a[0], b[0]);
      if o != Equal then (if asc[0] then o else Reverse(o)) else CompareKeys(asc[1..], a[1..], b[1..])
  }

  // What a comparison of three has to satisfy, given those of its neighbours.
  predicate Chains(xy: Ordering, yz: Ordering, xz: Ordering) {
    && (xy == Equal ==> xz == yz)
    && (yz == Equal ==> xz == xy)
    && (xy == yz ==> xz == xy)
  }

  lemma {:induction false} TextsReverse(a: bytes, b: bytes)
    ensures CompareTexts(b, a) == Reverse(CompareTexts(a, b))
    decreases |a|
  {
    if a != [] && b != [] && a[0] == b[0] {
      TextsReverse(a[1..], b[1..]);
    }
  }

  lemma {:induction false} TextsChain(a: bytes, b: bytes, c: bytes)
    ensures Chains(CompareTexts(a, b), CompareTexts(b, c), CompareTexts(a, c))
    decreases |a|
  {
    if a != [] && b != [] && c != [] && a[0] == b[0] && b[0] == c[0] {
      TextsChain(a[1..], b[1..], c[1..]);
    }
  }

  lemma ValuesReverse(a: Value, b: Value)
    ensures CompareValues(b, a) == Reverse(CompareValues(a, b))
  {
    if a.Str? && b.Str? {
      TextsReverse(a.s, b.s);
    }
  }

  lemma ValuesChain(a: Value, b: Value, c: Value)
    ensures Chains(CompareValues(a, b), CompareValues(b, c), CompareValues(a, c))
  {
    if a.Str? && b.Str? && c.Str? {
      TextsChain(a.s, b.s, c.s);
    }
  }

  lemma {:induction false} KeysReverse(asc: seq<bool>, a: seq<Value>, b: seq<Value>)
    requires |a| == |b| == |asc|
    ensures CompareKeys(asc, b, a) == Reverse(CompareKeys(asc, a, b))
  {
    hide CompareValues;
    if asc != [] {
      ValuesReverse(a[0], b[0]);
      KeysReverse(asc[1..], a[1..], b[1..]);
    }
  }

  lemma {:induction false} KeysChain(asc: seq<bool>, a: seq<Value>, b: seq<Value>, c: seq<Value>)
    requires |a| == |b| == |c| == |asc|
    ensures Chains(CompareKeys(asc, a, b), CompareKeys(asc, b, c), CompareKeys(asc, a, c))
  {
    hide CompareValues;
    if asc != [] {
      ValuesChain(a[0], b[0], c[0]);
      ValuesReverse(a[0], b[0]);
      ValuesReverse(b[0], c[0]);
      KeysChain(asc[1..], a[1..], b[1..], c[1..]);
    }
  }

  // The keys of every position of a selection, and the direction of each key.
  datatype Keys = Keys(asc: seq<bool>, rows: seq<seq<Value>>) {
    predicate Valid() {
      forall i :: 0 <= i < |rows| ==> |rows[i]| == |asc|
    }

    // The comparator: equal keys are told apart by position.
    predicate Precedes(i: nat, j: nat) {
      && Valid() && i < |rows| && j < |rows|
      && (match CompareKeys(asc, rows[i], rows[j])
          case Less => true
          case Equal => i < j
          case Greater => false)
    }
  }

  // The comparator is a strict total order on positions, whatever the keys are.
  lemma StrictTotalOrder(k: Keys, x: nat, y: nat, z: nat)
    requires k.Valid() && x < |k.rows| && y < |k.rows| && z < |k.rows|
    ensures !k.Precedes(x, x)
    ensures x != y ==> (k.Precedes(x, y) <==> !k.Precedes(y, x))
    ensures k.Precedes(x, y) && k.Precedes(y, z) ==> k.Precedes(x, z)
  {
    hide CompareKeys;
    KeysReverse(k.asc, k.rows[x], k.rows[x]);
    KeysReverse(k.asc, k.rows[x], k.rows[y]);
    KeysChain(k.asc, k.rows[x], k.rows[y], k.rows[z]);
  }

  // --- what the order means -------------------------------------------------------------------------

  lemma ValuesMeant(a: Value, b: Value)
    requires SameKind(a, b)
    ensures CompareValues(a, b) == Less <==> Smaller(a, b)
    ensures CompareValues(a, b) == Greater <==> Smaller(b, a)
    ensures CompareValues(a, b) == Equal <==> Tied(a, b)
  {
    if a.Str? {
      TextsCompared(a.s, b.s);
    }
  }

  lemma TiedHeads(x: seq<Value>, y: seq<Value>, k: nat)
    requires 0 < k <= |x| && k <= |y|
    ensures TiedTo(x, y, k) <==> Tied(x[0], y[0]) && TiedTo(x[1..], y[1..], k - 1)
  {
    hide Tied;
    assert forall m :: 0 < m < k ==> x[m] == x[1..][m - 1] && y[m] == y[1..][m - 1];
    assert forall m :: 0 <= m < k - 1 ==> x[1..][m] == x[m + 1] && y[1..][m] == y[m + 1];
  }

  lemma BeforeHeads(asc: seq<bool>, x: seq<Value>, y: seq<Value>)
    requires |x| == |y| == |asc| > 0
    ensures Before(asc, x, y) <==>
      if Tied(x[0], y[0]) then Before(asc[1..], x[1..], y[1..])
      else if asc[0] then Smaller(x[0], y[0]) else Smaller(y[0], x[0])
  {
    hide Tied, Smaller;
    if Tied(x[0], y[0]) {
      if Before(asc, x, y) {
        var k :| 0 <= k < |asc| && DecidedAt(asc, x, y, k);
        TiedHeads(x, y, k);
        assert DecidedAt(asc[1..], x[1..], y[1..], k - 1);
      }
      if Before(asc[1..], x[1..], y[1..]) {
        var k :| 0 <= k < |asc[1..]| && DecidedAt(asc[1..], x[1..], y[1..], k);
        TiedHeads(x, y, k + 1);
        assert DecidedAt(asc, x, y, k + 1);
      }
    } else {
      if Before(asc, x, y) {
        var k :| 0 <= k < |asc| && DecidedAt(asc, x, y, k);
        assert k == 0;
      }
      if (if asc[0] then Smaller(x[0], y[0]) else Smaller(y[0], x[0])) {
        assert DecidedAt(asc, x, y, 0);
      }
    }
  }

  // The comparator says which row comes first by the values of the keys.
  lemma {:induction false} KeysMeant(asc: seq<bool>, x: seq<Value>, y: seq<Value>)
    requires |x| == |y| == |asc| && SameKinds(x, y)
    ensures CompareKeys(asc, x, y) == Less <==> Before(asc, x, y)
    ensures CompareKeys(asc, x, y) == Equal <==> TiedTo(x, y, |asc|)
  {
    if asc != [] {
      ValuesMeant(x[0], y[0]);
      BeforeHeads(asc, x, y);
      TiedHeads(x, y, |asc|);
      KeysMeant(asc[1..], x[1..], y[1..]);
      hide CompareValues, Smaller, Tied, Before, SameKind;
    }
  }

  predicate OneKind(rows: seq<seq<Value>>) {
    forall i, j :: 0 <= i < |rows| && 0 <= j < |rows| ==> SameKinds(rows[i], rows[j])
  }

  lemma PrecedesMeans(k: Keys, i: nat, j: nat)
    requires k.Valid() && OneKind(k.rows) && i < |k.rows| && j < |k.rows|
    ensures k.Precedes(i, j) <==> InOrder(k.asc, k.rows, i, j)
  {
    KeysMeant(k.asc, k.rows[i], k.rows[j]);
    KeysReverse(k.asc, k.rows[i], k.rows[j]);
    hide CompareKeys, SameKinds, Before, TiedTo;
  }

  // --- sorting ------------------------------------------------------------------------------------

  predicate Within(k: Keys, s: seq<nat>) {
    k.Valid() && forall a :: 0 <= a < |s| ==> s[a] < |k.rows|
  }

  predicate Ordered(k: Keys, s: seq<nat>) {
    forall a, b :: 0 <= a < b < |s| ==> k.Precedes(s[a], s[b])
  }

  function Insert(k: Keys, x: nat, s: seq<nat>): seq<nat> {
    if s == [] || k.Precedes(x, s[0]) then [x] + s else [s[0]] + Insert(k, x, s[1..])
  }

  // The full sort.
  function Sorted(k: Keys, s: seq<nat>): seq<nat> {
    if s == [] then [] else Insert(k, s[0], Sorted(k, s[1..]))
  }

  lemma ConsOrdered(k: Keys, x: nat, t: seq<nat>)
    requires Ordered(k, t) && forall b :: 0 <= b < |t| ==> k.Precedes(x, t[b])
    ensures Ordered(k, [x] + t)
  {
  }

  lemma TailOrdered(k: Keys, s: seq<nat>)
    requires Ordered(k, s) && Within(k, s) && s != []
    ensures Ordered(k, s[1..]) && Within(k, s[1..]) && s == [s[0]] + s[1..]
    ensures forall b :: 0 <= b < |s[1..]| ==> k.Precedes(s[0], s[1..][b])
  {
  }

  lemma {:induction false} InsertOrdered(k: Keys, x: nat, s: seq<nat>)
    requires Within(k, s) && x < |k.rows| && Ordered(k, s) && x !in s
    ensures multiset(Insert(k, x, s)) == multiset([x]) + multiset(s)
    ensures Ordered(k, Insert(k, x, s))
  {
    if s == [] || k.Precedes(x, s[0]) {
      forall b | 0 <= b < |s| ensures k.Precedes(x, s[b]) {
        if b > 0 {
          StrictTotalOrder(k, x, s[0], s[b]);
        }
      }
      ConsOrdered(k, x, s);
    } else {
      StrictTotalOrder(k, s[0], x, x);
      TailOrdered(k, s);
      assert x !in s[1..];
      hide Ordered, Within, Keys.Precedes;
      InsertOrdered(k, x, s[1..]);
      var t := Insert(k, x, s[1..]);
      forall b | 0 <= b < |t| ensures k.Precedes(s[0], t[b]) {
        assert t[b] in multiset(t);
        assert t[b] == x || t[b] in s[1..];
      }
      ConsOrdered(k, s[0], t);
    }
  }

  predicate Distinct(s: seq<nat>) {
    forall a, b :: 0 <= a < b < |s| ==> s[a] != s[b]
  }

  lemma {:induction false} SortedIsOrdered(k: Keys, s: seq<nat>)
    requires Within(k, s) && Distinct(s)
    ensures Ordered(k, Sorted(k, s)) && multiset(Sorted(k, s)) == multiset(s)
    ensures Within(k, Sorted(k, s))
  {
    if s != [] {
      SortedIsOrdered(k, s[1..]);
      var t := Sorted(k, s[1..]);
      assert s == [s[0]] + s[1..];
      assert s[0] !in multiset(t);
      InsertOrdered(k, s[0], t);
      SamePlaces(k, s, Sorted(k, s));
    }
  }

  lemma SamePlaces(k: Keys, s: seq<nat>, t: seq<nat>)
    requires Within(k, s) && multiset(s) == multiset(t)
    ensures Within(k, t) && |s| == |t|
  {
    assert |multiset(s)| == |s| && |multiset(t)| == |t|;
    forall a | 0 <= a < |t| ensures t[a] < |k.rows| {
      assert t[a] in multiset(t);
      assert t[a] in s;
    }
  }

  lemma SameLeast(k: Keys, s: seq<nat>, t: seq<nat>)
    requires Within(k, s) && Ordered(k, s) && Within(k, t) && Ordered(k, t)
    requires multiset(s) == multiset(t) && s != [] && t != []
    ensures s[0] == t[0]
  {
    assert s[0] in multiset(t) && t[0] in multiset(s);
    StrictTotalOrder(k, s[0], t[0], t[0]);
  }

  // A set of positions has one ordered arrangement.
  lemma {:induction false} OneOrder(k: Keys, s: seq<nat>, t: seq<nat>)
    requires Within(k, s) && Ordered(k, s) && Ordered(k, t) && multiset(s) == multiset(t)
    ensures s == t
  {
    SamePlaces(k, s, t);
    if s != [] {
      SameLeast(k, s, t);
      TailOrdered(k, s);
      TailOrdered(k, t);
      hide Ordered, Within;
      SameTails(s, t);
      OneOrder(k, s[1..], t[1..]);
    }
  }

  lemma SameTails(s: seq<nat>, t: seq<nat>)
    requires s != [] && t != [] && s[0] == t[0] && multiset(s) == multiset(t)
    ensures multiset(s[1..]) == multiset(t[1..])
  {
    assert s == [s[0]] + s[1..] && t == [t[0]] + t[1..];
    assert multiset(s[1..]) == multiset(s) - multiset([s[0]]);
    assert multiset(t[1..]) == multiset(t) - multiset([t[0]]);
  }

  // --- selecting the first rows --------------------------------------------------------------------

  // What selecting entry `n` promises: it is in its final place, with the lower ones before it.
  predicate Selected(k: Keys, s: seq<nat>, n: nat) {
    && n < |s|
    && (forall a :: 0 <= a < n ==> k.Precedes(s[a], s[n]))
    && (forall b :: n < b < |s| ==> k.Precedes(s[n], s[b]))
  }

  // What was selected precedes the rest.
  lemma SelectedFirst(k: Keys, r: seq<nat>, n: nat, x: nat, y: nat)
    requires Within(k, r) && Selected(k, r, n) && x in r[..n] && y in r[n..]
    ensures k.Precedes(x, y)
  {
    StrictTotalOrder(k, x, r[n], y);
  }

  lemma JoinOrdered(k: Keys, s: seq<nat>, t: seq<nat>)
    requires Ordered(k, s) && Ordered(k, t)
    requires forall x: nat, y: nat :: x in s && y in t ==> k.Precedes(x, y)
    ensures Ordered(k, s + t)
  {
  }

  lemma BagIn(a: seq<nat>, b: seq<nat>, x: nat)
    requires multiset(a) == multiset(b) && x in a
    ensures x in b
  {
    assert x in multiset(b);
  }

  lemma BagJoin(r: seq<nat>, n: nat, top: seq<nat>, rest: seq<nat>)
    requires n <= |r| && multiset(top) == multiset(r[..n]) && multiset(rest) == multiset(r[n..])
    ensures multiset(top + rest) == multiset(r)
  {
    assert r == r[..n] + r[n..];
  }

  // Select, truncate and sort gives the beginning of the full sort: for any arrangement that a
  // selection may leave, and any order that a sort may make of its first `n` entries.
  lemma TopIsPrefix(k: Keys, s: seq<nat>, r: seq<nat>, n: nat, top: seq<nat>)
    requires Within(k, s) && Distinct(s)
    requires multiset(r) == multiset(s) && Selected(k, r, n)
    requires multiset(top) == multiset(r[..n]) && Ordered(k, top)
    ensures n < |s| && |Sorted(k, s)| == |s| && top == Sorted(k, s)[..n]
  {
    SamePlaces(k, s, r);
    SamePlaces(k, r[..n], top);
    DistinctAgain(s, r);
    var rest := Sorted(k, r[n..]);
    SortedIsOrdered(k, r[n..]);
    SortedIsOrdered(k, s);
    SamePlaces(k, s, Sorted(k, s));
    assert Within(k, top + rest);
    hide Ordered, Selected, Keys.Precedes, Within, Distinct, Sorted;
    forall x: nat, y: nat | x in top && y in rest ensures k.Precedes(x, y) {
      BagIn(top, r[..n], x);
      BagIn(rest, r[n..], y);
      SelectedFirst(k, r, n, x, y);
    }
    JoinOrdered(k, top, rest);
    BagJoin(r, n, top, rest);
    OneOrder(k, top + rest, Sorted(k, s));
  }

  lemma {:induction false} DistinctAgain(s: seq<nat>, t: seq<nat>)
    requires Distinct(s) && multiset(s) == multiset(t)
    ensures Distinct(t)
  {
    forall a, b | 0 <= a < b < |t| ensures t[a] != t[b] {
      if t[a] == t[b] {
        assert t == t[..a] + [t[a]] + t[a + 1..b] + [t[b]] + t[b + 1..];
        assert multiset(t)[t[a]] >= 2;
        OnceEach(s, t[a]);
        assert false;
      }
    }
  }

  lemma {:induction false} OnceEach(s: seq<nat>, x: nat)
    requires Distinct(s)
    ensures multiset(s)[x] <= 1
  {
    if s != [] {
      OnceEach(s[1..], x);
      assert s == [s[0]] + s[1..];
      assert x == s[0] ==> x !in multiset(s[1..]);
    }
  }

  // --- the rows to return ----------------------------------------------------------------------------

  function Min(a: nat, b: nat): nat {
    if a < b then a else b
  }

  // The entries that OFFSET and LIMIT leave.
  function Window<T>(s: seq<T>, limit: Option<nat>, offset: nat): seq<T> {
    var start := Min(offset, |s|);
    match limit
    case None => s[start..]
    case Some(l) => s[start..Min(start + l, |s|)]
  }

  // The window depends on the first `offset + limit` entries only.
  lemma WindowOfTop<T>(s: seq<T>, limit: nat, offset: nat)
    ensures Window(s[..Min(offset + limit, |s|)], Some(limit), offset) == Window(s, Some(limit), offset)
  {
  }

  lemma WindowCuts<T>(s: seq<T>, limit: Option<nat>, offset: nat)
    ensures Cut(s, limit, offset, Window(s, limit, offset))
  {
  }

  function Iota(n: nat): (r: seq<nat>)
    ensures |r| == n && forall i :: 0 <= i < n ==> r[i] == i
  {
    seq(n, i => i)
  }

  lemma PermuteRows(sel: Sel, order: seq<nat>, nrows: nat)
    requires SelOk(sel, nrows) && nrows <= TWO32 && Reaches(order, sel.Len())
    ensures SelOk(sel.Permute(order), nrows) && Rows(sel.Permute(order)) == Pick(Rows(sel), order)
  {
    SelRows(sel, nrows);
  }

  // The keys have one entry for each position: there is no broadcast here. An empty selection is
  // never compared.
  predicate PerRow(arrays: seq<Arr>, n: nat) {
    forall k :: 0 <= k < |arrays| ==> (n > 0 ==> arrays[k].Len() == n) && Clean(arrays[k])
  }

  function KeysOf(arrays: seq<Arr>, asc: seq<bool>, n: nat): (k: Keys)
    requires PerRow(arrays, n) && |asc| == |arrays|
    ensures k.Valid() && |k.rows| == n && k.asc == asc
    ensures forall i :: 0 <= i < n ==> k.rows[i] == ValuesAt(arrays, i)
  {
    Keys(asc, seq(n, i requires 0 <= i < n => ValuesAt(arrays, i)))
  }

  // `cmp_arr`.
  function CmpArr(a: Arr, i: nat, j: nat): Ordering
    requires i < a.Len() && j < a.Len()
  {
    match a
    case I64(v) => CompareInts(v[i], v[j])
    case F64(v) => CompareInts(TotalKey(v[i]), TotalKey(v[j]))
    case Bool(v) => CompareInts(v[i], v[j])
    case Str(v) => CompareTexts(v[i], v[j])
    case Vector(_, _) => Equal
  }

  lemma CmpArrValues(a: Arr, i: nat, j: nat)
    requires i < a.Len() && j < a.Len() && Clean(a)
    ensures CmpArr(a, i, j) == CompareValues(a.Value(i), a.Value(j))
  {
  }

  // The comparator, key by key and then by position.
  method Compare(arrays: seq<Arr>, asc: seq<bool>, n: nat, a: nat, b: nat) returns (o: Ordering)
    requires PerRow(arrays, n) && |asc| == |arrays| && a < n && b < n
    ensures o == Less <==> KeysOf(arrays, asc, n).Precedes(a, b)
  {
    ghost var x, y := ValuesAt(arrays, a), ValuesAt(arrays, b);
    for k := 0 to |arrays|
      invariant CompareKeys(asc, x, y) == CompareKeys(asc[k..], x[k..], y[k..])
    {
      CmpArrValues(arrays[k], a, b);
      var c := CmpArr(arrays[k], a, b);
      assert asc[k..][1..] == asc[k + 1..] && x[k..][1..] == x[k + 1..] && y[k..][1..] == y[k + 1..];
      if c != Equal {
        return if asc[k] then c else Reverse(c);
      }
    }
    return CompareInts(a, b);
  }

  lemma Prepend(h: nat, a: seq<nat>, b: seq<nat>)
    ensures [h] + (a + b) == ([h] + a) + b
  {
  }

  lemma {:induction false} InsertAfter(k: Keys, x: nat, s: seq<nat>, p: nat)
    requires p <= |s| && forall a :: 0 <= a < p ==> !k.Precedes(x, s[a])
    ensures Insert(k, x, s) == s[..p] + Insert(k, x, s[p..])
  {
    hide Keys.Precedes;
    if p > 0 {
      InsertAfter(k, x, s[1..], p - 1);
      assert s[1..][p - 1..] == s[p..];
      assert s[..p] == [s[0]] + s[1..][..p - 1];
      Prepend(s[0], s[1..][..p - 1], Insert(k, x, s[p..]));
    } else {
      assert s[p..] == s;
    }
  }

  // The number of entries that `x` comes after.
  method Place(arrays: seq<Arr>, asc: seq<bool>, n: nat, x: nat, r: seq<nat>) returns (p: nat)
    requires PerRow(arrays, n) && |asc| == |arrays| && Within(KeysOf(arrays, asc, n), r) && x < n
    ensures p <= |r| && Insert(KeysOf(arrays, asc, n), x, r) == r[..p] + [x] + r[p..]
  {
    ghost var k := KeysOf(arrays, asc, n);
    p := 0;
    var stop := false;
    while p < |r| && !stop
      invariant 0 <= p <= |r| && forall a :: 0 <= a < p ==> !k.Precedes(x, r[a])
      invariant stop ==> p < |r| && k.Precedes(x, r[p])
      decreases |r| - p, !stop
    {
      var o := Compare(arrays, asc, n, x, r[p]);
      if o == Less {
        stop := true;
      } else {
        p := p + 1;
      }
    }
    InsertAfter(k, x, r, p);
  }

  // The library's sort. Its caller relies on the contract alone.
  method SortBy(arrays: seq<Arr>, asc: seq<bool>, n: nat, idx: seq<nat>) returns (r: seq<nat>)
    requires PerRow(arrays, n) && |asc| == |arrays| && Within(KeysOf(arrays, asc, n), idx) && Distinct(idx)
    ensures multiset(r) == multiset(idx) && Ordered(KeysOf(arrays, asc, n), r)
  {
    ghost var k := KeysOf(arrays, asc, n);
    hide PerRow, Ordered, Insert;
    r := [];
    var i := |idx|;
    while i > 0
      invariant 0 <= i <= |idx| && r == Sorted(k, idx[i..])
    {
      SortedIsOrdered(k, idx[i..]);
      i := i - 1;
      assert idx[i..][0] == idx[i] && idx[i..][1..] == idx[i + 1..];
      var p := Place(arrays, asc, n, idx[i], r);
      r := r[..p] + [idx[i]] + r[p..];
    }
    SortedIsOrdered(k, idx);
    assert idx[0..] == idx;
  }

  // The library's selection of entry `nth`, likewise.
  method SelectNth(arrays: seq<Arr>, asc: seq<bool>, n: nat, idx: seq<nat>, nth: nat) returns (r: seq<nat>)
    requires PerRow(arrays, n) && |asc| == |arrays| && Within(KeysOf(arrays, asc, n), idx) && Distinct(idx)
    requires nth < |idx|
    ensures multiset(r) == multiset(idx) && Selected(KeysOf(arrays, asc, n), r, nth)
  {
    r := SortBy(arrays, asc, n, idx);
    assert |multiset(r)| == |r| && |multiset(idx)| == |idx|;
  }

  // Without keys the order is that of insertion.
  lemma NoKeys(n: nat)
    ensures PerRow([], n) && Sorted(KeysOf([], [], n), Iota(n)) == Iota(n)
  {
    var k := KeysOf([], [], n);
    SortedIsOrdered(k, Iota(n));
    OneOrder(k, Sorted(k, Iota(n)), Iota(n));
  }

  function KeyExprs(keys: seq<OrderKey>): (es: seq<Expr>)
    ensures |es| == |keys| && forall i :: 0 <= i < |keys| ==> es[i] == keys[i].expr
  {
    seq(|keys|, i requires 0 <= i < |keys| => keys[i].expr)
  }

  function Directions(keys: seq<OrderKey>): (ds: seq<bool>)
    ensures |ds| == |keys| && forall i :: 0 <= i < |keys| ==> ds[i] == keys[i].asc
  {
    seq(|keys|, i requires 0 <= i < |keys| => keys[i].asc)
  }

  // The positions in the order of the full sort.
  function FullOrder(arrays: seq<Arr>, asc: seq<bool>, n: nat): (r: seq<nat>)
    requires PerRow(arrays, n) && |asc| == |arrays|
    ensures Within(KeysOf(arrays, asc, n), r) && Ordered(KeysOf(arrays, asc, n), r)
    ensures multiset(r) == multiset(Iota(n)) && |r| == n
  {
    var k := KeysOf(arrays, asc, n);
    SortedIsOrdered(k, Iota(n));
    SamePlaces(k, Iota(n), Sorted(k, Iota(n)));
    Sorted(k, Iota(n))
  }

  lemma {:induction false} OnceInOrder(k: Keys, s: seq<nat>)
    requires Within(k, s) && OneKind(k.rows) && AllOnce(s, |k.rows|) && Ordered(k, s)
    ensures Arranged(k.asc, k.rows, s)
  {
    hide Keys.Precedes, InOrder, OneKind;
    forall a, b | 0 <= a < b < |s| ensures InOrder(k.asc, k.rows, s[a], s[b]) {
      assert k.Precedes(s[a], s[b]);
      PrecedesMeans(k, s[a], s[b]);
    }
  }

  // The full sort arranges all positions by the values of the keys.
  lemma SortArranges(k: Keys, s: seq<nat>)
    requires k.Valid() && OneKind(k.rows) && Within(k, s) && Ordered(k, s)
    requires multiset(s) == multiset(Iota(|k.rows|))
    ensures Arranged(k.asc, k.rows, s)
  {
    SamePlaces(k, Iota(|k.rows|), s);
    DistinctAgain(Iota(|k.rows|), s);
    OnceInOrder(k, s);
  }

  lemma ArraysOneKind(arrays: seq<Arr>, asc: seq<bool>, n: nat)
    requires PerRow(arrays, n) && |asc| == |arrays|
    ensures OneKind(KeysOf(arrays, asc, n).rows)
  {
  }

  // The rows come out sorted by the values of their keys, and OFFSET and LIMIT count from there.
  ghost predicate SortedRows(rows: seq<nat>, asc: seq<bool>, keys: seq<seq<Value>>, limit: Option<nat>, offset: nat,
                             r: seq<nat>)
    requires |keys| == |rows| && Widths(keys, |asc|)
  {
    exists order: seq<nat> :: Arranged(asc, keys, order) && Cut(Pick(rows, order), limit, offset, r)
  }

  lemma PickWindow(rows: seq<nat>, order: seq<nat>, limit: Option<nat>, offset: nat)
    requires Reaches(order, |rows|)
    ensures Reaches(Window(order, limit, offset), |rows|)
    ensures Pick(rows, Window(order, limit, offset)) == Window(Pick(rows, order), limit, offset)
  {
  }

  lemma FullOrderSorts(rows: seq<nat>, arrays: seq<Arr>, asc: seq<bool>, limit: Option<nat>, offset: nat)
    requires PerRow(arrays, |rows|) && |asc| == |arrays|
    ensures var order := FullOrder(arrays, asc, |rows|);
      && Reaches(Window(order, limit, offset), |rows|)
      && SortedRows(rows, asc, KeysOf(arrays, asc, |rows|).rows, limit, offset,
                    Pick(rows, Window(order, limit, offset)))
  {
    hide Arranged, PerRow, FullOrder, Ordered, Cut, Window;
    var order, k := FullOrder(arrays, asc, |rows|), KeysOf(arrays, asc, |rows|);
    ArraysOneKind(arrays, asc, |rows|);
    SortArranges(k, order);
    PickWindow(rows, order, limit, offset);
    WindowCuts(Pick(rows, order), limit, offset);
  }

  // The shorter path: select, truncate, sort.
  method FirstPositions(arrays: seq<Arr>, asc: seq<bool>, n: nat, nth: nat) returns (idx: seq<nat>)
    requires PerRow(arrays, n) && |asc| == |arrays| && nth < n
    ensures idx == FullOrder(arrays, asc, n)[..nth]
  {
    ghost var k := KeysOf(arrays, asc, n);
    var picked := SelectNth(arrays, asc, n, Iota(n), nth);
    SamePlaces(k, Iota(n), picked);
    DistinctAgain(Iota(n), picked);
    hide PerRow, Ordered, Selected, KeysOf;
    assert Within(k, picked[..nth]) && Distinct(picked[..nth]);
    idx := SortBy(arrays, asc, n, picked[..nth]);
    TopIsPrefix(k, Iota(n), picked, nth, idx);
  }

  // The positions to return: the shorter path when a small part is asked for.
  method TopPositions(arrays: seq<Arr>, asc: seq<bool>, n: nat, limit: Option<nat>, offset: nat) returns (r: seq<nat>)
    requires PerRow(arrays, n) && |asc| == |arrays|
    ensures r == Window(FullOrder(arrays, asc, n), limit, offset)
  {
    ghost var full := FullOrder(arrays, asc, n);
    hide PerRow, Ordered, KeysOf, Within, Distinct, Window, FullOrder;
    var idx: seq<nat>;
    if limit.Some? && Min(offset + limit.value, n) * 4 < n {
      idx := FirstPositions(arrays, asc, n, Min(offset + limit.value, n));
      WindowOfTop(full, limit.value, offset);
    } else {
      SortedFully(arrays, asc, n);
      idx := SortBy(arrays, asc, n, Iota(n));
      OneOrder(KeysOf(arrays, asc, n), full, idx);
    }
    r := Window(idx, limit, offset);
  }

  lemma SortedFully(arrays: seq<Arr>, asc: seq<bool>, n: nat)
    requires PerRow(arrays, n) && |asc| == |arrays|
    ensures Within(KeysOf(arrays, asc, n), Iota(n)) && Distinct(Iota(n))
    ensures FullOrder(arrays, asc, n) == Sorted(KeysOf(arrays, asc, n), Iota(n))
  {
  }

  lemma NoKeysOrder(ops: Ops, f: Frame, nrows: nat, sel: Sel)
    requires FrameValid(f, nrows) && SelOk(sel, nrows)
    ensures KeyExprs([]) == [] && Directions([]) == [] && EvalAll(ops, [], f, nrows, sel) == Ok([])
    ensures PerRow([], sel.Len()) && FullOrder([], [], sel.Len()) == Iota(sel.Len())
  {
    NoKeys(sel.Len());
  }

  lemma RowsOfAll(sel: Sel)
    ensures Pick(Rows(sel), Iota(sel.Len())) == Rows(sel)
  {
  }

  // `order_and_limit`: whichever path is taken, the rows are the window of the full sort.
  method OrderAndLimit(ops: Ops, f: Frame, nrows: nat, sel: Sel, keys: seq<OrderKey>, limit: Option<nat>, offset: nat)
    returns (r: Result<Sel>)
    requires FrameValid(f, nrows) && SelOk(sel, nrows) && nrows <= TWO32
    requires var arrays := EvalAll(ops, KeyExprs(keys), f, nrows, sel); arrays.Ok? ==> PerRow(arrays.value, sel.Len())
    ensures var arrays := EvalAll(ops, KeyExprs(keys), f, nrows, sel);
      if arrays.Err? then r.Err?
      else
        && r.Ok? && SelOk(r.value, nrows)
        && Rows(r.value)
           == Pick(Rows(sel), Window(FullOrder(arrays.value, Directions(keys), sel.Len()), limit, offset))
        && SortedRows(Rows(sel), Directions(keys), KeysOf(arrays.value, Directions(keys), sel.Len()).rows, limit,
                      offset, Rows(r.value))
  {
    hide EvalAll, FrameValid, FullOrder, PerRow, Sel.Permute, Pick, Rows, SelOk, SortedRows, KeysOf;
    if keys == [] {
      var n := sel.Len();
      NoKeysOrder(ops, f, nrows, sel);
      FullOrderSorts(Rows(sel), [], [], limit, offset);
      RowsOfAll(sel);
      var start := Min(offset, n);
      var end := if limit.None? then n else Min(start + limit.value, n);
      PermuteRows(sel, Iota(n)[start..end], nrows);
      if start == 0 && end == n {
        return Ok(sel);
      }
      return Ok(sel.Permute(Iota(n)[start..end]));
    }
    var arrays :- EvalAll(ops, KeyExprs(keys), f, nrows, sel);
    var order := TopPositions(arrays, Directions(keys), sel.Len(), limit, offset);
    FullOrderSorts(Rows(sel), arrays, Directions(keys), limit, offset);
    PermuteRows(sel, order, nrows);
    r := Ok(sel.Permute(order));
  }
}
