/**
 Grouping of rows by their keys (`src/exec.rs`): keys are glued into byte strings, and rows whose
 strings are equal get one number.
 */
module Groups {
  import opened Bytes
  import opened Wrappers
  import opened Columns
  import opened Arrays
  import opened Functions

  // --- numbering by first appearance -----------------------------------------------------------------

  // The different entries in the order of their first appearance.
  function Uniques<K(==)>(ks: seq<K>): seq<K> {
    if ks == [] then []
    else
      var last := ks[|ks| - 1];
      var u := Uniques(ks[..|ks| - 1]);
      if last in u then u else u + [last]
  }

  function IndexOf<K(==)>(u: seq<K>, x: K): (i: nat)
    ensures x in u ==> i < |u| && u[i] == x && forall j :: 0 <= j < i ==> u[j] != x
  {
    if u == [] then 0 else if u[0] == x then 0 else 1 + IndexOf(u[1..], x)
  }

  // The number of each entry.
  function Numbered<K(==)>(ks: seq<K>): (ids: seq<nat>)
    ensures |ids| == |ks| && forall i :: 0 <= i < |ks| ==> ids[i] == IndexOf(Uniques(ks), ks[i])
  {
    seq(|ks|, i requires 0 <= i < |ks| => IndexOf(Uniques(ks), ks[i]))
  }

  lemma {:induction false} UniquesHold<K>(ks: seq<K>)
    ensures forall x :: x in Uniques(ks) <==> x in ks
    ensures forall i, j :: 0 <= i < j < |Uniques(ks)| ==> Uniques(ks)[i] != Uniques(ks)[j]
  {
    if ks != [] {
      UniquesHold(ks[..|ks| - 1]);
      assert ks == ks[..|ks| - 1] + [ks[|ks| - 1]];
    }
  }

  // A row that has the given number.
  lemma {:induction false} Source<K>(ks: seq<K>, g: nat) returns (i: nat)
    requires g < |Uniques(ks)|
    ensures i < |ks| && ks[i] == Uniques(ks)[g]
  {
    var n := |ks| - 1;
    if g < |Uniques(ks[..n])| {
      i := Source(ks[..n], g);
    } else {
      i := n;
    }
  }

  lemma {:induction false} UniquesPrefix<K>(ks: seq<K>, i: nat)
    requires i <= |ks|
    ensures Uniques(ks[..i]) <= Uniques(ks)
    decreases |ks| - i
  {
    if i < |ks| {
      UniquesPrefix(ks, i + 1);
      assert ks[..i + 1][..i] == ks[..i];
    } else {
      assert ks[..i] == ks;
    }
  }

  // Two rows share a number exactly when their keys are equal; the numbers are 0, 1, .. without
  // a gap; and every number is first given after all smaller ones were.
  lemma GroupingExact<K>(ks: seq<K>)
    ensures var ids := Numbered(ks);
      && (forall i, j :: 0 <= i < |ks| && 0 <= j < |ks| ==> (ids[i] == ids[j] <==> ks[i] == ks[j]))
      && (forall i :: 0 <= i < |ks| ==> ids[i] < |Uniques(ks)|)
      && (forall g :: 0 <= g < |Uniques(ks)| ==> g in ids)
  {
    UniquesHold(ks);
    var u, ids := Uniques(ks), Numbered(ks);
    forall g | 0 <= g < |u| ensures g in ids {
      var i := Source(ks, g);
      assert ids[i] == g;
    }
  }

  lemma IndexInPrefix<K>(w: seq<K>, u: seq<K>, x: K)
    requires w <= u && x in w
    ensures IndexOf(u, x) < |w|
  {
    var i := IndexOf(w, x);
    assert u[i] == x;
  }

  lemma FirstAppearance<K>(ks: seq<K>, i: nat, g: nat)
    requires i < |ks| && g < Numbered(ks)[i]
    ensures g in Numbered(ks)[..i]
  {
    var before, after := Uniques(ks[..i]), Uniques(ks[..i + 1]);
    UniquesPrefix(ks, i);
    UniquesPrefix(ks, i + 1);
    UniquesHold(ks[..i]);
    UniquesHold(ks[..i + 1]);
    assert ks[..i + 1][i] == ks[i] && ks[..i + 1][..i] == ks[..i];
    IndexInPrefix(after, Uniques(ks), ks[i]);
    var j := Source(ks[..i], g);
    NumberOf(ks, j, g);
    assert Numbered(ks)[..i][j] == g;
  }

  lemma NumberOf<K>(ks: seq<K>, i: nat, g: nat)
    requires i < |ks| && g < |Uniques(ks)| && Uniques(ks)[g] == ks[i]
    ensures Numbered(ks)[i] == g
  {
    UniquesHold(ks);
    assert Uniques(ks)[g] in Uniques(ks);
  }

  // --- the bytes of a key ------------------------------------------------------------------------------

  // The length of a string, cut to 32 bits.
  function LenTag(s: bytes): (b: bytes)
    ensures |b| == 4
  {
    Le(|s| % TWO32, 4)
  }

  // One key of a row.
  function KeyPart(a: Arr, i: nat): bytes
    requires a.Len() == 1 || i < a.Len()
  {
    match a
    case I64(v) => Le(AsU64(At(v, i)), 8)
    case F64(v) => Le(At(v, i), 8)
    case Bool(v) => [At(v, i)]
    case Str(v) => LenTag(At(v, i)) + At(v, i)
    case Vector(_, _) => []
  }

  predicate InReach(keys: seq<Arr>, i: nat) {
    forall k :: 0 <= k < |keys| ==> keys[k].Len() == 1 || i < keys[k].Len()
  }

  function KeyBytes(keys: seq<Arr>, i: nat): bytes
    requires InReach(keys, i)
  {
    if keys == [] then [] else KeyPart(keys[0], i) + KeyBytes(keys[1..], i)
  }

  // Keys that grouping takes: no vectors, clean booleans, strings of fewer than 2^32 bytes.
  predicate Groupable(a: Arr) {
    && !a.Vector? && Clean(a)
    && (a.Str? ==> forall i :: 0 <= i < |a.ss| ==> |a.ss[i]| < TWO32)
  }

  lemma LeSame(a: nat, b: nat, k: nat)
    requires a < Pow256(k) && b < Pow256(k)
    ensures Le(a, k) == Le(b, k) <==> a == b
  {
    LeRoundTrip(a, k);
    LeRoundTrip(b, k);
  }

  lemma SplitSame(a: bytes, b: bytes, x: bytes, y: bytes)
    requires |a| == |b|
    ensures a + x == b + y <==> a == b && x == y
  {
    if a + x == b + y {
      assert a == (a + x)[..|a|] && b == (b + y)[..|b|];
      assert x == (a + x)[|a|..] && y == (b + y)[|b|..];
    }
  }

  // Two strings, each after a prefix that tells their lengths.
  lemma LengthFirst(a: bytes, b: bytes, s: bytes, t: bytes, x: bytes, y: bytes)
    requires |a| == |b| && (a == b <==> |s| == |t|)
    ensures a + s + x == b + t + y <==> s == t && x == y
  {
    Assoc(a, s, x);
    Assoc(b, t, y);
    SplitSame(a, b, s + x, t + y);
    if |s| == |t| {
      SplitSame(s, t, x, y);
    }
  }

  lemma TagSame(s: bytes, t: bytes)
    requires |s| < TWO32 && |t| < TWO32
    ensures LenTag(s) == LenTag(t) <==> |s| == |t|
  {
    hide Le, UnLe;
    U32RoundTrip(|s|);
    U32RoundTrip(|t|);
  }

  lemma TextsApart(s: bytes, t: bytes, x: bytes, y: bytes)
    requires |s| < TWO32 && |t| < TWO32
    ensures LenTag(s) + s + x == LenTag(t) + t + y <==> s == t && x == y
  {
    TagSame(s, t);
    hide LenTag;
    LengthFirst(LenTag(s), LenTag(t), s, t, x, y);
  }

  // No part is the beginning of another part, so what follows stays apart from it.
  lemma PartsApart(a: Arr, i: nat, j: nat, x: bytes, y: bytes)
    requires Groupable(a) && (a.Len() == 1 || (i < a.Len() && j < a.Len()))
    ensures KeyPart(a, i) + x == KeyPart(a, j) + y <==> a.Value(i) == a.Value(j) && x == y
  {
    Pow256Values();
    hide Le;
    match a
    case I64(v) =>
      LeSame(AsU64(At(v, i)), AsU64(At(v, j)), 8);
      SplitSame(KeyPart(a, i), KeyPart(a, j), x, y);
    case F64(v) =>
      LeSame(At(v, i), At(v, j), 8);
      SplitSame(KeyPart(a, i), KeyPart(a, j), x, y);
    case Bool(v) =>
      SplitSame(KeyPart(a, i), KeyPart(a, j), x, y);
    case Str(v) =>
      TextsApart(At(v, i), At(v, j), x, y);
  }

  // The encoding tells apart exactly the rows whose keys differ.
  lemma {:induction false} KeyBytesInjective(keys: seq<Arr>, i: nat, j: nat)
    requires InReach(keys, i) && InReach(keys, j) && forall k :: 0 <= k < |keys| ==> Groupable(keys[k])
    ensures KeyBytes(keys, i) == KeyBytes(keys, j) <==> ValuesAt(keys, i) == ValuesAt(keys, j)
  {
    hide KeyPart, Groupable, Arr.Value, Arr.Len;
    if keys != [] {
      KeyBytesInjective(keys[1..], i, j);
      assert Groupable(keys[0]);
      PartsApart(keys[0], i, j, KeyBytes(keys[1..], i), KeyBytes(keys[1..], j));
      assert ValuesAt(keys, i) == [keys[0].Value(i)] + ValuesAt(keys[1..], i);
      assert ValuesAt(keys, j) == [keys[0].Value(j)] + ValuesAt(keys[1..], j);
    } else {
      assert ValuesAt(keys, i) == ValuesAt(keys, j);
    }
  }

  // --- assigning groups -----------------------------------------------------------------------------

  // The byte strings and the key values of the rows.
  function KeyStrings(keys: seq<Arr>, n: nat): (r: seq<bytes>)
    requires forall i :: 0 <= i < n ==> InReach(keys, i)
    ensures |r| == n && forall i :: 0 <= i < n ==> r[i] == KeyBytes(keys, i)
  {
    seq(n, i requires 0 <= i < n => KeyBytes(keys, i))
  }

  function KeyRows(keys: seq<Arr>, n: nat): (r: seq<seq<Value>>)
    requires forall i :: 0 <= i < n ==> InReach(keys, i)
    ensures |r| == n && forall i :: 0 <= i < n ==> InReach(keys, i) && r[i] == ValuesAt(keys, i)
  {
    seq(n, i requires 0 <= i < n => assert InReach(keys, i); ValuesAt(keys, i))
  }

  // Lists that agree on which entries are equal are numbered alike.
  lemma {:induction false} NumberedAlike<K, L>(ks: seq<K>, ls: seq<L>)
    requires |ks| == |ls|
    requires forall i, j :: 0 <= i < |ks| && 0 <= j < |ks| ==> (ks[i] == ks[j] <==> ls[i] == ls[j])
    ensures |Uniques(ks)| == |Uniques(ls)|
    ensures forall i, g :: 0 <= i < |ks| && 0 <= g < |Uniques(ks)| ==>
      (Uniques(ks)[g] == ks[i] <==> Uniques(ls)[g] == ls[i])
  {
    if ks != [] {
      var n := |ks| - 1;
      NumberedAlike(ks[..n], ls[..n]);
      UniquesHold(ks[..n]);
      UniquesHold(ls[..n]);
      LastAlike(ks, ls);
    }
  }

  lemma LastAlike<K, L>(ks: seq<K>, ls: seq<L>)
    requires |ks| == |ls| > 0
    requires forall i, j :: 0 <= i < |ks| && 0 <= j < |ks| ==> (ks[i] == ks[j] <==> ls[i] == ls[j])
    requires var n := |ks| - 1; var u, w := Uniques(ks[..n]), Uniques(ls[..n]);
      && |u| == |w| && (forall x :: x in u <==> x in ks[..n]) && (forall x :: x in w <==> x in ls[..n])
      && forall i, g :: 0 <= i < n && 0 <= g < |u| ==> (u[g] == ks[..n][i] <==> w[g] == ls[..n][i])
    ensures |Uniques(ks)| == |Uniques(ls)|
    ensures forall i, g :: 0 <= i < |ks| && 0 <= g < |Uniques(ks)| ==>
      (Uniques(ks)[g] == ks[i] <==> Uniques(ls)[g] == ls[i])
  {
    var n := |ks| - 1;
    var u, w := Uniques(ks[..n]), Uniques(ls[..n]);
    forall g | 0 <= g < |u| ensures exists i :: 0 <= i < n && u[g] == ks[i] && w[g] == ls[i] {
      var i := Source(ks[..n], g);
      assert w[g] == ls[..n][i];
    }
    assert ks[n] in u <==> ls[n] in w by {
      if ks[n] in u {
        var g :| 0 <= g < |u| && u[g] == ks[n];
        assert w[g] == ls[n];
      }
      if ls[n] in w {
        var g :| 0 <= g < |w| && w[g] == ls[n];
        assert u[g] == ks[n];
      }
    }
  }

  lemma AlikeIds<K, L>(ks: seq<K>, ls: seq<L>)
    requires |ks| == |ls|
    requires forall i, j :: 0 <= i < |ks| && 0 <= j < |ks| ==> (ks[i] == ks[j] <==> ls[i] == ls[j])
    ensures Numbered(ks) == Numbered(ls) && |Uniques(ks)| == |Uniques(ls)|
  {
    NumberedAlike(ks, ls);
    UniquesHold(ks);
    UniquesHold(ls);
  }

  predicate Refused(keys: seq<Arr>, n: nat) {
    n > 0 && exists k :: 0 <= k < |keys| && keys[k].Vector?
  }

  // The bytes of one row's keys, or the refusal of a vector.
  method RowKey(keys: seq<Arr>, i: nat) returns (r: Result<bytes>)
    requires InReach(keys, i)
    ensures r.Ok? <==> forall k :: 0 <= k < |keys| ==> !keys[k].Vector?
    ensures r.Ok? ==> r.value == KeyBytes(keys, i)
  {
    hide KeyPart;
    var buf: bytes := [];
    for k := 0 to |keys|
      invariant forall j :: 0 <= j < k ==> !keys[j].Vector?
      invariant InReach(keys[k..], i) && KeyBytes(keys, i) == buf + KeyBytes(keys[k..], i)
    {
      if keys[k].Vector? {
        return Err(BadType);
      }
      assert keys[k..][1..] == keys[k + 1..];
      buf := buf + KeyPart(keys[k], i);
    }
    r := Ok(buf);
  }

  // `assign_groups`: rows get one number exactly when all their keys are equal, numbers follow the
  // order of first appearance, and without keys there is one group, even of no rows.
  method AssignGroups(keys: seq<Arr>, n: nat) returns (r: Result<(seq<nat>, nat)>)
    requires forall k :: 0 <= k < |keys| ==> keys[k].Vector? || Groupable(keys[k])
    requires forall i :: 0 <= i < n ==> InReach(keys, i)
    ensures r.Err? <==> Refused(keys, n)
    ensures r.Ok? ==> r.value.0 == Numbered(KeyRows(keys, n))
    ensures r.Ok? ==> r.value.1 == if keys == [] then 1 else |Uniques(KeyRows(keys, n))|
  {
    hide KeyPart, Groupable, Numbered, Uniques;
    if keys == [] {
      OneGroup(n);
      return Ok((seq(n, _ => 0), 1));
    }
    var ids: map<bytes, nat> := map[];
    var groupOf: seq<nat> := [];
    ghost var strings := KeyStrings(keys, n);
    NumberingStarts<bytes>();
    for i := 0 to n
      invariant i > 0 ==> !Refused(keys, n)
      invariant Numbering(strings[..i], ids, groupOf)
    {
      var key := RowKey(keys, i);
      if key.Err? {
        return Err(BadType);
      }
      assert strings[..i + 1] == strings[..i] + [key.value];
      if key.value in ids {
        KnownKey(strings[..i], ids, groupOf, key.value);
        groupOf := groupOf + [ids[key.value]];
      } else {
        NewKey(strings[..i], ids, groupOf, key.value);
        groupOf := groupOf + [|ids|];
        ids := ids[key.value := |ids|];
      }
    }
    assert strings[..n] == strings;
    if !Refused(keys, n) {
      SameNumbers(keys, n);
    }
    r := Ok((groupOf, |ids|));
  }

  // The state of the loop: the numbers of the keys met so far and of the rows they came from.
  ghost predicate Numbering<K(!new)>(ks: seq<K>, ids: map<K, nat>, groupOf: seq<nat>) {
    && groupOf == Numbered(ks)
    && |ids| == |Uniques(ks)|
    && (forall x :: x in ids <==> x in Uniques(ks))
    && (forall x :: x in ids ==> ids[x] == IndexOf(Uniques(ks), x))
  }

  lemma NumberingStarts<K(!new)>()
    ensures Numbering<K>([], map[], [])
  {
  }

  lemma IndexKept<K>(u: seq<K>, w: seq<K>, x: K)
    requires x in u && u <= w
    ensures IndexOf(w, x) == IndexOf(u, x)
  {
    var i, j := IndexOf(u, x), IndexOf(w, x);
    assert w[i] == x;
    assert u[j] == x;
  }

  // One more row leaves the numbers as they are.
  lemma IdsGrow<K>(ks: seq<K>, x: K)
    ensures Numbered(ks + [x]) == Numbered(ks) + [IndexOf(Uniques(ks + [x]), x)]
  {
    UniquesHold(ks);
    UniquesPrefix(ks + [x], |ks|);
    assert (ks + [x])[..|ks|] == ks;
    forall i | 0 <= i < |ks| ensures Numbered(ks + [x])[i] == Numbered(ks)[i] {
      assert ks[i] in Uniques(ks);
      assert (ks + [x])[i] == ks[i];
      IndexKept(Uniques(ks), Uniques(ks + [x]), ks[i]);
    }
  }

  lemma KnownKey<K(!new)>(ks: seq<K>, ids: map<K, nat>, groupOf: seq<nat>, x: K)
    requires Numbering(ks, ids, groupOf) && x in ids
    ensures Numbering(ks + [x], ids, groupOf + [ids[x]])
  {
    IdsGrow(ks, x);
    assert (ks + [x])[..|ks|] == ks;
  }

  lemma NewKey<K(!new)>(ks: seq<K>, ids: map<K, nat>, groupOf: seq<nat>, x: K)
    requires Numbering(ks, ids, groupOf) && x !in ids
    ensures Numbering(ks + [x], ids[x := |ids|], groupOf + [|ids|])
  {
    IdsGrow(ks, x);
    var u := Uniques(ks);
    assert (ks + [x])[..|ks|] == ks;
    assert Uniques(ks + [x]) == u + [x];
    NewIndex(u, x);
    forall y | y in u ensures IndexOf(u + [x], y) == IndexOf(u, y) {
      IndexKept(u, u + [x], y);
    }
  }

  lemma NewIndex<K>(u: seq<K>, x: K)
    requires x !in u
    ensures IndexOf(u + [x], x) == |u|
  {
    assert (u + [x])[|u|] == x;
  }

  lemma OneGroup(n: nat)
    ensures Numbered(KeyRows([], n)) == seq(n, _ => 0)
  {
    var ks := KeyRows([], n);
    UniquesHold(ks);
    forall i | 0 <= i < n ensures IndexOf(Uniques(ks), ks[i]) == 0 {
      assert ks[i] == [];
      assert ks[i] in Uniques(ks);
      var g := IndexOf(Uniques(ks), ks[i]);
      assert Uniques(ks)[0] in ks;
      assert Uniques(ks)[0] == [];
    }
  }

  // Numbering by byte strings is numbering by values.
  lemma SameNumbers(keys: seq<Arr>, n: nat)
    requires forall k :: 0 <= k < |keys| ==> keys[k].Vector? || Groupable(keys[k])
    requires forall i :: 0 <= i < n ==> InReach(keys, i)
    requires !Refused(keys, n)
    ensures Numbered(KeyStrings(keys, n)) == Numbered(KeyRows(keys, n))
    ensures |Uniques(KeyStrings(keys, n))| == |Uniques(KeyRows(keys, n))|
  {
    hide Groupable, KeyBytes, InReach;
    var ks, ls := KeyStrings(keys, n), KeyRows(keys, n);
    forall i, j | 0 <= i < n && 0 <= j < n ensures ks[i] == ks[j] <==> ls[i] == ls[j] {
      KeyBytesInjective(keys, i, j);
    }
    AlikeIds(ks, ls);
  }
}
