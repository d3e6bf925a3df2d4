/** `INSERT` with an explicit column list: values are moved into schema order (`src/db.rs`). */
module Reorder {
  import opened Wrappers
  import opened Columns
  import opened Tables

  // One name for each column of the schema, none of them twice.
  predicate Assigns(schema: Schema, names: seq<Text>) {
    && |names| == |schema.fields|
    && (forall i :: 0 <= i < |names| ==> schema.IndexOf(names[i]).Some?)
    && (forall i, j :: 0 <= i < j < |names| ==> schema.IndexOf(names[i]) != schema.IndexOf(names[j]))
  }

  // The value given for the i-th name sits in that name's column, and every column is one of these (EveryColumnNamed).
  predicate InSchemaOrder(schema: Schema, names: seq<Text>, given: Row, moved: Row)
    requires Assigns(schema, names)
  {
    && |given| == |moved| == |names|
    && forall i :: 0 <= i < |names| ==>
         var target := schema.IndexOf(names[i]).value;
         target < |moved| && moved[target] == given[i]
  }

  lemma {:induction false} IndexFromBound(schema: Schema, name: Text, i: nat)
    requires i <= |schema.fields|
    ensures schema.IndexFrom(name, i).Some? ==> i <= schema.IndexFrom(name, i).value < |schema.fields|
    decreases |schema.fields| - i
  {
    if i < |schema.fields| {
      IndexFromBound(schema, name, i + 1);
    }
  }

  // --- pigeonhole -----------------------------------------------------------------------------------

  function Elements(s: seq<nat>): (e: set<nat>)
    ensures forall x :: x in e <==> x in s
  {
    if s == [] then {} else {s[0]} + Elements(s[1..])
  }

  function Below(n: nat): (e: set<nat>)
    ensures |e| == n
    ensures forall x: nat :: x in e <==> x < n
  {
    if n == 0 then {} else Below(n - 1) + {n - 1}
  }

  lemma {:induction false} DistinctCount(s: seq<nat>)
    requires forall i, j :: 0 <= i < j < |s| ==> s[i] != s[j]
    ensures |Elements(s)| == |s|
    decreases |s|
  {
    if s != [] {
      DistinctCount(s[1..]);
      assert s[0] !in s[1..];
    }
  }

  // `n` different numbers below `n` are all of them.
  lemma Pigeonhole(targets: seq<nat>, slot: nat)
    requires forall i :: 0 <= i < |targets| ==> targets[i] < |targets|
    requires forall i, j :: 0 <= i < j < |targets| ==> targets[i] != targets[j]
    requires slot < |targets|
    ensures slot in targets
  {
    DistinctCount(targets);
    var a, b := Elements(targets), Below(|targets|);
    assert a <= b;
    assert |b - a| == |b| - |a| == 0;
    assert slot in b && slot !in b - a;
  }

  lemma EveryColumnNamed(schema: Schema, names: seq<Text>, slot: nat)
    requires Assigns(schema, names) && slot < |schema.fields|
    ensures exists i :: 0 <= i < |names| && schema.IndexOf(names[i]) == Some(slot)
  {
    var targets := seq(|names|, i requires 0 <= i < |names| => schema.IndexOf(names[i]).value);
    forall i | 0 <= i < |targets|
      ensures targets[i] < |targets|
    {
      IndexFromBound(schema, names[i], 0);
    }
    Pigeonhole(targets, slot);
    var i :| 0 <= i < |targets| && targets[i] == slot;
    assert schema.IndexOf(names[i]) == Some(slot);
  }

  // `usize::MAX`, the mark of a slot not yet assigned.
  const UNSET: int := 0xFFFF_FFFF_FFFF_FFFF

  // The caller has checked that every row has one value per name.
  method ToSchemaOrder(schema: Schema, names: seq<Text>, rows: seq<Row>) returns (r: Result<seq<Row>>)
    requires |schema.fields| <= UNSET
    requires forall k :: 0 <= k < |rows| ==> |rows[k]| == |names|
    ensures r.Ok? <==> Assigns(schema, names)
    ensures r.Ok? ==>
      && |r.value| == |rows|
      && forall k :: 0 <= k < |rows| ==> InSchemaOrder(schema, names, rows[k], r.value[k])
  {
    var n := |schema.fields|;
    if |names| != n {
      return Err(BadArity);
    }
    var pos := new int[n](_ => UNSET);
    ghost var targets: seq<nat> := [];
    for i := 0 to n
      invariant |targets| == i
      invariant forall j :: 0 <= j < i ==>
        && schema.IndexOf(names[j]) == Some(targets[j]) && targets[j] < n && pos[targets[j]] == j
      invariant forall t :: 0 <= t < n && pos[t] != UNSET ==> 0 <= pos[t] < i && targets[pos[t]] == t
    {
      IndexFromBound(schema, names[i], 0);
      var target := schema.IndexOf(names[i]);
      if target.None? {
        return Err(UnknownColumn);
      }
      if pos[target.value] != UNSET {
        assert schema.IndexOf(names[pos[target.value]]) == target;
        return Err(DuplicateColumn);
      }
      pos[target.value] := i;
      targets := targets + [target.value];
    }
    forall t | 0 <= t < n
      ensures 0 <= pos[t] < n && targets[pos[t]] == t
    {
      Pigeonhole(targets, t);
    }
    ghost var order: seq<int> := pos[..];
    assert Assigns(schema, names);
    var moved: seq<Row> := [];
    for k := 0 to |rows|
      invariant pos[..] == order
      invariant |moved| == k
      invariant forall q :: 0 <= q < k ==> InSchemaOrder(schema, names, rows[q], moved[q])
    {
      var row: Row := [];
      for t := 0 to n
        invariant pos[..] == order
        invariant |row| == t && forall u :: 0 <= u < t ==> row[u] == rows[k][order[u]]
      {
        row := row + [rows[k][pos[t]]];
      }
      moved := moved + [row];
    }
    r := Ok(moved);
  }
}
