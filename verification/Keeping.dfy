/** Which of some items pass a condition (`src/exec.rs`): each that does, once and in order. */
module Keeping {
  // The items that pass, in order.
  function Kept(items: seq<nat>, keep: nat -> bool): (r: seq<nat>)
    ensures |r| <= |items|
  {
    if items == [] then []
    else
      var n := |items| - 1;
      var before := Kept(items[..n], keep);
      if keep(items[n]) then before + [items[n]] else before
  }

  lemma {:induction false} KeptAll(items: seq<nat>, keep: nat -> bool, all: bool)
    requires forall i :: 0 <= i < |items| ==> keep(items[i]) == all
    ensures Kept(items, keep) == if all then items else []
  {
    if items != [] {
      KeptAll(items[..|items| - 1], keep, all);
    }
  }

  lemma KeptStep(items: seq<nat>, keep: nat -> bool, i: nat)
    requires i < |items|
    ensures Kept(items[..i + 1], keep) == Kept(items[..i], keep) + if keep(items[i]) then [items[i]] else []
  {
    assert items[..i + 1][..i] == items[..i];
  }

  lemma {:induction false} KeptSame(items: seq<nat>, a: nat -> bool, b: nat -> bool)
    requires forall i :: 0 <= i < |items| ==> a(items[i]) == b(items[i])
    ensures Kept(items, a) == Kept(items, b)
  {
    if items != [] {
      KeptSame(items[..|items| - 1], a, b);
    }
  }

  lemma {:induction false} KeptInside(items: seq<nat>, keep: nat -> bool)
    ensures forall x :: x in Kept(items, keep) ==> x in items
  {
    if items != [] {
      KeptInside(items[..|items| - 1], keep);
    }
  }

  // The items that pass, each once, in the order in which they were.
  ghost predicate KeepsThose(items: seq<nat>, keep: nat -> bool, r: seq<nat>) {
    exists at: seq<nat> :: KeptAt(items, keep, r, at)
  }

  predicate KeptAt(items: seq<nat>, keep: nat -> bool, r: seq<nat>, at: seq<nat>) {
    && |at| == |r| && (forall a, b :: 0 <= a < b < |at| ==> at[a] < at[b])
    && (forall a :: 0 <= a < |at| ==> at[a] < |items| && r[a] == items[at[a]])
    && forall p :: 0 <= p < |items| ==> (keep(items[p]) <==> p in at)
  }

  lemma OneMoreKept(items: seq<nat>, keep: nat -> bool, r: seq<nat>, at: seq<nat>)
    requires items != [] && KeptAt(items[..|items| - 1], keep, r, at)
    ensures var n := |items| - 1;
      if keep(items[n]) then KeptAt(items, keep, r + [items[n]], at + [n]) else KeptAt(items, keep, r, at)
  {
    var n := |items| - 1;
    assert forall p :: 0 <= p < n ==> items[..n][p] == items[p];
    if keep(items[n]) {
      assert forall a :: 0 <= a < |at| ==> (at + [n])[a] == at[a] && at[a] < n;
      assert forall p :: p in at + [n] <==> p in at || p == n;
    } else {
      assert n !in at;
    }
  }

  lemma {:induction false} KeptPlaces(items: seq<nat>, keep: nat -> bool) returns (at: seq<nat>)
    ensures KeptAt(items, keep, Kept(items, keep), at)
  {
    if items == [] {
      at := [];
    } else {
      var n := |items| - 1;
      at := KeptPlaces(items[..n], keep);
      hide KeptAt;
      OneMoreKept(items, keep, Kept(items[..n], keep), at);
      if keep(items[n]) {
        at := at + [n];
      }
    }
  }

  lemma KeptThose(items: seq<nat>, keep: nat -> bool)
    ensures KeepsThose(items, keep, Kept(items, keep))
  {
    var at := KeptPlaces(items, keep);
  }
}
