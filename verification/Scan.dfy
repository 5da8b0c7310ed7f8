// The printers and lookups scan a table and keep some of its slots.
module Scan {
  // The positions of the kept slots, in order.
  ghost function Selected<T>(s: seq<T>, keep: T -> bool): seq<nat> {
    if s == [] then []
    else
      var k := |s| - 1;
      Selected(s[..k], keep) + (if keep(s[k]) then [k] else [])
  }

  // One row per kept slot, made from its position and contents.
  ghost function Rows<T, R>(s: seq<T>, keep: T -> bool, row: (nat, T) -> R): seq<R> {
    if s == [] then []
    else
      var k := |s| - 1;
      Rows(s[..k], keep, row) + (if keep(s[k]) then [row(k, s[k])] else [])
  }

  // Selected lists every kept slot once, in increasing order, and nothing else.
  lemma {:induction false} SelectedExact<T>(s: seq<T>, keep: T -> bool)
    ensures forall j :: 0 <= j < |Selected(s, keep)| ==> Selected(s, keep)[j] < |s| && keep(s[Selected(s, keep)[j]])
    ensures forall i, j :: 0 <= i < j < |Selected(s, keep)| ==> Selected(s, keep)[i] < Selected(s, keep)[j]
    ensures forall p: nat :: p < |s| && keep(s[p]) ==> p in Selected(s, keep)
  {
    if s != [] {
      var k := |s| - 1;
      SelectedExact(s[..k], keep);
      assert forall p: nat :: p < |s| && keep(s[p]) && p != k ==> p < k && keep(s[..k][p]);
    }
  }

  // A list of slots: those of a set, each once and in increasing order.
  ghost predicate Lists(slots: seq<nat>, used: set<nat>) {
    && (forall p: nat :: p in slots <==> p in used)
    && (forall i, j :: 0 <= i < j < |slots| ==> slots[i] < slots[j])
  }

  lemma SelectedLists<T>(s: seq<T>, keep: T -> bool, used: set<nat>)
    requires forall p: nat :: p in used <==> p < |s| && keep(s[p])
    ensures Lists(Selected(s, keep), used)
  {
    SelectedExact(s, keep);
  }

  // The rows are those of the selected slots.
  lemma {:induction false} RowsOfSelected<T, R>(s: seq<T>, keep: T -> bool, row: (nat, T) -> R)
    ensures |Rows(s, keep, row)| == |Selected(s, keep)|
    ensures forall j :: 0 <= j < |Selected(s, keep)| ==>
              && Selected(s, keep)[j] < |s|
              && Rows(s, keep, row)[j] == row(Selected(s, keep)[j], s[Selected(s, keep)[j]])
  {
    SelectedExact(s, keep);
    if s != [] {
      var k := |s| - 1;
      RowsOfSelected(s[..k], keep, row);
    }
  }

  // A row is shown exactly when it is the row of a kept slot.
  lemma {:induction false} RowShownIff<T, R>(s: seq<T>, keep: T -> bool, row: (nat, T) -> R, r: R)
    ensures r in Rows(s, keep, row) <==> exists p: nat :: p < |s| && keep(s[p]) && r == row(p, s[p])
  {
    if s != [] {
      var k := |s| - 1;
      RowShownIff(s[..k], keep, row, r);
      assert forall p: nat :: p < k ==> s[..k][p] == s[p];
    }
  }

  lemma RowsStep<T, R>(s: seq<T>, n: nat, keep: T -> bool, row: (nat, T) -> R)
    requires n < |s|
    ensures Rows(s[..n + 1], keep, row)
         == Rows(s[..n], keep, row) + (if keep(s[n]) then [row(n, s[n])] else [])
  {
    assert s[..n + 1][..n] == s[..n];
  }
}
