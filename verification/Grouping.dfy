// Rows grouped by the id they refer to, each group in row order.
module Grouping {
  function Group<T>(rows: seq<T>, key: T -> string, k: string): seq<T> {
    if rows == [] then []
    else
      var last := rows[|rows| - 1];
      Group(rows[..|rows| - 1], key, k) + if key(last) == k then [last] else []
  }

  // Where a row stands in its group: after the earlier rows of the group.
  lemma {:induction false} GroupHolds<T>(rows: seq<T>, key: T -> string, k: string, i: nat) returns (at: nat)
    requires i < |rows| && key(rows[i]) == k
    ensures at == |Group(rows[..i], key, k)| < |Group(rows, key, k)| && Group(rows, key, k)[at] == rows[i]
  {
    var n := |rows| - 1;
    if i == n {
      at := |Group(rows[..n], key, k)|;
    } else {
      at := GroupHolds(rows[..n], key, k, i);
      assert rows[..n][..i] == rows[..i];
    }
  }

  lemma {:induction false} GroupGrows<T>(rows: seq<T>, key: T -> string, k: string, i: nat, j: nat)
    requires i < j <= |rows| && key(rows[i]) == k
    ensures |Group(rows[..i], key, k)| < |Group(rows[..j], key, k)|
  {
    assert rows[..j][..j - 1] == rows[..j - 1];
    if i < j - 1 { GroupGrows(rows, key, k, i, j - 1); }
  }

  lemma {:induction false} GroupComesFrom<T>(rows: seq<T>, key: T -> string, k: string, at: nat) returns (i: nat)
    requires at < |Group(rows, key, k)|
    ensures i < |rows| && key(rows[i]) == k && rows[i] == Group(rows, key, k)[at]
    ensures at == |Group(rows[..i], key, k)|
  {
    var n := |rows| - 1;
    if at == |Group(rows[..n], key, k)| {
      i := n;
    } else {
      i := GroupComesFrom(rows[..n], key, k, at);
      assert rows[..n][..i] == rows[..i];
    }
  }

  lemma PairComesFrom<T>(rows: seq<T>, key: T -> string, k: string, a: nat, b: nat) returns (i: nat, j: nat)
    requires a < b < |Group(rows, key, k)|
    ensures i < j < |rows| && key(rows[i]) == key(rows[j]) == k
    ensures rows[i] == Group(rows, key, k)[a] && rows[j] == Group(rows, key, k)[b]
  {
    i := GroupComesFrom(rows, key, k, a);
    j := GroupComesFrom(rows, key, k, b);
    if j < i { GroupGrows(rows, key, k, j, i); }
  }

  ghost predicate Grouped<T>(groups: map<string, seq<T>>, rows: seq<T>, key: T -> string) {
    forall k {:trigger Group(rows, key, k)} :: Group(rows, key, k) == if k in groups then groups[k] else []
  }

  lemma GroupedAt<T>(groups: map<string, seq<T>>, rows: seq<T>, key: T -> string, k: string)
    requires Grouped(groups, rows, key) && k in groups
    ensures groups[k] == Group(rows, key, k)
    ensures forall a :: 0 <= a < |groups[k]| ==> key(groups[k][a]) == k
  {
    assert groups[k] == Group(rows, key, k);
    forall a | 0 <= a < |groups[k]| ensures key(groups[k][a]) == k {
      var i := GroupComesFrom(rows, key, k, a);
    }
  }

  lemma GroupStep<T>(groups: map<string, seq<T>>, rows: seq<T>, key: T -> string, i: nat)
    requires i < |rows| && Grouped(groups, rows[..i], key)
    ensures var k := key(rows[i]);
      Grouped(groups[k := (if k in groups then groups[k] else []) + [rows[i]]], rows[..i + 1], key)
  {
    var k, here := key(rows[i]), rows[..i + 1];
    assert here[..|here| - 1] == rows[..i] && here[|here| - 1] == rows[i];
    var after := groups[k := (if k in groups then groups[k] else []) + [rows[i]]];
    forall s ensures Group(here, key, s) == if s in after then after[s] else [] {
      assert Group(rows[..i], key, s) == if s in groups then groups[s] else [];
      assert Group(here, key, s) == Group(rows[..i], key, s) + if k == s then [rows[i]] else [];
    }
  }

  ghost predicate Lists(order: seq<string>, keys: set<string>) {
    && (forall i :: 0 <= i < |order| ==> order[i] in keys)
    && forall s :: s in keys ==> exists i :: 0 <= i < |order| && order[i] == s
  }

  lemma ListsAppend(order: seq<string>, keys: set<string>, k: string)
    requires Lists(order, keys)
    ensures Lists(order + [k], keys + {k})
    ensures k in keys ==> keys + {k} == keys
  {
    forall s | s in keys + {k} ensures exists i :: 0 <= i < |order + [k]| && (order + [k])[i] == s {
      if s == k {
        assert (order + [k])[|order|] == k;
      } else {
        var i :| 0 <= i < |order| && order[i] == s;
        assert (order + [k])[i] == s;
      }
    }
  }

  // The ids the rows refer to, each once, as first met.
  function FirstMet<T>(rows: seq<T>, key: T -> string): seq<string> {
    if rows == [] then []
    else
      var before, k := FirstMet(rows[..|rows| - 1], key), key(rows[|rows| - 1]);
      if k in before then before else before + [k]
  }

  // The row at which an id is first met.
  predicate FirstAt<T>(rows: seq<T>, key: T -> string, k: string, i: nat) {
    i < |rows| && key(rows[i]) == k && forall j :: 0 <= j < i ==> key(rows[j]) != k
  }

  // Every id a row refers to is listed at the place its first row has among first
  // rows.
  lemma {:induction false} FirstMetAre<T>(rows: seq<T>, key: T -> string, a: nat) returns (i: nat)
    requires a < |FirstMet(rows, key)|
    ensures FirstAt(rows, key, FirstMet(rows, key)[a], i) && FirstMet(rows[..i], key) == FirstMet(rows, key)[..a]
  {
    var n := |rows| - 1;
    var before := FirstMet(rows[..n], key);
    if a < |before| {
      i := FirstMetAre(rows[..n], key, a);
      assert rows[..n][..i] == rows[..i];
      assert forall j :: 0 <= j < i ==> rows[..n][j] == rows[j];
    } else {
      i := n;
      forall j | 0 <= j < n ensures key(rows[j]) in before { MetIsListed(rows[..n], key, j); }
    }
  }

  lemma {:induction false} MetIsListed<T>(rows: seq<T>, key: T -> string, j: nat)
    requires j < |rows|
    ensures key(rows[j]) in FirstMet(rows, key)
  {
    var n := |rows| - 1;
    if j < n { MetIsListed(rows[..n], key, j); }
  }

  // So ids stand in the order of their first rows, and none stands twice.
  lemma FirstMetInOrder<T>(rows: seq<T>, key: T -> string, a: nat, b: nat, i: nat, j: nat)
    requires a < b < |FirstMet(rows, key)|
    requires FirstAt(rows, key, FirstMet(rows, key)[a], i) && FirstAt(rows, key, FirstMet(rows, key)[b], j)
    ensures i < j && FirstMet(rows, key)[a] != FirstMet(rows, key)[b]
  {
    var met := FirstMet(rows, key);
    var x := FirstMetAre(rows, key, a);
    var y := FirstMetAre(rows, key, b);
    assert met[..b][a] == met[a];
    assert met[a] in FirstMet(rows[..y], key);
    var m := ListedIsMet(rows[..y], key, met[a]);
  }

  lemma {:induction false} ListedIsMet<T>(rows: seq<T>, key: T -> string, k: string) returns (i: nat)
    requires k in FirstMet(rows, key)
    ensures i < |rows| && key(rows[i]) == k
  {
    var n := |rows| - 1;
    if key(rows[n]) == k { i := n; } else { i := ListedIsMet(rows[..n], key, k); }
  }

  lemma MetSoFar<T>(rows: seq<T>, key: T -> string, i: nat)
    requires i < |rows|
    ensures FirstMet(rows[..i + 1], key) ==
      if key(rows[i]) in FirstMet(rows[..i], key) then FirstMet(rows[..i], key)
        else FirstMet(rows[..i], key) + [key(rows[i])]
  {
    assert rows[..i + 1][..i] == rows[..i];
  }

  ghost predicate Built<T>(groups: map<string, seq<T>>, order: seq<string>, rows: seq<T>, key: T -> string) {
    Grouped(groups, rows, key) && Lists(order, groups.Keys) && order == FirstMet(rows, key)
  }

  lemma BuildStep<T>(groups: map<string, seq<T>>, order: seq<string>, rows: seq<T>, key: T -> string, i: nat)
    requires i < |rows| && Built(groups, order, rows[..i], key)
    ensures var k := key(rows[i]);
      Built(groups[k := (if k in groups then groups[k] else []) + [rows[i]]],
            if k in groups then order else order + [k], rows[..i + 1], key)
  {
    var k := key(rows[i]);
    GroupStep(groups, rows, key, i);
    ListsAppend(order, groups.Keys, k);
    MetSoFar(rows, key, i);
    assert groups[k := (if k in groups then groups[k] else []) + [rows[i]]].Keys == groups.Keys + {k};
  }

  // Every group, and their ids as first met.
  method GroupBy<T>(rows: seq<T>, key: T -> string) returns (groups: map<string, seq<T>>, order: seq<string>)
    ensures Grouped(groups, rows, key)
    ensures forall i :: 0 <= i < |rows| ==> key(rows[i]) in groups
    ensures Lists(order, groups.Keys) && order == FirstMet(rows, key)
  {
    groups, order := map[], [];
    for i := 0 to |rows|
      invariant Built(groups, order, rows[..i], key)
      invariant forall j :: 0 <= j < i ==> key(rows[j]) in groups
    {
      var k := key(rows[i]);
      BuildStep(groups, order, rows, key, i);
      if k !in groups { order := order + [k]; }
      groups := groups[k := (if k in groups then groups[k] else []) + [rows[i]]];
    }
    assert rows[..|rows|] == rows;
  }
}
