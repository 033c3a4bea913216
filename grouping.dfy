/** pandas `groupby(keys)` followed by an aggregation, as the scripts use it.
    A group key is a tuple of integers and strings compared as Python compares
    tuples; the result holds one entry per distinct key, in ascending key order
    (pandas sorts group keys), and each entry is the fold, in input order, of
    that key's rows with the aggregation's combining step: "last non-null value
    per column" for `.last()`, column-wise addition for `.sum()`. */
module Grouping {
  import opened Wrappers
  import Text
  import Frames

  /** One component of a group key. */
  datatype Atom = Num(n: int) | Str(s: string)

  type Key = seq<Atom>

  predicate AtomLess(a: Atom, b: Atom)
  {
    match (a, b)
    case (Num(x), Num(y)) => x < y
    case (Str(x), Str(y)) => Text.LexLess(x, y)
    case (Num(_), Str(_)) => true
    case (Str(_), Num(_)) => false
  }

  /** Python's tuple order on keys. */
  predicate KeyLess(a: Key, b: Key)
  {
    if b == [] then false
    else if a == [] then true
    else if a[0] != b[0] then AtomLess(a[0], b[0])
    else KeyLess(a[1..], b[1..])
  }

  lemma AtomOrder(a: Atom, b: Atom, c: Atom)
    ensures !AtomLess(a, a)
    ensures AtomLess(a, b) && AtomLess(b, c) ==> AtomLess(a, c)
    ensures a != b ==> AtomLess(a, b) || AtomLess(b, a)
  {
    if a.Str? {
      Text.LexIrreflexive(a.s);
      if b.Str? && a.s != b.s {
        Text.LexTotal(a.s, b.s);
      }
      if b.Str? && c.Str? && AtomLess(a, b) && AtomLess(b, c) {
        Text.LexTransitive(a.s, b.s, c.s);
      }
    }
  }

  lemma {:induction false} KeyIrreflexive(a: Key)
    ensures !KeyLess(a, a)
  {
    if a != [] {
      KeyIrreflexive(a[1..]);
    }
  }

  lemma {:induction false} KeyTransitive(a: Key, b: Key, c: Key)
    requires KeyLess(a, b) && KeyLess(b, c)
    ensures KeyLess(a, c)
  {
    if a != [] {
      AtomOrder(a[0], b[0], c[0]);
      if a[0] == b[0] && b[0] == c[0] {
        KeyTransitive(a[1..], b[1..], c[1..]);
      }
    }
  }

  lemma {:induction false} KeyTotal(a: Key, b: Key)
    requires a != b
    ensures KeyLess(a, b) || KeyLess(b, a)
  {
    if a != [] && b != [] {
      AtomOrder(a[0], b[0], b[0]);
      if a[0] == b[0] {
        assert a == [a[0]] + a[1..] && b == [b[0]] + b[1..];
        KeyTotal(a[1..], b[1..]);
      }
    }
  }

  /** Entries strictly ascending by key: in particular no key twice. */
  predicate Sorted<V>(xs: seq<(Key, V)>)
  {
    forall i, j :: 0 <= i < j < |xs| ==> KeyLess(xs[i].0, xs[j].0)
  }

  /** The entry stored under k, if any. */
  function Lookup<V>(xs: seq<(Key, V)>, k: Key): Option<V>
  {
    if xs == [] then None
    else if xs[0].0 == k then Some(xs[0].1)
    else Lookup(xs[1..], k)
  }

  /** A key below the first key of a sorted list is absent from it. */
  lemma LookupBelowHead<V>(xs: seq<(Key, V)>, k: Key)
    requires Sorted(xs) && xs != [] && KeyLess(k, xs[0].0)
    ensures Lookup(xs, k) == None
    decreases |xs|
  {
    KeyIrreflexive(k);
    if |xs| > 1 {
      KeyTransitive(k, xs[0].0, xs[1].0);
      LookupBelowHead(xs[1..], k);
    }
  }

  /** Adding a row's value into an accumulated group value. */
  function Step<V>(acc: Option<V>, v: V, combine: (V, V) -> V): V
  {
    match acc
    case None => v
    case Some(a) => combine(a, v)
  }

  /** Reference meaning of a group: the fold, in input order, of the values of
      the rows whose key is k; None when no row has key k. */
  function FoldKey<V>(rows: seq<(Key, V)>, k: Key, combine: (V, V) -> V): Option<V>
  {
    if rows == [] then None
    else
      var prev := FoldKey(rows[..|rows| - 1], k, combine);
      if rows[|rows| - 1].0 == k then Some(Step(prev, rows[|rows| - 1].1, combine)) else prev
  }

  /** A key has a group exactly when some row carries it. */
  lemma {:induction false} FoldKeyPresent<V>(rows: seq<(Key, V)>, k: Key, combine: (V, V) -> V)
    ensures FoldKey(rows, k, combine).Some? <==> exists i :: 0 <= i < |rows| && rows[i].0 == k
  {
    if rows != [] {
      var init := rows[..|rows| - 1];
      FoldKeyPresent(init, k, combine);
      if exists i :: 0 <= i < |init| && init[i].0 == k {
        var i :| 0 <= i < |init| && init[i].0 == k;
        assert rows[i].0 == k;
      }
      if exists i :: 0 <= i < |rows| && rows[i].0 == k {
        var i :| 0 <= i < |rows| && rows[i].0 == k;
        if i < |init| {
          assert init[i].0 == k;
        }
      }
    }
  }

  /** Inserts (k, v) into a sorted list, or combines v into k's entry. */
  function Upsert<V>(xs: seq<(Key, V)>, k: Key, v: V, combine: (V, V) -> V): (ys: seq<(Key, V)>)
    requires Sorted(xs)
    ensures Sorted(ys) && ys != []
    ensures ys[0].0 == (if xs == [] || KeyLess(k, xs[0].0) then k else xs[0].0)
    ensures forall j :: Lookup(ys, j) ==
              if j == k then Some(Step(Lookup(xs, k), v, combine)) else Lookup(xs, j)
    decreases |xs|
  {
    if xs == [] then [(k, v)]
    else if xs[0].0 == k then [(k, combine(xs[0].1, v))] + xs[1..]
    else if KeyLess(k, xs[0].0) then
      LookupBelowHead(xs, k);
      var ys := [(k, v)] + xs;
      assert Sorted(ys) by {
        forall i, j | 0 <= i < j < |ys| ensures KeyLess(ys[i].0, ys[j].0) {
          if i == 0 && j > 1 {
            KeyTransitive(k, xs[0].0, xs[j - 1].0);
          }
        }
      }
      ys
    else
      KeyTotal(k, xs[0].0);
      var rest := Upsert(xs[1..], k, v, combine);
      var ys := [xs[0]] + rest;
      assert Sorted(ys) by {
        forall i, j | 0 <= i < j < |ys| ensures KeyLess(ys[i].0, ys[j].0) {
          if i == 0 {
            assert KeyLess(xs[0].0, rest[0].0);
            if j > 1 {
              KeyTransitive(xs[0].0, rest[0].0, rest[j - 1].0);
            }
          }
        }
      }
      ys
  }

  /** `groupby(keys).agg(...)`: one entry per distinct key, ascending, each the
      fold of its rows in input order. */
  function GroupBy<V>(rows: seq<(Key, V)>, combine: (V, V) -> V): (groups: seq<(Key, V)>)
    ensures Sorted(groups)
    ensures forall k :: Lookup(groups, k) == FoldKey(rows, k, combine)
  {
    if rows == [] then []
    else
      var prev := GroupBy(rows[..|rows| - 1], combine);
      Upsert(prev, rows[|rows| - 1].0, rows[|rows| - 1].1, combine)
  }

  /** In a sorted list an entry is what Lookup finds under its key. */
  lemma {:induction false} LookupEntry<V>(xs: seq<(Key, V)>, i: nat)
    requires Sorted(xs) && i < |xs|
    ensures Lookup(xs, xs[i].0) == Some(xs[i].1)
  {
    if i > 0 {
      KeyIrreflexive(xs[i].0);
      assert xs[0].0 != xs[i].0;
      LookupEntry(xs[1..], i - 1);
    }
  }

  /** Whatever Lookup finds is an entry of the list. */
  lemma {:induction false} LookupFound<V>(xs: seq<(Key, V)>, k: Key)
    requires Lookup(xs, k).Some?
    ensures exists i :: 0 <= i < |xs| && xs[i] == (k, Lookup(xs, k).value)
  {
    if xs[0].0 != k {
      LookupFound(xs[1..], k);
      var i :| 0 <= i < |xs| - 1 && xs[1..][i] == (k, Lookup(xs, k).value);
      assert xs[i + 1] == xs[1..][i];
    }
  }

  /** Each group entry is the fold of its key's rows, and every key of the
      input has an entry. */
  lemma GroupByEntries<V>(rows: seq<(Key, V)>, combine: (V, V) -> V)
    ensures forall i :: 0 <= i < |GroupBy(rows, combine)| ==>
              FoldKey(rows, GroupBy(rows, combine)[i].0, combine) == Some(GroupBy(rows, combine)[i].1)
    ensures forall i :: 0 <= i < |rows| ==>
              exists j :: 0 <= j < |GroupBy(rows, combine)| && GroupBy(rows, combine)[j].0 == rows[i].0
  {
    var g := GroupBy(rows, combine);
    forall i | 0 <= i < |g| ensures FoldKey(rows, g[i].0, combine) == Some(g[i].1) {
      LookupEntry(g, i);
    }
    forall i | 0 <= i < |rows|
      ensures exists j :: 0 <= j < |g| && g[j].0 == rows[i].0
    {
      FoldKeyPresent(rows, rows[i].0, combine);
      LookupFound(g, rows[i].0);
    }
  }

  /** A key has a group exactly when some row carries it. */
  lemma GroupKeys<V>(rows: seq<(Key, V)>, combine: (V, V) -> V, k: Key)
    ensures (exists i :: 0 <= i < |GroupBy(rows, combine)| && GroupBy(rows, combine)[i].0 == k)
            <==> exists j :: 0 <= j < |rows| && rows[j].0 == k
  {
    var g := GroupBy(rows, combine);
    if exists i :: 0 <= i < |g| && g[i].0 == k {
      var i :| 0 <= i < |g| && g[i].0 == k;
      RowOfGroup(rows, combine, i);
    }
    if exists j :: 0 <= j < |rows| && rows[j].0 == k {
      var j :| 0 <= j < |rows| && rows[j].0 == k;
      GroupOfRow(rows, combine, j);
    }
  }

  /** Every group's key is carried by some row. */
  lemma RowOfGroup<V>(rows: seq<(Key, V)>, combine: (V, V) -> V, i: nat)
    requires i < |GroupBy(rows, combine)|
    ensures exists j :: 0 <= j < |rows| && rows[j].0 == GroupBy(rows, combine)[i].0
  {
    var g := GroupBy(rows, combine);
    var k := g[i].0;
    LookupEntry(g, i);
    assert Lookup(g, k) == FoldKey(rows, k, combine);
    FoldKeyPresent(rows, k, combine);
  }

  /** Every row's key has a group. */
  lemma GroupOfRow<V>(rows: seq<(Key, V)>, combine: (V, V) -> V, j: nat)
    requires j < |rows|
    ensures exists i :: 0 <= i < |GroupBy(rows, combine)| && GroupBy(rows, combine)[i].0 == rows[j].0
  {
    var g := GroupBy(rows, combine);
    var k := rows[j].0;
    FoldKeyPresent(rows, k, combine);
    assert Lookup(g, k) == FoldKey(rows, k, combine);
    LookupFound(g, k);
    var i :| 0 <= i < |g| && g[i] == (k, Lookup(g, k).value);
    assert g[i].0 == k;
  }

  /** With `.last()` over complete rows the combining step keeps the newer
      value, so a group is its last row. */
  function KeepLast<V>(older: V, newer: V): V
  {
    newer
  }

  lemma {:induction false} FoldKeyLast<V>(rows: seq<(Key, V)>, k: Key, i: nat)
    requires i < |rows| && rows[i].0 == k
    requires forall j :: i < j < |rows| ==> rows[j].0 != k
    ensures FoldKey(rows, k, KeepLast) == Some(rows[i].1)
  {
    if i < |rows| - 1 {
      FoldKeyLast(rows[..|rows| - 1], k, i);
    }
  }

  /** Reference meaning of `.last()` on one column: the last non-null value of
      the column among the rows with key k. */
  function LastSomeOf<V, T>(rows: seq<(Key, V)>, k: Key, column: V -> Option<T>): Option<T>
  {
    if rows == [] then None
    else if rows[|rows| - 1].0 == k && column(rows[|rows| - 1].1).Some? then column(rows[|rows| - 1].1)
    else LastSomeOf(rows[..|rows| - 1], k, column)
  }

  /** When the combining step keeps, in a column, the newer value unless it is
      null, that column of a group is the last non-null value of its rows. */
  lemma {:induction false} FoldKeyColumn<V, T>(rows: seq<(Key, V)>, k: Key, combine: (V, V) -> V, column: V -> Option<T>)
    requires forall a, b :: column(combine(a, b)) == if column(b).Some? then column(b) else column(a)
    ensures FoldKey(rows, k, combine).Some? ==> column(FoldKey(rows, k, combine).value) == LastSomeOf(rows, k, column)
    ensures FoldKey(rows, k, combine).None? ==> LastSomeOf(rows, k, column).None?
  {
    if rows != [] {
      FoldKeyColumn(rows[..|rows| - 1], k, combine, column);
    }
  }

  /** A non-null last value is the column of one of the key's rows. */
  lemma {:induction false} LastSomeOfFound<V, T>(rows: seq<(Key, V)>, k: Key, column: V -> Option<T>)
    ensures LastSomeOf(rows, k, column).Some? ==>
      exists i :: 0 <= i < |rows| && rows[i].0 == k && column(rows[i].1) == LastSomeOf(rows, k, column)
    ensures (exists i :: 0 <= i < |rows| && rows[i].0 == k && column(rows[i].1).Some?) ==>
      LastSomeOf(rows, k, column).Some?
  {
    if rows != [] {
      var init := rows[..|rows| - 1];
      LastSomeOfFound(init, k, column);
      if LastSomeOf(rows, k, column).Some? && !(rows[|rows| - 1].0 == k && column(rows[|rows| - 1].1).Some?) {
        var i :| 0 <= i < |init| && init[i].0 == k && column(init[i].1) == LastSomeOf(init, k, column);
        assert rows[i] == init[i];
      }
      if exists i :: 0 <= i < |rows| && rows[i].0 == k && column(rows[i].1).Some? {
        var i :| 0 <= i < |rows| && rows[i].0 == k && column(rows[i].1).Some?;
        if i < |init| {
          assert init[i] == rows[i];
        }
      }
    }
  }

  /** A sorted list holds each key once, and an entry is found under its own
      key. */
  lemma SortedEntries<V>(xs: seq<(Key, V)>)
    requires Sorted(xs)
    ensures forall i, j :: 0 <= i < j < |xs| ==> xs[i].0 != xs[j].0
    ensures forall e :: e in xs ==> Lookup(xs, e.0) == Some(e.1)
  {
    forall i, j | 0 <= i < j < |xs| ensures xs[i].0 != xs[j].0 {
      KeyIrreflexive(xs[i].0);
    }
    forall e | e in xs ensures Lookup(xs, e.0) == Some(e.1) {
      var i :| 0 <= i < |xs| && xs[i] == e;
      LookupEntry(xs, i);
    }
  }

  function EntryKey<V>(e: (Key, V)): Key
  {
    e.0
  }

  /** A left merge with the groups of a `groupby` (whose keys are unique)
      keeps each left row once, paired with the group of its key if any. */
  lemma LeftMergeGroups<L(!new), V(!new)>(ls: seq<L>, groups: seq<(Key, V)>, lk: L -> Key, i: nat)
    requires Sorted(groups) && i < |ls|
    ensures |Frames.LeftJoin(ls, groups, lk, EntryKey)| == |ls|
    ensures Frames.LeftJoin(ls, groups, lk, EntryKey)[i] ==
      (ls[i], match Lookup(groups, lk(ls[i])) case Some(v) => Some((lk(ls[i]), v)) case None => None)
  {
    SortedEntries(groups);
    Frames.LeftJoinUnique(ls, groups, lk, EntryKey);
    var j := Frames.LeftJoin(ls, groups, lk, EntryKey);
    match j[i].1
    case Some(r) =>
      assert r in groups;
    case None =>
      if Lookup(groups, lk(ls[i])).Some? {
        LookupFound(groups, lk(ls[i]));
        assert false;
      }
  }

  /** When every row's value carries its own key and combining keeps the
      newer value's key, each group's value carries the group key. */
  lemma GroupValueKeys<V>(rows: seq<(Key, V)>, combine: (V, V) -> V, keyOf: V -> Key, i: nat)
    requires forall j :: 0 <= j < |rows| ==> rows[j].0 == keyOf(rows[j].1)
    requires forall a, b :: keyOf(combine(a, b)) == keyOf(b)
    requires i < |GroupBy(rows, combine)|
    ensures GroupBy(rows, combine)[i].0 == keyOf(GroupBy(rows, combine)[i].1)
  {
    var g := GroupBy(rows, combine);
    var k := g[i].0;
    LookupEntry(g, i);
    var column := (v: V) => Some(keyOf(v));
    assert forall a, b :: column(combine(a, b)) == if column(b).Some? then column(b) else column(a);
    FoldKeyColumn(rows, k, combine, column);
    LastSomeOfFound(rows, k, column);
    var j :| 0 <= j < |rows| && rows[j].0 == k && column(rows[j].1) == LastSomeOf(rows, k, column);
  }

  /** A property the values of a key's rows have and combining preserves
      holds of their fold. */
  lemma {:induction false} FoldKeyKeeps<V>(rows: seq<(Key, V)>, k: Key, combine: (V, V) -> V, p: V -> bool)
    requires forall j :: 0 <= j < |rows| && rows[j].0 == k ==> p(rows[j].1)
    requires forall a, b :: p(a) && p(b) ==> p(combine(a, b))
    ensures FoldKey(rows, k, combine).Some? ==> p(FoldKey(rows, k, combine).value)
  {
    if rows != [] {
      FoldKeyKeeps(rows[..|rows| - 1], k, combine, p);
    }
  }

  /** ... and so of every group's value. */
  lemma GroupValuesKeep<V>(rows: seq<(Key, V)>, combine: (V, V) -> V, p: V -> bool)
    requires forall j :: 0 <= j < |rows| ==> p(rows[j].1)
    requires forall a, b :: p(a) && p(b) ==> p(combine(a, b))
    ensures forall i :: 0 <= i < |GroupBy(rows, combine)| ==> p(GroupBy(rows, combine)[i].1)
  {
    var g := GroupBy(rows, combine);
    forall i | 0 <= i < |g| ensures p(g[i].1) {
      LookupEntry(g, i);
      FoldKeyKeeps(rows, g[i].0, combine, p);
    }
  }
  /** The rows of group k, in input order. */
  function KeyRows<V(!new)>(rows: seq<(Key, V)>, k: Key): seq<(Key, V)>
  {
    Frames.Filter(rows, (e: (Key, V)) => e.0 == k)
  }

  /** The set of keys the rows carry. */
  function RowKeys<V>(rows: seq<(Key, V)>): set<Key>
  {
    set j | 0 <= j < |rows| :: rows[j].0
  }
}
