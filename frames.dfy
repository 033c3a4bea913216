/** The pandas DataFrame operations the scripts compose, on sequences of rows:
    boolean-mask selection, `unique`/`drop_duplicates`, and `merge` with
    `how='left'` and `how='inner'` (both keep the left frame's row order and,
    for each left row, the right frame's matching rows in their order). */
module Frames {
  import opened Wrappers

  /** `df.loc[mask, :]`: the rows satisfying p, in order. */
  function Filter<T(!new)>(xs: seq<T>, p: T -> bool): (ys: seq<T>)
    ensures |ys| <= |xs|
    ensures forall y :: y in ys <==> y in xs && p(y)
  {
    if xs == [] then []
    else
      var init := Filter(xs[..|xs| - 1], p);
      var x := xs[|xs| - 1];
      assert forall y :: y in xs <==> y in xs[..|xs| - 1] || y == x;
      if p(x) then init + [x] else init
  }

  /** Filtering keeps the relative order of the rows it keeps. */
  lemma {:induction false} FilterOrder<T(!new)>(xs: seq<T>, p: T -> bool, i: nat)
    requires i < |Filter(xs, p)|
    ensures exists j :: 0 <= j < |xs| && xs[j] == Filter(xs, p)[i]
                        && |Filter(xs[..j], p)| == i && p(xs[j])
  {
    var init := xs[..|xs| - 1];
    var x := xs[|xs| - 1];
    if p(x) && i == |Filter(init, p)| {
      assert xs[..|xs| - 1] == init;
    } else {
      FilterOrder(init, p, i);
      var j :| 0 <= j < |init| && init[j] == Filter(init, p)[i] && |Filter(init[..j], p)| == i && p(init[j]);
      assert xs[..j] == init[..j];
    }
  }

  /** A kept row at position a, ahead of position b, is counted among the
      kept rows before b but not among those before a. */
  lemma FilterPrefixGrows<T(!new)>(xs: seq<T>, p: T -> bool, a: nat, b: nat)
    requires a < b <= |xs| && p(xs[a])
    ensures |Filter(xs[..a], p)| < |Filter(xs[..b], p)|
  {
    assert xs[..b] == xs[..a] + xs[a..b];
    FilterAppend(xs[..a], xs[a..b], p);
    assert xs[a] in xs[a..b];
    assert xs[a] in Filter(xs[a..b], p);
  }

  /** Filtering a sequence without repeats gives one without repeats. */
  lemma {:induction false} FilterKeepsDistinct<T(!new)>(xs: seq<T>, p: T -> bool)
    requires forall i, j :: 0 <= i < j < |xs| ==> xs[i] != xs[j]
    ensures forall i, j :: 0 <= i < j < |Filter(xs, p)| ==> Filter(xs, p)[i] != Filter(xs, p)[j]
  {
    if xs != [] {
      var init := xs[..|xs| - 1];
      var x := xs[|xs| - 1];
      FilterKeepsDistinct(init, p);
      assert x !in init;
      assert x !in Filter(init, p);
    }
  }

  /** A selection no row satisfies is empty. */
  lemma {:induction false} FilterNone<T(!new)>(xs: seq<T>, p: T -> bool)
    requires forall i :: 0 <= i < |xs| ==> !p(xs[i])
    ensures Filter(xs, p) == []
  {
    if xs != [] {
      FilterNone(xs[..|xs| - 1], p);
    }
  }

  /** A selection every row satisfies keeps the frame as it is. */
  lemma {:induction false} FilterAll<T(!new)>(xs: seq<T>, p: T -> bool)
    requires forall i :: 0 <= i < |xs| ==> p(xs[i])
    ensures Filter(xs, p) == xs
  {
    if xs != [] {
      FilterAll(xs[..|xs| - 1], p);
      assert xs == xs[..|xs| - 1] + [xs[|xs| - 1]];
    }
  }

  /** Selecting from a frame with one more row at the end. */
  lemma FilterSnoc<T(!new)>(xs: seq<T>, x: T, p: T -> bool)
    ensures Filter(xs + [x], p) == Filter(xs, p) + (if p(x) then [x] else [])
  {
    var zs := xs + [x];
    assert zs[..|zs| - 1] == xs && zs[|zs| - 1] == x;
  }

  /** Selecting from a concatenation selects from each part. */
  lemma {:induction false} FilterAppend<T(!new)>(xs: seq<T>, ys: seq<T>, p: T -> bool)
    ensures Filter(xs + ys, p) == Filter(xs, p) + Filter(ys, p)
  {
    if ys == [] {
      assert xs + ys == xs;
    } else {
      var init, y := ys[..|ys| - 1], ys[|ys| - 1];
      FilterAppend(xs, init, p);
      assert ys == init + [y];
      assert xs + ys == (xs + init) + [y];
      FilterSnoc(init, y, p);
      FilterSnoc(xs + init, y, p);
      AppendAssoc(Filter(xs, p), Filter(init, p), if p(y) then [y] else []);
    }
  }

  lemma AppendAssoc<T>(a: seq<T>, b: seq<T>, c: seq<T>)
    ensures (a + b) + c == a + (b + c)
  {
  }

  /** Two masks that agree on every row select the same rows. */
  lemma {:induction false} FilterCongruent<T(!new)>(xs: seq<T>, p: T -> bool, q: T -> bool)
    requires forall i :: 0 <= i < |xs| ==> p(xs[i]) == q(xs[i])
    ensures Filter(xs, p) == Filter(xs, q)
  {
    if xs != [] {
      FilterCongruent(xs[..|xs| - 1], p, q);
    }
  }

  /** Selecting by q after selecting by a weaker p is selecting by q. */
  lemma {:induction false} FilterNarrow<T(!new)>(xs: seq<T>, p: T -> bool, q: T -> bool)
    requires forall i :: 0 <= i < |xs| && q(xs[i]) ==> p(xs[i])
    ensures Filter(Filter(xs, p), q) == Filter(xs, q)
  {
    if xs != [] {
      var init := xs[..|xs| - 1];
      var x := xs[|xs| - 1];
      FilterNarrow(init, p, q);
      if p(x) {
        var ys := Filter(init, p) + [x];
        assert ys[..|ys| - 1] == Filter(init, p);
      }
    }
  }

  /** One value per row, in order (`df[col]`, or `df.apply(f, axis='columns')`). */
  function Column<T(!new), U(==,!new)>(xs: seq<T>, f: T -> U): (ys: seq<U>)
    ensures |ys| == |xs|
    ensures forall i :: 0 <= i < |xs| ==> ys[i] == f(xs[i])
    ensures forall y :: y in ys <==> exists x :: x in xs && y == f(x)
  {
    if xs == [] then []
    else
      var x := xs[|xs| - 1];
      assert forall z :: z in xs <==> z in xs[..|xs| - 1] || z == x;
      Column(xs[..|xs| - 1], f) + [f(x)]
  }

  /** Distinct items in order of first appearance (`unique`, `drop_duplicates`). */
  function Distinct<T(==,!new)>(xs: seq<T>): (ys: seq<T>)
    ensures forall y :: y in ys <==> y in xs
    ensures forall i, j :: 0 <= i < j < |ys| ==> ys[i] != ys[j]
  {
    if xs == [] then []
    else
      var init := Distinct(xs[..|xs| - 1]);
      assert forall y :: y in xs <==> y in xs[..|xs| - 1] || y == xs[|xs| - 1];
      if xs[|xs| - 1] in init then init else init + [xs[|xs| - 1]]
  }

  /** f applied to every element, in order. */
  function MapValues<T, U>(xs: seq<T>, f: T -> U): (ys: seq<U>)
    ensures |ys| == |xs| && forall i :: 0 <= i < |xs| ==> ys[i] == f(xs[i])
  {
    if xs == [] then [] else MapValues(xs[..|xs| - 1], f) + [f(xs[|xs| - 1])]
  }

  /** `df.apply(f, axis='columns')` where f may raise: all results, or the
      first error. */
  function MapAll<A, B>(xs: seq<A>, f: A -> Result<B, string>): (r: Result<seq<B>, string>)
    ensures r.Ok? <==> forall i :: 0 <= i < |xs| ==> f(xs[i]).Ok?
    ensures r.Ok? ==> |r.value| == |xs| && forall i :: 0 <= i < |xs| ==> r.value[i] == f(xs[i]).value
  {
    if xs == [] then Ok([])
    else
      var first := f(xs[0]);
      var rest := MapAll(xs[1..], f);
      if first.Err? then Err(first.error)
      else if rest.Err? then Err(rest.error)
      else
        assert forall i :: 1 <= i < |xs| ==> xs[i] == xs[1..][i - 1];
        Ok([first.value] + rest.value)
  }

  /** The right rows whose key equals k, in order. */
  function Matches<R(!new), K(==)>(rs: seq<R>, rk: R -> K, k: K): (ms: seq<R>)
    ensures forall r :: r in ms <==> r in rs && rk(r) == k
  {
    Filter(rs, r => rk(r) == k)
  }

  /** No right row has key k: nothing matches. */
  lemma MatchesNone<R(!new), K>(rs: seq<R>, rk: R -> K, k: K)
    requires forall i :: 0 <= i < |rs| ==> rk(rs[i]) != k
    ensures Matches(rs, rk, k) == []
  {
    FilterNone(rs, r => rk(r) == k);
  }

  /** `left.merge(right, how='left')`: every left row, paired with each
      matching right row in turn, or once with None when nothing matches. */
  function LeftJoin<L(!new), R(!new), K(==)>(ls: seq<L>, rs: seq<R>, lk: L -> K, rk: R -> K): (out: seq<(L, Option<R>)>)
    ensures forall l, r :: (l, Some(r)) in out <==> l in ls && r in rs && lk(l) == rk(r)
    ensures forall l :: (l, None) in out <==> l in ls && Matches(rs, rk, lk(l)) == []
  {
    JoinedMembers(ls, rs, lk, rk);
    Joined(ls, rs, lk, rk)
  }

  /** The rows of a left merge, left row by left row. */
  function Joined<L, R(!new), K(==)>(ls: seq<L>, rs: seq<R>, lk: L -> K, rk: R -> K): seq<(L, Option<R>)>
  {
    if ls == [] then []
    else
      var last := ls[|ls| - 1];
      Joined(ls[..|ls| - 1], rs, lk, rk) + JoinRows(last, Matches(rs, rk, lk(last)))
  }

  /** The rows out are those of a left merge of ls with rs: each left row
      with each matching right row, or with None when none matches. */
  ghost predicate JoinHolds<L(!new), R(!new), K>(out: seq<(L, Option<R>)>, ls: seq<L>, rs: seq<R>, lk: L -> K, rk: R -> K)
  {
    && (forall l, r :: (l, Some(r)) in out <==> l in ls && r in rs && lk(l) == rk(r))
    && (forall l :: (l, None) in out <==> l in ls && Matches(rs, rk, lk(l)) == [])
  }

  /** What the rows of a left merge hold. */
  lemma {:induction false} JoinedMembers<L(!new), R(!new), K>(ls: seq<L>, rs: seq<R>, lk: L -> K, rk: R -> K)
    ensures JoinHolds(Joined(ls, rs, lk, rk), ls, rs, lk, rk)
  {
    if ls != [] {
      var front := ls[..|ls| - 1];
      var last := ls[|ls| - 1];
      JoinedMembers(front, rs, lk, rk);
      assert forall x :: x in ls <==> x in front || x == last by {
        assert ls == front + [last];
      }
      var tail := JoinRows(last, Matches(rs, rk, lk(last)));
      assert Joined(ls, rs, lk, rk) == Joined(front, rs, lk, rk) + tail;
      JoinAppend(Joined(front, rs, lk, rk), tail, ls, front, last, rs, lk, rk);
    }
  }

  /** The rows a left merge gives one left row l with matches ms. */
  function JoinRows<L, R(!new)>(l: L, ms: seq<R>): (tail: seq<(L, Option<R>)>)
    ensures ms == [] ==> tail == [(l, None)]
    ensures ms != [] ==> |tail| == |ms| && forall i :: 0 <= i < |ms| ==> tail[i] == (l, Some(ms[i]))
    ensures forall e :: e in tail ==> e.0 == l
    ensures forall r :: (l, Some(r)) in tail <==> r in ms
    ensures (l, None) in tail <==> ms == []
  {
    if ms == [] then [(l, None)]
    else
      var tail := seq(|ms|, i requires 0 <= i < |ms| => (l, Some(ms[i])));
      assert forall r :: r in ms ==> (l, Some(r)) in tail by {
        forall r | r in ms ensures (l, Some(r)) in tail {
          var i :| 0 <= i < |ms| && ms[i] == r;
          assert tail[i] == (l, Some(r));
        }
      }
      tail
  }

  /** A left merge of front followed by the rows of one more left row,
      last, holds what the left merge of ls = front + [last] holds. */
  lemma JoinAppend<L(!new), R(!new), K>(init: seq<(L, Option<R>)>, tail: seq<(L, Option<R>)>,
                                        ls: seq<L>, front: seq<L>, last: L, rs: seq<R>, lk: L -> K, rk: R -> K)
    requires forall x :: x in ls <==> x in front || x == last
    requires JoinHolds(init, front, rs, lk, rk)
    requires forall e :: e in tail ==> e.0 == last
    requires forall r :: (last, Some(r)) in tail <==> r in Matches(rs, rk, lk(last))
    requires (last, None) in tail <==> Matches(rs, rk, lk(last)) == []
    ensures JoinHolds(init + tail, ls, rs, lk, rk)
  {
    assert forall e :: e in init + tail <==> e in init || e in tail;
    forall l, r ensures (l, Some(r)) in init + tail <==> l in ls && r in rs && lk(l) == rk(r) {
      if l != last {
        assert (l, Some(r)) !in tail;
      }
    }
    forall l ensures (l, None) in init + tail <==> l in ls && Matches(rs, rk, lk(l)) == [] {
      if l != last {
        assert (l, None) !in tail;
      }
    }
  }

  /** One matched pair of a left merge, and where it comes from. */
  lemma LeftJoinMatched<L(!new), R(!new), K>(ls: seq<L>, rs: seq<R>, lk: L -> K, rk: R -> K, l: L, r: R)
    ensures (l, Some(r)) in LeftJoin(ls, rs, lk, rk) <==> l in ls && r in rs && lk(l) == rk(r)
  {
    JoinedMembers(ls, rs, lk, rk);
    assert LeftJoin(ls, rs, lk, rk) == Joined(ls, rs, lk, rk);
  }

  /** Any row of a left merge: a left row with a matching right row, or a
      left row that no right row matches. */
  lemma LeftJoinRow<L(!new), R(!new), K>(ls: seq<L>, rs: seq<R>, lk: L -> K, rk: R -> K, j: (L, Option<R>))
    requires j in LeftJoin(ls, rs, lk, rk)
    ensures j.0 in ls
    ensures j.1.Some? ==> j.1.value in rs && rk(j.1.value) == lk(j.0)
    ensures j.1.None? ==> forall r :: r in rs ==> rk(r) != lk(j.0)
  {
    var out := LeftJoin(ls, rs, lk, rk);
    match j
    case (l, Some(r)) =>
      assert (l, Some(r)) in out;
    case (l, None) =>
      assert (l, None) in out;
      var ms := Matches(rs, rk, lk(l));
      assert ms == [];
      forall r | r in rs ensures rk(r) != lk(l) {
        assert r !in ms;
      }
  }


  /** When right keys are unique, a left merge keeps the left frame's rows one
      for one, each with its match if there is one. */
  lemma {:induction false} LeftJoinUnique<L(!new), R(!new), K>(ls: seq<L>, rs: seq<R>, lk: L -> K, rk: R -> K)
    requires forall i, j :: 0 <= i < j < |rs| ==> rk(rs[i]) != rk(rs[j])
    ensures |LeftJoin(ls, rs, lk, rk)| == |ls|
    ensures forall i :: 0 <= i < |ls| ==> LeftJoin(ls, rs, lk, rk)[i].0 == ls[i]
    ensures forall i :: 0 <= i < |ls| ==>
      match LeftJoin(ls, rs, lk, rk)[i].1
      case Some(r) => r in rs && rk(r) == lk(ls[i])
      case None => forall r :: r in rs ==> rk(r) != lk(ls[i])
  {
    if ls != [] {
      var init := ls[..|ls| - 1];
      LeftJoinUnique(init, rs, lk, rk);
      var l := ls[|ls| - 1];
      var ms := Matches(rs, rk, lk(l));
      MatchesUnique(rs, rk, lk(l));
      var a := LeftJoin(init, rs, lk, rk);
      var tail := JoinRows(l, ms);
      var out := LeftJoin(ls, rs, lk, rk);
      assert out == a + tail;
      assert |a| == |init| && out[|init|] == tail[0] && ls[|init|] == l;
      forall i | 0 <= i < |ls|
        ensures out[i].0 == ls[i]
        ensures match out[i].1
          case Some(r) => r in rs && rk(r) == lk(ls[i])
          case None => forall r :: r in rs ==> rk(r) != lk(ls[i])
      {
        if i < |init| {
          assert out[i] == a[i] && ls[i] == init[i];
        } else {
          assert i == |init|;
          assert ms != [] ==> ms[0] in ms;
        }
      }
    }
  }

  lemma MatchesUnique<R(!new), K>(rs: seq<R>, rk: R -> K, k: K)
    requires forall i, j :: 0 <= i < j < |rs| ==> rk(rs[i]) != rk(rs[j])
    ensures |Matches(rs, rk, k)| <= 1
  {
    var ms := Matches(rs, rk, k);
    if |ms| > 1 {
      FilterOrder(rs, r => rk(r) == k, 0);
      FilterOrder(rs, r => rk(r) == k, 1);
      assert false;
    }
  }

  /** `left.merge(right)` (inner): the matching pairs only. */
  function InnerJoin<L(!new), R(!new), K(==)>(ls: seq<L>, rs: seq<R>, lk: L -> K, rk: R -> K): (out: seq<(L, R)>)
    ensures forall l, r :: (l, r) in out <==> l in ls && r in rs && lk(l) == rk(r)
  {
    if ls == [] then []
    else
      var init := InnerJoin(ls[..|ls| - 1], rs, lk, rk);
      var l := ls[|ls| - 1];
      var ms := Matches(rs, rk, lk(l));
      var tail := seq(|ms|, i requires 0 <= i < |ms| => (l, ms[i]));
      assert forall x :: x in ls <==> x in ls[..|ls| - 1] || x == l;
      assert forall e :: e in tail ==> e.0 == l;
      assert forall r :: (l, r) in tail <==> r in ms by {
        forall r | r in ms ensures (l, r) in tail {
          var i :| 0 <= i < |ms| && ms[i] == r;
          assert tail[i] == (l, r);
        }
      }
      init + tail
  }

  /** `b if b is not null else a`: the combining step of `groupby().last()`
      on one column. */
  function Newer<T>(a: Option<T>, b: Option<T>): Option<T>
  {
    if b.Some? then b else a
  }

  /** `fillna(v)` on one cell. */
  function FillNull<T>(x: Option<T>, v: T): (r: T)
    ensures x.Some? ==> r == x.value
    ensures x.None? ==> r == v
  {
    x.GetOr(v)
  }
  /** `pd.concat(frames, ignore_index=True)`: the frames' rows one frame
      after another. */
  function Concat<T>(frames: seq<seq<T>>): (rows: seq<T>)
  {
    if frames == [] then [] else Concat(frames[..|frames| - 1]) + frames[|frames| - 1]
  }

  /** Concatenating two lists of frames one after the other. */
  lemma {:induction false} ConcatAppend<T>(f1: seq<seq<T>>, f2: seq<seq<T>>)
    ensures Concat(f1 + f2) == Concat(f1) + Concat(f2)
  {
    if f2 == [] {
      assert f1 + f2 == f1;
    } else {
      var init := f2[..|f2| - 1];
      assert (f1 + f2)[..|f1 + f2| - 1] == f1 + init;
      ConcatAppend(f1, init);
      AppendAssoc(Concat(f1), Concat(init), f2[|f2| - 1]);
    }
  }

  /** A row of the concatenation is a row of one of the frames. */
  lemma {:induction false} ConcatMembership<T>(frames: seq<seq<T>>, x: T)
    ensures x in Concat(frames) <==> exists i :: 0 <= i < |frames| && x in frames[i]
  {
    if frames != [] {
      var init := frames[..|frames| - 1];
      ConcatMembership(init, x);
      if exists i :: 0 <= i < |frames| && x in frames[i] {
        var i :| 0 <= i < |frames| && x in frames[i];
        if i < |init| {
          assert init[i] == frames[i];
        }
      }
      if x in Concat(init) {
        var i :| 0 <= i < |init| && x in init[i];
        assert frames[i] == init[i];
      }
    }
  }
  /** Taking a column of two frames one after the other. */
  lemma {:induction false} ColumnAppend<T(!new), U(!new)>(xs: seq<T>, ys: seq<T>, f: T -> U)
    ensures Column(xs + ys, f) == Column(xs, f) + Column(ys, f)
  {
    if ys == [] {
      assert xs + ys == xs;
    } else {
      var init := ys[..|ys| - 1];
      assert (xs + ys)[..|xs + ys| - 1] == xs + init;
      ColumnAppend(xs, init, f);
      AppendAssoc(Column(xs, f), Column(init, f), [f(ys[|ys| - 1])]);
    }
  }
}
