/** `select_optimal_weather_stations`: pair every combustion-turbine and
    combined-cycle resource with its nearest weather station, then drop
    stations one at a time until at most the requested number remain,
    re-ranking after each drop.  Great-circle distances are an input
    (`dist`), not computed here. */
module StationSelection {
  import opened Floats
  import Frames
  import Text

  /** A resource row: its id and its unit type. */
  datatype Resource = Resource(id: string, unitType: string)

  /** The unit-type filter applied to the resources before pairing. */
  predicate IsThermal(r: Resource)
  {
    r.unitType == "COMBUSTION TURBINE" || r.unitType == "COMBINED CYCLE"
  }

  function ResourceId(r: Resource): string { r.id }

  /** The ids of the resources that take part, in resource order. */
  function ThermalIds(rs: seq<Resource>): seq<string>
  {
    Frames.Column(Frames.Filter(rs, IsThermal), ResourceId)
  }

  /** One row of the station-by-resource frame: StationID, ResourceID,
      Distance and DistanceRank. */
  datatype Pairing = Pairing(station: string, resource: string, distance: real, rank: nat)

  function StationOf(p: Pairing): string { p.station }

  function DistanceOf(p: Pairing): real { p.distance }

  /** The row with its DistanceRank cleared. */
  function Unranked(p: Pairing): Pairing { p.(rank := 0) }

  /** `DistanceRank == 1`. */
  predicate IsNearest(p: Pairing) { p.rank == 1 }

  function Other(u: string): string -> bool { s => s != u }

  function Named(s: string): string -> bool { s1 => s1 == s }

  function Among(xs: seq<string>): string -> bool { s => s in xs }

  /** A row mask that looks at the StationID only. */
  function AtStations(q: string -> bool): Pairing -> bool { (p: Pairing) => q(p.station) }

  function OfResource(r: string): Pairing -> bool { (p: Pairing) => p.resource == r }

  ghost predicate NoRepeats<T>(xs: seq<T>)
  {
    forall i, j :: 0 <= i < j < |xs| ==> xs[i] != xs[j]
  }

  // ---- the cross merge -------------------------------------------------------

  /** p is the unranked row of a station of ss and a resource of ids. */
  predicate InCross(p: Pairing, ss: seq<string>, ids: seq<string>, dist: (string, string) -> real)
  {
    p.station in ss && p.resource in ids && p.distance == dist(p.station, p.resource) && p.rank == 0
  }

  /** The rows the cross merge gives station s, in resource order; the
      DistanceRank column does not exist yet and reads 0. */
  function StationRows(s: string, ids: seq<string>, dist: (string, string) -> real): (r: seq<Pairing>)
    ensures |r| == |ids|
    ensures forall j :: 0 <= j < |ids| ==> r[j] == Pairing(s, ids[j], dist(s, ids[j]), 0)
    ensures forall p :: p in r <==> InCross(p, [s], ids, dist)
  {
    var r := seq(|ids|, j requires 0 <= j < |ids| => Pairing(s, ids[j], dist(s, ids[j]), 0));
    assert forall p :: InCross(p, [s], ids, dist) ==> p in r by {
      forall p | InCross(p, [s], ids, dist) ensures p in r {
        var j :| 0 <= j < |ids| && ids[j] == p.resource;
        assert r[j] == p;
      }
    }
    r
  }

  /** `weather_stations.merge(resources, how='cross')` with its Distance
      column: station-major, resources in order within each station. */
  function Cross(ss: seq<string>, ids: seq<string>, dist: (string, string) -> real): (r: seq<Pairing>)
    ensures forall p :: p in r <==> InCross(p, ss, ids, dist)
  {
    if ss == [] then []
    else
      var s := ss[|ss| - 1];
      assert forall x :: x in ss <==> x in ss[..|ss| - 1] || x == s;
      Cross(ss[..|ss| - 1], ids, dist) + StationRows(s, ids, dist)
  }

  /** Distinct stations and distinct resources give distinct rows. */
  lemma {:induction false} CrossNoRepeats(ss: seq<string>, ids: seq<string>, dist: (string, string) -> real)
    requires NoRepeats(ss) && NoRepeats(ids)
    ensures NoRepeats(Cross(ss, ids, dist))
  {
    if ss != [] {
      var init := ss[..|ss| - 1];
      var s := ss[|ss| - 1];
      CrossNoRepeats(init, ids, dist);
      var a := Cross(init, ids, dist);
      var b := StationRows(s, ids, dist);
      assert s !in init;
      forall i, j | 0 <= i < j < |a + b| ensures (a + b)[i] != (a + b)[j] {
        if j >= |a| && i < |a| {
          assert (a + b)[i] in a;
          assert (a + b)[j] in b;
        }
      }
    }
  }

  /** Masking the cross merge by station is the cross merge of the masked
      stations. */
  lemma {:induction false} CrossFilter(ss: seq<string>, ids: seq<string>, dist: (string, string) -> real, q: string -> bool)
    ensures Frames.Filter(Cross(ss, ids, dist), AtStations(q)) == Cross(Frames.Filter(ss, q), ids, dist)
  {
    if ss != [] {
      var init := ss[..|ss| - 1];
      var s := ss[|ss| - 1];
      var rows := StationRows(s, ids, dist);
      CrossFilter(init, ids, dist, q);
      Frames.FilterAppend(Cross(init, ids, dist), rows, AtStations(q));
      if q(s) {
        Frames.FilterAll(rows, AtStations(q));
        var kept := Frames.Filter(init, q) + [s];
        assert kept[..|kept| - 1] == Frames.Filter(init, q);
      } else {
        Frames.FilterNone(rows, AtStations(q));
      }
    }
  }

  // ---- DistanceRank ----------------------------------------------------------

  /** Row j ranks ahead of row i in i's resource group under
      `rank(method='first')`: nearer, or as near and earlier in the frame. */
  predicate Precedes(ps: seq<Pairing>, j: int, i: int)
    requires 0 <= j < |ps| && 0 <= i < |ps|
  {
    ps[j].resource == ps[i].resource
    && (ps[j].distance < ps[i].distance || (ps[j].distance == ps[i].distance && j < i))
  }

  function Preceding(ps: seq<Pairing>, i: int): set<int>
    requires 0 <= i < |ps|
  {
    set j | 0 <= j < |ps| && Precedes(ps, j, i)
  }

  /** No row of the same resource ranks ahead of row i. */
  predicate NearestAt(ps: seq<Pairing>, i: int)
    requires 0 <= i < |ps|
  {
    forall j :: 0 <= j < |ps| ==> !Precedes(ps, j, i)
  }

  /** `groupby('ResourceID').Distance.rank(method='first')` of row i. */
  function RankOf(ps: seq<Pairing>, i: int): nat
    requires 0 <= i < |ps|
  {
    1 + |Preceding(ps, i)|
  }

  /** Recomputing the DistanceRank column of a frame. */
  function Rerank(ps: seq<Pairing>): (r: seq<Pairing>)
    ensures |r| == |ps|
    ensures forall i :: 0 <= i < |ps| ==> r[i] == ps[i].(rank := RankOf(ps, i))
  {
    seq(|ps|, i requires 0 <= i < |ps| => ps[i].(rank := RankOf(ps, i)))
  }

  lemma RankOneNearest(ps: seq<Pairing>, i: int)
    requires 0 <= i < |ps|
    ensures RankOf(ps, i) == 1 <==> NearestAt(ps, i)
  {
    if !NearestAt(ps, i) {
      var j :| 0 <= j < |ps| && Precedes(ps, j, i);
      assert j in Preceding(ps, i);
    }
  }

  /** Rank 1 goes to the row whose distance is smallest in its resource
      group, the first such row in frame order when several tie. */
  lemma RankOneMeaning(ps: seq<Pairing>, i: int)
    requires 0 <= i < |ps|
    ensures Rerank(ps)[i].rank == 1 <==>
      (forall j :: 0 <= j < |ps| && ps[j].resource == ps[i].resource ==>
        ps[i].distance < ps[j].distance || (ps[i].distance == ps[j].distance && i <= j))
  {
    RankOneNearest(ps, i);
    assert Rerank(ps)[i].rank == RankOf(ps, i);
    forall j | 0 <= j < |ps|
      ensures !Precedes(ps, j, i) <==> (ps[j].resource == ps[i].resource ==>
        ps[i].distance < ps[j].distance || (ps[i].distance == ps[j].distance && i <= j))
    {
    }
  }

  /** A subset has at most as many elements, a strict one fewer. */
  lemma {:induction false} SubsetCard<T>(a: set<T>, b: set<T>)
    requires a <= b
    ensures |a| <= |b|
    ensures a < b ==> |a| < |b|
    decreases a
  {
    if a != {} {
      var x :| x in a;
      SubsetCard(a - {x}, b - {x});
      assert a - {x} < b - {x} <==> a < b;
    } else {
      assert a < b ==> exists y :: y in b;
    }
  }

  /** Every row's resource has a row nobody ranks ahead of. */
  lemma {:induction false} NearestExists(ps: seq<Pairing>, i: int) returns (k: int)
    requires 0 <= i < |ps|
    ensures 0 <= k < |ps| && ps[k].resource == ps[i].resource && NearestAt(ps, k)
    decreases |Preceding(ps, i)|
  {
    if NearestAt(ps, i) {
      k := i;
    } else {
      var j :| 0 <= j < |ps| && Precedes(ps, j, i);
      assert Preceding(ps, j) < Preceding(ps, i) by {
        assert j in Preceding(ps, i);
        assert j !in Preceding(ps, j);
      }
      SubsetCard(Preceding(ps, j), Preceding(ps, i));
      k := NearestExists(ps, j);
    }
  }

  /** p is the rank-1 row of resource r. */
  predicate NearestFor(p: Pairing, r: string) { p.rank == 1 && p.resource == r }

  /** p is rank 1 and q, a row of the same resource, is not nearer. */
  predicate NoFarther(p: Pairing, q: Pairing)
  {
    p.rank == 1 && q.resource == p.resource ==> p.distance <= q.distance
  }

  /** Two rank-1 rows of one resource. */
  predicate Twins(p: Pairing, q: Pairing)
  {
    p.rank == 1 && q.rank == 1 && p.resource == q.resource
  }

  /** Some row of ps is the rank-1 row of p's resource. */
  ghost predicate Served(ps: seq<Pairing>, p: Pairing)
  {
    exists q :: q in ps && NearestFor(q, p.resource)
  }

  /** What the loop relies on in a ranked frame: a rank-1 row is no farther
      than any row of its resource, it is the only rank-1 row of its
      resource, and every resource present has one. */
  ghost predicate RankedOk(ps: seq<Pairing>)
  {
    (forall p, q :: p in ps && q in ps ==> NoFarther(p, q))
    && (forall p, q :: p in ps && q in ps && Twins(p, q) ==> p == q)
    && (forall p :: p in ps ==> Served(ps, p))
  }

  /** A freshly ranked frame has exactly one nearest row per resource. */
  lemma RerankRanked(ps: seq<Pairing>)
    ensures RankedOk(Rerank(ps))
  {
    var r := Rerank(ps);
    forall i | 0 <= i < |ps| ensures r[i].rank == 1 <==> NearestAt(ps, i) {
      RankOneNearest(ps, i);
    }
    forall p, q | p in r && q in r ensures NoFarther(p, q) {
      var i :| 0 <= i < |r| && r[i] == p;
      var j :| 0 <= j < |r| && r[j] == q;
      assert p.rank == 1 ==> !Precedes(ps, j, i);
    }
    forall p, q | p in r && q in r && Twins(p, q) ensures p == q {
      var i :| 0 <= i < |r| && r[i] == p;
      var j :| 0 <= j < |r| && r[j] == q;
      assert !Precedes(ps, j, i) && !Precedes(ps, i, j);
    }
    forall p | p in r ensures Served(r, p) {
      var i :| 0 <= i < |r| && r[i] == p;
      var k := NearestExists(ps, i);
      assert r[k] in r && NearestFor(r[k], p.resource);
    }
  }

  /** A mask that keeps every rank-1 row keeps the frame ranked. */
  lemma RankedFilter(ps: seq<Pairing>, keep: Pairing -> bool)
    requires RankedOk(ps)
    requires forall p :: p in ps && IsNearest(p) ==> keep(p)
    ensures RankedOk(Frames.Filter(ps, keep))
  {
    var f := Frames.Filter(ps, keep);
    forall p | p in f ensures Served(f, p) {
      assert Served(ps, p);
      var q :| q in ps && NearestFor(q, p.resource);
      assert q in f;
    }
  }

  /** Every rank-1 row ranks ahead of its whole resource group, so
      re-ranking the frame would give it 1 again. */
  ghost predicate RankOneFirst(ps: seq<Pairing>)
  {
    forall i :: 0 <= i < |ps| && ps[i].rank == 1 ==> NearestAt(ps, i)
  }

  lemma RerankFirst(ps: seq<Pairing>)
    ensures RankOneFirst(Rerank(ps))
  {
    var r := Rerank(ps);
    forall i | 0 <= i < |r| && r[i].rank == 1 ensures NearestAt(r, i) {
      RankOneNearest(ps, i);
      forall j | 0 <= j < |r| ensures Precedes(r, j, i) == Precedes(ps, j, i) {
      }
    }
  }

  /** Masking rows keeps every rank-1 row ahead of its group: the mask keeps
      the rows' order, so no kept row overtakes it. */
  lemma RankOneFilter(ps: seq<Pairing>, keep: Pairing -> bool)
    requires RankOneFirst(ps)
    ensures RankOneFirst(Frames.Filter(ps, keep))
  {
    var f := Frames.Filter(ps, keep);
    forall k | 0 <= k < |f| && f[k].rank == 1 ensures NearestAt(f, k) {
      Frames.FilterOrder(ps, keep, k);
      var i :| 0 <= i < |ps| && ps[i] == f[k] && |Frames.Filter(ps[..i], keep)| == k && keep(ps[i]);
      forall l | 0 <= l < |f| ensures !Precedes(f, l, k) {
        NotOvertaken(ps, keep, i, k, l);
      }
    }
  }

  /** Row l of the masked frame does not overtake row k, the image of the
      rank-1 row i. */
  lemma NotOvertaken(ps: seq<Pairing>, keep: Pairing -> bool, i: nat, k: nat, l: nat)
    requires i < |ps| && NearestAt(ps, i)
    requires k < |Frames.Filter(ps, keep)| && l < |Frames.Filter(ps, keep)|
    requires ps[i] == Frames.Filter(ps, keep)[k] && |Frames.Filter(ps[..i], keep)| == k && keep(ps[i])
    ensures !Precedes(Frames.Filter(ps, keep), l, k)
  {
    var f := Frames.Filter(ps, keep);
    if Precedes(f, l, k) {
      Frames.FilterOrder(ps, keep, l);
      var j :| 0 <= j < |ps| && ps[j] == f[l] && |Frames.Filter(ps[..j], keep)| == l && keep(ps[j]);
      if f[l].distance == f[k].distance && i < j {
        Frames.FilterPrefixGrows(ps, keep, i, j);
      }
      assert Precedes(ps, j, i);
    }
  }

  /** Masking by station commutes with clearing the rank. */
  lemma {:induction false} UnrankedFilter(ps: seq<Pairing>, q: string -> bool)
    ensures Frames.Column(Frames.Filter(ps, AtStations(q)), Unranked)
         == Frames.Filter(Frames.Column(ps, Unranked), AtStations(q))
  {
    if ps != [] {
      var init := ps[..|ps| - 1];
      var p := ps[|ps| - 1];
      UnrankedFilter(init, q);
      var us := Frames.Column(ps, Unranked);
      assert us[..|us| - 1] == Frames.Column(init, Unranked);
      assert us[|us| - 1] == Unranked(p);
      if q(p.station) {
        var f := Frames.Filter(init, AtStations(q)) + [p];
        assert f[..|f| - 1] == Frames.Filter(init, AtStations(q));
      }
    }
  }

  lemma RerankUnranked(ps: seq<Pairing>)
    ensures Frames.Column(Rerank(ps), Unranked) == Frames.Column(ps, Unranked)
  {
  }

  // ---- the selection rule ----------------------------------------------------

  /** The rows with DistanceRank 1. */
  function NearestRows(ps: seq<Pairing>): seq<Pairing>
  {
    Frames.Filter(ps, IsNearest)
  }

  /** The station of each rank-1 row, in frame order. */
  function NearestStationIds(ps: seq<Pairing>): seq<string>
  {
    Frames.Column(NearestRows(ps), StationOf)
  }

  /** `.max()` of a column of distances: NaN when it is empty. */
  function MaxOf(xs: seq<real>): (r: Float)
    ensures r.Finite? <==> |xs| > 0
    ensures r.Finite? ==> r.v in xs && forall x :: x in xs ==> x <= r.v
  {
    if xs == [] then NaN
    else
      var m := MaxOf(xs[..|xs| - 1]);
      var x := xs[|xs| - 1];
      assert forall y :: y in xs <==> y in xs[..|xs| - 1] || y == x;
      if m.Finite? && m.v >= x then m else Finite(x)
  }

  /** `pairs.Distance.max()`. */
  function MaxDistance(pairs: seq<Pairing>): Float
  {
    MaxOf(Frames.Column(pairs, DistanceOf))
  }

  /** The largest distance from a resource to its nearest station. */
  function MaxNearest(ps: seq<Pairing>): Float
  {
    MaxDistance(NearestRows(ps))
  }

  /** The finite entries of the list never decrease. */
  predicate Ascending(xs: seq<Float>)
  {
    forall i, j :: 0 <= i < j < |xs| && xs[i].Finite? && xs[j].Finite? ==> xs[i].v <= xs[j].v
  }

  /** Number of resources whose nearest station is s. */
  function NearestCount(ps: seq<Pairing>, s: string): nat
  {
    |Frames.Filter(NearestRows(ps), AtStations(Named(s)))|
  }

  /** The station of xs with the smallest count, the lexicographically
      smallest one among those that tie. */
  function Fewest(xs: seq<string>, count: string -> nat): (r: string)
    requires |xs| > 0
    ensures r in xs
    ensures forall x :: x in xs ==> count(r) <= count(x)
    ensures forall x :: x in xs && count(x) == count(r) ==> !Text.LexLess(x, r)
  {
    if |xs| == 1 then
      Text.LexIrreflexive(xs[0]);
      xs[0]
    else
      var init := xs[..|xs| - 1];
      var m := Fewest(init, count);
      var x := xs[|xs| - 1];
      assert forall y :: y in xs <==> y in init || y == x;
      if count(x) < count(m) || (count(x) == count(m) && Text.LexLess(x, m)) then
        assert forall y :: y in init && count(y) == count(x) ==> !Text.LexLess(y, x) by {
          forall y | y in init && count(y) == count(x) && Text.LexLess(y, x) ensures false {
            Text.LexTransitive(y, x, m);
          }
        }
        Text.LexIrreflexive(x);
        x
      else
        m
  }

  /** How the loop picks the station to drop. */
  datatype Reading = AsWritten | Intended

  /** The station the loop drops.  As written, the `.min()` of the
      per-station count table is taken column by column, so its StationID
      entry is the smallest id among the stations nearest to some resource.
      As the comment above the loop intends, it is the station nearest to the
      fewest resources (the smallest id among ties, as `idxmin` over the
      sorted groups gives). */
  function Unfit(ps: seq<Pairing>, reading: Reading): (u: string)
    requires |NearestRows(ps)| > 0
    ensures u in NearestStationIds(ps)
    ensures reading.AsWritten? ==>
      forall s :: s in NearestStationIds(ps) ==> !Text.LexLess(s, u)
    ensures reading.Intended? ==>
      forall s :: s in NearestStationIds(ps) ==> NearestCount(ps, u) <= NearestCount(ps, s)
    ensures reading.Intended? ==>
      forall s :: s in NearestStationIds(ps) && NearestCount(ps, s) == NearestCount(ps, u)
        ==> !Text.LexLess(s, u)
  {
    match reading
    case AsWritten => Fewest(NearestStationIds(ps), s => 0)
    case Intended => Fewest(NearestStationIds(ps), s => NearestCount(ps, s))
  }

  /** A ranked frame where station "A" is nearest to resources r1 and r2 and
      station "B" to r3 only. */
  function TwoStationFrame(): seq<Pairing>
  {
    [Pairing("A", "r1", 1.0, 1), Pairing("A", "r2", 1.0, 1), Pairing("A", "r3", 5.0, 2),
     Pairing("B", "r1", 2.0, 2), Pairing("B", "r2", 2.0, 2), Pairing("B", "r3", 1.0, 1)]
  }

  /** The rank-1 rows of a six-row frame ranked 1, 1, 2, 2, 2, 1 (a step of
      the witness SmallestIdNotFewest). */
  lemma NearestOfSix(ps: seq<Pairing>)
    requires |ps| == 6 && ps[0].rank == 1 && ps[1].rank == 1 && ps[5].rank == 1
    requires ps[2].rank == 2 && ps[3].rank == 2 && ps[4].rank == 2
    ensures NearestRows(ps) == [ps[0], ps[1], ps[5]]
  {
    var front := ps[..5];
    assert ps == front + [ps[5]];
    NearestOfFive(front);
    Frames.FilterAll([ps[5]], IsNearest);
    Frames.FilterAppend(front, [ps[5]], IsNearest);
  }

  /** The rank-1 rows of a five-row frame ranked 1, 1, 2, 2, 2 (a step of
      the witness SmallestIdNotFewest). */
  lemma NearestOfFive(ps: seq<Pairing>)
    requires |ps| == 5 && ps[0].rank == 1 && ps[1].rank == 1
    requires ps[2].rank == 2 && ps[3].rank == 2 && ps[4].rank == 2
    ensures NearestRows(ps) == [ps[0], ps[1]]
  {
    var near, far := ps[..2], ps[2..];
    assert ps == near + far;
    Frames.FilterAll(near, IsNearest);
    Frames.FilterNone(far, IsNearest);
    Frames.FilterAppend(near, far, IsNearest);
  }

  /** Station counts over three rank-1 rows at stations a, a and b (a step
      of the witness SmallestIdNotFewest). */
  lemma CountsOfThree(ns: seq<Pairing>, a: string, b: string)
    requires |ns| == 3 && ns[0].station == a && ns[1].station == a && ns[2].station == b && a != b
    ensures |Frames.Filter(ns, AtStations(Named(a)))| == 2 && |Frames.Filter(ns, AtStations(Named(b)))| == 1
  {
    var front, last := ns[..2], [ns[2]];
    assert ns == front + last;
    var isA, isB := AtStations(Named(a)), AtStations(Named(b));
    Frames.FilterAll(front, isA);
    Frames.FilterNone(last, isA);
    Frames.FilterAppend(front, last, isA);
    Frames.FilterNone(front, isB);
    Frames.FilterAll(last, isB);
    Frames.FilterAppend(front, last, isB);
  }

  /** On that frame the code drops "A", the station nearest to more
      resources, where the comment's rule drops "B". */
  lemma SmallestIdNotFewest()
    ensures NearestCount(TwoStationFrame(), "A") == 2 && NearestCount(TwoStationFrame(), "B") == 1
    ensures Unfit(TwoStationFrame(), AsWritten) == "A"
    ensures Unfit(TwoStationFrame(), Intended) == "B"
  {
    var ps := TwoStationFrame();
    NearestOfSix(ps);
    var ns := NearestRows(ps);
    assert ns == [Pairing("A", "r1", 1.0, 1), Pairing("A", "r2", 1.0, 1), Pairing("B", "r3", 1.0, 1)];
    var ids := NearestStationIds(ps);
    assert |ids| == 3 && ids[0] == "A" && ids[1] == "A" && ids[2] == "B";
    assert ids == ["A", "A", "B"];
    CountsOfThree(ns, "A", "B");
    assert Text.LexLess("A", "B");
  }

  // ---- the elimination loop --------------------------------------------------

  /** The frame after the distance ranking: every station against every
      participating resource. */
  function Ranking(stations: seq<string>, ids: seq<string>, dist: (string, string) -> real): seq<Pairing>
  {
    Rerank(Cross(stations, ids, dist))
  }

  /** The stations with `MinDistanceRank == 1`: those nearest to at least one
      resource, in station order. */
  function NearestStations(ss: seq<string>, ps: seq<Pairing>): (r: seq<string>)
    ensures forall s :: s in r <==> s in ss && s in NearestStationIds(ps)
  {
    Frames.Filter(ss, Among(NearestStationIds(ps)))
  }

  lemma {:induction false} CardNoRepeats<T>(xs: seq<T>)
    requires NoRepeats(xs)
    ensures |set x | x in xs| == |xs|
  {
    if xs != [] {
      var init := xs[..|xs| - 1];
      var x := xs[|xs| - 1];
      CardNoRepeats(init);
      assert (set y | y in xs) == (set y | y in init) + {x};
      assert x !in init;
    }
  }

  /** A repeat-free list inside another has at most its length. */
  lemma NoRepeatsWithin<T>(xs: seq<T>, ys: seq<T>)
    requires NoRepeats(xs) && NoRepeats(ys)
    requires forall x :: x in xs ==> x in ys
    ensures |xs| <= |ys|
  {
    CardNoRepeats(xs);
    CardNoRepeats(ys);
    SubsetCard(set x | x in xs, set y | y in ys);
  }

  /** Row p of a cross-merged frame, seen through its cleared rank. */
  lemma CrossRow(ps: seq<Pairing>, kept: seq<string>, ids: seq<string>, dist: (string, string) -> real, p: Pairing)
    requires Frames.Column(ps, Unranked) == Cross(kept, ids, dist)
    requires p in ps
    ensures p.station in kept && p.resource in ids && p.distance == dist(p.station, p.resource)
  {
    assert Unranked(p) in Frames.Column(ps, Unranked);
  }

  /** The row of station s and resource r in a cross-merged frame. */
  lemma CrossAt(ps: seq<Pairing>, kept: seq<string>, ids: seq<string>, dist: (string, string) -> real, s: string, r: string)
    returns (p: Pairing)
    requires Frames.Column(ps, Unranked) == Cross(kept, ids, dist)
    requires s in kept && r in ids
    ensures p in ps && p.station == s && p.resource == r && p.distance == dist(s, r)
  {
    var x := Pairing(s, r, dist(s, r), 0);
    assert InCross(x, kept, ids, dist);
    assert x in Frames.Column(ps, Unranked);
    p :| p in ps && x == Unranked(p);
  }

  /** The StationID column of a cross-merged frame holds exactly the
      remaining stations, provided some resource takes part. */
  lemma CrossStations(ps: seq<Pairing>, kept: seq<string>, ids: seq<string>, dist: (string, string) -> real)
    requires Frames.Column(ps, Unranked) == Cross(kept, ids, dist)
    requires |ids| > 0
    ensures forall s :: s in Frames.Column(ps, StationOf) <==> s in kept
  {
    forall s | s in kept ensures s in Frames.Column(ps, StationOf) {
      var p := CrossAt(ps, kept, ids, dist, s, ids[0]);
      assert StationOf(p) in Frames.Column(ps, StationOf);
    }
    forall s | s in Frames.Column(ps, StationOf) ensures s in kept {
      var p :| p in ps && s == StationOf(p);
      CrossRow(ps, kept, ids, dist, p);
    }
  }

  /** `len(combined.StationID.unique())` of a cross-merged frame. */
  lemma StationCount(ps: seq<Pairing>, kept: seq<string>, ids: seq<string>, dist: (string, string) -> real)
    requires Frames.Column(ps, Unranked) == Cross(kept, ids, dist)
    requires NoRepeats(kept)
    ensures |Frames.Distinct(Frames.Column(ps, StationOf))| == if |ids| == 0 then 0 else |kept|
  {
    var us := Frames.Distinct(Frames.Column(ps, StationOf));
    if |ids| == 0 {
      assert |ps| > 0 ==> Unranked(ps[0]) in Cross(kept, ids, dist);
    } else {
      CrossStations(ps, kept, ids, dist);
      NoRepeatsWithin(us, kept);
      NoRepeatsWithin(kept, us);
    }
  }

  /** Dropping one present station of a repeat-free list shortens it by one. */
  lemma {:induction false} DropOne(kept: seq<string>, u: string)
    requires NoRepeats(kept) && u in kept
    ensures |Frames.Filter(kept, Other(u))| == |kept| - 1
    ensures NoRepeats(Frames.Filter(kept, Other(u)))
  {
    Frames.FilterKeepsDistinct(kept, Other(u));
    var init := kept[..|kept| - 1];
    if kept[|kept| - 1] == u {
      assert u !in init;
      Frames.FilterAll(init, Other(u));
    } else {
      DropOne(init, u);
    }
  }

  /** Ranking the cross merge changes only the DistanceRank column. */
  lemma RankingCross(stations: seq<string>, ids: seq<string>, dist: (string, string) -> real)
    ensures Frames.Column(Rerank(Cross(stations, ids, dist)), Unranked) == Cross(stations, ids, dist)
  {
    var cross := Cross(stations, ids, dist);
    RerankUnranked(cross);
    forall i | 0 <= i < |cross| ensures Unranked(cross[i]) == cross[i] {
      assert cross[i] in cross;
    }
  }

  /** Keeping the stations nearest to some resource keeps a cross merge. */
  lemma NearestFilterCross(stations: seq<string>, ids: seq<string>, dist: (string, string) -> real)
    ensures var ranking := Rerank(Cross(stations, ids, dist));
      var nearest := NearestStations(stations, ranking);
      Frames.Column(Frames.Filter(ranking, AtStations(Among(nearest))), Unranked) == Cross(nearest, ids, dist)
  {
    var ranking := Rerank(Cross(stations, ids, dist));
    var nearest := NearestStations(stations, ranking);
    RankingCross(stations, ids, dist);
    UnrankedFilter(ranking, Among(nearest));
    CrossFilter(stations, ids, dist, Among(nearest));
    Frames.FilterCongruent(stations, Among(nearest), Among(NearestStationIds(ranking)));
  }

  /** That filter keeps every rank-1 row, so the frame stays ranked and its
      largest nearest distance is unchanged. */
  lemma NearestFilterRanked(stations: seq<string>, ids: seq<string>, dist: (string, string) -> real)
    ensures var ranking := Rerank(Cross(stations, ids, dist));
      var c := Frames.Filter(ranking, AtStations(Among(NearestStations(stations, ranking))));
      RankedOk(c) && MaxNearest(c) == MaxNearest(ranking)
  {
    var cross := Cross(stations, ids, dist);
    var ranking := Rerank(cross);
    var keep := AtStations(Among(NearestStations(stations, ranking)));
    RankingCross(stations, ids, dist);
    RerankRanked(cross);
    forall p | p in ranking && IsNearest(p) ensures keep(p) {
      CrossRow(ranking, stations, ids, dist, p);
      assert StationOf(p) in NearestStationIds(ranking);
    }
    RankedFilter(ranking, keep);
    Frames.FilterNarrow(ranking, keep, IsNearest);
  }

  /** Some station is nearest to a resource when both lists are nonempty. */
  lemma NearestNonEmpty(stations: seq<string>, ids: seq<string>, dist: (string, string) -> real)
    requires |stations| > 0 && |ids| > 0
    ensures |NearestStations(stations, Rerank(Cross(stations, ids, dist)))| > 0
  {
    var cross := Cross(stations, ids, dist);
    var ranking := Rerank(cross);
    RankingCross(stations, ids, dist);
    RerankRanked(cross);
    var p := CrossAt(ranking, stations, ids, dist, stations[0], ids[0]);
    assert Served(ranking, p);
    var q :| q in ranking && NearestFor(q, p.resource);
    CrossRow(ranking, stations, ids, dist, q);
    assert StationOf(q) in NearestStationIds(ranking);
    assert q.station in NearestStations(stations, ranking);
  }

  /** Every row of a re-ranked frame is a row of the frame with a new rank. */
  lemma RerankSource(f: seq<Pairing>, q: Pairing) returns (x: Pairing)
    requires q in Rerank(f)
    ensures x in f && q == x.(rank := q.rank)
  {
    var i :| 0 <= i < |Rerank(f)| && Rerank(f)[i] == q;
    x := f[i];
  }

  /** Every resource of a frame has a rank-1 row once the frame is re-ranked. */
  lemma RerankCovers(f: seq<Pairing>, x: Pairing) returns (q: Pairing)
    requires x in f
    ensures q in NearestRows(Rerank(f)) && q.resource == x.resource
  {
    var i :| 0 <= i < |f| && f[i] == x;
    RerankRanked(f);
    var r := Rerank(f);
    assert r[i] in r && Served(r, r[i]);
    q :| q in r && NearestFor(q, x.resource);
  }

  /** The largest nearest distance bounds every rank-1 row. */
  lemma MaxAtLeast(ps: seq<Pairing>, q: Pairing)
    requires q in NearestRows(ps)
    ensures MaxNearest(ps).Finite? && q.distance <= MaxNearest(ps).v
  {
    assert DistanceOf(q) in Frames.Column(NearestRows(ps), DistanceOf);
  }

  /** The largest nearest distance is that of some rank-1 row. */
  lemma MaxAttained(ps: seq<Pairing>) returns (p: Pairing)
    requires |NearestRows(ps)| > 0
    ensures p in NearestRows(ps) && MaxNearest(ps) == Finite(p.distance)
  {
    assert DistanceOf(NearestRows(ps)[0]) in Frames.Column(NearestRows(ps), DistanceOf);
    var m := MaxNearest(ps).v;
    p :| p in NearestRows(ps) && m == DistanceOf(p);
  }

  /** Dropping a station never brings any resource nearer to its nearest
      station, so the largest such distance does not shrink. */
  lemma MaxGrows(ps: seq<Pairing>, kept: seq<string>, ids: seq<string>, dist: (string, string) -> real, u: string)
    requires Frames.Column(ps, Unranked) == Cross(kept, ids, dist)
    requires RankedOk(ps) && |NearestRows(ps)| > 0
    ensures var next := Rerank(Frames.Filter(ps, AtStations(Other(u))));
      MaxNearest(ps).Finite? && (MaxNearest(next).Finite? ==> MaxNearest(ps).v <= MaxNearest(next).v)
  {
    var f := Frames.Filter(ps, AtStations(Other(u)));
    var next := Rerank(f);
    var p0 := MaxAttained(ps);
    if MaxNearest(next).Finite? {
      assert f[0] in f;
      CrossRow(ps, kept, ids, dist, f[0]);
      CrossRow(ps, kept, ids, dist, p0);
      var p1 := CrossAt(ps, kept, ids, dist, f[0].station, p0.resource);
      assert AtStations(Other(u))(p1);
      var q := RerankCovers(f, p1);
      var x := RerankSource(f, q);
      assert NoFarther(p0, x);
      MaxAtLeast(next, q);
    }
  }

  /** The frame is the ranked cross merge of the stations `kept`, which
      are listed without repeats. */
  ghost predicate CrossRanked(ps: seq<Pairing>, kept: seq<string>, ids: seq<string>, dist: (string, string) -> real)
  {
    Frames.Column(ps, Unranked) == Cross(kept, ids, dist) && RankedOk(ps) && NoRepeats(kept)
  }

  /** One pass of the loop: the dropped station is present, the frame stays
      the ranked cross merge of the remaining stations, and the largest
      nearest distance does not shrink. */
  lemma EliminationStep(ps: seq<Pairing>, kept: seq<string>, ids: seq<string>, dist: (string, string) -> real, reading: Reading)
    requires CrossRanked(ps, kept, ids, dist) && |kept| > 0 && |ids| > 0
    ensures |NearestRows(ps)| > 0
    ensures var u := Unfit(ps, reading);
      var next := Rerank(Frames.Filter(ps, AtStations(Other(u))));
      && u in kept
      && |Frames.Filter(kept, Other(u))| == |kept| - 1
      && CrossRanked(next, Frames.Filter(kept, Other(u)), ids, dist)
      && MaxNearest(ps).Finite?
      && (MaxNearest(next).Finite? ==> MaxNearest(ps).v <= MaxNearest(next).v)
  {
    var p := CrossAt(ps, kept, ids, dist, kept[0], ids[0]);
    assert Served(ps, p);
    var p0 :| p0 in ps && NearestFor(p0, p.resource);
    assert p0 in NearestRows(ps);
    var u := Unfit(ps, reading);
    var pu :| pu in NearestRows(ps) && u == StationOf(pu);
    CrossRow(ps, kept, ids, dist, pu);
    DropOne(kept, u);
    var f := Frames.Filter(ps, AtStations(Other(u)));
    UnrankedFilter(ps, Other(u));
    CrossFilter(kept, ids, dist, Other(u));
    RerankUnranked(f);
    RerankRanked(f);
    MaxGrows(ps, kept, ids, dist, u);
  }

  /** A repeat-free list holding q and nothing else is [q]. */
  lemma OnlyOne<T>(xs: seq<T>, q: T)
    requires NoRepeats(xs) && q in xs
    requires forall x :: x in xs ==> x == q
    ensures |xs| == 1
  {
    CardNoRepeats(xs);
    assert (set x | x in xs) == {q};
  }

  /** p is a rank-1 row of a station of ss and a resource of ids. */
  predicate Paired(p: Pairing, ss: seq<string>, ids: seq<string>, dist: (string, string) -> real)
  {
    p.rank == 1 && p.station in ss && p.resource in ids && p.distance == dist(p.station, p.resource)
  }

  /** p's resource is no nearer to station s than to p's own station. */
  predicate NoNearerAt(p: Pairing, s: string, dist: (string, string) -> real)
  {
    p.distance <= dist(s, p.resource)
  }

  lemma NearestPaired(ps: seq<Pairing>, kept: seq<string>, ids: seq<string>, dist: (string, string) -> real)
    requires Frames.Column(ps, Unranked) == Cross(kept, ids, dist)
    requires RankedOk(ps)
    ensures forall p :: p in NearestRows(ps) ==> Paired(p, kept, ids, dist)
    ensures forall p, s :: p in NearestRows(ps) && s in kept ==> NoNearerAt(p, s, dist)
  {
    forall p | p in NearestRows(ps) ensures Paired(p, kept, ids, dist) {
      CrossRow(ps, kept, ids, dist, p);
    }
    forall p, s | p in NearestRows(ps) && s in kept ensures NoNearerAt(p, s, dist) {
      CrossRow(ps, kept, ids, dist, p);
      var q := CrossAt(ps, kept, ids, dist, s, p.resource);
      assert NoFarther(p, q);
    }
  }

  /** A cross-merged frame of distinct stations and resources has no
      repeated row. */
  lemma FrameNoRepeats(ps: seq<Pairing>, kept: seq<string>, ids: seq<string>, dist: (string, string) -> real)
    requires Frames.Column(ps, Unranked) == Cross(kept, ids, dist)
    requires NoRepeats(kept) && NoRepeats(ids)
    ensures NoRepeats(ps)
  {
    CrossNoRepeats(kept, ids, dist);
    forall i, j | 0 <= i < j < |ps| ensures ps[i] != ps[j] {
      assert Frames.Column(ps, Unranked)[i] != Frames.Column(ps, Unranked)[j];
    }
  }

  /** With a station left, resource r has exactly one rank-1 row. */
  lemma OneNearestFor(ps: seq<Pairing>, kept: seq<string>, ids: seq<string>, dist: (string, string) -> real, r: string)
    requires Frames.Column(ps, Unranked) == Cross(kept, ids, dist)
    requires RankedOk(ps) && NoRepeats(NearestRows(ps)) && |kept| > 0 && r in ids
    ensures |Frames.Filter(NearestRows(ps), OfResource(r))| == 1
  {
    var p := CrossAt(ps, kept, ids, dist, kept[0], r);
    assert Served(ps, p);
    var q :| q in ps && NearestFor(q, r);
    var near := NearestRows(ps);
    var rs := Frames.Filter(near, OfResource(r));
    assert q in near;
    assert q in rs;
    Frames.FilterKeepsDistinct(near, OfResource(r));
    forall x | x in rs ensures x == q {
      assert x in near;
      assert x in ps && Twins(x, q);
    }
    OnlyOne(rs, q);
  }

  /** With a station left, every resource has exactly one rank-1 row. */
  lemma OneNearestEach(ps: seq<Pairing>, kept: seq<string>, ids: seq<string>, dist: (string, string) -> real)
    requires Frames.Column(ps, Unranked) == Cross(kept, ids, dist)
    requires RankedOk(ps) && NoRepeats(kept) && NoRepeats(ids) && |kept| > 0
    ensures forall r :: r in ids ==> |Frames.Filter(NearestRows(ps), OfResource(r))| == 1
  {
    FrameNoRepeats(ps, kept, ids, dist);
    Frames.FilterKeepsDistinct(ps, IsNearest);
    forall r | r in ids ensures |Frames.Filter(NearestRows(ps), OfResource(r))| == 1 {
      OneNearestFor(ps, kept, ids, dist, r);
    }
  }

  lemma AscendingAppend(xs: seq<Float>, x: Float)
    requires Ascending(xs) && |xs| > 0 && xs[|xs| - 1].Finite?
    requires x.Finite? ==> xs[|xs| - 1].v <= x.v
    ensures Ascending(xs + [x])
  {
  }

  /** `pairs.StationID.unique()`: the stations of the rank-1 rows. */
  function SelectedStations(ps: seq<Pairing>): seq<string>
  {
    Frames.Distinct(Frames.Column(NearestRows(ps), StationOf))
  }

  /** What the loop leaves once at most n stations remain: the selected
      stations are remaining ones, at most n and without repeats; every
      rank-1 row pairs a resource with its nearest selected station; with
      a station left each resource has one such row; with n = 0 nothing is
      left. */
  lemma Selection(ps: seq<Pairing>, kept: seq<string>, ids: seq<string>, dist: (string, string) -> real, n: int)
    requires Frames.Column(ps, Unranked) == Cross(kept, ids, dist)
    requires RankedOk(ps) && NoRepeats(kept) && NoRepeats(ids)
    requires |Frames.Distinct(Frames.Column(ps, StationOf))| <= n
    ensures var selected := SelectedStations(ps);
      && |selected| <= n && NoRepeats(selected)
      && (forall s :: s in selected <==> s in Frames.Column(NearestRows(ps), StationOf))
      && (forall s :: s in selected ==> s in kept)
      && (forall p :: p in NearestRows(ps) ==> Paired(p, selected, ids, dist))
      && (forall p, s :: p in NearestRows(ps) && s in selected ==> NoNearerAt(p, s, dist))
      && (|kept| > 0 ==> forall r :: r in ids ==> |Frames.Filter(NearestRows(ps), OfResource(r))| == 1)
      && (n == 0 ==> NearestRows(ps) == [] && selected == [])
  {
    var pairs := NearestRows(ps);
    var selected := SelectedStations(ps);
    var all := Frames.Distinct(Frames.Column(ps, StationOf));
    NearestPaired(ps, kept, ids, dist);
    if |kept| > 0 {
      OneNearestEach(ps, kept, ids, dist);
    }
    forall s | s in selected ensures s in all && s in kept {
      var p :| p in pairs && s == StationOf(p);
      assert StationOf(p) in Frames.Column(ps, StationOf);
    }
    forall p | p in pairs ensures Paired(p, selected, ids, dist) {
      assert StationOf(p) in Frames.Column(pairs, StationOf);
    }
    NoRepeatsWithin(selected, all);
    assert |ps| > 0 ==> StationOf(ps[0]) in all;
  }

  /** The remaining stations are some of the initially nearest ones, at
      least n of them unless none was dropped, and one has been dropped per
      recorded distance after the first. */
  ghost predicate KeptWithin(kept: seq<string>, nearest: seq<string>, n: int, records: nat)
  {
    && (forall s :: s in kept ==> s in nearest)
    && (|kept| >= n || kept == nearest)
    && records - 1 + |kept| == |nearest|
  }

  /** The recorded distances start at `first`, end at `last`, and their
      finite entries never decrease. */
  ghost predicate RecordedSoFar(recorded: seq<Float>, first: Float, last: Float)
  {
    |recorded| >= 1 && recorded[0] == first && recorded[|recorded| - 1] == last && Ascending(recorded)
  }

  /** What holds each time the loop tests its condition: the frame is the
      ranked cross merge of the remaining stations, and the distances
      recorded so far end with the current frame's. */
  ghost predicate Progress(ps: seq<Pairing>, kept: seq<string>, nearest: seq<string>, ids: seq<string>,
                           dist: (string, string) -> real, n: int, recorded: seq<Float>, first: Float)
  {
    && CrossRanked(ps, kept, ids, dist)
    && KeptWithin(kept, nearest, n, |recorded|)
    && RecordedSoFar(recorded, first, MaxNearest(ps))
  }

  lemma KeptStep(kept: seq<string>, nearest: seq<string>, n: int, records: nat, u: string)
    requires KeptWithin(kept, nearest, n, records) && |kept| > n
    requires |Frames.Filter(kept, Other(u))| == |kept| - 1
    ensures KeptWithin(Frames.Filter(kept, Other(u)), nearest, n, records + 1)
  {
  }

  lemma RecordStep(recorded: seq<Float>, first: Float, last: Float, x: Float)
    requires RecordedSoFar(recorded, first, last) && last.Finite?
    requires x.Finite? ==> last.v <= x.v
    ensures RecordedSoFar(recorded + [x], first, x)
  {
    AscendingAppend(recorded, x);
  }

  /** The state the loop starts from. */
  lemma Start(stations: seq<string>, ids: seq<string>, dist: (string, string) -> real, n: int)
    requires NoRepeats(stations)
    ensures var ranking := Ranking(stations, ids, dist);
      var nearest := NearestStations(stations, ranking);
      Progress(Frames.Filter(ranking, AtStations(Among(nearest))), nearest, nearest, ids, dist, n,
               [MaxNearest(ranking)], MaxNearest(ranking))
  {
    var ranking := Ranking(stations, ids, dist);
    NearestFilterCross(stations, ids, dist);
    NearestFilterRanked(stations, ids, dist);
    Frames.FilterKeepsDistinct(stations, Among(NearestStationIds(ranking)));
  }

  /** One pass of the loop keeps Progress and drops one station. */
  lemma Step(ps: seq<Pairing>, kept: seq<string>, nearest: seq<string>, ids: seq<string>,
             dist: (string, string) -> real, n: int, recorded: seq<Float>, first: Float, reading: Reading)
    requires n >= 0 && Progress(ps, kept, nearest, ids, dist, n, recorded, first)
    requires |Frames.Distinct(Frames.Column(ps, StationOf))| > n
    ensures |NearestRows(ps)| > 0
    ensures var u := Unfit(ps, reading);
      var next := Rerank(Frames.Filter(ps, AtStations(Other(u))));
      && Progress(next, Frames.Filter(kept, Other(u)), nearest, ids, dist, n, recorded + [MaxNearest(next)], first)
      && |Frames.Filter(kept, Other(u))| < |kept|
  {
    StationCount(ps, kept, ids, dist);
    EliminationStep(ps, kept, ids, dist, reading);
    var u := Unfit(ps, reading);
    var next := Rerank(Frames.Filter(ps, AtStations(Other(u))));
    KeptStep(kept, nearest, n, |recorded|, u);
    RecordStep(recorded, first, MaxNearest(ps), MaxNearest(next));
  }

  /** The selection: every returned station is one of the initially nearest
      stations, there are at most n of them and none twice, and they are the
      stations of the returned pairs; each pair is a rank-1 row of a selected
      station and a resource, no selected station is nearer to that
      resource; with n >= 1 and some station every resource has exactly one
      pair; with n = 0 nothing is returned. */
  ghost predicate Chosen(stations: seq<string>, ids: seq<string>, dist: (string, string) -> real, n: int,
                         selected: seq<string>, pairs: seq<Pairing>)
  {
    && |selected| <= n && NoRepeats(selected)
    && (forall s :: s in selected <==> s in Frames.Column(pairs, StationOf))
    && (forall s :: s in selected ==> s in NearestStations(stations, Ranking(stations, ids, dist)))
    && (forall p :: p in pairs ==> Paired(p, selected, ids, dist))
    && (forall p, s :: p in pairs && s in selected ==> NoNearerAt(p, s, dist))
    && (n >= 1 && |stations| > 0 ==> forall r :: r in ids ==> |Frames.Filter(pairs, OfResource(r))| == 1)
    && (n == 0 ==> pairs == [] && selected == [])
  }

  /** The recorded distances: the first for the initial ranking, the last
      the largest distance among the returned pairs, never decreasing. */
  ghost predicate Recorded(stations: seq<string>, ids: seq<string>, dist: (string, string) -> real,
                           pairs: seq<Pairing>, recorded: seq<Float>)
  {
    && |recorded| >= 1 && recorded[0] == MaxNearest(Ranking(stations, ids, dist))
    && recorded[|recorded| - 1] == MaxDistance(pairs)
    && Ascending(recorded)
  }

  /** Once at most n stations remain, the rank-1 rows are the selection. */
  lemma Finish(stations: seq<string>, ps: seq<Pairing>, kept: seq<string>, ids: seq<string>,
               dist: (string, string) -> real, n: int, recorded: seq<Float>)
    requires NoRepeats(stations) && NoRepeats(ids)
    requires var nearest := NearestStations(stations, Ranking(stations, ids, dist));
      Progress(ps, kept, nearest, ids, dist, n, recorded, MaxNearest(Ranking(stations, ids, dist)))
    requires |Frames.Distinct(Frames.Column(ps, StationOf))| <= n
    ensures Chosen(stations, ids, dist, n, SelectedStations(ps), NearestRows(ps))
    ensures Recorded(stations, ids, dist, NearestRows(ps), recorded)
  {
    var nearest := NearestStations(stations, Ranking(stations, ids, dist));
    Selection(ps, kept, ids, dist, n);
    if n >= 1 && |stations| > 0 && |ids| > 0 {
      NearestNonEmpty(stations, ids, dist);
      assert |kept| > 0;
    }
  }

  /** Every remaining station is still nearest to some resource. */
  ghost predicate Covered(ps: seq<Pairing>, kept: seq<string>)
  {
    forall s :: s in kept ==> s in NearestStationIds(ps)
  }

  /** As written, every dropped station sorts before every remaining one. */
  ghost predicate DroppedBefore(kept: seq<string>, nearest: seq<string>, reading: Reading)
  {
    reading.AsWritten? ==> forall d, s :: d in nearest && d !in kept && s in kept ==> Text.LexLess(d, s)
  }

  /** What the loop keeps about the remaining stations themselves. */
  ghost predicate Survivors(ps: seq<Pairing>, kept: seq<string>, nearest: seq<string>, reading: Reading)
  {
    RankOneFirst(ps) && Covered(ps, kept) && DroppedBefore(kept, nearest, reading)
  }

  /** The rank-1 rows of the initial ranking survive the mask to the
      nearest stations. */
  lemma SurvivorStart(stations: seq<string>, ids: seq<string>, dist: (string, string) -> real, reading: Reading)
    ensures var ranking := Ranking(stations, ids, dist);
      var nearest := NearestStations(stations, ranking);
      Survivors(Frames.Filter(ranking, AtStations(Among(nearest))), nearest, nearest, reading)
  {
    var ranking := Ranking(stations, ids, dist);
    var nearest := NearestStations(stations, ranking);
    var keep := AtStations(Among(nearest));
    var ps := Frames.Filter(ranking, keep);
    RerankFirst(Cross(stations, ids, dist));
    RankOneFilter(ranking, keep);
    forall s | s in nearest ensures s in NearestStationIds(ps) {
      var p :| p in NearestRows(ranking) && s == StationOf(p);
      assert p in NearestRows(ps);
      assert StationOf(p) in NearestStationIds(ps);
    }
  }

  /** A station other than the dropped one keeps its rank-1 row through the
      re-ranking: no remaining row of that resource overtakes it. */
  lemma StillNearest(ps: seq<Pairing>, u: string, s: string)
    requires RankOneFirst(ps) && s in NearestStationIds(ps) && s != u
    ensures s in NearestStationIds(Rerank(Frames.Filter(ps, AtStations(Other(u)))))
  {
    var f := Frames.Filter(ps, AtStations(Other(u)));
    RankOneFilter(ps, AtStations(Other(u)));
    var p :| p in NearestRows(ps) && s == StationOf(p);
    assert p in f;
    var k :| 0 <= k < |f| && f[k] == p;
    RankOneNearest(f, k);
    var q := Rerank(f)[k];
    assert q in NearestRows(Rerank(f));
    assert StationOf(q) in NearestStationIds(Rerank(f));
  }

  /** One pass keeps Survivors: the remaining stations stay nearest to some
      resource and, as written, the dropped one sorts before all of them. */
  lemma SurvivorStep(ps: seq<Pairing>, kept: seq<string>, nearest: seq<string>, reading: Reading)
    requires Survivors(ps, kept, nearest, reading) && |NearestRows(ps)| > 0
    ensures var u := Unfit(ps, reading);
      Survivors(Rerank(Frames.Filter(ps, AtStations(Other(u)))), Frames.Filter(kept, Other(u)), nearest, reading)
  {
    var u := Unfit(ps, reading);
    var next := Rerank(Frames.Filter(ps, AtStations(Other(u))));
    var rest := Frames.Filter(kept, Other(u));
    RerankFirst(Frames.Filter(ps, AtStations(Other(u))));
    forall s | s in rest ensures s in NearestStationIds(next) {
      StillNearest(ps, u, s);
    }
    if reading.AsWritten? {
      forall d, s | d in nearest && d !in rest && s in rest ensures Text.LexLess(d, s) {
        if d in kept {
          Text.LexTotal(u, s);
        }
      }
    }
  }

  /** The list of remaining stations the loop leaves: with at most n
      left, exactly min(n, number of nearest stations) of them, and, as
      written, every station dropped sorts before every one kept. */
  ghost predicate Survived(stations: seq<string>, ids: seq<string>, dist: (string, string) -> real, n: int,
                           reading: Reading, selected: seq<string>)
  {
    var nearest := NearestStations(stations, Ranking(stations, ids, dist));
    && |selected| == (if |nearest| <= n then |nearest| else n)
    && (reading.AsWritten? ==>
          forall d, s :: d in nearest && d !in selected && s in selected ==> Text.LexLess(d, s))
  }

  /** Without resources the cross merge is empty. */
  lemma CrossNoResources(stations: seq<string>, dist: (string, string) -> real)
    ensures Cross(stations, [], dist) == []
  {
    var cross := Cross(stations, [], dist);
    assert forall p :: p !in cross;
  }

  /** Without resources there is no nearest station. */
  lemma NoResources(stations: seq<string>, dist: (string, string) -> real)
    ensures NearestStations(stations, Ranking(stations, [], dist)) == []
  {
    CrossNoResources(stations, dist);
    var nearest := NearestStations(stations, Ranking(stations, [], dist));
    assert NearestStationIds(Ranking(stations, [], dist)) == [];
    Frames.FilterNone(stations, Among([]));
  }

  /** While every remaining station is nearest to some resource, the
      selected stations are exactly the remaining ones. */
  lemma SelectedAreKept(ps: seq<Pairing>, kept: seq<string>, ids: seq<string>, dist: (string, string) -> real)
    requires CrossRanked(ps, kept, ids, dist) && Covered(ps, kept)
    ensures forall s :: s in SelectedStations(ps) <==> s in kept
    ensures |SelectedStations(ps)| == |kept|
  {
    var selected := SelectedStations(ps);
    forall s | s in selected ensures s in kept {
      var p :| p in NearestRows(ps) && s == StationOf(p);
      CrossRow(ps, kept, ids, dist, p);
    }
    NoRepeatsWithin(selected, kept);
    NoRepeatsWithin(kept, selected);
  }

  /** At the loop's exit the selected stations are the remaining ones, as
      many as Survived says. */
  lemma SurvivorFinish(stations: seq<string>, ps: seq<Pairing>, kept: seq<string>, ids: seq<string>,
                       dist: (string, string) -> real, n: int, records: nat, reading: Reading)
    requires n >= 0 && records >= 1
    requires var nearest := NearestStations(stations, Ranking(stations, ids, dist));
      CrossRanked(ps, kept, ids, dist) && KeptWithin(kept, nearest, n, records)
      && Survivors(ps, kept, nearest, reading)
    requires |Frames.Distinct(Frames.Column(ps, StationOf))| <= n
    ensures Survived(stations, ids, dist, n, reading, SelectedStations(ps))
  {
    if |ids| == 0 {
      NoResources(stations, dist);
      CrossNoResources(kept, dist);
      assert |ps| == |Frames.Column(ps, Unranked)| == 0;
    } else {
      var nearest := NearestStations(stations, Ranking(stations, ids, dist));
      var selected := SelectedStations(ps);
      StationCount(ps, kept, ids, dist);
      SelectedAreKept(ps, kept, ids, dist);
      assert |selected| == |kept| <= n && |kept| <= |nearest|;
      if reading.AsWritten? {
        forall d, s | d in nearest && d !in selected && s in selected ensures Text.LexLess(d, s) {
          assert d !in kept && s in kept;
        }
      }
    }
  }

  /** The selection loop.  Returns the chosen station ids (`unique()` of the
      rank-1 rows), the rank-1 pairs, and the list of largest
      nearest-station distances the loop records after each ranking.
      The count n must not be negative: with n < 0 the loop never ends,
      because once every station is dropped the empty count table's
      `.min()` drops nothing and zero stations still exceed n. */
  method SelectOptimalWeatherStations(stations: seq<string>, resources: seq<Resource>,
                                      dist: (string, string) -> real, n: int, reading: Reading)
    returns (selected: seq<string>, pairs: seq<Pairing>, maxMinDistance: seq<Float>)
    requires n >= 0
    requires NoRepeats(stations) && NoRepeats(ThermalIds(resources))
    ensures Chosen(stations, ThermalIds(resources), dist, n, selected, pairs)
    ensures Survived(stations, ThermalIds(resources), dist, n, reading, selected)
    ensures Recorded(stations, ThermalIds(resources), dist, pairs, maxMinDistance)
  {
    var ids := ThermalIds(resources);
    var combined := Cross(stations, ids, dist);
    combined := Rerank(combined);
    maxMinDistance := [MaxNearest(combined)];
    var nearest := NearestStations(stations, combined);
    Start(stations, ids, dist, n);
    SurvivorStart(stations, ids, dist, reading);
    combined := Frames.Filter(combined, AtStations(Among(nearest)));
    ghost var kept := nearest;
    ghost var first := maxMinDistance[0];
    while |Frames.Distinct(Frames.Column(combined, StationOf))| > n
      invariant Progress(combined, kept, nearest, ids, dist, n, maxMinDistance, first)
      invariant Survivors(combined, kept, nearest, reading)
      decreases |kept|
    {
      Step(combined, kept, nearest, ids, dist, n, maxMinDistance, first, reading);
      SurvivorStep(combined, kept, nearest, reading);
      var unfit := Unfit(combined, reading);
      combined := Frames.Filter(combined, AtStations(Other(unfit)));
      combined := Rerank(combined);
      maxMinDistance := maxMinDistance + [MaxNearest(combined)];
      kept := Frames.Filter(kept, Other(unfit));
    }
    Finish(stations, combined, kept, ids, dist, n, maxMinDistance);
    SurvivorFinish(stations, combined, kept, ids, dist, n, |maxMinDistance|, reading);
    pairs := NearestRows(combined);
    selected := SelectedStations(combined);
  }
}
