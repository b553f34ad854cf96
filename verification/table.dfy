/**
  The tables both crosswalk scripts pass from step to step, and the column
  operations they share: the weight column (intersected area over the zone's
  total area), the per-zone `weight_sums` dictionary and the row-wise division
  of each weight by its zone's sum.
 */
module Table {
  import opened Ordering

  /** A (LocationID, BoroCT2020) pair: one taxi zone and one census tract. */
  datatype Pair = Pair(locationId: int, tractId: string)

  /** The order pandas sorts (LocationID, BoroCT2020) group keys in. */
  predicate PairLess(p: Pair, q: Pair)
  {
    p.locationId < q.locationId || (p.locationId == q.locationId && StrLess(p.tractId, q.tractId))
  }

  lemma PairLessIsStrictTotalOrder()
    ensures StrictTotalOrder(PairLess)
  {
    forall p: Pair ensures !PairLess(p, p) {
      StrLessIrreflexive(p.tractId);
    }
    forall p: Pair, q: Pair, r: Pair | PairLess(p, q) && PairLess(q, r)
      ensures PairLess(p, r)
    {
      if p.locationId == q.locationId == r.locationId {
        StrLessTransitive(p.tractId, q.tractId, r.tractId);
      }
    }
    forall p: Pair, q: Pair | p != q
      ensures PairLess(p, q) || PairLess(q, p)
    {
      if p.locationId == q.locationId {
        StrLessTotal(p.tractId, q.tractId);
      }
    }
  }

  /**
    A row of the overlay output (one fragment of a zone-tract intersection)
    or of its aggregation: the zone, the tract, the zone's dissolved total
    area and the intersected area. Geometry is not modelled; only the areas
    the geometry library computes from it.
   */
  datatype Overlap = Overlap(locationId: int, tractId: string, zoneTotalArea: real, intersectArea: real)
  {
    function AsPair(): Pair { Pair(locationId, tractId) }
  }

  /** A weighted (LocationID, tract) row: `apportion_weight` beside its key. */
  datatype Link = Link(locationId: int, tractId: string, weight: real)
  {
    function AsPair(): Pair { Pair(locationId, tractId) }
  }

  /** Areas as the overlay produces them: positive zone totals, non-negative fragments. */
  predicate ValidAreas(rows: seq<Overlap>)
  {
    forall o :: o in rows ==> o.zoneTotalArea > 0.0 && o.intersectArea >= 0.0
  }

  /** After the dissolve each LocationID has one geometry, hence one total area. */
  predicate ConsistentTotals(rows: seq<Overlap>)
  {
    forall a, b :: a in rows && b in rows && a.locationId == b.locationId ==> a.zoneTotalArea == b.zoneTotalArea
  }

  predicate WellFormed(rows: seq<Overlap>)
  {
    ValidAreas(rows) && ConsistentTotals(rows)
  }

  /** Every zone `total` is the total area of. */
  predicate ZoneTotalIs(rows: seq<Overlap>, z: int, total: real)
  {
    forall o :: o in rows && o.locationId == z ==> o.zoneTotalArea == total
  }

  function ZoneIds(rows: seq<Overlap>): set<int>
  {
    set o | o in rows :: o.locationId
  }

  /** Sum of the intersected areas of zone `z`. */
  function ZoneArea(rows: seq<Overlap>, z: int): real
  {
    if rows == [] then 0.0
    else (if rows[0].locationId == z then rows[0].intersectArea else 0.0) + ZoneArea(rows[1..], z)
  }

  /** Sum of the intersected areas of zone-tract pair `p`. */
  function PairArea(rows: seq<Overlap>, p: Pair): real
  {
    if rows == [] then 0.0
    else (if rows[0].AsPair() == p then rows[0].intersectArea else 0.0) + PairArea(rows[1..], p)
  }

  function PairsOf(rows: seq<Overlap>): seq<Pair>
  {
    seq(|rows|, i requires 0 <= i < |rows| => rows[i].AsPair())
  }

  /** Every zone that has a fragment covers some positive area. */
  predicate ZonesHaveArea(rows: seq<Overlap>)
  {
    forall o :: o in rows ==> ZoneArea(rows, o.locationId) > 0.0
  }

  /** The `apportion_weight` column: intersected area over zone total area, row by row. */
  function ApportionWeights(rows: seq<Overlap>): (r: seq<Link>)
    requires ValidAreas(rows)
    ensures |r| == |rows|
    ensures forall i :: 0 <= i < |rows| ==> r[i].AsPair() == rows[i].AsPair()
    ensures forall l :: l in r ==> l.weight >= 0.0
  {
    if rows == [] then []
    else [Link(rows[0].locationId, rows[0].tractId, rows[0].intersectArea / rows[0].zoneTotalArea)]
         + ApportionWeights(rows[1..])
  }

  function Zones(links: seq<Link>): set<int>
  {
    set l | l in links :: l.locationId
  }

  function LinkPairs(links: seq<Link>): seq<Pair>
  {
    seq(|links|, i requires 0 <= i < |links| => links[i].AsPair())
  }

  /** Sum of the weights of zone `z`. */
  function ZoneWeight(links: seq<Link>, z: int): real
  {
    if links == [] then 0.0
    else (if links[0].locationId == z then links[0].weight else 0.0) + ZoneWeight(links[1..], z)
  }

  /** Sum of the weights of zone-tract pair `p`. */
  function PairWeight(links: seq<Link>, p: Pair): real
  {
    if links == [] then 0.0
    else (if links[0].AsPair() == p then links[0].weight else 0.0) + PairWeight(links[1..], p)
  }

  /** `groupby('LocationID')['apportion_weight'].sum().to_dict()`. */
  function WeightSums(links: seq<Link>): map<int, real>
  {
    map z | z in Zones(links) :: ZoneWeight(links, z)
  }

  predicate PositiveZoneWeights(links: seq<Link>)
  {
    forall l :: l in links ==> ZoneWeight(links, l.locationId) > 0.0
  }

  /** The row-wise `apply`: each weight divided by its zone's entry in `sums`. */
  function Divide(links: seq<Link>, sums: map<int, real>): (r: seq<Link>)
    requires forall l :: l in links ==> l.locationId in sums && sums[l.locationId] != 0.0
    ensures |r| == |links|
    ensures forall i :: 0 <= i < |links| ==> r[i].AsPair() == links[i].AsPair()
    ensures forall i :: 0 <= i < |links| ==> r[i].weight == links[i].weight / sums[links[i].locationId]
  {
    if links == [] then []
    else [Link(links[0].locationId, links[0].tractId, links[0].weight / sums[links[0].locationId])]
         + Divide(links[1..], sums)
  }

  /** Normalisation: every weight over the sum of its zone's weights. */
  function Rescale(links: seq<Link>): (r: seq<Link>)
    requires PositiveZoneWeights(links)
  {
    Divide(links, WeightSums(links))
  }

  // ---------------------------------------------------------------------
  // Real-number facts the lemmas below rest on, each kept apart so that the
  // solver meets them without the surrounding sequence reasoning.

  lemma DivAdd(a: real, b: real, c: real)
    requires c != 0.0
    ensures a / c + b / c == (a + b) / c
  {
  }

  /** One step of a sum of quotients: if s = h/c + rest/c and t = h + rest, then s = t/c. */
  lemma DivStep(s: real, h: real, rest: real, t: real, c: real)
    requires c != 0.0 && s == h / c + rest / c && t == h + rest
    ensures s == t / c
  {
    DivAdd(h, rest, c);
  }

  lemma DivZero(c: real)
    requires c != 0.0
    ensures 0.0 / c == 0.0
  {
  }

  lemma DivPositive(a: real, c: real)
    requires a > 0.0 && c > 0.0
    ensures a / c > 0.0
  {
  }

  lemma DivSelf(s: real)
    requires s != 0.0
    ensures s / s == 1.0
  {
  }

  lemma DivUnit(a: real, s: real)
    requires 0.0 <= a <= s && s > 0.0
    ensures 0.0 <= a / s <= 1.0
    ensures a > 0.0 ==> a / s > 0.0
  {
  }

  lemma DivRatio(a: real, b: real, s: real)
    requires s != 0.0 && b != 0.0
    ensures b / s != 0.0
    ensures (a / s) / (b / s) == a / b
  {
  }

  // ---------------------------------------------------------------------
  // Sums over the weight column

  /** The weight of row i is its intersected area over its zone total. */
  lemma ApportionWeightAt(rows: seq<Overlap>, i: int)
    requires ValidAreas(rows) && 0 <= i < |rows|
    ensures ApportionWeights(rows)[i].weight == rows[i].intersectArea / rows[i].zoneTotalArea
  {
    if i > 0 {
      assert forall o :: o in rows[1..] ==> o in rows;
      ApportionWeightAt(rows[1..], i - 1);
    }
  }

  lemma ApportionHeadZone(rows: seq<Overlap>, z: int, total: real)
    requires rows != [] && ValidAreas(rows) && total > 0.0 && ZoneTotalIs(rows, z, total)
    ensures ZoneWeight(ApportionWeights(rows), z)
         == (if rows[0].locationId == z then rows[0].intersectArea else 0.0) / total
            + ZoneWeight(ApportionWeights(rows[1..]), z)
  {
    var w := ApportionWeights(rows);
    assert w[1..] == ApportionWeights(rows[1..]);
    assert rows[0] in rows;
    if rows[0].locationId == z {
      assert rows[0].zoneTotalArea == total;
    } else {
      DivZero(total);
    }
  }

  lemma {:induction false} ZoneWeightOfApportion(rows: seq<Overlap>, z: int, total: real)
    requires ValidAreas(rows) && total > 0.0 && ZoneTotalIs(rows, z, total)
    ensures ZoneWeight(ApportionWeights(rows), z) == ZoneArea(rows, z) / total
  {
    if rows != [] {
      var tail := rows[1..];
      assert forall o :: o in tail ==> o in rows;
      ZoneWeightOfApportion(tail, z, total);
      ApportionHeadZone(rows, z, total);
      var head := if rows[0].locationId == z then rows[0].intersectArea else 0.0;
      DivStep(ZoneWeight(ApportionWeights(rows), z), head, ZoneArea(tail, z), ZoneArea(rows, z), total);
    }
  }

  lemma ApportionHeadPair(rows: seq<Overlap>, p: Pair, total: real)
    requires rows != [] && ValidAreas(rows) && total > 0.0 && ZoneTotalIs(rows, p.locationId, total)
    ensures PairWeight(ApportionWeights(rows), p)
         == (if rows[0].AsPair() == p then rows[0].intersectArea else 0.0) / total
            + PairWeight(ApportionWeights(rows[1..]), p)
  {
    var w := ApportionWeights(rows);
    assert w[1..] == ApportionWeights(rows[1..]);
    assert rows[0] in rows;
    if rows[0].AsPair() == p {
      assert rows[0].zoneTotalArea == total;
    } else {
      DivZero(total);
    }
  }

  lemma {:induction false} PairWeightOfApportion(rows: seq<Overlap>, p: Pair, total: real)
    requires ValidAreas(rows) && total > 0.0 && ZoneTotalIs(rows, p.locationId, total)
    ensures PairWeight(ApportionWeights(rows), p) == PairArea(rows, p) / total
  {
    if rows != [] {
      var tail := rows[1..];
      assert forall o :: o in tail ==> o in rows;
      PairWeightOfApportion(tail, p, total);
      ApportionHeadPair(rows, p, total);
      var head := if rows[0].AsPair() == p then rows[0].intersectArea else 0.0;
      DivStep(PairWeight(ApportionWeights(rows), p), head, PairArea(tail, p), PairArea(rows, p), total);
    }
  }

  /** With non-negative weights, no row outweighs its whole zone. */
  lemma {:induction false} WeightAtMostZoneWeight(links: seq<Link>, i: int)
    requires forall l :: l in links ==> l.weight >= 0.0
    requires 0 <= i < |links|
    ensures ZoneWeight(links, links[i].locationId) >= links[i].weight
  {
    ZoneWeightNonNegative(links[1..], links[i].locationId);
    if i > 0 {
      WeightAtMostZoneWeight(links[1..], i - 1);
    }
  }

  lemma {:induction false} ZoneWeightNonNegative(links: seq<Link>, z: int)
    requires forall l :: l in links ==> l.weight >= 0.0
    ensures ZoneWeight(links, z) >= 0.0
  {
    if links != [] {
      assert links[0] in links;
      ZoneWeightNonNegative(links[1..], z);
    }
  }

  // ---------------------------------------------------------------------
  // The division by `weight_sums`

  lemma {:induction false} DivideZoneWeight(links: seq<Link>, sums: map<int, real>, z: int)
    requires forall l :: l in links ==> l.locationId in sums && sums[l.locationId] != 0.0
    requires z in sums && sums[z] != 0.0
    ensures ZoneWeight(Divide(links, sums), z) == ZoneWeight(links, z) / sums[z]
  {
    if links != [] {
      DivideZoneWeight(links[1..], sums, z);
      var d := Divide(links, sums);
      assert d == [d[0]] + Divide(links[1..], sums);
      if links[0].locationId == z {
        DivAdd(links[0].weight, ZoneWeight(links[1..], z), sums[z]);
      }
    }
  }

  lemma {:induction false} DividePairWeight(links: seq<Link>, sums: map<int, real>, p: Pair)
    requires forall l :: l in links ==> l.locationId in sums && sums[l.locationId] != 0.0
    requires p.locationId in sums && sums[p.locationId] != 0.0
    ensures PairWeight(Divide(links, sums), p) == PairWeight(links, p) / sums[p.locationId]
  {
    if links != [] {
      DividePairWeight(links[1..], sums, p);
      var d := Divide(links, sums);
      assert d == [d[0]] + Divide(links[1..], sums);
      if links[0].AsPair() == p {
        DivAdd(links[0].weight, PairWeight(links[1..], p), sums[p.locationId]);
      }
    }
  }

  /** Each rescaled row is its weight over the sum of its zone's weights. */
  lemma RescaleRows(links: seq<Link>)
    requires PositiveZoneWeights(links)
    ensures |Rescale(links)| == |links|
    ensures forall i :: 0 <= i < |links| ==>
      Rescale(links)[i].AsPair() == links[i].AsPair() &&
      Rescale(links)[i].weight == links[i].weight / ZoneWeight(links, links[i].locationId)
  {
  }

  lemma ApportionKeepsPairs(rows: seq<Overlap>)
    requires ValidAreas(rows)
    ensures LinkPairs(ApportionWeights(rows)) == PairsOf(rows)
  {
  }

  lemma RescaleKeepsPairs(links: seq<Link>)
    requires PositiveZoneWeights(links)
    ensures LinkPairs(Rescale(links)) == LinkPairs(links)
  {
  }

  lemma RescaleZones(links: seq<Link>)
    requires PositiveZoneWeights(links)
    ensures Zones(Rescale(links)) == Zones(links)
  {
    var r := Rescale(links);
    forall z | z in Zones(links) ensures z in Zones(r) {
      var i :| 0 <= i < |links| && links[i].locationId == z;
      assert r[i].AsPair() == links[i].AsPair();
      assert r[i] in r;
    }
    forall z | z in Zones(r) ensures z in Zones(links) {
      var i :| 0 <= i < |r| && r[i].locationId == z;
      assert r[i].AsPair() == links[i].AsPair();
      assert links[i] in links;
    }
  }

  /** After rescaling, the weights of every zone present sum to exactly 1. */
  lemma SumsToOne(links: seq<Link>)
    requires PositiveZoneWeights(links)
    ensures Zones(Rescale(links)) == Zones(links)
    ensures forall z :: z in Zones(links) ==> ZoneWeight(Rescale(links), z) == 1.0
  {
    RescaleZones(links);
    var sums := WeightSums(links);
    forall z | z in Zones(links) ensures ZoneWeight(Rescale(links), z) == 1.0 {
      var l :| l in links && l.locationId == z;
      DivideZoneWeight(links, sums, z);
      DivSelf(sums[z]);
    }
  }

  /** Rescaled weights of non-negative rows lie in [0, 1], and positive ones stay positive. */
  lemma RescaleBounds(links: seq<Link>)
    requires PositiveZoneWeights(links)
    requires forall l :: l in links ==> l.weight >= 0.0
    ensures forall i :: 0 <= i < |links| ==> 0.0 <= Rescale(links)[i].weight <= 1.0
    ensures forall i :: 0 <= i < |links| && links[i].weight > 0.0 ==> Rescale(links)[i].weight > 0.0
  {
    var r := Rescale(links);
    forall i | 0 <= i < |links|
      ensures 0.0 <= r[i].weight <= 1.0
      ensures links[i].weight > 0.0 ==> r[i].weight > 0.0
    {
      assert links[i] in links;
      var s := ZoneWeight(links, links[i].locationId);
      WeightAtMostZoneWeight(links, i);
      DivUnit(links[i].weight, s);
    }
  }

  /** Within one zone, rescaling keeps every ratio between two weights. */
  lemma RescaleKeepsRatios(links: seq<Link>, i: int, j: int)
    requires PositiveZoneWeights(links)
    requires 0 <= i < |links| && 0 <= j < |links|
    requires links[i].locationId == links[j].locationId && links[j].weight != 0.0
    ensures Rescale(links)[j].weight != 0.0
    ensures Rescale(links)[i].weight / Rescale(links)[j].weight == links[i].weight / links[j].weight
  {
    var r := Rescale(links);
    assert links[i] in links;
    var s := ZoneWeight(links, links[i].locationId);
    assert r[i].weight == links[i].weight / s && r[j].weight == links[j].weight / s;
    DivRatio(links[i].weight, links[j].weight, s);
  }
}
