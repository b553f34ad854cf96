/**
  The final crosswalk (steps 5 to 8 of geospatial_join.py): sum the overlay
  fragments per (LocationID, BoroCT2020, zone_total_area), weight each pair by
  its share of the zone's area, keep the pairs whose weight reaches the
  threshold, and rescale the survivors of every zone so that they sum to 1.
 */
module FinalCrosswalk {
  import opened Ordering
  import opened Table

  /** Pairs covering less than 1% of their zone are dropped. */
  const MinApportionThreshold: real := 0.01

  /** The group-by key of step 5: LocationID, BoroCT2020 and zone_total_area. */
  datatype GroupKey = GroupKey(pair: Pair, zoneTotalArea: real)

  function KeyOf(o: Overlap): GroupKey
  {
    GroupKey(o.AsPair(), o.zoneTotalArea)
  }

  /** pandas sorts the groups by the three key columns in turn. */
  predicate KeyLess(a: GroupKey, b: GroupKey)
  {
    PairLess(a.pair, b.pair) || (a.pair == b.pair && a.zoneTotalArea < b.zoneTotalArea)
  }

  lemma KeyLessIsStrictTotalOrder()
    ensures StrictTotalOrder(KeyLess)
  {
    PairLessIsStrictTotalOrder();
  }

  function KeysOf(rows: seq<Overlap>): seq<GroupKey>
  {
    seq(|rows|, i requires 0 <= i < |rows| => KeyOf(rows[i]))
  }

  /** Sum of the intersected areas of the fragments with key `k`. */
  function KeyArea(rows: seq<Overlap>, k: GroupKey): real
  {
    if rows == [] then 0.0
    else (if KeyOf(rows[0]) == k then rows[0].intersectArea else 0.0) + KeyArea(rows[1..], k)
  }

  /** One aggregated row per key, in the order of `ks`. */
  function GroupRows(ks: seq<GroupKey>, frags: seq<Overlap>): (agg: seq<Overlap>)
    ensures |agg| == |ks|
    ensures forall i :: 0 <= i < |ks| ==>
      agg[i] == Overlap(ks[i].pair.locationId, ks[i].pair.tractId, ks[i].zoneTotalArea, KeyArea(frags, ks[i]))
  {
    if ks == [] then []
    else [Overlap(ks[0].pair.locationId, ks[0].pair.tractId, ks[0].zoneTotalArea, KeyArea(frags, ks[0]))]
         + GroupRows(ks[1..], frags)
  }

  function GroupKeys(frags: seq<Overlap>): seq<GroupKey>
  {
    SortedDistinct(KeysOf(frags), KeyLess)
  }

  /** Step 5: `groupby([LocationID, BoroCT2020, zone_total_area]).agg({intersect_area: sum})`. */
  function Aggregate(frags: seq<Overlap>): seq<Overlap>
  {
    GroupRows(GroupKeys(frags), frags)
  }

  /** Step 6: the rows whose weight is at least `threshold`, in their original order. */
  function Filter(links: seq<Link>, threshold: real): (kept: seq<Link>)
    ensures |kept| <= |links|
    ensures forall l :: l in kept <==> l in links && l.weight >= threshold
  {
    if links == [] then []
    else if links[0].weight >= threshold then [links[0]] + Filter(links[1..], threshold)
    else Filter(links[1..], threshold)
  }

  /** The raw weight table of steps 5 and 6, before the threshold. */
  function RawWeights(frags: seq<Overlap>): seq<Link>
    requires WellFormed(frags)
  {
    AggregateIsWellFormed(frags);
    ApportionWeights(Aggregate(frags))
  }

  /** Steps 5 to 8: the (LocationID, census_tract_id, apportion_weight) table. */
  function Crosswalk(frags: seq<Overlap>, threshold: real): (r: seq<Link>)
    requires WellFormed(frags) && (threshold > 0.0 || ZonesHaveArea(frags))
    ensures forall z :: z in Zones(r) ==> ZoneWeight(r, z) == 1.0
  {
    var kept := Filter(RawWeights(frags), threshold);
    KeptZonesHaveWeight(frags, threshold);
    SumsToOne(kept);
    Rescale(kept)
  }

  /** The crosswalk the script writes, at its 1% threshold. */
  function FinalTable(frags: seq<Overlap>): (r: seq<Link>)
    requires WellFormed(frags)
    ensures forall z :: z in Zones(r) ==> ZoneWeight(r, z) == 1.0
    ensures forall l :: l in r ==> 0.0 < l.weight <= 1.0
  {
    CrosswalkWeightsInUnitInterval(frags, MinApportionThreshold);
    Crosswalk(frags, MinApportionThreshold)
  }

  // ---------------------------------------------------------------------
  // Step 5: aggregation

  lemma KeysOfMembers(frags: seq<Overlap>)
    ensures forall f :: f in frags ==> KeyOf(f) in KeysOf(frags)
    ensures forall k :: k in KeysOf(frags) ==> exists f :: f in frags && KeyOf(f) == k
  {
    var ks := KeysOf(frags);
    forall f | f in frags ensures KeyOf(f) in ks {
      var i :| 0 <= i < |frags| && frags[i] == f;
      assert ks[i] == KeyOf(f);
    }
    forall k | k in ks ensures exists f :: f in frags && KeyOf(f) == k {
      var i :| 0 <= i < |ks| && ks[i] == k;
      assert frags[i] in frags;
    }
  }

  lemma {:induction false} KeyAreaNonNegative(frags: seq<Overlap>, k: GroupKey)
    requires ValidAreas(frags)
    ensures KeyArea(frags, k) >= 0.0
  {
    if frags != [] {
      assert frags[0] in frags;
      assert forall o :: o in frags[1..] ==> o in frags;
      KeyAreaNonNegative(frags[1..], k);
    }
  }

  /** Grouping by zone_total_area as well splits no pair: its area is the pair's whole area. */
  lemma {:induction false} KeyAreaIsPairArea(frags: seq<Overlap>, k: GroupKey)
    requires forall f :: f in frags && f.AsPair() == k.pair ==> f.zoneTotalArea == k.zoneTotalArea
    ensures KeyArea(frags, k) == PairArea(frags, k.pair)
  {
    if frags != [] {
      assert frags[0] in frags;
      assert forall o :: o in frags[1..] ==> o in frags;
      KeyAreaIsPairArea(frags[1..], k);
    }
  }

  /** The aggregated table is well formed and keeps each zone's total area. */
  lemma AggregateIsWellFormed(frags: seq<Overlap>)
    requires WellFormed(frags)
    ensures WellFormed(Aggregate(frags))
    ensures forall o, f :: o in Aggregate(frags) && f in frags && o.locationId == f.locationId ==>
      o.zoneTotalArea == f.zoneTotalArea
  {
    var ks := GroupKeys(frags);
    var agg := Aggregate(frags);
    KeysOfMembers(frags);
    forall o | o in agg
      ensures exists f :: f in frags && f.locationId == o.locationId && f.zoneTotalArea == o.zoneTotalArea
      ensures o.intersectArea >= 0.0
    {
      var i :| 0 <= i < |agg| && agg[i] == o;
      assert ks[i] in ks;
      var f :| f in frags && KeyOf(f) == ks[i];
      KeyAreaNonNegative(frags, ks[i]);
    }
  }

  /** The aggregated rows come sorted by (LocationID, BoroCT2020), one row per pair. */
  lemma AggregateSortedByPair(frags: seq<Overlap>)
    requires WellFormed(frags)
    ensures StrictlySorted(PairsOf(Aggregate(frags)), PairLess)
  {
    var ks := GroupKeys(frags);
    var agg := Aggregate(frags);
    KeyLessIsStrictTotalOrder();
    SortedDistinctIsSorted(KeysOf(frags), KeyLess);
    KeysOfMembers(frags);
    var ps := PairsOf(agg);
    forall i, j | 0 <= i < j < |ps| ensures PairLess(ps[i], ps[j]) {
      assert KeyLess(ks[i], ks[j]);
      assert ks[i] in ks && ks[j] in ks;
      var fi :| fi in frags && KeyOf(fi) == ks[i];
      var fj :| fj in frags && KeyOf(fj) == ks[j];
      assert ps[i] == ks[i].pair && ps[j] == ks[j].pair;
    }
  }

  /** The aggregated pairs are exactly the pairs among the fragments. */
  lemma AggregatePairSet(frags: seq<Overlap>)
    ensures forall p :: p in PairsOf(Aggregate(frags)) <==> p in PairsOf(frags)
  {
    var ks := GroupKeys(frags);
    var agg := Aggregate(frags);
    KeysOfMembers(frags);
    forall p | p in PairsOf(agg) ensures p in PairsOf(frags) {
      var i :| 0 <= i < |agg| && PairsOf(agg)[i] == p;
      assert ks[i] in ks;
      var g :| g in frags && KeyOf(g) == ks[i];
      var j :| 0 <= j < |frags| && frags[j] == g;
      assert PairsOf(frags)[j] == p;
    }
    forall p | p in PairsOf(frags) ensures p in PairsOf(agg) {
      var j :| 0 <= j < |frags| && PairsOf(frags)[j] == p;
      assert frags[j] in frags;
      var i :| 0 <= i < |ks| && ks[i] == KeyOf(frags[j]);
      assert PairsOf(agg)[i] == p;
    }
  }

  /** Each aggregated row holds the summed area of every fragment of its pair. */
  lemma AggregateSumsPairs(frags: seq<Overlap>)
    requires WellFormed(frags)
    ensures forall o :: o in Aggregate(frags) ==> o.intersectArea == PairArea(frags, o.AsPair())
  {
    var ks := GroupKeys(frags);
    var agg := Aggregate(frags);
    KeysOfMembers(frags);
    forall o | o in agg ensures o.intersectArea == PairArea(frags, o.AsPair()) {
      var i :| 0 <= i < |agg| && agg[i] == o;
      assert ks[i] in ks;
      var g :| g in frags && KeyOf(g) == ks[i];
      KeyAreaIsPairArea(frags, ks[i]);
    }
  }

  lemma {:induction false} GroupRowsEmpty(ks: seq<GroupKey>, z: int)
    ensures ZoneArea(GroupRows(ks, []), z) == 0.0
  {
    if ks != [] {
      GroupRowsEmpty(ks[1..], z);
    }
  }

  /** Removing the first fragment takes its area out of exactly the one group it belongs to. */
  lemma {:induction false} GroupRowsPeel(ks: seq<GroupKey>, frags: seq<Overlap>, z: int)
    requires frags != [] && Distinct(ks)
    ensures ZoneArea(GroupRows(ks, frags), z)
         == ZoneArea(GroupRows(ks, frags[1..]), z)
            + (if KeyOf(frags[0]) in ks && frags[0].locationId == z then frags[0].intersectArea else 0.0)
  {
    if ks != [] {
      assert Distinct(ks[1..]);
      assert ks[0] !in ks[1..];
      GroupRowsPeel(ks[1..], frags, z);
      assert KeyOf(frags[0]) in ks <==> KeyOf(frags[0]) == ks[0] || KeyOf(frags[0]) in ks[1..];
    }
  }

  /** Regrouping: the pair sums of a zone add up to the zone's fragment sum. */
  lemma {:induction false} GroupRowsZoneArea(ks: seq<GroupKey>, frags: seq<Overlap>, z: int)
    requires Distinct(ks)
    requires forall f :: f in frags ==> KeyOf(f) in ks
    ensures ZoneArea(GroupRows(ks, frags), z) == ZoneArea(frags, z)
  {
    if frags == [] {
      GroupRowsEmpty(ks, z);
    } else {
      assert frags[0] in frags;
      assert forall o :: o in frags[1..] ==> o in frags;
      GroupRowsZoneArea(ks, frags[1..], z);
      GroupRowsPeel(ks, frags, z);
    }
  }

  /** Aggregation neither loses nor adds area in any zone. */
  lemma AggregateKeepsZoneArea(frags: seq<Overlap>, z: int)
    requires WellFormed(frags)
    ensures ZoneArea(Aggregate(frags), z) == ZoneArea(frags, z)
  {
    KeyLessIsStrictTotalOrder();
    SortedDistinctIsSorted(KeysOf(frags), KeyLess);
    SortedIsDistinct(GroupKeys(frags), KeyLess);
    KeysOfMembers(frags);
    GroupRowsZoneArea(GroupKeys(frags), frags, z);
  }

  /** Step 5's weight: each pair's summed area over its zone's total area, never negative. */
  lemma RawWeightOfPair(frags: seq<Overlap>, i: int)
    requires WellFormed(frags) && 0 <= i < |RawWeights(frags)|
    ensures |RawWeights(frags)| == |Aggregate(frags)|
    ensures RawWeights(frags)[i].AsPair() == Aggregate(frags)[i].AsPair()
    ensures Aggregate(frags)[i].zoneTotalArea > 0.0
    ensures RawWeights(frags)[i].weight == PairArea(frags, Aggregate(frags)[i].AsPair()) / Aggregate(frags)[i].zoneTotalArea
    ensures RawWeights(frags)[i].weight >= 0.0
  {
    var agg := Aggregate(frags);
    var raw := RawWeights(frags);
    AggregateIsWellFormed(frags);
    AggregateSumsPairs(frags);
    assert agg[i] in agg;
    ApportionWeightAt(agg, i);
    assert raw[i] in raw;
  }

  // ---------------------------------------------------------------------
  // Step 6: the threshold filter

  /** The filter works row by row, so it keeps the survivors in their order. */
  lemma {:induction false} FilterAppend(a: seq<Link>, b: seq<Link>, threshold: real)
    ensures Filter(a + b, threshold) == Filter(a, threshold) + Filter(b, threshold)
  {
    if a != [] {
      assert (a + b)[1..] == a[1..] + b;
      FilterAppend(a[1..], b, threshold);
    } else {
      assert a + b == b;
    }
  }

  /** Rows that all reach the threshold are kept unchanged. */
  lemma {:induction false} FilterKeepsAll(links: seq<Link>, threshold: real)
    requires forall l :: l in links ==> l.weight >= threshold
    ensures Filter(links, threshold) == links
  {
    if links != [] {
      assert links[0] in links;
      assert forall l :: l in links[1..] ==> l in links;
      FilterKeepsAll(links[1..], threshold);
    }
  }

  function ZoneCount(links: seq<Link>, z: int): nat
  {
    if links == [] then 0
    else (if links[0].locationId == z then 1 else 0) + ZoneCount(links[1..], z)
  }

  lemma {:induction false} FilterCount(links: seq<Link>, threshold: real, z: int)
    ensures ZoneCount(Filter(links, threshold), z) <= ZoneCount(links, z)
  {
    if links != [] {
      FilterCount(links[1..], threshold, z);
    }
  }

  /** Raising the threshold keeps a sub-list of what the lower one kept: no zone gains a row. */
  lemma {:induction false} FilterMonotone(links: seq<Link>, low: real, high: real)
    requires low <= high
    ensures Filter(Filter(links, low), high) == Filter(links, high)
    ensures forall z :: ZoneCount(Filter(links, high), z) <= ZoneCount(Filter(links, low), z)
  {
    if links != [] {
      FilterMonotone(links[1..], low, high);
    }
    forall z ensures ZoneCount(Filter(links, high), z) <= ZoneCount(Filter(links, low), z) {
      FilterCount(Filter(links, low), high, z);
    }
  }

  /** A positive threshold leaves every surviving zone with a positive sum,
      so the division of step 7 is defined. */
  lemma FilterPositiveSums(links: seq<Link>, threshold: real)
    requires threshold > 0.0
    ensures PositiveZoneWeights(Filter(links, threshold))
  {
    var kept := Filter(links, threshold);
    forall l | l in kept ensures ZoneWeight(kept, l.locationId) > 0.0 {
      var i :| 0 <= i < |kept| && kept[i] == l;
      WeightAtMostZoneWeight(kept, i);
    }
  }

  /** At a positive threshold every survivor's LocationID is a key of the
      `weight_sums` dictionary built from the survivors, with a positive value:
      the lookup and the division of step 7 never fail. */
  lemma KeptZonesAreKeys(links: seq<Link>, threshold: real)
    requires threshold > 0.0
    ensures forall l :: l in Filter(links, threshold) ==>
      l.locationId in WeightSums(Filter(links, threshold)) &&
      WeightSums(Filter(links, threshold))[l.locationId] > 0.0
  {
    FilterPositiveSums(links, threshold);
  }

  /** Without a positive threshold the zones' sums are their overlapped areas, positive by assumption. */
  lemma RawZonesHaveWeight(frags: seq<Overlap>)
    requires WellFormed(frags) && ZonesHaveArea(frags)
    ensures PositiveZoneWeights(RawWeights(frags))
  {
    var agg := Aggregate(frags);
    var raw := RawWeights(frags);
    AggregateIsWellFormed(frags);
    forall l | l in raw ensures ZoneWeight(raw, l.locationId) > 0.0 {
      var z := l.locationId;
      var i :| 0 <= i < |raw| && raw[i] == l;
      assert agg[i] in agg;
      var ks := GroupKeys(frags);
      KeysOfMembers(frags);
      assert ks[i] in ks;
      var f :| f in frags && KeyOf(f) == ks[i];
      var total := agg[i].zoneTotalArea;
      ZoneWeightOfApportion(agg, z, total);
      AggregateKeepsZoneArea(frags, z);
      DivPositive(ZoneArea(frags, z), total);
    }
  }

  lemma KeptZonesHaveWeight(frags: seq<Overlap>, threshold: real)
    requires WellFormed(frags) && (threshold > 0.0 || ZonesHaveArea(frags))
    ensures PositiveZoneWeights(Filter(RawWeights(frags), threshold))
  {
    if threshold > 0.0 {
      FilterPositiveSums(RawWeights(frags), threshold);
    } else {
      RawZonesHaveWeight(frags);
      FilterKeepsAll(RawWeights(frags), threshold);
    }
  }

  // ---------------------------------------------------------------------
  // Steps 7 and 8: renormalisation and the output table

  /** The output lists (LocationID, census_tract_id) pairs sorted, each once. */
  lemma CrosswalkSortedByPair(frags: seq<Overlap>, threshold: real)
    requires WellFormed(frags) && (threshold > 0.0 || ZonesHaveArea(frags))
    ensures StrictlySorted(LinkPairs(Crosswalk(frags, threshold)), PairLess)
  {
    var raw := RawWeights(frags);
    var r := Crosswalk(frags, threshold);
    AggregateSortedByPair(frags);
    PairLessIsStrictTotalOrder();
    AggregateIsWellFormed(frags);
    ApportionKeepsPairs(Aggregate(frags));
    FilterSorted(raw, threshold);
    KeptZonesHaveWeight(frags, threshold);
    RescaleKeepsPairs(Filter(raw, threshold));
  }

  lemma {:induction false} FilterSorted(links: seq<Link>, threshold: real)
    requires StrictTotalOrder(PairLess) && StrictlySorted(LinkPairs(links), PairLess)
    ensures StrictlySorted(LinkPairs(Filter(links, threshold)), PairLess)
  {
    if links != [] {
      var tail := links[1..];
      assert LinkPairs(tail) == LinkPairs(links)[1..];
      FilterSorted(tail, threshold);
      if links[0].weight >= threshold {
        var kt := Filter(tail, threshold);
        var ps := LinkPairs([links[0]] + kt);
        forall i, j | 0 <= i < j < |ps| ensures PairLess(ps[i], ps[j]) {
          if i == 0 {
            assert kt[j - 1] in tail;
            var m :| 0 <= m < |tail| && tail[m] == kt[j - 1];
            assert LinkPairs(links)[m + 1] == ps[j];
            assert LinkPairs(links)[0] == ps[0];
          } else {
            assert ps[i] == LinkPairs(kt)[i - 1] && ps[j] == LinkPairs(kt)[j - 1];
          }
        }
      }
    }
  }

  /** At a positive threshold every output weight lies in (0, 1]. */
  lemma CrosswalkWeightsInUnitInterval(frags: seq<Overlap>, threshold: real)
    requires WellFormed(frags) && threshold > 0.0
    ensures forall l :: l in Crosswalk(frags, threshold) ==> 0.0 < l.weight <= 1.0
  {
    var kept := Filter(RawWeights(frags), threshold);
    KeptZonesHaveWeight(frags, threshold);
    RescaleBounds(kept);
    var r := Crosswalk(frags, threshold);
    forall l | l in r ensures 0.0 < l.weight <= 1.0 {
      var i :| 0 <= i < |r| && r[i] == l;
      assert kept[i] in kept;
    }
  }

  /** A zone is in the output iff one of its pairs reaches the threshold;
      zones with only smaller overlaps disappear without notice. */
  lemma ZoneAppearsIff(frags: seq<Overlap>, threshold: real, z: int)
    requires WellFormed(frags) && (threshold > 0.0 || ZonesHaveArea(frags))
    ensures z in Zones(Crosswalk(frags, threshold)) <==>
      exists l :: l in RawWeights(frags) && l.locationId == z && l.weight >= threshold
  {
    var kept := Filter(RawWeights(frags), threshold);
    KeptZonesHaveWeight(frags, threshold);
    RescaleZones(kept);
  }

  /** Renormalising keeps the ratio between any two surviving pairs of one zone. */
  lemma CrosswalkKeepsRatios(frags: seq<Overlap>, threshold: real, i: int, j: int)
    requires WellFormed(frags) && (threshold > 0.0 || ZonesHaveArea(frags))
    requires 0 <= i < |Filter(RawWeights(frags), threshold)| && 0 <= j < |Filter(RawWeights(frags), threshold)|
    requires Filter(RawWeights(frags), threshold)[i].locationId == Filter(RawWeights(frags), threshold)[j].locationId
    requires Filter(RawWeights(frags), threshold)[j].weight != 0.0
    ensures Crosswalk(frags, threshold)[j].weight != 0.0
    ensures Crosswalk(frags, threshold)[i].weight / Crosswalk(frags, threshold)[j].weight
         == Filter(RawWeights(frags), threshold)[i].weight / Filter(RawWeights(frags), threshold)[j].weight
  {
    KeptZonesHaveWeight(frags, threshold);
    RescaleKeepsRatios(Filter(RawWeights(frags), threshold), i, j);
  }

  /** With no positive threshold every pair survives and its output weight is
      its share of the zone's overlapped area; the output holds exactly the
      pairs of the overlay. */
  lemma CrosswalkShareWithoutThreshold(frags: seq<Overlap>, threshold: real)
    requires WellFormed(frags) && ZonesHaveArea(frags) && threshold <= 0.0
    ensures forall p :: p in LinkPairs(Crosswalk(frags, threshold)) <==> p in PairsOf(frags)
    ensures forall l :: l in Crosswalk(frags, threshold) ==>
      ZoneArea(frags, l.locationId) > 0.0 &&
      l.weight == PairArea(frags, l.AsPair()) / ZoneArea(frags, l.locationId)
  {
    var agg := Aggregate(frags);
    var raw := RawWeights(frags);
    var r := Crosswalk(frags, threshold);
    AggregateIsWellFormed(frags);
    FilterKeepsAll(raw, threshold);
    RawZonesHaveWeight(frags);
    RescaleRows(raw);
    RescaleKeepsPairs(raw);
    ApportionKeepsPairs(agg);
    AggregatePairSet(frags);
    var ks := GroupKeys(frags);
    KeysOfMembers(frags);
    forall l | l in r
      ensures ZoneArea(frags, l.locationId) > 0.0
      ensures l.weight == PairArea(frags, l.AsPair()) / ZoneArea(frags, l.locationId)
    {
      var i :| 0 <= i < |r| && r[i] == l;
      var z := l.locationId;
      RawWeightOfPair(frags, i);
      var total := agg[i].zoneTotalArea;
      assert agg[i] in agg && ks[i] in ks;
      var f :| f in frags && KeyOf(f) == ks[i];
      assert ZoneTotalIs(agg, z, total);
      ZoneWeightOfApportion(agg, z, total);
      AggregateKeepsZoneArea(frags, z);
      DivRatio(PairArea(frags, l.AsPair()), ZoneArea(frags, z), total);
    }
  }

  /** The output is the surviving rows in their order, each divided by the sum
      of its zone's survivors; every survivor reached the threshold. */
  lemma CrosswalkAtThreshold(frags: seq<Overlap>, threshold: real)
    requires WellFormed(frags) && (threshold > 0.0 || ZonesHaveArea(frags))
    ensures |Crosswalk(frags, threshold)| == |Filter(RawWeights(frags), threshold)|
    ensures forall i :: 0 <= i < |Filter(RawWeights(frags), threshold)| ==>
      var kept := Filter(RawWeights(frags), threshold);
      && kept[i].weight >= threshold
      && ZoneWeight(kept, kept[i].locationId) > 0.0
      && Crosswalk(frags, threshold)[i].AsPair() == kept[i].AsPair()
      && Crosswalk(frags, threshold)[i].weight == kept[i].weight / ZoneWeight(kept, kept[i].locationId)
  {
    var kept := Filter(RawWeights(frags), threshold);
    KeptZonesHaveWeight(frags, threshold);
    RescaleRows(kept);
    forall i | 0 <= i < |kept| ensures kept[i].weight >= threshold && ZoneWeight(kept, kept[i].locationId) > 0.0 {
      assert kept[i] in kept;
    }
  }

  /** Every raw weight is its pair's area over the total of a fragment of that pair. */
  lemma RawWeightHasFragment(frags: seq<Overlap>, j: int)
    requires WellFormed(frags) && 0 <= j < |RawWeights(frags)|
    ensures exists f :: f in frags && f.AsPair() == RawWeights(frags)[j].AsPair() &&
                        f.zoneTotalArea > 0.0 &&
                        RawWeights(frags)[j].weight == PairArea(frags, f.AsPair()) / f.zoneTotalArea
  {
    var agg := Aggregate(frags);
    var p := agg[j].AsPair();
    RawWeightOfPair(frags, j);
    AggregateIsWellFormed(frags);
    AggregatePairSet(frags);
    assert PairsOf(agg)[j] == p;
    assert p in PairsOf(frags);
    var k :| 0 <= k < |frags| && PairsOf(frags)[k] == p;
    var f := frags[k];
    assert f in frags && agg[j] in agg;
    assert f.zoneTotalArea == agg[j].zoneTotalArea;
    assert f.AsPair() == p;
    assert RawWeights(frags)[j].weight == PairArea(frags, p) / agg[j].zoneTotalArea;
  }

  /** A surviving pair covers at least `threshold` of its zone's total area. */
  lemma KeptPairHasShare(frags: seq<Overlap>, threshold: real, p: Pair)
    requires WellFormed(frags) && p in LinkPairs(Filter(RawWeights(frags), threshold))
    ensures exists f :: f in frags && f.AsPair() == p && PairArea(frags, p) / f.zoneTotalArea >= threshold
  {
    var raw := RawWeights(frags);
    var kept := Filter(raw, threshold);
    var i :| 0 <= i < |kept| && LinkPairs(kept)[i] == p;
    assert kept[i] in kept;
    var j :| 0 <= j < |raw| && raw[j] == kept[i];
    RawWeightHasFragment(frags, j);
  }

  /** A fragment's pair covering at least `threshold` of its zone survives the filter. */
  lemma ShareReachesFilter(frags: seq<Overlap>, threshold: real, f: Overlap)
    requires WellFormed(frags) && f in frags
    requires PairArea(frags, f.AsPair()) / f.zoneTotalArea >= threshold
    ensures f.AsPair() in LinkPairs(Filter(RawWeights(frags), threshold))
  {
    var agg := Aggregate(frags);
    var raw := RawWeights(frags);
    var kept := Filter(raw, threshold);
    var p := f.AsPair();
    AggregatePairSet(frags);
    var k :| 0 <= k < |frags| && frags[k] == f;
    assert PairsOf(frags)[k] == p;
    assert p in PairsOf(agg);
    var j :| 0 <= j < |agg| && PairsOf(agg)[j] == p;
    RawWeightOfPair(frags, j);
    AggregateTotal(frags, j, f);
    assert raw[j].weight >= threshold;
    assert raw[j] in raw;
    assert raw[j] in kept;
    var m :| 0 <= m < |kept| && kept[m] == raw[j];
    assert LinkPairs(kept)[m] == p;
  }

  lemma AggregateTotal(frags: seq<Overlap>, j: int, f: Overlap)
    requires WellFormed(frags) && f in frags
    requires 0 <= j < |Aggregate(frags)| && Aggregate(frags)[j].locationId == f.locationId
    ensures Aggregate(frags)[j].zoneTotalArea == f.zoneTotalArea
  {
    AggregateIsWellFormed(frags);
    assert Aggregate(frags)[j] in Aggregate(frags);
  }

  /** A pair of the overlay reaches the output iff its summed area is at least
      `threshold` of its zone's total area. */
  lemma CrosswalkPairIff(frags: seq<Overlap>, threshold: real, p: Pair)
    requires WellFormed(frags) && (threshold > 0.0 || ZonesHaveArea(frags))
    ensures p in LinkPairs(Crosswalk(frags, threshold)) <==>
      exists f :: f in frags && f.AsPair() == p && PairArea(frags, p) / f.zoneTotalArea >= threshold
  {
    var kept := Filter(RawWeights(frags), threshold);
    KeptZonesHaveWeight(frags, threshold);
    RescaleKeepsPairs(kept);
    if p in LinkPairs(kept) {
      KeptPairHasShare(frags, threshold, p);
    }
    if exists f :: f in frags && f.AsPair() == p && PairArea(frags, p) / f.zoneTotalArea >= threshold {
      var f :| f in frags && f.AsPair() == p && PairArea(frags, p) / f.zoneTotalArea >= threshold;
      ShareReachesFilter(frags, threshold, f);
    }
  }

  /** The output is empty exactly when no pair reaches the threshold. */
  lemma CrosswalkEmpty(frags: seq<Overlap>, threshold: real)
    requires WellFormed(frags) && (threshold > 0.0 || ZonesHaveArea(frags))
    ensures Crosswalk(frags, threshold) == [] <==> forall l :: l in RawWeights(frags) ==> l.weight < threshold
  {
    var kept := Filter(RawWeights(frags), threshold);
    KeptZonesHaveWeight(frags, threshold);
    RescaleRows(kept);
    if kept != [] {
      assert kept[0] in kept;
    }
  }

  /** At exactly the threshold a row survives: the comparison is inclusive. */
  lemma BoundaryPairIsKept(links: seq<Link>, i: int)
    requires 0 <= i < |links| && links[i].weight == MinApportionThreshold
    ensures links[i] in Filter(links, MinApportionThreshold)
  {
  }

  /** In a zone of total area 1000, a tract covering 10 has weight exactly 0.01
      and stays in the final table. */
  lemma BoundaryTractIsKept()
    ensures Pair(1, "C") in LinkPairs(FinalTable([Overlap(1, "A", 1000.0, 600.0),
                                                  Overlap(1, "B", 1000.0, 390.0),
                                                  Overlap(1, "C", 1000.0, 10.0)]))
  {
    var frags := [Overlap(1, "A", 1000.0, 600.0), Overlap(1, "B", 1000.0, 390.0), Overlap(1, "C", 1000.0, 10.0)];
    var c := Pair(1, "C");
    assert "A" != "C" && "B" != "C";
    assert PairArea(frags[2..], c) == 10.0;
    assert PairArea(frags[1..], c) == 10.0;
    assert PairArea(frags, c) == 10.0;
    assert WellFormed(frags);
    assert frags[2] in frags && frags[2].AsPair() == c;
    assert PairArea(frags, c) / frags[2].zoneTotalArea >= MinApportionThreshold;
    CrosswalkPairIff(frags, MinApportionThreshold, c);
  }
}
