/**
  The earlier crosswalk (steps 5 to 7 of geospatial_join_2.py): weight every
  overlay fragment by its share of the zone's area, divide each weight by the
  sum of its zone's fragment weights, and only then sum the normalised weights
  per (LocationID, BoroCT2020). There is no threshold.
 */
module ValidatedCrosswalk {
  import opened Ordering
  import opened Table

  /** One row per pair of `ps`, in that order, holding the pair's summed weight. */
  function PairRows(ps: seq<Pair>, links: seq<Link>): (agg: seq<Link>)
    ensures |agg| == |ps|
    ensures forall i :: 0 <= i < |ps| ==> agg[i] == Link(ps[i].locationId, ps[i].tractId, PairWeight(links, ps[i]))
  {
    if ps == [] then []
    else [Link(ps[0].locationId, ps[0].tractId, PairWeight(links, ps[0]))] + PairRows(ps[1..], links)
  }

  /** Step 7: `groupby([LocationID, BoroCT2020]).agg({apportion_weight_normalized: sum})`. */
  function AggregatePairs(links: seq<Link>): seq<Link>
  {
    PairRows(SortedDistinct(LinkPairs(links), PairLess), links)
  }

  /** Step 6: every fragment's weight over its zone's `weight_sums` entry. */
  function Normalised(frags: seq<Overlap>): seq<Link>
    requires WellFormed(frags) && ZonesHaveArea(frags)
  {
    FragmentZonesHaveWeight(frags);
    Rescale(ApportionWeights(frags))
  }

  /** Steps 5 to 7: the (LocationID, census_tract_id, apportion_weight) table. */
  function Crosswalk(frags: seq<Overlap>): (r: seq<Link>)
    requires WellFormed(frags) && ZonesHaveArea(frags)
    ensures Zones(r) == ZoneIds(frags)
    ensures forall z :: z in Zones(r) ==> ZoneWeight(r, z) == 1.0
  {
    FragmentZonesHaveWeight(frags);
    SumsToOne(ApportionWeights(frags));
    AggregatePairsKeepsZones(Normalised(frags));
    ApportionZones(frags);
    AggregatePairs(Normalised(frags))
  }

  // ---------------------------------------------------------------------
  // Steps 5 and 6: per-fragment weights and their normalisation

  lemma ApportionZones(frags: seq<Overlap>)
    requires ValidAreas(frags)
    ensures Zones(ApportionWeights(frags)) == ZoneIds(frags)
  {
    var w := ApportionWeights(frags);
    forall z | z in ZoneIds(frags) ensures z in Zones(w) {
      var o :| o in frags && o.locationId == z;
      var i :| 0 <= i < |frags| && frags[i] == o;
      assert w[i] in w;
    }
    forall z | z in Zones(w) ensures z in ZoneIds(frags) {
      var l :| l in w && l.locationId == z;
      var i :| 0 <= i < |w| && w[i] == l;
      assert frags[i] in frags;
    }
  }

  /** `weight_sums[z]` is the weight of all of zone z's fragments, none left out:
      its overlapped area over its total area. */
  lemma WeightSumsAreZoneTotals(frags: seq<Overlap>)
    requires WellFormed(frags)
    ensures Zones(ApportionWeights(frags)) == ZoneIds(frags)
    ensures forall f :: f in frags ==>
      WeightSums(ApportionWeights(frags))[f.locationId] == ZoneArea(frags, f.locationId) / f.zoneTotalArea
  {
    ApportionZones(frags);
    forall f | f in frags
      ensures WeightSums(ApportionWeights(frags))[f.locationId] == ZoneArea(frags, f.locationId) / f.zoneTotalArea
    {
      ZoneWeightOfApportion(frags, f.locationId, f.zoneTotalArea);
    }
  }

  /** Every zone's sum is positive, so step 6 never divides by zero here. */
  lemma FragmentZonesHaveWeight(frags: seq<Overlap>)
    requires WellFormed(frags) && ZonesHaveArea(frags)
    ensures PositiveZoneWeights(ApportionWeights(frags))
  {
    var w := ApportionWeights(frags);
    WeightSumsAreZoneTotals(frags);
    forall l | l in w ensures ZoneWeight(w, l.locationId) > 0.0 {
      var i :| 0 <= i < |w| && w[i] == l;
      assert frags[i] in frags;
      DivPositive(ZoneArea(frags, l.locationId), frags[i].zoneTotalArea);
    }
  }

  /** Each fragment's normalised weight is its share of its zone's overlapped area. */
  lemma NormalisedFragmentWeight(frags: seq<Overlap>, i: int)
    requires WellFormed(frags) && ZonesHaveArea(frags)
    requires 0 <= i < |frags|
    ensures |Normalised(frags)| == |frags|
    ensures ZoneArea(frags, frags[i].locationId) > 0.0
    ensures Normalised(frags)[i].AsPair() == frags[i].AsPair()
    ensures Normalised(frags)[i].weight == frags[i].intersectArea / ZoneArea(frags, frags[i].locationId)
  {
    var w := ApportionWeights(frags);
    FragmentZonesHaveWeight(frags);
    WeightSumsAreZoneTotals(frags);
    RescaleRows(w);
    assert frags[i] in frags;
    ApportionWeightAt(frags, i);
    DivRatio(frags[i].intersectArea, ZoneArea(frags, frags[i].locationId), frags[i].zoneTotalArea);
  }

  // ---------------------------------------------------------------------
  // Step 7: aggregation of the normalised weights

  lemma {:induction false} PairRowsEmpty(ps: seq<Pair>, z: int)
    ensures ZoneWeight(PairRows(ps, []), z) == 0.0
  {
    if ps != [] {
      PairRowsEmpty(ps[1..], z);
    }
  }

  /** Removing the first row takes its weight out of exactly the one pair it belongs to. */
  lemma {:induction false} PairRowsPeel(ps: seq<Pair>, links: seq<Link>, z: int)
    requires links != [] && Distinct(ps)
    ensures ZoneWeight(PairRows(ps, links), z)
         == ZoneWeight(PairRows(ps, links[1..]), z)
            + (if links[0].AsPair() in ps && links[0].locationId == z then links[0].weight else 0.0)
  {
    if ps != [] {
      assert Distinct(ps[1..]);
      assert ps[0] !in ps[1..];
      PairRowsPeel(ps[1..], links, z);
      assert links[0].AsPair() in ps <==> links[0].AsPair() == ps[0] || links[0].AsPair() in ps[1..];
    }
  }

  /** Regrouping: the pair sums of a zone add up to the zone's sum. */
  lemma {:induction false} PairRowsZoneWeight(ps: seq<Pair>, links: seq<Link>, z: int)
    requires Distinct(ps)
    requires forall l :: l in links ==> l.AsPair() in ps
    ensures ZoneWeight(PairRows(ps, links), z) == ZoneWeight(links, z)
  {
    if links == [] {
      PairRowsEmpty(ps, z);
    } else {
      assert links[0] in links;
      assert forall l :: l in links[1..] ==> l in links;
      PairRowsZoneWeight(ps, links[1..], z);
      PairRowsPeel(ps, links, z);
    }
  }

  /** The aggregated rows are sorted by (LocationID, BoroCT2020), one per pair
      present, and each holds the summed weight of its pair. */
  lemma AggregatePairsSorted(links: seq<Link>)
    ensures StrictlySorted(LinkPairs(AggregatePairs(links)), PairLess)
    ensures forall p :: p in LinkPairs(AggregatePairs(links)) <==> p in LinkPairs(links)
    ensures forall l :: l in AggregatePairs(links) ==> l.weight == PairWeight(links, l.AsPair())
  {
    var ps := SortedDistinct(LinkPairs(links), PairLess);
    PairLessIsStrictTotalOrder();
    SortedDistinctIsSorted(LinkPairs(links), PairLess);
    assert LinkPairs(AggregatePairs(links)) == ps;
  }

  /** Summing per pair after normalising keeps every zone's total and loses no zone. */
  lemma AggregatePairsKeepsZones(links: seq<Link>)
    ensures Zones(AggregatePairs(links)) == Zones(links)
    ensures forall z :: ZoneWeight(AggregatePairs(links), z) == ZoneWeight(links, z)
  {
    var ps := SortedDistinct(LinkPairs(links), PairLess);
    var agg := AggregatePairs(links);
    PairLessIsStrictTotalOrder();
    SortedDistinctIsSorted(LinkPairs(links), PairLess);
    SortedIsDistinct(ps, PairLess);
    forall l | l in links ensures l.AsPair() in ps {
      var i :| 0 <= i < |links| && links[i] == l;
      assert LinkPairs(links)[i] == l.AsPair();
    }
    forall z ensures ZoneWeight(agg, z) == ZoneWeight(links, z) {
      PairRowsZoneWeight(ps, links, z);
    }
    forall z | z in Zones(links) ensures z in Zones(agg) {
      var l :| l in links && l.locationId == z;
      var i :| 0 <= i < |ps| && ps[i] == l.AsPair();
      assert agg[i] in agg;
    }
    forall z | z in Zones(agg) ensures z in Zones(links) {
      var l :| l in agg && l.locationId == z;
      var i :| 0 <= i < |agg| && agg[i] == l;
      assert ps[i] in LinkPairs(links);
      var j :| 0 <= j < |links| && LinkPairs(links)[j] == ps[i];
      assert links[j] in links;
    }
  }

  // ---------------------------------------------------------------------
  // The output table

  lemma NormalisedPairs(frags: seq<Overlap>)
    requires WellFormed(frags) && ZonesHaveArea(frags)
    ensures LinkPairs(Normalised(frags)) == PairsOf(frags)
  {
    FragmentZonesHaveWeight(frags);
    ApportionKeepsPairs(frags);
    RescaleKeepsPairs(ApportionWeights(frags));
  }

  /** The normalised weight of a pair is the pair's share of its zone's overlapped area. */
  lemma {:induction false} PairWeightOfNormalised(frags: seq<Overlap>, p: Pair)
    requires WellFormed(frags) && ZonesHaveArea(frags)
    requires p in PairsOf(frags)
    ensures ZoneArea(frags, p.locationId) > 0.0
    ensures PairWeight(Normalised(frags), p) == PairArea(frags, p) / ZoneArea(frags, p.locationId)
  {
    var w := ApportionWeights(frags);
    var j :| 0 <= j < |frags| && PairsOf(frags)[j] == p;
    var f := frags[j];
    assert f in frags;
    FragmentZonesHaveWeight(frags);
    WeightSumsAreZoneTotals(frags);
    var sums := WeightSums(w);
    DividePairWeight(w, sums, p);
    PairWeightOfApportion(frags, p, f.zoneTotalArea);
    DivRatio(PairArea(frags, p), ZoneArea(frags, p.locationId), f.zoneTotalArea);
  }

  /** Every output row is a pair of the overlay holding that pair's share of
      its zone's overlapped area; the rows are sorted by pair, one per pair. */
  lemma CrosswalkRows(frags: seq<Overlap>)
    requires WellFormed(frags) && ZonesHaveArea(frags)
    ensures StrictlySorted(LinkPairs(Crosswalk(frags)), PairLess)
    ensures forall p :: p in LinkPairs(Crosswalk(frags)) <==> p in PairsOf(frags)
    ensures forall l :: l in Crosswalk(frags) ==>
      ZoneArea(frags, l.locationId) > 0.0 &&
      l.weight == PairArea(frags, l.AsPair()) / ZoneArea(frags, l.locationId)
  {
    var n := Normalised(frags);
    var r := Crosswalk(frags);
    AggregatePairsSorted(n);
    NormalisedPairs(frags);
    forall l | l in r
      ensures ZoneArea(frags, l.locationId) > 0.0
      ensures l.weight == PairArea(frags, l.AsPair()) / ZoneArea(frags, l.locationId)
    {
      var i :| 0 <= i < |r| && r[i] == l;
      assert LinkPairs(r)[i] == l.AsPair();
      PairWeightOfNormalised(frags, l.AsPair());
    }
  }
}
