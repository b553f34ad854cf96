/**
  The two crosswalk scripts agree once the threshold is out of the way:
  aggregating per pair and then normalising per zone (geospatial_join.py)
  gives the same table as normalising per fragment and then aggregating per
  pair (geospatial_join_2.py), row for row and in the same order.
 */
module Equivalence {
  import opened Ordering
  import opened Table
  import Final = FinalCrosswalk
  import Validated = ValidatedCrosswalk

  lemma PipelinesAgreeWithoutThreshold(frags: seq<Overlap>, threshold: real)
    requires WellFormed(frags) && ZonesHaveArea(frags) && threshold <= 0.0
    ensures Final.Crosswalk(frags, threshold) == Validated.Crosswalk(frags)
  {
    var a := Final.Crosswalk(frags, threshold);
    var b := Validated.Crosswalk(frags);
    Final.CrosswalkSortedByPair(frags, threshold);
    Final.CrosswalkShareWithoutThreshold(frags, threshold);
    Validated.CrosswalkRows(frags);
    PairLessIsStrictTotalOrder();
    SortedUnique(LinkPairs(a), LinkPairs(b), PairLess);
    assert |a| == |LinkPairs(a)| == |LinkPairs(b)| == |b|;
    forall i | 0 <= i < |a| ensures a[i] == b[i] {
      assert LinkPairs(a)[i] == LinkPairs(b)[i];
      assert a[i] in a && b[i] in b;
    }
  }
}
