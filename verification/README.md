# Zone–tract crosswalk weights, modelled in Dafny

This project models the table arithmetic that turns taxi-zone / census-tract
overlap fragments into an apportionment crosswalk: for every (LocationID,
BoroCT2020) pair, the fraction of the zone's area that the tract covers. It
proves what the scripts promise: the weights of every zone in the output sum
to exactly 1.

Two versions of the pipeline are modelled.

- `FinalCrosswalk` follows `geospatial_join.py`, steps 5–8. It sums fragments
  per (LocationID, BoroCT2020, zone_total_area). It divides each sum by the
  zone's total area. It keeps the pairs whose weight is at least the
  threshold (inclusive; 0.01 by default). It then divides each survivor by
  its zone's surviving sum.
- `ValidatedCrosswalk` follows `geospatial_join_2.py`, steps 5–7. It weights
  every fragment. It normalises the weights per zone over all fragments. Only
  then does it sum the normalised weights per pair. There is no threshold.
- `Equivalence` proves that the two give the same table, row for row and in
  the same order, when the threshold is 0 or below and every zone covers a
  positive overlapped area (`ZonesHaveArea`).

Shared pieces live in `Table`: the row types, the weight column, the
per-zone `weight_sums` dictionary and the row-wise division by it.
`Ordering` models the key order of a pandas `groupby` (sorted keys, strings
by code point) and proves that a strictly sorted key list is determined by
its keys.

Inputs are the areas the geometry library computes. A fragment is an
`Overlap(locationId, tractId, zoneTotalArea, intersectArea)`, as the overlay
output carries them. The dissolve step is what makes `WellFormed` hold: every
zone total is positive, every fragment area is non-negative, and all rows of
one LocationID carry the same total. Weights are exact `real`s, so "sums to 1
within 1e-5" (test_crosswalk.py:8) becomes exact equality.

## Model

| member | source | states |
|---|---|---|
| `Ordering.SortedDistinct` | geospatial_join.py:39 | the groups of a group-by are exactly the keys that occur in the table |
| `Ordering.SortedDistinctIsSorted` | geospatial_join.py:39 | the group keys come out strictly ascending, so each key appears once |
| `Ordering.StrLessIsStrictTotalOrder` | geospatial_join.py:39 | Python's order on BoroCT2020 strings is a strict total order |
| `Ordering.SortedUnique` | geospatial_join_2.py:57-59 | two strictly sorted key lists with the same keys are equal, so the group order depends only on which keys occur |
| `Table.PairLessIsStrictTotalOrder` | geospatial_join_2.py:57 | sorting by (LocationID, BoroCT2020) is a strict total order |
| `Table.ApportionWeights` | geospatial_join.py:42 | one weight row per input row, with the same pair; every weight is non-negative |
| `Table.ApportionWeightAt` | geospatial_join_2.py:39 | row i's weight is its intersected area over its zone's total area |
| `Table.ZoneWeightOfApportion` | geospatial_join_2.py:39-45 | a zone's summed weight is its summed intersected area over its total area |
| `Table.PairWeightOfApportion` | geospatial_join_2.py:39 | a pair's summed weight is its summed intersected area over its zone's total area |
| `Table.DivideZoneWeight` | geospatial_join.py:54-57 | dividing every row by its zone's dictionary entry divides the zone's sum by that entry |
| `Table.DividePairWeight` | geospatial_join_2.py:48-51 | dividing every row by its zone's dictionary entry divides each pair's sum by that entry |
| `Table.WeightAtMostZoneWeight` | geospatial_join.py:55 | with non-negative weights, no row exceeds its zone's sum |
| `Table.SumsToOne` | geospatial_join.py:52-57 | after rescaling, the zones are unchanged and every zone's weights sum to exactly 1 |
| `Table.RescaleRows` | geospatial_join.py:54-57 | rescaling keeps each row's pair and divides its weight by its zone's sum |
| `Table.RescaleBounds` | geospatial_join.py:54-57 | rescaled non-negative weights lie in [0, 1], and positive weights stay positive |
| `Table.RescaleKeepsRatios` | geospatial_join.py:55 | within one zone, rescaling keeps the ratio of any two weights |
| `FinalCrosswalk.KeyLessIsStrictTotalOrder` | geospatial_join.py:39 | the (LocationID, BoroCT2020, zone_total_area) key order is a strict total order |
| `FinalCrosswalk.AggregateIsWellFormed` | geospatial_join.py:39 | aggregated rows have non-negative areas and the same zone total as the zone's fragments |
| `FinalCrosswalk.KeyAreaIsPairArea` | geospatial_join.py:39 | when zone_total_area depends only on LocationID, a triple key's area is the whole pair's area |
| `FinalCrosswalk.AggregateSortedByPair` | geospatial_join.py:39 | the aggregated rows are strictly sorted by (LocationID, BoroCT2020): one row per pair, since the extra key column splits no pair |
| `FinalCrosswalk.AggregatePairSet` | geospatial_join.py:39 | the aggregated pairs are exactly the pairs among the fragments |
| `FinalCrosswalk.AggregateSumsPairs` | geospatial_join.py:38-39 | each aggregated row holds the sum of all fragment areas of its pair |
| `FinalCrosswalk.AggregateKeepsZoneArea` | geospatial_join.py:39 | aggregation keeps every zone's total overlapped area |
| `FinalCrosswalk.RawWeightOfPair` | geospatial_join.py:42 | each raw weight is the pair's summed area over the zone's total area, and is non-negative |
| `FinalCrosswalk.Filter` | geospatial_join.py:46 | a row survives iff its weight is at least the threshold, boundary included; no rows are added |
| `FinalCrosswalk.FilterAppend` | geospatial_join.py:46 | the filter works row by row, so survivors keep their original order |
| `FinalCrosswalk.FilterKeepsAll` | geospatial_join.py:46 | rows that all reach the threshold pass through unchanged |
| `FinalCrosswalk.FilterSorted` | geospatial_join.py:46 | filtering a table sorted by pair leaves it sorted by pair |
| `FinalCrosswalk.FilterMonotone` | geospatial_join.py:46 | a higher threshold keeps a sub-list of what a lower one kept, and no zone gains rows |
| `FinalCrosswalk.FilterPositiveSums` | geospatial_join.py:46-52 | with a positive threshold, the weights of every surviving row's zone have a positive sum |
| `FinalCrosswalk.KeptZonesAreKeys` | geospatial_join.py:52-55 | with a positive threshold, every survivor's LocationID is a key of weight_sums and its value is positive, so the lookup and division at line 55 never fail |
| `FinalCrosswalk.RawZonesHaveWeight` | geospatial_join.py:42-52 | if every zone has positive overlapped area, every zone's raw weight sum is positive |
| `FinalCrosswalk.KeptZonesHaveWeight` | geospatial_join.py:46-56 | the division at step 7 is defined for every surviving row |
| `FinalCrosswalk.Crosswalk` | geospatial_join.py:36-65 | every LocationID in the output has weights summing to exactly 1 |
| `FinalCrosswalk.FinalTable` | geospatial_join.py:7-65 | at the 0.01 threshold, every zone sums to exactly 1 and every weight lies in (0, 1] |
| `FinalCrosswalk.CrosswalkSortedByPair` | geospatial_join.py:61-65 | the output is strictly sorted by (LocationID, census_tract_id), so each pair appears once |
| `FinalCrosswalk.CrosswalkWeightsInUnitInterval` | geospatial_join.py:54-57 | with a positive threshold, every output weight lies in (0, 1] |
| `FinalCrosswalk.ZoneAppearsIff` | geospatial_join.py:46-61 | a zone is in the output iff one of its raw weights reaches the threshold; other zones vanish without notice |
| `FinalCrosswalk.CrosswalkKeepsRatios` | geospatial_join.py:55 | two surviving pairs of one zone keep their raw weight ratio |
| `FinalCrosswalk.CrosswalkShareWithoutThreshold` | geospatial_join.py:38-57 | at threshold ≤ 0, the output pairs are the overlay's pairs, each weighted by its share of the zone's overlapped area |
| `FinalCrosswalk.CrosswalkAtThreshold` | geospatial_join.py:46-57 | at any threshold the output has one row per survivor, in order, with the survivor's pair and its raw weight over the sum of its zone's survivors; every survivor reached the threshold |
| `FinalCrosswalk.RawWeightHasFragment` | geospatial_join.py:39-42 | each raw weight is its pair's summed area over the total area of a fragment of that pair |
| `FinalCrosswalk.KeptPairHasShare` | geospatial_join.py:42-46 | a pair surviving the filter covers at least the threshold's share of its zone's total area |
| `FinalCrosswalk.ShareReachesFilter` | geospatial_join.py:42-46 | a fragment's pair covering at least the threshold's share of its zone survives the filter |
| `FinalCrosswalk.CrosswalkPairIff` | geospatial_join.py:38-65 | a pair is in the output iff its summed area is at least the threshold's share of its zone's total area |
| `FinalCrosswalk.CrosswalkEmpty` | geospatial_join.py:46-57 | the output is empty exactly when no raw weight reaches the threshold |
| `FinalCrosswalk.BoundaryPairIsKept` | geospatial_join.py:46 | any row whose weight equals the 0.01 threshold survives the filter |
| `FinalCrosswalk.BoundaryTractIsKept` | geospatial_join.py:7-65 | in a zone of total area 1000, a tract covering 10 (weight exactly 0.01) is in the final table |
| `ValidatedCrosswalk.Crosswalk` | geospatial_join_2.py:37-64 | every zone with a fragment is in the output, and each zone's weights sum to exactly 1 |
| `ValidatedCrosswalk.ApportionZones` | geospatial_join_2.py:39 | weighting every fragment keeps the set of LocationIDs |
| `ValidatedCrosswalk.WeightSumsAreZoneTotals` | geospatial_join_2.py:45 | weight_sums[z] is the weight of all of zone z's fragments, none filtered: its overlapped area over its total area |
| `ValidatedCrosswalk.FragmentZonesHaveWeight` | geospatial_join_2.py:48-51 | if every zone has positive overlapped area, no weight_sums entry that step 6 divides by is zero |
| `ValidatedCrosswalk.NormalisedFragmentWeight` | geospatial_join_2.py:48-51 | each fragment's normalised weight is its area over its zone's overlapped area |
| `ValidatedCrosswalk.PairRowsZoneWeight` | geospatial_join_2.py:57-59 | summing per pair keeps each zone's sum (regrouping) |
| `ValidatedCrosswalk.AggregatePairsSorted` | geospatial_join_2.py:57-59 | one row per pair present, sorted by pair, holding the sum of that pair's weights |
| `ValidatedCrosswalk.AggregatePairsKeepsZones` | geospatial_join_2.py:57-59 | aggregating after normalising keeps every zone and every zone's total |
| `ValidatedCrosswalk.PairWeightOfNormalised` | geospatial_join_2.py:48-59 | a pair's summed normalised weight is its area over its zone's overlapped area |
| `ValidatedCrosswalk.CrosswalkRows` | geospatial_join_2.py:57-64 | the output is sorted by pair, has exactly the overlay's pairs, and weights each pair by its share of its zone |
| `Equivalence.PipelinesAgreeWithoutThreshold` | geospatial_join_2.py:39-59 | at threshold ≤ 0, aggregate-then-normalise (geospatial_join.py:38-57) and normalise-then-aggregate give the same table |

## Left out

- Geometry: loading the shapefiles, `to_crs`, `dissolve`, `gpd.overlay` and
  `.geometry.area` are geopandas/shapely calls. The model takes their results
  (zone total areas and fragment areas) as inputs. The dissolve contributes
  only the `WellFormed` precondition.
- Floating point: weights are exact reals. The 1e-5 tolerance of
  test_crosswalk.py:8 becomes exact equality. The `%.6f` formatting of the CSV
  is not modelled.
- Output and errors: CSV writing, progress prints, the LocationID 241
  validation prints and `exit()` on a load error are I/O.
- Columns: the model's rows hold only the columns later steps read. The
  intermediate frames also carry geometry and the raw `apportion_weight`.
  The column selection and renaming at geospatial_join.py:61-65 and
  geospatial_join_2.py:61-64 are therefore the identity on the model's rows.
- `FinalCrosswalk.Crosswalk`: requires a positive threshold, or a positive
  overlapped area in every zone. Otherwise a zone whose surviving weights are
  all 0 makes the script divide 0 by 0. Depending on the pandas version, the
  script then fails or writes NaN. Neither outcome is modelled. At the
  script's 0.01 threshold this precondition always holds.
- `FinalCrosswalk.Crosswalk`: returns the empty table when no pair reaches the
  threshold, or when there are no fragments (`FinalCrosswalk.CrosswalkEmpty`
  states when). On an empty frame the row-wise `apply` at
  geospatial_join.py:54 returns a frame instead of a column, so the script
  stops with an error there. The model does not capture that crash.
- `ValidatedCrosswalk.Crosswalk`: requires a positive overlapped area in every
  zone (`ZonesHaveArea`). The script has no guard. A zone whose fragments all
  have zero area makes it divide 0 by 0, which fails or yields NaN, depending
  on the pandas version.
- `ValidatedCrosswalk.Crosswalk`: returns the empty table when there are no
  fragments. Its zones are exactly the fragments' zones. The script instead
  stops with an error at the `apply` of geospatial_join_2.py:48 on an empty
  frame. The model does not capture that crash.
- analyze_crosswalk.py is not part of this model: it only plots, reads
  files and counts.
- geospatial_join_1.py is not part of this model. Its only logic is the same
  per-row division as `Table.ApportionWeights`.
- test_crosswalk.py is not part of this model: it reads files and prints. Its
  two checks appear as `FinalCrosswalk.FinalTable` (sums to 1) and
  `FinalCrosswalk.ZoneAppearsIff` (which zones go missing).

Where the intended design and the code differ, the model follows the code:

- The code warns about no dropped zone. A zone whose pairs are all below the
  threshold is simply absent (`FinalCrosswalk.ZoneAppearsIff`).
- The filter is inclusive: a row whose weight equals the threshold is kept
  (`FinalCrosswalk.BoundaryPairIsKept`). In a zone of total area 1000, a
  tract covering 10 has weight exactly 0.01 and appears in the final table
  (`FinalCrosswalk.BoundaryTractIsKept`).
- The output order comes from pandas' sorted `groupby`, not from a separate
  sort.
