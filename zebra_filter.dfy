/**
 * Coverage filter (scripts/3.2_feature_zebra_filt.py, `feature_abundance_filt`):
 * sort the coverage table by decreasing coverage, take the ids whose
 * coverage reaches the threshold, keep the table rows whose id is among
 * them (`df.index.isin`), then transpose.
 */
module ZebraFilter {
  import opened Tables

  /** One line of the coverage file: a feature id and its coverage percentage. */
  datatype Coverage = Coverage(id: string, percent: real)

  /** Coverage never increases along the sequence. */
  predicate Descending(cov: seq<Coverage>) {
    forall k, l :: 0 <= k < l < |cov| ==> cov[k].percent >= cov[l].percent
  }

  /** Insert `c` into a descending sequence, after the entries with at least its coverage. */
  function Insert(c: Coverage, sorted: seq<Coverage>): (r: seq<Coverage>)
    requires Descending(sorted)
    ensures Descending(r)
    ensures multiset(r) == multiset(sorted) + multiset{c}
  {
    if sorted == [] then [c]
    else if sorted[0].percent >= c.percent then
      var rest := Insert(c, sorted[1..]);
      assert sorted == [sorted[0]] + sorted[1..];
      BoundedBy(sorted[0].percent, c, sorted[1..], rest);
      DescendingCons(sorted[0], rest);
      [sorted[0]] + rest
    else
      DescendingCons(c, sorted);
      [c] + sorted
  }

  /** A bound on `c` and on every coverage of `s` bounds every coverage of a permutation of `s` plus `c`. */
  lemma {:induction false} BoundedBy(x: real, c: Coverage, s: seq<Coverage>, r: seq<Coverage>)
    requires x >= c.percent
    requires forall l :: 0 <= l < |s| ==> x >= s[l].percent
    requires multiset(r) == multiset(s) + multiset{c}
    ensures forall l :: 0 <= l < |r| ==> x >= r[l].percent
  {
    forall l | 0 <= l < |r| ensures x >= r[l].percent {
      assert r[l] in multiset(r);
      assert r[l] == c || r[l] in multiset(s);
    }
  }

  lemma {:induction false} DescendingCons(x: Coverage, s: seq<Coverage>)
    requires Descending(s)
    requires forall l :: 0 <= l < |s| ==> x.percent >= s[l].percent
    ensures Descending([x] + s)
  {
  }

  /**
   * `sort_values(by='coverage %', ascending=False)`. The model fixes one
   * order among equal coverages (first come, first placed).
   */
  function SortDescending(cov: seq<Coverage>): (r: seq<Coverage>)
    ensures Descending(r)
    ensures multiset(r) == multiset(cov)
  {
    if cov == [] then []
    else
      assert cov == cov[..|cov| - 1] + [cov[|cov| - 1]];
      Insert(cov[|cov| - 1], SortDescending(cov[..|cov| - 1]))
  }

  /** `zebra_coverage_sorted[coverage_mask].index`: the ids whose coverage reaches the threshold. */
  function FilteredFeatures(sorted: seq<Coverage>, zebraThreshold: real): (ids: seq<string>)
    ensures |ids| <= |sorted|
    ensures forall x :: x in ids ==> exists k :: 0 <= k < |sorted| && sorted[k].id == x
  {
    Masked(seq(|sorted|, k requires 0 <= k < |sorted| => sorted[k].id),
           seq(|sorted|, k requires 0 <= k < |sorted| => sorted[k].percent >= zebraThreshold))
  }

  /** The coverage table lists `id` with a coverage at or above the threshold. */
  predicate Covered(cov: seq<Coverage>, id: string, zebraThreshold: real) {
    exists k :: 0 <= k < |cov| && cov[k].id == id && cov[k].percent >= zebraThreshold
  }

  /** An id is among the filtered features iff the table lists it with enough coverage. */
  lemma {:induction false} FilteredFeaturesMember(sorted: seq<Coverage>, zebraThreshold: real, id: string)
    ensures id in FilteredFeatures(sorted, zebraThreshold) <==> Covered(sorted, id, zebraThreshold)
  {
    var ids := seq(|sorted|, k requires 0 <= k < |sorted| => sorted[k].id);
    var mask := seq(|sorted|, k requires 0 <= k < |sorted| => sorted[k].percent >= zebraThreshold);
    MaskedMember(ids, mask, id);
    assert forall k :: 0 <= k < |sorted| ==> ids[k] == sorted[k].id && (mask[k] <==> sorted[k].percent >= zebraThreshold);
  }

  /** Sorting the coverage table does not change which ids pass. */
  lemma {:induction false} CoveredAfterSort(cov: seq<Coverage>, id: string, zebraThreshold: real)
    ensures Covered(SortDescending(cov), id, zebraThreshold) <==> Covered(cov, id, zebraThreshold)
  {
    var sorted := SortDescending(cov);
    if Covered(sorted, id, zebraThreshold) {
      var k :| 0 <= k < |sorted| && sorted[k].id == id && sorted[k].percent >= zebraThreshold;
      assert sorted[k] in multiset(cov);
      var l :| 0 <= l < |cov| && cov[l] == sorted[k];
    }
    if Covered(cov, id, zebraThreshold) {
      var k :| 0 <= k < |cov| && cov[k].id == id && cov[k].percent >= zebraThreshold;
      assert cov[k] in multiset(sorted);
      var l :| 0 <= l < |sorted| && sorted[l] == cov[k];
    }
  }

  /** `df.index.isin(filtered_features)`, one entry per table row. */
  function CoverageMask(t: Table, cov: seq<Coverage>, zebraThreshold: real): (mask: seq<bool>)
    requires t.Valid()
    ensures |mask| == |t.rows|
    ensures forall i :: 0 <= i < |t.rows| ==> (mask[i] <==> Covered(cov, t.rowIds[i], zebraThreshold))
  {
    var features := FilteredFeatures(SortDescending(cov), zebraThreshold);
    var mask := seq(|t.rows|, i requires 0 <= i < |t.rows| => t.rowIds[i] in features);
    assert forall i :: 0 <= i < |t.rows| ==> (mask[i] <==> Covered(cov, t.rowIds[i], zebraThreshold)) by {
      forall i | 0 <= i < |t.rows|
        ensures mask[i] <==> Covered(cov, t.rowIds[i], zebraThreshold)
      {
        FilteredFeaturesMember(SortDescending(cov), zebraThreshold, t.rowIds[i]);
        CoveredAfterSort(cov, t.rowIds[i], zebraThreshold);
      }
    }
    mask
  }

  /** `df[df.index.isin(filtered_features)]`, before the transpose. */
  function KeepCovered(t: Table, cov: seq<Coverage>, zebraThreshold: real): (r: Table)
    requires t.Valid()
    ensures r.Valid() && r.colIds == t.colIds
  {
    SelectRows(t, CoverageMask(t, cov, zebraThreshold))
  }

  /**
   * A row is kept iff the coverage table lists its id with coverage at or
   * above the threshold, so ids missing from the coverage table are
   * dropped; kept rows are unchanged and stay in the table's own order.
   */
  lemma {:induction false} KeepCoveredSpec(t: Table, cov: seq<Coverage>, zebraThreshold: real)
    requires t.Valid()
    ensures var ks := Kept(CoverageMask(t, cov, zebraThreshold));
      && |KeepCovered(t, cov, zebraThreshold).rows| == |ks|
      && (forall k :: 0 <= k < |ks| ==>
           ks[k] < |t.rows| &&
           KeepCovered(t, cov, zebraThreshold).rowIds[k] == t.rowIds[ks[k]] &&
           KeepCovered(t, cov, zebraThreshold).rows[k] == t.rows[ks[k]])
      && (forall k, l :: 0 <= k < l < |ks| ==> ks[k] < ks[l])
      && (forall i :: 0 <= i < |t.rows| ==> (i in ks <==> Covered(cov, t.rowIds[i], zebraThreshold)))
      && (forall i :: 0 <= i < |t.rows| && (forall k :: 0 <= k < |cov| ==> cov[k].id != t.rowIds[i]) ==> i !in ks)
  {
    var mask := CoverageMask(t, cov, zebraThreshold);
    SelectRowsAt(t, mask);
    KeptIndices(mask);
  }

  /** Raising the threshold keeps a subset of the rows. */
  lemma {:induction false} RaiseThresholdKeepsSubset(t: Table, cov: seq<Coverage>, low: real, high: real)
    requires t.Valid() && low <= high
    ensures forall i :: i in Kept(CoverageMask(t, cov, high)) ==> i in Kept(CoverageMask(t, cov, low))
  {
    KeptIndices(CoverageMask(t, cov, high));
    KeptIndices(CoverageMask(t, cov, low));
  }

  /** Applying the filter again with the same coverage table and threshold changes nothing. */
  lemma {:induction false} KeepCoveredIdempotent(t: Table, cov: seq<Coverage>, zebraThreshold: real)
    requires t.Valid()
    ensures KeepCovered(KeepCovered(t, cov, zebraThreshold), cov, zebraThreshold) == KeepCovered(t, cov, zebraThreshold)
  {
    var once := KeepCovered(t, cov, zebraThreshold);
    KeepCoveredSpec(t, cov, zebraThreshold);
    var mask := CoverageMask(once, cov, zebraThreshold);
    forall k | 0 <= k < |mask| ensures mask[k] {
      var ks := Kept(CoverageMask(t, cov, zebraThreshold));
      assert once.rowIds[k] == t.rowIds[ks[k]];
      assert ks[k] in ks;
    }
    MaskedAll(once.rowIds, mask);
    MaskedAll(once.rows, mask);
  }

  /**
   * The table `feature_abundance_filt` writes to `filtered_biom_path`: the
   * kept rows, transposed. The Python function itself returns None.
   */
  function FeatureZebraFilt(t: Table, cov: seq<Coverage>, zebraThreshold: real): (r: Table)
    requires t.Valid()
    ensures r.Valid()
    ensures r.colIds == KeepCovered(t, cov, zebraThreshold).rowIds && r.rowIds == t.colIds
    ensures forall k, j :: 0 <= k < |KeepCovered(t, cov, zebraThreshold).rows| && 0 <= j < |t.colIds| ==>
      r.rows[j][k] == KeepCovered(t, cov, zebraThreshold).rows[k][j]
  {
    Transpose(KeepCovered(t, cov, zebraThreshold))
  }
}
