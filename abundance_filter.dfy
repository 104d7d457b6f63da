/**
 * Prevalence filter (scripts/3_feature_abundance_filt.py,
 * `feature_abundance_filt`): keep the rows present (count > 0) in at least
 * the given fraction of the columns, then transpose.
 */
module AbundanceFilter {
  import opened Wrappers
  import opened Tables

  /** The number of positive entries of a row (`(df > 0).sum(axis=1)`). */
  function Positives(row: seq<nat>): (p: nat)
    ensures p <= |row|
  {
    if row == [] then 0
    else Positives(row[..|row| - 1]) + (if row[|row| - 1] > 0 then 1 else 0)
  }

  /**
   * The fraction of columns in which the row is present. With no columns
   * pandas divides 0 by 0 and gets NaN, modelled as `None`. A feature absent
   * from every sample has prevalence 0; one present in every sample has 1.
   */
  function Prevalence(row: seq<nat>): (p: Option<real>)
    ensures p.None? <==> |row| == 0
    ensures p == Some(0.0) <==> |row| > 0 && Positives(row) == 0
    ensures p == Some(1.0) <==> |row| > 0 && Positives(row) == |row|
  {
    if |row| == 0 then None
    else
      var present, width := Positives(row) as real, |row| as real;
      assert present / width == 1.0 ==> present == present / width * width;
      Some(present / width)
  }

  /** Prevalence is a fraction between 0 and 1. */
  lemma {:induction false} PrevalenceBounds(row: seq<nat>)
    requires |row| > 0
    ensures Prevalence(row).Some?
    ensures 0.0 <= Prevalence(row).value <= 1.0
  {
  }

  /** `prevalence >= min_samp_prev`; a NaN prevalence compares false. */
  predicate Prevalent(row: seq<nat>, minSampPrev: real) {
    Prevalence(row).Some? && Prevalence(row).value >= minSampPrev
  }

  /** The boolean mask, one entry per row. */
  function PrevalenceMask(t: Table, minSampPrev: real): seq<bool>
    requires t.Valid()
  {
    seq(|t.rows|, i requires 0 <= i < |t.rows| => Prevalent(t.rows[i], minSampPrev))
  }

  /** `df[prevalence >= min_samp_prev]`, before the transpose. */
  function KeepPrevalent(t: Table, minSampPrev: real): (r: Table)
    requires t.Valid()
    ensures r.Valid() && r.colIds == t.colIds
  {
    SelectRows(t, PrevalenceMask(t, minSampPrev))
  }

  /**
   * A row is kept iff its prevalence reaches the threshold; kept rows are
   * unchanged, keep their labels and keep their original relative order.
   */
  lemma {:induction false} KeepPrevalentSpec(t: Table, minSampPrev: real)
    requires t.Valid()
    ensures var ks := Kept(PrevalenceMask(t, minSampPrev));
      && |KeepPrevalent(t, minSampPrev).rows| == |ks|
      && (forall k :: 0 <= k < |ks| ==>
           ks[k] < |t.rows| &&
           KeepPrevalent(t, minSampPrev).rowIds[k] == t.rowIds[ks[k]] &&
           KeepPrevalent(t, minSampPrev).rows[k] == t.rows[ks[k]])
      && (forall k, l :: 0 <= k < l < |ks| ==> ks[k] < ks[l])
      && (forall i :: 0 <= i < |t.rows| ==> (i in ks <==> Prevalent(t.rows[i], minSampPrev)))
  {
    var mask := PrevalenceMask(t, minSampPrev);
    SelectRowsAt(t, mask);
    KeptIndices(mask);
  }

  /** Every dropped row's prevalence is below the threshold (or undefined). */
  lemma {:induction false} DroppedBelowThreshold(t: Table, minSampPrev: real, i: nat)
    requires t.Valid() && i < |t.rows|
    requires i !in Kept(PrevalenceMask(t, minSampPrev))
    ensures Prevalence(t.rows[i]).None? || Prevalence(t.rows[i]).value < minSampPrev
  {
    KeptIndices(PrevalenceMask(t, minSampPrev));
  }

  /** Raising the threshold keeps a subset of the rows. */
  lemma {:induction false} RaiseThresholdKeepsSubset(t: Table, low: real, high: real)
    requires t.Valid() && low <= high
    ensures forall i :: i in Kept(PrevalenceMask(t, high)) ==> i in Kept(PrevalenceMask(t, low))
    ensures forall x :: x in KeepPrevalent(t, high).rowIds ==> x in KeepPrevalent(t, low).rowIds
  {
    var mh, ml := PrevalenceMask(t, high), PrevalenceMask(t, low);
    KeptIndices(mh);
    KeptIndices(ml);
    forall x | x in KeepPrevalent(t, high).rowIds
      ensures x in KeepPrevalent(t, low).rowIds
    {
      MaskedMember(t.rowIds, mh, x);
      MaskedMember(t.rowIds, ml, x);
    }
  }

  /** A threshold of zero keeps every row, as long as the table has a column. */
  lemma {:induction false} ZeroThresholdKeepsAll(t: Table)
    requires t.Valid() && |t.colIds| > 0
    ensures KeepPrevalent(t, 0.0) == t
  {
    var mask := PrevalenceMask(t, 0.0);
    forall i | 0 <= i < |mask| ensures mask[i] {
      PrevalenceBounds(t.rows[i]);
    }
    MaskedAll(t.rowIds, mask);
    MaskedAll(t.rows, mask);
  }

  /** With no column every prevalence is NaN and every row is dropped. */
  lemma {:induction false} NoColumnsDropsAll(t: Table, minSampPrev: real)
    requires t.Valid() && |t.colIds| == 0
    ensures KeepPrevalent(t, minSampPrev).rows == []
  {
    MaskedNone(t.rows, PrevalenceMask(t, minSampPrev));
  }

  /** Filtering again with the same threshold changes nothing. */
  lemma {:induction false} KeepPrevalentIdempotent(t: Table, minSampPrev: real)
    requires t.Valid()
    ensures KeepPrevalent(KeepPrevalent(t, minSampPrev), minSampPrev) == KeepPrevalent(t, minSampPrev)
  {
    var once := KeepPrevalent(t, minSampPrev);
    KeepPrevalentSpec(t, minSampPrev);
    var mask := PrevalenceMask(once, minSampPrev);
    forall k | 0 <= k < |mask| ensures mask[k] {
      var ks := Kept(PrevalenceMask(t, minSampPrev));
      assert once.rows[k] == t.rows[ks[k]];
      assert ks[k] in ks;
    }
    MaskedAll(once.rowIds, mask);
    MaskedAll(once.rows, mask);
  }

  /**
   * `feature_abundance_filt` without its file I/O: the kept rows,
   * transposed, so the kept features become the columns.
   */
  function FeatureAbundanceFilt(t: Table, minSampPrev: real): (r: Table)
    requires t.Valid()
    ensures r.Valid()
    ensures r.colIds == KeepPrevalent(t, minSampPrev).rowIds && r.rowIds == t.colIds
    ensures forall k, j :: 0 <= k < |KeepPrevalent(t, minSampPrev).rows| && 0 <= j < |t.colIds| ==>
      r.rows[j][k] == KeepPrevalent(t, minSampPrev).rows[k][j]
  {
    Transpose(KeepPrevalent(t, minSampPrev))
  }
}
