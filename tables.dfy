/** The optional value the model uses for pandas' nulls (NaN / None). */
module Wrappers {
  datatype Option<+T> = None | Some(value: T)
}

/**
 * Count matrices as the scripts hold them in pandas data frames: a row label
 * per row, a column label per column and a row of non-negative counts per row
 * label. Also the operations every script shares: row sums, boolean-mask row
 * selection (`df[mask]`) and transposition (`df.transpose()`).
 */
module Tables {

  datatype Table = Table(rowIds: seq<string>, colIds: seq<string>, rows: seq<seq<nat>>)
  {
    /** One row per row label, and every row has one entry per column label. */
    predicate Valid() {
      |rows| == |rowIds| && Rectangular(rows, |colIds|)
    }
  }

  predicate Rectangular(rows: seq<seq<nat>>, ncols: nat) {
    forall i :: 0 <= i < |rows| ==> |rows[i]| == ncols
  }

  /** The sum of a row, accumulated from the left. */
  function Sum(s: seq<nat>): nat {
    if s == [] then 0 else Sum(s[..|s| - 1]) + s[|s| - 1]
  }

  function Zeros(n: nat): seq<nat> {
    seq(n, _ => 0)
  }

  lemma {:induction false} SumZeros(n: nat)
    ensures Sum(Zeros(n)) == 0
  {
    if n > 0 {
      assert Zeros(n)[..n - 1] == Zeros(n - 1);
      SumZeros(n - 1);
    }
  }

  lemma {:induction false} SumSnoc(s: seq<nat>, x: nat)
    ensures Sum(s + [x]) == Sum(s) + x
  {
  }

  /** Adding one to a single entry adds one to the row's sum. */
  lemma {:induction false} SumIncrement(s: seq<nat>, k: nat)
    requires k < |s|
    ensures Sum(s[k := s[k] + 1]) == Sum(s) + 1
  {
    var t := s[k := s[k] + 1];
    var n := |s|;
    if k == n - 1 {
      assert t[..n - 1] == s[..n - 1];
    } else {
      assert t[..n - 1] == s[..n - 1][k := s[k] + 1];
      SumIncrement(s[..n - 1], k);
    }
  }

  /** Column `j` of a matrix, one entry per row. */
  function Column(rows: seq<seq<nat>>, j: nat): (c: seq<nat>)
    requires forall i :: 0 <= i < |rows| ==> j < |rows[i]|
    ensures |c| == |rows|
  {
    seq(|rows|, i requires 0 <= i < |rows| => rows[i][j])
  }

  /** `df.transpose()`: rows become columns and the two label axes swap. */
  function Transpose(t: Table): (r: Table)
    requires t.Valid()
    ensures r.Valid()
    ensures r.rowIds == t.colIds && r.colIds == t.rowIds
    ensures forall i, j :: 0 <= i < |t.rows| && 0 <= j < |t.colIds| ==> r.rows[j][i] == t.rows[i][j]
  {
    Table(t.colIds, t.rowIds, seq(|t.colIds|, j requires 0 <= j < |t.colIds| => Column(t.rows, j)))
  }

  /** Transposing twice gives back the table. */
  lemma {:induction false} TransposeTwice(t: Table)
    requires t.Valid()
    ensures Transpose(Transpose(t)) == t
  {
    var r := Transpose(Transpose(t));
    assert |r.rows| == |t.rows|;
    forall i | 0 <= i < |t.rows|
      ensures r.rows[i] == t.rows[i]
    {
      assert |r.rows[i]| == |t.rows[i]|;
    }
  }

  /** `s[mask]`: the elements whose mask entry is true, in their original order. */
  function Masked<T>(s: seq<T>, mask: seq<bool>): (r: seq<T>)
    requires |s| == |mask|
    ensures |r| <= |s|
    ensures forall x :: x in r ==> x in s
  {
    if s == [] then []
    else
      var n := |s|;
      Masked(s[..n - 1], mask[..n - 1]) + (if mask[n - 1] then [s[n - 1]] else [])
  }

  /** The positions whose mask entry is true, in increasing order. */
  function Kept(mask: seq<bool>): seq<nat> {
    if mask == [] then []
    else
      var n := |mask|;
      Kept(mask[..n - 1]) + (if mask[n - 1] then [n - 1] else [])
  }

  /** `Kept` lists, increasingly, exactly the positions where the mask is true. */
  lemma {:induction false} KeptIndices(mask: seq<bool>)
    ensures forall k :: 0 <= k < |Kept(mask)| ==> Kept(mask)[k] < |mask| && mask[Kept(mask)[k]]
    ensures forall k, l :: 0 <= k < l < |Kept(mask)| ==> Kept(mask)[k] < Kept(mask)[l]
    ensures forall i :: 0 <= i < |mask| ==> (mask[i] <==> i in Kept(mask))
  {
    if mask != [] {
      var n := |mask|;
      var pre := mask[..n - 1];
      KeptIndices(pre);
      var ks := Kept(pre);
      assert Kept(mask) == ks + (if mask[n - 1] then [n - 1] else []);
      assert forall k :: 0 <= k < |ks| ==> ks[k] < n - 1 && mask[ks[k]] by {
        forall k | 0 <= k < |ks| ensures ks[k] < n - 1 && mask[ks[k]] {
          assert pre[ks[k]] == mask[ks[k]];
        }
      }
      forall i | 0 <= i < n
        ensures mask[i] <==> i in Kept(mask)
      {
        if i < n - 1 {
          assert pre[i] == mask[i];
          assert i in ks <==> pre[i];
        }
      }
    }
  }

  /** The k-th selected element is the element at the k-th kept position. */
  lemma {:induction false} MaskedAt<T>(s: seq<T>, mask: seq<bool>)
    requires |s| == |mask|
    ensures |Masked(s, mask)| == |Kept(mask)|
    ensures forall k :: 0 <= k < |Kept(mask)| ==> Kept(mask)[k] < |s| && Masked(s, mask)[k] == s[Kept(mask)[k]]
  {
    KeptIndices(mask);
    if s != [] {
      var n := |s|;
      MaskedAt(s[..n - 1], mask[..n - 1]);
      KeptIndices(mask[..n - 1]);
    }
  }

  /** A mask that is true everywhere selects everything. */
  lemma {:induction false} MaskedAll<T>(s: seq<T>, mask: seq<bool>)
    requires |s| == |mask|
    requires forall i :: 0 <= i < |mask| ==> mask[i]
    ensures Masked(s, mask) == s
  {
    if s != [] {
      var n := |s|;
      MaskedAll(s[..n - 1], mask[..n - 1]);
      assert s[..n - 1] + [s[n - 1]] == s;
    }
  }

  /** A mask that is false everywhere selects nothing. */
  lemma {:induction false} MaskedNone<T>(s: seq<T>, mask: seq<bool>)
    requires |s| == |mask|
    requires forall i :: 0 <= i < |mask| ==> !mask[i]
    ensures Masked(s, mask) == []
  {
    if s != [] {
      MaskedNone(s[..|s| - 1], mask[..|s| - 1]);
    }
  }

  /** An element is selected iff it stands at some position whose mask entry is true. */
  lemma {:induction false} MaskedMember<T>(s: seq<T>, mask: seq<bool>, x: T)
    requires |s| == |mask|
    ensures x in Masked(s, mask) <==> exists i :: 0 <= i < |s| && mask[i] && s[i] == x
  {
    if s != [] {
      var n := |s|;
      MaskedMember(s[..n - 1], mask[..n - 1], x);
      if x in Masked(s, mask) && !(x in Masked(s[..n - 1], mask[..n - 1])) {
        assert mask[n - 1] && s[n - 1] == x;
      }
      if exists i :: 0 <= i < |s| && mask[i] && s[i] == x {
        var i :| 0 <= i < |s| && mask[i] && s[i] == x;
        if i < n - 1 {
          assert s[..n - 1][i] == x && mask[..n - 1][i];
        }
      }
    }
  }

  /**
   * Selecting with the union of two disjoint masks sums to the two
   * selections' sums: the rows of a partition are counted once each.
   */
  lemma {:induction false} MaskedSumSplit(s: seq<nat>, m: seq<bool>, m1: seq<bool>, m2: seq<bool>)
    requires |s| == |m| == |m1| == |m2|
    requires forall i :: 0 <= i < |m| ==> (m[i] <==> m1[i] || m2[i]) && !(m1[i] && m2[i])
    ensures Sum(Masked(s, m)) == Sum(Masked(s, m1)) + Sum(Masked(s, m2))
  {
    if s != [] {
      var n := |s|;
      MaskedSumSplit(s[..n - 1], m[..n - 1], m1[..n - 1], m2[..n - 1]);
      MaskedSumLast(s, m);
      MaskedSumLast(s, m1);
      MaskedSumLast(s, m2);
    }
  }

  /** The selection's sum is that of all but the last element, plus the last one when it is selected. */
  lemma {:induction false} MaskedSumLast(s: seq<nat>, mask: seq<bool>)
    requires |s| == |mask| > 0
    ensures var n := |s|;
      Sum(Masked(s, mask)) == Sum(Masked(s[..n - 1], mask[..n - 1])) + (if mask[n - 1] then s[n - 1] else 0)
  {
    var n := |s|;
    var pre := Masked(s[..n - 1], mask[..n - 1]);
    var all := Masked(s, mask);
    if mask[n - 1] {
      assert all == pre + [s[n - 1]];
      SumSnoc(pre, s[n - 1]);
      assert Sum(all) == Sum(pre) + s[n - 1];
    } else {
      assert all == pre;
      assert Sum(all) == Sum(pre);
    }
  }

  /** `df[mask]` on a table: the rows (and their labels) whose mask entry is true. */
  function SelectRows(t: Table, mask: seq<bool>): (r: Table)
    requires t.Valid() && |mask| == |t.rows|
    ensures r.Valid() && r.colIds == t.colIds
  {
    MaskedAt(t.rowIds, mask);
    MaskedAt(t.rows, mask);
    var rows := Masked(t.rows, mask);
    assert forall k :: 0 <= k < |rows| ==> rows[k] in t.rows;
    Table(Masked(t.rowIds, mask), t.colIds, rows)
  }

  /** The selected rows are the original rows at the kept positions, unchanged and in order. */
  lemma {:induction false} SelectRowsAt(t: Table, mask: seq<bool>)
    requires t.Valid() && |mask| == |t.rows|
    ensures |SelectRows(t, mask).rows| == |Kept(mask)|
    ensures forall k :: 0 <= k < |Kept(mask)| ==>
      Kept(mask)[k] < |t.rows| &&
      SelectRows(t, mask).rowIds[k] == t.rowIds[Kept(mask)[k]] &&
      SelectRows(t, mask).rows[k] == t.rows[Kept(mask)[k]]
  {
    MaskedAt(t.rowIds, mask);
    MaskedAt(t.rows, mask);
  }
}
