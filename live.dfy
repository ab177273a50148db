/**
 * The live set of the VARAHA loop in `integrate_log`: the three row-aligned
 * arrays `allx`, `allloglkl` and `allp`, the selections `np.where(... > thr)`
 * that filter them, the live volume `V` and the re-thresholding step.
 */
module LiveVolume {
  import opened Wrappers
  import opened Bins
  import opened LikelihoodThreshold

  /** `enc_prob`: the probability the histograms are meant to enclose. */
  const EncProb: real := 0.999
  /** The starting `trunc_p`. */
  const InitialTruncP: real := 0.0000000001
  /** The starting `loglkl_thr`. */
  const InitialThreshold: real := -1000000000000000.0
  /** `nsel`: how many of the largest log-likelihoods fix the next threshold. */
  const Nsel: nat := 1000
  /** The loop stops once the cycle counter passes this value. */
  const MaxCycles: nat := 1000

  // ---------------------------------------------------------------------------
  // np.where and fancy indexing
  // ---------------------------------------------------------------------------

  /** The positions from `i` on whose value is strictly above `thr`, in increasing order. */
  function WhereFrom(ls: seq<real>, thr: real, i: nat): (idx: seq<nat>)
    requires i <= |ls|
    ensures |idx| <= |ls| - i
    ensures forall k :: 0 <= k < |idx| ==> i <= idx[k] < |ls| && ls[idx[k]] > thr
    ensures forall k, m :: 0 <= k < m < |idx| ==> idx[k] < idx[m]
    ensures forall j :: i <= j < |ls| && ls[j] > thr ==> j in idx
    decreases |ls| - i
  {
    if i == |ls| then []
    else if ls[i] > thr then [i] + WhereFrom(ls, thr, i + 1)
    else WhereFrom(ls, thr, i + 1)
  }

  /** `np.where(ls > thr)`. */
  function Where(ls: seq<real>, thr: real): (idx: seq<nat>)
    ensures |idx| <= |ls|
    ensures forall k :: 0 <= k < |idx| ==> idx[k] < |ls| && ls[idx[k]] > thr
    ensures forall j :: 0 <= j < |ls| && ls[j] > thr ==> j in idx
  {
    WhereFrom(ls, thr, 0)
  }

  /** `s[idx]`. */
  function Gather<T>(s: seq<T>, idx: seq<nat>): (r: seq<T>)
    requires forall k :: 0 <= k < |idx| ==> idx[k] < |s|
    ensures |r| == |idx|
  {
    seq(|idx|, k requires 0 <= k < |idx| => s[idx[k]])
  }

  // ---------------------------------------------------------------------------
  // Row-aligned columns
  // ---------------------------------------------------------------------------

  /** Sample points, their log-likelihoods and their log prior densities, row by row. */
  datatype Columns = Columns(xs: seq<seq<real>>, ls: seq<real>, ps: seq<real>)

  type Row = (seq<real>, real, real)

  predicate Aligned(c: Columns)
  {
    |c.xs| == |c.ls| == |c.ps|
  }

  /** The rows the three columns describe together. */
  function Rows(c: Columns): (rows: seq<Row>)
    requires Aligned(c)
    ensures |rows| == |c.ls|
  {
    seq(|c.ls|, j requires 0 <= j < |c.ls| => (c.xs[j], c.ls[j], c.ps[j]))
  }

  /** The reference definition: the rows whose log-likelihood is above `thr`, in order. */
  function FilterRows(rows: seq<Row>, thr: real): (r: seq<Row>)
    ensures |r| <= |rows|
  {
    if rows == [] then []
    else if rows[0].1 > thr then [rows[0]] + FilterRows(rows[1..], thr)
    else FilterRows(rows[1..], thr)
  }

  lemma {:induction false} FilterRowsAbove(rows: seq<Row>, thr: real)
    ensures forall k :: 0 <= k < |FilterRows(rows, thr)| ==> FilterRows(rows, thr)[k].1 > thr
    ensures forall row :: row in FilterRows(rows, thr) <==> row in rows && row.1 > thr
  {
    if rows != [] {
      FilterRowsAbove(rows[1..], thr);
      assert rows == [rows[0]] + rows[1..];
    }
  }

  /** One column indexed by `np.where` from position `i` on. */
  function SelectFrom(c: Columns, thr: real, i: nat): (r: Columns)
    requires Aligned(c) && i <= |c.ls|
    ensures Aligned(r)
  {
    var idx := WhereFrom(c.ls, thr, i);
    Columns(Gather(c.xs, idx), Gather(c.ls, idx), Gather(c.ps, idx))
  }

  /**
   * `idx = np.where(ls > thr)` applied to all three columns, as the admission
   * (:398-402) and the re-filter (:414-417) do.
   */
  function Select(c: Columns, thr: real): (r: Columns)
    requires Aligned(c)
    ensures Aligned(r) && |r.ls| <= |c.ls|
    ensures forall k :: 0 <= k < |r.ls| ==> r.ls[k] > thr
  {
    SelectFrom(c, thr, 0)
  }

  lemma GatherCons<T>(s: seq<T>, i: nat, idx: seq<nat>)
    requires i < |s| && forall k :: 0 <= k < |idx| ==> idx[k] < |s|
    ensures Gather(s, [i] + idx) == [s[i]] + Gather(s, idx)
  {
  }

  lemma RowsCons(c: Columns, x: seq<real>, l: real, p: real)
    requires Aligned(c)
    ensures Rows(Columns([x] + c.xs, [l] + c.ls, [p] + c.ps)) == [(x, l, p)] + Rows(c)
  {
  }

  lemma {:induction false} SelectFromRows(c: Columns, thr: real, i: nat)
    requires Aligned(c) && i <= |c.ls|
    ensures Rows(SelectFrom(c, thr, i)) == FilterRows(Rows(c)[i..], thr)
    decreases |c.ls| - i
  {
    var rows := Rows(c)[i..];
    if i == |c.ls| {
      assert rows == [];
    } else {
      SelectFromRows(c, thr, i + 1);
      assert rows[0] == (c.xs[i], c.ls[i], c.ps[i]);
      assert rows[1..] == Rows(c)[i + 1..];
      var idx := WhereFrom(c.ls, thr, i + 1);
      var next := SelectFrom(c, thr, i + 1);
      if c.ls[i] > thr {
        assert WhereFrom(c.ls, thr, i) == [i] + idx;
        GatherCons(c.xs, i, idx);
        GatherCons(c.ls, i, idx);
        GatherCons(c.ps, i, idx);
        assert SelectFrom(c, thr, i) == Columns([c.xs[i]] + next.xs, [c.ls[i]] + next.ls, [c.ps[i]] + next.ps);
        RowsCons(next, c.xs[i], c.ls[i], c.ps[i]);
      } else {
        assert WhereFrom(c.ls, thr, i) == idx;
      }
    }
  }

  /**
   * The selection keeps the three columns aligned: its rows are exactly the
   * input rows whose log-likelihood is strictly above the threshold, in order.
   */
  lemma SelectRows(c: Columns, thr: real)
    requires Aligned(c)
    ensures Rows(Select(c, thr)) == FilterRows(Rows(c), thr)
  {
    SelectFromRows(c, thr, 0);
    assert Rows(c)[0..] == Rows(c);
  }

  /** `np.append` of each column. */
  function Append(c: Columns, d: Columns): (r: Columns)
    requires Aligned(c) && Aligned(d)
    ensures Aligned(r) && |r.ls| == |c.ls| + |d.ls|
  {
    Columns(c.xs + d.xs, c.ls + d.ls, c.ps + d.ps)
  }

  lemma AppendRows(c: Columns, d: Columns)
    requires Aligned(c) && Aligned(d)
    ensures Rows(Append(c, d)) == Rows(c) + Rows(d)
  {
  }

  /** Filtering distributes over concatenation. */
  lemma {:induction false} FilterRowsAppend(a: seq<Row>, b: seq<Row>, thr: real)
    ensures FilterRows(a + b, thr) == FilterRows(a, thr) + FilterRows(b, thr)
  {
    if a == [] {
      assert a + b == b;
    } else {
      assert (a + b)[0] == a[0] && (a + b)[1..] == a[1..] + b;
      FilterRowsAppend(a[1..], b, thr);
    }
  }

  /** Filtering at a threshold and then at a higher one is filtering at the higher one. */
  lemma {:induction false} FilterRowsTwice(rows: seq<Row>, thr: real, thr': real)
    requires thr <= thr'
    ensures FilterRows(FilterRows(rows, thr), thr') == FilterRows(rows, thr')
  {
    if rows != [] {
      FilterRowsTwice(rows[1..], thr, thr');
    }
  }

  /** Filtering rows that are all above the threshold keeps them all. */
  lemma {:induction false} FilterRowsAllAbove(rows: seq<Row>, thr: real)
    requires forall k :: 0 <= k < |rows| ==> rows[k].1 > thr
    ensures FilterRows(rows, thr) == rows
  {
    if rows != [] {
      FilterRowsAllAbove(rows[1..], thr);
    }
  }

  /**
   * One cycle's admission at the old threshold followed by the re-filter at
   * a threshold no lower: the live set becomes exactly the rows of the old
   * live set and of the new batch above the new threshold, in order.
   */
  lemma AdmitThenRefilter(c: Columns, batch: Columns, thr: real, thr': real)
    requires Aligned(c) && Aligned(batch) && thr <= thr'
    ensures Rows(Select(Append(c, Select(batch, thr)), thr')) == FilterRows(Rows(c) + Rows(batch), thr')
  {
    var admitted := Select(batch, thr);
    SelectRows(batch, thr);
    AppendRows(c, admitted);
    SelectRows(Append(c, admitted), thr');
    FilterRowsAppend(Rows(c), Rows(admitted), thr');
    FilterRowsTwice(Rows(batch), thr, thr');
    FilterRowsAppend(Rows(c), Rows(batch), thr');
  }

  /** Points with one coordinate per range, each at or above that range's lower end. */
  predicate PointsOk(xs: seq<seq<real>>, ranges: seq<Interval>)
  {
    forall j :: 0 <= j < |xs| ==> |xs[j]| == |ranges| && AboveLower(xs[j], ranges)
  }

  /** A selection only keeps points it was given. */
  lemma SelectKeepsPoints(c: Columns, thr: real, ranges: seq<Interval>)
    requires Aligned(c) && PointsOk(c.xs, ranges)
    ensures PointsOk(Select(c, thr).xs, ranges)
  {
    var idx := Where(c.ls, thr);
    assert Select(c, thr).xs == Gather(c.xs, idx);
  }

  /** Admission keeps every point of the right dimension and above the lower ends. */
  lemma AdmitKeeps(c: Columns, batch: Columns, thr: real, ranges: seq<Interval>)
    requires Aligned(c) && Aligned(batch)
    requires PointsOk(c.xs, ranges) && PointsOk(batch.xs, ranges)
    ensures PointsOk(Append(c, Select(batch, thr)).xs, ranges)
  {
    SelectKeepsPoints(batch, thr, ranges);
  }

  /** Admission at the current threshold keeps every live log-likelihood above it. */
  lemma AdmitAbove(c: Columns, batch: Columns, thr: real)
    requires Aligned(c) && Aligned(batch)
    requires forall j :: 0 <= j < |c.ls| ==> c.ls[j] > thr
    ensures forall j :: 0 <= j < |Append(c, Select(batch, thr)).ls| ==> Append(c, Select(batch, thr)).ls[j] > thr
  {
  }

  // ---------------------------------------------------------------------------
  // The loop state
  // ---------------------------------------------------------------------------

  /**
   * The locals of `integrate_log` the loop carries from cycle to cycle:
   * the live set, `V`, `loglkl_thr`, `trunc_p`, `ntotal_true`, `cycle` and
   * `eff_samp`.
   */
  datatype Live = Live(cols: Columns, v: real, loglklThr: real, truncP: real, ntotalTrue: nat,
                       cycle: nat, effSamp: real)

  /** The state before the first cycle (:349-368). */
  function InitialLive(): (s: Live)
    ensures s.cols.ls == [] && s.v == 1.0 && s.cycle == 1
  {
    Live(Columns([], [], []), 1.0, InitialThreshold, InitialTruncP, 0, 1, 0.0)
  }

  /**
   * What every cycle keeps: aligned columns of points of the right dimension
   * lying at or above the lower ends of the ranges, log-likelihoods strictly
   * above the threshold, a live volume in (0, 1] and a truncated probability
   * below `1 - enc_prob`.
   */
  predicate LiveOk(s: Live, ranges: seq<Interval>)
  {
    && Aligned(s.cols)
    && PointsOk(s.cols.xs, ranges)
    && (forall j :: 0 <= j < |s.cols.ls| ==> s.cols.ls[j] > s.loglklThr)
    && 0.0 < s.v <= 1.0
    && 0.0 < s.truncP < 1.0 - EncProb
  }

  lemma InitialLiveOk(ranges: seq<Interval>)
    ensures LiveOk(InitialLive(), ranges)
  {
  }

  // ---------------------------------------------------------------------------
  // Re-thresholding (:407-411)
  // ---------------------------------------------------------------------------

  /** The new `(loglkl_thr, trunc_p)`, unchanged when the rounding test says the final threshold is reached. */
  function Rethreshold(ls: seq<real>, thr: real, truncP: real, atFinal: bool, w: real -> real)
    : (r: Result<(real, real), ThresholdError>)
    requires IsWeight(w)
  {
    if atFinal then Success((thr, truncP))
    else
      match GetLikelihoodThreshold(ls, thr, Nsel, 1.0 - EncProb - truncP, w)
      case Failure(e) => Failure(e)
      case Success(t) => Success((t.lklThr, truncP + t.truncp))
  }

  /**
   * Re-thresholding fails only on an empty live set; otherwise the threshold
   * never goes down (it rises strictly when recomputed, being one of the live
   * values), and `trunc_p` grows by the share cut off yet stays below
   * `1 - enc_prob`.
   */
  lemma RethresholdSteps(ls: seq<real>, thr: real, truncP: real, atFinal: bool, w: real -> real)
    requires IsWeight(w)
    requires forall j :: 0 <= j < |ls| ==> ls[j] > thr
    requires 0.0 < truncP < 1.0 - EncProb
    ensures Rethreshold(ls, thr, truncP, atFinal, w).Failure? <==> !atFinal && ls == []
    ensures Rethreshold(ls, thr, truncP, atFinal, w).Failure? ==>
              Rethreshold(ls, thr, truncP, atFinal, w).error == EmptyLikelihoods
    ensures Rethreshold(ls, thr, truncP, atFinal, w).Success? ==>
              var (thr', truncP') := Rethreshold(ls, thr, truncP, atFinal, w).value;
              && thr <= thr'
              && (!atFinal ==> thr < thr' && thr' in ls && truncP' == truncP + Share(ls, w, Below(thr')))
              && truncP <= truncP' < 1.0 - EncProb
  {
    var d := 1.0 - EncProb - truncP;
    ThresholdExists(ls, thr, Nsel, d, w);
    if !atFinal && ls != [] {
      ThresholdIsSmallerCandidate(ls, thr, Nsel, d, w);
      ThresholdTruncation(ls, thr, Nsel, d, w);
    }
  }

  // ---------------------------------------------------------------------------
  // Live volume (:427)
  // ---------------------------------------------------------------------------

  /** `V *= nrec / ninj`. */
  function ShrinkVolume(v: real, nrec: nat, ninj: nat): (v': real)
    requires ninj > 0
  {
    v * ((nrec as real) / (ninj as real))
  }

  /** With `1 <= nrec <= ninj` the volume stays positive and never grows. */
  lemma ShrinkVolumeBounds(v: real, nrec: nat, ninj: nat)
    requires 0.0 < v && 1 <= nrec <= ninj
    ensures 0.0 < ShrinkVolume(v, nrec, ninj) <= v
  {
    var f := (nrec as real) / (ninj as real);
    assert 0.0 < f <= 1.0;
    assert v * (1.0 - f) >= 0.0;
    assert v * f > 0.0;
  }
}
