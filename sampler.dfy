/**
 * `MCSampler` of the VARAHA integrator: the parameter registry
 * (`add_parameter`, `clear`), the initial bin layout (`setup`), the prior
 * product and the per-batch draw (`prior_prod`, `draw_simple`), and the
 * adaptive-volume loop of `integrate_log`.
 */
module Sampler {
  import opened Wrappers
  import opened Params
  import opened Bins
  import opened LikelihoodThreshold
  import opened LiveVolume

  /** A limit: one number for a basic name, one per name for a group. */
  datatype Limit = Scalar(x: real) | Vector(xs: seq<real>)

  /** The exceptions the modelled code raises. */
  datatype SamplerError =
    | MissingLimits           // a `None` limit cannot be compared: TypeError
    | UnorderedLimits         // the `left < right` assertion fails
    | MissingRange(p: Param)  // `self.llim[x]` in `setup`: KeyError
    | GroupRange(p: Param)    // a group's limits give no rectangular range array
    | MissingPrior(p: Param)  // `self.prior_pdf[param]` in `prior_prod`: KeyError
    | NoPrior(p: Param)       // calling a `None` prior: TypeError
    | ThresholdFailed(e: ThresholdError)
    | EmptyLiveSet            // `np.max` of an empty live set
    | NoDimensions            // `np.diff(..., axis = 1)` of the 1-D empty range array: AxisError

  /** The limit has the shape the parameter needs (one value per name). */
  predicate Fits(p: Param, lim: Limit)
  {
    match p
    case Basic(_) => lim.Scalar?
    case Group(names) => lim.Vector? && |lim.xs| == |names|
  }

  /** `left < right`, componentwise over `zip(left, right)` for groups. */
  predicate Ordered(left: Limit, right: Limit)
  {
    match left
    case Scalar(l) => right.Scalar? && l < right.x
    case Vector(ls) => right.Vector? && forall j :: 0 <= j < |ls| && j < |right.xs| ==> ls[j] < right.xs[j]
  }

  /** The outcome of the assertion in `add_parameter`. */
  function LimitCheck(left: Option<Limit>, right: Option<Limit>): (err: Option<SamplerError>)
    ensures err.None? <==> left.Some? && right.Some? && Ordered(left.value, right.value)
    ensures err.Some? ==> err.value == MissingLimits || err.value == UnorderedLimits
  {
    if left.None? || right.None? then Some(MissingLimits)
    else if Ordered(left.value, right.value) then None
    else Some(UnorderedLimits)
  }

  predicate NoDuplicates(s: seq<Param>)
  {
    forall i, j :: 0 <= i < j < |s| ==> s[i] != s[j]
  }

  lemma {:induction false} DistinctCardinality(s: seq<Param>)
    requires NoDuplicates(s)
    ensures |set p | p in s| == |s|
  {
    if s != [] {
      var init := s[..|s| - 1];
      DistinctCardinality(init);
      assert (set p | p in s) == (set p | p in init) + {s[|s| - 1]};
      assert s[|s| - 1] !in (set p | p in init);
    }
  }

  // ---------------------------------------------------------------------------
  // setup: the range array
  // ---------------------------------------------------------------------------

  /** The first parameter, in order, without both limits. */
  function FirstMissing(po: seq<Param>, llim: map<Param, Limit>, rlim: map<Param, Limit>): (r: Option<Param>)
    ensures r.None? <==> forall i :: 0 <= i < |po| ==> po[i] in llim && po[i] in rlim
    ensures r.Some? ==> r.value in po && (r.value !in llim || r.value !in rlim)
  {
    if po == [] then None
    else if po[0] !in llim || po[0] !in rlim then Some(po[0])
    else
      var r := FirstMissing(po[1..], llim, rlim);
      assert forall i :: 1 <= i < |po| ==> po[i] == po[1..][i - 1];
      r
  }

  /** The first parameter, in order, whose limits are tuples. */
  function FirstVector(po: seq<Param>, llim: map<Param, Limit>, rlim: map<Param, Limit>): (r: Option<Param>)
    requires forall i :: 0 <= i < |po| ==> po[i] in llim && po[i] in rlim
    ensures r.None? <==> forall i :: 0 <= i < |po| ==> llim[po[i]].Scalar? && rlim[po[i]].Scalar?
    ensures r.Some? ==> r.value in po
  {
    if po == [] then None
    else if llim[po[0]].Vector? || rlim[po[0]].Vector? then Some(po[0])
    else
      var r := FirstVector(po[1..], llim, rlim);
      assert forall i :: 1 <= i < |po| ==> po[i] == po[1..][i - 1];
      r
  }

  /**
   * `np.array([[llim[x], rlim[x]] for x in params_ordered])`: a KeyError for
   * the first parameter without limits, no rectangular array when a group is
   * registered, and otherwise one interval per parameter, in order.
   */
  function RangesOf(po: seq<Param>, llim: map<Param, Limit>, rlim: map<Param, Limit>)
    : (r: Result<seq<Interval>, SamplerError>)
    ensures r.Success? ==> |r.value| == |po|
    ensures r.Success? ==> forall i :: 0 <= i < |po| ==>
              po[i] in llim && po[i] in rlim
              && llim[po[i]] == Scalar(r.value[i].lo) && rlim[po[i]] == Scalar(r.value[i].hi)
    ensures r.Failure? ==> exists p :: p in po && (r.error == MissingRange(p) || r.error == GroupRange(p))
  {
    match FirstMissing(po, llim, rlim)
    case Some(p) => Failure(MissingRange(p))
    case None =>
      match FirstVector(po, llim, rlim)
      case Some(p) => Failure(GroupRange(p))
      case None => Success(seq(|po|, i requires 0 <= i < |po| => Interval(llim[po[i]].x, rlim[po[i]].x)))
  }

  /** `np.ones(ndim)`. */
  function Ones(ndim: nat): (s: seq<real>)
    ensures |s| == ndim
  {
    seq(ndim, _ => 1.0)
  }

  /** `ndim * [0]`: the single bin of `setup`, of the right width and non-negative. */
  function ZeroBin(ndim: nat): (b: Bin)
    ensures |b| == ndim && NonNegative(b)
  {
    seq(ndim, _ => 0)
  }

  /** Ordered scalar limits give non-empty ranges. */
  lemma RangesNonEmpty(po: seq<Param>, llim: map<Param, Limit>, rlim: map<Param, Limit>)
    requires forall p :: p in llim && p in rlim ==> Ordered(llim[p], rlim[p])
    requires RangesOf(po, llim, rlim).Success?
    ensures forall d :: 0 <= d < |po| ==> RangesOf(po, llim, rlim).value[d].lo < RangesOf(po, llim, rlim).value[d].hi
  {
    var r := RangesOf(po, llim, rlim).value;
    forall d | 0 <= d < |po|
      ensures r[d].lo < r[d].hi
    {
      assert Ordered(llim[po[d]], rlim[po[d]]);
    }
  }

  /** `np.diff(my_ranges, axis = 1).flatten()`. */
  function Widths(ranges: seq<Interval>): (w: seq<real>)
    ensures |w| == |ranges|
  {
    seq(|ranges|, d requires 0 <= d < |ranges| => ranges[d].hi - ranges[d].lo)
  }

  /** `np.diff(my_ranges, axis = 1).flatten() / self.nbins` with every entry of `nbins` equal to `nb`. */
  function BinWidths(ranges: seq<Interval>, nb: real): (w: seq<real>)
    requires nb != 0.0
    ensures |w| == |ranges|
  {
    seq(|ranges|, d requires 0 <= d < |ranges| => (ranges[d].hi - ranges[d].lo) / nb)
  }

  lemma BinWidthsPositive(ranges: seq<Interval>, nb: real)
    requires nb > 0.0
    requires forall d :: 0 <= d < |ranges| ==> ranges[d].lo < ranges[d].hi
    ensures forall d :: 0 <= d < |ranges| ==> BinWidths(ranges, nb)[d] > 0.0
  {
  }

  // ---------------------------------------------------------------------------
  // prior_prod
  // ---------------------------------------------------------------------------

  /**
   * The prior callbacks of the ordered parameters, looked up in order: a
   * KeyError for the first one never registered, a TypeError for the first
   * one registered as `None`.
   */
  function PriorFactors(po: seq<Param>, priors: map<Param, Option<real -> real>>)
    : (r: Result<seq<real -> real>, SamplerError>)
    ensures r.Success? ==> |r.value| == |po|
  {
    if po == [] then Success([])
    else
      var p := po[|po| - 1];
      match PriorFactors(po[..|po| - 1], priors)
      case Failure(e) => Failure(e)
      case Success(fs) =>
        if p !in priors then Failure(MissingPrior(p))
        else if priors[p].None? then Failure(NoPrior(p))
        else Success(fs + [priors[p].value])
  }

  /** The prior lookup succeeds exactly when every ordered parameter has a callback. */
  lemma {:induction false} PriorFactorsSucceed(po: seq<Param>, priors: map<Param, Option<real -> real>>)
    ensures PriorFactors(po, priors).Success?
            <==> forall i :: 0 <= i < |po| ==> po[i] in priors && priors[po[i]].Some?
    ensures PriorFactors(po, priors).Success? ==>
              forall i :: 0 <= i < |po| ==> PriorFactors(po, priors).value[i] == priors[po[i]].value
  {
    if po != [] {
      var init := po[..|po| - 1];
      PriorFactorsSucceed(init, priors);
      assert forall i :: 0 <= i < |init| ==> init[i] == po[i];
    }
  }

  /** The product of the factors `fs[i](row[i])`, column by column. */
  function RowPrior(fs: seq<real -> real>, row: seq<real>): real
    requires |fs| <= |row|
  {
    if fs == [] then 1.0 else RowPrior(fs[..|fs| - 1], row) * fs[|fs| - 1](row[|fs| - 1])
  }

  lemma RowPriorAppend(fs: seq<real -> real>, f: real -> real, row: seq<real>)
    requires |fs| < |row|
    ensures RowPrior(fs + [f], row) == RowPrior(fs, row) * f(row[|fs|])
  {
    assert (fs + [f])[..|fs|] == fs;
  }

  /** Positive factors give a positive product, so the logarithm in `draw_simple` is finite. */
  lemma {:induction false} RowPriorPositive(fs: seq<real -> real>, row: seq<real>)
    requires |fs| <= |row|
    requires forall i :: 0 <= i < |fs| ==> fs[i](row[i]) > 0.0
    ensures RowPrior(fs, row) > 0.0
  {
    if fs != [] {
      var init := fs[..|fs| - 1];
      RowPriorPositive(init, row);
      var a, b := RowPrior(init, row), fs[|fs| - 1](row[|fs| - 1]);
      assert a * b > 0.0;
    }
  }

  /** A zero factor in any column makes the product zero. */
  lemma {:induction false} RowPriorZero(fs: seq<real -> real>, row: seq<real>, i: nat)
    requires i < |fs| <= |row| && fs[i](row[i]) == 0.0
    ensures RowPrior(fs, row) == 0.0
  {
    if i < |fs| - 1 {
      RowPriorZero(fs[..|fs| - 1], row, i);
    }
  }

  /** One more lookup: the next parameter's prior is appended, or its error is raised. */
  lemma PriorFactorsStep(po: seq<Param>, priors: map<Param, Option<real -> real>>, k: nat)
    requires k < |po| && PriorFactors(po[..k], priors).Success?
    ensures PriorFactors(po[..k + 1], priors)
            == if po[k] !in priors then Failure(MissingPrior(po[k]))
               else if priors[po[k]].None? then Failure(NoPrior(po[k]))
               else Success(PriorFactors(po[..k], priors).value + [priors[po[k]].value])
  {
    assert po[..k + 1][..k] == po[..k];
  }

  /** The products of the factors `fs`, one per row. */
  function RowPriors(fs: seq<real -> real>, x: seq<seq<real>>): (p: seq<real>)
    requires forall j :: 0 <= j < |x| ==> |fs| <= |x[j]|
    ensures |p| == |x|
  {
    seq(|x|, j requires 0 <= j < |x| => RowPrior(fs, x[j]))
  }

  /** `p_out *= f(x[:, indx])`. */
  function ScaleColumn(pOut: seq<real>, x: seq<seq<real>>, f: real -> real, indx: nat): (p: seq<real>)
    requires |pOut| == |x| && forall j :: 0 <= j < |x| ==> indx < |x[j]|
    ensures |p| == |x|
  {
    seq(|x|, j requires 0 <= j < |x| => pOut[j] * f(x[j][indx]))
  }

  /** Scaling the running products by the next column extends the factors by one. */
  lemma RowPriorsStep(fs: seq<real -> real>, f: real -> real, x: seq<seq<real>>)
    requires forall j :: 0 <= j < |x| ==> |fs| < |x[j]|
    ensures ScaleColumn(RowPriors(fs, x), x, f, |fs|) == RowPriors(fs + [f], x)
  {
    forall j | 0 <= j < |x|
      ensures ScaleColumn(RowPriors(fs, x), x, f, |fs|)[j] == RowPriors(fs + [f], x)[j]
    {
      RowPriorAppend(fs, f, x[j]);
    }
  }

  /** `prior_prod(x)`: per row, the product of the prior callbacks over the columns. */
  function PriorProduct(x: seq<seq<real>>, po: seq<Param>, priors: map<Param, Option<real -> real>>)
    : (r: Result<seq<real>, SamplerError>)
    requires forall j :: 0 <= j < |x| ==> |po| <= |x[j]|
    ensures r.Success? <==> PriorFactors(po, priors).Success?
    ensures r.Success? ==> |r.value| == |x|
  {
    match PriorFactors(po, priors)
    case Failure(e) => Failure(e)
    case Success(fs) => Success(RowPriors(fs, x))
  }

  /** One batch: the points and their log prior densities. */
  datatype Draw = Draw(x: seq<seq<real>>, logp: seq<real>)

  /** `((n_chunk ... ))` draws: one block of standard uniform variates per cycle, from a stream. */
  function Variates(variate: (nat, nat, nat) -> real, c: nat, count: nat, ndim: nat): (us: seq<seq<real>>)
    requires forall c', r, d :: 0.0 <= variate(c', r, d) < 1.0
    ensures |us| == count && AreVariates(us, ndim)
  {
    seq(count, r requires 0 <= r < count => seq(ndim, d requires 0 <= d < ndim => variate(c, r, d)))
  }

  /**
   * The state a draw needs: one non-empty range and one positive width per
   * ordered parameter, and at least one non-negative bin of that dimension
   * (`np.vstack` needs one block), each with a quota.
   */
  predicate ReadyState(ranges: seq<Interval>, dx: seq<real>, po: seq<Param>, bins: seq<Bin>, ninbin: seq<nat>)
  {
    && |ranges| == |dx| == |po|
    && (forall d :: 0 <= d < |ranges| ==> ranges[d].lo < ranges[d].hi && dx[d] > 0.0)
    && BinsFit(bins, |ranges|)
    && (forall k :: 0 <= k < |bins| ==> NonNegative(bins[k]))
    && bins != [] && |ninbin| == |bins|
  }

  /** The layout `setup` produces is ready for a draw when no name was registered twice. */
  lemma SetupReady(ranges: seq<Interval>, po: seq<Param>, names: set<Param>, nChunk: nat)
    requires |ranges| == |po| && names == (set p | p in po) && NoDuplicates(po)
    requires forall d :: 0 <= d < |ranges| ==> ranges[d].lo < ranges[d].hi
    ensures |names| == |po|
    ensures forall d :: 0 <= d < |ranges| ==> Widths(ranges)[d] > 0.0
    ensures ReadyState(ranges, Widths(ranges), po, [ZeroBin(|names|)], [nChunk])
  {
    DistinctCardinality(po);
  }

  /** `np.ones(ndim) * c`. */
  function Fill(ndim: nat, c: real): (s: seq<real>)
    ensures |s| == ndim && forall d :: 0 <= d < ndim ==> s[d] == c
  {
    seq(ndim, _ => c)
  }

  /** `np.unique(binidx, axis = 0)`: the distinct bin indices of the live points, in order. */
  function OccupiedBins(xs: seq<seq<real>>, ranges: seq<Interval>, dx: seq<real>): (u: seq<Bin>)
    requires |dx| == |ranges| && PointsOk(xs, ranges)
    requires forall d :: 0 <= d < |dx| ==> dx[d] > 0.0
    ensures |u| <= |xs|
  {
    UniqueRows(BinIndices(xs, ranges, dx))
  }

  /**
   * The occupied bins are sorted, hence pairwise distinct, and non-negative;
   * they are exactly the bins of the live points, each point lying in its
   * own bin's box; a non-empty live set occupies at least one bin.
   */
  lemma OccupiedBinsMembers(xs: seq<seq<real>>, ranges: seq<Interval>, dx: seq<real>)
    requires |dx| == |ranges| && PointsOk(xs, ranges)
    requires forall d :: 0 <= d < |dx| ==> dx[d] > 0.0
    ensures xs != [] ==> OccupiedBins(xs, ranges, dx) != []
    ensures BinsFit(OccupiedBins(xs, ranges, dx), |ranges|) && StrictlySorted(OccupiedBins(xs, ranges, dx), |ranges|)
    ensures forall k :: 0 <= k < |OccupiedBins(xs, ranges, dx)| ==> NonNegative(OccupiedBins(xs, ranges, dx)[k])
    ensures forall b :: b in OccupiedBins(xs, ranges, dx) <==> exists j :: 0 <= j < |xs| && b == BinIndex(xs[j], ranges, dx)
    ensures forall j :: 0 <= j < |xs| ==> InBox(xs[j], ranges, dx, BinIndex(xs[j], ranges, dx))
  {
    var idx := BinIndices(xs, ranges, dx);
    var u := OccupiedBins(xs, ranges, dx);
    if xs != [] {
      UniqueRowsNonEmpty(idx);
    }
    UniqueRowsSorted(idx, |ranges|);
    forall j | 0 <= j < |xs|
      ensures NonNegative(idx[j]) && InBox(xs[j], ranges, dx, idx[j])
    {
      PointInOwnBin(xs[j], ranges, dx);
    }
    forall k | 0 <= k < |u|
      ensures NonNegative(u[k])
    {
      assert u[k] in u;
      assert u[k] in idx;
      var j :| 0 <= j < |idx| && idx[j] == u[k];
      assert NonNegative(idx[j]);
    }
  }

  /**
   * The bins rebuilt from a non-empty live set with `nb` bins per dimension
   * form a layout ready for the next draw, in which every bin gets a quota of
   * at least one draw and the next batch has between `n_chunk + 1` and
   * `n_chunk + nunique` points.
   */
  lemma RebinReady(xs: seq<seq<real>>, ranges: seq<Interval>, nb: real, po: seq<Param>, nChunk: nat)
    requires |ranges| == |po| && nb > 0.0
    requires forall d :: 0 <= d < |ranges| ==> ranges[d].lo < ranges[d].hi
    requires xs != [] && PointsOk(xs, ranges)
    ensures forall d :: 0 <= d < |ranges| ==> BinWidths(ranges, nb)[d] > 0.0
    ensures OccupiedBins(xs, ranges, BinWidths(ranges, nb)) != []
    ensures ReadyState(ranges, BinWidths(ranges, nb), po, OccupiedBins(xs, ranges, BinWidths(ranges, nb)),
                       Quotas(nChunk, |OccupiedBins(xs, ranges, BinWidths(ranges, nb))|))
  {
    var dx := BinWidths(ranges, nb);
    BinWidthsPositive(ranges, nb);
    OccupiedBinsMembers(xs, ranges, dx);
  }

  /**
   * The live-set update of one pass, on values: count the batch into
   * `ntotal_true`, admit its rows above the current threshold (`ninj` is the
   * size of the whole live set afterwards), re-threshold unless `atFinal`,
   * re-filter, fail as `np.max` does when nothing is left, and shrink the
   * live volume by `nrec / ninj`.
   */
  function Update(s: Live, batch: Columns, atFinal: bool, w: real -> real, effSamp: seq<real> -> real)
    : (r: Result<Live, SamplerError>)
    requires Aligned(s.cols) && Aligned(batch) && IsWeight(w)
  {
    var all := Append(s.cols, Select(batch, s.loglklThr));
    match Rethreshold(all.ls, s.loglklThr, s.truncP, atFinal, w)
    case Failure(e) => Failure(ThresholdFailed(e))
    case Success((thr, truncP)) =>
      var live := Select(all, thr);
      if live.ls == [] then Failure(EmptyLiveSet)
      else Success(Live(live, ShrinkVolume(s.v, |live.ls|, |all.ls|), thr, truncP,
                        s.ntotalTrue + |batch.ls|, s.cycle, effSamp(live.ls)))
  }

  /**
   * The update fails only when nothing is live: the threshold cannot be
   * computed for an empty live set, or the re-filter leaves nothing.
   */
  lemma UpdateErrors(s: Live, batch: Columns, atFinal: bool, w: real -> real, effSamp: seq<real> -> real)
    requires Aligned(s.cols) && Aligned(batch) && IsWeight(w)
    requires (forall j :: 0 <= j < |s.cols.ls| ==> s.cols.ls[j] > s.loglklThr) && 0.0 < s.truncP < 1.0 - EncProb
    ensures Update(s, batch, atFinal, w, effSamp).Failure? ==>
              || Update(s, batch, atFinal, w, effSamp).error == EmptyLiveSet
              || (Update(s, batch, atFinal, w, effSamp).error == ThresholdFailed(EmptyLikelihoods)
                  && !atFinal && s.cols.ls == [] && Select(batch, s.loglklThr).ls == [])
  {
    var all := Append(s.cols, Select(batch, s.loglklThr));
    RethresholdSteps(all.ls, s.loglklThr, s.truncP, atFinal, w);
  }

  /** A successful update keeps the loop state well formed, with a live set that is not empty. */
  lemma UpdateKeepsLive(s: Live, batch: Columns, atFinal: bool, w: real -> real, effSamp: seq<real> -> real,
                        ranges: seq<Interval>)
    requires LiveOk(s, ranges) && Aligned(batch) && PointsOk(batch.xs, ranges) && IsWeight(w)
    ensures Update(s, batch, atFinal, w, effSamp).Success? ==>
              LiveOk(Update(s, batch, atFinal, w, effSamp).value, ranges)
              && Update(s, batch, atFinal, w, effSamp).value.cols.ls != []
  {
    UpdateMonotone(s, batch, atFinal, w, effSamp);
    UpdateVolume(s, batch, atFinal, w, effSamp);
    var all := Append(s.cols, Select(batch, s.loglklThr));
    AdmitKeeps(s.cols, batch, s.loglklThr, ranges);
    if Update(s, batch, atFinal, w, effSamp).Success? {
      var (thr, truncP) := Rethreshold(all.ls, s.loglklThr, s.truncP, atFinal, w).value;
      SelectKeepsPoints(all, thr, ranges);
      assert Update(s, batch, atFinal, w, effSamp).value.cols == Select(all, thr);
    }
  }

  /**
   * A successful update moves the loop state monotonically: the threshold
   * and the truncated probability never go down (the threshold rises
   * strictly when recomputed and stays put when `atFinal`), `ntotal_true`
   * grows by the batch and the cycle stays.
   */
  lemma UpdateMonotone(s: Live, batch: Columns, atFinal: bool, w: real -> real, effSamp: seq<real> -> real)
    requires Aligned(s.cols) && Aligned(batch) && IsWeight(w)
    requires (forall j :: 0 <= j < |s.cols.ls| ==> s.cols.ls[j] > s.loglklThr) && 0.0 < s.truncP < 1.0 - EncProb
    ensures Update(s, batch, atFinal, w, effSamp).Success? ==>
              var s' := Update(s, batch, atFinal, w, effSamp).value;
              && s'.cycle == s.cycle && s'.ntotalTrue == s.ntotalTrue + |batch.ls|
              && s.loglklThr <= s'.loglklThr && s.truncP <= s'.truncP < 1.0 - EncProb
              && (atFinal ==> s'.loglklThr == s.loglklThr && s'.truncP == s.truncP)
              && (!atFinal ==> s.loglklThr < s'.loglklThr)
              && s'.effSamp == effSamp(s'.cols.ls)
  {
    var all := Append(s.cols, Select(batch, s.loglklThr));
    if Update(s, batch, atFinal, w, effSamp).Success? {
      var t := Rethreshold(all.ls, s.loglklThr, s.truncP, atFinal, w);
      var s' := Update(s, batch, atFinal, w, effSamp).value;
      assert t.Success? && s'.loglklThr == t.value.0 && s'.truncP == t.value.1;
      if !atFinal {
        AdmitAbove(s.cols, batch, s.loglklThr);
        RethresholdSteps(all.ls, s.loglklThr, s.truncP, atFinal, w);
      }
    }
  }

  /** A successful update never grows the live volume and keeps it positive. */
  lemma UpdateVolume(s: Live, batch: Columns, atFinal: bool, w: real -> real, effSamp: seq<real> -> real)
    requires Aligned(s.cols) && Aligned(batch) && IsWeight(w) && 0.0 < s.v
    ensures Update(s, batch, atFinal, w, effSamp).Success? ==>
              0.0 < Update(s, batch, atFinal, w, effSamp).value.v <= s.v
  {
    var all := Append(s.cols, Select(batch, s.loglklThr));
    if Update(s, batch, atFinal, w, effSamp).Success? {
      var (thr, truncP) := Rethreshold(all.ls, s.loglklThr, s.truncP, atFinal, w).value;
      ShrinkVolumeBounds(s.v, |Select(all, thr).ls|, |all.ls|);
    }
  }

  /**
   * After a successful update the live set is exactly the rows of the old
   * live set and of the batch above the new threshold, in order, and the
   * volume shrinks by `nrec / ninj`, `ninj` counting the whole live set
   * after admission.
   */
  lemma UpdateRows(s: Live, batch: Columns, atFinal: bool, w: real -> real, effSamp: seq<real> -> real)
    requires Aligned(s.cols) && Aligned(batch) && IsWeight(w)
    requires (forall j :: 0 <= j < |s.cols.ls| ==> s.cols.ls[j] > s.loglklThr) && 0.0 < s.truncP < 1.0 - EncProb
    ensures Update(s, batch, atFinal, w, effSamp).Success? ==>
              var s' := Update(s, batch, atFinal, w, effSamp).value;
              var ninj := |s.cols.ls| + |Select(batch, s.loglklThr).ls|;
              && Rows(s'.cols) == FilterRows(Rows(s.cols) + Rows(batch), s'.loglklThr)
              && 0 < |s'.cols.ls| <= ninj && s'.v == ShrinkVolume(s.v, |s'.cols.ls|, ninj)
  {
    var all := Append(s.cols, Select(batch, s.loglklThr));
    RethresholdSteps(all.ls, s.loglklThr, s.truncP, atFinal, w);
    if Update(s, batch, atFinal, w, effSamp).Success? {
      var (thr, truncP) := Rethreshold(all.ls, s.loglklThr, s.truncP, atFinal, w).value;
      AdmitThenRefilter(s.cols, batch, s.loglklThr, thr);
    }
  }

  /** The loop condition `eff_samp < neff and ntotal_true < nmax`, `None` standing for infinity. */
  predicate KeepGoing(neff: Option<real>, nmax: Option<nat>, s: Live)
  {
    (neff.None? || s.effSamp < neff.value) && (nmax.None? || s.ntotalTrue < nmax.value)
  }

  class MCSampler {
    var nChunk: nat
    var params: set<Param>
    var paramsOrdered: seq<Param>
    var llim: map<Param, Limit>
    var rlim: map<Param, Limit>
    var pdf: map<Param, real -> real>
    var priorPdf: map<Param, Option<real -> real>>
    var rvs: map<Param, seq<real>>
    var nbins: seq<real>
    var ninbin: seq<nat>
    var binunique: seq<Bin>
    var myRanges: seq<Interval>
    var dx: seq<real>
    var dx0: seq<real>
    var cycle: int

    /**
     * The registry invariant: the name set is the set of the ordered names,
     * and every parameter with limits has well-shaped, ordered limits and a
     * density.
     */
    ghost predicate Registry()
      reads this`params, this`paramsOrdered, this`llim, this`rlim, this`pdf
    {
      && params == (set p | p in paramsOrdered)
      && llim.Keys == rlim.Keys == pdf.Keys
      && llim.Keys <= params
      && forall p :: p in llim ==> Fits(p, llim[p]) && Fits(p, rlim[p]) && Ordered(llim[p], rlim[p])
    }

    /**
     * The state a draw needs: one non-empty range and one positive width per
     * ordered parameter, and non-negative bins of that dimension, each with a
     * quota.
     */
    ghost predicate Ready()
      reads this
    {
      ReadyState(myRanges, dx, paramsOrdered, binunique, ninbin)
    }

    /**
     * The bin fields as the end of a cycle leaves them for the live state `s`
     * (:431-436): `binCount(V, nrec)` bins in every dimension, the widths
     * that gives, the bins the live points occupy under those widths, and
     * one quota per occupied bin.
     */
    ghost predicate BinnedFor(s: Live, binCount: (real, nat) -> real)
      reads this
    {
      && binCount(s.v, |s.cols.ls|) > 0.0
      && nbins == Fill(|paramsOrdered|, binCount(s.v, |s.cols.ls|))
      && dx == BinWidths(myRanges, binCount(s.v, |s.cols.ls|))
      && (forall d :: 0 <= d < |dx| ==> dx[d] > 0.0)
      && PointsOk(s.cols.xs, myRanges)
      && binunique == OccupiedBins(s.cols.xs, myRanges, dx)
      && binunique != [] && ninbin == Quotas(nChunk, |binunique|)
    }

    /** `MCSampler(n_chunk)`: an empty registry. */
    constructor(n: nat)
      ensures nChunk == n && params == {} && paramsOrdered == []
      ensures llim == map[] && rlim == map[] && pdf == map[] && priorPdf == map[] && rvs == map[]
      ensures Registry()
    {
      nChunk := n;
      params := {};
      paramsOrdered := [];
      llim, rlim := map[], map[];
      pdf := map[];
      priorPdf := map[];
      rvs := map[];
      nbins, ninbin, binunique := [], [], [];
      myRanges, dx, dx0 := [], [], [];
      cycle := 0;
    }

    /**
     * `add_parameter`: the name is added and appended first; then the limits
     * are compared, and only when they are ordered are the limits, the
     * density and the prior recorded.
     */
    method AddParameter(p: Param, density: real -> real, left: Option<Limit>, right: Option<Limit>,
                        prior: Option<real -> real>) returns (err: Option<SamplerError>)
      requires Registry()
      requires left.Some? ==> Fits(p, left.value)
      requires right.Some? ==> Fits(p, right.value)
      modifies this`params, this`paramsOrdered, this`llim, this`rlim, this`pdf, this`priorPdf
      ensures params == old(params) + {p} && paramsOrdered == old(paramsOrdered) + [p]
      ensures err == LimitCheck(left, right)
      ensures err.None? ==> llim == old(llim)[p := left.value] && rlim == old(rlim)[p := right.value]
      ensures err.None? ==> pdf == old(pdf)[p := density] && priorPdf == old(priorPdf)[p := prior]
      ensures err.Some? ==> llim == old(llim) && rlim == old(rlim) && pdf == old(pdf) && priorPdf == old(priorPdf)
      ensures Registry()
    {
      params := params + {p};
      paramsOrdered := paramsOrdered + [p];
      assert (set q | q in paramsOrdered) == (set q | q in old(paramsOrdered)) + {p};
      err := LimitCheck(left, right);
      if err.Some? {
        return;
      }
      llim := llim[p := left.value];
      rlim := rlim[p := right.value];
      pdf := pdf[p := density];
      priorPdf := priorPdf[p := prior];
    }

    /** `clear`: the registry and the sample cache are emptied; the priors are kept. */
    method Clear()
      modifies this`params, this`paramsOrdered, this`pdf, this`rvs, this`llim, this`rlim
      ensures params == {} && paramsOrdered == [] && pdf == map[] && rvs == map[]
      ensures llim == map[] && rlim == map[]
      ensures priorPdf == old(priorPdf)
      ensures Registry()
    {
      params := {};
      paramsOrdered := [];
      pdf := map[];
      rvs := map[];
      llim := map[];
      rlim := map[];
    }

    /**
     * `setup`: one bin per dimension of the name set, a single all-zero bin
     * holding the whole chunk, then the ranges of the ordered parameters and
     * their widths.  The bin fields are set before the ranges are read, so
     * they change even when the ranges fail.  With no parameter the range
     * array is stored but is one-dimensional, and taking its widths fails.
     */
    method Setup() returns (err: Option<SamplerError>)
      modifies this`nbins, this`binunique, this`ninbin, this`myRanges, this`dx, this`dx0, this`cycle
      ensures nbins == Ones(|params|)
      ensures binunique == [ZeroBin(|params|)] && ninbin == [nChunk]
      ensures RangesOf(paramsOrdered, llim, rlim).Failure? ==>
                err == Some(RangesOf(paramsOrdered, llim, rlim).error)
                && myRanges == old(myRanges) && dx == old(dx) && dx0 == old(dx0) && cycle == old(cycle)
      ensures RangesOf(paramsOrdered, llim, rlim).Success? && paramsOrdered == [] ==>
                err == Some(NoDimensions) && myRanges == []
                && dx == old(dx) && dx0 == old(dx0) && cycle == old(cycle)
      ensures RangesOf(paramsOrdered, llim, rlim).Success? && paramsOrdered != [] ==>
                err == None && myRanges == RangesOf(paramsOrdered, llim, rlim).value
                && dx == Widths(myRanges) && dx0 == dx && cycle == 1
      ensures params == old(params) && paramsOrdered == old(paramsOrdered) && llim == old(llim) && rlim == old(rlim)
      ensures nChunk == old(nChunk)
    {
      var ndim := |params|;
      nbins := Ones(ndim);
      binunique := [ZeroBin(ndim)];
      ninbin := [nChunk];
      var ranges := RangesOf(paramsOrdered, llim, rlim);
      if ranges.Failure? {
        return Some(ranges.error);
      }
      myRanges := ranges.value;
      if myRanges == [] {
        return Some(NoDimensions);
      }
      dx := Widths(myRanges);
      dx0 := dx;
      cycle := 1;
      err := None;
    }

    /**
     * `prior_prod(x)`: starting from ones, multiply in each ordered
     * parameter's prior evaluated on that parameter's column.
     */
    method PriorProd(x: seq<seq<real>>) returns (r: Result<seq<real>, SamplerError>)
      requires forall j :: 0 <= j < |x| ==> |paramsOrdered| <= |x[j]|
      ensures r == PriorProduct(x, paramsOrdered, priorPdf)
    {
      var po, priors := paramsOrdered, priorPdf;
      var pOut := seq(|x|, _ => 1.0);
      ghost var fs: seq<real -> real> := [];
      var indx := 0;
      while indx < |po|
        invariant 0 <= indx <= |po| && |fs| == indx
        invariant PriorFactors(po[..indx], priors) == Success(fs)
        invariant pOut == RowPriors(fs, x)
      {
        var param := po[indx];
        PriorFactorsStep(po, priors, indx);
        if param !in priors {
          PriorFactorsPrefixFails(po, priors, indx + 1);
          return Failure(MissingPrior(param));
        }
        match priors[param]
        case None =>
          PriorFactorsPrefixFails(po, priors, indx + 1);
          return Failure(NoPrior(param));
        case Some(f) =>
          RowPriorsStep(fs, f, x);
          pOut := ScaleColumn(pOut, x, f, indx);
          fs := fs + [f];
        indx := indx + 1;
      }
      assert po[..indx] == po;
      r := Success(pOut);
    }

    /**
     * `draw_simple`: the points of `sample_from_bins` for the current bins
     * and quotas, with the logarithm of their prior product.
     */
    method DrawSimple(us: seq<seq<real>>, ln: real -> real) returns (r: Result<Draw, SamplerError>)
      requires Ready()
      requires |us| == Sum(ninbin) && AreVariates(us, |myRanges|)
      ensures r.Success? <==> PriorFactors(paramsOrdered, priorPdf).Success?
      ensures r.Failure? ==> r.error == PriorFactors(paramsOrdered, priorPdf).error
      ensures r.Success? ==> r.value.x == SampleFromBins(myRanges, dx, binunique, ninbin, us)
      ensures r.Success? ==> |r.value.x| == |r.value.logp| == Sum(ninbin)
      ensures r.Success? ==> forall j :: 0 <= j < |r.value.x| ==>
                |r.value.x[j]| == |myRanges| && AboveLower(r.value.x[j], myRanges)
      ensures r.Success? ==> forall j :: 0 <= j < |r.value.logp| ==>
                r.value.logp[j] == ln(PriorProduct(r.value.x, paramsOrdered, priorPdf).value[j])
    {
      var x := SampleFromBins(myRanges, dx, binunique, ninbin, us);
      SampleAboveLower(myRanges, dx, binunique, ninbin, us);
      var p := PriorProd(x);
      if p.Failure? {
        return Failure(p.error);
      }
      var logp := seq(|p.value|, j requires 0 <= j < |p.value| => ln(p.value[j]));
      r := Success(Draw(x, logp));
    }

    /**
     * The drawing half of one pass of the `integrate_log` loop body: draw a
     * batch, evaluate `lnF(x) + log p(x)` on it (`ln` is the logarithm) and
     * update the live set with it.  The ghost `batch` names the drawn columns.
     */
    method Advance(s: Live, us: seq<seq<real>>, lnF: seq<real> -> real, ln: real -> real, w: real -> real,
                   atFinal: real -> bool, effSamp: seq<real> -> real)
      returns (r: Result<Live, SamplerError>, ghost batch: Columns)
      requires Ready() && Aligned(s.cols)
      requires |us| == Sum(ninbin) && AreVariates(us, |myRanges|)
      requires IsWeight(w)
      ensures PriorFactors(paramsOrdered, priorPdf).Failure? ==> r == Failure(PriorFactors(paramsOrdered, priorPdf).error)
      ensures PriorFactors(paramsOrdered, priorPdf).Success? ==>
                && Aligned(batch) && batch.xs == SampleFromBins(myRanges, dx, binunique, ninbin, us)
                && |batch.xs| == Sum(ninbin) && PointsOk(batch.xs, myRanges)
                && r == Update(s, batch, atFinal(s.truncP), w, effSamp)
      ensures PriorFactors(paramsOrdered, priorPdf).Success? ==> forall j :: 0 <= j < |batch.xs| ==>
                && batch.ps[j] == ln(PriorProduct(batch.xs, paramsOrdered, priorPdf).value[j])
                && batch.ls[j] == lnF(batch.xs[j]) + batch.ps[j]
    {
      batch := Columns([], [], []);
      var d := DrawSimple(us, ln);
      if d.Failure? {
        r := Failure(d.error);
        return;
      }
      var rv, logp := d.value.x, d.value.logp;
      var loglkl := seq(|rv|, j requires 0 <= j < |rv| => lnF(rv[j]) + logp[j]);
      var drawn := Columns(rv, loglkl, logp);
      batch := drawn;
      r := Update(s, drawn, atFinal(s.truncP), w, effSamp);
    }

    /**
     * The bin half of one pass: `nb` bins per dimension, the widths they
     * give, the distinct bins of the live points under those widths and one
     * quota per bin.
     */
    method Rebin(xs: seq<seq<real>>, nb: real)
      requires Ready() && xs != [] && PointsOk(xs, myRanges) && nb > 0.0
      modifies this`nbins, this`dx, this`binunique, this`ninbin
      ensures nbins == Fill(|paramsOrdered|, nb) && dx == BinWidths(myRanges, nb)
      ensures binunique == OccupiedBins(xs, myRanges, dx) && binunique != [] && ninbin == Quotas(nChunk, |binunique|)
      ensures Ready()
      ensures myRanges == old(myRanges) && paramsOrdered == old(paramsOrdered) && nChunk == old(nChunk)
    {
      RebinReady(xs, myRanges, nb, paramsOrdered, nChunk);
      nbins := Fill(|paramsOrdered|, nb);
      dx := BinWidths(myRanges, nb);
      binunique := OccupiedBins(xs, myRanges, dx);
      ninbin := Quotas(nChunk, |binunique|);
    }

    /**
     * One pass of the `integrate_log` loop body: the live-set update, the
     * bins rebuilt with `binCount(V, nrec)` bins per dimension (the real
     * `(sqrt(nrec) / V) ** (1 / ndim)`), and the cycle counter advanced.
     * Nothing of the sampler changes when the pass fails.
     */
    method Cycle(s: Live, us: seq<seq<real>>, lnF: seq<real> -> real, ln: real -> real, w: real -> real,
                 atFinal: real -> bool, binCount: (real, nat) -> real, effSamp: seq<real> -> real)
      returns (r: Result<Live, SamplerError>, ghost batch: Columns)
      requires Ready() && LiveOk(s, myRanges)
      requires |us| == Sum(ninbin) && AreVariates(us, |myRanges|)
      requires IsWeight(w)
      requires forall v: real, n: nat :: v > 0.0 && n > 0 ==> binCount(v, n) > 0.0
      modifies this`nbins, this`dx, this`binunique, this`ninbin
      ensures r.Failure? ==> nbins == old(nbins) && dx == old(dx) && binunique == old(binunique) && ninbin == old(ninbin)
      ensures r.Success? ==> Aligned(batch) && PointsOk(batch.xs, myRanges) && |batch.ls| == old(Sum(ninbin))
                             && Update(s, batch, atFinal(s.truncP), w, effSamp).Success?
                             && r.value == Update(s, batch, atFinal(s.truncP), w, effSamp).value.(cycle := s.cycle + 1)
      ensures r.Success? ==> LiveOk(r.value, myRanges) && r.value.cols.ls != [] && Ready()
      ensures r.Success? ==> r.value.cycle == s.cycle + 1 && r.value.ntotalTrue == s.ntotalTrue + old(Sum(ninbin))
      ensures r.Success? ==> r.value.v <= s.v && s.loglklThr <= r.value.loglklThr && s.truncP <= r.value.truncP
      ensures r.Success? ==> BinnedFor(r.value, binCount)
    {
      var next;
      next, batch := Advance(s, us, lnF, ln, w, atFinal, effSamp);
      if next.Failure? {
        return Failure(next.error), batch;
      }
      UpdateKeepsLive(s, batch, atFinal(s.truncP), w, effSamp, myRanges);
      UpdateMonotone(s, batch, atFinal(s.truncP), w, effSamp);
      UpdateVolume(s, batch, atFinal(s.truncP), w, effSamp);
      var live := next.value;
      Rebin(live.cols.xs, binCount(live.v, |live.cols.ls|));
      r := Success(live.(cycle := s.cycle + 1));
    }

    /**
     * The `while` loop of `integrate_log`: cycles while the effective sample
     * size is below `neff` and fewer than `nmax` points were drawn (`None`
     * standing for the infinite defaults), stopping after cycle 1000.  The
     * variates of cycle `c` are `variate(c, row, dimension)`.
     */
    method RunCycles(start: Live, lnF: seq<real> -> real, ln: real -> real, w: real -> real,
                     atFinal: real -> bool, binCount: (real, nat) -> real, effSamp: seq<real> -> real,
                     variate: (nat, nat, nat) -> real, neff: Option<real>, nmax: Option<nat>)
      returns (r: Result<Live, SamplerError>, ghost last: Live)
      requires Ready() && LiveOk(start, myRanges) && 1 <= start.cycle <= MaxCycles
      requires IsWeight(w)
      requires forall v: real, m: nat :: v > 0.0 && m > 0 ==> binCount(v, m) > 0.0
      requires forall c, j, d :: 0.0 <= variate(c, j, d) < 1.0
      modifies this`nbins, this`binunique, this`ninbin, this`dx
      ensures r.Success? ==> LiveOk(r.value, myRanges) && Ready()
      ensures r.Success? ==> start.cycle <= r.value.cycle <= MaxCycles + 1
      ensures r.Success? ==> start.ntotalTrue <= r.value.ntotalTrue && r.value.v <= start.v
      ensures r.Success? ==> start.loglklThr <= r.value.loglklThr && start.truncP <= r.value.truncP
      ensures r.Success? ==> r.value.cycle == MaxCycles + 1 || !KeepGoing(neff, nmax, r.value)
      ensures r.Success? ==> last == r.value
      ensures start.cycle <= last.cycle
      ensures last.cycle == start.cycle ==>
                last == start && nbins == old(nbins) && dx == old(dx) && binunique == old(binunique) && ninbin == old(ninbin)
      ensures last.cycle > start.cycle ==> BinnedFor(last, binCount)
      ensures nChunk == old(nChunk) && paramsOrdered == old(paramsOrdered) && llim == old(llim) && rlim == old(rlim)
      ensures myRanges == old(myRanges)
    {
      var live := start;
      while KeepGoing(neff, nmax, live)
        invariant Ready() && LiveOk(live, myRanges)
        invariant start.cycle <= live.cycle <= MaxCycles
        invariant start.ntotalTrue <= live.ntotalTrue && live.v <= start.v
        invariant start.loglklThr <= live.loglklThr && start.truncP <= live.truncP
        invariant live.cycle == start.cycle ==>
                    live == start && nbins == old(nbins) && dx == old(dx) && binunique == old(binunique) && ninbin == old(ninbin)
        invariant live.cycle > start.cycle ==> BinnedFor(live, binCount)
        invariant nChunk == old(nChunk) && paramsOrdered == old(paramsOrdered) && llim == old(llim) && rlim == old(rlim)
        invariant myRanges == old(myRanges)
        decreases MaxCycles + 1 - live.cycle
      {
        var us := Variates(variate, live.cycle, Sum(ninbin), |myRanges|);
        var next, _ := Cycle(live, us, lnF, ln, w, atFinal, binCount, effSamp);
        if next.Failure? {
          return Failure(next.error), live;
        }
        live := next.value;
        if live.cycle > MaxCycles {
          break;
        }
      }
      r, last := Success(live), live;
    }

    /**
     * The start of `integrate_log` (:353-354): `n_chunk := n`, then `setup`,
     * which leaves the sampler ready to draw when it succeeds.
     */
    method Prepare(n: nat) returns (err: Option<SamplerError>)
      requires Registry() && NoDuplicates(paramsOrdered)
      modifies this`nChunk, this`nbins, this`binunique, this`ninbin, this`myRanges, this`dx, this`dx0, this`cycle
      ensures nChunk == n
      ensures nbins == Ones(|paramsOrdered|) && binunique == [ZeroBin(|paramsOrdered|)] && ninbin == [n]
      ensures RangesOf(paramsOrdered, llim, rlim).Failure? ==> err == Some(RangesOf(paramsOrdered, llim, rlim).error)
      ensures RangesOf(paramsOrdered, llim, rlim).Success? && paramsOrdered == [] ==> err == Some(NoDimensions)
      ensures err == None <==> RangesOf(paramsOrdered, llim, rlim).Success? && paramsOrdered != []
      ensures err == None ==> Ready() && myRanges == RangesOf(paramsOrdered, llim, rlim).value && dx == Widths(myRanges)
    {
      nChunk := n;
      ghost var po, names := paramsOrdered, params;
      ghost var ranges := RangesOf(po, llim, rlim);
      DistinctCardinality(po);
      if ranges.Success? {
        RangesNonEmpty(po, llim, rlim);
        SetupReady(ranges.value, po, names, n);
      }
      err := Setup();
    }

    /**
     * `integrate_log` up to the end of its loop: `n_chunk := n`, `setup`,
     * the initial loop state, then the cycles.
     */
    method IntegrateLog(n: nat, lnF: seq<real> -> real, ln: real -> real, w: real -> real,
                        atFinal: real -> bool, binCount: (real, nat) -> real, effSamp: seq<real> -> real,
                        variate: (nat, nat, nat) -> real, neff: Option<real>, nmax: Option<nat>)
      returns (r: Result<Live, SamplerError>, ghost last: Live)
      requires Registry() && NoDuplicates(paramsOrdered)
      requires IsWeight(w)
      requires forall v: real, m: nat :: v > 0.0 && m > 0 ==> binCount(v, m) > 0.0
      requires forall c, j, d :: 0.0 <= variate(c, j, d) < 1.0
      modifies this`nChunk, this`nbins, this`binunique, this`ninbin, this`myRanges, this`dx, this`dx0, this`cycle
      ensures nChunk == n
      ensures RangesOf(paramsOrdered, llim, rlim).Failure? ==> r == Failure(RangesOf(paramsOrdered, llim, rlim).error)
      ensures r.Success? ==> LiveOk(r.value, myRanges) && Ready()
      ensures r.Success? ==> 1 <= r.value.cycle <= MaxCycles + 1
      ensures RangesOf(paramsOrdered, llim, rlim).Success? && paramsOrdered == [] ==> r == Failure(NoDimensions)
      ensures r.Success? ==> r.value.cycle == MaxCycles + 1 || !KeepGoing(neff, nmax, r.value)
      ensures r.Success? ==> last == r.value
      ensures last.cycle == 1 ==>
                nbins == Ones(|paramsOrdered|) && binunique == [ZeroBin(|paramsOrdered|)] && ninbin == [n]
      ensures RangesOf(paramsOrdered, llim, rlim).Success? && paramsOrdered != [] && last.cycle == 1 ==>
                dx == Widths(myRanges)
      ensures last.cycle > 1 ==> BinnedFor(last, binCount)
    {
      last := InitialLive();
      var err := Prepare(n);
      if err.Some? {
        return Failure(err.value), last;
      }
      var start := InitialLive();
      InitialLiveOk(myRanges);
      r, last := RunCycles(start, lnF, ln, w, atFinal, binCount, effSamp, variate, neff, nmax);
    }
  }

  /** A prefix whose prior lookup fails makes the whole lookup fail the same way. */
  lemma {:induction false} PriorFactorsPrefixFails(po: seq<Param>, priors: map<Param, Option<real -> real>>, k: nat)
    requires k <= |po| && PriorFactors(po[..k], priors).Failure?
    ensures PriorFactors(po, priors) == PriorFactors(po[..k], priors)
    decreases |po| - k
  {
    if k < |po| {
      assert po[..k + 1][..k] == po[..k];
      PriorFactorsPrefixFails(po, priors, k + 1);
    } else {
      assert po[..k] == po;
    }
  }
}
