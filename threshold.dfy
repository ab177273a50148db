/**
 * Likelihood-threshold selection of the VARAHA integrator
 * (`get_likelihood_threshold` in mcsamplerAdaptiveVolume.py).
 *
 * The source normalises the weights `w = exp(lkl - max(lkl))` by their sum, so
 * only the ratios of weights matter and the shift by the maximum cancels.  The
 * model therefore takes the exponential as an opaque weight function `w` that is
 * positive and strictly increasing.  Because `w` is strictly increasing, sorting
 * the inputs by weight (the source's `argsort(prob)`) orders them exactly as
 * sorting by value does, ties included; the model sorts by value.
 */
module LikelihoodThreshold {
  import opened Wrappers

  /** The properties of `exp` the selection relies on. */
  ghost predicate IsWeight(w: real -> real)
  {
    && (forall x :: w(x) > 0.0)
    && (forall x, y :: x < y ==> w(x) < w(y))
  }

  predicate Ascending(s: seq<real>)
  {
    forall i, j :: 0 <= i < j < |s| ==> s[i] <= s[j]
  }

  /** The tail of an ascending sequence is ascending and bounded below by its head. */
  lemma AscendingTail(s: seq<real>)
    requires Ascending(s) && s != []
    ensures Ascending(s[1..])
    ensures forall i :: 0 <= i < |s[1..]| ==> s[0] <= s[1..][i]
  {
    var rest := s[1..];
    forall i, j | 0 <= i < j < |rest| ensures rest[i] <= rest[j] {
      assert rest[i] == s[i + 1] && rest[j] == s[j + 1];
    }
    forall i | 0 <= i < |rest| ensures s[0] <= rest[i] {
      assert rest[i] == s[i + 1];
    }
  }

  // ---------------------------------------------------------------------------
  // Sorting (np.sort / argsort)
  // ---------------------------------------------------------------------------

  function Insert(x: real, s: seq<real>): (r: seq<real>)
    ensures |r| == |s| + 1
  {
    if s == [] || x <= s[0] then [x] + s
    else [s[0]] + Insert(x, s[1..])
  }

  /** The values in ascending order, by insertion. */
  function SortAsc(s: seq<real>): (r: seq<real>)
    ensures |r| == |s|
  {
    if s == [] then [] else Insert(s[0], SortAsc(s[1..]))
  }

  lemma {:induction false} InsertPermutation(x: real, s: seq<real>)
    ensures multiset(Insert(x, s)) == multiset(s) + multiset{x}
  {
    if s != [] && x > s[0] {
      InsertPermutation(x, s[1..]);
      assert s == [s[0]] + s[1..];
    }
  }

  /** Inserting into an ascending sequence keeps it ascending. */
  lemma {:induction false} InsertAscending(x: real, s: seq<real>)
    requires Ascending(s)
    ensures Ascending(Insert(x, s))
  {
    if s != [] && x > s[0] {
      var tail := Insert(x, s[1..]);
      AscendingTail(s);
      InsertAscending(x, s[1..]);
      assert tail[0] == if |s| > 1 && s[1] < x then s[1] else x;
      assert s[0] <= tail[0];
      forall i, j | 0 <= i < j < |tail| + 1 ensures ([s[0]] + tail)[i] <= ([s[0]] + tail)[j] {
        if i > 0 {
          assert ([s[0]] + tail)[i] == tail[i - 1];
        }
        assert ([s[0]] + tail)[j] == tail[j - 1];
        assert tail[0] <= tail[j - 1];
      }
    }
  }

  /** Sorting permutes the input ... */
  lemma {:induction false} SortAscPermutation(s: seq<real>)
    ensures multiset(SortAsc(s)) == multiset(s)
  {
    if s != [] {
      SortAscPermutation(s[1..]);
      InsertPermutation(s[0], SortAsc(s[1..]));
      assert s == [s[0]] + s[1..];
    }
  }

  /** ... into ascending order. */
  lemma {:induction false} SortAscAscending(s: seq<real>)
    ensures Ascending(SortAsc(s))
  {
    if s != [] {
      SortAscAscending(s[1..]);
      InsertAscending(s[0], SortAsc(s[1..]));
    }
  }

  /** The sorted values are the input values. */
  lemma SortAscMembers(s: seq<real>)
    ensures forall v :: v in SortAsc(s) <==> v in s
  {
    var asc := SortAsc(s);
    SortAscPermutation(s);
    forall v ensures v in asc <==> v in s {
      assert v in asc <==> v in multiset(asc);
      assert v in s <==> v in multiset(s);
    }
  }

  // ---------------------------------------------------------------------------
  // Sums of per-value contributions (np.sum over a selection)
  // ---------------------------------------------------------------------------

  /** What a value contributes to a sum: its weight, restricted, or a count. */
  datatype Part =
    | Whole                  // every weight (`sumw`)
    | Below(t: real)         // the weights of the values strictly below `t` (`w[lkl < t]`)
    | AtMost(t: real)        // the weights of the values at or below `t` (the unnormalised CDF)
    | CountAtLeast(t: real)  // one for each value at or above `t`
    | CountAbove(t: real)    // one for each value strictly above `t`

  function Contribution(w: real -> real, p: Part, x: real): real
  {
    match p
    case Whole => w(x)
    case Below(t) => if x < t then w(x) else 0.0
    case AtMost(t) => if x <= t then w(x) else 0.0
    case CountAtLeast(t) => if x >= t then 1.0 else 0.0
    case CountAbove(t) => if x > t then 1.0 else 0.0
  }

  function Total(s: seq<real>, w: real -> real, p: Part): real
  {
    if s == [] then 0.0 else Contribution(w, p, s[0]) + Total(s[1..], w, p)
  }

  lemma {:induction false} TotalInsert(x: real, s: seq<real>, w: real -> real, p: Part)
    ensures Total(Insert(x, s), w, p) == Contribution(w, p, x) + Total(s, w, p)
  {
    if s != [] && x > s[0] {
      TotalInsert(x, s[1..], w, p);
      assert Insert(x, s)[1..] == Insert(x, s[1..]);
    }
  }

  /** A sum over the values does not depend on their order. */
  lemma {:induction false} TotalSort(s: seq<real>, w: real -> real, p: Part)
    ensures Total(SortAsc(s), w, p) == Total(s, w, p)
  {
    if s != [] {
      TotalSort(s[1..], w, p);
      TotalInsert(s[0], SortAsc(s[1..]), w, p);
    }
  }

  lemma {:induction false} TotalAppend(a: seq<real>, b: seq<real>, w: real -> real, p: Part)
    ensures Total(a + b, w, p) == Total(a, w, p) + Total(b, w, p)
  {
    if a == [] {
      assert a + b == b;
    } else {
      assert (a + b)[0] == a[0];
      assert (a + b)[1..] == a[1..] + b;
      TotalAppend(a[1..], b, w, p);
    }
  }

  lemma ContributionNonNegative(w: real -> real, p: Part, x: real)
    requires IsWeight(w)
    ensures Contribution(w, p, x) >= 0.0
  {
    assert w(x) > 0.0;
  }

  lemma {:induction false} TotalNonNegative(s: seq<real>, w: real -> real, p: Part)
    requires IsWeight(w)
    ensures Total(s, w, p) >= 0.0
  {
    if s != [] {
      ContributionNonNegative(w, p, s[0]);
      TotalNonNegative(s[1..], w, p);
    }
  }

  lemma {:induction false} TotalZero(s: seq<real>, w: real -> real, p: Part)
    requires forall i :: 0 <= i < |s| ==> Contribution(w, p, s[i]) == 0.0
    ensures Total(s, w, p) == 0.0
  {
    if s != [] {
      assert Contribution(w, p, s[0]) == 0.0;
      TotalZero(s[1..], w, p);
    }
  }

  lemma {:induction false} TotalMonotone(s: seq<real>, w: real -> real, p: Part, q: Part)
    requires forall i :: 0 <= i < |s| ==> Contribution(w, p, s[i]) <= Contribution(w, q, s[i])
    ensures Total(s, w, p) <= Total(s, w, q)
  {
    if s != [] {
      assert Contribution(w, p, s[0]) <= Contribution(w, q, s[0]);
      TotalMonotone(s[1..], w, p, q);
    }
  }

  /** A single value's contribution is at most the whole sum. */
  lemma {:induction false} TotalAtLeastElement(s: seq<real>, w: real -> real, p: Part, k: nat)
    requires IsWeight(w) && k < |s|
    ensures Total(s, w, p) >= Contribution(w, p, s[k])
  {
    if k == 0 {
      TotalNonNegative(s[1..], w, p);
    } else {
      ContributionNonNegative(w, p, s[0]);
      TotalAtLeastElement(s[1..], w, p, k - 1);
      assert s[1..][k - 1] == s[k];
    }
  }

  /** If one contribution is strictly smaller, so is the sum. */
  lemma {:induction false} TotalStrictlyMonotone(s: seq<real>, w: real -> real, p: Part, q: Part, k: nat)
    requires k < |s|
    requires forall i :: 0 <= i < |s| ==> Contribution(w, p, s[i]) <= Contribution(w, q, s[i])
    requires Contribution(w, p, s[k]) < Contribution(w, q, s[k])
    ensures Total(s, w, p) < Total(s, w, q)
  {
    if k == 0 {
      TotalMonotone(s[1..], w, p, q);
    } else {
      assert Contribution(w, p, s[0]) <= Contribution(w, q, s[0]);
      assert s[1..][k - 1] == s[k];
      TotalStrictlyMonotone(s[1..], w, p, q, k - 1);
    }
  }

  /** The weights of a non-empty input add up to something positive. */
  lemma TotalPositive(s: seq<real>, w: real -> real)
    requires IsWeight(w)
    ensures s != [] ==> Total(s, w, Whole) > 0.0
  {
    if s != [] {
      TotalAtLeastElement(s, w, Whole, 0);
      assert w(s[0]) > 0.0;
    }
  }

  /** Counting over values that are all at least `t` counts every one of them. */
  lemma {:induction false} CountAll(s: seq<real>, w: real -> real, t: real)
    requires forall i :: 0 <= i < |s| ==> s[i] >= t
    ensures Total(s, w, CountAtLeast(t)) == |s| as real
  {
    if s != [] {
      assert s[0] >= t;
      CountAll(s[1..], w, t);
    }
  }

  /** A count never exceeds the number of values. */
  lemma {:induction false} CountAtMostLength(s: seq<real>, w: real -> real, t: real)
    ensures Total(s, w, CountAbove(t)) <= |s| as real
  {
    if s != [] {
      CountAtMostLength(s[1..], w, t);
    }
  }

  // ---------------------------------------------------------------------------
  // The first value whose cumulative weight reaches a target
  // ---------------------------------------------------------------------------

  /**
   * Walks the ascending values keeping the running cumulative weight `acc`
   * (the source's `cumsum`) and returns the first value at which it reaches
   * `target`; None when it never does (the source's `[0]` on an empty
   * selection).
   */
  function FirstReaching(s: seq<real>, w: real -> real, target: real, acc: real): Option<real>
  {
    if s == [] then None
    else if acc + w(s[0]) >= target then Some(s[0])
    else FirstReaching(s[1..], w, target, acc + w(s[0]))
  }

  /** The scan finds nothing exactly when the whole weight stays short of the target. */
  lemma {:induction false} FirstReachingNone(s: seq<real>, w: real -> real, target: real, acc: real)
    requires IsWeight(w)
    ensures FirstReaching(s, w, target, acc).None? <==> s == [] || acc + Total(s, w, Whole) < target
  {
    if s != [] {
      if acc + w(s[0]) < target {
        FirstReachingNone(s[1..], w, target, acc + w(s[0]));
      } else {
        TotalNonNegative(s[1..], w, Whole);
      }
    }
  }

  /** The value found is one of the inputs. */
  lemma {:induction false} FirstReachingMember(s: seq<real>, w: real -> real, target: real, acc: real)
    requires FirstReaching(s, w, target, acc).Some?
    ensures FirstReaching(s, w, target, acc).value in s
  {
    if acc + w(s[0]) < target {
      FirstReachingMember(s[1..], w, target, acc + w(s[0]));
    }
  }

  /** The cumulative weight at or below the value found reaches the target. */
  lemma {:induction false} FirstReachingReaches(s: seq<real>, w: real -> real, target: real, acc: real)
    requires IsWeight(w) && Ascending(s)
    requires FirstReaching(s, w, target, acc).Some?
    ensures acc + Total(s, w, AtMost(FirstReaching(s, w, target, acc).value)) >= target
  {
    var v := FirstReaching(s, w, target, acc).value;
    AscendingTail(s);
    if acc + w(s[0]) >= target {
      TotalNonNegative(s[1..], w, AtMost(v));
    } else {
      FirstReachingReaches(s[1..], w, target, acc + w(s[0]));
      FirstReachingMember(s[1..], w, target, acc + w(s[0]));
      assert s[0] <= v;
    }
  }

  /** The cumulative weight at or below any smaller input value stays short of the target. */
  lemma {:induction false} FirstReachingFirst(s: seq<real>, w: real -> real, target: real, acc: real)
    requires IsWeight(w) && Ascending(s)
    requires FirstReaching(s, w, target, acc).Some?
    ensures forall u :: u in s && u < FirstReaching(s, w, target, acc).value ==>
              acc + Total(s, w, AtMost(u)) < target
  {
    var v := FirstReaching(s, w, target, acc).value;
    var a, rest := s[0], s[1..];
    assert s == [a] + rest;
    AscendingTail(s);
    if acc + w(a) < target {
      FirstReachingFirst(rest, w, target, acc + w(a));
      forall u | u in s && u < v ensures acc + Total(s, w, AtMost(u)) < target {
        if u !in rest {
          assert u == a;
          TotalZero(rest, w, AtMost(u));
        } else {
          assert a <= u;
        }
      }
    }
  }

  /** Once the target is not reached at the start, the weight strictly below the value found stays short of it. */
  lemma {:induction false} FirstReachingBelow(s: seq<real>, w: real -> real, target: real, acc: real)
    requires IsWeight(w) && Ascending(s)
    requires FirstReaching(s, w, target, acc).Some?
    requires acc < target
    ensures acc + Total(s, w, Below(FirstReaching(s, w, target, acc).value)) < target
  {
    var v := FirstReaching(s, w, target, acc).value;
    AscendingTail(s);
    if acc + w(s[0]) >= target {
      TotalZero(s[1..], w, Below(v));
    } else {
      FirstReachingBelow(s[1..], w, target, acc + w(s[0]));
      assert Contribution(w, Below(v), s[0]) <= w(s[0]);
    }
  }

  // ---------------------------------------------------------------------------
  // The two candidate thresholds and their combination
  // ---------------------------------------------------------------------------

  /** The share of the total weight that `p` selects (`np.sum(w[...]) / sumw`). */
  function Share(lkl: seq<real>, w: real -> real, p: Part): real
    requires IsWeight(w)
  {
    TotalPositive(lkl, w);
    if lkl == [] then 0.0 else Total(lkl, w, p) / Total(lkl, w, Whole)
  }

  /** The cumulative weight `prob_stop_thr` has to reach: `discardProb` of the total. */
  function DiscardTarget(lkl: seq<real>, w: real -> real, discardProb: real): real
  {
    discardProb * Total(lkl, w, Whole)
  }

  /**
   * `prob_stop_thr`: the first value, in ascending order, whose cumulative
   * weight share reaches `discardProb`.
   */
  function ProbStopThreshold(lkl: seq<real>, w: real -> real, discardProb: real): Option<real>
  {
    FirstReaching(SortAsc(lkl), w, DiscardTarget(lkl, w, discardProb), 0.0)
  }

  /**
   * `lkl_stop_thr`: the value at index `nsel` of the descending sort, or the
   * smallest value when there are not more than `nsel` values.
   */
  function OrderStopThreshold(lkl: seq<real>, nsel: nat): real
    requires lkl != []
  {
    if |lkl| > nsel then SortAsc(lkl)[|lkl| - 1 - nsel] else SortAsc(lkl)[0]
  }

  datatype ThresholdError = EmptyLikelihoods | DiscardNotReached

  datatype Threshold = Threshold(lklThr: real, truncp: real)

  /**
   * The new threshold is the smaller of the two candidates, and `truncp` is
   * the weight share of the inputs strictly below it.  The incoming `lklThr`
   * is overwritten without being read.
   */
  function GetLikelihoodThreshold(lkl: seq<real>, lklThr: real, nsel: nat, discardProb: real,
                                  w: real -> real): Result<Threshold, ThresholdError>
    requires IsWeight(w)
  {
    if lkl == [] then Failure(EmptyLikelihoods)  // np.max of an empty array
    else
      match ProbStopThreshold(lkl, w, discardProb)
      case None => Failure(DiscardNotReached)  // [0] of an empty selection
      case Some(probStopThr) =>
        var lklStopThr := OrderStopThreshold(lkl, nsel);
        var thr := if lklStopThr <= probStopThr then lklStopThr else probStopThr;
        Success(Threshold(thr, Share(lkl, w, Below(thr))))
  }

  // ---------------------------------------------------------------------------
  // What the selection promises
  // ---------------------------------------------------------------------------

  /** Comparing a share `x / t` with `d` is comparing `x` with `d * t`. */
  lemma ShareCompare(x: real, t: real, d: real, q: real, target: real)
    requires t > 0.0 && q == x / t && target == d * t
    ensures q >= d <==> x >= target
  {
    var q := x / t;
    assert x == q * t;
    if q >= d {
      assert q * t - d * t == (q - d) * t;
    } else {
      assert d * t - q * t == (d - q) * t;
    }
  }

  lemma ScaleCompare(t: real, d: real)
    requires t > 0.0
    ensures d * t <= t <==> d <= 1.0
  {
    assert t - d * t == (1.0 - d) * t;
  }

  /** The whole weight falls short of the target exactly when `discardProb` exceeds 1. */
  lemma TargetBeyondTotal(lkl: seq<real>, w: real -> real, discardProb: real)
    requires IsWeight(w) && lkl != []
    ensures Total(lkl, w, Whole) < DiscardTarget(lkl, w, discardProb) <==> discardProb > 1.0
  {
    TotalPositive(lkl, w);
    ScaleCompare(Total(lkl, w, Whole), discardProb);
  }

  /** `prob_stop_thr` exists exactly when there is a value and `discardProb` is at most 1. */
  lemma ProbStopExists(lkl: seq<real>, w: real -> real, discardProb: real)
    requires IsWeight(w)
    ensures ProbStopThreshold(lkl, w, discardProb).Some? <==> lkl != [] && discardProb <= 1.0
  {
    TotalSort(lkl, w, Whole);
    FirstReachingNone(SortAsc(lkl), w, DiscardTarget(lkl, w, discardProb), 0.0);
    if lkl != [] {
      TargetBeyondTotal(lkl, w, discardProb);
    }
  }

  /** A share reaches `d` exactly when the selected weight reaches `d` of the total. */
  lemma ShareReaches(lkl: seq<real>, w: real -> real, p: Part, d: real)
    requires IsWeight(w) && lkl != []
    ensures Share(lkl, w, p) >= d <==> Total(lkl, w, p) >= DiscardTarget(lkl, w, d)
  {
    TotalPositive(lkl, w);
    ShareCompare(Total(lkl, w, p), Total(lkl, w, Whole), d, Share(lkl, w, p), DiscardTarget(lkl, w, d));
  }

  /** `prob_stop_thr` is one of the input values. */
  lemma ProbStopMember(lkl: seq<real>, w: real -> real, discardProb: real)
    requires ProbStopThreshold(lkl, w, discardProb).Some?
    ensures ProbStopThreshold(lkl, w, discardProb).value in lkl
  {
    var v := ProbStopThreshold(lkl, w, discardProb).value;
    FirstReachingMember(SortAsc(lkl), w, DiscardTarget(lkl, w, discardProb), 0.0);
    assert v in SortAsc(lkl);
    SortAscMembers(lkl);
  }

  /** The cumulative share at `prob_stop_thr` (the share at or below it) reaches `discardProb`. */
  lemma ProbStopReaches(lkl: seq<real>, w: real -> real, discardProb: real)
    requires IsWeight(w)
    requires ProbStopThreshold(lkl, w, discardProb).Some?
    ensures Share(lkl, w, AtMost(ProbStopThreshold(lkl, w, discardProb).value)) >= discardProb
  {
    var v := ProbStopThreshold(lkl, w, discardProb).value;
    SortAscAscending(lkl);
    FirstReachingReaches(SortAsc(lkl), w, DiscardTarget(lkl, w, discardProb), 0.0);
    TotalSort(lkl, w, AtMost(v));
    ShareReaches(lkl, w, AtMost(v), discardProb);
  }

  /** The cumulative share at every smaller input value stays below `discardProb`. */
  lemma ProbStopFirst(lkl: seq<real>, w: real -> real, discardProb: real)
    requires IsWeight(w)
    requires ProbStopThreshold(lkl, w, discardProb).Some?
    ensures forall u :: u in lkl && u < ProbStopThreshold(lkl, w, discardProb).value ==>
              Share(lkl, w, AtMost(u)) < discardProb
  {
    var v := ProbStopThreshold(lkl, w, discardProb).value;
    var asc := SortAsc(lkl);
    SortAscAscending(lkl);
    SortAscMembers(lkl);
    FirstReachingFirst(asc, w, DiscardTarget(lkl, w, discardProb), 0.0);
    forall u | u in lkl && u < v ensures Share(lkl, w, AtMost(u)) < discardProb {
      assert u in asc;
      TotalSort(lkl, w, AtMost(u));
      ShareReaches(lkl, w, AtMost(u), discardProb);
    }
  }

  /** When `discardProb` is positive, the share strictly below `prob_stop_thr` stays below it. */
  lemma ProbStopBelow(lkl: seq<real>, w: real -> real, discardProb: real)
    requires IsWeight(w)
    requires ProbStopThreshold(lkl, w, discardProb).Some?
    requires discardProb > 0.0
    ensures Share(lkl, w, Below(ProbStopThreshold(lkl, w, discardProb).value)) < discardProb
  {
    var v := ProbStopThreshold(lkl, w, discardProb).value;
    ProbStopExists(lkl, w, discardProb);
    TargetPositive(lkl, w, discardProb);
    SortAscAscending(lkl);
    FirstReachingBelow(SortAsc(lkl), w, DiscardTarget(lkl, w, discardProb), 0.0);
    TotalSort(lkl, w, Below(v));
    ShareReaches(lkl, w, Below(v), discardProb);
  }

  lemma TargetPositive(lkl: seq<real>, w: real -> real, discardProb: real)
    requires IsWeight(w) && lkl != [] && discardProb > 0.0
    ensures DiscardTarget(lkl, w, discardProb) > 0.0
  {
    TotalPositive(lkl, w);
  }

  /** In an ascending sequence at least `|s| - k` values are at or above `s[k]` and at most `|s| - 1 - k` above it. */
  lemma SortedCounts(s: seq<real>, w: real -> real, k: nat)
    requires Ascending(s) && k < |s|
    ensures Total(s, w, CountAtLeast(s[k])) >= (|s| - k) as real
    ensures Total(s, w, CountAbove(s[k])) <= (|s| - 1 - k) as real
  {
    var v := s[k];
    var low, high := s[..k], s[k..];
    assert s == low + high;
    forall i | 0 <= i < |high| ensures high[i] >= v {
      assert high[i] == s[k + i];
    }
    TotalAppend(low, high, w, CountAtLeast(v));
    TotalNonNegativeCount(low, w, v);
    CountAll(high, w, v);
    var upTo, rest := s[..k + 1], s[k + 1..];
    assert s == upTo + rest;
    forall i | 0 <= i < |upTo| ensures Contribution(w, CountAbove(v), upTo[i]) == 0.0 {
      assert upTo[i] == s[i];
    }
    TotalAppend(upTo, rest, w, CountAbove(v));
    TotalZero(upTo, w, CountAbove(v));
    CountAtMostLength(rest, w, v);
  }

  /** The same, counted from the top: the value `nsel` places below the largest. */
  lemma CountsFromTop(lkl: seq<real>, s: seq<real>, w: real -> real, nsel: nat, v: real)
    requires Ascending(s) && |s| == |lkl| > nsel && v == s[|lkl| - 1 - nsel]
    requires Total(s, w, CountAtLeast(v)) == Total(lkl, w, CountAtLeast(v))
    requires Total(s, w, CountAbove(v)) == Total(lkl, w, CountAbove(v))
    ensures Total(lkl, w, CountAtLeast(v)) >= (nsel + 1) as real
    ensures Total(lkl, w, CountAbove(v)) <= nsel as real
  {
    SortedCounts(s, w, |s| - 1 - nsel);
  }

  lemma {:induction false} TotalNonNegativeCount(s: seq<real>, w: real -> real, t: real)
    ensures Total(s, w, CountAtLeast(t)) >= 0.0
  {
    if s != [] {
      TotalNonNegativeCount(s[1..], w, t);
    }
  }

  /** `lkl_stop_thr` is one of the input values. */
  lemma OrderStopMember(lkl: seq<real>, nsel: nat)
    requires lkl != []
    ensures OrderStopThreshold(lkl, nsel) in lkl
  {
    SortAscMembers(lkl);
  }

  /**
   * With more than `nsel` values, `lkl_stop_thr` is the order statistic: at
   * least `nsel + 1` values are at or above it and at most `nsel` strictly
   * above it.
   */
  lemma OrderStopCounts(lkl: seq<real>, w: real -> real, nsel: nat)
    requires |lkl| > nsel
    ensures Total(lkl, w, CountAtLeast(OrderStopThreshold(lkl, nsel))) >= (nsel + 1) as real
    ensures Total(lkl, w, CountAbove(OrderStopThreshold(lkl, nsel))) <= nsel as real
  {
    var v := OrderStopThreshold(lkl, nsel);
    SortAscAscending(lkl);
    TotalSort(lkl, w, CountAtLeast(v));
    TotalSort(lkl, w, CountAbove(v));
    CountsFromTop(lkl, SortAsc(lkl), w, nsel, v);
  }

  /** With at most `nsel` values, `lkl_stop_thr` is the smallest value. */
  lemma OrderStopMinimum(lkl: seq<real>, nsel: nat)
    requires lkl != [] && |lkl| <= nsel
    ensures forall x :: x in lkl ==> OrderStopThreshold(lkl, nsel) <= x
  {
    var asc := SortAsc(lkl);
    SortAscAscending(lkl);
    SortAscMembers(lkl);
    forall x | x in lkl ensures asc[0] <= x {
      assert x in asc;
    }
  }

  /** The threshold exists exactly when there is a value and `discardProb` is at most 1. */
  lemma ThresholdExists(lkl: seq<real>, lklThr: real, nsel: nat, discardProb: real, w: real -> real)
    requires IsWeight(w)
    ensures GetLikelihoodThreshold(lkl, lklThr, nsel, discardProb, w).Success?
            <==> lkl != [] && discardProb <= 1.0
    ensures lkl == [] ==> GetLikelihoodThreshold(lkl, lklThr, nsel, discardProb, w) == Failure(EmptyLikelihoods)
  {
    ProbStopExists(lkl, w, discardProb);
  }

  /** The threshold is the smaller candidate, hence an input value at most both. */
  lemma ThresholdIsSmallerCandidate(lkl: seq<real>, lklThr: real, nsel: nat, discardProb: real, w: real -> real)
    requires IsWeight(w)
    requires GetLikelihoodThreshold(lkl, lklThr, nsel, discardProb, w).Success?
    ensures var thr := GetLikelihoodThreshold(lkl, lklThr, nsel, discardProb, w).value.lklThr;
      && thr in lkl
      && thr <= OrderStopThreshold(lkl, nsel)
      && thr <= ProbStopThreshold(lkl, w, discardProb).value
  {
    ProbStopMember(lkl, w, discardProb);
    OrderStopMember(lkl, nsel);
  }

  lemma CountAtLeastAntitone(s: seq<real>, w: real -> real, a: real, b: real)
    requires a <= b
    ensures Total(s, w, CountAtLeast(b)) <= Total(s, w, CountAtLeast(a))
  {
    TotalMonotone(s, w, CountAtLeast(b), CountAtLeast(a));
  }

  /**
   * With more than `nsel` values, at least `nsel + 1` of them are at or above
   * the threshold.  (The re-filter keeps only values strictly above it, so
   * ties at the threshold are dropped.)
   */
  lemma ThresholdKeepsNsel(lkl: seq<real>, lklThr: real, nsel: nat, discardProb: real, w: real -> real)
    requires IsWeight(w)
    requires GetLikelihoodThreshold(lkl, lklThr, nsel, discardProb, w).Success?
    requires |lkl| > nsel
    ensures var thr := GetLikelihoodThreshold(lkl, lklThr, nsel, discardProb, w).value.lklThr;
      Total(lkl, w, CountAtLeast(thr)) >= (nsel + 1) as real
  {
    var thr := GetLikelihoodThreshold(lkl, lklThr, nsel, discardProb, w).value.lklThr;
    ThresholdIsSmallerCandidate(lkl, lklThr, nsel, discardProb, w);
    OrderStopCounts(lkl, w, nsel);
    CountAtLeastAntitone(lkl, w, thr, OrderStopThreshold(lkl, nsel));
  }

  /** When `discardProb` is not positive, `prob_stop_thr` is the smallest input. */
  lemma ProbStopMinimum(lkl: seq<real>, w: real -> real, discardProb: real)
    requires IsWeight(w)
    requires ProbStopThreshold(lkl, w, discardProb).Some?
    requires discardProb <= 0.0
    ensures forall x :: x in lkl ==> ProbStopThreshold(lkl, w, discardProb).value <= x
  {
    ProbStopFirst(lkl, w, discardProb);
    forall x | x in lkl ensures ProbStopThreshold(lkl, w, discardProb).value <= x {
      ShareNonNegative(lkl, w, AtMost(x));
    }
  }

  lemma ShareNonNegative(lkl: seq<real>, w: real -> real, p: Part)
    requires IsWeight(w)
    ensures Share(lkl, w, p) >= 0.0
  {
    if lkl != [] {
      TotalNonNegative(lkl, w, p);
      ShareReaches(lkl, w, p, 0.0);
    }
  }

  /**
   * When `discardProb` is not positive, or there are not more than `nsel`
   * values, the threshold is the smallest input value.
   */
  lemma ThresholdIsMinimum(lkl: seq<real>, lklThr: real, nsel: nat, discardProb: real, w: real -> real)
    requires IsWeight(w)
    requires GetLikelihoodThreshold(lkl, lklThr, nsel, discardProb, w).Success?
    requires discardProb <= 0.0 || |lkl| <= nsel
    ensures var thr := GetLikelihoodThreshold(lkl, lklThr, nsel, discardProb, w).value.lklThr;
      forall x :: x in lkl ==> thr <= x
  {
    ThresholdIsSmallerCandidate(lkl, lklThr, nsel, discardProb, w);
    if discardProb <= 0.0 {
      ProbStopMinimum(lkl, w, discardProb);
    } else {
      OrderStopMinimum(lkl, nsel);
    }
  }

  lemma DivMonotone(x: real, y: real, t: real)
    requires t > 0.0 && x <= y
    ensures x / t <= y / t
  {
    var a, b := x / t, y / t;
    assert a * t == x && b * t == y;
    assert (b - a) * t == y - x;
  }

  /** A share grows with the part it selects. */
  lemma ShareMonotone(lkl: seq<real>, w: real -> real, p: Part, q: Part)
    requires IsWeight(w)
    requires forall i :: 0 <= i < |lkl| ==> Contribution(w, p, lkl[i]) <= Contribution(w, q, lkl[i])
    ensures Share(lkl, w, p) <= Share(lkl, w, q)
  {
    if lkl != [] {
      var x, y, t := Total(lkl, w, p), Total(lkl, w, q), Total(lkl, w, Whole);
      TotalMonotone(lkl, w, p, q);
      TotalPositive(lkl, w);
      assert Share(lkl, w, p) == x / t && Share(lkl, w, q) == y / t;
      DivMonotone(x, y, t);
    }
  }

  /** The share strictly below an input value is less than 1. */
  lemma ShareBelowMemberLessThanOne(lkl: seq<real>, w: real -> real, v: real)
    requires IsWeight(w) && v in lkl
    ensures Share(lkl, w, Below(v)) < 1.0
  {
    var k :| 0 <= k < |lkl| && lkl[k] == v;
    forall i | 0 <= i < |lkl| ensures Contribution(w, Below(v), lkl[i]) <= Contribution(w, Whole, lkl[i]) {
      ContributionNonNegative(w, Whole, lkl[i]);
    }
    ContributionNonNegative(w, Whole, v);
    assert w(v) > 0.0 by {
      assert IsWeight(w);
    }
    TotalStrictlyMonotone(lkl, w, Below(v), Whole, k);
    ShareReaches(lkl, w, Below(v), 1.0);
  }

  /** Nothing lies strictly below the smallest value. */
  lemma ShareBelowMinimum(lkl: seq<real>, w: real -> real, v: real)
    requires IsWeight(w)
    requires forall x :: x in lkl ==> v <= x
    ensures Share(lkl, w, Below(v)) == 0.0
  {
    forall i | 0 <= i < |lkl| ensures Contribution(w, Below(v), lkl[i]) == 0.0 {
      assert lkl[i] in lkl;
    }
    TotalZero(lkl, w, Below(v));
    TotalPositive(lkl, w);
  }

  /**
   * The truncated probability is the weight share strictly below the
   * threshold.  It lies in [0, 1), stays below `discardProb` when that is
   * positive, and is 0 when `discardProb` is not positive or when there are
   * not more than `nsel` values.
   */
  lemma ThresholdTruncation(lkl: seq<real>, lklThr: real, nsel: nat, discardProb: real, w: real -> real)
    requires IsWeight(w)
    requires GetLikelihoodThreshold(lkl, lklThr, nsel, discardProb, w).Success?
    ensures var r := GetLikelihoodThreshold(lkl, lklThr, nsel, discardProb, w).value;
      && r.truncp == Share(lkl, w, Below(r.lklThr))
      && 0.0 <= r.truncp < 1.0
      && (discardProb > 0.0 ==> r.truncp < discardProb)
      && (discardProb <= 0.0 || |lkl| <= nsel ==> r.truncp == 0.0)
  {
    var thr := GetLikelihoodThreshold(lkl, lklThr, nsel, discardProb, w).value.lklThr;
    var pst := ProbStopThreshold(lkl, w, discardProb).value;
    ThresholdIsSmallerCandidate(lkl, lklThr, nsel, discardProb, w);
    ShareNonNegative(lkl, w, Below(thr));
    ShareBelowMemberLessThanOne(lkl, w, thr);
    if discardProb > 0.0 {
      ProbStopBelow(lkl, w, discardProb);
      ShareMonotone(lkl, w, Below(thr), Below(pst));
    }
    if discardProb <= 0.0 || |lkl| <= nsel {
      ThresholdIsMinimum(lkl, lklThr, nsel, discardProb, w);
      ShareBelowMinimum(lkl, w, thr);
    }
  }

  /** Sorting by value also sorts by weight, as the source's `argsort(prob)` does. */
  lemma AscendingValuesHaveAscendingWeights(lkl: seq<real>, w: real -> real)
    requires IsWeight(w)
    ensures forall i, j :: 0 <= i < j < |lkl| ==> w(SortAsc(lkl)[i]) <= w(SortAsc(lkl)[j])
  {
    var asc := SortAsc(lkl);
    SortAscAscending(lkl);
    forall i, j | 0 <= i < j < |lkl| ensures w(asc[i]) <= w(asc[j]) {
      var a, b := asc[i], asc[j];
      if a < b {
        assert w(a) < w(b);
      }
    }
  }
}
