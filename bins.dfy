/**
 * The hypercube bins of the VARAHA integrator: drawing points inside a set of
 * bins (`sample_from_bins`), assigning points to bins (`astype(int)` of the
 * scaled offset), collapsing the assignment to the occupied bins
 * (`np.unique`) and spreading the next batch over them (`ninbin`).
 */
module Bins {

  /** One row of `my_ranges`: the prior range `[llim, rlim]` of one parameter. */
  datatype Interval = Interval(lo: real, hi: real)

  /** A bin is one integer index per dimension. */
  type Bin = seq<int>

  /** Lower edge of bin index `b` along a dimension: `lo + dx * b`. */
  function Lower(r: Interval, dx: real, b: int): real
  {
    r.lo + dx * (b as real)
  }

  /** Upper edge of bin index `b` along a dimension: `lo + dx * (b + 1)`. */
  function Upper(r: Interval, dx: real, b: int): real
  {
    r.lo + dx * (b as real + 1.0)
  }

  /** The bin's box along every dimension, half-open as `np.random.uniform` draws. */
  predicate InBox(x: seq<real>, ranges: seq<Interval>, dx: seq<real>, bin: Bin)
    requires |dx| == |ranges| == |bin|
  {
    |x| == |ranges| &&
    forall d :: 0 <= d < |x| ==> Lower(ranges[d], dx[d], bin[d]) <= x[d] < Upper(ranges[d], dx[d], bin[d])
  }

  function Sum(s: seq<nat>): nat
  {
    if s == [] then 0 else s[0] + Sum(s[1..])
  }

  // ---------------------------------------------------------------------------
  // sample_from_bins
  // ---------------------------------------------------------------------------

  /**
   * `np.random.uniform(lo, hi)`: `lo + (hi - lo) * u` for a standard uniform
   * variate `u` in [0, 1).  The variates themselves are an input of the model.
   */
  function Uniform(lo: real, hi: real, u: real): real
  {
    lo + (hi - lo) * u
  }

  lemma UniformInRange(lo: real, hi: real, u: real)
    requires lo < hi && 0.0 <= u < 1.0
    ensures lo <= Uniform(lo, hi, u) < hi
  {
    UniformWithin(lo, hi - lo, u);
    assert lo + (hi - lo) == hi;
  }

  /** The same bound with the range given by its lower end and its width. */
  lemma UniformWithin(lo: real, width: real, u: real)
    requires width > 0.0 && 0.0 <= u < 1.0
    ensures lo <= Uniform(lo, lo + width, u) < lo + width
  {
    assert width - width * u == width * (1.0 - u);
  }

  /** A standard uniform variate for every dimension of every drawn point. */
  predicate AreVariates(us: seq<seq<real>>, ndim: nat)
  {
    forall r :: 0 <= r < |us| ==> |us[r]| == ndim && forall d :: 0 <= d < ndim ==> 0.0 <= us[r][d] < 1.0
  }

  /** One point of a bin: one uniform draw per dimension inside the bin's edges. */
  function DrawPoint(ranges: seq<Interval>, dx: seq<real>, bin: Bin, u: seq<real>): (x: seq<real>)
    requires |dx| == |ranges| == |bin| == |u|
    ensures |x| == |ranges|
  {
    seq(|ranges|, d requires 0 <= d < |ranges| =>
      Uniform(Lower(ranges[d], dx[d], bin[d]), Upper(ranges[d], dx[d], bin[d]), u[d]))
  }

  /** The `size = (npb, ndim)` block of one bin. */
  function DrawBlock(ranges: seq<Interval>, dx: seq<real>, bin: Bin, us: seq<seq<real>>): (xs: seq<seq<real>>)
    requires |dx| == |ranges| == |bin|
    requires forall r :: 0 <= r < |us| ==> |us[r]| == |ranges|
    ensures |xs| == |us|
  {
    seq(|us|, r requires 0 <= r < |us| => DrawPoint(ranges, dx, bin, us[r]))
  }

  /** Bins are well formed: one index per dimension. */
  predicate BinsFit(bins: seq<Bin>, ndim: nat)
  {
    forall k :: 0 <= k < |bins| ==> |bins[k]| == ndim
  }

  /**
   * `sample_from_bins(xrange, dx, bu, ninbin)`: `ninbin[k]` points in bin
   * `bu[k]`, stacked bin after bin (`np.vstack` over `enumerate(ninbin)`),
   * drawn from the variates `us` in order.
   */
  function SampleFromBins(ranges: seq<Interval>, dx: seq<real>, bins: seq<Bin>, ninbin: seq<nat>,
                          us: seq<seq<real>>): (x: seq<seq<real>>)
    requires |dx| == |ranges| && BinsFit(bins, |ranges|)
    requires |ninbin| <= |bins|  // `xlo[kk]` for every `kk` of `enumerate(ninbin)`
    requires |us| == Sum(ninbin) && AreVariates(us, |ranges|)
    ensures |x| == Sum(ninbin)
    decreases |ninbin|
  {
    if ninbin == [] then []
    else
      DrawBlock(ranges, dx, bins[0], us[..ninbin[0]])
      + SampleFromBins(ranges, dx, bins[1..], ninbin[1..], us[ninbin[0]..])
  }

  /** Every point of a block lies in the block's bin. */
  lemma DrawBlockInBox(ranges: seq<Interval>, dx: seq<real>, bin: Bin, us: seq<seq<real>>)
    requires |dx| == |ranges| == |bin|
    requires forall d :: 0 <= d < |dx| ==> dx[d] > 0.0
    requires AreVariates(us, |ranges|)
    ensures forall j :: 0 <= j < |us| ==> InBox(DrawBlock(ranges, dx, bin, us)[j], ranges, dx, bin)
  {
    forall j | 0 <= j < |us| ensures InBox(DrawBlock(ranges, dx, bin, us)[j], ranges, dx, bin) {
      var x := DrawBlock(ranges, dx, bin, us)[j];
      forall d | 0 <= d < |x|
        ensures Lower(ranges[d], dx[d], bin[d]) <= x[d] < Upper(ranges[d], dx[d], bin[d])
      {
        EdgesOrdered(ranges[d], dx[d], bin[d]);
        UniformInRange(Lower(ranges[d], dx[d], bin[d]), Upper(ranges[d], dx[d], bin[d]), us[j][d]);
      }
    }
  }

  /** A bin's upper edge lies `dx` above its lower edge. */
  lemma EdgesOrdered(r: Interval, dx: real, b: int)
    requires dx > 0.0
    ensures Upper(r, dx, b) - Lower(r, dx, b) == dx
    ensures Lower(r, dx, b) < Upper(r, dx, b)
  {
    assert dx * (b as real + 1.0) == dx * (b as real) + dx;
  }

  /** The row where the points of bin `k` start: `sum(ninbin[:k])`. */
  function Offset(ninbin: seq<nat>, k: nat): nat
    requires k <= |ninbin|
  {
    Sum(ninbin[..k])
  }

  lemma OffsetStep(ninbin: seq<nat>, k: nat)
    requires 0 < k <= |ninbin|
    ensures Offset(ninbin, k) == ninbin[0] + Offset(ninbin[1..], k - 1)
  {
    assert ninbin[..k] == [ninbin[0]] + ninbin[1..][..k - 1];
    assert ninbin[..k][1..] == ninbin[1..][..k - 1];
  }

  lemma OffsetBound(ninbin: seq<nat>, k: nat)
    requires k < |ninbin|
    ensures Offset(ninbin, k) + ninbin[k] <= Sum(ninbin)
  {
    if k > 0 {
      OffsetStep(ninbin, k);
      OffsetBound(ninbin[1..], k - 1);
    }
  }

  /**
   * Row `r` of the draw, taken from the rows `sum(ninbin[:k])` up to
   * `sum(ninbin[:k+1])`, is a point of bin `bu[k]` and lies inside its box.
   */
  lemma {:induction false} SampleFromBinsRowInBox(ranges: seq<Interval>, dx: seq<real>, bins: seq<Bin>,
                                                 ninbin: seq<nat>, us: seq<seq<real>>, k: nat, r: nat)
    requires |dx| == |ranges| && BinsFit(bins, |ranges|)
    requires |ninbin| <= |bins|
    requires |us| == Sum(ninbin) && AreVariates(us, |ranges|)
    requires forall d :: 0 <= d < |dx| ==> dx[d] > 0.0
    requires k < |ninbin| && Offset(ninbin, k) <= r < Offset(ninbin, k) + ninbin[k]
    ensures r < Sum(ninbin)
    ensures InBox(SampleFromBins(ranges, dx, bins, ninbin, us)[r], ranges, dx, bins[k])
    decreases |ninbin|
  {
    OffsetBound(ninbin, k);
    var x := SampleFromBins(ranges, dx, bins, ninbin, us);
    var block := DrawBlock(ranges, dx, bins[0], us[..ninbin[0]]);
    var rest := SampleFromBins(ranges, dx, bins[1..], ninbin[1..], us[ninbin[0]..]);
    assert x == block + rest;
    if k == 0 {
      assert Offset(ninbin, 0) == 0 by {
        assert ninbin[..0] == [];
      }
      DrawBlockInBox(ranges, dx, bins[0], us[..ninbin[0]]);
      assert x[r] == block[r];
    } else {
      OffsetStep(ninbin, k);
      assert ninbin[1..][k - 1] == ninbin[k] && bins[1..][k - 1] == bins[k];
      SampleFromBinsRowInBox(ranges, dx, bins[1..], ninbin[1..], us[ninbin[0]..], k - 1, r - ninbin[0]);
      assert x[r] == rest[r - ninbin[0]];
    }
  }

  /** Every row of the draw belongs to the block of some bin. */
  lemma {:induction false} RowBin(ninbin: seq<nat>, r: nat) returns (k: nat)
    requires r < Sum(ninbin)
    ensures k < |ninbin| && Offset(ninbin, k) <= r < Offset(ninbin, k) + ninbin[k]
  {
    if r < ninbin[0] {
      k := 0;
      assert ninbin[..0] == [];
    } else {
      var k' := RowBin(ninbin[1..], r - ninbin[0]);
      k := k' + 1;
      OffsetStep(ninbin, k);
    }
  }

  /**
   * When every bin has non-negative indices, every drawn point lies at or above
   * the lower ends of the ranges.
   */
  lemma SampleAboveLower(ranges: seq<Interval>, dx: seq<real>, bins: seq<Bin>, ninbin: seq<nat>,
                         us: seq<seq<real>>)
    requires |dx| == |ranges| && BinsFit(bins, |ranges|)
    requires |ninbin| <= |bins|
    requires |us| == Sum(ninbin) && AreVariates(us, |ranges|)
    requires forall d :: 0 <= d < |dx| ==> dx[d] > 0.0
    requires forall k :: 0 <= k < |bins| ==> NonNegative(bins[k])
    ensures forall r :: 0 <= r < Sum(ninbin) ==>
              |SampleFromBins(ranges, dx, bins, ninbin, us)[r]| == |ranges| &&
              AboveLower(SampleFromBins(ranges, dx, bins, ninbin, us)[r], ranges)
  {
    var x := SampleFromBins(ranges, dx, bins, ninbin, us);
    forall r | 0 <= r < Sum(ninbin)
      ensures |x[r]| == |ranges| && AboveLower(x[r], ranges)
    {
      var k := RowBin(ninbin, r);
      SampleFromBinsRowInBox(ranges, dx, bins, ninbin, us, k, r);
      BoxAboveLower(x[r], ranges, dx, bins[k]);
    }
  }

  // ---------------------------------------------------------------------------
  // Bin assignment: `((allx - lo) / dx).astype(int)`
  // ---------------------------------------------------------------------------

  /**
   * `astype(int)` of a real: truncation toward zero, the integer of the same
   * sign nearest to zero within one unit of `q`.
   */
  function Trunc(q: real): (n: int)
    ensures q >= 0.0 ==> 0 <= n && n as real <= q < n as real + 1.0
    ensures q < 0.0 ==> n <= 0 && n as real - 1.0 < q <= n as real
  {
    if q >= 0.0 then q.Floor else -((-q).Floor)
  }

  /** The bin index of one point: per dimension the truncated offset in bin widths. */
  function BinIndex(x: seq<real>, ranges: seq<Interval>, dx: seq<real>): (b: Bin)
    requires |x| == |ranges| == |dx|
    requires forall d :: 0 <= d < |dx| ==> dx[d] != 0.0
    ensures |b| == |x|
  {
    seq(|x|, d requires 0 <= d < |x| => Trunc((x[d] - ranges[d].lo) / dx[d]))
  }

  /** The bin indices of all rows of a sample. */
  function BinIndices(xs: seq<seq<real>>, ranges: seq<Interval>, dx: seq<real>): (bs: seq<Bin>)
    requires |dx| == |ranges|
    requires forall j :: 0 <= j < |xs| ==> |xs[j]| == |ranges|
    requires forall d :: 0 <= d < |dx| ==> dx[d] != 0.0
    ensures |bs| == |xs| && BinsFit(bs, |ranges|)
  {
    seq(|xs|, j requires 0 <= j < |xs| => BinIndex(xs[j], ranges, dx))
  }

  /** A point lies above the lower end of the range in every dimension. */
  predicate AboveLower(x: seq<real>, ranges: seq<Interval>)
    requires |x| == |ranges|
  {
    forall d :: 0 <= d < |x| ==> ranges[d].lo <= x[d]
  }

  /** Bin indices are non-negative in every dimension. */
  predicate NonNegative(bin: Bin)
  {
    forall d :: 0 <= d < |bin| ==> bin[d] >= 0
  }

  /**
   * Along one dimension, a coordinate at or above the range's lower end has a
   * non-negative index and lies in the half-open slab of that index.
   */
  lemma SlabOfIndex(r: Interval, dx: real, x: real)
    requires dx > 0.0 && r.lo <= x
    ensures Trunc((x - r.lo) / dx) >= 0
    ensures Lower(r, dx, Trunc((x - r.lo) / dx)) <= x < Upper(r, dx, Trunc((x - r.lo) / dx))
  {
    FloorSlab(x - r.lo, dx, Trunc((x - r.lo) / dx));
  }

  /** `dx * floor(t / dx) <= t < dx * (floor(t / dx) + 1)` for `t >= 0`. */
  lemma FloorSlab(t: real, dx: real, f: int)
    requires dx > 0.0 && t >= 0.0 && f == (t / dx).Floor
    ensures f >= 0
    ensures dx * (f as real) <= t < dx * (f as real + 1.0)
  {
    var q := t / dx;
    var g := f as real;
    assert dx * (q - g) >= 0.0;
    assert q < g + 1.0;
    var e := g + 1.0 - q;
    assert e > 0.0;
    assert dx * e > 0.0;
    assert t == dx * q;
    assert dx * (g + 1.0) == dx * q + dx * e;
    assert t < dx * (g + 1.0);
  }

  /** Every point at or above the lower ends lies in the box of its own bin index. */
  lemma PointInOwnBin(x: seq<real>, ranges: seq<Interval>, dx: seq<real>)
    requires |x| == |ranges| == |dx|
    requires forall d :: 0 <= d < |dx| ==> dx[d] > 0.0
    requires AboveLower(x, ranges)
    ensures NonNegative(BinIndex(x, ranges, dx))
    ensures InBox(x, ranges, dx, BinIndex(x, ranges, dx))
  {
    var b := BinIndex(x, ranges, dx);
    forall d | 0 <= d < |x|
      ensures b[d] >= 0
      ensures Lower(ranges[d], dx[d], b[d]) <= x[d] < Upper(ranges[d], dx[d], b[d])
    {
      SlabOfIndex(ranges[d], dx[d], x[d]);
    }
  }

  /** A bin with non-negative indices starts at or above the lower ends. */
  lemma BoxAboveLower(x: seq<real>, ranges: seq<Interval>, dx: seq<real>, bin: Bin)
    requires |dx| == |ranges| == |bin|
    requires forall d :: 0 <= d < |dx| ==> dx[d] > 0.0
    requires NonNegative(bin) && InBox(x, ranges, dx, bin)
    ensures AboveLower(x, ranges)
  {
    forall d | 0 <= d < |x|
      ensures ranges[d].lo <= x[d]
    {
      assert dx[d] * (bin[d] as real) >= 0.0;
    }
  }

  // ---------------------------------------------------------------------------
  // `np.unique(binidx, axis = 0)`: the distinct rows in lexicographic order
  // ---------------------------------------------------------------------------

  /** Lexicographic order of equal-length index rows, as `np.unique` sorts them. */
  predicate LexLess(a: Bin, b: Bin)
    requires |a| == |b|
  {
    a != [] && (a[0] < b[0] || (a[0] == b[0] && LexLess(a[1..], b[1..])))
  }

  lemma {:induction false} LexLessIrreflexive(a: Bin)
    ensures !LexLess(a, a)
  {
    if a != [] {
      LexLessIrreflexive(a[1..]);
    }
  }

  lemma {:induction false} LexLessTransitive(a: Bin, b: Bin, c: Bin)
    requires |a| == |b| == |c|
    requires LexLess(a, b) && LexLess(b, c)
    ensures LexLess(a, c)
  {
    if a[0] == b[0] && b[0] == c[0] {
      LexLessTransitive(a[1..], b[1..], c[1..]);
    }
  }

  lemma {:induction false} LexLessTotal(a: Bin, b: Bin)
    requires |a| == |b| && a != b
    ensures LexLess(a, b) || LexLess(b, a)
  {
    if a[0] == b[0] {
      assert a == [a[0]] + a[1..] && b == [b[0]] + b[1..];
      LexLessTotal(a[1..], b[1..]);
    }
  }

  /** Rows in strictly increasing lexicographic order (hence distinct). */
  predicate StrictlySorted(s: seq<Bin>, ndim: nat)
    requires BinsFit(s, ndim)
  {
    forall i, j :: 0 <= i < j < |s| ==> LexLess(s[i], s[j])
  }

  /** Add one row to a strictly sorted list of rows unless it is already there. */
  function InsertUnique(x: Bin, s: seq<Bin>): (r: seq<Bin>)
    ensures |r| <= |s| + 1
    ensures forall y :: y in r <==> y == x || y in s
  {
    if s == [] then [x]
    else if x == s[0] then s
    else if |x| == |s[0]| && LexLess(x, s[0]) then [x] + s
    else [s[0]] + InsertUnique(x, s[1..])
  }

  lemma {:induction false} InsertUniqueSorted(x: Bin, s: seq<Bin>, ndim: nat)
    requires |x| == ndim && BinsFit(s, ndim) && StrictlySorted(s, ndim)
    ensures BinsFit(InsertUnique(x, s), ndim) && StrictlySorted(InsertUnique(x, s), ndim)
  {
    var r := InsertUnique(x, s);
    if s == [] || x == s[0] {
    } else if LexLess(x, s[0]) {
      forall i, j | 0 <= i < j < |r|
        ensures LexLess(r[i], r[j])
      {
        if i == 0 && j > 1 {
          LexLessTransitive(x, s[0], s[j - 1]);
        }
      }
    } else {
      LexLessTotal(x, s[0]);
      var t := InsertUnique(x, s[1..]);
      InsertUniqueSorted(x, s[1..], ndim);
      assert r == [s[0]] + t;
      forall i, j | 0 <= i < j < |r|
        ensures LexLess(r[i], r[j])
      {
        if i == 0 {
          assert r[j] in t;
          assert r[j] == x || r[j] in s[1..];
        }
      }
    }
  }

  /** `np.unique(rows, axis = 0)`. */
  function UniqueRows(rows: seq<Bin>): (u: seq<Bin>)
    ensures |u| <= |rows|
    ensures forall y :: y in u <==> y in rows
  {
    if rows == [] then [] else InsertUnique(rows[|rows| - 1], UniqueRows(rows[..|rows| - 1]))
  }

  lemma {:induction false} UniqueRowsSorted(rows: seq<Bin>, ndim: nat)
    requires BinsFit(rows, ndim)
    ensures BinsFit(UniqueRows(rows), ndim) && StrictlySorted(UniqueRows(rows), ndim)
  {
    if rows != [] {
      var init := rows[..|rows| - 1];
      UniqueRowsSorted(init, ndim);
      InsertUniqueSorted(rows[|rows| - 1], UniqueRows(init), ndim);
    }
  }

  /** Strictly sorted rows are pairwise distinct. */
  lemma SortedDistinct(s: seq<Bin>, ndim: nat)
    requires BinsFit(s, ndim) && StrictlySorted(s, ndim)
    ensures forall i, j :: 0 <= i < j < |s| ==> s[i] != s[j]
  {
    forall i, j | 0 <= i < j < |s|
      ensures s[i] != s[j]
    {
      LexLessIrreflexive(s[i]);
    }
  }

  /** A sample that is not empty occupies at least one bin. */
  lemma UniqueRowsNonEmpty(rows: seq<Bin>)
    requires rows != []
    ensures UniqueRows(rows) != []
  {
    assert rows[0] in UniqueRows(rows);
  }

  // ---------------------------------------------------------------------------
  // `ninbin = (n_chunk // nunique + 1) * ones(nunique)`
  // ---------------------------------------------------------------------------

  /** The draw quota of each of the `nunique` occupied bins. */
  function Quotas(nChunk: nat, nunique: nat): (q: seq<nat>)
    requires nunique > 0
    ensures |q| == nunique
  {
    seq(nunique, _ => nChunk / nunique + 1)
  }

  lemma {:induction false} SumConstant(s: seq<nat>, c: nat)
    requires forall k :: 0 <= k < |s| ==> s[k] == c
    ensures Sum(s) == |s| * c
  {
    if s != [] {
      SumConstant(s[1..], c);
    }
  }

  /**
   * Every occupied bin gets at least one draw, and the next batch has between
   * `n_chunk + 1` and `n_chunk + nunique` points.
   */
  lemma QuotasBounds(nChunk: nat, nunique: nat)
    requires nunique > 0
    ensures forall k :: 0 <= k < nunique ==> Quotas(nChunk, nunique)[k] >= 1
    ensures nChunk + 1 <= Sum(Quotas(nChunk, nunique)) <= nChunk + nunique
  {
    var q := nChunk / nunique;
    SumConstant(Quotas(nChunk, nunique), q + 1);
    assert nChunk == nunique * q + nChunk % nunique;
    assert nunique * (q + 1) == nunique * q + nunique;
  }
}
