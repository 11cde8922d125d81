/** The empirical highest-density interval of a posterior sample
    (`calculate_hdi_range` in best/utils.py).

    The sample is sorted, a window size `k = floor(credMass * n)` is fixed,
    every window of `k + 1` consecutive sorted draws is measured from its
    first to its last draw, and the first narrowest window gives the
    interval. Draws are modelled as reals: the computation only compares and
    subtracts them. */
module Utils {
  import opened Sorting

  /** Why no interval is returned: the sample is empty (the assertion at the
      head of the function), or no window of the requested size fits in it
      (NumPy refuses to take the argmin of an empty array of widths). */
  datatype Error = NoData | NoWindow

  datatype Result<T> = Ok(value: T) | Err(error: Error)

  /** The pair `(hdi_min, hdi_max)`. */
  datatype Interval = Interval(low: real, high: real)

  /** The credibility mass used when the caller gives none. */
  const DefaultCredMass: real := 0.95

  /** Number of sorted positions from the first to the last draw of a
      window: the largest integer not above `credMass * n`. A window fits in
      a non-empty sample exactly when the mass is below 1. */
  function WindowSize(credMass: real, n: nat): (k: int)
    ensures k as real <= credMass * n as real < k as real + 1.0
    ensures 0.0 <= credMass ==> 0 <= k
    ensures 0.0 <= credMass && n > 0 ==> (k < n <==> credMass < 1.0)
  {
    var x := credMass * n as real;
    assert 0.0 <= credMass ==> 0.0 <= x;
    if 0.0 <= credMass && n > 0 then
      FloorBelowCount(credMass, n);
      x.Floor
    else
      x.Floor
  }

  lemma FloorBelowCount(credMass: real, n: nat)
    requires 0.0 <= credMass && n > 0
    ensures (credMass * n as real).Floor < n <==> credMass < 1.0
  {
    var x := credMass * n as real;
    assert x - n as real == (credMass - 1.0) * n as real;
    if credMass < 1.0 {
      assert (credMass - 1.0) * n as real < 0.0;
    } else {
      assert (credMass - 1.0) * n as real >= 0.0 * n as real;
      assert n as real <= x < x.Floor as real + 1.0;
    }
  }

  /** Width of the window that starts at sorted position `i`. */
  function Width(t: seq<real>, i: int, k: nat): real
    requires 0 <= i && i + k < |t|
  {
    t[i + k] - t[i]
  }

  /** The widths of all windows, as NumPy computes them: the sorted sample
      without its first `k` draws minus the sorted sample without its last
      `k` draws, element by element. */
  function Widths(t: seq<real>, k: nat): (w: seq<real>)
    requires k <= |t|
    ensures |w| == |t| - k
    ensures forall i :: 0 <= i < |w| ==> w[i] == Width(t, i, k)
    ensures Sorted(t) ==> forall i :: 0 <= i < |w| ==> w[i] >= 0.0
  {
    var upper, lower := t[k..], t[..|t| - k];
    seq(|t| - k, i requires 0 <= i < |t| - k => upper[i] - lower[i])
  }

  /** `m` is where `np.argmin` stops: a least element, and the first one. */
  predicate IsFirstMin(w: seq<real>, m: int) {
    && 0 <= m < |w|
    && (forall j :: 0 <= j < |w| ==> w[m] <= w[j])
    && (forall j :: 0 <= j < m ==> w[m] < w[j])
  }

  /** The index `np.argmin` returns, scanning from the left and keeping the
      earlier index when a later element only ties. */
  function ArgMin(w: seq<real>): (m: nat)
    requires |w| > 0
    ensures IsFirstMin(w, m)
  {
    if |w| == 1 then
      0
    else
      var m := ArgMin(w[..|w| - 1]);
      if w[|w| - 1] < w[m] then |w| - 1 else m
  }

  /** The window starting at `i` is the narrowest of the sorted sample, and
      every window to its left is strictly wider. */
  predicate IsHdiStart(t: seq<real>, k: nat, i: int) {
    && 0 <= i && i + k < |t|
    && (forall j :: 0 <= j && j + k < |t| ==> Width(t, i, k) <= Width(t, j, k))
    && (forall j :: 0 <= j < i ==> Width(t, i, k) < Width(t, j, k))
  }

  /** The interval from the first to the last draw of the window that
      starts at sorted position `i`. */
  function Window(t: seq<real>, k: nat, i: int): Interval
    requires 0 <= i && i + k < |t|
  {
    Interval(t[i], t[i + k])
  }

  /** `iv` spans the first narrowest window of `k + 1` sorted draws: such a
      window exists, and whichever window is the first narrowest, `iv` is
      its span. */
  ghost predicate IsHdi(t: seq<real>, k: nat, iv: Interval) {
    && (exists i :: IsHdiStart(t, k, i) && iv == Window(t, k, i))
    && (forall i :: IsHdiStart(t, k, i) ==> iv == Window(t, k, i))
  }

  /** At most one window is the first narrowest one. */
  lemma HdiStartUnique(t: seq<real>, k: nat, i: int)
    requires IsHdiStart(t, k, i)
    ensures forall j :: IsHdiStart(t, k, j) ==> j == i
  {
    forall j | IsHdiStart(t, k, j) ensures j == i {
      assert Width(t, i, k) == Width(t, j, k);
    }
  }

  /** The start of the first narrowest window: `np.argmin` over the widths. */
  function HdiStart(t: seq<real>, k: nat): (i: nat)
    requires k < |t|
    ensures IsHdiStart(t, k, i)
  {
    ArgMin(Widths(t, k))
  }

  /** The highest-density interval of `sample` for the credibility mass
      `credMass`. */
  function CalculateHdiRange(sample: seq<real>, credMass: real): (r: Result<Interval>)
    requires 0.0 <= credMass
    ensures r == Err(NoData) <==> sample == []
    ensures r == Err(NoWindow) <==> sample != [] && 1.0 <= credMass
    ensures r.Ok? ==> r.value.low <= r.value.high
    ensures r.Ok? ==> r.value.low in sample && r.value.high in sample
    ensures r.Ok? ==> IsHdi(Sort(sample), WindowSize(credMass, |sample|), r.value)
  {
    if sample == [] then
      Err(NoData)
    else
      var t := Sort(sample);
      assert |t| == |sample| && (forall x :: x in t <==> x in sample) by { SortKeepsElements(sample); }
      var k := WindowSize(credMass, |t|);
      if k >= |t| then
        Err(NoWindow)
      else
        var i := HdiStart(t, k);
        HdiStartUnique(t, k, i);
        Ok(Window(t, k, i))
  }
}
