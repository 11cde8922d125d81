/** What the highest-density interval of best/utils.py promises beyond a
    single call: how many draws it holds, that no range holding as many is
    narrower, how it moves with the credibility mass, that it ignores the
    order of the draws, and the values it takes on a few samples. */
module HdiProperties {
  import opened Sorting
  import opened Utils

  /** The interval holds at least `k + 1` draws of the sample. */
  lemma HdiCoverage(sample: seq<real>, credMass: real)
    requires 0.0 <= credMass
    requires CalculateHdiRange(sample, credMass).Ok?
    ensures var iv := CalculateHdiRange(sample, credMass).value;
            CountIn(sample, iv.low, iv.high) >= WindowSize(credMass, |sample|) + 1
  {
    var iv := CalculateHdiRange(sample, credMass).value;
    var t, k := Sort(sample), WindowSize(credMass, |sample|);
    var i := HdiStart(t, k);
    CountInSortedStretch(t, i, k);
    CountInPermutation(sample, t, iv.low, iv.high);
  }

  /** No closed range holding `k + 1` or more draws of the sample is
      narrower than the interval: together with HdiCoverage, the interval is
      a shortest range that holds `k + 1` draws. */
  lemma HdiIsShortest(sample: seq<real>, credMass: real, lo: real, hi: real)
    requires 0.0 <= credMass
    requires CalculateHdiRange(sample, credMass).Ok?
    requires CountIn(sample, lo, hi) >= WindowSize(credMass, |sample|) + 1
    ensures var iv := CalculateHdiRange(sample, credMass).value;
            iv.high - iv.low <= hi - lo
  {
    var iv := CalculateHdiRange(sample, credMass).value;
    var t, k := Sort(sample), WindowSize(credMass, |sample|);
    var i := HdiStart(t, k);
    CountInPermutation(sample, t, lo, hi);
    StartIsShortest(t, k, i, lo, hi);
  }

  lemma StartIsShortest(t: seq<real>, k: nat, i: int, lo: real, hi: real)
    requires Sorted(t) && IsHdiStart(t, k, i)
    requires CountIn(t, lo, hi) >= k + 1
    ensures Width(t, i, k) <= hi - lo
  {
    CountInHoldsStretch(t, lo, hi, k);
    var p :| 0 <= p && p + k < |t| && lo <= t[p] && t[p + k] <= hi;
    assert Width(t, i, k) <= Width(t, p, k);
  }

  /** A larger credibility mass never gives a narrower interval. */
  lemma HdiWidthMonotone(sample: seq<real>, smaller: real, larger: real)
    requires 0.0 <= smaller <= larger
    requires CalculateHdiRange(sample, larger).Ok?
    ensures CalculateHdiRange(sample, smaller).Ok?
    ensures var a, b := CalculateHdiRange(sample, smaller).value, CalculateHdiRange(sample, larger).value;
            a.high - a.low <= b.high - b.low
  {
    var n := |sample|;
    var a, b := CalculateHdiRange(sample, smaller), CalculateHdiRange(sample, larger);
    assert a.Ok?;
    var t := Sort(sample);
    var k1, k2 := WindowSize(smaller, n), WindowSize(larger, n);
    WindowSizeMonotone(smaller, larger, n);
    StartMonotone(t, k1, k2, HdiStart(t, k1), HdiStart(t, k2));
  }

  lemma WindowSizeMonotone(smaller: real, larger: real, n: nat)
    requires smaller <= larger
    ensures WindowSize(smaller, n) <= WindowSize(larger, n)
  {
    assert (larger - smaller) * n as real >= 0.0;
  }

  lemma StartMonotone(t: seq<real>, k1: nat, k2: nat, i1: int, i2: int)
    requires Sorted(t) && k1 <= k2
    requires IsHdiStart(t, k1, i1) && IsHdiStart(t, k2, i2)
    ensures Width(t, i1, k1) <= Width(t, i2, k2)
  {
    assert Width(t, i1, k1) <= Width(t, i2, k1);
  }

  /** When the mass selects windows of a single draw, the interval collapses
      onto the least draw of the sample. */
  lemma HdiOfZeroWindow(sample: seq<real>, credMass: real)
    requires sample != [] && 0.0 <= credMass
    requires credMass * |sample| as real < 1.0
    ensures var r := CalculateHdiRange(sample, credMass);
            && r.Ok?
            && r.value.low == r.value.high
            && forall x :: x in sample ==> r.value.low <= x
  {
    var t := Sort(sample);
    assert WindowSize(credMass, |sample|) == 0;
    assert IsHdiStart(t, 0, 0);
    SortKeepsElements(sample);
    forall x | x in sample ensures t[0] <= x {
      assert x in t;
    }
  }

  /** A single draw with the default mass gives the interval [x, x]. */
  lemma HdiOfSingleDraw(x: real)
    ensures CalculateHdiRange([x], DefaultCredMass) == Ok(Interval(x, x))
  {
    HdiOfZeroWindow([x], DefaultCredMass);
  }

  /** The interval depends on which draws the sample holds, not on the order
      in which the sampler produced them. */
  lemma HdiIgnoresOrder(a: seq<real>, b: seq<real>, credMass: real)
    requires 0.0 <= credMass
    requires multiset(a) == multiset(b)
    ensures CalculateHdiRange(a, credMass) == CalculateHdiRange(b, credMass)
  {
    SortedUnique(Sort(a), Sort(b));
    assert |a| == |multiset(a)| == |multiset(b)| == |b|;
  }

  /** When the mass leaves room for a single window, the interval runs from
      the least draw of the sample to the largest. */
  lemma HdiOfSingleWindow(sample: seq<real>, credMass: real)
    requires 0.0 <= credMass < 1.0 && sample != []
    requires WindowSize(credMass, |sample|) == |sample| - 1
    ensures var r := CalculateHdiRange(sample, credMass);
            && r.Ok?
            && (forall x :: x in sample ==> r.value.low <= x <= r.value.high)
  {
    var t, k := Sort(sample), WindowSize(credMass, |sample|);
    SortKeepsElements(sample);
    assert IsHdiStart(t, k, 0);
    forall x | x in sample ensures t[0] <= x <= t[k] {
      assert x in t;
    }
  }

  /** Ten draws around 100, in whatever order the sampler produced them,
      with the default mass leave room for a single window, so the interval
      runs from 98 to 103. */
  lemma HdiOfTenDraws(sample: seq<real>)
    requires multiset(sample)
             == multiset{100.0, 101.0, 99.0, 102.0, 98.0, 100.0, 101.0, 99.0, 100.0, 103.0}
    ensures CalculateHdiRange(sample, DefaultCredMass) == Ok(Interval(98.0, 103.0))
  {
    assert |sample| == 10 by {
      assert |multiset(sample)| == 10;
    }
    assert WindowSize(DefaultCredMass, 10) == 9;
    TenDrawsSpan(sample);
    HdiOfSingleWindow(sample, DefaultCredMass);
    var r := CalculateHdiRange(sample, DefaultCredMass);
    assert 98.0 <= r.value.low <= 98.0 && 103.0 <= r.value.high <= 103.0;
    assert r == Ok(Interval(r.value.low, r.value.high));
  }

  lemma TenDrawsSpan(sample: seq<real>)
    requires multiset(sample)
             == multiset{100.0, 101.0, 99.0, 102.0, 98.0, 100.0, 101.0, 99.0, 100.0, 103.0}
    ensures 98.0 in sample && 103.0 in sample
    ensures forall x :: x in sample ==> 98.0 <= x <= 103.0
  {
    assert 98.0 in multiset(sample) && 103.0 in multiset(sample);
    forall x | x in sample ensures 98.0 <= x <= 103.0 {
      assert x in multiset(sample);
    }
  }
}
