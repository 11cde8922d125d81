/** The sorted copy of a sample that `np.sort` returns, as a value: what it
    means for a sequence of draws to be sorted, an insertion sort that yields
    a sorted permutation of its input, the fact that the sorted permutation
    of a sample is unique, and how many draws of a sample lie in a closed
    range (a count that does not depend on the order of the draws). */
module Sorting {

  /** Ascending order, as `np.sort` leaves its copy. */
  predicate Sorted(s: seq<real>) {
    forall i, j :: 0 <= i <= j < |s| ==> s[i] <= s[j]
  }

  /** Puts `x` at its place in an already sorted sequence. */
  function Insert(x: real, s: seq<real>): (r: seq<real>)
    requires Sorted(s)
    ensures Sorted(r)
    ensures multiset(r) == multiset(s) + multiset{x}
    ensures |r| == |s| + 1
  {
    if s == [] || x <= s[0] then
      [x] + s
    else
      var rest := Insert(x, s[1..]);
      assert s == [s[0]] + s[1..];
      assert forall j :: 0 <= j < |rest| ==> s[0] <= rest[j] by {
        forall j | 0 <= j < |rest| ensures s[0] <= rest[j] {
          assert rest[j] in multiset(rest);
          assert rest[j] == x || rest[j] in multiset(s[1..]);
        }
      }
      [s[0]] + rest
  }

  /** A sorted copy of the sample; the sample itself is a value and is left
      as it was. */
  function Sort(s: seq<real>): (r: seq<real>)
    ensures Sorted(r)
    ensures multiset(r) == multiset(s)
    ensures |r| == |s|
  {
    if s == [] then
      []
    else
      assert s == [s[0]] + s[1..];
      Insert(s[0], Sort(s[1..]))
  }

  /** A sorted copy has the sample's length and exactly its elements. */
  lemma SortKeepsElements(s: seq<real>)
    ensures |Sort(s)| == |s|
    ensures forall x :: x in Sort(s) <==> x in s
  {
    var t := Sort(s);
    assert |multiset(t)| == |multiset(s)|;
    forall x ensures x in t <==> x in s {
      assert x in t <==> x in multiset(t);
      assert x in s <==> x in multiset(s);
    }
  }

  /** Two sorted sequences holding the same draws are equal: whatever sort
      produced it, the sorted copy of a sample is determined by the sample. */
  lemma {:induction false} SortedUnique(a: seq<real>, b: seq<real>)
    requires Sorted(a) && Sorted(b)
    requires multiset(a) == multiset(b)
    ensures a == b
  {
    if a == [] {
      assert |multiset(b)| == 0;
    } else {
      assert |multiset(b)| == |multiset(a)|;
      SortedHeadIsLeast(b, a[0]);
      SortedHeadIsLeast(a, b[0]);
      assert a[0] == b[0];
      assert multiset(a[1..]) == multiset(b[1..]) by {
        assert a == [a[0]] + a[1..];
        assert b == [b[0]] + b[1..];
        assert multiset(a[1..]) == multiset(a) - multiset{a[0]};
        assert multiset(b[1..]) == multiset(b) - multiset{b[0]};
      }
      SortedTail(a);
      SortedTail(b);
      SortedUnique(a[1..], b[1..]);
    }
  }

  /** The sorted copy of a sample is its one sorted permutation. */
  lemma SortIsSortedPermutation(s: seq<real>, t: seq<real>)
    requires Sorted(t) && multiset(s) == multiset(t)
    ensures Sort(s) == t
  {
    SortedUnique(Sort(s), t);
  }

  lemma SortedHeadIsLeast(s: seq<real>, x: real)
    requires Sorted(s) && x in multiset(s)
    ensures s[0] <= x
  {
    var i :| 0 <= i < |s| && s[i] == x;
  }

  lemma SortedTail(s: seq<real>)
    requires Sorted(s) && s != []
    ensures Sorted(s[1..])
  {
    forall i, j | 0 <= i <= j < |s| - 1 ensures s[1..][i] <= s[1..][j] {
      assert s[1..][i] == s[i + 1] && s[1..][j] == s[j + 1];
    }
  }

  /** Number of draws of `s` that lie in the closed range [lo, hi]. */
  function CountIn(s: seq<real>, lo: real, hi: real): nat {
    if s == [] then 0
    else (if lo <= s[0] <= hi then 1 else 0) + CountIn(s[1..], lo, hi)
  }

  lemma {:induction false} CountInAppend(a: seq<real>, b: seq<real>, lo: real, hi: real)
    ensures CountIn(a + b, lo, hi) == CountIn(a, lo, hi) + CountIn(b, lo, hi)
  {
    if a != [] {
      assert (a + b)[1..] == a[1..] + b;
      CountInAppend(a[1..], b, lo, hi);
    } else {
      assert a + b == b;
    }
  }

  /** The count of draws in a range does not depend on their order. */
  lemma {:induction false} CountInPermutation(a: seq<real>, b: seq<real>, lo: real, hi: real)
    requires multiset(a) == multiset(b)
    ensures CountIn(a, lo, hi) == CountIn(b, lo, hi)
  {
    if a == [] {
      assert |multiset(b)| == 0;
    } else {
      assert a[0] in multiset(b);
      var j :| 0 <= j < |b| && b[j] == a[0];
      var rest := b[..j] + b[j + 1..];
      assert multiset(a[1..]) == multiset(rest) by {
        assert b == b[..j] + [b[j]] + b[j + 1..];
        assert a == [a[0]] + a[1..];
        assert multiset(rest) == multiset(b) - multiset{b[j]};
        assert multiset(a[1..]) == multiset(a) - multiset{a[0]};
      }
      CountInPermutation(a[1..], rest, lo, hi);
      CountInRemove(b, j, lo, hi);
    }
  }

  /** Taking the draw at position `j` out of `b` lowers the count by one
      exactly when that draw lies in the range. */
  lemma CountInRemove(b: seq<real>, j: nat, lo: real, hi: real)
    requires j < |b|
    ensures CountIn(b, lo, hi)
            == CountIn(b[..j] + b[j + 1..], lo, hi) + (if lo <= b[j] <= hi then 1 else 0)
  {
    assert b == b[..j] + [b[j]] + b[j + 1..];
    CountInAppend(b[..j], b[j + 1..], lo, hi);
    CountInAppend(b[..j] + [b[j]], b[j + 1..], lo, hi);
    CountInAppend(b[..j], [b[j]], lo, hi);
  }

  /** A stretch of `k + 1` consecutive positions of a sorted sequence lies
      between its two ends, so the range between them holds at least
      `k + 1` draws. */
  lemma CountInSortedStretch(t: seq<real>, i: nat, k: nat)
    requires Sorted(t)
    requires i + k < |t|
    ensures CountIn(t, t[i], t[i + k]) >= k + 1
  {
    var lo, hi := t[i], t[i + k];
    var mid := t[i..i + k + 1];
    assert t == t[..i] + mid + t[i + k + 1..];
    CountInAppend(t[..i] + mid, t[i + k + 1..], lo, hi);
    CountInAppend(t[..i], mid, lo, hi);
    CountInAll(mid, lo, hi);
  }

  lemma {:induction false} CountInAll(s: seq<real>, lo: real, hi: real)
    requires forall j :: 0 <= j < |s| ==> lo <= s[j] <= hi
    ensures CountIn(s, lo, hi) == |s|
  {
    if s != [] {
      CountInAll(s[1..], lo, hi);
    }
  }

  lemma {:induction false} CountInAtMost(s: seq<real>, lo: real, hi: real)
    ensures CountIn(s, lo, hi) <= |s|
  {
    if s != [] {
      CountInAtMost(s[1..], lo, hi);
    }
  }

  lemma {:induction false} CountInNone(s: seq<real>, lo: real, hi: real)
    requires forall j :: 0 <= j < |s| ==> hi < s[j]
    ensures CountIn(s, lo, hi) == 0
  {
    if s != [] {
      CountInNone(s[1..], lo, hi);
    }
  }

  /** If the draw at sorted position `m` lies above `hi`, only the `m`
      draws before it can lie in [lo, hi]. */
  lemma CountInBelow(t: seq<real>, lo: real, hi: real, m: nat)
    requires Sorted(t) && m < |t|
    ensures hi < t[m] ==> CountIn(t, lo, hi) <= m
  {
    if hi < t[m] {
      assert t == t[..m] + t[m..];
      CountInAppend(t[..m], t[m..], lo, hi);
      CountInAtMost(t[..m], lo, hi);
      CountInNone(t[m..], lo, hi);
    }
  }

  /** A closed range that holds at least `k + 1` draws of a sorted sequence
      holds a whole stretch of `k + 1` consecutive positions of it. */
  lemma {:induction false} CountInHoldsStretch(t: seq<real>, lo: real, hi: real, k: nat)
    requires Sorted(t) && CountIn(t, lo, hi) >= k + 1
    ensures exists p :: 0 <= p && p + k < |t| && lo <= t[p] && t[p + k] <= hi
  {
    CountInAtMost(t, lo, hi);
    if lo <= t[0] <= hi {
      CountInBelow(t, lo, hi, k);
      assert 0 + k < |t| && lo <= t[0] && t[0 + k] <= hi;
    } else {
      SortedTail(t);
      CountInHoldsStretch(t[1..], lo, hi, k);
      var q :| 0 <= q && q + k < |t| - 1 && lo <= t[1..][q] && t[1..][q + k] <= hi;
      assert lo <= t[q + 1] && t[q + 1 + k] <= hi;
    }
  }
}
