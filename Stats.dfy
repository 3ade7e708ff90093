/** The median as pandas computes it: sort, then take the middle value, or the
    mean of the two middle values for an even count. */
module Stats {
  import opened Seqs

  function Identity(x: real): real { x }

  /** The test "strictly below `m`", as a value. */
  function LessThan(m: real): real -> bool { x => x < m }

  /** The test "strictly above `m`", as a value. */
  function GreaterThan(m: real): real -> bool { x => x > m }

  /** The middle value of a non-empty sequence, or the mean of its two
      middle values when its length is even. */
  function Middle(s: seq<real>): real
    requires |s| > 0
  {
    var h := |s| / 2;
    if |s| % 2 == 1 then s[h] else (s[h - 1] + s[h]) / 2.0
  }

  /** The middle of a descending sequence lies between its two middle
      entries. */
  lemma MiddleBetween(s: seq<real>)
    requires SortedDesc(s, Identity) && |s| > 0
    ensures s[|s| / 2] <= Middle(s) <= s[(|s| - 1) / 2]
  {
    var h := |s| / 2;
    if |s| % 2 == 0 {
      assert Identity(s[h - 1]) >= Identity(s[h]);
    }
  }

  /** The median: the middle of the sorted values. It lies between the
      smallest and the largest of them. */
  function Median(xs: seq<real>): (m: real)
    requires |xs| > 0
    ensures exists i :: 0 <= i < |xs| && xs[i] <= m
    ensures exists j :: 0 <= j < |xs| && m <= xs[j]
  {
    var s := SortByDesc(xs, Identity);
    MiddleBetween(s);
    assert s[|s| / 2] in multiset(xs) && s[(|s| - 1) / 2] in multiset(xs);
    Middle(s)
  }

  /** Elements satisfying `p` can only sit at positions lo .. hi-1, so there
      are at most hi - lo of them. */
  lemma {:induction false} CountWithin<T>(s: seq<T>, p: T -> bool, lo: nat, hi: nat)
    requires lo <= hi
    requires forall i :: 0 <= i < |s| && p(s[i]) ==> lo <= i < hi
    ensures Count(s, p) <= hi - lo
  {
    if s != [] {
      assert forall i :: 0 <= i < |s| - 1 ==> s[1..][i] == s[i + 1];
      if p(s[0]) {
        CountWithin(s[1..], p, 0, hi - 1);
      } else if lo > 0 {
        CountWithin(s[1..], p, lo - 1, hi - 1);
      } else {
        CountWithin(s[1..], p, 0, hi);
      }
    }
  }

  /** In a descending sequence, the values strictly below `m` come after
      every position whose value is at least `m`. */
  lemma BelowOnlyAfter(s: seq<real>, m: real, k: nat)
    requires SortedDesc(s, Identity) && k < |s| && s[k] >= m
    ensures Count(s, LessThan(m)) <= |s| - k - 1
  {
    forall i | 0 <= i <= k ensures !LessThan(m)(s[i]) {
      if i < k {
        assert Identity(s[i]) >= Identity(s[k]);
      }
    }
    CountWithin(s, LessThan(m), k + 1, |s|);
  }

  /** In a descending sequence, the values strictly above `m` come before
      every position whose value is at most `m`. */
  lemma AboveOnlyBefore(s: seq<real>, m: real, k: nat)
    requires SortedDesc(s, Identity) && k < |s| && s[k] <= m
    ensures Count(s, GreaterThan(m)) <= k
  {
    forall i | k <= i < |s| ensures !GreaterThan(m)(s[i]) {
      if i > k {
        assert Identity(s[k]) >= Identity(s[i]);
      }
    }
    CountWithin(s, GreaterThan(m), 0, k);
  }

  /** The middle value (or mean of the two middle values) of a descending
      sequence has at most half of the values on each side. */
  lemma MiddleSplitsHalves(s: seq<real>, m: real)
    requires SortedDesc(s, Identity) && |s| > 0
    requires m == Middle(s)
    ensures Count(s, LessThan(m)) <= |s| / 2
    ensures Count(s, GreaterThan(m)) <= |s| / 2
  {
    var h := |s| / 2;
    if |s| % 2 == 1 {
      BelowOnlyAfter(s, m, h);
      AboveOnlyBefore(s, m, h);
    } else {
      assert Identity(s[h - 1]) >= Identity(s[h]);
      BelowOnlyAfter(s, m, h - 1);
      AboveOnlyBefore(s, m, h);
    }
  }

  /** At most half of the values lie strictly below the median, and at most
      half strictly above it. */
  lemma MedianSplitsHalves(xs: seq<real>)
    requires |xs| > 0
    ensures Count(xs, LessThan(Median(xs))) <= |xs| / 2
    ensures Count(xs, GreaterThan(Median(xs))) <= |xs| / 2
  {
    var s, m := SortByDesc(xs, Identity), Median(xs);
    MiddleSplitsHalves(s, m);
    CountOfPermutation(xs, s, LessThan(m));
    CountOfPermutation(xs, s, GreaterThan(m));
  }

  /** The head of a descending sequence is its largest value, and its tail
      is descending too. */
  lemma SortedDescHead(a: seq<real>, x: real)
    requires SortedDesc(a, Identity) && x in a
    ensures a[0] >= x && SortedDesc(a[1..], Identity)
  {
  }

  /** Two sequences with the same values and the same head have tails with
      the same values. */
  lemma SameTails(a: seq<real>, b: seq<real>)
    requires a != [] && b != [] && a[0] == b[0] && multiset(a) == multiset(b)
    ensures multiset(a[1..]) == multiset(b[1..])
  {
    assert a == [a[0]] + a[1..] && b == [b[0]] + b[1..];
    assert multiset(a) == multiset{a[0]} + multiset(a[1..]);
    assert multiset(b) == multiset{a[0]} + multiset(b[1..]);
    forall z ensures multiset(a[1..])[z] == multiset(b[1..])[z] {
      assert multiset(a)[z] == multiset(b)[z];
    }
  }

  /** Two descending sequences holding the same values are equal. */
  lemma {:induction false} SortedDescUnique(a: seq<real>, b: seq<real>)
    requires SortedDesc(a, Identity) && SortedDesc(b, Identity)
    requires multiset(a) == multiset(b)
    ensures a == b
  {
    assert |a| == |multiset(a)| == |b|;
    if a != [] {
      var x, y := a[0], b[0];
      assert x in multiset(b) && y in multiset(a);
      SortedDescHead(a, y);
      SortedDescHead(b, x);
      SameTails(a, b);
      SortedDescUnique(a[1..], b[1..]);
      assert a == [x] + a[1..] && b == [y] + b[1..];
    }
  }

  /** The median depends only on the values, not on the order of the rows. */
  lemma MedianIgnoresOrder(xs: seq<real>, ys: seq<real>)
    requires |xs| > 0 && multiset(xs) == multiset(ys)
    ensures |ys| > 0 && Median(xs) == Median(ys)
  {
    assert |ys| == |multiset(ys)| == |xs|;
    var sx, sy := SortByDesc(xs, Identity), SortByDesc(ys, Identity);
    SortedDescUnique(sx, sy);
  }
}
