/** Order statistics of finite samples: sorting, counting, medians and interpolated
    percentiles. */
module OrderStatistics {
  // Python's `sorted`, `statistics.median` and the two percentile routines are modelled over
  // `real`.  Everything rests on one fact, `Rank`: the element at position k of the sorted
  // sample is at most x exactly when more than k elements are at most x.

  import opened Reals
  import opened Sequences

  function Insert(x: real, s: seq<real>): (t: seq<real>)
  {
    if s == [] || x <= s[0] then [x] + s else [s[0]] + Insert(x, s[1..])
  }

  /** The ascending rearrangement of s; `SortedIsTheAscendingRearrangement` shows
      that there is only one. */
  function Sorted(s: seq<real>): (t: seq<real>)
    ensures |t| == |s|
  {
    if s == [] then [] else
      InsertSize(s[0], Sorted(s[1..]));
      Insert(s[0], Sorted(s[1..]))
  }

  lemma InsertSize(x: real, s: seq<real>)
    ensures |Insert(x, s)| == |s| + 1
  {
  }

  ghost predicate Ascending(s: seq<real>) {
    forall i, j :: 0 <= i <= j < |s| ==> s[i] <= s[j]
  }

  ghost predicate Pointwise(a: seq<real>, b: seq<real>) {
    |a| == |b| && forall i :: 0 <= i < |a| ==> a[i] <= b[i]
  }

  ghost predicate Bounded(s: seq<real>, lo: real, hi: real) {
    forall i :: 0 <= i < |s| ==> lo <= s[i] <= hi
  }

  // ----- counting ------------------------------------------------------------

  function Count(s: seq<real>, p: real -> bool): (n: nat)
  {
    if s == [] then 0 else (if p(s[0]) then 1 else 0) + Count(s[1..], p)
  }

  function AtMost(x: real): real -> bool { v => v <= x }
  function Above(x: real): real -> bool { v => v > x }
  function AtLeast(x: real): real -> bool { v => v >= x }
  function Below(x: real): real -> bool { v => v < x }
  function Within(lo: real, hi: real): real -> bool { v => lo <= v <= hi }

  lemma {:induction false} CountSplit(s: seq<real>, x: real)
    ensures Count(s, AtMost(x)) + Count(s, Above(x)) == |s|
    ensures Count(s, Below(x)) + Count(s, AtLeast(x)) == |s|
  {
    if s != [] { CountSplit(s[1..], x); }
  }

  lemma {:induction false} CountConcat(a: seq<real>, b: seq<real>, p: real -> bool)
    ensures Count(a + b, p) == Count(a, p) + Count(b, p)
  {
    if a == [] {
      assert a + b == b;
    } else {
      assert (a + b)[1..] == a[1..] + b;
      CountConcat(a[1..], b, p);
    }
  }

  lemma {:induction false} CountOfPermutation(s: seq<real>, t: seq<real>, p: real -> bool)
    requires multiset(s) == multiset(t)
    ensures Count(s, p) == Count(t, p)
  {
    PermutationSize(s, t);
    if s != [] {
      var i := PermutationHead(s, t);
      CountOfPermutation(s[1..], WithoutIndex(t, i), p);
      CountConcat(t[..i], t[i + 1..], p);
      CountConcat(t[..i], t[i..], p);
      assert t == t[..i] + t[i..] && t[i..][1..] == t[i + 1..];
    }
  }

  lemma {:induction false} CountRange(s: seq<real>, p: real -> bool, i: nat, j: nat)
    requires i <= j <= |s|
    requires forall m :: i <= m < j ==> p(s[m])
    ensures Count(s, p) >= j - i
  {
    if i > 0 {
      CountRange(s[1..], p, i - 1, j - 1);
    } else if j > 0 {
      CountRange(s[1..], p, 0, j - 1);
    }
  }

  lemma {:induction false} CountPointwise(a: seq<real>, b: seq<real>, x: real)
    requires Pointwise(a, b)
    ensures Count(b, AtMost(x)) <= Count(a, AtMost(x))
  {
    if a != [] { CountPointwise(a[1..], b[1..], x); }
  }

  // ----- sorting ---------------------------------------------------------------

  lemma AscendingCons(x: real, t: seq<real>)
    requires Ascending(t) && forall y :: y in t ==> x <= y
    ensures Ascending([x] + t)
  {
    forall i | 0 <= i < |t| ensures x <= t[i] { assert t[i] in t; }
  }

  lemma {:induction false} InsertMultiset(x: real, s: seq<real>)
    ensures multiset(Insert(x, s)) == multiset(s) + multiset{x}
  {
    if s != [] && s[0] < x {
      InsertMultiset(x, s[1..]);
      DropHead(s, 0);
      assert s == [s[0]] + s[1..];
    }
  }

  lemma InsertMembers(x: real, s: seq<real>, y: real)
    requires y in Insert(x, s)
    ensures y == x || y in s
  {
    InsertMultiset(x, s);
    assert y in multiset(Insert(x, s));
  }

  lemma {:induction false} InsertAscending(x: real, s: seq<real>)
    requires Ascending(s)
    ensures Ascending(Insert(x, s))
  {
    if s != [] && s[0] < x {
      InsertAscending(x, s[1..]);
      forall y | y in Insert(x, s[1..]) ensures s[0] <= y {
        InsertMembers(x, s[1..], y);
      }
      AscendingCons(s[0], Insert(x, s[1..]));
    }
  }

  lemma {:induction false} SortedIsAscending(s: seq<real>)
    ensures Ascending(Sorted(s)) && multiset(Sorted(s)) == multiset(s)
  {
    if s != [] {
      SortedIsAscending(s[1..]);
      InsertAscending(s[0], Sorted(s[1..]));
      InsertMultiset(s[0], Sorted(s[1..]));
      assert s == [s[0]] + s[1..];
    }
  }

  lemma {:induction false} RankOfAscending(t: seq<real>, k: nat, x: real)
    requires Ascending(t) && k < |t|
    ensures t[k] <= x <==> Count(t, AtMost(x)) > k
  {
    assert Ascending(t[1..]);
    if |t| > 1 {
      RankOfAscending(t[1..], if k == 0 then 0 else k - 1, x);
    }
  }

  /** The rank fact on which every order argument below is built. */
  lemma Rank(s: seq<real>, k: nat, x: real)
    requires k < |s|
    ensures Sorted(s)[k] <= x <==> Count(s, AtMost(x)) > k
  {
    SortedIsAscending(s);
    RankOfAscending(Sorted(s), k, x);
    CountOfPermutation(s, Sorted(s), AtMost(x));
  }

  lemma SortedIsTheAscendingRearrangement(s: seq<real>, t: seq<real>)
    requires Ascending(t) && multiset(t) == multiset(s)
    ensures t == Sorted(s)
  {
    SortedIsAscending(s);
    assert |t| == |multiset(t)| == |multiset(s)| == |s|;
    forall k | 0 <= k < |t| ensures t[k] == Sorted(s)[k] {
      var u := Sorted(s)[k];
      Rank(s, k, t[k]);
      Rank(s, k, u);
      RankOfAscending(t, k, t[k]);
      RankOfAscending(t, k, u);
      CountOfPermutation(s, t, AtMost(t[k]));
      CountOfPermutation(s, t, AtMost(u));
    }
  }

  lemma SortedOfPermutation(s: seq<real>, t: seq<real>)
    requires multiset(s) == multiset(t)
    ensures Sorted(s) == Sorted(t)
  {
    SortedIsAscending(t);
    SortedIsTheAscendingRearrangement(s, Sorted(t));
  }

  lemma SortedMonotone(a: seq<real>, b: seq<real>, k: nat)
    requires Pointwise(a, b) && k < |a|
    ensures Sorted(a)[k] <= Sorted(b)[k]
  {
    var x := Sorted(b)[k];
    Rank(b, k, x);
    CountPointwise(a, b, x);
    Rank(a, k, x);
  }

  lemma SortedBounded(s: seq<real>, lo: real, hi: real)
    requires Bounded(s, lo, hi)
    ensures Bounded(Sorted(s), lo, hi)
  {
    SortedIsAscending(s);
    forall i | 0 <= i < |s| ensures lo <= Sorted(s)[i] <= hi {
      assert Sorted(s)[i] in multiset(s);
    }
  }

  /** At least j - i + 1 sample values lie between the i-th and the j-th smallest. */
  lemma Coverage(s: seq<real>, i: nat, j: nat)
    requires i <= j < |s|
    ensures Count(s, Within(Sorted(s)[i], Sorted(s)[j])) >= j - i + 1
    ensures Count(s, AtLeast(Sorted(s)[i])) >= |s| - i
  {
    var t := Sorted(s);
    SortedIsAscending(s);
    CountRange(t, Within(t[i], t[j]), i, j + 1);
    CountRange(t, AtLeast(t[i]), i, |t|);
    CountOfPermutation(s, t, Within(t[i], t[j]));
    CountOfPermutation(s, t, AtLeast(t[i]));
  }

  // ----- ranks by counting positions -------------------------------------------------

  /** v is the k-th smallest value, counted from 0: at most k positions hold a smaller
      value, and more than k hold one that is not larger. */
  ghost predicate HasRank(s: seq<real>, k: nat, v: real) {
    |set i | 0 <= i < |s| && s[i] < v| <= k < |set i | 0 <= i < |s| && s[i] <= v|
  }

  lemma {:induction false} CountIsSize(s: seq<real>, p: real -> bool)
    ensures Count(s, p) == |set i | 0 <= i < |s| && p(s[i])|
  {
    if s != [] {
      var n := |s| - 1;
      var init := s[..n];
      CountIsSize(init, p);
      CountConcat(init, [s[n]], p);
      assert s == init + [s[n]];
      IndicesSnoc(init, s[n], p);
    }
  }

  lemma IndicesSnoc(s: seq<real>, x: real, p: real -> bool)
    ensures var more := s + [x];
            (set i | 0 <= i < |more| && p(more[i]))
            == (set i | 0 <= i < |s| && p(s[i])) + if p(x) then {|s|} else {}
  {
  }

  lemma SizeAtMost(s: seq<real>, x: real)
    ensures |set i | 0 <= i < |s| && s[i] <= x| == Count(s, AtMost(x))
  {
    CountIsSize(s, AtMost(x));
    assert (set i | 0 <= i < |s| && s[i] <= x) == set i | 0 <= i < |s| && AtMost(x)(s[i]);
  }

  lemma SizeAbove(s: seq<real>, x: real)
    ensures |set i | 0 <= i < |s| && s[i] > x| == Count(s, Above(x))
  {
    CountIsSize(s, Above(x));
    assert (set i | 0 <= i < |s| && s[i] > x) == set i | 0 <= i < |s| && Above(x)(s[i]);
  }

  lemma SizeAtLeast(s: seq<real>, x: real)
    ensures |set i | 0 <= i < |s| && s[i] >= x| == Count(s, AtLeast(x))
    ensures |set i | 0 <= i < |s| && s[i] < x| == |s| - Count(s, AtLeast(x))
  {
    CountSplit(s, x);
    CountIsSize(s, AtLeast(x));
    CountIsSize(s, Below(x));
    assert (set i | 0 <= i < |s| && s[i] >= x) == set i | 0 <= i < |s| && AtLeast(x)(s[i]);
    assert (set i | 0 <= i < |s| && s[i] < x) == set i | 0 <= i < |s| && Below(x)(s[i]);
  }

  /** The value at position k of the sorted sample is the one of rank k. */
  lemma SortedHasRank(s: seq<real>, k: nat)
    requires k < |s|
    ensures HasRank(s, k, Sorted(s)[k])
  {
    var v := Sorted(s)[k];
    Rank(s, k, v);
    SizeAtMost(s, v);
    Coverage(s, k, k);
    SizeAtLeast(s, v);
  }

  lemma RankIsUnique(s: seq<real>, k: nat, v: real, w: real)
    requires HasRank(s, k, v) && HasRank(s, k, w)
    ensures v == w
  {
    var notAboveV, notAboveW := set i | 0 <= i < |s| && s[i] <= v, set i | 0 <= i < |s| && s[i] <= w;
    var belowV, belowW := set i | 0 <= i < |s| && s[i] < v, set i | 0 <= i < |s| && s[i] < w;
    if v < w { SubsetSize(notAboveV, belowW); }
    if w < v { SubsetSize(notAboveW, belowV); }
  }

  lemma SubsetSize(a: set<int>, b: set<int>)
    requires a <= b
    ensures |a| <= |b|
  {
    assert b == a + (b - a);
  }

  // ----- minimum, maximum and median -------------------------------------------

  function Minimum(s: seq<real>): real
    requires s != []
  {
    if |s| == 1 then s[0] else
      var m := Minimum(s[1..]);
      if s[0] <= m then s[0] else m
  }

  function Maximum(s: seq<real>): real
    requires s != []
  {
    if |s| == 1 then s[0] else
      var m := Maximum(s[1..]);
      if s[0] >= m then s[0] else m
  }

  lemma {:induction false} Extremes(s: seq<real>)
    requires s != []
    ensures Bounded(s, Minimum(s), Maximum(s))
    ensures Minimum(s) in s && Maximum(s) in s
  {
    if |s| > 1 {
      Extremes(s[1..]);
      assert forall i :: 1 <= i < |s| ==> s[i] == s[1..][i - 1];
    }
  }

  /** `statistics.median`: the middle value, or the mean of the two middle ones. */
  function Median(s: seq<real>): real
    requires s != []
  {
    Middle(Sorted(s))
  }

  function Middle(t: seq<real>): real
    requires t != []
  {
    var n := |t|;
    if n % 2 == 1 then t[n / 2] else (t[n / 2 - 1] + t[n / 2]) / 2.0
  }

  lemma MedianMonotone(a: seq<real>, b: seq<real>)
    requires Pointwise(a, b) && a != []
    ensures Median(a) <= Median(b)
  {
    var n := |a|;
    SortedMonotone(a, b, n / 2);
    if n % 2 == 0 { SortedMonotone(a, b, n / 2 - 1); }
  }

  lemma MedianBounded(s: seq<real>, lo: real, hi: real)
    requires Bounded(s, lo, hi) && s != []
    ensures lo <= Median(s) <= hi
  {
    SortedBounded(s, lo, hi);
  }

  /** v divides the way from the value of one rank to that of another in the ratio w. */
  ghost predicate BetweenRanks(s: seq<real>, low: nat, high: nat, w: real, v: real) {
    exists a, b :: HasRank(s, low, a) && HasRank(s, high, b) && v == a + Times(b - a, w)
  }

  /** m is the mean of the two middle values of the sample; in a sample of odd size they
      are the same one. */
  ghost predicate IsMedian(s: seq<real>, m: real) {
    s != [] && BetweenRanks(s, (|s| - 1) / 2, |s| / 2, 0.5, m)
  }

  lemma MedianIsMiddle(s: seq<real>)
    requires s != []
    ensures IsMedian(s, Median(s)) && forall m :: IsMedian(s, m) ==> m == Median(s)
  {
    hide HasRank, Middle, Times;
    var low, high := (|s| - 1) / 2, |s| / 2;
    SortedHasRank(s, low);
    SortedHasRank(s, high);
    MiddleIsHalfWay(Sorted(s));
    forall m | IsMedian(s, m) ensures m == Median(s) {
      var a, b :| HasRank(s, low, a) && HasRank(s, high, b) && m == a + Times(b - a, 0.5);
      RankIsUnique(s, low, a, Sorted(s)[low]);
      RankIsUnique(s, high, b, Sorted(s)[high]);
    }
  }

  lemma MiddleIsHalfWay(t: seq<real>)
    requires t != []
    ensures var a, b := t[(|t| - 1) / 2], t[|t| / 2];
            Middle(t) == a + Times(b - a, 0.5)
  {
  }

  /** In a sample of odd size the median is above x, or reaches x, exactly when more than
      half of the values do. */
  lemma MedianByMajority(s: seq<real>, x: real)
    requires |s| % 2 == 1
    ensures Median(s) > x <==> 2 * |set i | 0 <= i < |s| && s[i] > x| > |s|
    ensures Median(s) >= x <==> 2 * |set i | 0 <= i < |s| && s[i] >= x| > |s|
  {
    var k := |s| / 2;
    Rank(s, k, x);
    CountSplit(s, x);
    SizeAbove(s, x);
    SizeAtLeast(s, x);
    SortedHasRank(s, k);
    var v := Sorted(s)[k];
    if v >= x {
      SubsetSize(set i | 0 <= i < |s| && s[i] < x, set i | 0 <= i < |s| && s[i] < v);
    } else {
      SubsetSize(set i | 0 <= i < |s| && s[i] <= v, set i | 0 <= i < |s| && s[i] < x);
    }
  }

  // ----- percentiles -------------------------------------------------------------

  datatype PercentileResult = Percentile(value: real) | EmptySample | FractionOutOfRange

  /** a weighted by 1 - w plus b weighted by w. */
  function Mix(a: real, b: real, w: real): real { a * (1.0 - w) + b * w }

  /** The value at a real-valued position of an ascending sequence, interpolated
      between the positions floor(p) and ceil(p). */
  function Interpolate(t: seq<real>, p: real): real
    requires t != [] && 0.0 <= p <= (|t| - 1) as real
  {
    var lower := p.Floor;
    var upper := if p == lower as real then lower else lower + 1;
    if lower == upper then t[lower] else Mix(t[lower], t[upper], p - lower as real)
  }

  /** The real-valued position of a fraction in a sample of size last + 1. */
  function Position(fraction: real, last: nat): (p: real)
    requires 0.0 <= fraction <= 1.0
    ensures 0.0 <= p <= last as real
  {
    Times(fraction, last as real)
  }

  /** `percentile` of the benchmark module. */
  function PercentileOf(values: seq<real>, fraction: real): (r: PercentileResult)
    ensures r.EmptySample? <==> values == []
    ensures r.FractionOutOfRange? <==> values != [] && !(0.0 <= fraction <= 1.0)
  {
    var ordered := Sorted(values);
    if ordered == [] then EmptySample
    else if !(0.0 <= fraction <= 1.0) then FractionOutOfRange
    else Percentile(Interpolate(ordered, Position(fraction, |ordered| - 1)))
  }

  datatype BaselineResult = Value(value: real) | NotANumber

  /** `percentile` of the baseline runner, which is written differently and answers
      an empty sample with NaN. */
  function BaselinePercentile(values: seq<real>, pct: real): (r: BaselineResult)
    requires 0.0 <= pct <= 1.0
    ensures r.NotANumber? <==> values == []
  {
    if values == [] then NotANumber
    else
      var s := Sorted(values);
      var k := Position(pct, |s| - 1);
      var f := k.Floor;
      var c := if f + 1 < |s| - 1 then f + 1 else |s| - 1;
      if f == c then Value(s[f])
      else Value(s[f] * (c as real - k) + s[c] * (k - f as real))
  }

  lemma Scale(x: real, v: real, w: real)
    requires 0.0 <= x && v <= w
    ensures x * v <= x * w
  {
    assert x * (w - v) >= 0.0;
  }

  lemma MixMonotone(a: real, b: real, v: real, w: real)
    requires a <= b && 0.0 <= v <= w <= 1.0
    ensures a <= Mix(a, b, v) <= Mix(a, b, w) <= b
  {
    var d := b - a;
    assert Mix(a, b, v) == a + d * v;
    assert Mix(a, b, w) == a + d * w;
    Scale(d, 0.0, v);
    Scale(d, v, w);
    Scale(d, w, 1.0);
    assert d * 1.0 == d;
  }

  lemma InterpolateBetweenNeighbours(t: seq<real>, p: real)
    requires Ascending(t) && t != [] && 0.0 <= p <= (|t| - 1) as real
    ensures t[p.Floor] <= Interpolate(t, p) <= t[|t| - 1]
    ensures p.Floor + 1 < |t| ==> Interpolate(t, p) <= t[p.Floor + 1]
  {
    var lower := p.Floor;
    if p != lower as real {
      var w := p - lower as real;
      MixMonotone(t[lower], t[lower + 1], w, w);
    }
  }

  lemma InterpolateMonotone(t: seq<real>, p: real, q: real)
    requires Ascending(t) && t != [] && 0.0 <= p <= q <= (|t| - 1) as real
    ensures Interpolate(t, p) <= Interpolate(t, q)
  {
    InterpolateBetweenNeighbours(t, p);
    InterpolateBetweenNeighbours(t, q);
    var lower := p.Floor;
    if lower == q.Floor && p != lower as real {
      MixMonotone(t[lower], t[lower + 1], p - lower as real, q - lower as real);
    }
  }

  lemma PositionMonotone(f: real, g: real, last: nat)
    requires 0.0 <= f <= g <= 1.0
    ensures Position(f, last) <= Position(g, last)
  {
    ScaleRight(f, g, last as real);
  }

  lemma ScaleRight(v: real, w: real, x: real)
    requires 0.0 <= x && v <= w
    ensures Times(v, x) <= Times(w, x)
  {
    assert (w - v) * x >= 0.0;
  }

  /** The percentile lies between the extremes, grows with the fraction, ignores the
      order of the sample and is the median at one half. */
  lemma PercentileLaws(values: seq<real>, f: real, g: real)
    requires values != [] && 0.0 <= f <= g <= 1.0
    ensures PercentileOf(values, f).Percentile? && PercentileOf(values, g).Percentile?
    ensures PercentileOf(values, f).value <= PercentileOf(values, g).value
    ensures Minimum(values) <= PercentileOf(values, f).value
    ensures PercentileOf(values, g).value <= Maximum(values)
    ensures PercentileOf(values, 0.5) == Percentile(Median(values))
  {
    var t, p, q := Sorted(values), Position(f, |values| - 1), Position(g, |values| - 1);
    SortedIsAscending(values);
    Extremes(values);
    SortedBounded(values, Minimum(values), Maximum(values));
    PositionMonotone(f, g, |values| - 1);
    InterpolateMonotone(t, p, q);
    InterpolateBetweenNeighbours(t, p);
    InterpolateBetweenNeighbours(t, q);
    MiddlePosition(t);
  }

  lemma MiddlePosition(t: seq<real>)
    requires t != []
    ensures Interpolate(t, Position(0.5, |t| - 1)) == Middle(t)
  {
    var last := |t| - 1;
    var half := last / 2;
    var p := Position(0.5, last);
    assert p == last as real / 2.0;
    if last == 2 * half {
      assert p == half as real;
    } else {
      assert p == half as real + 0.5;
      assert p.Floor == half;
      assert Mix(t[half], t[half + 1], 0.5) == (t[half] + t[half + 1]) / 2.0;
    }
  }

  lemma PercentileIgnoresOrder(a: seq<real>, b: seq<real>, fraction: real)
    requires multiset(a) == multiset(b)
    ensures PercentileOf(a, fraction) == PercentileOf(b, fraction)
  {
    SortedOfPermutation(a, b);
  }

  /** The k-th of the |values| - 1 equal steps of the fraction leads to the value of rank k. */
  lemma PercentileAtRank(values: seq<real>, k: nat)
    requires |values| > 1 && k < |values|
    ensures var p := PercentileOf(values, Share(k as real, |values| - 1));
            p.Percentile? && HasRank(values, k, p.value)
  {
    hide Position, Sorted, HasRank, Share;
    ShareIsPosition(k as real, |values| - 1);
    SortedHasRank(values, k);
  }

  /** The fractions 0 and 1 lead to the extremes. */
  lemma PercentileAtEnds(values: seq<real>)
    requires values != []
    ensures PercentileOf(values, 0.0) == Percentile(Minimum(values))
    ensures PercentileOf(values, 1.0) == Percentile(Maximum(values))
  {
    hide Sorted, Minimum, Maximum;
    RankedExtremes(values);
  }

  /** A part of a whole number of steps, as a fraction. */
  function Share(part: real, steps: nat): real
    requires steps > 0
  {
    part / steps as real
  }

  lemma ShareIsPosition(part: real, steps: nat)
    requires steps > 0 && 0.0 <= part <= steps as real
    ensures 0.0 <= Share(part, steps) <= 1.0
    ensures Position(Share(part, steps), steps) == part
  {
    var q, n := Share(part, steps), steps as real;
    assert Times(q, n) == part;
    assert q < 0.0 ==> Times(q, n) < 0.0;
    assert q > 1.0 ==> Times(q, n) > n;
  }

  lemma RankedExtremes(s: seq<real>)
    requires s != []
    ensures Sorted(s)[0] == Minimum(s) && Sorted(s)[|s| - 1] == Maximum(s)
  {
    Extremes(s);
    SortedBounded(s, Minimum(s), Maximum(s));
    SortedIsAscending(s);
    assert Minimum(s) in multiset(Sorted(s)) && Maximum(s) in multiset(Sorted(s));
  }

  /** Between two such fractions the percentile is linear. */
  lemma PercentileIsLinear(values: seq<real>, k: nat, w: real)
    requires k + 1 < |values| && 0.0 <= w <= 1.0
    ensures var p := PercentileOf(values, Share(k as real + w, |values| - 1));
            p.Percentile? && BetweenRanks(values, k, k + 1, w, p.value)
  {
    hide Position, Sorted, HasRank, Share;
    var t := Sorted(values);
    ShareIsPosition(k as real + w, |values| - 1);
    SortedHasRank(values, k);
    SortedHasRank(values, k + 1);
    assert w < 1.0 ==> (k as real + w).Floor == k;
    MixIsBetween(t[k], t[k + 1], w);
  }

  lemma MixIsBetween(a: real, b: real, w: real)
    ensures Mix(a, b, w) == a + Times(b - a, w)
    ensures w == 0.0 ==> Mix(a, b, w) == a
    ensures w == 1.0 ==> Mix(a, b, w) == b
  {
  }

  lemma MixAsWeights(a: real, b: real, k: real, lower: real, upper: real)
    requires upper == lower + 1.0
    ensures Mix(a, b, k - lower) == a * (upper - k) + b * (k - lower)
  {
    assert 1.0 - (k - lower) == upper - k;
  }

  /** The two percentile routines of the repository agree wherever both answer. */
  lemma PercentilesAgree(values: seq<real>, fraction: real)
    requires values != [] && 0.0 <= fraction <= 1.0
    ensures PercentileOf(values, fraction) == Percentile(BaselinePercentile(values, fraction).value)
  {
    var s, k := Sorted(values), Position(fraction, |values| - 1);
    var f := k.Floor;
    if f + 1 < |s| {
      MixAsWeights(s[f], s[f + 1], k, f as real, (f + 1) as real);
      WeightsAtFloor(s[f], s[f + 1], k, f as real, (f + 1) as real);
    }
  }

  lemma WeightsAtFloor(a: real, b: real, k: real, lower: real, upper: real)
    requires upper == lower + 1.0
    ensures k == lower ==> a * (upper - k) + b * (k - lower) == a
  {
  }
}
