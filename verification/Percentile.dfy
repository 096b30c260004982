/** Interpolated percentiles, and how many values can lie beyond them. */
module Percentile {
  // ----- sorting -----

  function Insert(v: real, s: seq<real>): (t: seq<real>)
    ensures |t| == |s| + 1
  {
    if s == [] || v <= s[0] then [v] + s else [s[0]] + Insert(v, s[1..])
  }

  /** What sorting the list of values yields. */
  function Sort(values: seq<real>): (sorted: seq<real>)
    ensures |sorted| == |values|
  {
    if values == [] then [] else Insert(values[0], Sort(values[1..]))
  }

  ghost predicate Ascending(s: seq<real>)
  {
    forall i, j :: 0 <= i < j < |s| ==> s[i] <= s[j]
  }

  lemma {:induction false} PrependKeepsOrder(v: real, s: seq<real>)
    requires Ascending(s) && (s == [] || v <= s[0])
    ensures Ascending([v] + s)
  {
    var t := [v] + s;
    forall i, j | 0 <= i < j < |t| ensures t[i] <= t[j] {
      assert t[j] == s[j - 1] && s[0] <= s[j - 1];
    }
  }

  lemma {:induction false} InsertKeepsOrder(v: real, s: seq<real>)
    requires Ascending(s)
    ensures Ascending(Insert(v, s))
    ensures Insert(v, s)[0] == if s == [] || v <= s[0] then v else s[0]
  {
    if s == [] || v <= s[0] {
      PrependKeepsOrder(v, s);
    } else {
      InsertKeepsOrder(v, s[1..]);
      PrependKeepsOrder(s[0], Insert(v, s[1..]));
    }
  }

  lemma {:induction false} InsertPermutes(v: real, s: seq<real>)
    ensures multiset(Insert(v, s)) == multiset(s) + multiset{v}
  {
    if s == [] || v <= s[0] {
    } else {
      assert s == [s[0]] + s[1..];
      InsertPermutes(v, s[1..]);
    }
  }

  lemma {:induction false} SortSorts(values: seq<real>)
    ensures Ascending(Sort(values)) && multiset(Sort(values)) == multiset(values)
  {
    if values != [] {
      SortSorts(values[1..]);
      InsertKeepsOrder(values[0], Sort(values[1..]));
      InsertPermutes(values[0], Sort(values[1..]));
      assert values == [values[0]] + values[1..];
    }
  }

  // ----- percentiles -----

  function Ceiling(r: real): (n: int)
    ensures r <= n as real < r + 1.0
  {
    if r.Floor as real == r then r.Floor else r.Floor + 1
  }

  function Between(a: real, b: real, fraction: real): (v: real)
  {
    a + (b - a) * fraction
  }

  /** The position of a percentile among `n` sorted values, between two indices. */
  function Scaled(percentile: real, n: nat): (position: real)
    requires 0.0 <= percentile <= 1.0 && n > 0
    ensures 0 <= position.Floor <= Ceiling(position) < n
  {
    Fraction(percentile, (n - 1) as real);
    CeilingUpTo(percentile * (n - 1) as real, n - 1);
    percentile * (n - 1) as real
  }

  /** `GetPercentile` on a sorted list: linear interpolation between the two neighbouring values. */
  function Interpolated(s: seq<real>, percentile: real): (v: real)
    requires 0.0 <= percentile <= 1.0
  {
    if |s| == 0 then 0.0
    else
      var scaled := Scaled(percentile, |s|);
      var lower, upper := scaled.Floor, Ceiling(scaled);
      if lower == upper then s[lower] else Between(s[lower], s[upper], scaled - lower as real)
  }

  lemma {:induction false} CeilingUpTo(r: real, m: nat)
    requires 0.0 <= r <= m as real
    ensures 0 <= r.Floor <= Ceiling(r) <= m
  {
  }

  lemma {:induction false} Fraction(f: real, d: real)
    requires 0.0 <= f <= 1.0 && d >= 0.0
    ensures 0.0 <= f * d <= d && d * f == f * d
  {
  }

  function Of(values: seq<real>, percentile: real): (v: real)
    requires 0.0 <= percentile <= 1.0
  {
    Interpolated(Sort(values), percentile)
  }

  /** Sorting a sorted list again changes nothing. */
  lemma {:induction false} SortAgain(s: seq<real>)
    requires Ascending(s)
    ensures Sort(s) == s
  {
    if s != [] {
      SortAgain(s[1..]);
      assert s == [s[0]] + s[1..];
    }
  }

  /** The second percentile of a list is taken from what the first one sorted, with the same result. */
  lemma {:induction false} PercentileOfSorted(values: seq<real>, percentile: real)
    requires 0.0 <= percentile <= 1.0
    ensures Of(Sort(values), percentile) == Of(values, percentile)
  {
    SortSorts(values);
    SortAgain(Sort(values));
  }

  lemma {:induction false} InterpolatedBetween(s: seq<real>, percentile: real)
    requires 0.0 <= percentile <= 1.0 && Ascending(s) && s != []
    ensures var scaled := Scaled(percentile, |s|);
      s[scaled.Floor] <= Interpolated(s, percentile) <= s[Ceiling(scaled)]
  {
    hide Scaled, Between;
    var scaled := Scaled(percentile, |s|);
    var a, b, f := s[scaled.Floor], s[Ceiling(scaled)], scaled - scaled.Floor as real;
    assert a <= b && 0.0 <= f < 1.0;
    BetweenLies(a, b, f);
  }

  lemma {:induction false} BetweenLies(a: real, b: real, f: real)
    requires a <= b && 0.0 <= f <= 1.0
    ensures a <= Between(a, b, f) <= b
  {
    var d := b - a;
    Fraction(f, d);
    assert Between(a, b, f) == a + d * f;
  }

  /** The percentile of a list, between its two neighbours in sorted order, and the list as left by the call. */
  method GetPercentile(values: seq<real>, percentile: real) returns (result: real, sorted: seq<real>)
    requires 0.0 <= percentile <= 1.0
    ensures Ascending(sorted) && multiset(sorted) == multiset(values)
    ensures |sorted| > 0 ==> var position := Scaled(percentile, |sorted|);
      sorted[position.Floor] <= result <= sorted[Ceiling(position)]
    ensures |sorted| == 0 ==> result == 0.0
    ensures result == Of(values, percentile) && sorted == Sort(values)
  {
    hide Sort, Scaled, Between, Ascending;
    SortSorts(values);
    sorted := Sort(values);
    if |sorted| > 0 {
      InterpolatedBetween(sorted, percentile);
    }
    if |sorted| == 0 {
      return 0.0, sorted;
    }
    var scaledIndex := Scaled(percentile, |sorted|);
    var lowerIndex, upperIndex := scaledIndex.Floor, Ceiling(scaledIndex);
    if lowerIndex == upperIndex {
      return sorted[lowerIndex], sorted;
    }
    var fraction := scaledIndex - lowerIndex as real;
    result := Between(sorted[lowerIndex], sorted[upperIndex], fraction);
  }

  // ----- counting -----

  function Count(values: seq<real>, beyond: real -> bool): (n: nat)
    ensures n <= |values|
  {
    if values == [] then 0 else (if beyond(values[0]) then 1 else 0) + Count(values[1..], beyond)
  }

  function Below(t: real): (beyond: real -> bool)
  {
    v => v < t
  }

  function Above(t: real): (beyond: real -> bool)
  {
    v => v > t
  }

  lemma {:induction false} CountAppend(a: seq<real>, b: seq<real>, beyond: real -> bool)
    ensures Count(a + b, beyond) == Count(a, beyond) + Count(b, beyond)
  {
    if a == [] {
      assert a + b == b;
    } else {
      assert (a + b)[1..] == a[1..] + b;
      CountAppend(a[1..], b, beyond);
    }
  }

  lemma {:induction false} CountInsert(v: real, s: seq<real>, beyond: real -> bool)
    ensures Count(Insert(v, s), beyond) == (if beyond(v) then 1 else 0) + Count(s, beyond)
  {
    if s == [] || v <= s[0] {
      assert ([v] + s)[1..] == s;
    } else {
      CountInsert(v, s[1..], beyond);
      assert ([s[0]] + Insert(v, s[1..]))[1..] == Insert(v, s[1..]);
    }
  }

  /** Sorting changes no count. */
  lemma {:induction false} CountSort(values: seq<real>, beyond: real -> bool)
    ensures Count(Sort(values), beyond) == Count(values, beyond)
  {
    if values != [] {
      CountSort(values[1..], beyond);
      CountInsert(values[0], Sort(values[1..]), beyond);
    }
  }

  lemma {:induction false} CountNone(values: seq<real>, beyond: real -> bool)
    requires forall i :: 0 <= i < |values| ==> !beyond(values[i])
    ensures Count(values, beyond) == 0
  {
    if values != [] {
      CountNone(values[1..], beyond);
    }
  }

  lemma {:induction false} NotBeyond(v: real, t: real)
    ensures v >= t ==> !Below(t)(v)
    ensures v <= t ==> !Above(t)(v)
  {
  }

  /** In a sorted list fewer than `j + 1` values lie below any threshold up to the `j`-th value. */
  lemma {:induction false} FewBelow(s: seq<real>, j: nat, t: real)
    requires Ascending(s) && j < |s| && t <= s[j]
    ensures Count(s, Below(t)) <= j
  {
    hide Count, Below;
    var tail := s[j..];
    assert s == s[..j] + tail;
    CountAppend(s[..j], tail, Below(t));
    forall i | 0 <= i < |tail| ensures !Below(t)(tail[i]) {
      assert s[j] <= s[j + i];
      NotBeyond(tail[i], t);
    }
    CountNone(tail, Below(t));
  }

  lemma {:induction false} FewAbove(s: seq<real>, j: nat, t: real)
    requires Ascending(s) && j < |s| && t >= s[j]
    ensures Count(s, Above(t)) <= |s| - 1 - j
  {
    hide Count, Above;
    var head := s[..j + 1];
    assert s == head + s[j + 1..];
    CountAppend(head, s[j + 1..], Above(t));
    forall i | 0 <= i < |head| ensures !Above(t)(head[i]) {
      assert s[i] <= s[j];
      NotBeyond(head[i], t);
    }
    CountNone(head, Above(t));
  }

  // ----- two percent on either side -----

  /** ceil(0.02 * (m - 1)), in integers. */
  function Tail(m: nat): (k: nat)
    requires m > 0
  {
    (m - 1 + 49) / 50
  }

  lemma {:induction false} TwoPercent(n: nat)
    ensures Ceiling(0.02 * n as real) == (n + 49) / 50
    ensures (0.98 * n as real).Floor == n - (n + 49) / 50
  {
    var q, r := n / 50, n % 50;
    assert n as real == 50.0 * q as real + r as real;
    var low := 0.02 * n as real;
    assert low == q as real + 0.02 * r as real;
    assert 0.98 * n as real == n as real - low;
  }

  /** At most a fiftieth of the values, rounded up, lie below the 2% percentile, and as many above the 98% one. */
  lemma {:induction false} TailsAreShort(values: seq<real>, low: real, high: real)
    requires values != [] && low <= Of(values, 0.02) && Of(values, 0.98) <= high
    ensures Count(values, Below(low)) <= Tail(|values|)
    ensures Count(values, Above(high)) <= Tail(|values|)
  {
    hide Sort, Interpolated, Count, Ascending, Ceiling;
    var s := Sort(values);
    SortSorts(values);
    TwoPercent(|s| - 1);
    InterpolatedBetween(s, 0.02);
    InterpolatedBetween(s, 0.98);
    FewBelow(s, Ceiling(Scaled(0.02, |s|)), low);
    FewAbove(s, Scaled(0.98, |s|).Floor, high);
    CountSort(values, Below(low));
    CountSort(values, Above(high));
  }
}
