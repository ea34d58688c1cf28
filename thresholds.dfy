/**
 * The threshold engine (`compute_thresholds`): keep the finite, strictly
 * positive values of the field; with none left use the fixed defaults, else
 * take the 0.55, 0.85 and 0.98 quantiles of what is left, by numpy's default
 * "linear" method, as the proxies for 2-, 5- and 20-year discharges.
 */
module Thresholds {
  import opened Discharge

  datatype Triple = Triple(q2: real, q5: real, q20: real)

  const DEFAULTS: Triple := Triple(1.0, 5.0, 10.0)

  predicate Ordered(t: Triple)
  {
    t.q2 <= t.q5 <= t.q20
  }

  /** The positive values of one row, in order. */
  function RowPositives(row: seq<Val>): (p: seq<real>)
    ensures forall x :: x in p ==> x > 0.0 && Finite(x) in row
    ensures forall v :: v in row && IsPositive(v) ==> v.r in p
  {
    if row == [] then []
    else (if IsPositive(row[0]) then [row[0].r] else []) + RowPositives(row[1..])
  }

  /** `values[np.isfinite(values) & (values > 0)]`: the positive values of the field, row-major. */
  function Positives(grid: seq<seq<Val>>): (p: seq<real>)
    ensures forall x :: x in p ==> x > 0.0
    ensures forall x :: x in p ==> exists i :: 0 <= i < |grid| && Finite(x) in grid[i]
    ensures forall i, v :: 0 <= i < |grid| && v in grid[i] && IsPositive(v) ==> v.r in p
  {
    if grid == [] then []
    else
      var rest := Positives(grid[1..]);
      assert forall x :: x in rest ==> exists i :: 1 <= i < |grid| && Finite(x) in grid[i] by {
        forall x | x in rest ensures exists i :: 1 <= i < |grid| && Finite(x) in grid[i] {
          var i :| 0 <= i < |grid[1..]| && Finite(x) in grid[1..][i];
          assert Finite(x) in grid[i + 1];
        }
      }
      assert forall i, v :: 1 <= i < |grid| && v in grid[i] && IsPositive(v) ==> v.r in rest by {
        forall i, v | 1 <= i < |grid| && v in grid[i] && IsPositive(v) ensures v.r in rest {
          assert grid[i] == grid[1..][i - 1];
        }
      }
      RowPositives(grid[0]) + rest
  }

  /** The field in numpy's row-major order, the order a boolean mask reads it in. */
  function Flatten(grid: seq<seq<Val>>): seq<Val>
  {
    if grid == [] then [] else grid[0] + Flatten(grid[1..])
  }

  lemma {:induction false} RowPositivesAppend(a: seq<Val>, b: seq<Val>)
    ensures RowPositives(a + b) == RowPositives(a) + RowPositives(b)
  {
    if a == [] {
      assert a + b == b;
    } else {
      assert (a + b)[0] == a[0] && (a + b)[1..] == a[1..] + b;
      RowPositivesAppend(a[1..], b);
    }
  }

  /** The positive values of the field are those of its row-major flattening, in that order. */
  lemma {:induction false} PositivesFlatten(grid: seq<seq<Val>>)
    ensures Positives(grid) == RowPositives(Flatten(grid))
  {
    if grid != [] {
      PositivesFlatten(grid[1..]);
      RowPositivesAppend(grid[0], Flatten(grid[1..]));
    }
  }

  /** Every finite positive value of a row is kept as often as it occurs, and nothing else is kept. */
  lemma {:induction false} RowPositivesCount(row: seq<Val>, x: real)
    ensures multiset(RowPositives(row))[x] == if x > 0.0 then multiset(row)[Finite(x)] else 0
  {
    if row != [] {
      RowPositivesCount(row[1..], x);
      assert row == [row[0]] + row[1..];
      assert multiset(row)[Finite(x)] == multiset([row[0]])[Finite(x)] + multiset(row[1..])[Finite(x)];
      var head := if IsPositive(row[0]) then [row[0].r] else [];
      assert multiset(RowPositives(row))[x] == multiset(head)[x] + multiset(RowPositives(row[1..]))[x];
    }
  }

  /**
   * `values[np.isfinite(values) & (values > 0)]` keeps each finite positive
   * value of the field as often as it occurs there, and nothing else.
   */
  lemma PositivesCount(grid: seq<seq<Val>>, x: real)
    ensures multiset(Positives(grid))[x] == if x > 0.0 then multiset(Flatten(grid))[Finite(x)] else 0
  {
    PositivesFlatten(grid);
    RowPositivesCount(Flatten(grid), x);
  }

  predicate Sorted(s: seq<real>)
  {
    forall i, j :: 0 <= i < j < |s| ==> s[i] <= s[j]
  }

  lemma SortedCons(y: real, t: seq<real>)
    requires Sorted(t) && forall z :: z in t ==> y <= z
    ensures Sorted([y] + t)
  {
    forall i, j | 0 <= i < j < |[y] + t| ensures ([y] + t)[i] <= ([y] + t)[j] {
      assert ([y] + t)[j] == t[j - 1];
      if i > 0 {
        assert ([y] + t)[i] == t[i - 1];
      } else {
        assert t[j - 1] in t;
      }
    }
  }

  /** Every element of a sorted sequence is at least its first one, so at least anything below that. */
  lemma AllAbove(x: real, s: seq<real>)
    requires Sorted(s) && s != [] && x <= s[0]
    ensures forall z :: z in s ==> x <= z
  {
    forall z | z in s ensures x <= z {
      SortedFirst(s, z);
    }
  }

  /** A bound on x and on every element of t bounds every element of a permutation of t + [x]. */
  lemma BoundBy(lo: real, x: real, t: seq<real>, r: seq<real>)
    requires lo <= x && (forall z :: z in t ==> lo <= z) && multiset(r) == multiset(t) + multiset{x}
    ensures forall y :: y in r ==> lo <= y
  {
    forall y | y in r ensures lo <= y {
      assert y in multiset(r);
      if y != x {
        assert y in multiset(t);
        assert y in t;
      }
    }
  }

  function Insert(x: real, s: seq<real>): (r: seq<real>)
    requires Sorted(s)
    ensures Sorted(r) && multiset(r) == multiset(s) + multiset{x}
  {
    if s == [] then [x]
    else if x <= s[0] then
      AllAbove(x, s);
      SortedCons(x, s);
      [x] + s
    else
      var tail := s[1..];
      SplitFirst(s);
      AllAbove(s[0], s);
      var rest := Insert(x, tail);
      BoundBy(s[0], x, tail, rest);
      SortedCons(s[0], rest);
      assert multiset([s[0]] + rest) == multiset{s[0]} + multiset(rest);
      [s[0]] + rest
  }

  /** The sorted order numpy takes the order statistics from. */
  function Sort(s: seq<real>): (r: seq<real>)
    ensures Sorted(r) && multiset(r) == multiset(s)
  {
    if s == [] then []
    else
      assert s == [s[0]] + s[1..];
      Insert(s[0], Sort(s[1..]))
  }

  /** The first element of a sorted sequence is at most every element. */
  lemma SortedFirst(a: seq<real>, x: real)
    requires Sorted(a) && x in multiset(a)
    ensures a != [] && a[0] <= x
  {
    var k :| 0 <= k < |a| && a[k] == x;
    assert k == 0 || a[0] <= a[k];
  }

  /** A non-empty sequence is its first element and its tail, as a multiset too. */
  lemma SplitFirst(a: seq<real>)
    requires a != []
    ensures multiset(a[1..]) == multiset(a) - multiset{a[0]}
    ensures Sorted(a) ==> Sorted(a[1..])
  {
    assert a == [a[0]] + a[1..];
  }

  lemma SameLength(a: seq<real>, b: seq<real>)
    requires multiset(a) == multiset(b)
    ensures |a| == |b|
  {
    assert |a| == |multiset(a)| && |b| == |multiset(b)|;
  }

  lemma ConsEqual(a: seq<real>, b: seq<real>)
    requires a != [] && b != [] && a[0] == b[0] && a[1..] == b[1..]
    ensures a == b
  {
    assert a == [a[0]] + a[1..] && b == [b[0]] + b[1..];
  }

  /** There is only one sorted arrangement of a multiset of values. */
  lemma {:induction false} SortedUnique(a: seq<real>, b: seq<real>)
    requires Sorted(a) && Sorted(b) && multiset(a) == multiset(b)
    ensures a == b
  {
    SameLength(a, b);
    if a != [] {
      SortedFirst(a, b[0]);
      SortedFirst(b, a[0]);
      SplitFirst(a);
      SplitFirst(b);
      SortedUnique(a[1..], b[1..]);
      ConsEqual(a, b);
    }
  }

  /** Sorting a sequence that is already in order leaves it unchanged. */
  lemma SortSorted(s: seq<real>)
    requires Sorted(s)
    ensures Sort(s) == s
  {
    SortedUnique(Sort(s), s);
  }

  lemma MulMonotone(g: real, g': real, d: real)
    requires 0.0 <= g <= g' && 0.0 <= d
    ensures g * d <= g' * d
  {
  }

  /** The virtual index (n-1)p of the linear method, for n values. */
  function VirtualIndex(n: nat, p: real): real
  {
    if n == 0 then 0.0 else (n - 1) as real * p
  }

  lemma VirtualIndexMonotone(n: nat, p: real, p': real)
    requires n > 0 && 0.0 <= p <= p' <= 1.0
    ensures 0.0 <= VirtualIndex(n, p) <= VirtualIndex(n, p') <= (n - 1) as real
  {
    var m := (n - 1) as real;
    MulMonotone(0.0, p, m);
    MulMonotone(p, p', m);
    MulMonotone(p', 1.0, m);
    assert p * m == m * p && p' * m == m * p';
  }

  /** Linear interpolation from a towards b by the fraction g. */
  function Lerp(a: real, b: real, g: real): real
  {
    a + g * (b - a)
  }

  lemma LerpMonotone(a: real, b: real, g: real, g': real)
    requires a <= b && 0.0 <= g <= g' <= 1.0
    ensures a <= Lerp(a, b, g) <= Lerp(a, b, g') <= b
  {
    MulMonotone(0.0, g, b - a);
    MulMonotone(g, g', b - a);
    MulMonotone(g', 1.0, b - a);
  }

  /**
   * `np.quantile(x, p)` with the "linear" method on sorted data: the order
   * statistics below and above the virtual index (n-1)p, interpolated by its
   * fractional part; at the last index, the last value.
   */
  function Quantile(x: seq<real>, p: real): (q: real)
    requires |x| > 0 && Sorted(x) && 0.0 <= p <= 1.0
    ensures x[0] <= q <= x[|x| - 1]
  {
    var h := VirtualIndex(|x|, p);
    VirtualIndexMonotone(|x|, p, p);
    var lo := h.Floor;
    if lo >= |x| - 1 then x[|x| - 1]
    else
      LerpMonotone(x[lo], x[lo + 1], h - lo as real, h - lo as real);
      assert x[0] <= x[lo] && x[lo + 1] <= x[|x| - 1];
      Lerp(x[lo], x[lo + 1], h - lo as real)
  }

  /** Where the linear method lands: between the order statistics either side of (n-1)p. */
  lemma QuantileBracket(x: seq<real>, p: real)
    requires |x| > 0 && Sorted(x) && 0.0 <= p <= 1.0
    ensures var lo := VirtualIndex(|x|, p).Floor;
      && 0 <= lo < |x|
      && x[lo] <= Quantile(x, p)
      && (lo < |x| - 1 ==> Quantile(x, p) <= x[lo + 1])
      && (lo == |x| - 1 ==> Quantile(x, p) == x[lo])
  {
    var h := VirtualIndex(|x|, p);
    VirtualIndexMonotone(|x|, p, p);
    var lo := h.Floor;
    if lo < |x| - 1 {
      LerpMonotone(x[lo], x[lo + 1], h - lo as real, h - lo as real);
    }
  }

  /** A larger fraction never gives a smaller quantile. */
  lemma QuantileMonotone(x: seq<real>, p: real, p': real)
    requires |x| > 0 && Sorted(x) && 0.0 <= p <= p' <= 1.0
    ensures Quantile(x, p) <= Quantile(x, p')
  {
    var n := |x|;
    VirtualIndexMonotone(n, p, p');
    var h, h' := VirtualIndex(n, p), VirtualIndex(n, p');
    var lo, lo' := h.Floor, h'.Floor;
    assert lo as real <= h && h' < lo' as real + 1.0;
    assert (lo as real) < (lo' + 1) as real;
    QuantileBracket(x, p);
    QuantileBracket(x, p');
    if lo < lo' {
      assert x[lo + 1] <= x[lo'];
    } else if lo < n - 1 {
      LerpMonotone(x[lo], x[lo + 1], h - lo as real, h' - lo as real);
    }
  }

  /** At a fraction k/(n-1) the linear method returns the k-th order statistic itself. */
  lemma QuantileOrderStatistic(x: seq<real>, k: nat)
    requires |x| >= 2 && Sorted(x) && k < |x|
    ensures Quantile(x, k as real / (|x| - 1) as real) == x[k]
  {
    var m := (|x| - 1) as real;
    var p := k as real / m;
    assert 0.0 <= p <= 1.0;
    assert VirtualIndex(|x|, p) == m * p == k as real;
    assert (k as real).Floor == k;
  }

  /**
   * `compute_thresholds`: the defaults when no value is finite and positive,
   * otherwise the 0.55, 0.85 and 0.98 quantiles of the positive values.
   */
  function ComputeThresholds(grid: seq<seq<Val>>): (t: Triple)
    ensures Positives(grid) == [] ==> t == DEFAULTS
    ensures Ordered(t) && 0.0 < t.q2
    ensures Positives(grid) != [] ==>
              && (exists x :: x in Positives(grid) && x <= t.q2)
              && (exists y :: y in Positives(grid) && t.q20 <= y)
  {
    var positive := Positives(grid);
    if |positive| == 0 then DEFAULTS
    else
      var s := Sort(positive);
      QuantileMonotone(s, 0.55, 0.85);
      QuantileMonotone(s, 0.85, 0.98);
      assert s[0] in multiset(positive) && s[|s| - 1] in multiset(positive);
      var q2, q5, q20 := Quantile(s, 0.55), Quantile(s, 0.85), Quantile(s, 0.98);
      assert s[0] in positive && s[0] > 0.0 && s[0] <= q2;
      assert s[|s| - 1] in positive && q20 <= s[|s| - 1];
      Triple(q2, q5, q20)
  }

  /**
   * The thresholds depend only on which positive values occur and how often,
   * not on where they sit in the field.
   */
  lemma ThresholdsIgnorePlacement(g1: seq<seq<Val>>, g2: seq<seq<Val>>)
    requires multiset(Positives(g1)) == multiset(Positives(g2))
    ensures ComputeThresholds(g1) == ComputeThresholds(g2)
  {
    var p1, p2 := Positives(g1), Positives(g2);
    assert |p1| == |multiset(p1)| == |multiset(p2)| == |p2|;
    if |p1| > 0 {
      SortedUnique(Sort(p1), Sort(p2));
    }
  }

  /** Rearranging the values of a field, in any shape, leaves the thresholds unchanged. */
  lemma ThresholdsOfRearrangement(g1: seq<seq<Val>>, g2: seq<seq<Val>>)
    requires multiset(Flatten(g1)) == multiset(Flatten(g2))
    ensures ComputeThresholds(g1) == ComputeThresholds(g2)
  {
    forall x ensures multiset(Positives(g1))[x] == multiset(Positives(g2))[x] {
      PositivesCount(g1, x);
      PositivesCount(g2, x);
    }
    assert multiset(Positives(g1)) == multiset(Positives(g2));
    ThresholdsIgnorePlacement(g1, g2);
  }
}
