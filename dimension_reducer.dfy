/**
 * The dimension reducer of `grib_to_geojson`: fix the lead-time dimension at
 * the 24-hour step (or at its first index when that step cannot be selected),
 * then drop every non-spatial dimension of size 1, one dimension at a time.
 */
module DimensionReducer {
  import opened Wrappers
  import opened DataCube

  const STEP: string := "step"

  /** The lead time, in hours, the pipeline asks for. */
  const LEAD_HOURS: int := 24

  /** `var.isel(step=0)` on a step dimension of length 0 raises. */
  datatype ReduceError = EmptyStep

  /** `var.sel(step=24)` succeeds: there is a step coordinate and it holds 24. */
  predicate HasLeadTime(v: Variable)
  {
    v.stepCoord.Some? && LEAD_HOURS in v.stepCoord.value
  }

  /**
   * The lead-time selection: a variable without a step dimension is kept as
   * it is; otherwise the step is fixed at the position of 24 in the step
   * coordinate when `sel` finds it there, and at position 0 when it does not
   * (no coordinate, or no such value), which fails on an empty step dimension.
   */
  function SelectLeadTime(v: Variable): (r: Result<Variable, ReduceError>)
    requires v.Valid()
    ensures STEP !in v.dims ==> r == Ok(v)
    ensures STEP in v.dims && HasLeadTime(v) ==>
              r == Ok(Isel(v, STEP, IndexOf(v.stepCoord.value, LEAD_HOURS)))
    ensures STEP in v.dims && !HasLeadTime(v) ==>
              r == if v.SizeOf(STEP) == 0 then Err(EmptyStep) else Ok(Isel(v, STEP, 0))
    ensures r.Ok? ==> r.value.Valid() && STEP !in r.value.dims
  {
    if STEP !in v.dims then Ok(v)
    else if HasLeadTime(v) then Ok(Isel(v, STEP, IndexOf(v.stepCoord.value, LEAD_HOURS)))
    else if v.SizeOf(STEP) == 0 then Err(EmptyStep)
    else Ok(Isel(v, STEP, 0))
  }

  /** The dimension names the squeeze never drops. */
  predicate IsSpatial(d: string)
  {
    d in ["latitude", "lat", "longitude", "lon"]
  }

  /** The squeeze keeps dimension i when it is spatial or its size is not 1. */
  function KeepMask(dims: seq<string>, sizes: seq<nat>): seq<bool>
    requires |dims| == |sizes|
  {
    seq(|dims|, i requires 0 <= i < |dims| => IsSpatial(dims[i]) || sizes[i] != 1)
  }

  /** The number of true entries among the first m of mask. */
  function Count(mask: seq<bool>, m: nat): (n: nat)
    requires m <= |mask|
    ensures n <= m
  {
    if m == 0 then 0 else Count(mask, m - 1) + (if mask[m - 1] then 1 else 0)
  }

  lemma {:induction false} CountMonotone(mask: seq<bool>, i: nat, j: nat)
    requires i <= j <= |mask|
    ensures Count(mask, i) <= Count(mask, j)
  {
    if i < j {
      CountMonotone(mask, i, j - 1);
    }
  }

  /** The elements among the first m of s whose mask entry is true, in order. */
  function Select<T>(s: seq<T>, mask: seq<bool>, m: nat): (r: seq<T>)
    requires |s| == |mask| && m <= |s|
    ensures |r| == Count(mask, m)
  {
    if m == 0 then [] else Select(s, mask, m - 1) + (if mask[m - 1] then [s[m - 1]] else [])
  }

  /** One turn of the squeeze loop over dimension d. */
  function DropIfSingleton(v: Variable, d: string): (r: Variable)
    requires v.Valid()
    ensures r.Valid()
  {
    if d in v.dims && !IsSpatial(d) && v.SizeOf(d) == 1 then Isel(v, d, 0) else v
  }

  /** The variable the first m turns of the squeeze loop leave. */
  function SqueezeTurns(v: Variable, m: nat): (r: Variable)
    requires v.Valid() && m <= |v.dims|
    ensures r.Valid()
  {
    if m == 0 then v else DropIfSingleton(SqueezeTurns(v, m - 1), v.dims[m - 1])
  }

  /** `for dim in list(data_max.dims): ...`: the squeeze loop of `grib_to_geojson`. */
  method Squeeze(v: Variable) returns (r: Variable)
    requires v.Valid()
    ensures r == SqueezeTurns(v, |v.dims|)
  {
    var dims := v.dims;
    r := v;
    for i := 0 to |dims|
      invariant r == SqueezeTurns(v, i)
    {
      var d := dims[i];
      if !IsSpatial(d) && d in r.dims && r.SizeOf(d) == 1 {
        r := Isel(r, d, 0);
      }
    }
  }

  /** One turn of the loop on a variable whose dimensions are a, then d, then the rest. */
  lemma DropStep(cur: Variable, a: seq<string>, d: string, restD: seq<string>,
                 b: seq<nat>, size: nat, restS: seq<nat>)
    requires cur.Valid() && |a| == |b|
    requires cur.dims == a + [d] + restD && cur.sizes == b + [size] + restS
    ensures IsSpatial(d) || size != 1 ==> DropIfSingleton(cur, d) == cur
    ensures !(IsSpatial(d) || size != 1) ==>
              DropIfSingleton(cur, d).dims == a + restD && DropIfSingleton(cur, d).sizes == b + restS
  {
    assert cur.dims[|a|] == d;
    IndexOfDistinct(cur.dims, |a|);
    assert cur.SizeOf(d) == size;
    if !(IsSpatial(d) || size != 1) {
      RemoveAtSplit(a, d, restD);
      RemoveAtSplit(b, size, restS);
    }
  }

  /** What one dropping turn of the loop does to the value at index idx. */
  lemma DropStepAt(cur: Variable, a: seq<string>, d: string, restD: seq<string>, idx: seq<nat>)
    requires cur.Valid() && cur.dims == a + [d] + restD
    requires !IsSpatial(d) && cur.SizeOf(d) == 1
    ensures DropIfSingleton(cur, d).at(idx) == cur.at(InsertAt(idx, |a|, 0))
  {
    assert cur.dims[|a|] == d;
    IndexOfDistinct(cur.dims, |a|);
  }

  /**
   * After the first m turns of the loop the dimensions are the kept ones
   * among the first m, followed by the m-th and later ones untouched.
   */
  lemma {:induction false} SqueezePrefixShape(v: Variable, m: nat)
    requires v.Valid() && m <= |v.dims|
    ensures SqueezeTurns(v, m).dims == Select(v.dims, KeepMask(v.dims, v.sizes), m) + v.dims[m..]
    ensures SqueezeTurns(v, m).sizes == Select(v.sizes, KeepMask(v.dims, v.sizes), m) + v.sizes[m..]
  {
    if m > 0 {
      SqueezePrefixShape(v, m - 1);
      ShapeTurn(v, m, SqueezeTurns(v, m - 1));
    } else {
      assert v.dims[0..] == v.dims && v.sizes[0..] == v.sizes;
    }
  }

  /** The m-th turn, on a variable with the shape the first m - 1 turns leave. */
  lemma ShapeTurn(v: Variable, m: nat, cur: Variable)
    requires v.Valid() && 0 < m <= |v.dims| && cur.Valid()
    requires cur.dims == Select(v.dims, KeepMask(v.dims, v.sizes), m - 1) + v.dims[m - 1..]
    requires cur.sizes == Select(v.sizes, KeepMask(v.dims, v.sizes), m - 1) + v.sizes[m - 1..]
    ensures DropIfSingleton(cur, v.dims[m - 1]).dims == Select(v.dims, KeepMask(v.dims, v.sizes), m) + v.dims[m..]
    ensures DropIfSingleton(cur, v.dims[m - 1]).sizes == Select(v.sizes, KeepMask(v.dims, v.sizes), m) + v.sizes[m..]
  {
    var mask := KeepMask(v.dims, v.sizes);
    var d, size := v.dims[m - 1], v.sizes[m - 1];
    var a, b := Select(v.dims, mask, m - 1), Select(v.sizes, mask, m - 1);
    SplitTail(a, v.dims, m - 1);
    SplitTail(b, v.sizes, m - 1);
    DropStep(cur, a, d, v.dims[m..], b, size, v.sizes[m..]);
    assert mask[m - 1] == (IsSpatial(d) || size != 1);
    if mask[m - 1] {
      assert Select(v.dims, mask, m) == a + [d];
      assert Select(v.sizes, mask, m) == b + [size];
    } else {
      assert Select(v.dims, mask, m) == a + [];
      assert Select(v.sizes, mask, m) == b + [];
      assert a + [] == a && b + [] == b;
    }
  }

  /**
   * The squeeze drops exactly the non-spatial dimensions of size 1 and keeps
   * every other dimension, with its size, in its original order.
   */
  lemma SqueezeShape(v: Variable)
    requires v.Valid()
    ensures SqueezeTurns(v, |v.dims|).dims == Select(v.dims, KeepMask(v.dims, v.sizes), |v.dims|)
    ensures SqueezeTurns(v, |v.dims|).sizes == Select(v.sizes, KeepMask(v.dims, v.sizes), |v.dims|)
  {
    SqueezePrefixShape(v, |v.dims|);
    assert v.dims[|v.dims|..] == [] && v.sizes[|v.dims|..] == [];
  }

  /**
   * The index vector, over the dimensions the first m turns leave, turned
   * into one over the original dimensions: a kept dimension i among the
   * first m reads the entry of idx numbered by the kept dimensions before
   * it, a dropped one reads index 0, and the untouched later dimensions
   * read the remaining entries of idx in order.
   */
  function Expand(mask: seq<bool>, m: nat, idx: seq<nat>): (r: seq<nat>)
    requires m <= |mask| && Count(mask, m) <= |idx|
    ensures |r| == |idx| + m - Count(mask, m)
  {
    seq(|idx| + m - Count(mask, m), i requires 0 <= i < |idx| + m - Count(mask, m) =>
      if m <= i then idx[i - m + Count(mask, m)]
      else if mask[i] then CountMonotone(mask, i + 1, m); idx[Count(mask, i)]
      else 0)
  }

  /** What the m-th turn does to an index vector: nothing when it keeps its dimension, index 0 put in where it drops it. */
  function TurnIndex(mask: seq<bool>, m: nat, idx: seq<nat>): seq<nat>
    requires 0 < m <= |mask|
  {
    if mask[m - 1] then idx else InsertAt(idx, Count(mask, m - 1), 0)
  }

  /** Expand over m dimensions is Expand over m - 1 after the m-th turn's step on idx. */
  lemma ExpandStep(mask: seq<bool>, m: nat, idx: seq<nat>)
    requires 0 < m <= |mask| && Count(mask, m) <= |idx|
    ensures Count(mask, m - 1) <= |TurnIndex(mask, m, idx)|
    ensures Expand(mask, m, idx) == Expand(mask, m - 1, TurnIndex(mask, m, idx))
  {
    var c := Count(mask, m - 1);
    if mask[m - 1] {
      assert Count(mask, m) == c + 1;
      forall i | 0 <= i < |idx| + m - (c + 1) ensures Expand(mask, m, idx)[i] == Expand(mask, m - 1, idx)[i] {
        ExpandKeptStepAt(mask, m, idx, i);
      }
    } else {
      assert Count(mask, m) == c;
      var idx' := InsertAt(idx, c, 0);
      forall i | 0 <= i < |idx| + m - c ensures Expand(mask, m, idx)[i] == Expand(mask, m - 1, idx')[i] {
        ExpandDroppedStepAt(mask, m, idx, i);
      }
    }
  }

  lemma ExpandKeptStepAt(mask: seq<bool>, m: nat, idx: seq<nat>, i: nat)
    requires 0 < m <= |mask| && mask[m - 1] && Count(mask, m) == Count(mask, m - 1) + 1 <= |idx|
    requires i < |idx| + m - Count(mask, m)
    ensures Expand(mask, m, idx)[i] == Expand(mask, m - 1, idx)[i]
  {
    var c := Count(mask, m - 1);
    if i == m - 1 {
      assert Expand(mask, m, idx)[i] == idx[c];
      assert Expand(mask, m - 1, idx)[i] == idx[c];
    } else if m <= i {
      assert Expand(mask, m, idx)[i] == idx[i - m + c + 1];
      assert Expand(mask, m - 1, idx)[i] == idx[i - (m - 1) + c];
    }
  }

  lemma ExpandDroppedStepAt(mask: seq<bool>, m: nat, idx: seq<nat>, i: nat)
    requires 0 < m <= |mask| && !mask[m - 1] && Count(mask, m) == Count(mask, m - 1) <= |idx|
    requires i < |idx| + m - Count(mask, m)
    ensures Expand(mask, m, idx)[i] == Expand(mask, m - 1, InsertAt(idx, Count(mask, m - 1), 0))[i]
  {
    var c := Count(mask, m - 1);
    var idx' := InsertAt(idx, c, 0);
    if i < m - 1 {
      if mask[i] {
        var k := Count(mask, i);
        CountMonotone(mask, i + 1, m - 1);
        assert k < c;
        InsertAtIndex(idx, c, 0, k);
        assert Expand(mask, m, idx)[i] == idx[k];
        assert Expand(mask, m - 1, idx')[i] == idx'[k];
      }
    } else if i == m - 1 {
      InsertAtIndex(idx, c, 0, c);
      assert Expand(mask, m - 1, idx')[i] == idx'[c];
    } else {
      var j := i - m + c;
      InsertAtIndex(idx, c, 0, j + 1);
      assert Expand(mask, m, idx)[i] == idx[j];
      assert Expand(mask, m - 1, idx')[i] == idx'[j + 1];
    }
  }

  /** What the first m turns keep of the values: index idx reads the original at Expand(mask, m, idx). */
  lemma {:induction false} SqueezePrefixData(v: Variable, m: nat, idx: seq<nat>)
    requires v.Valid() && m <= |v.dims| && Count(KeepMask(v.dims, v.sizes), m) <= |idx|
    ensures SqueezeTurns(v, m).at(idx) == v.at(Expand(KeepMask(v.dims, v.sizes), m, idx))
  {
    var mask := KeepMask(v.dims, v.sizes);
    if m > 0 {
      TurnData(v, m, idx);
      ExpandStep(mask, m, idx);
      SqueezePrefixData(v, m - 1, TurnIndex(mask, m, idx));
    } else {
      assert Expand(mask, 0, idx) == idx;
    }
  }

  /** The m-th turn reads the variable the first m - 1 turns leave at the turn's step on idx. */
  lemma TurnData(v: Variable, m: nat, idx: seq<nat>)
    requires v.Valid() && 0 < m <= |v.dims|
    ensures SqueezeTurns(v, m).at(idx) == SqueezeTurns(v, m - 1).at(TurnIndex(KeepMask(v.dims, v.sizes), m, idx))
  {
    SqueezePrefixShape(v, m - 1);
    DataTurn(v, m, SqueezeTurns(v, m - 1), idx);
  }

  /** The m-th turn, on a variable with the shape the first m - 1 turns leave. */
  lemma DataTurn(v: Variable, m: nat, cur: Variable, idx: seq<nat>)
    requires v.Valid() && 0 < m <= |v.dims| && cur.Valid()
    requires cur.dims == Select(v.dims, KeepMask(v.dims, v.sizes), m - 1) + v.dims[m - 1..]
    requires cur.sizes == Select(v.sizes, KeepMask(v.dims, v.sizes), m - 1) + v.sizes[m - 1..]
    ensures DropIfSingleton(cur, v.dims[m - 1]).at(idx) == cur.at(TurnIndex(KeepMask(v.dims, v.sizes), m, idx))
  {
    var mask := KeepMask(v.dims, v.sizes);
    var d, size := v.dims[m - 1], v.sizes[m - 1];
    var a, b := Select(v.dims, mask, m - 1), Select(v.sizes, mask, m - 1);
    SplitTail(a, v.dims, m - 1);
    SplitTail(b, v.sizes, m - 1);
    assert cur.dims[|a|] == d && cur.sizes[|b|] == size;
    IndexOfDistinct(cur.dims, |a|);
    if !mask[m - 1] {
      DropStepAt(cur, a, d, v.dims[m..], idx);
    }
  }

  lemma SplitTail<T>(pre: seq<T>, s: seq<T>, k: nat)
    requires k < |s|
    ensures pre + s[k..] == pre + [s[k]] + s[k + 1..]
  {
    assert s[k..] == [s[k]] + s[k + 1..];
  }

  /**
   * The squeezed variable reads, at index idx, the original variable at
   * idx spread over the kept dimensions with index 0 at every dropped one.
   */
  lemma SqueezeData(v: Variable, idx: seq<nat>)
    requires v.Valid() && |idx| == Count(KeepMask(v.dims, v.sizes), |v.dims|)
    ensures SqueezeTurns(v, |v.dims|).at(idx) == v.at(Expand(KeepMask(v.dims, v.sizes), |v.dims|, idx))
  {
    SqueezePrefixData(v, |v.dims|, idx);
  }
}
