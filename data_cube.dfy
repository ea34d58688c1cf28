/**
 * The decoded forecast file as the pipeline sees it: a dataset of named
 * variables, each a labelled n-dimensional array, and 1-D coordinate arrays.
 * Decoding the file itself is outside the model; this is its result.
 */
module DataCube {
  import opened Wrappers
  import opened Discharge

  predicate Distinct<T(==)>(s: seq<T>)
  {
    forall i, j :: 0 <= i < j < |s| ==> s[i] != s[j]
  }

  /** The first position of x in s. */
  function IndexOf<T(==)>(s: seq<T>, x: T): (k: nat)
    requires x in s
    ensures k < |s| && s[k] == x
    ensures forall k' :: 0 <= k' < k ==> s[k'] != x
  {
    if s[0] == x then 0 else 1 + IndexOf(s[1..], x)
  }

  /** s without its element at position k. */
  function RemoveAt<T>(s: seq<T>, k: nat): (r: seq<T>)
    requires k < |s|
    ensures |r| == |s| - 1
  {
    s[..k] + s[k + 1..]
  }

  /** Before k RemoveAt leaves s as it is, from k on it holds s shifted by one. */
  lemma RemoveAtIndex<T>(s: seq<T>, k: nat, i: nat)
    requires k < |s| && i < |s| - 1
    ensures RemoveAt(s, k)[i] == if i < k then s[i] else s[i + 1]
  {
  }

  lemma RemoveAtSplit<T>(a: seq<T>, x: T, rest: seq<T>)
    ensures RemoveAt(a + [x] + rest, |a|) == a + rest
  {
    assert (a + [x] + rest)[..|a|] == a;
    assert (a + [x] + rest)[|a| + 1..] == rest;
  }

  /** The index vector idx with t put in at position k. */
  function InsertAt(idx: seq<nat>, k: nat, t: nat): (r: seq<nat>)
    ensures k <= |idx| ==> |r| == |idx| + 1
  {
    if k <= |idx| then seq(|idx| + 1, i requires 0 <= i <= |idx| => if i < k then idx[i] else if i == k then t else idx[i - 1])
    else idx + [t]
  }

  /** Before k InsertAt leaves idx as it is, at k it holds t, after k it holds idx shifted by one. */
  lemma InsertAtIndex(idx: seq<nat>, k: nat, t: nat, i: nat)
    requires k <= |idx| && i <= |idx|
    ensures InsertAt(idx, k, t)[i] == if i < k then idx[i] else if i == k then t else idx[i - 1]
  {
  }

  /**
   * A labelled n-dimensional array (an xarray DataArray): the names of its
   * dimensions in order, their sizes, the values of its "step" coordinate
   * when it has one, and the value at each index vector.
   */
  datatype Variable = Variable(dims: seq<string>, sizes: seq<nat>, stepCoord: Option<seq<int>>, at: seq<nat> -> Val)
  {
    predicate Valid()
    {
      && |dims| == |sizes|
      && Distinct(dims)
      && ("step" in dims && stepCoord.Some? ==> |stepCoord.value| == SizeOf("step"))
    }

    /** `var.sizes[d]`. */
    function SizeOf(d: string): nat
      requires |dims| == |sizes| && d in dims
    {
      sizes[IndexOf(dims, d)]
    }
  }

  /** In a sequence without repeats the position of s[k] is k. */
  lemma IndexOfDistinct<T>(s: seq<T>, k: nat)
    requires Distinct(s) && k < |s|
    ensures IndexOf(s, s[k]) == k
  {
  }

  lemma RemoveAtDistinct<T>(s: seq<T>, k: nat)
    requires Distinct(s) && k < |s|
    ensures Distinct(RemoveAt(s, k))
    ensures forall e :: e in RemoveAt(s, k) <==> e in s && e != s[k]
  {
    var r := RemoveAt(s, k);
    forall i, j | 0 <= i < j < |r| ensures r[i] != r[j] {
      RemoveAtIndex(s, k, i);
      RemoveAtIndex(s, k, j);
    }
    forall e ensures e in r <==> e in s && e != s[k] {
      if e in r {
        var i :| 0 <= i < |r| && r[i] == e;
        RemoveAtIndex(s, k, i);
      }
      if e in s && e != s[k] {
        var i :| 0 <= i < |s| && s[i] == e;
        var i' := if i < k then i else i - 1;
        RemoveAtIndex(s, k, i');
        assert r[i'] == e;
      }
    }
  }

  /** Dropping one dimension leaves the size of every other dimension as it was. */
  lemma RemoveAtSizes(dims: seq<string>, sizes: seq<nat>, k: nat)
    requires |dims| == |sizes| && Distinct(dims) && k < |dims|
    ensures forall e :: e in RemoveAt(dims, k) ==>
      RemoveAt(sizes, k)[IndexOf(RemoveAt(dims, k), e)] == sizes[IndexOf(dims, e)]
  {
    var r := RemoveAt(dims, k);
    RemoveAtDistinct(dims, k);
    forall e | e in r ensures RemoveAt(sizes, k)[IndexOf(r, e)] == sizes[IndexOf(dims, e)] {
      var i := IndexOf(r, e);
      var j := if i < k then i else i + 1;
      RemoveAtIndex(dims, k, i);
      RemoveAtIndex(sizes, k, i);
      assert dims[j] == e;
      IndexOfDistinct(dims, j);
    }
  }

  /**
   * `v.isel({d: t})`: fix dimension d at index t and drop it; every other
   * dimension keeps its name, its size and its relative order.
   */
  function Isel(v: Variable, d: string, t: nat): (r: Variable)
    requires v.Valid() && d in v.dims && t < v.SizeOf(d)
    ensures r.Valid()
    ensures r.dims == RemoveAt(v.dims, IndexOf(v.dims, d))
    ensures r.sizes == RemoveAt(v.sizes, IndexOf(v.dims, d))
    ensures forall idx :: r.at(idx) == v.at(InsertAt(idx, IndexOf(v.dims, d), t))
  {
    var k := IndexOf(v.dims, d);
    RemoveAtDistinct(v.dims, k);
    RemoveAtSizes(v.dims, v.sizes, k);
    Variable(RemoveAt(v.dims, k), RemoveAt(v.sizes, k), if d == "step" then None else v.stepCoord,
             idx => v.at(InsertAt(idx, k, t)))
  }

  /**
   * A decoded dataset: its data variables in declaration order, each
   * variable by name, and its 1-D coordinate arrays by name.
   */
  datatype Dataset = Dataset(dataVars: seq<string>, vars: map<string, Variable>, coords: map<string, seq<real>>)
  {
    predicate Valid()
    {
      forall n :: n in dataVars ==> n in vars && vars[n].Valid()
    }
  }

  /** After `isel` on d the dimensions are the other ones. */
  lemma IselNames(v: Variable, d: string, t: nat)
    requires v.Valid() && d in v.dims && t < v.SizeOf(d)
    ensures forall e :: e in Isel(v, d, t).dims <==> e in v.dims && e != d
  {
    RemoveAtDistinct(v.dims, IndexOf(v.dims, d));
  }

  /** After `isel` on d every other dimension has the size it had. */
  lemma IselSizes(v: Variable, d: string, t: nat)
    requires v.Valid() && d in v.dims && t < v.SizeOf(d)
    ensures forall e :: e in Isel(v, d, t).dims ==> Isel(v, d, t).SizeOf(e) == v.SizeOf(e)
  {
    RemoveAtSizes(v.dims, v.sizes, IndexOf(v.dims, d));
  }
}
