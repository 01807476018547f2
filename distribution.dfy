/**
  The mutable belief/weight table `DiscreteDistribution`: a dictionary from
  keys to weights that remembers insertion order and that stores a missing
  key with weight 0 as soon as it is read.
*/
module Distributions {
  import opened Wrappers
  import opened Tables

  class DiscreteDistribution<K(==,!new)> {
    /** The keys in insertion order. */
    var keys: seq<K>
    /** The weight stored under each key. */
    var weights: map<K, real>

    ghost predicate Valid()
      reads this
    {
      WellFormed(Table(keys, weights))
    }

    /** The table this object currently holds. */
    function Contents(): Table<K>
      reads this
    {
      Table(keys, weights)
    }

    /** `DiscreteDistribution()`: the empty distribution. */
    constructor ()
      ensures Valid()
      ensures Contents() == Empty()
    {
      keys := [];
      weights := map[];
    }

    /** `DiscreteDistribution(d)` / `d.copy()`: a new object with the same
        keys, order and weights. */
    constructor Copy(other: DiscreteDistribution<K>)
      requires other.Valid()
      ensures Valid()
      ensures Contents() == other.Contents()
    {
      keys := other.keys;
      weights := other.weights;
    }

    /** `d[k]`: reading a missing key stores it with weight 0 and returns 0;
        reading a present key changes nothing. */
    method Get(k: K) returns (v: real)
      requires Valid()
      modifies this
      ensures Valid()
      ensures v == Lookup(old(Contents()), k)
      ensures Contents() == Assign(old(Contents()), k, v)
      ensures k in keys
      ensures forall q :: Lookup(Contents(), q) == Lookup(old(Contents()), q)
    {
      if k !in weights {
        keys := keys + [k];
        weights := weights[k := 0.0];
      }
      v := weights[k];
    }

    /** `d[k] = v`. */
    method Set(k: K, v: real)
      requires Valid()
      modifies this
      ensures Valid()
      ensures Contents() == Assign(old(Contents()), k, v)
    {
      var t := Assign(Contents(), k, v);
      keys, weights := t.keys, t.weights;
    }

    /** `d[k] += x`: the read stores a missing key with 0 first. */
    method Increment(k: K, x: real)
      requires Valid()
      modifies this
      ensures Valid()
      ensures Contents() == Add(old(Contents()), k, x)
    {
      var t := Add(Contents(), k, x);
      keys, weights := t.keys, t.weights;
    }

    /** `total()`: the sum of all weights; never negative when no weight is. */
    function Total(): (s: real)
      reads this
      ensures s == Tables.Total(Contents())
      ensures NonNegative(Contents()) ==> s >= 0.0
    {
      TotalNonNegative(Contents());
      SumOver(keys, weights)
    }

    /** `normalize()`: divides every weight by the total when the total is
        not zero, and leaves the distribution alone otherwise. */
    method Normalize()
      requires Valid()
      modifies this
      ensures Valid()
      ensures Contents() == Normalized(old(Contents()))
    {
      var sum := Total();
      if sum != 0.0 {
        var ks, w := keys, weights;
        ghost var w0 := weights;
        var i := 0;
        while i < |ks|
          modifies {}
          invariant 0 <= i <= |ks|
          invariant w.Keys == w0.Keys
          invariant forall k :: k in w ==> w[k] == if k in ks[..i] then w0[k] / sum else w0[k]
          decreases |ks| - i
        {
          var k := ks[i];
          DistinctPrefix(ks, i);
          var v := w[k];
          w := w[k := v / sum];
          i := i + 1;
        }
        assert ks[..i] == ks;
        assert w == Scale(w0, sum);
        weights := w;
      }
    }

    /** `sample()` given the uniform draw `u`: normalises the distribution in
        place, lays the keys out as consecutive half-open intervals in key
        order and returns the first key whose interval contains `u`. */
    method Sample(u: real) returns (k: K)
      requires Valid() && Total() != 0.0
      requires 0.0 <= u < 1.0
      modifies this
      ensures Valid()
      ensures Contents() == Normalized(old(Contents()))
      ensures Tables.Total(Contents()) == 1.0
      ensures k == Draw(Contents(), u)
      ensures k in keys && Lookup(Contents(), k) > 0.0
    {
      Normalize();
      var i := FirstCovering(keys, weights, u);
      k := keys[i];
    }

    /** `argMax()`: `None` for the empty distribution, otherwise the first
        key in key order that carries the largest weight. */
    function ArgMax(): (r: Option<K>)
      reads this
      ensures r.None? <==> |keys| == 0
      ensures r.Some? ==> r.value in keys
      ensures r.Some? ==> forall q :: q in keys ==> Lookup(Contents(), q) <= Lookup(Contents(), r.value)
      ensures r.Some? ==> exists i :: 0 <= i < |keys| && keys[i] == r.value &&
                                      forall j :: 0 <= j < i ==> Lookup(Contents(), keys[j]) < Lookup(Contents(), r.value)
    {
      if |keys| == 0 then None
      else
        var i := MaxIndex(keys, weights);
        assert forall q :: q in keys ==> exists j :: 0 <= j < |keys| && keys[j] == q;
        Some(keys[i])
    }
  }

  /** `sample()`'s search: lays the keys out as consecutive half-open
      intervals of their weights, in key order, and returns the index of the
      first interval that contains `u`. */
  method FirstCovering<K(==,!new)>(ks: seq<K>, ws: map<K, real>, u: real) returns (i: nat)
    requires 0.0 <= u < Tables.Total(Table(ks, ws))
    ensures i == SelectFrom(Table(ks, ws), u, 0) && i < |ks|
  {
    ghost var t := Table(ks, ws);
    // The interval [start, end) of each key, in key order.
    var ranges: seq<(real, real)> := [];
    var accumulated := 0.0;
    while |ranges| < |ks|
      invariant |ranges| <= |ks|
      invariant accumulated == Start(t, |ranges|)
      invariant forall j :: 0 <= j < |ranges| ==> ranges[j] == (Start(t, j), Start(t, j + 1))
    {
      var start := accumulated;
      StartStep(t, |ranges|);
      accumulated := accumulated + Weight(ws, ks[|ranges|]);
      ranges := ranges + [(start, accumulated)];
    }
    SelectFound(t, u);
    ghost var first := SelectFrom(t, u, 0);
    i := 0;
    while !(ranges[i].0 <= u < ranges[i].1)
      invariant i <= first
      invariant forall j :: 0 <= j < i ==> !Covers(t, j, u)
      decreases first - i
    {
      i := i + 1;
    }
    assert Covers(t, i, u);
  }
}
