/** A value-level view of an insertion-ordered map from keys to real
    weights: the state of a DiscreteDistribution, and the folds that the
    inference loops perform on it. */
module Tables {

  /** Keys in insertion order, and the weight stored for each key. */
  datatype Table<K> = Table(keys: seq<K>, weights: map<K, real>)

  /** The empty distribution. */
  function Empty<K(==,!new)>(): Table<K> { Table([], map[]) }

  /** No key occurs twice in `ks`. */
  predicate Distinct<K(==,!new)>(ks: seq<K>) {
    forall i, j :: 0 <= i < j < |ks| ==> ks[i] != ks[j]
  }

  /** A key of a duplicate-free list is not among the ones before it. */
  lemma DistinctPrefix<K(!new)>(ks: seq<K>, i: nat)
    requires Distinct(ks) && i < |ks|
    ensures ks[i] !in ks[..i]
    ensures ks[..i + 1] == ks[..i] + [ks[i]]
  {
    forall j | 0 <= j < i ensures ks[..i][j] != ks[i] {
      assert ks[j] != ks[i];
    }
  }

  /** The insertion order lists every stored key exactly once. */
  ghost predicate WellFormed<K(!new)>(t: Table<K>) {
    Distinct(t.keys) && forall k :: k in t.weights <==> k in t.keys
  }

  /** Every stored weight is non-negative. */
  ghost predicate NonNegative<K(!new)>(t: Table<K>) {
    forall k :: k in t.weights ==> t.weights[k] >= 0.0
  }

  /** The weight of `k`, zero for a key that is not stored. */
  function Weight<K(==,!new)>(w: map<K, real>, k: K): real {
    if k in w then w[k] else 0.0
  }

  /** The weight a read of `t[k]` yields. */
  function Lookup<K(==,!new)>(t: Table<K>, k: K): real {
    Weight(t.weights, k)
  }

  /** Sum of the weights of `ks`, in order. */
  function SumOver<K(==,!new)>(ks: seq<K>, w: map<K, real>): real {
    if |ks| == 0 then 0.0 else SumOver(ks[..|ks| - 1], w) + Weight(w, ks[|ks| - 1])
  }

  /** Sum of all weights stored in `t`. */
  function Total<K(==,!new)>(t: Table<K>): real {
    SumOver(t.keys, t.weights)
  }

  lemma {:induction false} SumOverUnchanged<K(!new)>(ks: seq<K>, w: map<K, real>, k: K, v: real)
    requires k !in ks
    ensures SumOver(ks, w[k := v]) == SumOver(ks, w)
  {
    if |ks| > 0 {
      assert ks[|ks| - 1] in ks;
      SumOverUnchanged(ks[..|ks| - 1], w, k, v);
    }
  }

  lemma {:induction false} SumOverUpdate<K(!new)>(ks: seq<K>, w: map<K, real>, k: K, v: real)
    requires Distinct(ks) && k in ks
    ensures SumOver(ks, w[k := v]) == SumOver(ks, w) - Weight(w, k) + v
  {
    var init := ks[..|ks| - 1];
    if ks[|ks| - 1] == k {
      assert k !in init by {
        forall i | 0 <= i < |init| ensures init[i] != k {
          assert init[i] == ks[i];
        }
      }
      SumOverUnchanged(init, w, k, v);
    } else {
      assert k in init by {
        var i :| 0 <= i < |ks| && ks[i] == k;
        assert init[i] == k;
      }
      SumOverUpdate(init, w, k, v);
    }
  }

  /** `t[k] = v`: overwrite the weight of a stored key in place, or append a
      new key at the end of the insertion order. */
  function Assign<K(==,!new)>(t: Table<K>, k: K, v: real): (r: Table<K>)
    requires WellFormed(t)
    ensures WellFormed(r)
    ensures r.weights == t.weights[k := v]
    ensures Total(r) == Total(t) - Lookup(t, k) + v
  {
    if k in t.weights then
      SumOverUpdate(t.keys, t.weights, k, v);
      Table(t.keys, t.weights[k := v])
    else
      var ks := t.keys + [k];
      assert ks[..|ks| - 1] == t.keys;
      SumOverUnchanged(t.keys, t.weights, k, v);
      Table(ks, t.weights[k := v])
  }

  /** `t[k] = v` keeps the key order of a stored key and appends a new key
      at the end. */
  lemma AssignKeys<K(!new)>(t: Table<K>, k: K, v: real)
    requires WellFormed(t)
    ensures k in t.keys ==> Assign(t, k, v).keys == t.keys
    ensures k !in t.keys ==> Assign(t, k, v).keys == t.keys + [k]
  {
  }

  /** `t[k] += x`: the read stores a missing key with 0, the write adds `x`. */
  function Add<K(==,!new)>(t: Table<K>, k: K, x: real): (r: Table<K>)
    requires WellFormed(t)
    ensures WellFormed(r)
    ensures Lookup(r, k) == Lookup(t, k) + x
    ensures forall q :: q != k ==> Lookup(r, q) == Lookup(t, q)
    ensures Total(r) == Total(t) + x
  {
    Assign(t, k, Lookup(t, k) + x)
  }

  /** The key order after appending, in order, each key of `ps` not yet present. */
  function Extend<K(==,!new)>(ks: seq<K>, ps: seq<K>): (r: seq<K>)
    ensures Distinct(ks) ==> Distinct(r)
    ensures forall x :: x in r <==> x in ks || x in ps
  {
    if |ps| == 0 then ks
    else
      var e := Extend(ks, ps[..|ps| - 1]);
      assert forall x :: x in ps <==> x in ps[..|ps| - 1] || x == ps[|ps| - 1];
      if ps[|ps| - 1] in e then e else e + [ps[|ps| - 1]]
  }

  /** `for k in ks: t[k] = f(k)`. */
  function AssignEach<K(==,!new)>(t: Table<K>, ks: seq<K>, f: K -> real): (r: Table<K>)
    requires WellFormed(t)
    ensures WellFormed(r)
  {
    if |ks| == 0 then t else Assign(AssignEach(t, ks[..|ks| - 1], f), ks[|ks| - 1], f(ks[|ks| - 1]))
  }

  /** One more key assigned. */
  lemma AssignEachStep<K(!new)>(t: Table<K>, ks: seq<K>, j: nat, f: K -> real)
    requires WellFormed(t) && j < |ks|
    ensures AssignEach(t, ks[..j + 1], f) == Assign(AssignEach(t, ks[..j], f), ks[j], f(ks[j]))
  {
    assert ks[..j + 1][..j] == ks[..j];
  }

  lemma {:induction false} AssignEachKeys<K(!new)>(t: Table<K>, ks: seq<K>, f: K -> real)
    requires WellFormed(t)
    ensures AssignEach(t, ks, f).keys == Extend(t.keys, ks)
  {
    if |ks| > 0 {
      AssignEachKeys(t, ks[..|ks| - 1], f);
    }
  }

  lemma {:induction false} AssignEachLookup<K(!new)>(t: Table<K>, ks: seq<K>, f: K -> real, q: K)
    requires WellFormed(t)
    ensures Lookup(AssignEach(t, ks, f), q) == if q in ks then f(q) else Lookup(t, q)
  {
    if |ks| > 0 {
      var init := ks[..|ks| - 1];
      AssignEachLookup(t, init, f, q);
      assert q in ks <==> q in init || q == ks[|ks| - 1];
    }
  }

  /** After the loop, the keys of `ks` hold `f` and nothing else changed;
      new keys were appended in first-occurrence order. */
  lemma AssignEachResult<K(!new)>(t: Table<K>, ks: seq<K>, f: K -> real)
    requires WellFormed(t)
    ensures AssignEach(t, ks, f).keys == Extend(t.keys, ks)
    ensures forall q :: Lookup(AssignEach(t, ks, f), q) == if q in ks then f(q) else Lookup(t, q)
  {
    AssignEachKeys(t, ks, f);
    forall q {
      AssignEachLookup(t, ks, f, q);
    }
  }

  /** `for k in ks: t[k] += f(k)`. */
  function AddEach<K(==,!new)>(t: Table<K>, ks: seq<K>, f: K -> real): (r: Table<K>)
    requires WellFormed(t)
    ensures WellFormed(r)
  {
    if |ks| == 0 then t else Add(AddEach(t, ks[..|ks| - 1], f), ks[|ks| - 1], f(ks[|ks| - 1]))
  }

  /** One more key added. */
  lemma AddEachStep<K(!new)>(t: Table<K>, ks: seq<K>, j: nat, f: K -> real)
    requires WellFormed(t) && j < |ks|
    ensures AddEach(t, ks[..j + 1], f) == Add(AddEach(t, ks[..j], f), ks[j], f(ks[j]))
  {
    assert ks[..j + 1][..j] == ks[..j];
  }

  /** Adding to a key that is not stored is writing the amount itself. */
  lemma AddFresh<K(!new)>(t: Table<K>, k: K, x: real)
    requires WellFormed(t) && k !in t.weights
    ensures Add(t, k, x) == Assign(t, k, x)
  {
    assert Lookup(t, k) + x == x;
  }

  /** The sum of `f` over `ks`, repeats included. */
  function SumOf<K(==,!new)>(ks: seq<K>, f: K -> real): real {
    if |ks| == 0 then 0.0 else SumOf(ks[..|ks| - 1], f) + f(ks[|ks| - 1])
  }

  lemma {:induction false} AddEachKeys<K(!new)>(t: Table<K>, ks: seq<K>, f: K -> real)
    requires WellFormed(t)
    ensures AddEach(t, ks, f).keys == Extend(t.keys, ks)
  {
    if |ks| > 0 {
      AddEachKeys(t, ks[..|ks| - 1], f);
    }
  }

  /** How many times `q` occurs in `ks`. */
  function Count<K(==)>(ks: seq<K>, q: K): nat {
    if |ks| == 0 then 0 else Count(ks[..|ks| - 1], q) + (if ks[|ks| - 1] == q then 1 else 0)
  }

  lemma {:induction false} CountIsMultiplicity<K>(ks: seq<K>, q: K)
    ensures Count(ks, q) == multiset(ks)[q]
  {
    if |ks| > 0 {
      CountIsMultiplicity(ks[..|ks| - 1], q);
      assert ks == ks[..|ks| - 1] + [ks[|ks| - 1]];
    }
  }

  /** `c` copies of `x` added up; kept recursive so that the proofs below
      stay within linear arithmetic. */
  function Times(c: nat, x: real): real {
    if c == 0 then 0.0 else Times(c - 1, x) + x
  }

  lemma {:induction false} TimesIsProduct(c: nat, x: real)
    ensures Times(c, x) == (c as real) * x
  {
    if c > 0 {
      TimesIsProduct(c - 1, x);
    }
  }

  lemma TimesIsMul(c: nat, x: real)
    ensures Times(c, x) == Mul(c as real, x)
  {
    TimesIsProduct(c, x);
  }

  /** Each occurrence of a key adds `f` of it once: a key seen `c` times
      gains `Times(c, f(key))`, that is `c * f(key)`. */
  lemma {:induction false} AddEachWeight<K(!new)>(t: Table<K>, ks: seq<K>, f: K -> real, q: K)
    requires WellFormed(t)
    ensures Lookup(AddEach(t, ks, f), q) == Lookup(t, q) + Times(Count(ks, q), f(q))
  {
    if |ks| > 0 {
      var init, last := ks[..|ks| - 1], ks[|ks| - 1];
      var prev := AddEach(t, init, f);
      AddEachWeight(t, init, f, q);
      assert AddEach(t, ks, f) == Add(prev, last, f(last));
      if last == q {
        assert Count(ks, q) == Count(init, q) + 1;
      } else {
        assert Count(ks, q) == Count(init, q);
      }
    }
  }

  /** The total gains the sum of `f` over `ks`. */
  lemma {:induction false} AddEachTotal<K(!new)>(t: Table<K>, ks: seq<K>, f: K -> real)
    requires WellFormed(t)
    ensures Total(AddEach(t, ks, f)) == Total(t) + SumOf(ks, f)
  {
    if |ks| > 0 {
      AddEachTotal(t, ks[..|ks| - 1], f);
    }
  }

  /** Writing the same key twice keeps only the second write. */
  lemma AssignTwice<K(!new)>(t: Table<K>, k: K, a: real, b: real)
    requires WellFormed(t)
    ensures Assign(Assign(t, k, a), k, b) == Assign(t, k, b)
  {
    assert t.weights[k := a][k := b] == t.weights[k := b];
  }

  /** The weight function giving every key the same weight `v`. */
  function Constant<K>(v: real): K -> real {
    _ => v
  }

  /** A product of two weights, named so that proofs can treat it as one term. */
  function Mul(a: real, b: real): real {
    a * b
  }

  /** `for k in ks: t[k] *= f(k)`: each read stores a missing key with 0. */
  function MultiplyEach<K(==,!new)>(t: Table<K>, ks: seq<K>, f: K -> real): (r: Table<K>)
    requires WellFormed(t)
    ensures WellFormed(r)
  {
    if |ks| == 0 then t
    else
      var before := MultiplyEach(t, ks[..|ks| - 1], f);
      Assign(before, ks[|ks| - 1], Mul(Lookup(before, ks[|ks| - 1]), f(ks[|ks| - 1])))
  }

  /** One more key multiplied. */
  lemma MultiplyEachStep<K(!new)>(t: Table<K>, ks: seq<K>, j: nat, f: K -> real)
    requires WellFormed(t) && j < |ks|
    ensures var before := MultiplyEach(t, ks[..j], f);
      MultiplyEach(t, ks[..j + 1], f) == Assign(before, ks[j], Mul(Lookup(before, ks[j]), f(ks[j])))
  {
    assert ks[..j + 1][..j] == ks[..j];
  }

  /** Over distinct keys, each listed key ends with its old weight times `f`
      of it, every other key is unchanged, and missing listed keys are
      appended in order. */
  lemma {:induction false} MultiplyEachResult<K(!new)>(t: Table<K>, ks: seq<K>, f: K -> real)
    requires WellFormed(t) && Distinct(ks)
    ensures MultiplyEach(t, ks, f).keys == Extend(t.keys, ks)
    ensures forall q :: Lookup(MultiplyEach(t, ks, f), q) == if q in ks then Mul(Lookup(t, q), f(q)) else Lookup(t, q)
  {
    if |ks| > 0 {
      var init := ks[..|ks| - 1];
      assert Distinct(init) by {
        forall i, j | 0 <= i < j < |init| ensures init[i] != init[j] {
          assert ks[i] != ks[j];
        }
      }
      assert ks[|ks| - 1] !in init by {
        forall i | 0 <= i < |init| ensures init[i] != ks[|ks| - 1] {
          assert ks[i] != ks[|ks| - 1];
        }
      }
      MultiplyEachResult(t, init, f);
      assert forall x :: x in ks <==> x in init || x == ks[|ks| - 1];
    }
  }

  /** Over distinct keys none of which is stored yet, the total grows by the
      sum of the assigned weights. */
  lemma {:induction false} AssignEachFreshTotal<K(!new)>(t: Table<K>, ks: seq<K>, f: K -> real)
    requires WellFormed(t) && Distinct(ks)
    requires forall k :: k in ks ==> k !in t.weights
    ensures Total(AssignEach(t, ks, f)) == Total(t) + SumOf(ks, f)
  {
    if |ks| > 0 {
      var init := ks[..|ks| - 1];
      var last := ks[|ks| - 1];
      assert Distinct(init) by {
        forall i, j | 0 <= i < j < |init| ensures init[i] != init[j] {
          assert ks[i] != ks[j];
        }
      }
      assert last !in init by {
        forall i | 0 <= i < |init| ensures init[i] != last {
          assert ks[i] != last;
        }
      }
      AssignEachFreshTotal(t, init, f);
      AssignEachResult(t, init, f);
    }
  }

  lemma {:induction false} SumOfConstant<K(!new)>(ks: seq<K>, v: real)
    ensures SumOf(ks, Constant(v)) == Times(|ks|, v)
  {
    if |ks| > 0 {
      SumOfConstant(ks[..|ks| - 1], v);
    }
  }

  /** Dividing every weight by `c`. */
  function Scale<K(==,!new)>(w: map<K, real>, c: real): (r: map<K, real>)
    requires c != 0.0
    ensures r.Keys == w.Keys
    ensures forall k :: Weight(r, k) == Weight(w, k) / c
  {
    map k | k in w :: w[k] / c
  }

  lemma {:induction false} SumOverScale<K(!new)>(ks: seq<K>, w: map<K, real>, c: real)
    requires c != 0.0
    ensures SumOver(ks, Scale(w, c)) == SumOver(ks, w) / c
  {
    if |ks| > 0 {
      SumOverScale(ks[..|ks| - 1], w, c);
    }
  }

  /** `normalize()`: every weight divided by the total when the total is not
      zero; a distribution with total zero (the empty one included) is left
      as it is. */
  function Normalized<K(==,!new)>(t: Table<K>): (r: Table<K>)
    requires WellFormed(t)
    ensures WellFormed(r)
    ensures r.keys == t.keys
    ensures Total(t) == 0.0 ==> r == t
    ensures Total(t) != 0.0 ==> Total(r) == 1.0
    ensures Total(t) != 0.0 ==> forall k :: Lookup(r, k) == Lookup(t, k) / Total(t)
  {
    if Total(t) == 0.0 then t
    else
      SumOverScale(t.keys, t.weights, Total(t));
      assert Total(t) / Total(t) == 1.0;
      Table(t.keys, Scale(t.weights, Total(t)))
  }

  /** Normalising twice is normalising once. */
  lemma NormalizeIdempotent<K(!new)>(t: Table<K>)
    requires WellFormed(t)
    ensures Normalized(Normalized(t)) == Normalized(t)
  {
    var n := Normalized(t);
    if Total(t) != 0.0 {
      assert Total(n) == 1.0;
      var m := Normalized(n);
      assert m.weights == n.weights by {
        forall k | k in n.weights ensures m.weights[k] == n.weights[k] {
          assert Lookup(m, k) == Lookup(n, k) / 1.0;
        }
      }
    }
  }

  /** Writing a non-negative weight keeps the table non-negative. */
  lemma AssignNonNegative<K(!new)>(t: Table<K>, k: K, v: real)
    requires WellFormed(t) && NonNegative(t) && v >= 0.0
    ensures NonNegative(Assign(t, k, v))
  {
  }

  /** Adding a non-negative amount keeps the table non-negative. */
  lemma AddNonNegative<K(!new)>(t: Table<K>, k: K, x: real)
    requires WellFormed(t) && NonNegative(t) && x >= 0.0
    ensures NonNegative(Add(t, k, x))
  {
    assert Lookup(t, k) >= 0.0;
    AssignNonNegative(t, k, Lookup(t, k) + x);
  }

  /** Normalising keeps every weight non-negative. */
  lemma NormalizedNonNegative<K(!new)>(t: Table<K>)
    requires WellFormed(t) && NonNegative(t)
    ensures NonNegative(Normalized(t))
  {
    TotalNonNegative(t);
    var r := Normalized(t);
    if Total(t) != 0.0 {
      forall k | k in r.weights ensures r.weights[k] >= 0.0 {
        assert r.weights[k] == Lookup(r, k) == Lookup(t, k) / Total(t);
        assert Lookup(t, k) >= 0.0;
      }
    }
  }

  /** A non-negative table with one positive weight has a positive total. */
  lemma {:induction false} SumOverPositive<K(!new)>(ks: seq<K>, w: map<K, real>, k: K)
    requires forall q :: q in w ==> w[q] >= 0.0
    requires k in ks && Weight(w, k) > 0.0
    ensures SumOver(ks, w) > 0.0
  {
    SumOverNonNegative(ks[..|ks| - 1], w);
    if ks[|ks| - 1] != k {
      var i :| 0 <= i < |ks| && ks[i] == k;
      assert ks[..|ks| - 1][i] == k;
      SumOverPositive(ks[..|ks| - 1], w, k);
    }
  }

  lemma TotalNonNegative<K(!new)>(t: Table<K>)
    ensures NonNegative(t) ==> Total(t) >= 0.0
  {
    if NonNegative(t) {
      SumOverNonNegative(t.keys, t.weights);
    }
  }

  lemma {:induction false} SumOverNonNegative<K(!new)>(ks: seq<K>, w: map<K, real>)
    requires forall q :: q in w ==> w[q] >= 0.0
    ensures SumOver(ks, w) >= 0.0
  {
    if |ks| > 0 {
      SumOverNonNegative(ks[..|ks| - 1], w);
    }
  }

  // ---------------------------------------------------------------------
  // Sampling: cumulative half-open intervals in key order.

  /** Where the interval of the `i`-th key starts: the sum of the weights
      before it. */
  function Start<K(==,!new)>(t: Table<K>, i: nat): real
    requires i <= |t.keys|
  {
    SumOver(t.keys[..i], t.weights)
  }

  lemma StartStep<K(!new)>(t: Table<K>, i: nat)
    requires i < |t.keys|
    ensures Start(t, i + 1) == Start(t, i) + Lookup(t, t.keys[i])
  {
    assert t.keys[..i + 1][..i] == t.keys[..i];
  }

  /** The draw `u` falls in the interval [start, end) of the `i`-th key. */
  predicate Covers<K(==,!new)>(t: Table<K>, i: nat, u: real)
    requires i < |t.keys|
  {
    Start(t, i) <= u < Start(t, i + 1)
  }

  /** The first index from `i` on whose interval contains `u`, or the number
      of keys when there is none. */
  function SelectFrom<K(==,!new)>(t: Table<K>, u: real, i: nat): (r: nat)
    requires i <= |t.keys|
    ensures i <= r <= |t.keys|
    ensures r < |t.keys| ==> Covers(t, r, u)
    ensures forall j :: i <= j < r ==> !Covers(t, j, u)
    decreases |t.keys| - i
  {
    if i == |t.keys| then i
    else if Covers(t, i, u) then i
    else SelectFrom(t, u, i + 1)
  }

  /** A non-negative draw below the end of the `n`-th interval falls in one
      of the first `n` intervals. */
  lemma {:induction false} CoverExists<K(!new)>(t: Table<K>, u: real, n: nat)
    requires n <= |t.keys| && 0.0 <= u < Start(t, n)
    ensures exists j :: 0 <= j < n && Covers(t, j, u)
  {
    assert n > 0;
    StartStep(t, n - 1);
    if u < Start(t, n - 1) {
      CoverExists(t, u, n - 1);
    } else {
      assert Covers(t, n - 1, u);
    }
  }

  /** A draw in [0, total) always falls in some interval. */
  lemma SelectFound<K(!new)>(t: Table<K>, u: real)
    requires 0.0 <= u < Total(t)
    ensures SelectFrom(t, u, 0) < |t.keys|
  {
    assert t.keys[..|t.keys|] == t.keys;
    CoverExists(t, u, |t.keys|);
  }

  /** Sampling a normalised copy of `t` returns one of `t`'s keys whose own
      weight is not zero. */
  lemma DrawNormalized<K(!new)>(t: Table<K>, u: real)
    requires WellFormed(t) && Total(t) != 0.0 && 0.0 <= u < 1.0
    ensures Total(Normalized(t)) == 1.0
    ensures Draw(Normalized(t), u) in t.keys
    ensures Lookup(t, Draw(Normalized(t), u)) != 0.0
  {
    var k := Draw(Normalized(t), u);
    assert Lookup(Normalized(t), k) == Lookup(t, k) / Total(t);
  }

  /** The key that `sample()` returns for the uniform draw `u`: the first
      key whose interval [start, end) contains `u`. */
  function Draw<K(==,!new)>(t: Table<K>, u: real): (k: K)
    requires 0.0 <= u < Total(t)
    ensures k in t.keys
    ensures Lookup(t, k) > 0.0
  {
    SelectFound(t, u);
    var i := SelectFrom(t, u, 0);
    StartStep(t, i);
    t.keys[i]
  }

  /** With non-negative weights the intervals never go backwards. */
  lemma {:induction false} StartMonotone<K(!new)>(t: Table<K>, i: nat, j: nat)
    requires NonNegative(t) && i <= j <= |t.keys|
    ensures Start(t, i) <= Start(t, j)
  {
    if i < j {
      StartMonotone(t, i, j - 1);
      StartStep(t, j - 1);
    }
  }

  /** With non-negative weights the intervals are disjoint, so the key drawn
      for `u` is the only key whose interval contains `u`. */
  lemma DrawUnique<K(!new)>(t: Table<K>, u: real, i: nat)
    requires NonNegative(t) && i < |t.keys| && Covers(t, i, u)
    ensures 0.0 <= u < Total(t)
    ensures Draw(t, u) == t.keys[i]
  {
    StartMonotone(t, 0, i);
    StartMonotone(t, i + 1, |t.keys|);
    assert t.keys[..|t.keys|] == t.keys;
    SelectFound(t, u);
    var r := SelectFrom(t, u, 0);
    assert r >= i by {
      if r < i {
        StartMonotone(t, r + 1, i);
      }
    }
  }

  // ---------------------------------------------------------------------
  // Arg-max.

  /** Index of the first maximal weight among `ks`. */
  function MaxIndex<K(==,!new)>(ks: seq<K>, w: map<K, real>): (i: nat)
    requires |ks| > 0
    ensures i < |ks|
    ensures forall j :: 0 <= j < |ks| ==> Weight(w, ks[j]) <= Weight(w, ks[i])
    ensures forall j :: 0 <= j < i ==> Weight(w, ks[j]) < Weight(w, ks[i])
  {
    if |ks| == 1 then 0
    else
      var i := MaxIndex(ks[..|ks| - 1], w);
      assert forall j :: 0 <= j < |ks| - 1 ==> ks[..|ks| - 1][j] == ks[j];
      if Weight(w, ks[|ks| - 1]) > Weight(w, ks[i]) then |ks| - 1 else i
  }
}
