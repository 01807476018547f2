/**
  `ExactInference`: forward-algorithm filtering of one ghost's position over
  the legal cells plus that ghost's jail.
*/
module Exact {
  import opened Wrappers
  import opened Tables
  import opened Distributions
  import opened GhostModel

  /** The likelihood of each cell for one reading, Pacman at `pacman`. */
  function Likelihood(reading: Option<int>, pacman: Pos, jail: Pos, sensor: Sensor): Pos -> real {
    q => ObservationProb(reading, pacman, q, jail, sensor)
  }

  /** Legal cells as the board hands them out: distinct and above the jail
      row. */
  predicate LegalCells(legal: seq<Pos>) {
    Distinct(legal) && forall p :: p in legal ==> p.y > 1
  }

  /** Weight 1 on every legal cell, then normalised. */
  function UniformPrior(legal: seq<Pos>): Table<Pos> {
    Normalized(AssignEach(Empty(), legal, Constant(1.0)))
  }

  /** The uniform prior gives each of the `n` legal cells `1/n` and every
      other cell, the jail included, nothing. */
  lemma UniformPriorWeights(legal: seq<Pos>)
    requires Distinct(legal) && |legal| > 0
    ensures UniformPrior(legal).keys == legal
    ensures Total(UniformPrior(legal)) == 1.0
    ensures forall q :: Lookup(UniformPrior(legal), q) == if q in legal then 1.0 / (|legal| as real) else 0.0
  {
    var ones := AssignEach(Empty(), legal, Constant(1.0));
    AssignEachResult(Empty(), legal, Constant(1.0));
    AssignEachFreshTotal(Empty(), legal, Constant(1.0));
    SumOfConstant(legal, 1.0);
    TimesIsProduct(|legal|, 1.0);
    assert Total(ones) == |legal| as real;
    ExtendFromEmpty(legal);
  }

  /** The uniform prior holds no negative weight. */
  lemma UniformPriorNonNegative(legal: seq<Pos>)
    ensures NonNegative(UniformPrior(legal))
  {
    var ones := AssignEach(Empty(), legal, Constant(1.0));
    forall k | k in ones.weights ensures ones.weights[k] >= 0.0 {
      AssignEachLookup(Empty(), legal, Constant(1.0), k);
      assert ones.weights[k] == Lookup(ones, k);
    }
    NormalizedNonNegative(ones);
  }

  /** Appending distinct keys to an empty order gives them in order. */
  lemma {:induction false} ExtendFromEmpty<K(!new)>(ks: seq<K>)
    requires Distinct(ks)
    ensures Extend([], ks) == ks
  {
    if |ks| > 0 {
      var init := ks[..|ks| - 1];
      assert Distinct(init) by {
        forall i, j | 0 <= i < j < |init| ensures init[i] != init[j] {
          assert ks[i] != ks[j];
        }
      }
      assert ks[|ks| - 1] !in init by {
        forall i | 0 <= i < |init| ensures init[i] != ks[|ks| - 1] {
          assert ks[i] != ks[|ks| - 1];
        }
      }
      ExtendFromEmpty(init);
    }
  }

  // ---------------------------------------------------------------------
  // The observation update.

  /** Every cell of `all` multiplied by its likelihood, then normalised. */
  function ExactUpdate(t: Table<Pos>, all: seq<Pos>, like: Pos -> real): Table<Pos>
    requires WellFormed(t)
  {
    Normalized(MultiplyEach(t, all, like))
  }

  /** After the update each listed cell holds old weight x likelihood over
      the total of those products, and every other cell is rescaled by the
      same total; when that total is 0 nothing is rescaled. */
  lemma UpdateWeights(t: Table<Pos>, all: seq<Pos>, like: Pos -> real)
    requires WellFormed(t) && Distinct(all)
    ensures var m := MultiplyEach(t, all, like);
      Total(m) != 0.0 ==>
        forall q :: Lookup(ExactUpdate(t, all, like), q) ==
                    (if q in all then Mul(Lookup(t, q), like(q)) else Lookup(t, q)) / Total(m)
    ensures var m := MultiplyEach(t, all, like);
      Total(m) == 0.0 ==>
        forall q :: Lookup(ExactUpdate(t, all, like), q) ==
                    if q in all then Mul(Lookup(t, q), like(q)) else Lookup(t, q)
  {
    MultiplyEachResult(t, all, like);
  }

  /** A listed cell whose likelihood is 0 ends with weight 0. */
  lemma UpdateZero(t: Table<Pos>, all: seq<Pos>, like: Pos -> real, q: Pos)
    requires WellFormed(t) && Distinct(all)
    requires q in all && like(q) == 0.0
    ensures Lookup(ExactUpdate(t, all, like), q) == 0.0
  {
    var m := MultiplyEach(t, all, like);
    MultiplyEachResult(t, all, like);
    assert Mul(Lookup(t, q), like(q)) == 0.0;
    assert Lookup(m, q) == 0.0;
    if Total(m) != 0.0 {
      var z := Total(m);
      assert Lookup(Normalized(m), q) == Lookup(m, q) / z;
      assert 0.0 / z == 0.0;
    }
  }

  /** With non-negative weights and likelihoods, one non-zero product is
      enough for the updated beliefs to sum to 1. */
  lemma UpdateSumsToOne(t: Table<Pos>, all: seq<Pos>, like: Pos -> real, p: Pos)
    requires WellFormed(t) && NonNegative(t) && Distinct(all)
    requires forall q :: q in all ==> like(q) >= 0.0
    requires p in all && Mul(Lookup(t, p), like(p)) != 0.0
    ensures Total(ExactUpdate(t, all, like)) == 1.0
  {
    var m := MultiplyEach(t, all, like);
    MultiplyEachResult(t, all, like);
    ProductsNonNegative(t, all, like);
    assert p in m.keys by {
      assert p in Extend(t.keys, all);
    }
    NonNegativeProduct(Lookup(t, p), like(p));
    SumOverPositive(m.keys, m.weights, p);
  }

  lemma NonNegativeProduct(a: real, b: real)
    requires a >= 0.0 && b >= 0.0
    ensures Mul(a, b) >= 0.0
  {
  }

  /** Non-negative beliefs times non-negative likelihoods are non-negative. */
  lemma ProductsNonNegative(t: Table<Pos>, all: seq<Pos>, like: Pos -> real)
    requires WellFormed(t) && NonNegative(t) && Distinct(all)
    requires forall q :: q in all ==> like(q) >= 0.0
    ensures NonNegative(MultiplyEach(t, all, like))
  {
    var m := MultiplyEach(t, all, like);
    MultiplyEachResult(t, all, like);
    forall k | k in m.weights
      ensures m.weights[k] >= 0.0
    {
      assert Lookup(m, k) == m.weights[k];
      if k in all {
        assert like(k) >= 0.0 && Lookup(t, k) >= 0.0;
        NonNegativeProduct(Lookup(t, k), like(k));
      }
    }
  }

  /** The observation update keeps every belief non-negative when the
      likelihoods are. */
  lemma UpdateNonNegative(t: Table<Pos>, all: seq<Pos>, like: Pos -> real)
    requires WellFormed(t) && NonNegative(t) && Distinct(all)
    requires forall q :: q in all ==> like(q) >= 0.0
    ensures NonNegative(ExactUpdate(t, all, like))
  {
    ProductsNonNegative(t, all, like);
    NormalizedNonNegative(MultiplyEach(t, all, like));
  }

  /** A sensor curve that returns probabilities gives non-negative
      likelihoods everywhere. */
  lemma LikelihoodNonNegative(reading: Option<int>, pacman: Pos, jail: Pos, sensor: Sensor)
    requires ProbabilityCurve(sensor)
    ensures forall q :: Likelihood(reading, pacman, jail, sensor)(q) >= 0.0
  {
    forall q ensures Likelihood(reading, pacman, jail, sensor)(q) >= 0.0 {
      ObservationBounded(reading, pacman, q, jail, sensor);
    }
  }

  // ---------------------------------------------------------------------
  // The time update.

  /** `for pos in d.keys(): acc[pos] += d[pos] * w`, over the listed keys. */
  function SpreadOver(acc: Table<Pos>, d: Table<Pos>, ks: seq<Pos>, w: real): (r: Table<Pos>)
    requires WellFormed(acc)
    ensures WellFormed(r)
  {
    if |ks| == 0 then acc
    else Add(SpreadOver(acc, d, ks[..|ks| - 1], w), ks[|ks| - 1], Mul(Lookup(d, ks[|ks| - 1]), w))
  }

  /** One more key of the successor distribution spread. */
  lemma SpreadOverStep(acc: Table<Pos>, d: Table<Pos>, ks: seq<Pos>, j: nat, w: real)
    requires WellFormed(acc) && j < |ks|
    ensures SpreadOver(acc, d, ks[..j + 1], w) == Add(SpreadOver(acc, d, ks[..j], w), ks[j], Mul(Lookup(d, ks[j]), w))
  {
    assert ks[..j + 1][..j] == ks[..j];
  }

  /** The accumulator after the outer loop has visited the cells of `ks`:
      each old cell spreads its belief over its transition distribution. */
  function Convolved<A>(t0: Table<Pos>, ks: seq<Pos>, board: Board<A>, jail: Pos, policy: Pos -> seq<(A, real)>): (r: Table<Pos>)
    ensures WellFormed(r)
  {
    if |ks| == 0 then Empty()
    else
      var g := ks[|ks| - 1];
      var d := TransitionTable(board, g, jail, policy(g));
      SpreadOver(Convolved(t0, ks[..|ks| - 1], board, jail, policy), d, d.keys, Lookup(t0, g))
  }

  /** The reference sum: Σ over the old cells `g` of T(g)(q) x belief(g). */
  function MixAt<A>(t0: Table<Pos>, ks: seq<Pos>, board: Board<A>, jail: Pos, policy: Pos -> seq<(A, real)>, q: Pos): real {
    if |ks| == 0 then 0.0
    else
      var g := ks[|ks| - 1];
      MixAt(t0, ks[..|ks| - 1], board, jail, policy, q) + Mul(Lookup(TransitionTable(board, g, jail, policy(g)), q), Lookup(t0, g))
  }

  /** Spreading over distinct keys adds `d[q] * w` to `q` once if `q` is
      listed and leaves it alone otherwise. */
  lemma {:induction false} SpreadOverLookup(acc: Table<Pos>, d: Table<Pos>, ks: seq<Pos>, w: real, q: Pos)
    requires WellFormed(acc) && Distinct(ks)
    ensures Lookup(SpreadOver(acc, d, ks, w), q) == Lookup(acc, q) + if q in ks then Mul(Lookup(d, q), w) else 0.0
  {
    if |ks| > 0 {
      var init := ks[..|ks| - 1];
      assert Distinct(init) by {
        forall i, j | 0 <= i < j < |init| ensures init[i] != init[j] {
          assert ks[i] != ks[j];
        }
      }
      assert ks[|ks| - 1] !in init by {
        forall i | 0 <= i < |init| ensures init[i] != ks[|ks| - 1] {
          assert ks[i] != ks[|ks| - 1];
        }
      }
      assert q in ks <==> q in init || q == ks[|ks| - 1];
      SpreadOverLookup(acc, d, init, w, q);
    }
  }

  /** The accumulator holds, at every cell `q`, the reference sum
      Σ_g T(g)(q) x belief(g). */
  lemma {:induction false} ConvolvedLookup<A>(t0: Table<Pos>, ks: seq<Pos>, board: Board<A>, jail: Pos, policy: Pos -> seq<(A, real)>, q: Pos)
    ensures Lookup(Convolved(t0, ks, board, jail, policy), q) == MixAt(t0, ks, board, jail, policy, q)
  {
    if |ks| > 0 {
      var g := ks[|ks| - 1];
      var d := TransitionTable(board, g, jail, policy(g));
      ConvolvedLookup(t0, ks[..|ks| - 1], board, jail, policy, q);
      SpreadOverLookup(Convolved(t0, ks[..|ks| - 1], board, jail, policy), d, d.keys, Lookup(t0, g), q);
      if q !in d.keys {
        assert Lookup(d, q) == 0.0;
        assert Mul(0.0, Lookup(t0, g)) == 0.0;
      }
    }
  }

  /** A cell on Pacman's square sends its whole belief to the jail and
      nothing anywhere else. */
  lemma CaughtMassToJail<A>(acc: Table<Pos>, board: Board<A>, jail: Pos, actions: seq<(A, real)>, w: real, q: Pos)
    requires WellFormed(acc)
    ensures var d := TransitionTable(board, board.pacman, jail, actions);
      Lookup(SpreadOver(acc, d, d.keys, w), q) == Lookup(acc, q) + if q == jail then w else 0.0
  {
    var d := TransitionTable(board, board.pacman, jail, actions);
    SpreadPoint(acc, d, jail, w, q);
  }

  /** Spreading a point mass on `p` adds the whole weight to `p` alone. */
  lemma SpreadPoint(acc: Table<Pos>, d: Table<Pos>, p: Pos, w: real, q: Pos)
    requires WellFormed(acc) && d.keys == [p] && Lookup(d, p) == 1.0
    ensures Lookup(SpreadOver(acc, d, d.keys, w), q) == Lookup(acc, q) + if q == p then w else 0.0
  {
    assert Distinct(d.keys);
    SpreadOverLookup(acc, d, d.keys, w, q);
    assert q in d.keys <==> q == p;
    assert Mul(1.0, w) == w;
  }


  /** The predicted belief of every cell is the normalised reference sum. */
  lemma PredictWeights<A>(t0: Table<Pos>, ks: seq<Pos>, board: Board<A>, jail: Pos, policy: Pos -> seq<(A, real)>)
    ensures var c := Convolved(t0, ks, board, jail, policy);
      Total(c) != 0.0 ==> forall q :: Lookup(Normalized(c), q) == MixAt(t0, ks, board, jail, policy, q) / Total(c)
  {
    forall q {
      ConvolvedLookup(t0, ks, board, jail, policy, q);
    }
  }

  /** Each term of the reference sum is non-negative. */
  lemma {:induction false} MixAtNonNegative<A>(t0: Table<Pos>, ks: seq<Pos>, board: Board<A>, jail: Pos, policy: Pos -> seq<(A, real)>, q: Pos)
    requires NonNegative(t0) && forall g :: NonNegativeActions(policy(g))
    ensures MixAt(t0, ks, board, jail, policy, q) >= 0.0
  {
    if |ks| > 0 {
      var g := ks[|ks| - 1];
      MixAtNonNegative(t0, ks[..|ks| - 1], board, jail, policy, q);
      TransitionNonNegative(board, g, jail, policy(g));
      var d := TransitionTable(board, g, jail, policy(g));
      assert Lookup(d, q) >= 0.0 && Lookup(t0, g) >= 0.0;
      NonNegativeProduct(Lookup(d, q), Lookup(t0, g));
    }
  }

  /** The time update keeps every belief non-negative when the action
      probabilities are. */
  lemma PredictNonNegative<A>(t0: Table<Pos>, ks: seq<Pos>, board: Board<A>, jail: Pos, policy: Pos -> seq<(A, real)>)
    requires NonNegative(t0) && forall g :: NonNegativeActions(policy(g))
    ensures NonNegative(Normalized(Convolved(t0, ks, board, jail, policy)))
  {
    var c := Convolved(t0, ks, board, jail, policy);
    forall k | k in c.weights ensures c.weights[k] >= 0.0 {
      assert c.weights[k] == Lookup(c, k);
      ConvolvedLookup(t0, ks, board, jail, policy, k);
      MixAtNonNegative(t0, ks, board, jail, policy, k);
    }
    NormalizedNonNegative(c);
  }

  /** The legal cells and the jail are all different, since the jail sits on
      row 1. */
  lemma AllPositionsDistinct(legal: seq<Pos>, index: int)
    requires LegalCells(legal)
    ensures Distinct(legal + [Jail(index)])
  {
    var all := legal + [Jail(index)];
    forall i, j | 0 <= i < j < |all| ensures all[i] != all[j] {
      if j == |legal| {
        assert all[i] in legal;
      } else {
        assert all[i] == legal[i] && all[j] == legal[j];
      }
    }
  }

  /** Reading a stored key through `d[k]` changes nothing. */
  lemma AssignSame<K(!new)>(t: Table<K>, k: K)
    requires WellFormed(t) && k in t.weights
    ensures Assign(t, k, Lookup(t, k)) == t
  {
    assert t.weights[k := t.weights[k]] == t.weights;
  }

  /** The inner loop of `predict`: for every key `pos` of the successor
      distribution `posDist`, `acc[pos] += posDist[pos] * beliefs[g]`. */
  method SpreadInto(acc: DiscreteDistribution<Pos>, posDist: DiscreteDistribution<Pos>,
                    beliefs: DiscreteDistribution<Pos>, g: Pos)
    requires acc.Valid() && posDist.Valid() && beliefs.Valid()
    requires acc != posDist && acc != beliefs && posDist != beliefs
    modifies acc, posDist, beliefs
    ensures acc.Valid() && posDist.Valid() && beliefs.Valid()
    ensures acc.Contents() == SpreadOver(old(acc.Contents()), old(posDist.Contents()), old(posDist.keys), Lookup(old(beliefs.Contents()), g))
    ensures posDist.Contents() == old(posDist.Contents())
    ensures forall q :: Lookup(beliefs.Contents(), q) == Lookup(old(beliefs.Contents()), q)
  {
    ghost var d := posDist.Contents();
    ghost var t0 := beliefs.Contents();
    ghost var start := acc.Contents();
    var j := 0;
    while j < |posDist.keys|
      invariant 0 <= j <= |posDist.keys|
      invariant posDist.Valid() && posDist.Contents() == d
      invariant beliefs.Valid() && acc.Valid()
      invariant forall q :: Lookup(beliefs.Contents(), q) == Lookup(t0, q)
      invariant acc.Contents() == SpreadOver(start, d, d.keys[..j], Lookup(t0, g))
    {
      var pos := posDist.keys[j];
      ghost var before := acc.Contents();
      var prob := posDist.Get(pos);
      AssignSame(d, pos);
      var w := beliefs.Get(g);
      acc.Increment(pos, Mul(prob, w));
      assert acc.Contents() == Add(before, pos, Mul(Lookup(d, pos), Lookup(t0, g)));
      SpreadOverStep(start, d, d.keys, j, Lookup(t0, g));
      j := j + 1;
    }
    assert d.keys[..|d.keys|] == d.keys;
  }

  /** One more old cell spread. */
  lemma ConvolvedStep<A>(t0: Table<Pos>, ks: seq<Pos>, i: nat, board: Board<A>, jail: Pos, policy: Pos -> seq<(A, real)>)
    requires i < |ks|
    ensures var d := TransitionTable(board, ks[i], jail, policy(ks[i]));
      Convolved(t0, ks[..i + 1], board, jail, policy) == SpreadOver(Convolved(t0, ks[..i], board, jail, policy), d, d.keys, Lookup(t0, ks[i]))
  {
    assert ks[..i + 1][..i] == ks[..i];
  }

  /** The outer loop of `predict`: every old cell spreads its belief over
      the distribution of its next positions into a fresh accumulator. */
  method ConvolveAll<A>(board: Board<A>, index: nat, policy: Pos -> seq<(A, real)>,
                        beliefs: DiscreteDistribution<Pos>, all: seq<Pos>)
    returns (acc: DiscreteDistribution<Pos>)
    requires index >= 1 && beliefs.Valid()
    modifies beliefs
    ensures fresh(acc) && acc.Valid() && beliefs.Valid()
    ensures acc.Contents() == Convolved(old(beliefs.Contents()), all, board, Jail(index), policy)
    ensures forall q :: Lookup(beliefs.Contents(), q) == Lookup(old(beliefs.Contents()), q)
  {
    ghost var t0 := beliefs.Contents();
    ghost var jail := Jail(index);
    acc := new DiscreteDistribution();
    for i := 0 to |all|
      modifies beliefs, acc
      invariant beliefs.Valid() && acc.Valid() && acc != beliefs
      invariant forall q :: Lookup(beliefs.Contents(), q) == Lookup(t0, q)
      invariant acc.Contents() == Convolved(t0, all[..i], board, jail, policy)
    {
      var g := all[i];
      var newPosDist := PositionDistribution(board, Single(index, g), policy(g));
      SpreadInto(acc, newPosDist, beliefs, g);
      ConvolvedStep(t0, all, i, board, jail, policy);
    }
    assert all[..|all|] == all;
  }

  /** A fresh distribution that holds weight 1 for each of `cells`, in
      order: the loop `for p in cells: beliefs[p] = 1.0`. */
  method Ones(cells: seq<Pos>) returns (d: DiscreteDistribution<Pos>)
    ensures fresh(d) && d.Valid()
    ensures d.Contents() == AssignEach(Empty(), cells, Constant(1.0))
  {
    d := new DiscreteDistribution();
    for i := 0 to |cells|
      invariant d.Valid()
      invariant d.Contents() == AssignEach(Empty(), cells[..i], Constant(1.0))
    {
      d.Set(cells[i], 1.0);
      AssignEachStep(Empty(), cells, i, Constant(1.0));
    }
    assert cells[..|cells|] == cells;
  }

  class ExactInference {
    /** The tracked ghost agent's index (1 for the first ghost). */
    const index: int
    var legalPositions: seq<Pos>
    /** The legal cells followed by the jail. */
    var allPositions: seq<Pos>
    var beliefs: DiscreteDistribution<Pos>

    ghost predicate Valid()
      reads this, beliefs
    {
      index >= 1 && beliefs.Valid()
    }

    /** The cells fixed by `initialize`: distinct legal cells, then the jail.
        No method changes them. */
    ghost predicate Layout()
      reads this
    {
      LegalCells(legalPositions) && allPositions == legalPositions + [Jail(index)]
    }

    /** `ExactInference(ghostAgent)` followed by `initialize`: the jail comes
        after the legal cells and the beliefs start uniform. */
    constructor (agentIndex: int, legal: seq<Pos>)
      requires agentIndex >= 1 && LegalCells(legal)
      ensures Valid() && Layout() && fresh(beliefs)
      ensures index == agentIndex && legalPositions == legal
      ensures allPositions == legal + [Jail(agentIndex)]
      ensures beliefs.Contents() == UniformPrior(legal)
    {
      index := agentIndex;
      legalPositions := legal;
      allPositions := legal + [Jail(agentIndex)];
      beliefs := new DiscreteDistribution();
      new;
      InitializeUniformly();
    }

    /** `initializeUniformly`: weight 1 on every legal cell, then normalised. */
    method InitializeUniformly()
      requires Valid()
      modifies this
      ensures Valid() && fresh(beliefs)
      ensures legalPositions == old(legalPositions) && allPositions == old(allPositions)
      ensures beliefs.Contents() == UniformPrior(legalPositions)
    {
      var prior := Ones(legalPositions);
      prior.Normalize();
      beliefs := prior;
    }

    /** `update(observation)`: every cell's belief times the likelihood of
        the reading, then normalised. */
    method Update(observation: Option<int>, pacman: Pos, sensor: Sensor)
      requires Valid()
      modifies beliefs
      ensures Valid()
      ensures beliefs.Contents() == ExactUpdate(old(beliefs.Contents()), allPositions, Likelihood(observation, pacman, Jail(index), sensor))
    {
      var jail := Jail(index);
      ghost var t0 := beliefs.Contents();
      ghost var like := Likelihood(observation, pacman, jail, sensor);
      var all := allPositions;
      for i := 0 to |all|
        modifies beliefs
        invariant beliefs.Valid()
        invariant beliefs.Contents() == MultiplyEach(t0, all[..i], like)
      {
        var g := all[i];
        ghost var before := beliefs.Contents();
        var v := beliefs.Get(g);
        beliefs.Set(g, Mul(v, ObservationProb(observation, pacman, g, jail, sensor)));
        AssignTwice(before, g, v, Mul(v, like(g)));
        MultiplyEachStep(t0, all, i, like);
      }
      assert all[..|all|] == all;
      beliefs.Normalize();
    }

    /** `predict`: each cell spreads its belief over its transition
        distribution into a fresh accumulator, which is normalised and
        becomes the new belief. Reading `self.beliefs[g]` may store a
        missing cell with 0 in the old belief object, which an earlier
        `getBeliefDistribution` may have handed out; no weight it holds
        changes. */
    method Predict<A>(board: Board<A>, policy: Pos -> seq<(A, real)>)
      requires Valid()
      modifies this, beliefs
      ensures Valid() && fresh(beliefs)
      ensures legalPositions == old(legalPositions) && allPositions == old(allPositions)
      ensures beliefs.Contents() == Normalized(Convolved(old(beliefs.Contents()), allPositions, board, Jail(index), policy))
      ensures old(beliefs).Valid()
      ensures forall q :: Lookup(old(beliefs).Contents(), q) == Lookup(old(beliefs.Contents()), q)
    {
      var all := allPositions;
      var newbeliefs := ConvolveAll(board, index, policy, beliefs, all);
      newbeliefs.Normalize();
      beliefs := newbeliefs;
    }

    /** `observe`: the reading for this ghost, when the list is long enough
        to hold one, drives an update; otherwise nothing happens. */
    method Observe(distances: seq<Option<int>>, pacman: Pos, sensor: Sensor)
      requires Valid()
      modifies beliefs
      ensures Valid()
      ensures |distances| >= index ==>
                beliefs.Contents() == ExactUpdate(old(beliefs.Contents()), allPositions, Likelihood(distances[index - 1], pacman, Jail(index), sensor))
      ensures |distances| < index ==> beliefs.Contents() == old(beliefs.Contents())
    {
      if |distances| >= index {
        Update(distances[index - 1], pacman, sensor);
      }
    }

    /** `getBeliefDistribution`: the belief object itself, not a copy. */
    method GetBeliefDistribution() returns (d: DiscreteDistribution<Pos>)
      ensures d == beliefs
    {
      d := beliefs;
    }
  }
}
