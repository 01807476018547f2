/**
  `ParticleFilter`: the belief about one ghost is a list of `numParticles`
  cells. The list starts evenly spread over the legal cells, is resampled
  from the likelihood-weighted counts after an observation, and moves one
  sampled step per particle when time passes. Random draws are inputs.
*/
module Particles {
  import opened Wrappers
  import opened Tables
  import opened Distributions
  import opened GhostModel
  import opened Exact

  // ---------------------------------------------------------------------
  // The even spread of `initializeUniformly`
  // ---------------------------------------------------------------------

  /** `c` copies of `x`. */
  function Repeat<T>(x: T, c: nat): (r: seq<T>)
    ensures |r| == c
    ensures forall i :: 0 <= i < c ==> r[i] == x
  {
    if c == 0 then [] else Repeat(x, c - 1) + [x]
  }

  /** Each cell of `cells`, in order, repeated `c` times. */
  function Blocks<T>(cells: seq<T>, c: nat): seq<T> {
    if |cells| == 0 then [] else Blocks(cells[..|cells| - 1], c) + Repeat(cells[|cells| - 1], c)
  }

  /** The particle list `initializeUniformly` builds from `n` particles and
      the legal cells: `n div L` copies of every cell, in order, then one
      more copy of each of the first `n mod L` cells. */
  function UniformLayout<T>(cells: seq<T>, n: nat): (r: seq<T>)
    requires |cells| > 0
    ensures |r| == n
  {
    BlocksLength(cells, n / |cells|);
    Blocks(cells, n / |cells|) + cells[..n % |cells|]
  }

  lemma {:induction false} CountAppend<T>(a: seq<T>, b: seq<T>, q: T)
    ensures Count(a + b, q) == Count(a, q) + Count(b, q)
  {
    if |b| > 0 {
      assert (a + b)[..|a + b| - 1] == a + b[..|b| - 1];
      assert (a + b)[|a + b| - 1] == b[|b| - 1];
      CountAppend(a, b[..|b| - 1], q);
    } else {
      assert a + b == a;
    }
  }

  lemma {:induction false} CountRepeat<T>(x: T, c: nat, q: T)
    ensures Count(Repeat(x, c), q) == if x == q then c else 0
  {
    if c > 0 {
      assert Repeat(x, c)[..c - 1] == Repeat(x, c - 1);
      CountRepeat(x, c - 1, q);
    }
  }

  lemma {:induction false} BlocksLength<T>(cells: seq<T>, c: nat)
    ensures |Blocks(cells, c)| == |cells| * c
  {
    if |cells| > 0 {
      BlocksLength(cells[..|cells| - 1], c);
      assert |cells| * c == (|cells| - 1) * c + c;
    }
  }

  lemma {:induction false} BlocksMembers<T>(cells: seq<T>, c: nat, x: T)
    requires x in Blocks(cells, c)
    ensures x in cells
  {
    var init, last := cells[..|cells| - 1], cells[|cells| - 1];
    if x in Blocks(init, c) {
      BlocksMembers(init, c, x);
      assert x in init;
    } else {
      assert x in Repeat(last, c);
    }
  }

  lemma {:induction false} BlocksCount<T(!new)>(cells: seq<T>, c: nat, q: T)
    requires Distinct(cells)
    ensures Count(Blocks(cells, c), q) == if q in cells then c else 0
  {
    if |cells| > 0 {
      var init, last := cells[..|cells| - 1], cells[|cells| - 1];
      DistinctPrefix(cells, |cells| - 1);
      DistinctInit(cells);
      BlocksCount(init, c, q);
      CountAppend(Blocks(init, c), Repeat(last, c), q);
      CountRepeat(last, c, q);
      assert q in cells <==> q in init || q == last;
    }
  }

  lemma DistinctInit<T(!new)>(cells: seq<T>)
    requires Distinct(cells) && |cells| > 0
    ensures Distinct(cells[..|cells| - 1])
  {
    var init := cells[..|cells| - 1];
    forall i, j | 0 <= i < j < |init| ensures init[i] != init[j] {
      assert cells[i] != cells[j];
    }
  }

  /** A duplicate-free list holds each of its members once. */
  lemma {:induction false} CountDistinct<T(!new)>(cells: seq<T>, q: T)
    requires Distinct(cells)
    ensures Count(cells, q) == if q in cells then 1 else 0
  {
    if |cells| > 0 {
      var init := cells[..|cells| - 1];
      DistinctPrefix(cells, |cells| - 1);
      DistinctInit(cells);
      CountDistinct(init, q);
      assert q in cells <==> q in init || q == cells[|cells| - 1];
    }
  }

  /** The even spread has exactly `n` particles, all of them legal; cell
      number `i` occurs `n div L` times, plus once more when `i < n mod L`. */
  lemma UniformLayoutCounts<T(!new)>(cells: seq<T>, n: nat)
    requires |cells| > 0 && Distinct(cells)
    ensures |UniformLayout(cells, n)| == n
    ensures forall x :: x in UniformLayout(cells, n) ==> x in cells
    ensures forall i :: 0 <= i < |cells| ==>
      Count(UniformLayout(cells, n), cells[i]) == n / |cells| + if i < n % |cells| then 1 else 0
  {
    var c, e := n / |cells|, n % |cells|;
    BlocksLength(cells, c);
    assert |cells| * c + e == n;
    forall x | x in UniformLayout(cells, n) ensures x in cells {
      if x in Blocks(cells, c) {
        BlocksMembers(cells, c, x);
      } else {
        assert x in cells[..e];
      }
    }
    forall i | 0 <= i < |cells|
      ensures Count(UniformLayout(cells, n), cells[i]) == c + if i < e then 1 else 0
    {
      BlocksCount(cells, c, cells[i]);
      CountAppend(Blocks(cells, c), cells[..e], cells[i]);
      assert Distinct(cells[..e]) by {
        forall a, b | 0 <= a < b < e ensures cells[..e][a] != cells[..e][b] {
          assert cells[a] != cells[b];
        }
      }
      CountDistinct(cells[..e], cells[i]);
      if i < e {
        assert cells[..e][i] == cells[i];
      } else {
        assert cells[i] !in cells[..e] by {
          forall a | 0 <= a < e ensures cells[..e][a] != cells[i] {
            assert cells[a] != cells[i];
          }
        }
      }
    }
  }

  // ---------------------------------------------------------------------
  // The weights of `update`
  // ---------------------------------------------------------------------

  /** The weight `update` gives a particle cell: its likelihood times the
      number of particles on it. */
  function CountWeight(like: Pos -> real, ps: seq<Pos>): Pos -> real {
    p => Mul(like(p), Count(ps, p) as real)
  }

  /** `cur_beliefs` after `update`'s weighting loop. */
  function ParticleWeights(ps: seq<Pos>, like: Pos -> real): Table<Pos> {
    AssignEach(Empty(), ps, CountWeight(like, ps))
  }

  /** The weight of a cell after the weighting loop, in the loop's terms. */
  lemma WeightAt(ps: seq<Pos>, like: Pos -> real, q: Pos)
    ensures ParticleWeights(ps, like).keys == Extend([], ps)
    ensures Lookup(ParticleWeights(ps, like), q) == if q in ps then Mul(like(q), Count(ps, q) as real) else 0.0
  {
    AssignEachResult(Empty(), ps, CountWeight(like, ps));
  }

  /** Each particle cell weighs its likelihood times its multiplicity among
      the particles; any other cell weighs nothing. The keys are the
      particle cells in first-occurrence order. */
  lemma ParticleWeightsLookup(ps: seq<Pos>, like: Pos -> real, q: Pos)
    ensures ParticleWeights(ps, like).keys == Extend([], ps)
    ensures Lookup(ParticleWeights(ps, like), q) == if q in ps then like(q) * (multiset(ps)[q] as real) else 0.0
  {
    WeightAt(ps, like, q);
    CountIsMultiplicity(ps, q);
  }

  lemma {:induction false} SumOverZero(ks: seq<Pos>, w: map<Pos, real>)
    requires forall k :: k in ks ==> Weight(w, k) == 0.0
    ensures SumOver(ks, w) == 0.0
  {
    if |ks| > 0 {
      SumOverZero(ks[..|ks| - 1], w);
    }
  }

  lemma MulSign(a: real, c: nat)
    requires a >= 0.0
    ensures Mul(a, c as real) >= 0.0
    ensures a > 0.0 && c > 0 ==> Mul(a, c as real) > 0.0
    ensures a == 0.0 ==> Mul(a, c as real) == 0.0
  {
  }

  /** With a non-negative likelihood, the weighted counts total zero exactly
      when every particle has likelihood zero: that is when `update`
      reinitialises. */
  lemma ZeroTotalIffAllUnlikely(ps: seq<Pos>, like: Pos -> real)
    requires forall p :: p in ps ==> like(p) >= 0.0
    ensures Total(ParticleWeights(ps, like)) == 0.0 <==> forall p :: p in ps ==> like(p) == 0.0
  {
    var w := ParticleWeights(ps, like);
    if forall p :: p in ps ==> like(p) == 0.0 {
      forall k | k in w.keys ensures Weight(w.weights, k) == 0.0 {
        WeightAt(ps, like, k);
        if k in ps {
          MulSign(like(k), Count(ps, k));
        }
      }
      SumOverZero(w.keys, w.weights);
    } else {
      var p :| p in ps && like(p) != 0.0;
      WeightAt(ps, like, p);
      CountIsMultiplicity(ps, p);
      MulSign(like(p), Count(ps, p));
      WeightsNonNegative(ps, like);
      SumOverPositive(w.keys, w.weights, p);
    }
  }

  lemma QuotientSign(a: real, b: real)
    requires b > 0.0 && a / b > 0.0
    ensures a > 0.0
  {
  }

  /** With a non-negative likelihood, no weight is negative. */
  lemma WeightsNonNegative(ps: seq<Pos>, like: Pos -> real)
    requires forall p :: p in ps ==> like(p) >= 0.0
    ensures NonNegative(ParticleWeights(ps, like))
  {
    var w := ParticleWeights(ps, like);
    forall q | q in w.weights ensures w.weights[q] >= 0.0 {
      WeightAt(ps, like, q);
      if q in ps {
        MulSign(like(q), Count(ps, q));
      }
    }
  }

  /** A resampled particle is one of the old particle cells and carries a
      positive normalised weight; with a non-negative likelihood its
      likelihood is positive. */
  lemma ResampledFromParticles(ps: seq<Pos>, like: Pos -> real, u: real)
    requires Total(ParticleWeights(ps, like)) != 0.0 && 0.0 <= u < 1.0
    ensures var w := ParticleWeights(ps, like);
      && Draw(Normalized(w), u) in ps
      && Lookup(Normalized(w), Draw(Normalized(w), u)) > 0.0
      && ((forall p :: p in ps ==> like(p) >= 0.0) ==> like(Draw(Normalized(w), u)) > 0.0)
  {
    var w := ParticleWeights(ps, like);
    var k := Draw(Normalized(w), u);
    WeightAt(ps, like, k);
    if forall p :: p in ps ==> like(p) >= 0.0 {
      WeightsNonNegative(ps, like);
      TotalNonNegative(w);
      QuotientSign(Lookup(w, k), Total(w));
      MulSign(like(k), Count(ps, k));
    }
  }

  // ---------------------------------------------------------------------
  // The belief of a particle list
  // ---------------------------------------------------------------------

  /** `getBeliefDistribution`: one unit per particle on its cell, then
      normalised. */
  function Histogram<K(==,!new)>(ps: seq<K>): Table<K> {
    Normalized(AddEach(Empty(), ps, Constant(1.0)))
  }

  /** The belief of a cell is its share of the particles, the cells appear
      in first-occurrence order, and for a non-empty list the beliefs sum to
      one; the empty list gives the empty distribution. */
  lemma HistogramWeights<K(!new)>(ps: seq<K>, q: K)
    ensures Histogram(ps).keys == Extend([], ps)
    ensures |ps| == 0 ==> Histogram(ps) == Empty()
    ensures |ps| > 0 ==> Total(Histogram(ps)) == 1.0
    ensures |ps| > 0 ==> Lookup(Histogram(ps), q) == (multiset(ps)[q] as real) / (|ps| as real)
  {
    var raw := AddEach(Empty(), ps, Constant(1.0));
    AddEachKeys(Empty(), ps, Constant(1.0));
    AddEachTotal(Empty(), ps, Constant(1.0));
    SumOfConstant(ps, 1.0);
    TimesIsProduct(|ps|, 1.0);
    AddEachWeight(Empty(), ps, Constant(1.0), q);
    TimesIsProduct(Count(ps, q), 1.0);
    CountIsMultiplicity(ps, q);
    if |ps| == 0 {
      assert raw == Empty();
    }
  }

  // ---------------------------------------------------------------------
  // The filter
  // ---------------------------------------------------------------------

  /** The loop of `getBeliefDistribution`: `d[p] += 1` for a cell already
      stored, `d[p] = 1` otherwise, then `normalize`. */
  method CountHistogram<K(==,!new)>(ps: seq<K>) returns (d: DiscreteDistribution<K>)
    ensures fresh(d) && d.Valid()
    ensures d.Contents() == Histogram(ps)
  {
    d := new DiscreteDistribution();
    for i := 0 to |ps|
      invariant d.Valid()
      invariant d.Contents() == AddEach(Empty(), ps[..i], Constant(1.0))
    {
      var p := ps[i];
      if p in d.weights {
        d.Increment(p, 1.0);
      } else {
        AddFresh(d.Contents(), p, 1.0);
        d.Set(p, 1.0);
      }
      AddEachStep(Empty(), ps, i, Constant(1.0));
    }
    assert ps[..|ps|] == ps;
    d.Normalize();
  }

  /** Every particle's transition distribution has a non-zero total, so that
      sampling a successor is defined. */
  ghost predicate Movable<A>(board: Board<A>, jail: Pos, policy: Pos -> seq<(A, real)>, ps: seq<Pos>) {
    forall i :: 0 <= i < |ps| ==> Total(TransitionTable(board, ps[i], jail, policy(ps[i]))) != 0.0
  }

  /** The successor `predict` draws for a particle on `cell` with draw `u`
      (a draw outside [0, 1) or a transition total of zero, where sampling
      fails, leaves the cell where it is). */
  ghost function Successor<A>(board: Board<A>, jail: Pos, policy: Pos -> seq<(A, real)>, cell: Pos, u: real): (r: Pos)
    ensures var t := TransitionTable(board, cell, jail, policy(cell));
      Total(t) != 0.0 && 0.0 <= u < 1.0 ==> r in t.keys && Lookup(t, r) != 0.0
    ensures var t := TransitionTable(board, cell, jail, policy(cell));
      !(Total(t) != 0.0 && 0.0 <= u < 1.0) ==> r == cell
  {
    var t := TransitionTable(board, cell, jail, policy(cell));
    if Total(t) != 0.0 && 0.0 <= u < 1.0 then
      DrawNormalized(t, u);
      Draw(Normalized(t), u)
    else cell
  }

  /** A particle on Pacman's cell moves to the jail whatever the draw. */
  lemma CaughtParticleJailed<A>(board: Board<A>, jail: Pos, policy: Pos -> seq<(A, real)>, u: real)
    requires 0.0 <= u < 1.0
    ensures Total(TransitionTable(board, board.pacman, jail, policy(board.pacman))) == 1.0
    ensures Successor(board, jail, policy, board.pacman, u) == jail
  {
    var t := TransitionTable(board, board.pacman, jail, policy(board.pacman));
    assert Normalized(t).keys == [jail];
  }

  /** Every draw lies in [0, 1). */
  ghost predicate Draws(draws: seq<real>) {
    forall i :: 0 <= i < |draws| ==> 0.0 <= draws[i] < 1.0
  }

  /** `particle_count`: the number of particles on each particle cell. */
  method CountParticles(ps: seq<Pos>) returns (counts: map<Pos, nat>)
    ensures forall p :: p in counts <==> p in ps
    ensures forall p :: p in counts ==> counts[p] == Count(ps, p)
  {
    counts := map[];
    for i := 0 to |ps|
      invariant forall p :: p in counts <==> p in ps[..i]
      invariant forall p :: p in counts ==> counts[p] == Count(ps[..i], p)
    {
      var p := ps[i];
      assert ps[..i + 1][..i] == ps[..i] && ps[..i + 1][i] == p;
      assert forall q :: Count(ps[..i + 1], q) == Count(ps[..i], q) + if q == p then 1 else 0;
      if p in counts {
        counts := counts[p := counts[p] + 1];
      } else {
        CountIsMultiplicity(ps[..i], p);
        counts := counts[p := 1];
      }
    }
    assert ps[..|ps|] == ps;
  }

  /** `update`'s weighting loop: `cur_beliefs[p] = weight * particle_count[p]`
      for every particle in order. */
  method WeighParticles(ps: seq<Pos>, counts: map<Pos, nat>, observation: Option<int>, pacman: Pos, jail: Pos, sensor: Sensor)
    returns (cur: DiscreteDistribution<Pos>)
    requires forall p :: p in ps ==> p in counts && counts[p] == Count(ps, p)
    ensures fresh(cur) && cur.Valid()
    ensures cur.Contents() == ParticleWeights(ps, Likelihood(observation, pacman, jail, sensor))
  {
    ghost var like := Likelihood(observation, pacman, jail, sensor);
    cur := new DiscreteDistribution();
    for i := 0 to |ps|
      invariant cur.Valid()
      invariant cur.Contents() == AssignEach(Empty(), ps[..i], CountWeight(like, ps))
    {
      var p := ps[i];
      assert p in ps;
      var weight := ObservationProb(observation, pacman, p, jail, sensor);
      cur.Set(p, Mul(weight, counts[p] as real));
      AssignEachStep(Empty(), ps, i, CountWeight(like, ps));
    }
    assert ps[..|ps|] == ps;
  }

  /** `DiscreteDistribution(d).sample()` on an already normalised `d`: the
      draw from `d`'s intervals, `d` itself untouched. */
  method SampleCopy(d: DiscreteDistribution<Pos>, u: real) returns (k: Pos)
    requires d.Valid() && Total(d.Contents()) == 1.0 && Normalized(d.Contents()) == d.Contents()
    requires 0.0 <= u < 1.0
    ensures k == Draw(d.Contents(), u)
  {
    var sampler := new DiscreteDistribution.Copy(d);
    k := sampler.Sample(u);
  }

  /** `DiscreteDistribution(getPositionDistribution(cell)).sample()`: one
      successor of the ghost of agent `index` standing on `cell`. */
  method SampleSuccessor<A>(board: Board<A>, index: int, policy: Pos -> seq<(A, real)>, cell: Pos, u: real) returns (next: Pos)
    requires Total(TransitionTable(board, cell, Jail(index), policy(cell))) != 0.0
    requires 0.0 <= u < 1.0
    ensures next == Successor(board, Jail(index), policy, cell, u)
  {
    var dist := PositionDistribution(board, Single(index, cell), policy(cell));
    var sampler := new DiscreteDistribution.Copy(dist);
    next := sampler.Sample(u);
  }

  /** `f` applied to each particle and its draw, in order. */
  function PairMap<T, D, U>(f: (T, D) -> U, ps: seq<T>, draws: seq<D>): (r: seq<U>)
    requires |draws| == |ps|
    ensures |r| == |ps|
  {
    if |ps| == 0 then []
    else PairMap(f, ps[..|ps| - 1], draws[..|ps| - 1]) + [f(ps[|ps| - 1], draws[|ps| - 1])]
  }

  /** Entry `i` of the result is `f` of particle `i` and draw `i`. */
  lemma {:induction false} PairMapAt<T, D, U>(f: (T, D) -> U, ps: seq<T>, draws: seq<D>, i: nat)
    requires |draws| == |ps| && i < |ps|
    ensures PairMap(f, ps, draws)[i] == f(ps[i], draws[i])
  {
    if i < |ps| - 1 {
      PairMapAt(f, ps[..|ps| - 1], draws[..|ps| - 1], i);
    }
  }

  /** One more particle mapped. */
  lemma PairMapStep<T, D, U>(f: (T, D) -> U, ps: seq<T>, draws: seq<D>, i: nat)
    requires |draws| == |ps| && i < |ps|
    ensures PairMap(f, ps[..i + 1], draws[..i + 1]) == PairMap(f, ps[..i], draws[..i]) + [f(ps[i], draws[i])]
  {
    assert ps[..i + 1][..i] == ps[..i] && draws[..i + 1][..i] == draws[..i];
  }

  /** The drawn successor as a function of the cell and the draw. */
  ghost function Stepper<A>(board: Board<A>, jail: Pos, policy: Pos -> seq<(A, real)>): (Pos, real) -> Pos {
    (cell, u) => Successor(board, jail, policy, cell, u)
  }

  /** After `predict`, particle `i` sits on the successor drawn for its old
      cell with draw `i`, and the number of particles is unchanged. */
  lemma PredictedParticles<A>(board: Board<A>, jail: Pos, policy: Pos -> seq<(A, real)>, ps: seq<Pos>, draws: seq<real>, i: nat)
    requires |draws| == |ps| && i < |ps|
    ensures |PairMap(Stepper(board, jail, policy), ps, draws)| == |ps|
    ensures PairMap(Stepper(board, jail, policy), ps, draws)[i] == Successor(board, jail, policy, ps[i], draws[i])
  {
    PairMapAt(Stepper(board, jail, policy), ps, draws, i);
  }

  /** `predict`'s loop: one sampled successor per particle, in order. */
  method MoveAll<A>(board: Board<A>, index: int, policy: Pos -> seq<(A, real)>, ps: seq<Pos>, draws: seq<real>)
    returns (moved: seq<Pos>)
    requires Draws(draws) && |draws| == |ps|
    requires Movable(board, Jail(index), policy, ps)
    ensures moved == PairMap(Stepper(board, Jail(index), policy), ps, draws)
  {
    ghost var f := Stepper(board, Jail(index), policy);
    moved := [];
    for i := 0 to |ps|
      invariant moved == PairMap(f, ps[..i], draws[..i])
    {
      var next := SampleSuccessor(board, index, policy, ps[i], draws[i]);
      assert next == f(ps[i], draws[i]);
      PairMapStep(f, ps, draws, i);
      moved := moved + [next];
    }
    assert ps[..|ps|] == ps && draws[..|ps|] == draws;
  }

  class ParticleFilter {
    /** The tracked ghost agent's index (1 for the first ghost). */
    const index: int
    var numParticles: nat
    var legalPositions: seq<Pos>
    var particles: seq<Pos>

    /** The filter's invariant once initialised: exactly `numParticles`
        particles and legal cells to spread them over. */
    ghost predicate Valid()
      reads this
    {
      |particles| == numParticles && |legalPositions| > 0
    }

    /** An initialised filter can always run `update`. */
    lemma ValidReady(like: Pos -> real)
      requires Valid()
      ensures Ready(like)
    {
    }

    /** What `update` needs to run: legal cells to reinitialise over when
        the weights total zero, and at least `numParticles` particles to
        overwrite otherwise. */
    ghost predicate Ready(like: Pos -> real)
      reads this
    {
      && (Total(ParticleWeights(particles, like)) == 0.0 ==> |legalPositions| > 0)
      && (Total(ParticleWeights(particles, like)) != 0.0 ==> numParticles <= |particles|)
    }

    /** `ParticleFilter(ghostAgent, numParticles)` followed by `initialize`
        with the legal cells: the particles start evenly spread. */
    constructor(agentIndex: int, n: nat, legal: seq<Pos>)
      requires agentIndex >= 1 && |legal| > 0
      ensures Valid()
      ensures index == agentIndex && numParticles == n && legalPositions == legal
      ensures particles == UniformLayout(legal, n)
    {
      index := agentIndex;
      numParticles := n;
      legalPositions := legal;
      new;
      InitializeUniformly();
    }

    /** `setNumParticles`: the list is left as it is until the next
        initialisation. */
    method SetNumParticles(n: nat)
      modifies this
      ensures numParticles == n
      ensures legalPositions == old(legalPositions) && particles == old(particles)
    {
      numParticles := n;
    }

    /** `initializeUniformly`: `n div L` copies of each legal cell in order,
        then one more copy of each of the first `n - (n div L) * L` cells. */
    method InitializeUniformly()
      requires |legalPositions| > 0
      modifies this
      ensures Valid()
      ensures numParticles == old(numParticles) && legalPositions == old(legalPositions)
      ensures particles == UniformLayout(legalPositions, numParticles)
    {
      var legal, n := legalPositions, numParticles;
      particles := [];
      var perCell := n / |legal|;
      for j := 0 to |legal|
        invariant legalPositions == legal && numParticles == n
        invariant particles == Blocks(legal[..j], perCell)
      {
        for i := 0 to perCell
          invariant legalPositions == legal && numParticles == n
          invariant particles == Blocks(legal[..j], perCell) + Repeat(legal[j], i)
        {
          particles := particles + [legal[j]];
        }
        assert legal[..j + 1][..j] == legal[..j];
      }
      assert legal[..|legal|] == legal;
      var extra := n - perCell * |legal|;
      assert extra == n % |legal|;
      for i := 0 to extra
        invariant legalPositions == legal && numParticles == n
        invariant particles == Blocks(legal, perCell) + legal[..i]
      {
        assert legal[..i + 1] == legal[..i] + [legal[i]];
        particles := particles + [legal[i]];
      }
      assert particles == UniformLayout(legal, n);
    }

    /** `update(observation)`: counts the particles per cell, weighs each
        cell by likelihood times count, and either reinitialises (total
        zero) or overwrites the first `numParticles` particles with draws
        from the normalised weights, one draw from `draws` each. */
    method Update(observation: Option<int>, pacman: Pos, sensor: Sensor, draws: seq<real>)
      requires Draws(draws) && |draws| == numParticles
      requires Ready(Likelihood(observation, pacman, Jail(index), sensor))
      modifies this
      ensures old(Valid()) ==> Valid()
      ensures numParticles == old(numParticles) && legalPositions == old(legalPositions)
      ensures var w := ParticleWeights(old(particles), Likelihood(observation, pacman, Jail(index), sensor));
        && (Total(w) == 0.0 ==> particles == UniformLayout(legalPositions, numParticles))
        && (Total(w) != 0.0 ==>
              && |particles| == |old(particles)|
              && (forall k :: 0 <= k < numParticles ==> particles[k] == Draw(Normalized(w), draws[k]))
              && (forall k :: numParticles <= k < |particles| ==> particles[k] == old(particles)[k]))
    {
      var ps := particles;
      var counts := CountParticles(ps);
      var cur := WeighParticles(ps, counts, observation, pacman, Jail(index), sensor);
      ghost var w := cur.Contents();
      var probe := new DiscreteDistribution.Copy(cur);
      if probe.Total() == 0.0 {
        InitializeUniformly();
      } else {
        cur.Normalize();
        ghost var nw := cur.Contents();
        assert nw == Normalized(w);
        NormalizeIdempotent(w);
        assert Total(Normalized(w)) == 1.0;
        Resample(cur, draws);
        assert forall k :: 0 <= k < numParticles ==> particles[k] == Draw(nw, draws[k]);
      }
    }

    /** `update`'s resampling loop: particle `k`, for each `k` below
        `numParticles`, is overwritten with the draw `draws[k]` from the
        normalised weights `cur`; later particles stay. */
    method Resample(cur: DiscreteDistribution<Pos>, draws: seq<real>)
      requires cur.Valid() && Total(cur.Contents()) == 1.0 && Normalized(cur.Contents()) == cur.Contents()
      requires Draws(draws) && |draws| == numParticles <= |particles|
      modifies this
      ensures numParticles == old(numParticles) && legalPositions == old(legalPositions)
      ensures |particles| == |old(particles)|
      ensures forall k :: 0 <= k < numParticles ==> particles[k] == Draw(cur.Contents(), draws[k])
      ensures forall k :: numParticles <= k < |particles| ==> particles[k] == old(particles)[k]
    {
      for k := 0 to numParticles
        invariant numParticles == old(numParticles) && legalPositions == old(legalPositions)
        invariant |particles| == |old(particles)|
        invariant forall j :: 0 <= j < k ==> particles[j] == Draw(cur.Contents(), draws[j])
        invariant forall j :: k <= j < |particles| ==> particles[j] == old(particles)[j]
      {
        var drawn := SampleCopy(cur, draws[k]);
        particles := particles[k := drawn];
      }
    }

    /** `predict`: every particle moves to a successor drawn from its
        transition distribution with its own draw. */
    method Predict<A>(board: Board<A>, policy: Pos -> seq<(A, real)>, draws: seq<real>)
      requires Draws(draws) && |draws| == |particles|
      requires Movable(board, Jail(index), policy, particles)
      modifies this
      ensures old(Valid()) ==> Valid()
      ensures |particles| == |old(particles)|
      ensures numParticles == old(numParticles) && legalPositions == old(legalPositions)
      ensures particles == PairMap(Stepper(board, Jail(index), policy), old(particles), draws)
    {
      var ps := particles;
      var moved := MoveAll(board, index, policy, ps, draws);
      particles := moved;
    }

    /** `observe`: the reading for this ghost, when the list is long enough
        to hold one, drives an update. */
    method Observe(distances: seq<Option<int>>, pacman: Pos, sensor: Sensor, draws: seq<real>)
      requires index >= 1 && Draws(draws) && |draws| == numParticles
      requires |distances| >= index ==> Ready(Likelihood(distances[index - 1], pacman, Jail(index), sensor))
      modifies this
      ensures old(Valid()) ==> Valid()
      ensures numParticles == old(numParticles) && legalPositions == old(legalPositions)
      ensures |distances| < index ==> particles == old(particles)
      ensures |distances| >= index ==>
        var w := ParticleWeights(old(particles), Likelihood(distances[index - 1], pacman, Jail(index), sensor));
        && (Total(w) == 0.0 ==> particles == UniformLayout(legalPositions, numParticles))
        && (Total(w) != 0.0 ==>
              && |particles| == |old(particles)|
              && forall k :: 0 <= k < numParticles ==> particles[k] == Draw(Normalized(w), draws[k]))
    {
      if |distances| >= index {
        Update(distances[index - 1], pacman, sensor, draws);
      }
    }

    /** `getBeliefDistribution`: the normalised count of particles per
        cell. */
    method GetBeliefDistribution() returns (d: DiscreteDistribution<Pos>)
      ensures fresh(d) && d.Valid()
      ensures d.Contents() == Histogram(particles)
    {
      d := CountHistogram(particles);
    }
  }
}
