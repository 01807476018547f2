/**
  `JointParticleFilter` and `MarginalInference`: the particles are tuples
  holding one cell per ghost. They start as a cyclic walk through a shuffled
  Cartesian product of the legal cells, are resampled from the product of
  the per-ghost likelihoods, and move one ghost at a time from the old
  tuple. The marginal belief about one ghost sums the joint belief by that
  ghost's coordinate.
*/
module Joint {
  import opened Wrappers
  import opened Tables
  import opened Distributions
  import opened GhostModel
  import opened Particles

  // ---------------------------------------------------------------------
  // The Cartesian product
  // ---------------------------------------------------------------------

  /** `t` extended by each cell of `cells`, in order. */
  function Appended(t: seq<Pos>, cells: seq<Pos>): (r: seq<seq<Pos>>)
    ensures |r| == |cells|
    ensures forall i :: 0 <= i < |cells| ==> r[i] == t + [cells[i]]
  {
    seq(|cells|, i requires 0 <= i < |cells| => t + [cells[i]])
  }

  /** Every tuple of `ts`, in order, extended by every cell, in order. */
  function Extensions(ts: seq<seq<Pos>>, cells: seq<Pos>): (r: seq<seq<Pos>>)
    ensures |r| == |ts| * |cells|
  {
    if |ts| == 0 then []
    else
      assert (|ts| - 1) * |cells| + |cells| == |ts| * |cells|;
      Extensions(ts[..|ts| - 1], cells) + Appended(ts[|ts| - 1], cells)
  }

  /** `b` to the power `e`. */
  function Power(b: nat, e: nat): nat {
    if e == 0 then 1 else Power(b, e - 1) * b
  }

  /** `itertools.product(cells, repeat = m)`: every `m`-tuple of cells, the
      last coordinate running fastest; there are `L^m` of them. */
  function Product(cells: seq<Pos>, m: nat): (r: seq<seq<Pos>>)
    ensures |r| == Power(|cells|, m)
  {
    if m == 0 then [[]] else Extensions(Product(cells, m - 1), cells)
  }

  /** A tuple of `m` cells, each of them one of `cells`. */
  predicate IsTuple(t: seq<Pos>, cells: seq<Pos>, m: nat) {
    |t| == m && forall i :: 0 <= i < m ==> t[i] in cells
  }

  lemma AppendedMembers(t: seq<Pos>, cells: seq<Pos>, u: seq<Pos>)
    ensures u in Appended(t, cells) <==> |u| > 0 && u[..|u| - 1] == t && u[|u| - 1] in cells
  {
    var r := Appended(t, cells);
    if u in r {
      var i :| 0 <= i < |cells| && r[i] == u;
      assert u[..|u| - 1] == t;
    }
    if |u| > 0 && u[..|u| - 1] == t && u[|u| - 1] in cells {
      var i :| 0 <= i < |cells| && cells[i] == u[|u| - 1];
      assert u == t + [cells[i]];
      assert r[i] == u;
    }
  }

  lemma {:induction false} ExtensionsMembers(ts: seq<seq<Pos>>, cells: seq<Pos>, u: seq<Pos>)
    ensures u in Extensions(ts, cells) <==> |u| > 0 && u[..|u| - 1] in ts && u[|u| - 1] in cells
  {
    if |ts| > 0 {
      var init, last := ts[..|ts| - 1], ts[|ts| - 1];
      assert Extensions(ts, cells) == Extensions(init, cells) + Appended(last, cells);
      ExtensionsMembers(init, cells, u);
      AppendedMembers(last, cells, u);
      assert ts == init + [last];
    }
  }

  /** Every entry of `t` is one of `cells`, stated entry by entry from the
      back, the way `Product` builds tuples. */
  predicate AllIn(t: seq<Pos>, cells: seq<Pos>) {
    |t| == 0 || (AllIn(t[..|t| - 1], cells) && t[|t| - 1] in cells)
  }

  lemma {:induction false} AllInEntries(t: seq<Pos>, cells: seq<Pos>)
    ensures AllIn(t, cells) <==> forall i :: 0 <= i < |t| ==> t[i] in cells
  {
    if |t| > 0 {
      var init := t[..|t| - 1];
      AllInEntries(init, cells);
      assert forall i :: 0 <= i < |init| ==> init[i] == t[i];
    }
  }

  lemma {:induction false} ProductAllIn(cells: seq<Pos>, m: nat, t: seq<Pos>)
    ensures t in Product(cells, m) <==> |t| == m && AllIn(t, cells)
  {
    if m == 0 {
      assert t in [[]] <==> t == [];
    } else {
      ExtensionsMembers(Product(cells, m - 1), cells, t);
      if |t| > 0 {
        ProductAllIn(cells, m - 1, t[..|t| - 1]);
      }
    }
  }

  /** The product holds exactly the `m`-tuples of legal cells. */
  lemma ProductMembers(cells: seq<Pos>, m: nat, t: seq<Pos>)
    ensures t in Product(cells, m) <==> IsTuple(t, cells, m)
  {
    ProductAllIn(cells, m, t);
    AllInEntries(t, cells);
  }

  /** Every entry of a shuffled product is a tuple of legal cells. */
  lemma ShuffledTuples(cells: seq<Pos>, m: nat, shuffled: seq<seq<Pos>>, j: nat)
    requires multiset(shuffled) == multiset(Product(cells, m)) && j < |shuffled|
    ensures IsTuple(shuffled[j], cells, m)
  {
    assert shuffled[j] in multiset(shuffled);
    assert shuffled[j] in Product(cells, m);
    ProductMembers(cells, m, shuffled[j]);
  }

  // ---------------------------------------------------------------------
  // The weights of `update`
  // ---------------------------------------------------------------------

  /** `jointP` once the inner loop has visited ghosts `0 .. k-1`: the
      product of their observation probabilities, ghost `j` judged against
      jail `j`. */
  function JointProb(readings: seq<Option<int>>, pacman: Pos, t: seq<Pos>, sensor: Sensor, k: nat): real
    requires k <= |readings| && k <= |t|
  {
    if k == 0 then 1.0
    else Mul(JointProb(readings, pacman, t, sensor, k - 1), ObservationProb(readings[k - 1], pacman, t[k - 1], JointJail(k - 1), sensor))
  }

  lemma MulZero(a: real, b: real)
    ensures Mul(a, b) == 0.0 <==> a == 0.0 || b == 0.0
  {
  }

  /** A tuple is impossible exactly when one of its ghosts is. */
  lemma {:induction false} JointProbZero(readings: seq<Option<int>>, pacman: Pos, t: seq<Pos>, sensor: Sensor, k: nat)
    requires k <= |readings| && k <= |t|
    ensures JointProb(readings, pacman, t, sensor, k) == 0.0 <==>
      exists j :: 0 <= j < k && ObservationProb(readings[j], pacman, t[j], JointJail(j), sensor) == 0.0
  {
    if k > 0 {
      JointProbZero(readings, pacman, t, sensor, k - 1);
      MulZero(JointProb(readings, pacman, t, sensor, k - 1), ObservationProb(readings[k - 1], pacman, t[k - 1], JointJail(k - 1), sensor));
    }
  }

  /** The likelihood of a whole tuple of `m` ghosts (zero for a reading list
      or a tuple too short to hold `m` entries, which `update` never
      meets). */
  function JointLikelihood(readings: seq<Option<int>>, pacman: Pos, sensor: Sensor, m: nat): seq<Pos> -> real {
    t => if m <= |readings| && m <= |t| then JointProb(readings, pacman, t, sensor, m) else 0.0
  }

  /** `cur_beliefs` after `update`'s loop: `cur_beliefs[t] += jointP` for
      each particle `t` in order. */
  function JointWeights(ps: seq<seq<Pos>>, like: seq<Pos> -> real): Table<seq<Pos>> {
    AddEach(Empty(), ps, like)
  }

  /** The keys of the weights are the tuples in first-occurrence order. */
  lemma JointWeightsKeys(ps: seq<seq<Pos>>, like: seq<Pos> -> real)
    ensures JointWeights(ps, like).keys == Extend([], ps)
  {
    AddEachKeys(Empty(), ps, like);
  }

  /** A tuple weighs its likelihood once per particle holding it. */
  lemma JointWeightsLookup(ps: seq<seq<Pos>>, like: seq<Pos> -> real, t: seq<Pos>)
    ensures Lookup(JointWeights(ps, like), t) == Mul(multiset(ps)[t] as real, like(t))
  {
    var c, x := Count(ps, t), like(t);
    AddEachWeight(Empty(), ps, like, t);
    assert Lookup(JointWeights(ps, like), t) == Times(c, x);
    TimesIsMul(c, x);
    CountIsMultiplicity(ps, t);
  }

  /** The inner loop of `update`: `jointP *= weight` over the ghosts. */
  method TupleProb(readings: seq<Option<int>>, pacman: Pos, t: seq<Pos>, sensor: Sensor, m: nat) returns (jointP: real)
    requires m <= |readings| && m <= |t|
    ensures jointP == JointProb(readings, pacman, t, sensor, m)
  {
    jointP := 1.0;
    for k := 0 to m
      invariant jointP == JointProb(readings, pacman, t, sensor, k)
    {
      var weight := ObservationProb(readings[k], pacman, t[k], JointJail(k), sensor);
      jointP := Mul(jointP, weight);
    }
  }

  /** The outer loop of `update`: one `cur_beliefs[t] += jointP` per
      particle. */
  method WeighTuples(ps: seq<seq<Pos>>, readings: seq<Option<int>>, pacman: Pos, sensor: Sensor, m: nat)
    returns (cur: DiscreteDistribution<seq<Pos>>)
    requires |ps| > 0 ==> m <= |readings|
    requires forall t :: t in ps ==> m <= |t|
    ensures fresh(cur) && cur.Valid()
    ensures cur.Contents() == JointWeights(ps, JointLikelihood(readings, pacman, sensor, m))
  {
    ghost var like := JointLikelihood(readings, pacman, sensor, m);
    cur := new DiscreteDistribution();
    for i := 0 to |ps|
      invariant cur.Valid()
      invariant cur.Contents() == AddEach(Empty(), ps[..i], like)
    {
      var t := ps[i];
      assert t in ps;
      var jointP := TupleProb(readings, pacman, t, sensor, m);
      cur.Increment(t, jointP);
      AddEachStep(Empty(), ps, i, like);
    }
    assert ps[..|ps|] == ps;
  }

  // ---------------------------------------------------------------------
  // The moves of `predict`
  // ---------------------------------------------------------------------

  /** The cell ghost `i` of tuple `t` moves to with draw `u`: a draw from
      its transition distribution, computed with every ghost placed as in
      `t` (the ghost stays where it is when sampling is impossible, which
      `predict` never meets). */
  ghost function CoordSuccessor<A>(board: Board<A>, policy: (nat, seq<Pos>) -> seq<(A, real)>, t: seq<Pos>, i: nat, u: real): (r: Pos)
    requires i < |t|
    ensures var d := TransitionTable(board, t[i], JointJail(i), policy(i, t));
      Total(d) != 0.0 && 0.0 <= u < 1.0 ==> r in d.keys && Lookup(d, r) != 0.0
    ensures var d := TransitionTable(board, t[i], JointJail(i), policy(i, t));
      !(Total(d) != 0.0 && 0.0 <= u < 1.0) ==> r == t[i]
  {
    var d := TransitionTable(board, t[i], JointJail(i), policy(i, t));
    if Total(d) != 0.0 && 0.0 <= u < 1.0 then
      DrawNormalized(d, u);
      Draw(Normalized(d), u)
    else t[i]
  }

  /** Tuple `t` after `predict`: the first `m` ghosts moved with their own
      draws, each from the old tuple, the rest unchanged. */
  ghost function TupleMove<A>(board: Board<A>, policy: (nat, seq<Pos>) -> seq<(A, real)>, m: nat, t: seq<Pos>, us: seq<real>): (r: seq<Pos>)
    ensures |r| == |t|
  {
    seq(|t|, c requires 0 <= c < |t| => if c < m && c < |us| then CoordSuccessor(board, policy, t, c, us[c]) else t[c])
  }

  /** `TupleMove` as a function of the tuple and its draws. */
  ghost function TupleStepper<A>(board: Board<A>, policy: (nat, seq<Pos>) -> seq<(A, real)>, m: nat): (seq<Pos>, seq<real>) -> seq<Pos> {
    (t, us) => TupleMove(board, policy, m, t, us)
  }

  /** Every ghost of every tuple has a transition distribution with a
      non-zero total, so that sampling is defined. */
  ghost predicate TuplesMovable<A>(board: Board<A>, policy: (nat, seq<Pos>) -> seq<(A, real)>, m: nat, ps: seq<seq<Pos>>) {
    forall j, i :: 0 <= j < |ps| && 0 <= i < m && i < |ps[j]| ==>
      Total(TransitionTable(board, ps[j][i], JointJail(i), policy(i, ps[j]))) != 0.0
  }

  /** `newPosDist.sample()` for ghost `i` of tuple `t`. */
  method SampleCoordinate<A>(board: Board<A>, policy: (nat, seq<Pos>) -> seq<(A, real)>, t: seq<Pos>, i: nat, u: real) returns (pos: Pos)
    requires i < |t| && 0.0 <= u < 1.0
    requires Total(TransitionTable(board, t[i], JointJail(i), policy(i, t))) != 0.0
    ensures pos == CoordSuccessor(board, policy, t, i, u)
  {
    var dist := PositionDistribution(board, Joint(i, t), policy(i, t));
    pos := dist.Sample(u);
  }

  /** The inner loop of `predict`: `newParticle[i] = sample` for each ghost,
      every distribution computed from the old tuple. */
  method MoveTuple<A>(board: Board<A>, policy: (nat, seq<Pos>) -> seq<(A, real)>, m: nat, t: seq<Pos>, us: seq<real>)
    returns (moved: seq<Pos>)
    requires m <= |t| && m <= |us| && Draws(us)
    requires forall i :: 0 <= i < m ==> Total(TransitionTable(board, t[i], JointJail(i), policy(i, t))) != 0.0
    ensures moved == TupleMove(board, policy, m, t, us)
  {
    moved := t;
    for i := 0 to m
      invariant |moved| == |t|
      invariant forall c :: 0 <= c < |t| ==> moved[c] == if c < i then CoordSuccessor(board, policy, t, c, us[c]) else t[c]
    {
      var pos := SampleCoordinate(board, policy, t, i, us[i]);
      moved := moved[i := pos];
    }
  }

  /** The outer loop of `predict`: one moved tuple per particle. */
  method MoveTuples<A>(board: Board<A>, policy: (nat, seq<Pos>) -> seq<(A, real)>, m: nat, ps: seq<seq<Pos>>, draws: seq<seq<real>>)
    returns (moved: seq<seq<Pos>>)
    requires |draws| == |ps|
    requires forall j :: 0 <= j < |ps| ==> m <= |ps[j]| && m <= |draws[j]| && Draws(draws[j])
    requires TuplesMovable(board, policy, m, ps)
    ensures moved == PairMap(TupleStepper(board, policy, m), ps, draws)
  {
    ghost var f := TupleStepper(board, policy, m);
    moved := [];
    for j := 0 to |ps|
      invariant moved == PairMap(f, ps[..j], draws[..j])
    {
      var next := MoveTuple(board, policy, m, ps[j], draws[j]);
      assert next == f(ps[j], draws[j]);
      PairMapStep(f, ps, draws, j);
      moved := moved + [next];
    }
    assert ps[..|ps|] == ps && draws[..|ps|] == draws;
  }

  // ---------------------------------------------------------------------
  // Marginalisation
  // ---------------------------------------------------------------------

  /** Every tuple of `ks` has a coordinate `c`. */
  predicate Reaches(ks: seq<seq<Pos>>, c: nat) {
    forall k :: k in ks ==> c < |k|
  }

  /** `dist[t[c]] += prob` for each tuple `t` of `ks` in order. */
  function MarginalOver(acc: Table<Pos>, joint: Table<seq<Pos>>, ks: seq<seq<Pos>>, c: nat): (r: Table<Pos>)
    requires WellFormed(acc) && Reaches(ks, c)
    ensures WellFormed(r)
  {
    if |ks| == 0 then acc
    else Add(MarginalOver(acc, joint, ks[..|ks| - 1], c), ks[|ks| - 1][c], Lookup(joint, ks[|ks| - 1]))
  }

  /** The belief about coordinate `c` alone. */
  function Marginal(joint: Table<seq<Pos>>, c: nat): Table<Pos>
    requires Reaches(joint.keys, c)
  {
    MarginalOver(Empty(), joint, joint.keys, c)
  }

  /** The joint weight of the tuples of `ks` whose coordinate `c` is `q`. */
  function SumWhere(ks: seq<seq<Pos>>, w: map<seq<Pos>, real>, c: nat, q: Pos): real
    requires Reaches(ks, c)
  {
    if |ks| == 0 then 0.0
    else SumWhere(ks[..|ks| - 1], w, c, q) + if ks[|ks| - 1][c] == q then Weight(w, ks[|ks| - 1]) else 0.0
  }

  lemma {:induction false} MarginalOverTotal(acc: Table<Pos>, joint: Table<seq<Pos>>, ks: seq<seq<Pos>>, c: nat)
    requires WellFormed(acc) && Reaches(ks, c)
    ensures Total(MarginalOver(acc, joint, ks, c)) == Total(acc) + SumOver(ks, joint.weights)
  {
    if |ks| > 0 {
      MarginalOverTotal(acc, joint, ks[..|ks| - 1], c);
    }
  }

  lemma {:induction false} MarginalOverLookup(acc: Table<Pos>, joint: Table<seq<Pos>>, ks: seq<seq<Pos>>, c: nat, q: Pos)
    requires WellFormed(acc) && Reaches(ks, c)
    ensures Lookup(MarginalOver(acc, joint, ks, c), q) == Lookup(acc, q) + SumWhere(ks, joint.weights, c, q)
  {
    if |ks| > 0 {
      MarginalOverLookup(acc, joint, ks[..|ks| - 1], c, q);
    }
  }

  /** Summing out the other ghosts keeps the total, and each cell gets the
      joint weight of the tuples that put ghost `c` on it. */
  lemma MarginalProperties(joint: Table<seq<Pos>>, c: nat, q: Pos)
    requires Reaches(joint.keys, c)
    ensures Total(Marginal(joint, c)) == Total(joint)
    ensures Lookup(Marginal(joint, c), q) == SumWhere(joint.keys, joint.weights, c, q)
  {
    MarginalOverTotal(Empty(), joint, joint.keys, c);
    MarginalOverLookup(Empty(), joint, joint.keys, c, q);
  }

  // ---------------------------------------------------------------------
  // The filter
  // ---------------------------------------------------------------------

  class JointParticleFilter {
    var numParticles: nat
    var numGhosts: nat
    var legalPositions: seq<Pos>
    var particles: seq<seq<Pos>>

    /** `JointParticleFilter(numParticles)`: nothing is tracked yet. */
    constructor(n: nat)
      ensures numParticles == n && numGhosts == 0 && legalPositions == [] && particles == []
    {
      numParticles := n;
      numGhosts := 0;
      legalPositions := [];
      particles := [];
    }

    /** `initialize`: records the number of ghosts and the legal cells and
        spreads the particles over the shuffled product. */
    method Initialize(ghosts: nat, legal: seq<Pos>, shuffled: seq<seq<Pos>>)
      requires multiset(shuffled) == multiset(Product(legal, ghosts))
      requires numParticles > 0 ==> |shuffled| > 0
      modifies this
      ensures numParticles == old(numParticles) && numGhosts == ghosts && legalPositions == legal
      ensures |particles| == numParticles
      ensures forall i :: 0 <= i < numParticles ==> particles[i] == shuffled[i % |shuffled|]
    {
      numGhosts := ghosts;
      legalPositions := legal;
      InitializeUniformly(shuffled);
    }

    /** `initializeUniformly`, given the product after `random.shuffle`:
        particle `i` is entry `i mod P` of the shuffled product. */
    method InitializeUniformly(shuffled: seq<seq<Pos>>)
      requires multiset(shuffled) == multiset(Product(legalPositions, numGhosts))
      requires numParticles > 0 ==> |shuffled| > 0
      modifies this
      ensures numParticles == old(numParticles) && numGhosts == old(numGhosts) && legalPositions == old(legalPositions)
      ensures |particles| == numParticles
      ensures forall i :: 0 <= i < numParticles ==> particles[i] == shuffled[i % |shuffled|]
    {
      particles := [];
      for i := 0 to numParticles
        invariant numParticles == old(numParticles) && numGhosts == old(numGhosts) && legalPositions == old(legalPositions)
        invariant |particles| == i
        invariant forall j :: 0 <= j < i ==> particles[j] == shuffled[j % |shuffled|]
      {
        var index := i % |shuffled|;
        particles := particles + [shuffled[index]];
      }
    }

    /** What `update` needs to run: long enough readings and tuples, a
        shuffled product to restart from when the weights total zero, and
        at least `numParticles` particles to overwrite otherwise. */
    ghost predicate Ready(readings: seq<Option<int>>, pacman: Pos, sensor: Sensor, reshuffled: seq<seq<Pos>>)
      reads this
    {
      && (|particles| > 0 ==> numGhosts <= |readings|)
      && (forall t :: t in particles ==> numGhosts <= |t|)
      && var w := JointWeights(particles, JointLikelihood(readings, pacman, sensor, numGhosts));
      && (Total(w) == 0.0 ==>
            multiset(reshuffled) == multiset(Product(legalPositions, numGhosts)) && (numParticles > 0 ==> |reshuffled| > 0))
      && (Total(w) != 0.0 ==> numParticles <= |particles|)
    }

    /** `update(observation)`: weighs each particle tuple by the product of
        its ghosts' likelihoods, then either restarts from the product
        shuffled anew (total zero) or overwrites the first `numParticles`
        particles with draws from the normalised weights. */
    method Update(readings: seq<Option<int>>, pacman: Pos, sensor: Sensor, draws: seq<real>, reshuffled: seq<seq<Pos>>)
      requires Draws(draws) && |draws| == numParticles
      requires Ready(readings, pacman, sensor, reshuffled)
      modifies this
      ensures numParticles == old(numParticles) && numGhosts == old(numGhosts) && legalPositions == old(legalPositions)
      ensures var w := JointWeights(old(particles), JointLikelihood(readings, pacman, sensor, numGhosts));
        && (Total(w) == 0.0 ==>
              && |particles| == numParticles
              && forall i :: 0 <= i < numParticles ==> particles[i] == reshuffled[i % |reshuffled|])
        && (Total(w) != 0.0 ==>
              && |particles| == |old(particles)|
              && (forall k :: 0 <= k < numParticles ==> particles[k] == Draw(Normalized(w), draws[k]))
              && (forall k :: numParticles <= k < |particles| ==> particles[k] == old(particles)[k]))
    {
      var cur := WeighTuples(particles, readings, pacman, sensor, numGhosts);
      if cur.Total() == 0.0 {
        InitializeUniformly(reshuffled);
      } else {
        ghost var w := cur.Contents();
        cur.Normalize();
        NormalizeIdempotent(w);
        Resample(cur, draws);
      }
    }

    /** `update`'s resampling loop: `cur_beliefs.sample()` on the
        normalised weights themselves, which sampling normalises again
        without change. */
    method Resample(cur: DiscreteDistribution<seq<Pos>>, draws: seq<real>)
      requires cur.Valid() && Total(cur.Contents()) == 1.0 && Normalized(cur.Contents()) == cur.Contents()
      requires Draws(draws) && |draws| == numParticles <= |particles|
      modifies this, cur
      ensures numParticles == old(numParticles) && numGhosts == old(numGhosts) && legalPositions == old(legalPositions)
      ensures cur.Contents() == old(cur.Contents())
      ensures |particles| == |old(particles)|
      ensures forall k :: 0 <= k < numParticles ==> particles[k] == Draw(cur.Contents(), draws[k])
      ensures forall k :: numParticles <= k < |particles| ==> particles[k] == old(particles)[k]
    {
      ghost var n := cur.Contents();
      for k := 0 to numParticles
        invariant cur.Valid() && cur.Contents() == n
        invariant numParticles == old(numParticles) && numGhosts == old(numGhosts) && legalPositions == old(legalPositions)
        invariant |particles| == |old(particles)|
        invariant forall j :: 0 <= j < k ==> particles[j] == Draw(n, draws[j])
        invariant forall j :: k <= j < |particles| ==> particles[j] == old(particles)[j]
      {
        var drawn := cur.Sample(draws[k]);
        particles := particles[k := drawn];
      }
    }

    /** `predict`: every particle tuple moves each of its first `numGhosts`
        ghosts with its own draw, every move computed from the old tuple. */
    method Predict<A>(board: Board<A>, policy: (nat, seq<Pos>) -> seq<(A, real)>, draws: seq<seq<real>>)
      requires |draws| == |particles|
      requires forall j :: 0 <= j < |particles| ==> numGhosts <= |particles[j]| && numGhosts <= |draws[j]| && Draws(draws[j])
      requires TuplesMovable(board, policy, numGhosts, particles)
      modifies this
      ensures numParticles == old(numParticles) && numGhosts == old(numGhosts) && legalPositions == old(legalPositions)
      ensures particles == PairMap(TupleStepper(board, policy, numGhosts), old(particles), draws)
    {
      var moved := MoveTuples(board, policy, numGhosts, particles, draws);
      particles := moved;
    }

    /** `getBeliefDistribution` (inherited): the normalised count of
        particles per tuple. */
    method GetBeliefDistribution() returns (d: DiscreteDistribution<seq<Pos>>)
      ensures fresh(d) && d.Valid()
      ensures d.Contents() == Histogram(particles)
    {
      d := CountHistogram(particles);
    }
  }

  /** After `predict`, particle `j` keeps its length, ghost `i < m` sits on
      the cell drawn for it from the old tuple with draw `draws[j][i]`, and
      the other entries are unchanged. */
  lemma PredictedTuples<A>(board: Board<A>, policy: (nat, seq<Pos>) -> seq<(A, real)>, m: nat, ps: seq<seq<Pos>>, draws: seq<seq<real>>, j: nat, i: nat)
    requires |draws| == |ps| && j < |ps| && i < |ps[j]| && m <= |draws[j]|
    ensures |PairMap(TupleStepper(board, policy, m), ps, draws)[j]| == |ps[j]|
    ensures PairMap(TupleStepper(board, policy, m), ps, draws)[j][i] ==
      if i < m then CoordSuccessor(board, policy, ps[j], i, draws[j][i]) else ps[j][i]
  {
    PairMapAt(TupleStepper(board, policy, m), ps, draws, j);
  }

  lemma MarginalOverStep(acc: Table<Pos>, joint: Table<seq<Pos>>, ks: seq<seq<Pos>>, c: nat, j: nat)
    requires WellFormed(acc) && j < |ks| && Reaches(ks, c)
    ensures MarginalOver(acc, joint, ks[..j + 1], c) == Add(MarginalOver(acc, joint, ks[..j], c), ks[j][c], Lookup(joint, ks[j]))
  {
    assert ks[..j + 1][..j] == ks[..j];
  }

  /** The loop of `MarginalInference.getBeliefDistribution`:
      `dist[t[c]] += prob` over the items of the joint belief. */
  method SumByCoordinate(joint: DiscreteDistribution<seq<Pos>>, c: nat) returns (dist: DiscreteDistribution<Pos>)
    requires joint.Valid() && Reaches(joint.keys, c)
    ensures fresh(dist) && dist.Valid()
    ensures dist.Contents() == Marginal(joint.Contents(), c)
  {
    var ks, ws := joint.keys, joint.weights;
    ghost var t := joint.Contents();
    dist := new DiscreteDistribution();
    for j := 0 to |ks|
      invariant dist.Valid()
      invariant dist.Contents() == MarginalOver(Empty(), t, ks[..j], c)
    {
      var k := ks[j];
      var prob := ws[k];
      MarginalOverStep(Empty(), t, ks, c, j);
      dist.Increment(k[c], prob);
    }
    assert ks[..|ks|] == ks;
  }

  /** `MarginalInference.getBeliefDistribution` for ghost agent `index`:
      the joint filter's belief summed by coordinate `index - 1`, in the
      order of the joint belief's keys. */
  method MarginalBelief(jf: JointParticleFilter, index: int) returns (dist: DiscreteDistribution<Pos>)
    requires index >= 1 && Reaches(jf.particles, index - 1)
    ensures fresh(dist) && dist.Valid()
    ensures HistogramKeys(jf.particles, index - 1) && dist.Contents() == Marginal(Histogram(jf.particles), index - 1)
  {
    var jointDistribution := jf.GetBeliefDistribution();
    ghost var h := jointDistribution.Contents();
    HistogramKeysHold(jf.particles, index - 1);
    assert Reaches(jointDistribution.keys, index - 1);
    dist := SumByCoordinate(jointDistribution, index - 1);
    assert dist.Contents() == Marginal(h, index - 1);
  }

  /** Every tuple the histogram of `ps` lists has a coordinate `c`. */
  ghost predicate HistogramKeys(ps: seq<seq<Pos>>, c: nat) {
    Reaches(Histogram(ps).keys, c)
  }

  lemma HistogramKeysHold(ps: seq<seq<Pos>>, c: nat)
    requires Reaches(ps, c)
    ensures HistogramKeys(ps, c)
  {
    HistogramWeights(ps, []);
  }
}
