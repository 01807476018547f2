# Ghost-tracking inference, modelled in Dafny

This project models the inference core of the Pacman "ghostbusters" tracker
(`inference.py`). Pacman cannot see the ghosts. Each turn it receives a noisy
Manhattan distance to each ghost and must keep a belief about where the
ghosts are. The modelled pieces are:

- `DiscreteDistribution` (`distribution.dfy`, with its value view in
  `tables.dfy`). It is an insertion-ordered map from keys to weights. Reading
  a missing key stores it with weight 0. It supports `total`, `normalize`,
  `argMax` and `sample`.
- The parts shared by every inference module (`ghost_model.dfy`):
  - jail cells;
  - the observation probability P(reading | Pacman, ghost, jail);
  - the one-step transition distribution of a ghost
    (`getPositionDistributionHelper`), including the capture share and the
    overwrite-not-accumulate writes of its action loop.
- `ExactInference` (`exact.dfy`): a uniform prior, the forward-algorithm
  observation update and the time-elapse convolution.
- `ParticleFilter` (`particles.dfy`):
  - the even initial spread of particles;
  - likelihood-weighted resampling, falling back to reinitialisation when
    every weight is zero;
  - sampled motion;
  - the particle histogram.
- `JointParticleFilter` and `MarginalInference.getBeliefDistribution`
  (`joint.dfy`):
  - particles are tuples with one cell per ghost, starting as a cyclic walk
    through the shuffled Cartesian product of the legal cells;
  - a tuple's likelihood is the product of its ghosts' likelihoods;
  - each ghost moves from the old tuple;
  - the marginal sums the joint belief by one coordinate.

Randomness is an input. Each call to `random.random()` becomes a draw `u` in
[0, 1), and `random.shuffle` becomes any sequence with the same multiset as
the product. `sample` is specified by `Tables.Draw`: the first key, in key
order, whose half-open interval of accumulated weights contains `u`.

Weights are exact `real` numbers. Collaborators the core only calls are
parameters:
- the sensor curve and Manhattan distance (`GhostModel.Sensor`);
- Pacman's cell, Pacman's legal neighbours and `getSuccessor`
  (`GhostModel.Board`);
- each ghost agent's action distribution (the `policy` parameters).

Where a method works by mutation, the model is imperative. The distribution
and the three filters are classes whose methods update their fields. Each
method is proved against a specification function on values: `Normalized`,
`Draw`, `ExactUpdate`, `Convolved`, `UniformLayout`, `ParticleWeights`,
`JointWeights`, `PairMap`, `Histogram` and `Marginal`. The lemmas prove what
the source promises about those functions.

## Model

| member | source | states |
|---|---|---|
| Distributions.DiscreteDistribution.constructor | inference.py:23-27 | A new distribution holds no key. |
| Distributions.DiscreteDistribution.Copy | inference.py:32-36 | The copy holds the same keys, in the same order, with the same weights. |
| Distributions.DiscreteDistribution.Get | inference.py:28-30 | Returns the stored weight, or 0 for a missing key. A missing key is then stored with weight 0 at the end of the key order, and no key's weight changes. |
| Distributions.DiscreteDistribution.Set | inference.py:289 | `d[k] = v`: `k` now weighs `v` and is appended when new. Every other weight is unchanged. |
| Distributions.DiscreteDistribution.Increment | inference.py:341 | `d[k] += x`: `k` gains `x`, starting from 0 when missing. The other weights are unchanged and the total grows by `x`. |
| Tables.Add | inference.py:341 | `k`'s weight grows by `x`, every other key keeps its weight, and the total grows by `x`. |
| Tables.Assign | inference.py:289 | `d[k] = v`: the key now weighs `v`, every other weight is kept, and the total changes by `v` minus the old weight. |
| Tables.AssignKeys | inference.py:289 | `d[k] = v` keeps the key order when the key is stored and appends a new key at the end. |
| Distributions.DiscreteDistribution.Total | inference.py:49-53 | The sum of all weights, never negative when no weight is. |
| Distributions.DiscreteDistribution.Normalize | inference.py:55-81 | The new contents are `Normalized` of the old contents, with the same keys in the same order. |
| Tables.Normalized | inference.py:55-81 | Keys and order are kept. A total of 0 (the empty map included) leaves the map unchanged. Otherwise every weight is divided by the old total and the new weights sum to 1. |
| Tables.NormalizeIdempotent | inference.py:55-81 | Normalising twice gives the same result as normalising once. |
| Tables.NormalizedNonNegative | inference.py:76-81 | Normalising keeps every weight non-negative. |
| Distributions.DiscreteDistribution.Sample | inference.py:83-117 | Normalises in place, leaving a total of 1. Returns `Draw(normalised, u)`, a stored key with positive weight. |
| Distributions.FirstCovering | inference.py:105-117 | Returns the index of the first key, in key order, whose interval [start, end) of accumulated weights contains `u`. |
| Tables.Draw | inference.py:104-117 | The drawn key is stored and its weight is positive, so a zero-weight key is never drawn. |
| Tables.DrawUnique | inference.py:108-117 | With non-negative weights the intervals are disjoint. A key whose interval holds `u` is exactly the key drawn. |
| Tables.DrawNormalized | inference.py:104-117 | Sampling a normalised copy of a table with non-zero total gives the copy total 1 and returns one of the table's own keys whose weight is not zero. |
| Distributions.DiscreteDistribution.ArgMax | inference.py:38-47 | Returns `None` exactly when the map is empty. Otherwise returns a stored key of maximal weight, the first such key in key order. |
| Tables.MultiplyEachResult | inference.py:310-312 | Over distinct cells, each listed cell ends with its old weight times the likelihood. Unlisted cells keep their weight, and missing listed cells are appended in order. |
| GhostModel.Jail | inference.py:138-139 | Agent `i`'s jail is on row 1, and `i` can be read back from it. |
| GhostModel.JailInjective | inference.py:138-139 | Different agents have different jails. |
| GhostModel.JointJail | inference.py:486-487 | The joint filter's jail for 0-based ghost `i` is the single-ghost jail of agent `i + 1`. |
| GhostModel.ObservationProb | inference.py:184-200 | Full truth table. No reading gives 1 in the jail and 0 elsewhere. A reading in the jail gives 0. A reading elsewhere gives the sensor curve at the true distance. |
| GhostModel.ObservationBounded | inference.py:184-200 | With a sensor curve that returns probabilities, every observation probability lies in [0, 1]. |
| GhostModel.Placement.JailCell | inference.py:142-147 | A single-ghost placement uses its agent's jail. A joint placement of ghost `i` uses agent `i + 1`'s jail. |
| GhostModel.Mult | inference.py:156-160 | The capture share is 0 away from Pacman. Next to Pacman it lies in (0, 1] and, times the number of Pacman's moves, gives 1. |
| GhostModel.Initial | inference.py:152-160 | Before the action loop, the table's total is the capture share and only the jail can be non-zero. |
| GhostModel.ActionStep | inference.py:162-168 | One action: its successor ends with exactly the share written on it (the escaped part next to Pacman, the whole share otherwise); the jail gains the capture part when the successor is not the jail itself; every other cell is unchanged. |
| GhostModel.TransitionTable | inference.py:150-153 | A ghost on Pacman's cell goes to the jail with probability 1, and no other cell is listed. |
| GhostModel.SplitShare | inference.py:164-166 | For a reachable successor, the jail part and the successor part add up to `prob * (1 - mult)`. |
| GhostModel.FoldUntouched | inference.py:162-168 | The action loop never touches a cell that is neither the jail nor a successor. |
| GhostModel.FoldLastWrite | inference.py:162-168 | For any list of actions, a successor other than the jail ends with exactly the share written by the LAST action leading to it: earlier writes are overwritten, not added up. |
| GhostModel.FoldJail | inference.py:162-166 | For any list of actions none of which leads onto the jail, the jail gains the capture part of every action whose successor Pacman can reach, each exactly once. |
| GhostModel.FoldTotal | inference.py:162-168 | With distinct successors, none of them the jail, each action adds its whole share to the total. |
| GhostModel.TransitionTotal | inference.py:141-169 | When the ghost is free, its actions lead to distinct cells and none of them leads onto the jail, the distribution totals `mult + (1 - mult) * sum(probabilities)`, which is 1 when the action probabilities sum to 1. |
| GhostModel.OverwriteKeepsLast | inference.py:167-168 | Two actions leading to the same free cell do not accumulate: the later share overwrites the earlier one. |
| GhostModel.FoldJailAfter | inference.py:162-166 | When no action from some index on leads onto the jail, those actions add their capture parts, each once, to what the jail held before them. |
| GhostModel.FoldJailOverwritten | inference.py:162-169 | When some action leads onto the jail, the last such action overwrites whatever the jail held (the capture share and earlier capture parts included); only the capture parts of the actions after it are added on top. |
| GhostModel.TransitionWeights | inference.py:141-169 | A free ghost's table, cell by cell. When no action leads onto the jail, the jail holds the capture share plus every capture part. When some do, it holds what the last of them wrote plus the capture parts of the actions after it. A successor other than the jail holds what the last action leading to it wrote. Every other cell holds 0. |
| GhostModel.ShareSigns | inference.py:164-168 | With a non-negative probability and a capture share in [0, 1], the free, caught and escaped parts are all non-negative. |
| GhostModel.FoldNonNegative | inference.py:162-168 | With non-negative action probabilities the action loop keeps every weight non-negative. |
| GhostModel.TransitionNonNegative | inference.py:141-169 | With non-negative action probabilities the transition distribution holds no negative weight. |
| GhostModel.PositionDistribution | inference.py:141-180 | Returns a fresh distribution holding exactly `TransitionTable` for the placement's ghost and jail. |
| Exact.UniformPriorWeights | inference.py:282-290 | The prior's keys are the legal cells, in order. Each legal cell has weight 1/n, every other cell (the jail included) has 0, and the total is 1. |
| Exact.UniformPriorNonNegative | inference.py:282-290 | The uniform prior holds no negative weight. |
| Exact.Ones | inference.py:287-289 | Returns a fresh distribution holding weight 1 for each legal cell, in order. |
| Exact.AllPositionsDistinct | inference.py:243-244 | The legal cells followed by the jail are pairwise distinct. |
| Exact.ExactInference.constructor | inference.py:239-245 | Sets `allPositions` to the legal cells followed by the jail, and starts the beliefs at the uniform prior. |
| Exact.ExactInference.InitializeUniformly | inference.py:282-290 | The beliefs become a fresh distribution equal to `UniformPrior(legalPositions)`. |
| Exact.ExactInference.Update | inference.py:308-313 | The beliefs become `ExactUpdate(old, allPositions, likelihood)`. |
| Exact.UpdateWeights | inference.py:310-313 | Each listed cell gets old weight × likelihood, divided by the total of those products. When that total is 0, the products are left unnormalised. |
| Exact.UpdateZero | inference.py:310-313 | A listed cell with likelihood 0 ends with belief 0. |
| Exact.UpdateSumsToOne | inference.py:310-313 | With non-negative weights and likelihoods, one non-zero product makes the updated beliefs sum to 1. |
| Exact.ProductsNonNegative | inference.py:310-312 | Non-negative beliefs times non-negative likelihoods are non-negative. |
| Exact.UpdateNonNegative | inference.py:308-313 | The observation update keeps every belief non-negative when the likelihoods are. |
| Exact.LikelihoodNonNegative | inference.py:184-200 | With a sensor curve that returns probabilities, every cell's likelihood is non-negative. |
| Exact.ExactInference.Observe | inference.py:229-237 | When the reading list holds this ghost's entry, it performs that update. Otherwise the beliefs are unchanged. |
| Exact.SpreadInto | inference.py:339-341 | The accumulator becomes `SpreadOver` of its old contents. The position distribution is unchanged and the belief lookups are unchanged. |
| Exact.SpreadOverLookup | inference.py:339-341 | Each listed cell `q` gains `T(q) * w` exactly once. Other cells are unchanged. |
| Exact.ConvolveAll | inference.py:337-341 | The fresh accumulator is `Convolved(old beliefs, allPositions)`. The belief object it reads stays well formed and every one of its weights is unchanged. |
| Exact.ConvolvedLookup | inference.py:337-341 | Every cell holds the reference sum over old cells `g` of `T(g)(q) × belief(g)`. |
| Exact.CaughtMassToJail | inference.py:150-153 | A cell on Pacman's square moves all of its belief to the jail and adds nothing anywhere else. |
| Exact.PredictWeights | inference.py:336-343 | Each predicted belief is the reference sum divided by its total. |
| Exact.MixAtNonNegative | inference.py:337-341 | With non-negative beliefs and action probabilities, the reference sum at every cell is non-negative. |
| Exact.PredictNonNegative | inference.py:336-343 | The time update keeps every belief non-negative when the action probabilities are, so the update that follows sums to 1 whenever one product is non-zero. |
| Exact.ExactInference.Predict | inference.py:336-343 | The beliefs become a fresh distribution equal to `Normalized(Convolved(old beliefs, allPositions))`. The old belief object, which `getBeliefDistribution` may have handed out, stays well formed and keeps every weight. |
| Exact.ExactInference.GetBeliefDistribution | inference.py:346-347 | Returns the belief object itself. |
| Particles.UniformLayoutCounts | inference.py:369-381 | The spread has exactly `n` particles, all of them legal. Legal cell `i` occurs `n div L` times, plus once more when `i < n mod L`. |
| Particles.UniformLayout | inference.py:369-381 | The even spread holds exactly `n` particles, for any list of legal cells. |
| Particles.ParticleFilter.constructor | inference.py:354-359 | Stores the index and the number of particles, then spreads the particles evenly, which establishes the invariant `|particles| == numParticles`. |
| Particles.ParticleFilter.SetNumParticles | inference.py:358-359 | Only the particle count changes. |
| Particles.ParticleFilter.InitializeUniformly | inference.py:361-382 | The particles become `UniformLayout(legalPositions, numParticles)`, which establishes the invariant `|particles| == numParticles`. |
| Particles.CountParticles | inference.py:396-401 | The map's domain is exactly the particle cells, and each entry is that cell's number of particles. |
| Particles.WeighParticles | inference.py:402-405 | The weights are `ParticleWeights`: likelihood × count, written once per particle. |
| Particles.ParticleWeightsLookup | inference.py:402-405 | A particle cell weighs likelihood × multiplicity, any other cell weighs 0, and keys appear in first-occurrence order. |
| Particles.ZeroTotalIffAllUnlikely | inference.py:406-407 | With non-negative likelihoods, the total is 0 if and only if every particle has likelihood 0. This is exactly when `update` reinitialises. |
| Particles.ResampledFromParticles | inference.py:408-412 | A resampled cell is an old particle cell with positive normalised weight, and with non-negative likelihoods its likelihood is positive. |
| Particles.SampleCopy | inference.py:411 | Sampling a copy of normalised weights returns `Draw(weights, u)` and leaves the original untouched. |
| Particles.ParticleFilter.Resample | inference.py:410-412 | Particle `k < numParticles` becomes `Draw(weights, draws[k])`. The rest and the length are unchanged. |
| Particles.ParticleFilter.Update | inference.py:386-412 | With a zero total, the particles are respread evenly. Otherwise the length is kept and each of the first `numParticles` particles is drawn from the normalised weights. The invariant `|particles| == numParticles` is preserved. |
| Particles.ParticleFilter.Observe | inference.py:229-237 | When the reading list holds this ghost's entry, it performs that update. Otherwise the particles are unchanged. Either way the invariant `|particles| == numParticles` is kept. |
| Particles.CaughtParticleJailed | inference.py:150-153 | A particle on Pacman's cell moves to the jail whatever the draw. |
| Particles.Successor | inference.py:425-427 | With a non-zero transition total, a particle moves to a cell its transition distribution lists with non-zero probability. |
| Particles.SampleSuccessor | inference.py:425-427 | Returns the successor drawn for the cell from its transition distribution. |
| Particles.MoveAll | inference.py:420-428 | Returns one drawn successor per particle, in order (`PairMap`). |
| Particles.PredictedParticles | inference.py:420-429 | Particle `i` moves to the successor drawn for its old cell with draw `i`, and the number of particles is unchanged. |
| Particles.ParticleFilter.Predict | inference.py:414-429 | The particles become `PairMap(Stepper, old particles, draws)`. Their number and the invariant `|particles| == numParticles` are kept. |
| Particles.HistogramWeights | inference.py:438-445 | A cell's belief is count / number of particles. Keys appear in first-occurrence order, a non-empty list sums to 1, and the empty list gives the empty map. |
| Particles.CountHistogram | inference.py:438-445 | Returns a fresh distribution equal to `Histogram(particles)`. |
| Particles.ParticleFilter.GetBeliefDistribution | inference.py:431-445 | Returns `Histogram(particles)` in a fresh object. |
| Joint.ExtensionsMembers | inference.py:472 | A tuple is among the extensions exactly when its prefix is among the shorter tuples and its last cell is legal. |
| Joint.Extensions | inference.py:472 | Extending `k` tuples by `L` cells gives `k * L` tuples. |
| Joint.Product | inference.py:472 | The product of `L` cells with `m` repeats has `L^m` tuples. |
| Joint.ProductMembers | inference.py:472 | The product holds exactly the `m`-tuples of legal cells, in both directions. |
| Joint.ShuffledTuples | inference.py:472-473 | Every entry of a shuffle of the product is an `m`-tuple of legal cells. |
| Joint.JointParticleFilter.constructor | inference.py:453-454 | Sets the number of particles and starts with nothing tracked. |
| Joint.JointParticleFilter.Initialize | inference.py:456-463 | Records the number of ghosts and the legal cells. Particle `i` is entry `i mod P` of the shuffled product. |
| Joint.JointParticleFilter.InitializeUniformly | inference.py:465-477 | The filter holds exactly `numParticles` particles, and particle `i` is entry `i mod P` of the shuffled product. |
| Joint.TupleProb | inference.py:507-511 | Returns the product of the ghosts' observation probabilities, ghost `k` judged against jail `k`. |
| Joint.JointProbZero | inference.py:507-511 | A tuple's likelihood is 0 if and only if some ghost's observation probability is 0. |
| Joint.WeighTuples | inference.py:505-512 | The weights are `JointWeights`: `+= jointP` once per particle. |
| Joint.JointWeightsKeys | inference.py:506-512 | The keys are the particle tuples in first-occurrence order. |
| Joint.JointWeightsLookup | inference.py:506-512 | A tuple weighs its multiplicity × its likelihood. |
| Joint.JointParticleFilter.Resample | inference.py:516-519 | Particle `k < numParticles` becomes `Draw(weights, draws[k])`. The rest and the length are unchanged. |
| Joint.JointParticleFilter.Update | inference.py:497-519 | With a zero total, the particles restart from the reshuffled product. Otherwise the length is kept and the first `numParticles` particles are drawn from the normalised weights. |
| Joint.SampleCoordinate | inference.py:533-538 | Returns ghost `i`'s drawn cell, computed from the whole old tuple. |
| Joint.CoordSuccessor | inference.py:533-538 | With a non-zero transition total, a ghost moves to a cell its transition distribution (from the whole old tuple) lists with non-zero probability. |
| Joint.MoveTuple | inference.py:530-540 | The first `m` ghosts move with their own draws, each computed from the old tuple. The other entries are kept. |
| Joint.MoveTuples | inference.py:527-541 | Returns one moved tuple per particle, in order. |
| Joint.PredictedTuples | inference.py:529-541 | Ghost `i < m` of particle `j` sits on the cell drawn from the old tuple with `draws[j][i]`. The other entries and the tuple's length are kept. |
| Joint.JointParticleFilter.Predict | inference.py:522-541 | The particles become `PairMap(TupleStepper, old particles, draws)`. |
| Joint.JointParticleFilter.GetBeliefDistribution | inference.py:431-445 | Returns `Histogram(particles)` over tuples in a fresh object. |
| Joint.MarginalProperties | inference.py:580-584 | The marginal's total equals the joint total. Each cell gets the joint weight of the tuples that place that ghost on it. |
| Joint.MarginalOverTotal | inference.py:581-583 | The loop over the joint items adds the whole joint weight of the visited tuples to the total. |
| Joint.MarginalOverLookup | inference.py:581-583 | The loop gives each cell the joint weight of the visited tuples that place the ghost on it. |
| Joint.SumByCoordinate | inference.py:581-584 | The result is `Marginal(joint, c)`, built from the joint items in key order. |
| Joint.MarginalBelief | inference.py:575-584 | Returns `Marginal(Histogram(joint particles), index - 1)` in a fresh object. |

## Left out

- Random number generation is an input. `random.random()` becomes a draw in [0, 1), and `random.shuffle` becomes any reordering of the product. The 1,000,000-draw frequency doctest of `sample` is statistical and is not stated.
- Floating point is not modelled; weights are exact reals. Rounding that could leave a draw outside every interval is therefore not modelled.
- `busters.getObservationProbability`, `util.manhattanDistance`, `game.Actions.getLegalNeighbors`/`getSuccessor` and `agent.getDistribution` are parameters. Their source is not part of this model.
- `setGhostPosition`/`setGhostPositions` and the game-state copies are not modelled. The `Placement` datatype replaces the `try`/`except TypeError` dispatch that picks them.
- Reading the walls in `initialize` and `getNoisyGhostDistances` are replaced by inputs: the legal cells and the reading list.
- The `posDistDic` caches in both `predict` methods are not modelled; the model recomputes each transition distribution. The single-ghost filter samples a copy of the cached table, so the cache never changes. The joint filter calls `sample()` on the cached table itself, which normalises it in place. A later hit therefore finds the normalised table rather than the one first stored. It draws the same cell, because normalising twice equals normalising once (`Tables.NormalizeIdempotent`).
- The `obs` field written by `observe` is not modelled, because nothing in the core reads it.
- The unused distribution built and normalised in `ParticleFilter.initializeUniformly` is not modelled, because it is dead code.
- The shared `jointInference` object is not modelled, nor is the forwarding in `MarginalInference.initializeUniformly`/`observe`/`predict`, which only agent 1 performs. `MarginalBelief` takes the joint filter as a parameter.
- `addGhostAgent` and the `ghostAgents` list become the `policy` parameter of `JointParticleFilter.Predict`. `JointParticleFilter.observe` only passes the whole reading list to `update`, so the model's `Update` takes that list directly.
- `numParticles` is a `nat`: the model does not cover a negative particle count.
- Distributions.DiscreteDistribution.Sample: requires a non-zero total and a draw in [0, 1). With a zero total, the source falls through to line 119, which calls `keys()` on the float draw and fails at run time.
- Particles.ParticleFilter.Update: requires at least `numParticles` particles when the weights total is non-zero (the source raises `IndexError` otherwise), and at least one legal cell when it is zero (the respread through `initializeUniformly` divides by zero at inference.py:371 otherwise).
- Joint.JointParticleFilter.Update: requires at least `numParticles` particles when the weights total is non-zero, and readings and tuples holding `numGhosts` entries. The source raises `IndexError` otherwise.
- Particles.Successor: a cell whose transition distribution totals 0 (where `sample` would fail) stays put. The predict methods require a non-zero total, so this value is never used. The same holds for Joint.CoordSuccessor.
- Joint.JointLikelihood: gives 0 to a tuple or reading list shorter than the number of ghosts. `Update` requires both to be long enough, so this value is never used.
- Exact.ExactInference.Predict: reading `self.beliefs[g]` may append missing cells with weight 0 to the old belief object's key order. The contract states that this object stays well formed and that every weight it holds is unchanged, but not which keys were appended.
- Distributions.DiscreteDistribution.Normalize: divides the weights in a local copy of the map and stores it at the end. The observable result is the same as the source's key-by-key writes.
- Particles.ParticleFilter.constructor and Particles.ParticleFilter.InitializeUniformly: require at least one legal cell. With none, the source divides by zero at line 371.
- Joint.JointParticleFilter.Initialize and Joint.JointParticleFilter.InitializeUniformly: require a non-empty product when particles are wanted. With an empty product, the source divides by zero at line 475.
- Joint.MarginalBelief: requires every joint particle to have a coordinate for the asked ghost. The source raises `IndexError` at line 583 otherwise.
- Joint.JointParticleFilter.Predict: requires every particle and every draw list to hold at least `numGhosts` entries. The source raises `IndexError` otherwise.
- Particles.ParticleFilter.SetNumParticles: does not keep the invariant `|particles| == numParticles`. The source does not either, until the next `initializeUniformly`. The resampling in `Update` therefore needs only `numParticles <= |particles|`.
