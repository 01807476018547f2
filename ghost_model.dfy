/**
  The pieces of the ghost-tracking model shared by every inference module:
  board positions, jail cells, the sensor model P(reading | positions) and
  the one-step transition distribution of a ghost.
*/
module GhostModel {
  import opened Wrappers
  import opened Tables
  import opened Distributions

  /** A board cell `(x, y)`. */
  datatype Pos = Pos(x: int, y: int)

  /** The sensor collaborators: `noise(reading, trueDistance)` is the
      probability of a noisy reading given the true distance, and `distance`
      is the Manhattan distance between two cells. Neither is part of this
      model. */
  datatype Sensor = Sensor(noise: (int, int) -> real, distance: (Pos, Pos) -> int)

  /** The noise curve only returns probabilities. */
  ghost predicate ProbabilityCurve(s: Sensor) {
    forall n, d :: 0.0 <= s.noise(n, d) <= 1.0
  }

  /** `getJailPosition()` of the module tracking ghost agent `index`: a cell
      on row 1, from which the agent index can be read back. */
  function Jail(index: int): (p: Pos)
    ensures p.y == 1
    ensures (p.x + 1) / 2 == index
  {
    Pos(2 * index - 1, 1)
  }

  /** Different ghost agents are jailed in different cells. */
  lemma JailInjective(i: int, j: int)
    requires Jail(i) == Jail(j)
    ensures i == j
  {
    assert (Jail(i).x + 1) / 2 == i;
  }

  /** `JointParticleFilter.getJailPosition(i)` for the 0-based ghost `i`: the
      same cell the single-ghost module of agent `i + 1` uses. */
  function JointJail(i: int): (p: Pos)
    ensures p == Jail(i + 1)
  {
    Pos(2 * i + 1, 1)
  }

  /** `getObservationProb(reading, pacman, ghost, jail)`: a captured ghost
      produces no reading, a free one produces a reading drawn from the
      sensor curve at the true distance. */
  function ObservationProb(reading: Option<int>, pacman: Pos, cell: Pos, jail: Pos, sensor: Sensor): (p: real)
    ensures reading.None? && cell == jail ==> p == 1.0
    ensures reading.None? && cell != jail ==> p == 0.0
    ensures reading.Some? && cell == jail ==> p == 0.0
    ensures reading.Some? && cell != jail ==> p == sensor.noise(reading.value, sensor.distance(pacman, cell))
  {
    if reading.None? then
      if cell == jail then 1.0 else 0.0
    else if cell == jail then
      if reading.None? then 1.0 else 0.0
    else
      sensor.noise(reading.value, sensor.distance(pacman, cell))
  }

  /** With a proper noise curve every observation probability is in [0, 1]. */
  lemma ObservationBounded(reading: Option<int>, pacman: Pos, cell: Pos, jail: Pos, sensor: Sensor)
    requires ProbabilityCurve(sensor)
    ensures 0.0 <= ObservationProb(reading, pacman, cell, jail, sensor) <= 1.0
  {
    if reading.Some? && cell != jail {
      NoiseBounded(sensor, reading.value, sensor.distance(pacman, cell));
    }
  }

  lemma NoiseBounded(sensor: Sensor, n: int, d: int)
    requires ProbabilityCurve(sensor)
    ensures 0.0 <= sensor.noise(n, d) <= 1.0
  {
  }

  // ---------------------------------------------------------------------
  // The transition model.

  /** What the helper needs from the game: Pacman's cell, the cells Pacman
      can move to next (`getLegalNeighbors`) and where an action takes a
      ghost (`getSuccessor`). */
  datatype Board<!A> = Board(pacman: Pos, neighbors: seq<Pos>, successor: (Pos, A) -> Pos)

  /** Which module asks for the distribution: the single-ghost module of
      agent `agentIndex` placing its ghost at `pos`, or the joint filter
      placing all ghosts at `positions` and asking about ghost `ghostIndex`
      (the `try`/`except TypeError` in the helper). */
  datatype Placement =
    | Single(agentIndex: int, pos: Pos)
    | Joint(ghostIndex: nat, positions: seq<Pos>)
  {
    predicate Valid() {
      Joint? ==> ghostIndex < |positions|
    }

    /** The ghost whose next cell is wanted. */
    function Ghost(): Pos
      requires Valid()
    {
      if Single? then pos else positions[ghostIndex]
    }

    /** The jail both variants pick for the same ghost agent. */
    function JailCell(): (j: Pos)
      ensures Single? ==> j == Jail(agentIndex)
      ensures Joint? ==> j == Jail(ghostIndex + 1)
    {
      if Single? then Jail(agentIndex) else JointJail(ghostIndex)
    }
  }

  /** The share of capture when the ghost stands next to Pacman: one over the
      number of Pacman's moves. */
  function Mult<A>(board: Board<A>, cell: Pos): (m: real)
    ensures cell !in board.neighbors ==> m == 0.0
    ensures cell in board.neighbors ==> 0.0 < m <= 1.0
    ensures cell in board.neighbors ==> m * (|board.neighbors| as real) == 1.0
  {
    if cell in board.neighbors then 1.0 / (|board.neighbors| as real) else 0.0
  }

  /** The table before the action loop: the capture share on the jail when
      the ghost stands next to Pacman, nothing otherwise. */
  function Initial<A>(board: Board<A>, cell: Pos, jail: Pos): (t: Table<Pos>)
    ensures WellFormed(t)
    ensures Total(t) == Mult(board, cell)
    ensures forall q :: q != jail ==> Lookup(t, q) == 0.0
  {
    if cell in board.neighbors then Assign(Empty(), jail, Mult(board, cell)) else Empty()
  }

  /** One pass of the action loop: an action whose successor Pacman can reach
      sends `1/denom` of its share to the jail and writes the rest on the
      successor; otherwise the whole share is written on the successor.
      Writes are assignments, so a successor seen before is overwritten. */
  function ActionStep(t: Table<Pos>, neighbors: seq<Pos>, jail: Pos, denom: nat, mult: real, succ: Pos, prob: real): (r: Table<Pos>)
    requires WellFormed(t) && denom > 0
    ensures WellFormed(r)
    ensures Lookup(r, succ) == WrittenShare(neighbors, denom, mult, succ, prob)
    ensures succ != jail ==> Lookup(r, jail) == Lookup(t, jail) + JailShare(neighbors, denom, mult, succ, prob)
    ensures forall q :: q != succ && q != jail ==> Lookup(r, q) == Lookup(t, q)
  {
    if succ in neighbors then
      Assign(Add(t, jail, CaughtShare(prob, denom, mult)), succ, EscapedShare(prob, denom, mult))
    else
      Assign(t, succ, FreeShare(prob, mult))
  }

  /** What an action writes on its successor cell. */
  function WrittenShare(neighbors: seq<Pos>, denom: nat, mult: real, succ: Pos, prob: real): real
    requires denom > 0
  {
    if succ in neighbors then EscapedShare(prob, denom, mult) else FreeShare(prob, mult)
  }

  /** What an action adds to the jail: its capture part when Pacman can
      reach the successor, nothing otherwise. */
  function JailShare(neighbors: seq<Pos>, denom: nat, mult: real, succ: Pos, prob: real): real
    requires denom > 0
  {
    if succ in neighbors then CaughtShare(prob, denom, mult) else 0.0
  }

  /** An action's whole share once the capture share is taken out. */
  function FreeShare(prob: real, mult: real): real {
    prob * (1.0 - mult)
  }

  /** The part of an action's share that goes to the jail when Pacman can
      reach the successor: `prob * (1 / denom) * (1 - mult)`. */
  function CaughtShare(prob: real, denom: nat, mult: real): real
    requires denom > 0
  {
    prob * (1.0 / denom as real) * (1.0 - mult)
  }

  /** The part that stays on the successor: `prob * ((denom - 1) / denom) * (1 - mult)`. */
  function EscapedShare(prob: real, denom: nat, mult: real): real
    requires denom > 0
  {
    prob * ((denom as real - 1.0) / denom as real) * (1.0 - mult)
  }

  /** The action loop run over `acts`, all of them taken from a distribution
      with `denom` actions. */
  function ActionsFold<A>(t: Table<Pos>, board: Board<A>, cell: Pos, jail: Pos, acts: seq<(A, real)>, denom: nat, mult: real): (r: Table<Pos>)
    requires WellFormed(t) && |acts| <= denom
    ensures WellFormed(r)
  {
    if |acts| == 0 then t
    else
      var (a, prob) := acts[|acts| - 1];
      ActionStep(ActionsFold(t, board, cell, jail, acts[..|acts| - 1], denom, mult), board.neighbors, jail, denom, mult, board.successor(cell, a), prob)
  }

  /** `getPositionDistributionHelper`: the distribution of the ghost's next
      cell. A ghost on Pacman's cell is caught and goes to the jail for
      sure. */
  function TransitionTable<A>(board: Board<A>, cell: Pos, jail: Pos, actions: seq<(A, real)>): (r: Table<Pos>)
    ensures WellFormed(r)
    ensures board.pacman == cell ==> r.keys == [jail] && Lookup(r, jail) == 1.0 && Total(r) == 1.0
  {
    if board.pacman == cell then
      Assign(Empty(), jail, 1.0)
    else
      ActionsFold(Initial(board, cell, jail), board, cell, jail, actions, |actions|, Mult(board, cell))
  }

  /** The successors of the listed actions, in order. */
  function Successors<A>(board: Board<A>, cell: Pos, acts: seq<(A, real)>): (r: seq<Pos>)
    ensures |r| == |acts|
    ensures forall i :: 0 <= i < |acts| ==> r[i] == board.successor(cell, acts[i].0)
  {
    if |acts| == 0 then [] else Successors(board, cell, acts[..|acts| - 1]) + [board.successor(cell, acts[|acts| - 1].0)]
  }

  /** Every action probability is non-negative. */
  ghost predicate NonNegativeActions<A>(actions: seq<(A, real)>) {
    forall i :: 0 <= i < |actions| ==> actions[i].1 >= 0.0
  }

  /** With a non-negative probability and a capture share in [0, 1], every
      part of an action's share is non-negative. */
  lemma ShareSigns(prob: real, denom: nat, mult: real)
    requires prob >= 0.0 && denom > 0 && 0.0 <= mult <= 1.0
    ensures FreeShare(prob, mult) >= 0.0
    ensures CaughtShare(prob, denom, mult) >= 0.0
    ensures EscapedShare(prob, denom, mult) >= 0.0
  {
    var d := denom as real;
    assert 1.0 / d > 0.0;
    assert (d - 1.0) / d >= 0.0;
    assert prob * (1.0 / d) >= 0.0;
    assert prob * ((d - 1.0) / d) >= 0.0;
  }

  /** The action loop keeps every weight non-negative. */
  lemma {:induction false} FoldNonNegative<A>(t: Table<Pos>, board: Board<A>, cell: Pos, jail: Pos, acts: seq<(A, real)>, denom: nat, mult: real)
    requires WellFormed(t) && NonNegative(t) && |acts| <= denom
    requires 0.0 <= mult <= 1.0 && NonNegativeActions(acts)
    ensures NonNegative(ActionsFold(t, board, cell, jail, acts, denom, mult))
  {
    var n := |acts|;
    if n > 0 {
      var init := acts[..n - 1];
      var before := ActionsFold(t, board, cell, jail, init, denom, mult);
      assert NonNegative(before) by {
        assert NonNegativeActions(init) by {
          forall i | 0 <= i < |init| ensures init[i].1 >= 0.0 {
            assert init[i] == acts[i];
          }
        }
        FoldNonNegative(t, board, cell, jail, init, denom, mult);
      }
      var succ := board.successor(cell, acts[n - 1].0);
      var prob := acts[n - 1].1;
      assert prob >= 0.0;
      assert ActionsFold(t, board, cell, jail, acts, denom, mult) == ActionStep(before, board.neighbors, jail, denom, mult, succ, prob);
      StepNonNegative(before, board.neighbors, jail, denom, mult, succ, prob);
    }
  }

  /** One pass of the action loop keeps every weight non-negative. */
  lemma StepNonNegative(t: Table<Pos>, neighbors: seq<Pos>, jail: Pos, denom: nat, mult: real, succ: Pos, prob: real)
    requires WellFormed(t) && NonNegative(t) && denom > 0
    requires prob >= 0.0 && 0.0 <= mult <= 1.0
    ensures NonNegative(ActionStep(t, neighbors, jail, denom, mult, succ, prob))
  {
    ShareSigns(prob, denom, mult);
    if succ in neighbors {
      AddNonNegative(t, jail, CaughtShare(prob, denom, mult));
      AssignNonNegative(Add(t, jail, CaughtShare(prob, denom, mult)), succ, EscapedShare(prob, denom, mult));
    } else {
      AssignNonNegative(t, succ, FreeShare(prob, mult));
    }
  }

  /** With non-negative action probabilities the helper's table holds no
      negative weight. */
  lemma TransitionNonNegative<A>(board: Board<A>, cell: Pos, jail: Pos, actions: seq<(A, real)>)
    requires NonNegativeActions(actions)
    ensures NonNegative(TransitionTable(board, cell, jail, actions))
  {
    if board.pacman != cell {
      var start := Initial(board, cell, jail);
      assert NonNegative(start);
      FoldNonNegative(start, board, cell, jail, actions, |actions|, Mult(board, cell));
    }
  }

  /** The probabilities of the listed actions added up. */
  function ProbSum<A>(acts: seq<(A, real)>): real {
    if |acts| == 0 then 0.0 else ProbSum(acts[..|acts| - 1]) + acts[|acts| - 1].1
  }

  /** Each action's share with the capture share taken out, added up. */
  function ShareSum<A>(acts: seq<(A, real)>, mult: real): real {
    if |acts| == 0 then 0.0 else ShareSum(acts[..|acts| - 1], mult) + FreeShare(acts[|acts| - 1].1, mult)
  }

  lemma {:induction false} ShareSumFactor<A>(acts: seq<(A, real)>, mult: real)
    ensures ShareSum(acts, mult) == FreeShare(ProbSum(acts), mult)
  {
    if |acts| > 0 {
      ShareSumFactor(acts[..|acts| - 1], mult);
    }
  }

  /** The jail part and the successor part of a reachable action add up to
      the action's whole share. */
  lemma SplitShare(prob: real, denom: nat, mult: real)
    requires denom > 0
    ensures CaughtShare(prob, denom, mult) + EscapedShare(prob, denom, mult) == prob * (1.0 - mult)
  {
    var d := denom as real;
    assert (1.0 / d) + (d - 1.0) / d == 1.0;
  }

  /** The loop never touches a cell that is neither the jail nor a successor. */
  lemma {:induction false} FoldUntouched<A>(t: Table<Pos>, board: Board<A>, cell: Pos, jail: Pos, acts: seq<(A, real)>, denom: nat, mult: real, q: Pos)
    requires WellFormed(t) && |acts| <= denom
    requires q != jail && q !in Successors(board, cell, acts)
    ensures Lookup(ActionsFold(t, board, cell, jail, acts, denom, mult), q) == Lookup(t, q)
  {
    if |acts| > 0 {
      var init := acts[..|acts| - 1];
      assert Successors(board, cell, acts) == Successors(board, cell, init) + [board.successor(cell, acts[|acts| - 1].0)];
      FoldUntouched(t, board, cell, jail, init, denom, mult, q);
    }
  }

  /** With distinct successors, none of them the jail, every action adds its
      whole share to the total. */
  lemma {:induction false} FoldTotal<A>(t: Table<Pos>, board: Board<A>, cell: Pos, jail: Pos, acts: seq<(A, real)>, denom: nat, mult: real)
    requires WellFormed(t) && |acts| <= denom
    requires Distinct(Successors(board, cell, acts)) && jail !in Successors(board, cell, acts)
    requires forall q :: q != jail ==> Lookup(t, q) == 0.0
    ensures Total(ActionsFold(t, board, cell, jail, acts, denom, mult)) == Total(t) + ShareSum(acts, mult)
  {
    if |acts| > 0 {
      var init := acts[..|acts| - 1];
      var (a, prob) := acts[|acts| - 1];
      var succ := board.successor(cell, a);
      var ss := Successors(board, cell, acts);
      assert ss == Successors(board, cell, init) + [succ];
      assert Distinct(Successors(board, cell, init)) by {
        forall i, j | 0 <= i < j < |init| ensures Successors(board, cell, init)[i] != Successors(board, cell, init)[j] {
          assert ss[i] != ss[j];
        }
      }
      assert succ !in Successors(board, cell, init) by {
        forall i | 0 <= i < |init| ensures Successors(board, cell, init)[i] != succ {
          assert ss[i] != ss[|acts| - 1];
        }
      }
      assert succ != jail by {
        assert ss[|acts| - 1] == succ;
      }
      FoldTotal(t, board, cell, jail, init, denom, mult);
      var before := ActionsFold(t, board, cell, jail, init, denom, mult);
      FoldUntouched(t, board, cell, jail, init, denom, mult, succ);
      assert Lookup(before, succ) == 0.0;
      if succ in board.neighbors {
        var mid := Add(before, jail, CaughtShare(prob, denom, mult));
        assert Lookup(mid, succ) == 0.0;
        SplitShare(prob, denom, mult);
      }
    }
  }

  /** When the ghost is free, its successors are distinct and none is the
      jail, the transition distribution has total mult + (1 - mult) * (sum
      of the action probabilities), which is 1 when those sum to 1. */
  lemma TransitionTotal<A>(board: Board<A>, cell: Pos, jail: Pos, actions: seq<(A, real)>)
    requires board.pacman != cell
    requires Distinct(Successors(board, cell, actions)) && jail !in Successors(board, cell, actions)
    ensures Total(TransitionTable(board, cell, jail, actions)) == Mult(board, cell) + FreeShare(ProbSum(actions), Mult(board, cell))
    ensures ProbSum(actions) == 1.0 ==> Total(TransitionTable(board, cell, jail, actions)) == 1.0
  {
    var m := Mult(board, cell);
    ShareSumFactor(actions, m);
    if |actions| > 0 {
      FoldTotal(Initial(board, cell, jail), board, cell, jail, actions, |actions|, m);
    }
    assert FreeShare(1.0, m) == 1.0 - m;
  }

  /** Two actions leading to the same free cell do not accumulate: the cell
      keeps only the later action's share. */
  lemma OverwriteKeepsLast<A>(board: Board<A>, cell: Pos, jail: Pos, a: A, b: A, p: real, q: real)
    requires board.pacman != cell && cell !in board.neighbors
    requires board.successor(cell, a) == board.successor(cell, b)
    requires board.successor(cell, a) !in board.neighbors
    ensures Lookup(TransitionTable(board, cell, jail, [(a, p), (b, q)]), board.successor(cell, a)) == q
  {
    var acts := [(a, p), (b, q)];
    assert acts[..1] == [(a, p)];
    assert acts[..1][..0] == [];
  }

  /** The jail parts of the actions from index `from` on, added up. */
  function JailSum<A>(board: Board<A>, cell: Pos, acts: seq<(A, real)>, from: nat, denom: nat, mult: real): real
    requires |acts| <= denom
  {
    if |acts| <= from then 0.0
    else
      var (a, prob) := acts[|acts| - 1];
      JailSum(board, cell, acts[..|acts| - 1], from, denom, mult) + JailShare(board.neighbors, denom, mult, board.successor(cell, a), prob)
  }

  /** Action `i` is the last of `acts` whose successor is `q`. */
  predicate LastTo<A>(board: Board<A>, cell: Pos, acts: seq<(A, real)>, i: nat, q: Pos) {
    && i < |acts|
    && board.successor(cell, acts[i].0) == q
    && forall j :: i < j < |acts| ==> board.successor(cell, acts[j].0) != q
  }

  /** Without a successor on the jail, the jail gains the jail part of
      every action, each exactly once. */
  lemma {:induction false} FoldJail<A>(t: Table<Pos>, board: Board<A>, cell: Pos, jail: Pos, acts: seq<(A, real)>, denom: nat, mult: real)
    requires WellFormed(t) && |acts| <= denom
    requires jail !in Successors(board, cell, acts)
    ensures Lookup(ActionsFold(t, board, cell, jail, acts, denom, mult), jail) == Lookup(t, jail) + JailSum(board, cell, acts, 0, denom, mult)
  {
    if |acts| > 0 {
      var init := acts[..|acts| - 1];
      assert Successors(board, cell, acts) == Successors(board, cell, init) + [board.successor(cell, acts[|acts| - 1].0)];
      FoldJail(t, board, cell, jail, init, denom, mult);
    }
  }

  /** When an action leads onto the jail, the last such action overwrites
      everything the jail held (the capture share and earlier capture parts
      included); only the capture parts of the actions after it are added on
      top. */
  lemma FoldJailOverwritten<A>(t: Table<Pos>, board: Board<A>, cell: Pos, jail: Pos, acts: seq<(A, real)>, denom: nat, mult: real, i: nat)
    requires WellFormed(t) && |acts| <= denom
    requires LastTo(board, cell, acts, i, jail)
    ensures Lookup(ActionsFold(t, board, cell, jail, acts, denom, mult), jail)
      == WrittenShare(board.neighbors, denom, mult, jail, acts[i].1) + JailSum(board, cell, acts, i + 1, denom, mult)
  {
    var upto := acts[..i + 1];
    assert upto[|upto| - 1] == acts[i];
    StepOnJail(t, board, cell, jail, upto, denom, mult);
    FoldJailAfter(t, board, cell, jail, acts, denom, mult, i + 1);
  }

  /** When no action from index `k` on leads onto the jail, those actions
      add their jail parts to what the jail held after the first `k`. */
  lemma {:induction false} FoldJailAfter<A>(t: Table<Pos>, board: Board<A>, cell: Pos, jail: Pos, acts: seq<(A, real)>, denom: nat, mult: real, k: nat)
    requires WellFormed(t) && k <= |acts| <= denom
    requires forall j :: k <= j < |acts| ==> board.successor(cell, acts[j].0) != jail
    ensures Lookup(ActionsFold(t, board, cell, jail, acts, denom, mult), jail)
      == Lookup(ActionsFold(t, board, cell, jail, acts[..k], denom, mult), jail) + JailSum(board, cell, acts, k, denom, mult)
  {
    if |acts| == k {
      assert acts[..k] == acts;
    } else {
      var init := acts[..|acts| - 1];
      assert init[..k] == acts[..k];
      assert forall j :: k <= j < |init| ==> init[j] == acts[j];
      FoldJailAfter(t, board, cell, jail, init, denom, mult, k);
      StepOnJail(t, board, cell, jail, acts, denom, mult);
      JailSumLast(board, cell, acts, k, denom, mult);
    }
  }

  /** The jail after the last action of the loop: overwritten when that
      action leads onto it, otherwise raised by the action's jail part. */
  lemma StepOnJail<A>(t: Table<Pos>, board: Board<A>, cell: Pos, jail: Pos, acts: seq<(A, real)>, denom: nat, mult: real)
    requires WellFormed(t) && 0 < |acts| <= denom
    ensures var succ := board.successor(cell, acts[|acts| - 1].0);
      succ == jail ==>
        Lookup(ActionsFold(t, board, cell, jail, acts, denom, mult), jail) == WrittenShare(board.neighbors, denom, mult, jail, acts[|acts| - 1].1)
    ensures var succ := board.successor(cell, acts[|acts| - 1].0);
      succ != jail ==>
        Lookup(ActionsFold(t, board, cell, jail, acts, denom, mult), jail)
        == Lookup(ActionsFold(t, board, cell, jail, acts[..|acts| - 1], denom, mult), jail) + JailShare(board.neighbors, denom, mult, succ, acts[|acts| - 1].1)
  {
    var before := ActionsFold(t, board, cell, jail, acts[..|acts| - 1], denom, mult);
    assert ActionsFold(t, board, cell, jail, acts, denom, mult)
      == ActionStep(before, board.neighbors, jail, denom, mult, board.successor(cell, acts[|acts| - 1].0), acts[|acts| - 1].1);
  }

  /** The jail parts from `from` on, with the last action split off. */
  lemma JailSumLast<A>(board: Board<A>, cell: Pos, acts: seq<(A, real)>, from: nat, denom: nat, mult: real)
    requires from < |acts| <= denom
    ensures JailSum(board, cell, acts, from, denom, mult)
      == JailSum(board, cell, acts[..|acts| - 1], from, denom, mult)
         + JailShare(board.neighbors, denom, mult, board.successor(cell, acts[|acts| - 1].0), acts[|acts| - 1].1)
  {
  }

  /** A successor other than the jail ends with exactly what the last action
      leading to it wrote: earlier writes are overwritten, not added up. */
  lemma {:induction false} FoldLastWrite<A>(t: Table<Pos>, board: Board<A>, cell: Pos, jail: Pos, acts: seq<(A, real)>, denom: nat, mult: real, i: nat, q: Pos)
    requires WellFormed(t) && |acts| <= denom
    requires LastTo(board, cell, acts, i, q) && q != jail
    ensures Lookup(ActionsFold(t, board, cell, jail, acts, denom, mult), q) == WrittenShare(board.neighbors, denom, mult, q, acts[i].1)
  {
    var n := |acts|;
    var init := acts[..n - 1];
    var before := ActionsFold(t, board, cell, jail, init, denom, mult);
    var succ := board.successor(cell, acts[n - 1].0);
    assert ActionsFold(t, board, cell, jail, acts, denom, mult) == ActionStep(before, board.neighbors, jail, denom, mult, succ, acts[n - 1].1);
    if i < n - 1 {
      assert init[i] == acts[i];
      assert LastTo(board, cell, init, i, q) by {
        forall j | i < j < |init| ensures board.successor(cell, init[j].0) != q {
          assert init[j] == acts[j];
        }
      }
      FoldLastWrite(t, board, cell, jail, init, denom, mult, i, q);
      assert succ != q;
    }
  }

  /** The helper's table for a free ghost, cell by cell. When no action
      leads onto the jail, the jail holds the capture share plus the jail
      part of every action; when some do, it holds what the last of them
      wrote plus the jail parts of the actions after it. A successor other
      than the jail holds what the last action leading to it wrote; every
      other cell holds nothing. */
  lemma TransitionWeights<A>(board: Board<A>, cell: Pos, jail: Pos, actions: seq<(A, real)>, q: Pos)
    requires board.pacman != cell
    ensures var r := TransitionTable(board, cell, jail, actions);
      jail !in Successors(board, cell, actions) ==>
        Lookup(r, jail) == Mult(board, cell) + JailSum(board, cell, actions, 0, |actions|, Mult(board, cell))
    ensures var r := TransitionTable(board, cell, jail, actions);
      forall i: nat :: LastTo(board, cell, actions, i, jail) ==>
        Lookup(r, jail) == WrittenShare(board.neighbors, |actions|, Mult(board, cell), jail, actions[i].1)
          + JailSum(board, cell, actions, i + 1, |actions|, Mult(board, cell))
    ensures var r := TransitionTable(board, cell, jail, actions);
      q != jail && q !in Successors(board, cell, actions) ==> Lookup(r, q) == 0.0
    ensures var r := TransitionTable(board, cell, jail, actions);
      forall i: nat :: LastTo(board, cell, actions, i, q) && q != jail ==>
        Lookup(r, q) == WrittenShare(board.neighbors, |actions|, Mult(board, cell), q, actions[i].1)
  {
    var m := Mult(board, cell);
    var start := Initial(board, cell, jail);
    assert Lookup(start, jail) == m;
    if jail !in Successors(board, cell, actions) {
      FoldJail(start, board, cell, jail, actions, |actions|, m);
    }
    forall i: nat | LastTo(board, cell, actions, i, jail)
      ensures Lookup(TransitionTable(board, cell, jail, actions), jail)
        == WrittenShare(board.neighbors, |actions|, m, jail, actions[i].1) + JailSum(board, cell, actions, i + 1, |actions|, m)
    {
      FoldJailOverwritten(start, board, cell, jail, actions, |actions|, m, i);
    }
    if q != jail && q !in Successors(board, cell, actions) {
      FoldUntouched(start, board, cell, jail, actions, |actions|, m, q);
    }
    forall i: nat | LastTo(board, cell, actions, i, q) && q != jail
      ensures Lookup(TransitionTable(board, cell, jail, actions), q) == WrittenShare(board.neighbors, |actions|, m, q, actions[i].1)
    {
      FoldLastWrite(start, board, cell, jail, actions, |actions|, m, i, q);
    }
  }

  /** `getPositionDistribution`, with the placement deciding the ghost cell
      and the jail: fills a fresh distribution exactly as the helper's loop
      does. */
  method PositionDistribution<A>(board: Board<A>, placement: Placement, actions: seq<(A, real)>) returns (dist: DiscreteDistribution<Pos>)
    requires placement.Valid()
    ensures fresh(dist) && dist.Valid()
    ensures dist.Contents() == TransitionTable(board, placement.Ghost(), placement.JailCell(), actions)
  {
    var jail := placement.JailCell();
    var cell := placement.Ghost();
    dist := new DiscreteDistribution();
    if board.pacman == cell {
      dist.Set(jail, 1.0);
      return;
    }
    var mult := 0.0;
    if cell in board.neighbors {
      mult := 1.0 / (|board.neighbors| as real);
      dist.Set(jail, mult);
    }
    ghost var start := dist.Contents();
    assert start == Initial(board, cell, jail);
    for i := 0 to |actions|
      invariant dist.Valid()
      invariant dist.Contents() == ActionsFold(start, board, cell, jail, actions[..i], |actions|, mult)
    {
      var (action, prob) := actions[i];
      assert actions[..i + 1][..i] == actions[..i];
      ghost var before := dist.Contents();
      var succ := board.successor(cell, action);
      if succ in board.neighbors {
        dist.Increment(jail, CaughtShare(prob, |actions|, mult));
        ghost var mid := dist.Contents();
        assert mid == Add(before, jail, CaughtShare(prob, |actions|, mult));
        dist.Set(succ, EscapedShare(prob, |actions|, mult));
        assert dist.Contents() == Assign(mid, succ, EscapedShare(prob, |actions|, mult));
      } else {
        dist.Set(succ, FreeShare(prob, mult));
        assert dist.Contents() == Assign(before, succ, FreeShare(prob, mult));
      }
      assert dist.Contents() == ActionStep(before, board.neighbors, jail, |actions|, mult, succ, prob);
    }
    assert actions[..|actions|] == actions;
  }
}
