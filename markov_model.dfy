/** The discrete-time Markov trajectory simulator of `src/markov_model.py`.

    States are indices `0 .. n_states - 1`; the last index is Death, the absorbing state.
    The numpy random source is modelled as an injected `Generator`: a sampler that maps the
    number of the draw and the probability row to the drawn state, together with the number of
    draws made so far. Every property below holds for ANY sampler that only returns states of
    positive probability, and `InverseCdfSamplerSound` shows that inverse-CDF sampling on a
    row-stochastic matrix is such a sampler. */
module MarkovModel {
  import opened Collections

  /** A transition matrix over exact reals: row `i` is the distribution of the next state. */
  type Matrix = seq<seq<real>>

  /** One call of `np.random.choice(n_states, p=row)`: draw number and row to drawn state. */
  type Sampler = (nat, seq<real>) -> nat

  /** The shared random source: how it samples, and how many draws it has made so far. */
  datatype Generator = Generator(sample: Sampler, drawn: nat)

  /** `m` is an `n` by `n` matrix. */
  ghost predicate Square(m: Matrix, n: nat)
  {
    |m| == n && forall i :: 0 <= i < n ==> |m[i]| == n
  }

  /** The sampler only ever draws a state of the matrix that has positive probability in the row
      it is given. */
  ghost predicate SoundSampler(sample: Sampler, m: Matrix)
    requires Square(m, |m|)
  {
    forall k: nat, s: nat :: s < |m| ==> sample(k, m[s]) < |m| && m[s][sample(k, m[s])] > 0.0
  }

  // ---------------------------------------------------------------------------------------
  // Specification of one patient's trajectory

  /** The states drawn after `current`, when at most `steps` draws remain and the next draw is
      number `drawn`; drawing Death (the last index) ends the path. */
  ghost function Path(m: Matrix, sample: Sampler, drawn: nat, current: nat, steps: nat): seq<nat>
    requires Square(m, |m|) && SoundSampler(sample, m) && current < |m|
    decreases steps
  {
    if steps == 0 then []
    else
      var next := sample(drawn, m[current]);
      if next == |m| - 1 then [next]
      else [next] + Path(m, sample, drawn + 1, next, steps - 1)
  }

  /** The trajectory of a patient who starts in `start`: the start state, then the drawn states. */
  ghost function Trajectory(m: Matrix, sample: Sampler, drawn: nat, start: nat, steps: nat): seq<nat>
    requires Square(m, |m|) && SoundSampler(sample, m) && start < |m|
  {
    [start] + Path(m, sample, drawn, start, steps)
  }

  /** What every trajectory of the simulator satisfies, whatever the probabilities. */
  ghost predicate IsTrajectory(m: Matrix, start: nat, steps: nat, t: seq<nat>)
    requires Square(m, |m|)
  {
    var death := |m| - 1;
    && 1 <= |t| <= steps + 1
    && t[0] == start
    && (|t| == 1 <==> steps == 0)
    && (forall i :: 1 <= i < |t| - 1 ==> t[i] != death)
    && (|t| < steps + 1 ==> t[|t| - 1] == death)
    && ((forall i :: 1 <= i < |t| ==> t[i] != death) ==> |t| == steps + 1)
    && (forall i :: 0 <= i < |t| ==> t[i] < |m|)
    && (forall i :: 0 <= i < |t| - 1 ==> m[t[i]][t[i + 1]] > 0.0)
  }

  /** At most `steps` states are drawn, and at least one whenever a step is allowed. */
  lemma {:induction false} PathLength(m: Matrix, sample: Sampler, drawn: nat, current: nat, steps: nat)
    requires Square(m, |m|) && SoundSampler(sample, m) && current < |m|
    ensures |Path(m, sample, drawn, current, steps)| <= steps
    ensures |Path(m, sample, drawn, current, steps)| == 0 <==> steps == 0
    decreases steps
  {
    if steps > 0 {
      var next := sample(drawn, m[current]);
      if next != |m| - 1 {
        PathLength(m, sample, drawn + 1, next, steps - 1);
      }
    }
  }

  /** Death can only be the last drawn state, and a path that ends before the horizon ends in
      Death. */
  lemma {:induction false} PathStopsAtDeath(m: Matrix, sample: Sampler, drawn: nat, current: nat, steps: nat)
    requires Square(m, |m|) && SoundSampler(sample, m) && current < |m|
    ensures var p := Path(m, sample, drawn, current, steps);
      forall i :: 0 <= i < |p| - 1 ==> p[i] != |m| - 1
    ensures var p := Path(m, sample, drawn, current, steps);
      |p| < steps ==> |p| > 0 && p[|p| - 1] == |m| - 1
    decreases steps
  {
    if steps > 0 {
      var next := sample(drawn, m[current]);
      if next != |m| - 1 {
        PathStopsAtDeath(m, sample, drawn + 1, next, steps - 1);
        PathLength(m, sample, drawn + 1, next, steps - 1);
      }
    }
  }

  /** Every drawn state is a state of the matrix, and every step of the path, starting from
      `current`, has positive transition probability. */
  lemma {:induction false} PathFollowsMatrix(m: Matrix, sample: Sampler, drawn: nat, current: nat, steps: nat)
    requires Square(m, |m|) && SoundSampler(sample, m) && current < |m|
    ensures var p := Path(m, sample, drawn, current, steps);
      forall i :: 0 <= i < |p| ==> p[i] < |m|
    ensures var p := Path(m, sample, drawn, current, steps);
      |p| > 0 ==> m[current][p[0]] > 0.0
    ensures var p := Path(m, sample, drawn, current, steps);
      forall i :: 0 <= i < |p| - 1 ==> m[p[i]][p[i + 1]] > 0.0
    decreases steps
  {
    if steps > 0 {
      var next := sample(drawn, m[current]);
      if next != |m| - 1 {
        PathFollowsMatrix(m, sample, drawn + 1, next, steps - 1);
      }
    }
  }

  /** Every trajectory of the specification has the shape the simulator promises. */
  lemma TrajectoryWellFormed(m: Matrix, sample: Sampler, drawn: nat, start: nat, steps: nat)
    requires Square(m, |m|) && SoundSampler(sample, m) && start < |m|
    ensures IsTrajectory(m, start, steps, Trajectory(m, sample, drawn, start, steps))
  {
    var p := Path(m, sample, drawn, start, steps);
    var t := [start] + p;
    var death := |m| - 1;
    PathLength(m, sample, drawn, start, steps);
    PathStopsAtDeath(m, sample, drawn, start, steps);
    PathFollowsMatrix(m, sample, drawn, start, steps);
    assert forall i :: 1 <= i < |t| ==> t[i] == p[i - 1];
    assert forall i :: 1 <= i < |t| - 1 ==> t[i] != death;
    assert |t| < steps + 1 ==> t[|t| - 1] == death;
    assert forall i :: 0 <= i < |t| ==> t[i] < |m|;
    forall i | 0 <= i < |t| - 1 ensures m[t[i]][t[i + 1]] > 0.0 {
      if i > 0 {
        assert t[i] == p[i - 1] && t[i + 1] == p[i];
      }
    }
  }

  /** A patient who starts in Death, under an absorbing last row and with at least one step
      allowed, draws Death once and stops. */
  lemma StartInDeath(m: Matrix, sample: Sampler, drawn: nat, steps: nat)
    requires Square(m, |m|) && |m| > 0 && AbsorbingLast(m) && SoundSampler(sample, m)
    requires steps >= 1
    ensures Trajectory(m, sample, drawn, |m| - 1, steps) == [|m| - 1, |m| - 1]
  {
    var next := sample(drawn, m[|m| - 1]);
    assert m[|m| - 1][next] > 0.0;
  }

  /** A state other than Death whose only possible successor is itself is never left: the path
      repeats it for the full horizon. */
  lemma {:induction false} SelfLoopRunsFullHorizon(m: Matrix, sample: Sampler, drawn: nat, s: nat, steps: nat)
    requires Square(m, |m|) && SoundSampler(sample, m) && s < |m| - 1
    requires forall j :: 0 <= j < |m| && j != s ==> m[s][j] == 0.0
    ensures Path(m, sample, drawn, s, steps) == seq(steps, _ => s)
    decreases steps
  {
    if steps > 0 {
      var next := sample(drawn, m[s]);
      assert m[s][next] > 0.0;
      SelfLoopRunsFullHorizon(m, sample, drawn + 1, s, steps - 1);
      assert [s] + seq(steps - 1, _ => s) == seq(steps, _ => s);
    }
  }

  /** The identity matrix over two states keeps a patient who starts in state 0 there for all
      ten steps: eleven zeros. */
  lemma IdentityScenario(sample: Sampler, drawn: nat)
    requires Square([[1.0, 0.0], [0.0, 1.0]], 2) && SoundSampler(sample, [[1.0, 0.0], [0.0, 1.0]])
    ensures Trajectory([[1.0, 0.0], [0.0, 1.0]], sample, drawn, 0, 10) == seq(11, _ => 0)
  {
    var m: Matrix := [[1.0, 0.0], [0.0, 1.0]];
    SelfLoopRunsFullHorizon(m, sample, drawn, 0, 10);
    assert [0] + seq(10, _ => 0) == seq(11, _ => 0);
  }

  /** The oscillating matrix over two states: state 1 is the last index, so it is Death, and a
      patient who starts in state 0 is absorbed by the first draw, whatever horizon of at least
      one step is allowed. */
  lemma OscillatingScenario(sample: Sampler, drawn: nat, steps: nat)
    requires Square([[0.0, 1.0], [1.0, 0.0]], 2) && SoundSampler(sample, [[0.0, 1.0], [1.0, 0.0]])
    requires steps >= 1
    ensures Trajectory([[0.0, 1.0], [1.0, 0.0]], sample, drawn, 0, steps) == [0, 1]
  {
    var m: Matrix := [[0.0, 1.0], [1.0, 0.0]];
    assert m[0][sample(drawn, m[0])] > 0.0;
  }

  // ---------------------------------------------------------------------------------------
  // Specification of a cohort and of its final-state tally

  /** The number of the draw with which patient `p` of a cohort begins: each patient continues
      the shared random source where the previous one left it. */
  ghost function PatientDraw(m: Matrix, sample: Sampler, drawn: nat, start: nat, steps: nat, p: nat): nat
    requires Square(m, |m|) && SoundSampler(sample, m) && start < |m|
  {
    if p == 0 then drawn
    else
      var d := PatientDraw(m, sample, drawn, start, steps, p - 1);
      d + |Trajectory(m, sample, d, start, steps)| - 1
  }

  /** `count` patients simulated one after another from `start`. */
  ghost function Cohort(m: Matrix, sample: Sampler, drawn: nat, start: nat, steps: nat, count: nat): seq<seq<nat>>
    requires Square(m, |m|) && SoundSampler(sample, m) && start < |m|
  {
    if count == 0 then []
    else
      Cohort(m, sample, drawn, start, steps, count - 1)
      + [Trajectory(m, sample, PatientDraw(m, sample, drawn, start, steps, count - 1), start, steps)]
  }

  /** Patient `p` of a cohort is the trajectory that starts at the draw where patient `p` begins. */
  lemma {:induction false} CohortAt(m: Matrix, sample: Sampler, drawn: nat, start: nat, steps: nat, count: nat)
    requires Square(m, |m|) && SoundSampler(sample, m) && start < |m|
    ensures var c := Cohort(m, sample, drawn, start, steps, count);
      && |c| == count
      && forall p :: 0 <= p < count ==>
        c[p] == Trajectory(m, sample, PatientDraw(m, sample, drawn, start, steps, p), start, steps)
  {
    if count > 0 {
      CohortAt(m, sample, drawn, start, steps, count - 1);
    }
  }

  /** Every member of a cohort is a trajectory of the shape the simulator promises. */
  lemma CohortWellFormed(m: Matrix, sample: Sampler, drawn: nat, start: nat, steps: nat, count: nat)
    requires Square(m, |m|) && SoundSampler(sample, m) && start < |m|
    ensures var c := Cohort(m, sample, drawn, start, steps, count);
      |c| == count && forall p :: 0 <= p < count ==> IsTrajectory(m, start, steps, c[p])
  {
    var c := Cohort(m, sample, drawn, start, steps, count);
    CohortAt(m, sample, drawn, start, steps, count);
    forall p | 0 <= p < count ensures IsTrajectory(m, start, steps, c[p]) {
      TrajectoryWellFormed(m, sample, PatientDraw(m, sample, drawn, start, steps, p), start, steps);
    }
  }

  /** The tally of a cohort's final states has one entry per state, entry `i` counts the
      trajectories that end in state `i`, and the entries add up to the number of patients. */
  lemma CohortTally(m: Matrix, sample: Sampler, drawn: nat, start: nat, steps: nat, count: nat)
    requires Square(m, |m|) && SoundSampler(sample, m) && start < |m|
    ensures var c := Cohort(m, sample, drawn, start, steps, count);
      && (forall p :: 0 <= p < |c| ==> |c[p]| > 0)
      && var counts := Tally(FinalStates(c), |m|);
      && |counts| == |m|
      && (forall i :: 0 <= i < |m| ==> counts[i] == multiset(FinalStates(c))[i])
      && Sum(counts) == count
  {
    var c := Cohort(m, sample, drawn, start, steps, count);
    CohortWellFormed(m, sample, drawn, start, steps, count);
    var finals := FinalStates(c);
    assert forall p :: 0 <= p < count ==> finals[p] == c[p][|c[p]| - 1] && finals[p] < |m|;
    TallyIsMultiplicity(finals, |m|);
    TallySum(finals, |m|);
  }

  /** Patients share the random source, so no draw is used twice: every patient begins at or
      after the draw where the previous one began, and at most `steps` draws later. */
  lemma {:induction false} PatientDrawsAdvance(m: Matrix, sample: Sampler, drawn: nat, start: nat, steps: nat, p: nat)
    requires Square(m, |m|) && SoundSampler(sample, m) && start < |m|
    ensures drawn <= PatientDraw(m, sample, drawn, start, steps, p) <= drawn + p * steps
    ensures p > 0 ==>
      PatientDraw(m, sample, drawn, start, steps, p - 1) <= PatientDraw(m, sample, drawn, start, steps, p)
        <= PatientDraw(m, sample, drawn, start, steps, p - 1) + steps
  {
    if p > 0 {
      var d := PatientDraw(m, sample, drawn, start, steps, p - 1);
      PatientDrawsAdvance(m, sample, drawn, start, steps, p - 1);
      PathLength(m, sample, d, start, steps);
      assert drawn + (p - 1) * steps + steps == drawn + p * steps;
    }
  }

  /** A cohort started in a non-Death state that can only lead to itself ends entirely in that
      state: its tally counts every patient there and none anywhere else. */
  lemma SelfLoopCohortTally(m: Matrix, sample: Sampler, drawn: nat, s: nat, steps: nat, count: nat)
    requires Square(m, |m|) && SoundSampler(sample, m) && s < |m| - 1
    requires forall j :: 0 <= j < |m| && j != s ==> m[s][j] == 0.0
    ensures var c := Cohort(m, sample, drawn, s, steps, count);
      && (forall p :: 0 <= p < |c| ==> |c[p]| > 0)
      && forall i :: 0 <= i < |m| ==> Tally(FinalStates(c), |m|)[i] == if i == s then count else 0
  {
    var c := Cohort(m, sample, drawn, s, steps, count);
    CohortAt(m, sample, drawn, s, steps, count);
    forall p | 0 <= p < count ensures |c[p]| > 0 && c[p][|c[p]| - 1] == s {
      var d := PatientDraw(m, sample, drawn, s, steps, p);
      SelfLoopRunsFullHorizon(m, sample, d, s, steps);
    }
    var finals := FinalStates(c);
    assert forall p :: 0 <= p < |finals| ==> finals[p] == s;
    forall i | 0 <= i < |m| ensures Count<nat>(finals, i) == if i == s then count else 0 {
      CountUniform(finals, s, i);
    }
  }

  /** The identity matrix over two states: a cohort of `n` patients started in state 0 (100 of
      them, say) ends with all `n` in state 0 and none in state 1, whatever the horizon. */
  lemma IdentityCohortScenario(m: Matrix, sample: Sampler, drawn: nat, steps: nat, n: nat)
    requires m == [[1.0, 0.0], [0.0, 1.0]] && SoundSampler(sample, m)
    ensures var c := Cohort(m, sample, drawn, 0, steps, n);
      && (forall p :: 0 <= p < |c| ==> |c[p]| > 0)
      && Tally(FinalStates(c), 2) == [n, 0]
  {
    SelfLoopCohortTally(m, sample, drawn, 0, steps, n);
    assert var c := Cohort(m, sample, drawn, 0, steps, n);
      (forall p :: 0 <= p < |c| ==> |c[p]| > 0);
    var t := Tally(FinalStates(Cohort(m, sample, drawn, 0, steps, n)), 2);
    assert t[0] == n && t[1] == 0;
  }

  /** In a sequence whose every entry is `s`, `s` is counted at every position and any other
      value not at all. */
  lemma {:induction false} CountUniform(finals: seq<nat>, s: nat, x: nat)
    requires forall p :: 0 <= p < |finals| ==> finals[p] == s
    ensures Count<nat>(finals, x) == if x == s then |finals| else 0
  {
    if finals != [] {
      CountUniform(finals[1..], s, x);
    }
  }

  /** The last state of each trajectory (`traj[-1]`). */
  function FinalStates(ts: seq<seq<nat>>): seq<nat>
    requires forall p :: 0 <= p < |ts| ==> |ts[p]| > 0
  {
    seq(|ts|, p requires 0 <= p < |ts| => ts[p][|ts[p]| - 1])
  }

  /** `[final_states.count(i) for i in range(n)]`. */
  function Tally(finals: seq<nat>, n: nat): seq<nat>
  {
    seq(n, i requires 0 <= i < n => Count<nat>(finals, i))
  }

  /** Number of entries of `finals` below `k`. */
  function CountBelow(finals: seq<nat>, k: nat): nat
  {
    if finals == [] then 0 else (if finals[0] < k then 1 else 0) + CountBelow(finals[1..], k)
  }

  lemma {:induction false} CountBelowZero(finals: seq<nat>)
    ensures CountBelow(finals, 0) == 0
  {
    if finals != [] {
      CountBelowZero(finals[1..]);
    }
  }

  lemma {:induction false} CountBelowStep(finals: seq<nat>, k: nat)
    ensures CountBelow(finals, k + 1) == CountBelow(finals, k) + Count<nat>(finals, k)
  {
    if finals != [] {
      CountBelowStep(finals[1..], k);
    }
  }

  lemma {:induction false} CountBelowAll(finals: seq<nat>, n: nat)
    requires forall j :: 0 <= j < |finals| ==> finals[j] < n
    ensures CountBelow(finals, n) == |finals|
  {
    if finals != [] {
      CountBelowAll(finals[1..], n);
    }
  }

  lemma {:induction false} TallyPrefixSum(finals: seq<nat>, k: nat)
    ensures Sum(Tally(finals, k)) == CountBelow(finals, k)
  {
    if k == 0 {
      CountBelowZero(finals);
    } else {
      var t := Tally(finals, k);
      TallyPrefixSum(finals, k - 1);
      CountBelowStep(finals, k - 1);
      assert t[..k - 1] == Tally(finals, k - 1);
      assert t[k - 1] == Count<nat>(finals, k - 1);
      assert Sum(t) == Sum(t[..k - 1]) + t[k - 1];
    }
  }

  /** When every final state is a state of the model, the tally accounts for every patient. */
  lemma TallySum(finals: seq<nat>, n: nat)
    requires forall j :: 0 <= j < |finals| ==> finals[j] < n
    ensures Sum(Tally(finals, n)) == |finals|
  {
    TallyPrefixSum(finals, n);
    CountBelowAll(finals, n);
  }

  /** Entry `i` of the tally is the multiplicity of `i` among the final states. */
  lemma TallyIsMultiplicity(finals: seq<nat>, n: nat)
    ensures |Tally(finals, n)| == n
    ensures forall i :: 0 <= i < n ==> Tally(finals, n)[i] == multiset(finals)[i]
  {
    forall i | 0 <= i < n ensures Tally(finals, n)[i] == multiset(finals)[i] {
      CountIsMultiplicity<nat>(finals, i);
    }
  }

  // ---------------------------------------------------------------------------------------
  // The default transition matrix

  /** Sum of a row of probabilities. */
  function RowSum(row: seq<real>): real
  {
    if row == [] then 0.0 else row[0] + RowSum(row[1..])
  }

  /** Entries in [0, 1] that sum to exactly 1. */
  ghost predicate Distribution(row: seq<real>)
  {
    (forall j :: 0 <= j < |row| ==> 0.0 <= row[j] <= 1.0) && RowSum(row) == 1.0
  }

  /** Square, and every row is a probability distribution. */
  ghost predicate Stochastic(m: Matrix)
  {
    Square(m, |m|) && forall i :: 0 <= i < |m| ==> Distribution(m[i])
  }

  /** The last row is the identity distribution: Death only leads to Death. */
  ghost predicate AbsorbingLast(m: Matrix)
    requires Square(m, |m|) && |m| > 0
  {
    var death := m[|m| - 1];
    forall j :: 0 <= j < |death| ==> death[j] == if j == |death| - 1 then 1.0 else 0.0
  }

  /** Four weights in [0, 1] that add up to 1 form a distribution. */
  lemma FourWeightsDistribution(a: real, b: real, c: real, d: real)
    requires 0.0 <= a <= 1.0 && 0.0 <= b <= 1.0 && 0.0 <= c <= 1.0 && 0.0 <= d <= 1.0
    requires a + b + c + d == 1.0
    ensures Distribution([a, b, c, d])
  {
    assert [d][1..] == [] && RowSum([d]) == d;
    assert [c, d][1..] == [d] && RowSum([c, d]) == c + d;
    assert [b, c, d][1..] == [c, d] && RowSum([b, c, d]) == b + c + d;
    assert [a, b, c, d][1..] == [b, c, d] && RowSum([a, b, c, d]) == a + b + c + d;
  }

  /** The built-in matrix over Controlled, Uncontrolled, Severe and Death. */
  const DefaultTransitionMatrix: Matrix :=
    [ [0.96, 0.03, 0.0095, 0.0005]
    , [0.10, 0.80, 0.095, 0.005]
    , [0.00, 0.05, 0.945, 0.005]
    , [0.00, 0.00, 0.00, 1.00]
    ]

  /** The built-in matrix is four by four, each row sums to exactly 1, and Death is absorbing. */
  lemma DefaultMatrixIsStochastic()
    ensures |DefaultTransitionMatrix| == 4
    ensures Stochastic(DefaultTransitionMatrix) && AbsorbingLast(DefaultTransitionMatrix)
  {
    FourWeightsDistribution(0.96, 0.03, 0.0095, 0.0005);
    FourWeightsDistribution(0.10, 0.80, 0.095, 0.005);
    FourWeightsDistribution(0.00, 0.05, 0.945, 0.005);
    FourWeightsDistribution(0.00, 0.00, 0.00, 1.00);
  }

  /** The matrix read from the probabilities file when it exists, otherwise the built-in one. */
  function LoadTransitionMatrix(file: Option<Matrix>): (m: Matrix)
    ensures file.Some? ==> m == file.value
    ensures file.None? ==> |m| == 4 && Stochastic(m) && AbsorbingLast(m)
  {
    match file
    case Some(values) => values
    case None => DefaultMatrixIsStochastic(); DefaultTransitionMatrix
  }

  // ---------------------------------------------------------------------------------------
  // Inverse-CDF sampling

  /** The first index whose running total of `row` exceeds `u`, or `|row|` when none does: the
      inverse-CDF choice of a categorical draw from a uniform number `u`. */
  function Pick(row: seq<real>, u: real): nat
  {
    if row == [] then 0 else if u < row[0] then 0 else 1 + Pick(row[1..], u - row[0])
  }

  /** On a row of non-negative weights, a uniform number below the row's total always picks an
      index of the row whose weight is positive. */
  lemma {:induction false} PickLandsOnPositive(row: seq<real>, u: real)
    requires forall j :: 0 <= j < |row| ==> row[j] >= 0.0
    requires 0.0 <= u < RowSum(row)
    ensures Pick(row, u) < |row| && row[Pick(row, u)] > 0.0
  {
    if u >= row[0] {
      PickLandsOnPositive(row[1..], u - row[0]);
    }
  }

  /** The sampler that picks by inverse CDF from the `k`-th number of a stream of uniforms. */
  function InverseCdfSampler(uniform: nat -> real): Sampler
  {
    (k: nat, row: seq<real>) => Pick(row, uniform(k))
  }

  /** Inverse-CDF sampling from uniforms in [0, 1) on a row-stochastic matrix only ever draws
      states of positive probability. */
  lemma InverseCdfSamplerSound(m: Matrix, uniform: nat -> real)
    requires Stochastic(m)
    requires forall k: nat :: 0.0 <= uniform(k) < 1.0
    ensures SoundSampler(InverseCdfSampler(uniform), m)
  {
    forall k: nat, s: nat | s < |m|
      ensures InverseCdfSampler(uniform)(k, m[s]) < |m|
      ensures m[s][InverseCdfSampler(uniform)(k, m[s])] > 0.0
    {
      PickLandsOnPositive(m[s], uniform(k));
    }
  }

  /** The built-in matrix with inverse-CDF sampling meets every requirement of the simulator. */
  lemma DefaultMatrixSoundSampling(uniform: nat -> real)
    requires forall k: nat :: 0.0 <= uniform(k) < 1.0
    ensures var m := LoadTransitionMatrix(None);
      Square(m, 4) && AbsorbingLast(m) && SoundSampler(InverseCdfSampler(uniform), m)
  {
    InverseCdfSamplerSound(LoadTransitionMatrix(None), uniform);
  }

  // ---------------------------------------------------------------------------------------
  // The simulator

  class DiabetesMarkovModel {
    const transitionMatrix: Matrix
    const states: seq<string>
    const nSteps: nat
    const nStates: nat

    /** The matrix is square with one row and one column per state label. */
    ghost predicate Valid()
    {
      nStates == |states| && Square(transitionMatrix, nStates)
    }

    constructor (transitionMatrix: Matrix, states: seq<string>, nSteps: nat := 60)
      requires Square(transitionMatrix, |states|)
      ensures Valid()
      ensures this.transitionMatrix == transitionMatrix && this.states == states
      ensures this.nSteps == nSteps && this.nStates == |states|
    {
      this.transitionMatrix := transitionMatrix;
      this.states := states;
      this.nSteps := nSteps;
      this.nStates := |states|;
    }

    /** One patient's trajectory from `startState`, and the random source after its draws. */
    method SimulatePatient(startState: nat, rng: Generator) returns (trajectory: seq<nat>, rng': Generator)
      requires Valid() && startState < nStates && SoundSampler(rng.sample, transitionMatrix)
      ensures trajectory == Trajectory(transitionMatrix, rng.sample, rng.drawn, startState, nSteps)
      ensures trajectory[0] == startState && 1 <= |trajectory| <= nSteps + 1
      ensures rng'.sample == rng.sample && rng'.drawn == rng.drawn + |trajectory| - 1
    {
      ghost var m := transitionMatrix;
      var currentState: nat := startState;
      trajectory := [currentState];
      for i := 0 to nSteps
        invariant 0 <= i <= nSteps
        invariant currentState < nStates && |trajectory| == i + 1
        invariant trajectory + Path(m, rng.sample, rng.drawn + i, currentState, nSteps - i)
          == Trajectory(m, rng.sample, rng.drawn, startState, nSteps)
      {
        var nextState: nat := rng.sample(rng.drawn + i, transitionMatrix[currentState]);
        trajectory := trajectory + [nextState];
        currentState := nextState;
        if currentState == nStates - 1 {
          break;
        }
      }
      PathLength(m, rng.sample, rng.drawn, startState, nSteps);
      rng' := Generator(rng.sample, rng.drawn + |trajectory| - 1);
    }

    /** `nPatients` trajectories from `startState` drawn one after another, the count of
        trajectories ending in each state, and the random source after all draws. */
    method SimulateCohort(rng: Generator, nPatients: nat, startState: nat := 0)
      returns (trajectories: seq<seq<nat>>, stateCounts: seq<nat>, rng': Generator)
      requires Valid() && startState < nStates && SoundSampler(rng.sample, transitionMatrix)
      ensures trajectories == Cohort(transitionMatrix, rng.sample, rng.drawn, startState, nSteps, nPatients)
      ensures |trajectories| == nPatients
      ensures forall p :: 0 <= p < nPatients ==> IsTrajectory(transitionMatrix, startState, nSteps, trajectories[p])
      ensures forall p :: 0 <= p < nPatients ==> |trajectories[p]| > 0
      ensures |stateCounts| == nStates
      ensures forall i :: 0 <= i < nStates ==> stateCounts[i] == multiset(FinalStates(trajectories))[i]
      ensures Sum(stateCounts) == nPatients
      ensures rng'.sample == rng.sample
      ensures rng'.drawn == PatientDraw(transitionMatrix, rng.sample, rng.drawn, startState, nSteps, nPatients)
    {
      ghost var m := transitionMatrix;
      trajectories := [];
      var g := rng;
      for p := 0 to nPatients
        invariant g.sample == rng.sample && g.drawn == PatientDraw(m, rng.sample, rng.drawn, startState, nSteps, p)
        invariant trajectories == Cohort(m, rng.sample, rng.drawn, startState, nSteps, p)
      {
        var t, g' := SimulatePatient(startState, g);
        trajectories := trajectories + [t];
        g := g';
      }
      CohortWellFormed(m, rng.sample, rng.drawn, startState, nSteps, nPatients);
      stateCounts := Tally(FinalStates(trajectories), nStates);
      CohortTally(m, rng.sample, rng.drawn, startState, nSteps, nPatients);
      rng' := g;
    }
  }
}
