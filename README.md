# Diabetes progression Markov model, in Dafny

This project models the core of a small diabetes-progression simulator. The simulator is a
discrete-time Markov chain over the states Controlled, Uncontrolled, Severe and Death. The last
state index is Death, and it is absorbing. The project also models the preprocessing steps that
prepare the diabetes data: the dataset is cleaned, each patient gets a state from their glucose
value, and the initial state distribution is estimated.

- `collections.dfy` (module `Collections`) holds occurrence counts (`list.count`), sums and
  order-preserving filters, with their lemmas.
- `markov_model.dfy` (module `MarkovModel`) covers the pieces of `src/markov_model.py`.
  - Class `DiabetesMarkovModel`, with `SimulatePatient` and `SimulateCohort`.
  - `LoadTransitionMatrix`, including the built-in default matrix.
  - The ghost specification functions the simulator is proved against: `Path`, `Trajectory`,
    `PatientDraw` and `Cohort`.
- `preprocess.dfy` (module `Preprocess`) covers `src/preprocess.py`.
  - `LoadAndCleanData` replaces zeros with missing values, column by column, then drops every
    row that has a missing value.
  - `DefineStates` models `np.select` over the glucose conditions. It adds the `State` column to
    the caller's table in place.
  - `EstimateStateDistribution` models `value_counts(normalize=True)`.

The random source, `np.random.choice`, is a `Generator` value. It pairs a sampler with the
number of draws made so far. A sampler maps a draw number and a probability row to a state.
Every simulator property holds for any *sound* sampler, meaning one that only draws states
whose probability in the given row is positive. Inverse-CDF sampling from uniforms in [0, 1)
is proved sound on every row-stochastic matrix (`InverseCdfSamplerSound`), and in particular
on the default matrix. Patients of a cohort share the random source. Each patient continues
where the previous one stopped, and `PatientDraw` says where that is.

Edge cases the code decides:

- **The last index ends a trajectory, whatever the matrix.** With `[[0,1],[1,0]]`, a patient
  who starts in state 0 first draws state 1. That is the last index, so the loop stops there,
  and the trajectory is `[0, 1]` for any horizon of at least one step (`OscillatingScenario`).
  With `n_steps == 0` no draw is made and the trajectory is `[0]`, as for every matrix.
- **A self-loop state other than the last runs the full horizon.** Under the 2×2 identity
  matrix, a patient who starts in state 0 collects `n_steps + 1` zeros: eleven for ten steps
  (`IdentityScenario`). A cohort of `n` such patients gives counts `[n, 0]`
  (`IdentityCohortScenario`).
- **A patient who starts in Death still draws once when `n_steps >= 1`.** The absorption check
  comes after the draw, so with an absorbing last row the trajectory is `[d, d]`
  (`StartInDeath`). With `n_steps == 0` no draw is made and the trajectory is `[d]`.
- **The constructor validates nothing.** It stores the matrix and the labels as given. The
  model states as a precondition the shape the simulator relies on: a square matrix with one
  row per state. `np.random.choice` itself rejects a row it samples whose entries are
  negative or do not sum to 1. In the model this check becomes the sampler's soundness,
  which on row-stochastic matrices inverse-CDF sampling is proved to have.

## Model

| member | source | states |
|---|---|---|
| Collections.CountIsMultiplicity | src/markov_model.py:43 | `count` of a value equals its multiplicity in the multiset of the sequence |
| Collections.CountPositiveIffPresent | src/preprocess.py:40 | a value is counted at least once exactly when it occurs |
| Collections.CountAtMostLength | src/preprocess.py:40 | no value occurs more often than the sequence is long |
| Collections.FilterMembership | src/preprocess.py:15 | an element is kept by a filter exactly when it occurs and satisfies the predicate |
| MarkovModel.PathLength | src/markov_model.py:26-31 | at most `n_steps` states are drawn, and at least one exactly when `n_steps > 0` |
| MarkovModel.PathStopsAtDeath | src/markov_model.py:30-31 | Death is drawn only as the last state, and a path shorter than the horizon ends in Death |
| MarkovModel.PathFollowsMatrix | src/markov_model.py:27-29 | every drawn state is a state of the model, and every transition taken has positive probability |
| MarkovModel.TrajectoryWellFormed | src/markov_model.py:24-32 | a trajectory starts at the start state, has length between 1 and `n_steps + 1`, has Death at most as its last element, ends in Death when cut short, has full length when Death is never drawn, and follows positive-probability transitions |
| MarkovModel.StartInDeath | src/markov_model.py:24-31 | with an absorbing Death row and `n_steps >= 1`, a patient starting in Death yields `[Death, Death]` |
| MarkovModel.SelfLoopRunsFullHorizon | src/markov_model.py:26-31 | a non-Death state that can only lead to itself is repeated for all `n_steps` draws |
| MarkovModel.IdentityScenario | src/markov_model.py:18-32 | with the 2×2 identity matrix and 10 steps from state 0, the trajectory is eleven zeros |
| MarkovModel.OscillatingScenario | src/markov_model.py:18-32 | with `[[0,1],[1,0]]` and any horizon of at least one step from state 0, the trajectory is `[0, 1]`, because state 1 is Death |
| MarkovModel.CohortAt | src/markov_model.py:41 | the cohort has `n_patients` members, and member `p` is the trajectory that begins at patient `p`'s draw |
| MarkovModel.CohortWellFormed | src/markov_model.py:41 | every member of the cohort is a well-formed trajectory |
| MarkovModel.CohortTally | src/markov_model.py:41-43 | the final-state tally has one entry per state; entry `i` is the number of trajectories ending in `i`; the entries sum to `n_patients` |
| MarkovModel.PatientDrawsAdvance | src/markov_model.py:41 | patients share the random source: patient `p` begins at or after the draw where patient `p - 1` began and at most `n_steps` draws later, so between the first draw and `p * n_steps` draws later |
| MarkovModel.SelfLoopCohortTally | src/markov_model.py:41-43 | a cohort started in a non-Death state that can only lead to itself ends with every patient counted in that state and none elsewhere |
| MarkovModel.CountUniform | src/markov_model.py:43 | in a sequence that repeats one state, that state is counted at every position and no other state is counted |
| MarkovModel.IdentityCohortScenario | src/markov_model.py:34-44 | with the 2×2 identity matrix, `n` patients started in state 0 give counts `[n, 0]`, e.g. `[100, 0]` for 100 patients |
| MarkovModel.TallySum | src/markov_model.py:42-43 | when every final state is a state of the model, the counts add up to the number of trajectories |
| MarkovModel.TallyIsMultiplicity | src/markov_model.py:43 | entry `i` of the tally is the multiplicity of `i` among the final states |
| MarkovModel.DefaultMatrixIsStochastic | src/markov_model.py:51-56 | the built-in matrix is 4×4, every row is a distribution summing to exactly 1, and the Death row is absorbing |
| MarkovModel.LoadTransitionMatrix | src/markov_model.py:46-56 | the file's values when the file exists; otherwise a 4×4 row-stochastic matrix with absorbing Death |
| MarkovModel.PickLandsOnPositive | src/markov_model.py:27 | inverse-CDF choice with a uniform below the row total picks an index of positive weight |
| MarkovModel.InverseCdfSamplerSound | src/markov_model.py:27 | inverse-CDF sampling from uniforms in [0, 1) on a row-stochastic matrix never draws an impossible state |
| MarkovModel.DefaultMatrixSoundSampling | src/markov_model.py:51-56 | the default matrix with inverse-CDF sampling meets every precondition of the simulator |
| MarkovModel.DiabetesMarkovModel.constructor | src/markov_model.py:6-16 | stores the matrix, the state labels and `n_steps` (default 60), with `n_states = len(states)` |
| MarkovModel.DiabetesMarkovModel.SimulatePatient | src/markov_model.py:18-32 | the loop returns exactly the specified trajectory, starting at the start state with length at most `n_steps + 1`, and advances the random source by one draw per drawn state |
| MarkovModel.DiabetesMarkovModel.SimulateCohort | src/markov_model.py:34-44 | `n_patients` well-formed trajectories drawn one after another from the shared source; counts per state equal the multiplicities of the final states and add up to `n_patients` |
| Preprocess.DataFrame.constructor | src/preprocess.py:10 | a table holding the given rows and no `State` column yet |
| Preprocess.NullifyRowKeys | src/preprocess.py:12-13 | replacing zeros keeps every column of a row |
| Preprocess.NullifyRowCells | src/preprocess.py:12-13 | exactly the zeros of the five clinical columns become missing, and every other cell is unchanged |
| Preprocess.NullifiedRowSurvives | src/preprocess.py:12-15 | after replacement a row has no missing cell exactly when it had none and no clinical zero, and then it is unchanged |
| Preprocess.CleanKeepsValidRows | src/preprocess.py:11-15 | cleaning keeps exactly the rows with no missing cell and no zero in the five clinical columns, in order and unchanged |
| Preprocess.CleanMembership | src/preprocess.py:15 | a row is in the cleaned table exactly when it is a raw row that passes cleaning |
| Preprocess.LoadAndCleanData | src/preprocess.py:4-16 | the column-by-column replacement loop followed by `dropna` yields the cleaned table, with no `State` column |
| Preprocess.Select | src/preprocess.py:31 | the choice of the first true condition, or the default when no condition holds |
| Preprocess.Classify | src/preprocess.py:25-31 | Controlled iff glucose < 140; Uncontrolled iff 140 <= glucose < 200; Severe iff glucose >= 200; Unknown iff glucose is missing |
| Preprocess.DefineStates | src/preprocess.py:18-32 | adds to the caller's table, in place, the `State` column classified from glucose row by row, keeps the rows unchanged, and returns the same table |
| Preprocess.CleanedRowsAreClassified | src/preprocess.py:12-31 | after cleaning, every row has a glucose value, so no row gets `Unknown` |
| Preprocess.StateCountsAddUp | src/preprocess.py:40 | the counts of the four states add up to the number of rows |
| Preprocess.ProportionsKeys | src/preprocess.py:40-41 | the distribution's keys are exactly the states that occur, each with a share in (0, 1] |
| Preprocess.ShareIsFraction | src/preprocess.py:40 | the share of a state is its count divided by the number of rows, and 0 when absent |
| Preprocess.ProportionsSumToOne | src/preprocess.py:40-41 | over exact reals, the shares of a non-empty column add up to 1 |
| Preprocess.EstimateStateDistribution | src/preprocess.py:34-41 | keys are exactly the states present, each share is the state's count over the number of rows (the `State` column has one label per row) and lies in (0, 1], the shares add up to 1 on a non-empty table, and an empty table gives an empty map |

## Left out

- Randomness: numpy's generator is replaced by an abstract sampler plus a draw counter. The
  model does not describe the actual distribution of draws, only that impossible states are
  never drawn.
- File I/O: `pd.read_csv`, `os.path.exists` and the warning print are left out. `LoadTransitionMatrix` takes the file's contents as an optional matrix, and `LoadAndCleanData` takes the table read from the CSV file.
- Floating point: probabilities, glucose values and shares are exact reals. The sum-to-one
  facts hold exactly here and only approximately in floating point.
- `value_counts` ordering and pandas index labels: the distribution is a map, which does not
  record the descending-frequency order of the returned dictionary. The cleaned table is a
  sequence of rows, which does not record the original index labels kept by `dropna`.
- Negative `n_steps` or `n_patients` are not modelled. Both are `nat`, and in Python a negative
  value behaves like 0 in `range`.
- MarkovModel.DiabetesMarkovModel.constructor: it requires a square matrix with one row per
  state, but the source accepts any array. What happens next depends on the shape:
  - A matrix with `n_states` columns and extra rows simulates without error.
  - A matrix with too few rows fails with `IndexError` when a patient is in a state that has no
    row. The last row is read only when the patient starts in Death, because the loop stops as
    soon as the last state is drawn.
  - When every row has the same wrong length, the failure comes inside `np.random.choice`. A
    ragged nested list is already refused by `np.array(transition_matrix)` (numpy 1.24 and
    later).
- MarkovModel.DiabetesMarkovModel.SimulatePatient: it requires `start_state < n_states` and a
  sampler that is sound on the whole matrix. The model therefore requires every row to allow
  a draw, while the source needs only the rows it actually samples. For example, the source
  runs `[[1.0, 0.0], [0.0, 0.0]]` from state 0 for any horizon, because row 1 is never sampled.
  Also, the source checks the start index only when `n_steps >= 1`. `SimulateCohort` has the
  same preconditions, although with `n_patients == 0` the source checks nothing at all.
- Preprocess.LoadAndCleanData: it requires all five clinical columns in every row, where the
  source raises `KeyError`. `DefineStates` likewise requires a `Glucose` column.
- Preprocess.LoadAndCleanData: a row is a map from column names to cells, so the model admits
  ragged tables. A row that lacks a column other rows have is kept if nothing it has is
  missing. A pandas frame would hold NaN in that cell and `dropna` would drop the row. Tables
  read by `pd.read_csv` are always rectangular, so this case does not arise from the source.
- Preprocess.EstimateStateDistribution: it requires the `State` column, where the source raises
  `KeyError` when the column is absent. It also requires `DataFrame.Valid()`, meaning one label per row. The
  constructor, `LoadAndCleanData` and `DefineStates` all establish it, as a pandas column
  always has one label per row.
- Preprocess.DefineStates: a `State` column already present in the table is simply replaced,
  and is not modelled as one of the row cells.
- `src/visualize.py` and the `__main__` blocks (printing and plotting) are not part of this
  model.
