/** The cleaning, state definition and initial-distribution steps of `src/preprocess.py`.

    A table is a sequence of rows; a row maps column names to cells, and a cell is either a
    number or missing (pandas' NaN). The table read from the CSV file is a parameter: reading
    the file is not part of this model. */
module Preprocess {
  import opened Collections

  /** One record of the table: column name to cell, `None` standing for a missing value. */
  type Row = map<string, Option<real>>

  /** The clinical columns in which a zero means "not measured". */
  const ZeroMeansMissing: seq<string> := ["Glucose", "Insulin", "BMI", "BloodPressure", "SkinThickness"]

  /** Glucose below this is Controlled. */
  const UncontrolledFrom: real := 140.0

  /** Glucose at or above this is Severe. */
  const SevereFrom: real := 200.0

  /** The diabetes states assigned from glucose; `Unknown` is the default of the selection. */
  datatype State = Controlled | Uncontrolled | Severe | Unknown

  /** The table, held by reference: `define_states` adds the `State` column to the caller's
      table in place. */
  class DataFrame {
    var rows: seq<Row>
    /** The `State` column, once it has been assigned. */
    var state: Option<seq<State>>

    /** The `State` column, when present, has one label per row. */
    ghost predicate Valid()
      reads this
    {
      state.Some? ==> |state.value| == |rows|
    }

    constructor (rows: seq<Row>)
      ensures this.rows == rows && state == None
      ensures Valid()
    {
      this.rows := rows;
      state := None;
    }
  }

  // ---------------------------------------------------------------------------------------
  // Cleaning

  /** The row has all five clinical columns (otherwise `df[col]` fails with a missing key). */
  predicate HasZeroColumns(row: Row)
  {
    forall c :: c in ZeroMeansMissing ==> c in row
  }

  /** No cell of the row is missing. */
  predicate NoMissing(row: Row)
  {
    forall c :: c in row ==> row[c].Some?
  }

  /** The rows that survive cleaning: nothing missing, and no zero in the clinical columns. */
  predicate Keep(row: Row)
  {
    NoMissing(row) && forall c :: c in ZeroMeansMissing ==> c in row && row[c] != Some(0.0)
  }

  /** `replace(0, np.nan)` applied to the cell of column `col`. */
  function ReplaceZero(row: Row, col: string): Row
  {
    if col in row && row[col] == Some(0.0) then row[col := None] else row
  }

  /** `df[col] = df[col].replace(0, np.nan)`. */
  function ReplaceZeros(rows: seq<Row>, col: string): seq<Row>
    requires forall i :: 0 <= i < |rows| ==> col in rows[i]
  {
    seq(|rows|, i requires 0 <= i < |rows| => ReplaceZero(rows[i], col))
  }

  /** A row after its zeros in `cols` have been replaced, one column after the other. */
  function NullifyRow(row: Row, cols: seq<string>): Row
  {
    if cols == [] then row
    else
      ReplaceZero(NullifyRow(row, cols[..|cols| - 1]), cols[|cols| - 1])
  }

  lemma {:induction false} NullifyRowKeys(row: Row, cols: seq<string>)
    ensures NullifyRow(row, cols).Keys == row.Keys
  {
    if cols != [] {
      NullifyRowKeys(row, cols[..|cols| - 1]);
    }
  }

  /** Replacing the zeros of `cols` keeps every column, turns exactly the zeros of those columns
      into missing values and leaves every other cell alone. */
  lemma {:induction false} NullifyRowCells(row: Row, cols: seq<string>)
    ensures NullifyRow(row, cols).Keys == row.Keys
    ensures forall c :: c in row ==>
      NullifyRow(row, cols)[c] == if c in cols && row[c] == Some(0.0) then None else row[c]
  {
    NullifyRowKeys(row, cols);
    if cols != [] {
      var init := cols[..|cols| - 1];
      NullifyRowCells(row, init);
      assert forall c :: c in cols <==> c in init || c == cols[|cols| - 1];
    }
  }

  /** The table after the zeros of `cols` have been replaced in every row. */
  function Nullify(rows: seq<Row>, cols: seq<string>): seq<Row>
  {
    seq(|rows|, i requires 0 <= i < |rows| => NullifyRow(rows[i], cols))
  }

  /** `df.dropna()`: the rows with no missing cell, in order. */
  function DropNa(rows: seq<Row>): seq<Row>
  {
    Filter(rows, NoMissing)
  }

  /** The table `load_and_clean_data` returns for the table read from the file. */
  function Clean(raw: seq<Row>): seq<Row>
    requires forall i :: 0 <= i < |raw| ==> HasZeroColumns(raw[i])
  {
    DropNa(Nullify(raw, ZeroMeansMissing))
  }

  /** A row survives the replacement and `dropna` exactly when it has no missing cell and no
      zero in the clinical columns, and then it survives unchanged. */
  lemma NullifiedRowSurvives(row: Row)
    requires HasZeroColumns(row)
    ensures NoMissing(NullifyRow(row, ZeroMeansMissing)) <==> Keep(row)
    ensures Keep(row) ==> NullifyRow(row, ZeroMeansMissing) == row
  {
    var n := NullifyRow(row, ZeroMeansMissing);
    NullifyRowCells(row, ZeroMeansMissing);
    if Keep(row) {
      assert forall c :: c in row ==> n[c] == row[c];
    }
    if !Keep(row) && NoMissing(row) {
      var c :| c in ZeroMeansMissing && row[c] == Some(0.0);
      assert n[c] == None;
    }
    if !NoMissing(row) {
      var c :| c in row && row[c].None?;
      assert n[c] == None;
    }
  }

  /** Cleaning keeps exactly the rows with nothing missing and no zero in the clinical columns,
      in their original order and with their original values. */
  lemma {:induction false} CleanKeepsValidRows(raw: seq<Row>)
    requires forall i :: 0 <= i < |raw| ==> HasZeroColumns(raw[i])
    ensures Clean(raw) == Filter(raw, Keep)
  {
    if raw != [] {
      CleanKeepsValidRows(raw[1..]);
      NullifiedRowSurvives(raw[0]);
      var n := Nullify(raw, ZeroMeansMissing);
      assert n[1..] == Nullify(raw[1..], ZeroMeansMissing);
      assert n[0] == NullifyRow(raw[0], ZeroMeansMissing);
    }
  }

  /** A row is in the cleaned table exactly when it is in the raw table and is kept. */
  lemma CleanMembership(raw: seq<Row>, row: Row)
    requires forall i :: 0 <= i < |raw| ==> HasZeroColumns(raw[i])
    ensures row in Clean(raw) <==> row in raw && Keep(row)
  {
    CleanKeepsValidRows(raw);
    FilterMembership(raw, Keep, row);
  }

  /** The table read from the file (`pd.read_csv` is not modelled) with the zeros of the five
      clinical columns replaced by missing values, column by column, and then every row with a
      missing value dropped. */
  method LoadAndCleanData(raw: seq<Row>) returns (df: DataFrame)
    requires forall i :: 0 <= i < |raw| ==> HasZeroColumns(raw[i])
    ensures fresh(df) && df.rows == Clean(raw) && df.state == None
    ensures df.Valid()
  {
    df := new DataFrame(raw);
    for k := 0 to |ZeroMeansMissing|
      invariant df.rows == Nullify(raw, ZeroMeansMissing[..k]) && df.state == None
    {
      var col := ZeroMeansMissing[k];
      ghost var done := ZeroMeansMissing[..k];
      forall i | 0 <= i < |raw| ensures col in NullifyRow(raw[i], done) {
        NullifyRowKeys(raw[i], done);
      }
      df.rows := ReplaceZeros(df.rows, col);
      assert ZeroMeansMissing[..k + 1][..k] == done;
      assert df.rows == Nullify(raw, ZeroMeansMissing[..k + 1]);
    }
    assert ZeroMeansMissing[..|ZeroMeansMissing|] == ZeroMeansMissing;
    df := new DataFrame(DropNa(df.rows));
  }

  // ---------------------------------------------------------------------------------------
  // States from glucose

  /** `np.select(conditions, choices, default)` for one row: the choice of the first true
      condition, or the default when no condition holds. */
  function Select<T>(conditions: seq<bool>, choices: seq<T>, default: T): (r: T)
    requires |conditions| == |choices|
    ensures forall i :: 0 <= i < |conditions| && conditions[i] && (forall j :: 0 <= j < i ==> !conditions[j]) ==>
              r == choices[i]
    ensures (forall i :: 0 <= i < |conditions| ==> !conditions[i]) ==> r == default
  {
    if conditions == [] then default
    else if conditions[0] then choices[0]
    else Select(conditions[1..], choices[1..], default)
  }

  /** `x < bound`; a comparison with a missing value is false. */
  predicate Below(x: Option<real>, bound: real)
  {
    x.Some? && x.value < bound
  }

  /** `x >= bound`; a comparison with a missing value is false. */
  predicate AtLeast(x: Option<real>, bound: real)
  {
    x.Some? && x.value >= bound
  }

  /** The state of a glucose value: the three conditions of `define_states` partition the
      present values, 140 and 200 belonging to the upper buckets; only a missing value gets the
      default `Unknown`. */
  function Classify(glucose: Option<real>): (s: State)
    ensures s == Controlled <==> glucose.Some? && glucose.value < 140.0
    ensures s == Uncontrolled <==> glucose.Some? && 140.0 <= glucose.value < 200.0
    ensures s == Severe <==> glucose.Some? && glucose.value >= 200.0
    ensures s == Unknown <==> glucose.None?
  {
    var conditions :=
      [ Below(glucose, UncontrolledFrom)
      , AtLeast(glucose, UncontrolledFrom) && Below(glucose, SevereFrom)
      , AtLeast(glucose, SevereFrom)
      ];
    var choices := [Controlled, Uncontrolled, Severe];
    assert conditions[0] == Below(glucose, UncontrolledFrom);
    assert conditions[1] == (AtLeast(glucose, UncontrolledFrom) && Below(glucose, SevereFrom));
    assert conditions[2] == AtLeast(glucose, SevereFrom);
    assert choices[0] == Controlled && choices[1] == Uncontrolled && choices[2] == Severe;
    Select(conditions, choices, Unknown)
  }

  /** The `State` column computed from the `Glucose` column, row by row. */
  function StateColumn(rows: seq<Row>): seq<State>
    requires forall i :: 0 <= i < |rows| ==> "Glucose" in rows[i]
  {
    seq(|rows|, i requires 0 <= i < |rows| => Classify(rows[i]["Glucose"]))
  }

  /** Adds the `State` column to the caller's table and returns that same table; the rows, their
      order and their cells are unchanged. */
  method DefineStates(df: DataFrame) returns (result: DataFrame)
    requires forall i :: 0 <= i < |df.rows| ==> "Glucose" in df.rows[i]
    modifies df
    ensures result == df
    ensures df.rows == old(df.rows)
    ensures df.state == Some(StateColumn(old(df.rows)))
    ensures df.Valid()
  {
    df.state := Some(StateColumn(df.rows));
    result := df;
  }

  /** After cleaning, every row has a present, non-zero glucose value, so no row is assigned
      `Unknown`. */
  lemma CleanedRowsAreClassified(raw: seq<Row>)
    requires forall i :: 0 <= i < |raw| ==> HasZeroColumns(raw[i])
    ensures var rows := Clean(raw);
      && (forall i :: 0 <= i < |rows| ==> "Glucose" in rows[i] && rows[i]["Glucose"].Some?)
      && (forall i :: 0 <= i < |rows| ==> StateColumn(rows)[i] != Unknown)
  {
    var rows: seq<Row> := Clean(raw);
    forall i | 0 <= i < |rows| ensures "Glucose" in rows[i] && rows[i]["Glucose"].Some? {
      CleanMembership(raw, rows[i]);
      assert "Glucose" in ZeroMeansMissing;
    }
  }

  // ---------------------------------------------------------------------------------------
  // Initial state distribution

  /** `value_counts(normalize=True)`: each state that occurs, mapped to its share of the rows. */
  function Proportions(labels: seq<State>): map<State, real>
  {
    map l | l in labels :: Count(labels, l) as real / |labels| as real
  }

  /** `estimate_state_distribution`: each state of the table's `State` column mapped to the
      fraction of rows that have it; the fractions of a non-empty table add up to 1, and an
      empty table gives an empty distribution. */
  function EstimateStateDistribution(df: DataFrame): (d: map<State, real>)
    reads df
    requires df.Valid() && df.state.Some?
    ensures forall l :: l in d <==> l in df.state.value
    ensures forall l :: l in d ==> 0.0 < d[l] <= 1.0
    ensures |df.state.value| > 0 ==> Mass(d) == 1.0
    ensures forall l :: l in d ==> d[l] == Count(df.state.value, l) as real / |df.state.value| as real
    ensures forall l :: l in d ==> d[l] == Count(df.state.value, l) as real / |df.rows| as real
  {
    var labels := df.state.value;
    ProportionsKeys(labels);
    forall l ensures Count(labels, l) > 0 <==> l in labels {
      CountPositiveIffPresent(labels, l);
    }
    if labels == [] then Proportions(labels)
    else ProportionsSumToOne(labels); Proportions(labels)
  }

  /** Share of a state in a distribution, zero when the state has no key. */
  function Share(d: map<State, real>, l: State): real
  {
    if l in d then d[l] else 0.0
  }

  /** Total of the shares of all four states. */
  function Mass(d: map<State, real>): real
  {
    Share(d, Controlled) + Share(d, Uncontrolled) + Share(d, Severe) + Share(d, Unknown)
  }

  lemma {:induction false} StateCountsAddUp(labels: seq<State>)
    ensures Count(labels, Controlled) + Count(labels, Uncontrolled) + Count(labels, Severe)
      + Count(labels, Unknown) == |labels|
  {
    if labels != [] {
      StateCountsAddUp(labels[1..]);
      var rest := labels[1..];
      assert Count(labels, Controlled) == (if labels[0] == Controlled then 1 else 0) + Count(rest, Controlled);
      assert Count(labels, Uncontrolled) == (if labels[0] == Uncontrolled then 1 else 0) + Count(rest, Uncontrolled);
      assert Count(labels, Severe) == (if labels[0] == Severe then 1 else 0) + Count(rest, Severe);
      assert Count(labels, Unknown) == (if labels[0] == Unknown then 1 else 0) + Count(rest, Unknown);
    }
  }

  /** A part of a positive whole, as a real fraction, lies in (0, 1]. */
  lemma FractionBounds(part: nat, whole: nat)
    requires 0 < part <= whole
    ensures 0.0 < part as real / whole as real <= 1.0
  {
    assert part as real / whole as real * whole as real == part as real;
  }

  /** Four parts of a positive whole, each taken as a fraction of it, add up to 1. */
  lemma FractionsOfWhole(a: real, b: real, c: real, d: real, n: real)
    requires n > 0.0 && a + b + c + d == n
    ensures a / n + b / n + c / n + d / n == 1.0
  {
    assert a / n + b / n + c / n + d / n == (a + b + c + d) / n;
  }

  /** The keys are exactly the states that occur, and each share lies in (0, 1]. */
  lemma ProportionsKeys(labels: seq<State>)
    ensures forall l :: l in Proportions(labels) <==> Count(labels, l) > 0
    ensures forall l :: l in Proportions(labels) ==> 0.0 < Proportions(labels)[l] <= 1.0
  {
    var d := Proportions(labels);
    StateCountsAddUp(labels);
    forall l ensures l in d <==> Count(labels, l) > 0 {
      CountPositiveIffPresent(labels, l);
    }
    forall l | l in d ensures 0.0 < d[l] <= 1.0 {
      CountPositiveIffPresent(labels, l);
      CountAtMostLength(labels, l);
      FractionBounds(Count(labels, l), |labels|);
    }
  }

  /** The share the distribution gives a state is its count over the number of rows. */
  lemma ShareIsFraction(labels: seq<State>, l: State)
    requires |labels| > 0
    ensures Share(Proportions(labels), l) == Count(labels, l) as real / |labels| as real
  {
    CountPositiveIffPresent(labels, l);
  }

  /** Over exact reals the proportions of a non-empty column add up to 1. */
  lemma ProportionsSumToOne(labels: seq<State>)
    requires |labels| > 0
    ensures Mass(Proportions(labels)) == 1.0
  {
    var d := Proportions(labels);
    var n := |labels| as real;
    var a, b, c, e := Count(labels, Controlled) as real, Count(labels, Uncontrolled) as real,
      Count(labels, Severe) as real, Count(labels, Unknown) as real;
    ShareIsFraction(labels, Controlled);
    ShareIsFraction(labels, Uncontrolled);
    ShareIsFraction(labels, Severe);
    ShareIsFraction(labels, Unknown);
    assert Mass(d) == a / n + b / n + c / n + e / n;
    StateCountsAddUp(labels);
    FractionsOfWhole(a, b, c, e, n);
  }
}
