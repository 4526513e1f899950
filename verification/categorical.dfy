/** `data_clean_categorical` (src/data/data_cleaning.py:59-75): per-column
    sentinel rules for the listed categorical columns, fail-soft. */
module CategoricalCleaning {
  import opened Cells
  import opened Frame

  const Transmission: string := "transmission"

  /** The statement the loop runs for one listed column: line 67 for
      `transmission`, line 69 for every other column. */
  function CategoricalAssignment(column: string): Assignment {
    if column == Transmission then Assignment(column, [ReplaceValue("0", Str("Other"))])
    else Assignment(column, [ReplaceValue(NA, Missing)])
  }

  /** The loop of lines 65-69, unrolled: one statement per listed column, in order. */
  function CategoricalPlan(features: seq<string>): seq<Assignment> {
    seq(|features|, i requires 0 <= i < |features| => CategoricalAssignment(features[i]))
  }

  /** What `data_clean_categorical` leaves in the frame, and whether it
      completed or logged an error. */
  function CategoricalClean(cols: seq<Column>, features: seq<string>): RunResult {
    Run(cols, CategoricalPlan(features))
  }

  /** `data_clean_categorical(data, categorical_features)`: mutates `t` in
      place and never raises; `outcome` tells whether it logged completion or
      an error. */
  method CleanCategorical(t: Table, features: seq<string>) returns (outcome: Outcome)
    requires t.Valid()
    modifies t
    ensures t.Valid() && t.rows == old(t.rows)
    ensures RunResult(t.columns, outcome) == CategoricalClean(old(t.columns), features)
  {
    ghost var goal := CategoricalClean(t.columns, features);
    outcome := Completed;
    for i := 0 to |features|
      invariant t.Valid() && t.rows == old(t.rows)
      invariant outcome == Completed
      invariant Run(t.columns, CategoricalPlan(features[i..])) == goal
    {
      var column := features[i];
      PlanTail(features[i..]);
      assert features[i..][0] == column && features[i..][1..] == features[i + 1..];
      ghost var before := t.columns;
      outcome := t.Assign(CategoricalAssignment(column));
      RunUnfold(before, CategoricalPlan(features[i..]));
      if outcome.Failed? {
        return;
      }
    }
    assert features[|features|..] == [];
  }

  /** The sentinel rule for one cell of a listed column: in `transmission`
      the text "0" becomes "Other" and "na" stays; in any other column "na"
      becomes NaN and "0" stays. Only whole cells match. */
  function CategoricalCell(column: string, c: Cell): Cell {
    if column == Transmission then (if c == Str("0") then Str("Other") else c)
    else (if c == Str(NA) then Missing else c)
  }

  /** A listed column once its rule has been applied to every cell. */
  function CleanedColumn(col: Column): Column {
    col.(cells := seq(|col.cells|, i requires 0 <= i < |col.cells| => CategoricalCell(col.name, col.cells[i])))
  }

  /** Applying a rule a second time changes nothing. */
  lemma CleanedColumnIdempotent(col: Column)
    ensures CleanedColumn(CleanedColumn(col)) == CleanedColumn(col)
  {
    var once := CleanedColumn(col);
    assert CleanedColumn(once).cells == once.cells;
  }

  /** The statement for a present column leaves that column cleaned, with
      its label and dtype. */
  lemma AssignmentCleans(col: Column)
    ensures ApplyOps(col, CategoricalAssignment(col.name).ops) == Success(CleanedColumn(col))
  {
    var ops := CategoricalAssignment(col.name).ops;
    assert ops[1..] == [];
    var c1 := ApplyOp(col, ops[0]).value;
    assert c1.cells == CleanedColumn(col).cells;
  }

  /** A lookup result after the rule has been applied to the column found. */
  function Cleaned(found: Option<Column>): Option<Column> {
    match found
    case None => None
    case Some(col) => Some(CleanedColumn(col))
  }

  lemma PlanTail(features: seq<string>)
    requires features != []
    ensures var plan := CategoricalPlan(features);
      plan[0] == CategoricalAssignment(features[0]) && plan[1..] == CategoricalPlan(features[1..])
  {
  }

  /** The statement for a column that is already clean changes nothing. */
  lemma StepOnClean(cols: seq<Column>, f: string)
    requires Lookup(cols, f).Some? && CleanedColumn(Lookup(cols, f).value) == Lookup(cols, f).value
    ensures Step(cols, CategoricalAssignment(f)) == RunResult(cols, Completed)
  {
    var col := Lookup(cols, f).value;
    AssignmentCleans(col);
    var k := IndexOf(Names(cols), f).value;
    assert cols[k] == col;
    assert cols[k := col] == cols;
  }

  /** The cleaner on a non-empty list: the first column's statement, then
      the rest of the list if it completed. */
  lemma CategoricalUnfold(cols: seq<Column>, features: seq<string>)
    requires features != []
    ensures var s, plan, rest := Step(cols, CategoricalAssignment(features[0])), CategoricalPlan(features), CategoricalPlan(features[1..]);
      && Run(cols, plan) == (if s.outcome.Failed? then s else Run(s.cols, rest))
      && StepsDone(cols, plan) == (if s.outcome.Failed? then 0 else 1 + StepsDone(s.cols, rest))
  {
    PlanTail(features);
  }

  /** One column's statement cleans that column and no other. */
  lemma CategoricalStepLookup(cols: seq<Column>, f: string, n: string)
    requires Step(cols, CategoricalAssignment(f)).outcome.Completed?
    ensures Lookup(Step(cols, CategoricalAssignment(f)).cols, n) ==
      if n == f then Cleaned(Lookup(cols, n)) else Lookup(cols, n)
  {
    if n == f {
      AssignmentCleans(Lookup(cols, f).value);
    } else {
      StepFrame(cols, CategoricalAssignment(f), n);
    }
  }

  lemma CleanedTwice(found: Option<Column>)
    ensures Cleaned(Cleaned(found)) == Cleaned(found)
  {
    if found.Some? {
      CleanedColumnIdempotent(found.value);
    }
  }

  /** Fail-soft, column by column: the listed columns up to the first absent
      one are cleaned, and every other column is exactly as it came in. */
  lemma {:induction false} CategoricalEffect(cols: seq<Column>, features: seq<string>, n: string)
    decreases |features|
    ensures var plan := CategoricalPlan(features);
      Lookup(Run(cols, plan).cols, n) ==
        if n in features[..StepsDone(cols, plan)] then Cleaned(Lookup(cols, n)) else Lookup(cols, n)
  {
    if features != [] {
      CategoricalUnfold(cols, features);
      var s := Step(cols, CategoricalAssignment(features[0]));
      if s.outcome.Completed? {
        CategoricalEffect(s.cols, features[1..], n);
        EffectAfterStep(cols, features, n);
      } else {
        assert features[..0] == [];
      }
    }
  }

  /** The inductive step of CategoricalEffect: the first column's statement
      completed, and the rest of the list behaves as stated. */
  lemma EffectAfterStep(cols: seq<Column>, features: seq<string>, n: string)
    requires features != []
    requires Step(cols, CategoricalAssignment(features[0])).outcome.Completed?
    requires var s, rest := Step(cols, CategoricalAssignment(features[0])), features[1..];
      Lookup(Run(s.cols, CategoricalPlan(rest)).cols, n) ==
        if n in rest[..StepsDone(s.cols, CategoricalPlan(rest))] then Cleaned(Lookup(s.cols, n)) else Lookup(s.cols, n)
    ensures var plan := CategoricalPlan(features);
      Lookup(Run(cols, plan).cols, n) ==
        if n in features[..StepsDone(cols, plan)] then Cleaned(Lookup(cols, n)) else Lookup(cols, n)
  {
    var f, rest := features[0], features[1..];
    CategoricalUnfold(cols, features);
    var s := Step(cols, CategoricalAssignment(f));
    var k' := StepsDone(s.cols, CategoricalPlan(rest));
    CategoricalStepLookup(cols, f, n);
    if n == f {
      assert n in features[..k' + 1];
      CleanedTwice(Lookup(cols, n));
    } else {
      PrefixMembership(features, k', n);
    }
  }

  lemma PrefixMembership(xs: seq<string>, k: nat, n: string)
    requires k < |xs|
    ensures n in xs[..k + 1] <==> n == xs[0] || n in xs[1..][..k]
  {
    assert xs[..k + 1] == [xs[0]] + xs[1..][..k];
  }

  /** The cleaner completes iff every listed column exists; otherwise it
      stops with KeyError at the first listed column that does not. */
  lemma {:induction false} CategoricalCompletes(cols: seq<Column>, features: seq<string>)
    decreases |features|
    ensures var r := CategoricalClean(cols, features);
      && (r.outcome.Completed? <==> forall i :: 0 <= i < |features| ==> features[i] in Names(cols))
      && (r.outcome.Failed? ==>
            exists k :: 0 <= k < |features| && r.outcome.error == KeyError(features[k]) &&
              features[k] !in Names(cols) && forall j :: 0 <= j < k ==> features[j] in Names(cols))
  {
    if features != [] {
      var plan := CategoricalPlan(features);
      var f, rest := features[0], features[1..];
      PlanTail(features);
      var s := Step(cols, plan[0]);
      if Lookup(cols, f).Some? {
        AssignmentCleans(Lookup(cols, f).value);
      }
      if s.outcome.Completed? {
        CategoricalCompletes(s.cols, rest);
        var r := CategoricalClean(cols, features);
        assert r == CategoricalClean(s.cols, rest);
        if r.outcome.Failed? {
          var k :| 0 <= k < |rest| && r.outcome.error == KeyError(rest[k]) &&
            rest[k] !in Names(cols) && forall j :: 0 <= j < k ==> rest[j] in Names(cols);
          assert features[k + 1] == rest[k];
          forall j | 0 <= j < k + 1 ensures features[j] in Names(cols) {
            if j > 0 {
              assert features[j] == rest[j - 1];
            }
          }
        } else {
          forall i | 0 <= i < |features| ensures features[i] in Names(cols) {
            if i > 0 {
              assert features[i] == rest[i - 1];
            }
          }
        }
      }
    }
  }

  /** The cleaner changes cells only: every column keeps its label, its
      dtype and its place. */
  lemma {:induction false} CategoricalSchema(cols: seq<Column>, features: seq<string>)
    decreases |features|
    ensures Schema(CategoricalClean(cols, features).cols) == Schema(cols)
  {
    if features != [] {
      var plan := CategoricalPlan(features);
      PlanTail(features);
      var s := Step(cols, plan[0]);
      if s.outcome.Completed? {
        var k := IndexOf(Names(cols), features[0]).value;
        AssignmentCleans(cols[k]);
        assert s.cols == cols[k := CleanedColumn(cols[k])];
        assert Schema(s.cols) == Schema(cols);
        CategoricalSchema(s.cols, features[1..]);
      }
    }
  }

  /** Running the cleaner twice with the same list gives what running it
      once gives: the same frame and the same outcome. */
  lemma {:induction false} CategoricalIdempotent(cols: seq<Column>, features: seq<string>)
    decreases |features|
    ensures var r := CategoricalClean(cols, features);
      CategoricalClean(r.cols, features) == r
  {
    if features != [] {
      var plan := CategoricalPlan(features);
      var f, rest := features[0], features[1..];
      PlanTail(features);
      var s := Step(cols, plan[0]);
      if s.outcome.Completed? {
        var r := CategoricalClean(s.cols, rest);
        CategoricalIdempotent(s.cols, rest);
        // `f` is already clean in `r`, so its statement changes nothing there.
        var col := Lookup(cols, f).value;
        AssignmentCleans(col);
        CleanedColumnIdempotent(col);
        CategoricalEffect(s.cols, rest, f);
        assert Lookup(r.cols, f) == Some(CleanedColumn(col));
        StepOnClean(r.cols, f);
      }
    }
  }
}
