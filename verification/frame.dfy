/** The data frame the cleaning functions of src/data/data_cleaning.py
    mutate: an ordered sequence of named columns of equal length, the column
    assignment statement `data[col] = data[col].<ops>`, and a run of such
    statements that stops at the first one that raises. */
module Frame {
  import opened Cells

  function Names(cols: seq<Column>): seq<string> {
    seq(|cols|, i requires 0 <= i < |cols| => cols[i].name)
  }

  predicate DistinctNames(cols: seq<Column>) {
    forall i, j :: 0 <= i < j < |cols| ==> cols[i].name != cols[j].name
  }

  /** A column of a non-object dtype holds no strings. */
  predicate Consistent(col: Column) {
    col.dtype == Numeric ==> !HasText(col.cells)
  }

  /** A data frame as `read_csv` builds it: every column has one cell per
      row, and column labels are distinct (duplicates are renamed on read). */
  predicate WellFormed(cols: seq<Column>, rows: nat) {
    && DistinctNames(cols)
    && forall i :: 0 <= i < |cols| ==> |cols[i].cells| == rows && Consistent(cols[i])
  }

  /** A column label and its dtype: what `data.columns` and `dtype` show. */
  datatype Field = Field(name: string, dtype: DType)

  function Schema(cols: seq<Column>): seq<Field> {
    seq(|cols|, i requires 0 <= i < |cols| => Field(cols[i].name, cols[i].dtype))
  }

  /** The position of the first column labelled `name`. */
  function IndexOf(names: seq<string>, name: string): (r: Option<nat>)
    ensures r.None? <==> name !in names
    ensures r.Some? ==> r.value < |names| && names[r.value] == name && name !in names[..r.value]
  {
    if names == [] then None
    else if names[0] == name then Some(0)
    else
      match IndexOf(names[1..], name)
      case None => None
      case Some(k) =>
        assert names[..k + 1] == [names[0]] + names[1..][..k];
        Some(k + 1)
  }

  /** `data[name]`: the column labelled `name`, if there is one. */
  function Lookup(cols: seq<Column>, name: string): (r: Option<Column>)
    ensures r.None? <==> name !in Names(cols)
    ensures r.Some? ==> r.value.name == name && r.value in cols
  {
    match IndexOf(Names(cols), name)
    case None => None
    case Some(k) => Some(cols[k])
  }

  /** With distinct labels, the column a label finds is the one that carries it. */
  lemma LookupDistinct(cols: seq<Column>, c: Column)
    requires DistinctNames(cols)
    ensures Lookup(cols, c.name) == Some(c) <==> c in cols
  {
    if c in cols {
      var j :| 0 <= j < |cols| && cols[j] == c;
      assert Names(cols)[j] == c.name;
      var k := IndexOf(Names(cols), c.name).value;
      assert Names(cols)[k] == c.name;
    }
  }

  /** `data.drop(name, axis=1)`: every column labelled `name` is removed. */
  function DropColumn(cols: seq<Column>, name: string): seq<Column> {
    if cols == [] then []
    else (if cols[0].name == name then [] else [cols[0]]) + DropColumn(cols[1..], name)
  }

  /** No column labelled `name` is left, every other column is kept, and
      dropping an absent label changes nothing. */
  lemma {:induction false} DropColumnSpec(cols: seq<Column>, name: string)
    ensures var r := DropColumn(cols, name);
      && (forall i :: 0 <= i < |r| ==> r[i].name != name)
      && (forall c :: c in r <==> c in cols && c.name != name)
      && (name !in Names(cols) ==> r == cols)
  {
    if cols != [] {
      DropColumnSpec(cols[1..], name);
      assert cols[0].name == Names(cols)[0];
      assert Names(cols[1..]) == Names(cols)[1..];
      assert cols == [cols[0]] + cols[1..];
    }
  }

  /** With distinct labels, dropping a present column removes exactly that
      column and keeps every other one, in order. */
  lemma {:induction false} DropColumnAt(cols: seq<Column>, k: nat)
    requires DistinctNames(cols) && k < |cols|
    ensures DropColumn(cols, cols[k].name) == cols[..k] + cols[k + 1..]
  {
    var name := cols[k].name;
    if k == 0 {
      assert name !in Names(cols[1..]);
      DropColumnSpec(cols[1..], name);
    } else {
      DropColumnAt(cols[1..], k - 1);
      assert cols[0].name != name;
      assert cols[..k] + cols[k + 1..] == [cols[0]] + (cols[1..][..k - 1] + cols[1..][k..]);
    }
  }

  /** Removing one column from a frame with distinct labels keeps them distinct. */
  lemma RemoveAtDistinct(cols: seq<Column>, k: nat)
    requires DistinctNames(cols) && k < |cols|
    ensures DistinctNames(cols[..k] + cols[k + 1..])
  {
    var r := cols[..k] + cols[k + 1..];
    forall i, j | 0 <= i < j < |r| ensures r[i].name != r[j].name {
      var i' := if i < k then i else i + 1;
      var j' := if j < k then j else j + 1;
      assert r[i] == cols[i'] && r[j] == cols[j'];
    }
  }

  lemma DropDistinct(cols: seq<Column>, name: string)
    requires DistinctNames(cols)
    ensures DistinctNames(DropColumn(cols, name))
  {
    DropColumnSpec(cols, name);
    if name in Names(cols) {
      var k :| 0 <= k < |cols| && Names(cols)[k] == name;
      DropColumnAt(cols, k);
      RemoveAtDistinct(cols, k);
    }
  }

  /** Dropping one label leaves the columns of every other label where they are. */
  lemma DropLookup(cols: seq<Column>, name: string, other: string)
    requires DistinctNames(cols) && other != name
    ensures Lookup(DropColumn(cols, name), other) == Lookup(cols, other)
  {
    var r := DropColumn(cols, name);
    DropDistinct(cols, name);
    DropColumnSpec(cols, name);
    var lr, lc := Lookup(r, other), Lookup(cols, other);
    if lr.Some? {
      LookupDistinct(cols, lr.value);
    }
    if lc.Some? {
      LookupDistinct(cols, lc.value);
      LookupDistinct(r, lc.value);
    }
  }

  lemma DropWellFormed(cols: seq<Column>, name: string, rows: nat)
    requires WellFormed(cols, rows)
    ensures WellFormed(DropColumn(cols, name), rows)
  {
    DropDistinct(cols, name);
    DropColumnSpec(cols, name);
    var r := DropColumn(cols, name);
    forall i | 0 <= i < |r| ensures |r[i].cells| == rows && Consistent(r[i]) {
      assert r[i] in cols;
    }
  }

  /** What a cleaning statement can raise. */
  datatype Error =
    | KeyError(column: string)          // `data[col]` on an absent label
    | StrAccessorError(column: string)  // `.str` on a column that holds no strings
    | ValueError(column: string, text: string)  // `astype(float)` on text that is no number

  /** One step of a pandas method chain on a column. */
  datatype ColumnOp =
    | ReplaceValue(pattern: string, replacement: Cell)  // `.replace(pattern, replacement)`
    | RemoveChar(ch: char)                               // `.str.replace(ch, '')`
    | ToFloat                                            // `.astype(float)`

  /** The statement `data[column] = data[column].<ops>`. */
  datatype Assignment = Assignment(column: string, ops: seq<ColumnOp>)

  datatype Outcome = Completed | Failed(error: Error)

  datatype RunResult = RunResult(cols: seq<Column>, outcome: Outcome)

  function ApplyOp(col: Column, op: ColumnOp): Result<Column, Error> {
    match op
    case ReplaceValue(p, v) => Success(col.(cells := ReplaceCells(col.cells, p, v)))
    case RemoveChar(ch) =>
      if StrAccessorApplies(col) then Success(col.(cells := StripCells(col.cells, ch)))
      else Failure(StrAccessorError(col.name))
    case ToFloat =>
      match ParseCells(col.cells)
      case Success(cells) => Success(Column(col.name, Numeric, cells))
      case Failure(s) => Failure(ValueError(col.name, s))
  }

  /** A method chain: each step works on the previous step's column, and the
      first step that raises ends the chain. */
  function ApplyOps(col: Column, ops: seq<ColumnOp>): (r: Result<Column, Error>)
    decreases |ops|
    ensures r.Success? ==> r.value.name == col.name && |r.value.cells| == |col.cells|
    ensures r.Success? && Consistent(col) ==> Consistent(r.value)
    ensures r.Failure? ==> r.error.column == col.name && !r.error.KeyError?
  {
    if ops == [] then Success(col)
    else
      var first := ApplyOp(col, ops[0]);
      assert first.Success? && ops[0].ReplaceValue? && col.dtype == Numeric && Consistent(col) ==>
        first.value.cells == col.cells;
      match first
      case Failure(e) => Failure(e)
      case Success(c) => ApplyOps(c, ops[1..])
  }

  /** Executes `data[a.column] = data[a.column].<ops>`. Reading an absent
      column raises KeyError; a chain that raises assigns nothing; otherwise
      the column is replaced where it stands. */
  function Step(cols: seq<Column>, a: Assignment): (r: RunResult)
    ensures Names(r.cols) == Names(cols)
    ensures r.outcome.Failed? ==> r.cols == cols
    ensures r.outcome.Failed? ==> (r.outcome.error.KeyError? <==> a.column !in Names(cols))
    ensures r.outcome.Completed? <==>
      Lookup(cols, a.column).Some? && ApplyOps(Lookup(cols, a.column).value, a.ops).Success?
    ensures r.outcome.Completed? ==>
      Lookup(r.cols, a.column) == Some(ApplyOps(Lookup(cols, a.column).value, a.ops).value)
  {
    match IndexOf(Names(cols), a.column)
    case None => RunResult(cols, Failed(KeyError(a.column)))
    case Some(k) =>
      match ApplyOps(cols[k], a.ops)
      case Failure(e) => RunResult(cols, Failed(e))
      case Success(c) =>
        var r := cols[k := c];
        assert Names(r) == Names(cols);
        RunResult(r, Completed)
  }

  /** An assignment keeps every column's length, and a consistent column
      stays consistent. */
  lemma StepShape(cols: seq<Column>, a: Assignment)
    ensures var r := Step(cols, a).cols;
      forall i :: 0 <= i < |cols| ==>
        |r[i].cells| == |cols[i].cells| && (Consistent(cols[i]) ==> Consistent(r[i]))
  {
    var r := Step(cols, a);
    if r.outcome.Completed? {
      var k := IndexOf(Names(cols), a.column).value;
      assert r.cols == cols[k := ApplyOps(cols[k], a.ops).value];
    }
  }

  /** An assignment leaves the columns of every other label alone. */
  lemma StepFrame(cols: seq<Column>, a: Assignment, name: string)
    requires name != a.column
    ensures Lookup(Step(cols, a).cols, name) == Lookup(cols, name)
  {
    var r := Step(cols, a);
    if r.outcome.Completed? {
      var k := IndexOf(Names(cols), a.column).value;
      assert r.cols == cols[k := r.cols[k]];
      match IndexOf(Names(cols), name)
      case None =>
      case Some(j) =>
        assert j != k;
    }
  }

  /** A sequence of statements inside one `try` block: they run in order,
      and the first one that raises ends the run with everything before it
      kept (nothing is rolled back). */
  function Run(cols: seq<Column>, plan: seq<Assignment>): (r: RunResult)
    decreases |plan|
    ensures Names(r.cols) == Names(cols)
  {
    if plan == [] then RunResult(cols, Completed)
    else
      var s := Step(cols, plan[0]);
      if s.outcome.Failed? then s else Run(s.cols, plan[1..])
  }

  /** A run keeps every column's length, and consistent columns stay consistent. */
  lemma {:induction false} RunShape(cols: seq<Column>, plan: seq<Assignment>)
    decreases |plan|
    ensures var r := Run(cols, plan).cols;
      forall i :: 0 <= i < |cols| ==>
        |r[i].cells| == |cols[i].cells| && (Consistent(cols[i]) ==> Consistent(r[i]))
  {
    if plan != [] {
      var s := Step(cols, plan[0]);
      StepShape(cols, plan[0]);
      if s.outcome.Completed? {
        RunShape(s.cols, plan[1..]);
      }
    }
  }

  lemma RunUnfold(cols: seq<Column>, plan: seq<Assignment>)
    requires plan != []
    ensures Run(cols, plan) ==
      var s := Step(cols, plan[0]);
      if s.outcome.Failed? then s else Run(s.cols, plan[1..])
  {
  }

  /** The number of statements of `plan` that complete before one raises. */
  function StepsDone(cols: seq<Column>, plan: seq<Assignment>): (k: nat)
    decreases |plan|
    ensures k <= |plan|
  {
    if plan == [] then 0
    else
      var s := Step(cols, plan[0]);
      if s.outcome.Failed? then 0 else 1 + StepsDone(s.cols, plan[1..])
  }

  /** Running no further than the failing statement gives the same state. */
  lemma {:induction false} RunAppend(cols: seq<Column>, a: seq<Assignment>, b: seq<Assignment>)
    decreases |a|
    ensures Run(cols, a + b) ==
      var r := Run(cols, a);
      if r.outcome.Completed? then Run(r.cols, b) else r
  {
    if a != [] {
      assert (a + b)[0] == a[0];
      assert (a + b)[1..] == a[1..] + b;
      var s := Step(cols, a[0]);
      if s.outcome.Completed? {
        RunAppend(s.cols, a[1..], b);
      }
    } else {
      assert a + b == b;
    }
  }

  /** Fail-soft without rollback: a run leaves exactly the state of its
      completed prefix; it completes iff every statement did; and otherwise
      the next statement raises on that state, with the run's error. */
  lemma {:induction false} FailSoft(cols: seq<Column>, plan: seq<Assignment>)
    decreases |plan|
    ensures var r, k := Run(cols, plan), StepsDone(cols, plan);
      && Run(cols, plan[..k]) == RunResult(r.cols, Completed)
      && (r.outcome.Completed? <==> k == |plan|)
      && (k < |plan| ==> Step(r.cols, plan[k]) == r)
  {
    if plan != [] {
      var s := Step(cols, plan[0]);
      if s.outcome.Completed? {
        FailSoft(s.cols, plan[1..]);
        var k := StepsDone(cols, plan);
        assert plan[..k][1..] == plan[1..][..k - 1];
        assert plan[..k][0] == plan[0];
      } else {
        assert plan[..0] == [];
      }
    }
  }

  /** A run leaves alone every column no statement of it names. */
  lemma {:induction false} RunFrame(cols: seq<Column>, plan: seq<Assignment>, name: string)
    decreases |plan|
    requires forall i :: 0 <= i < |plan| ==> plan[i].column != name
    ensures Lookup(Run(cols, plan).cols, name) == Lookup(cols, name)
  {
    if plan != [] {
      var s := Step(cols, plan[0]);
      StepFrame(cols, plan[0], name);
      if s.outcome.Completed? {
        RunFrame(s.cols, plan[1..], name);
      }
    }
  }

  /** The method chains of a plan, one after the other. */
  function AllOps(plan: seq<Assignment>): seq<ColumnOp>
    decreases |plan|
  {
    if plan == [] then [] else plan[0].ops + AllOps(plan[1..])
  }

  /** A chain split in two: the second part starts from the first part's column. */
  lemma {:induction false} ApplyOpsAppend(col: Column, x: seq<ColumnOp>, y: seq<ColumnOp>)
    decreases |x|
    ensures ApplyOps(col, x + y) ==
      match ApplyOps(col, x)
      case Failure(e) => Failure(e)
      case Success(c) => ApplyOps(c, y)
  {
    if x == [] {
      assert x + y == y;
    } else {
      assert (x + y)[0] == x[0];
      assert (x + y)[1..] == x[1..] + y;
      match ApplyOp(col, x[0])
      case Failure(e) =>
      case Success(c) => ApplyOpsAppend(c, x[1..], y);
    }
  }

  /** Statements that all assign the same present column complete iff the
      single chain of all their operations succeeds on it, and leave that
      chain's result in the column. */
  lemma {:induction false} RunOneColumn(cols: seq<Column>, plan: seq<Assignment>, name: string)
    decreases |plan|
    requires forall i :: 0 <= i < |plan| ==> plan[i].column == name
    requires Lookup(cols, name).Some?
    ensures var r, ch := Run(cols, plan), ApplyOps(Lookup(cols, name).value, AllOps(plan));
      && (r.outcome.Completed? <==> ch.Success?)
      && (r.outcome.Completed? ==> Lookup(r.cols, name) == Some(ch.value))
  {
    if plan != [] {
      var col := Lookup(cols, name).value;
      var s := Step(cols, plan[0]);
      ApplyOpsAppend(col, plan[0].ops, AllOps(plan[1..]));
      if s.outcome.Completed? {
        RunOneColumn(s.cols, plan[1..], name);
      }
    }
  }

  /** A run keeps the frame well formed: same labels, same number of rows. */
  lemma RunWellFormed(cols: seq<Column>, plan: seq<Assignment>, rows: nat)
    requires WellFormed(cols, rows)
    ensures WellFormed(Run(cols, plan).cols, rows)
  {
    var r := Run(cols, plan).cols;
    RunShape(cols, plan);
    forall i, j | 0 <= i < j < |r| ensures r[i].name != r[j].name {
      assert Names(r)[i] == Names(cols)[i] && Names(r)[j] == Names(cols)[j];
    }
  }

  lemma StepWellFormed(cols: seq<Column>, a: Assignment, rows: nat)
    requires WellFormed(cols, rows)
    ensures WellFormed(Step(cols, a).cols, rows)
  {
    assert Step(cols, a) == Run(cols, [a]);
    RunWellFormed(cols, [a], rows);
  }

  /** The pandas DataFrame the cleaning functions receive and mutate. */
  class Table {
    var columns: seq<Column>
    var rows: nat

    ghost predicate Valid()
      reads this
    {
      WellFormed(columns, rows)
    }

    constructor (columns: seq<Column>, rows: nat)
      requires WellFormed(columns, rows)
      ensures Valid() && this.columns == columns && this.rows == rows
    {
      this.columns := columns;
      this.rows := rows;
    }

    /** `drop(name, axis=1, inplace=True)`; pandas raises on an absent label,
        so the caller checks for it first. */
    method Drop(name: string)
      requires Valid() && name in Names(columns)
      modifies this
      ensures Valid() && rows == old(rows)
      ensures columns == DropColumn(old(columns), name)
    {
      DropWellFormed(columns, name, rows);
      columns := DropColumn(columns, name);
    }

    /** `data[a.column] = data[a.column].<ops>`, in place. */
    method Assign(a: Assignment) returns (outcome: Outcome)
      requires Valid()
      modifies this
      ensures Valid() && rows == old(rows)
      ensures RunResult(columns, outcome) == Step(old(columns), a)
    {
      StepWellFormed(columns, a, rows);
      var k := IndexOf(Names(columns), a.column);
      if k.None? {
        return Failed(KeyError(a.column));
      }
      var c := ApplyOps(columns[k.value], a.ops);
      if c.Failure? {
        return Failed(c.error);
      }
      columns := columns[k.value := c.value];
      outcome := Completed;
    }
  }
}
