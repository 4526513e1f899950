/** The cleaning part of the script (src/data/data_cleaning.py:119-122):
    numerical cleaning, then the split of the labels by dtype, then
    categorical cleaning of the object-dtype columns. */
module CleaningPipeline {
  import opened Cells
  import opened Frame
  import opened NumericCleaning
  import opened ColumnClassification
  import opened CategoricalCleaning

  /** The frame after lines 120-122. */
  function CleanDataset(cols: seq<Column>): seq<Column> {
    var numeric := NumericClean(cols);
    var division := DivideColumns(Schema(numeric.cols));
    CategoricalClean(numeric.cols, division.1).cols
  }

  /** Lines 120-122 on the frame `t`: both cleaners log their outcome and
      never raise, so their outcomes are not passed on. */
  method CleanData(t: Table) returns (numerical: seq<string>, categorical: seq<string>)
    requires t.Valid()
    modifies t
    ensures t.Valid() && t.rows == old(t.rows)
    ensures (numerical, categorical) == DivideColumns(Schema(NumericClean(old(t.columns)).cols))
    ensures t.columns == CleanDataset(old(t.columns))
  {
    var numericOutcome := CleanNumerical(t);
    var division := DivideColumns(Schema(t.columns));
    numerical, categorical := division.0, division.1;
    var categoricalOutcome := CleanCategorical(t, categorical);
  }

  /** No sentinel left: "0" in `transmission`, "na" in any other column. */
  predicate SentinelFree(col: Column) {
    if col.name == Transmission then Str("0") !in col.cells else Str(NA) !in col.cells
  }

  lemma CleanedSentinelFree(col: Column)
    ensures SentinelFree(CleanedColumn(col))
  {
    var cells := CleanedColumn(col).cells;
    if col.name == Transmission {
      assert forall i :: 0 <= i < |cells| ==> cells[i] != Str("0");
    } else {
      assert forall i :: 0 <= i < |cells| ==> cells[i] != Str(NA);
    }
  }

  /** The categorical cleaner always completes on the labels it is given,
      and leaves each object-dtype column cleaned and every other column
      as the numeric cleaner left it. */
  lemma CleanDatasetLookup(cols: seq<Column>, rows: nat, x: string)
    requires WellFormed(cols, rows)
    ensures var numeric := NumericClean(cols);
      var categorical := DivideColumns(Schema(numeric.cols)).1;
      && CategoricalClean(numeric.cols, categorical).outcome == Completed
      && Lookup(CleanDataset(cols), x) ==
           if x in categorical then Cleaned(Lookup(numeric.cols, x)) else Lookup(numeric.cols, x)
  {
    var numeric := NumericClean(cols);
    NumericCleanFrame(cols, rows);
    SchemaLabels(numeric.cols);
    var categorical := DivideColumns(Schema(numeric.cols)).1;
    CategoricalCompletes(numeric.cols, categorical);
    var plan := CategoricalPlan(categorical);
    FailSoft(numeric.cols, plan);
    CategoricalEffect(numeric.cols, categorical, x);
    assert categorical[..|categorical|] == categorical;
  }

  /** Whatever the numeric cleaner did: the result is a well-formed frame
      with the same rows, the index column is gone, the labels keep their
      dtypes through categorical cleaning, and every categorical column is
      free of its sentinel. */
  lemma CleanDatasetInvariants(cols: seq<Column>, rows: nat)
    requires WellFormed(cols, rows)
    ensures var numeric := NumericClean(cols);
      var categorical := DivideColumns(Schema(numeric.cols)).1;
      var final := CleanDataset(cols);
      && WellFormed(final, rows)
      && Names(final) == Names(DropColumn(cols, IndexColumn))
      && IndexColumn !in Names(final)
      && Schema(final) == Schema(numeric.cols)
      && forall x :: x in categorical ==> Lookup(final, x).Some? && SentinelFree(Lookup(final, x).value)
  {
    var numeric := NumericClean(cols);
    NumericCleanFrame(cols, rows);
    var categorical := DivideColumns(Schema(numeric.cols)).1;
    RunWellFormed(numeric.cols, CategoricalPlan(categorical), rows);
    CategoricalSchema(numeric.cols, categorical);
    forall x | x in categorical ensures Lookup(CleanDataset(cols), x).Some? && SentinelFree(Lookup(CleanDataset(cols), x).value) {
      CleanDatasetLookup(cols, rows, x);
      SchemaLabels(numeric.cols);
      CleanedSentinelFree(Lookup(numeric.cols, x).value);
    }
  }

  /** A numeric column is not categorical, so categorical cleaning leaves it alone. */
  lemma NumericColumnKept(cols: seq<Column>, rows: nat, x: string)
    requires WellFormed(cols, rows)
    requires var found := Lookup(NumericClean(cols).cols, x); found.Some? && found.value.dtype == Numeric
    ensures Lookup(CleanDataset(cols), x) == Lookup(NumericClean(cols).cols, x)
  {
    var numeric := NumericClean(cols);
    NumericCleanFrame(cols, rows);
    CategoricalIffObject(numeric.cols, x);
    CleanDatasetLookup(cols, rows, x);
  }

  /** When `date`, `price` and `mileage` are ready, the numeric cleaner
      completes and they end up as float columns converted cell by cell
      from the raw ones. */
  lemma CleanDatasetNumeric(cols: seq<Column>, rows: nat)
    requires WellFormed(cols, rows)
    requires NumericReady(cols)
    ensures var final := CleanDataset(cols);
      && NumericClean(cols).outcome.Completed?
      && ConvertedBy(Lookup(final, Date), Lookup(cols, Date).value, DateCell)
      && ConvertedBy(Lookup(final, Price), Lookup(cols, Price).value, CurrencyCell)
      && ConvertedBy(Lookup(final, Mileage), Lookup(cols, Mileage).value, CurrencyCell)
  {
    NumericCleanEffect(cols);
    ConvertedKept(cols, rows, Date, Lookup(cols, Date).value, DateCell);
    ConvertedKept(cols, rows, Price, Lookup(cols, Price).value, CurrencyCell);
    ConvertedKept(cols, rows, Mileage, Lookup(cols, Mileage).value, CurrencyCell);
  }

  lemma ConvertedKept(cols: seq<Column>, rows: nat, x: string, before: Column, f: Cell -> Option<Cell>)
    requires WellFormed(cols, rows)
    requires ConvertedBy(Lookup(NumericClean(cols).cols, x), before, f)
    ensures ConvertedBy(Lookup(CleanDataset(cols), x), before, f)
  {
    NumericColumnKept(cols, rows, x);
  }

  /** Line 46 on a `date` column that is already float changes nothing. */
  lemma DateOnFloat(c: seq<Column>)
    requires var found := Lookup(c, Date); found.Some? && found.value.dtype == Numeric && !HasText(found.value.cells)
    ensures Run(c, [DateAssignment()]) == RunResult(c, Completed)
  {
    var a := DateAssignment();
    var col := Lookup(c, Date).value;
    var k := IndexOf(Names(c), Date).value;
    assert c[k] == col;
    assert ReplaceCells(col.cells, NA, Missing) == col.cells;
    assert a.ops[1..] == [ToFloat];
    assert ApplyOps(col, a.ops) == ApplyOps(col, [ToFloat]);
    assert ApplyOps(col, [ToFloat]) == ApplyOp(col, ToFloat);
    var parsed := ParseCells(col.cells);
    assert parsed.value == col.cells;
    assert c[k := col] == c;
    assert [a][1..] == [];
  }

  /** Lines 48-49 on a `price` column that is already float: `.str` raises
      and nothing changes. */
  lemma PriceOnFloat(c: seq<Column>)
    requires var found := Lookup(c, Price); found.Some? && found.value.dtype == Numeric && !HasText(found.value.cells)
    ensures Run(c, CurrencyAssignments(Price)) == RunResult(c, Failed(StrAccessorError(Price)))
  {
    var a := CurrencyAssignments(Price);
    var col := Lookup(c, Price).value;
    var k := IndexOf(Names(c), Price).value;
    assert c[k] == col;
    assert ReplaceCells(col.cells, NA, Missing) == col.cells;
    assert c[k := col] == c;
    assert a[0].ops == [ReplaceValue(NA, Missing)] && a[0].ops[1..] == [];
    assert ApplyOps(col, a[0].ops) == Success(col);
    var s := Step(c, a[0]);
    assert s == RunResult(c, Completed);
    assert a[1..][0] == Assignment(Price, [RemoveChar(',')]);
    assert Step(c, a[1..][0]) == RunResult(c, Failed(StrAccessorError(Price)));
  }

  /** On a frame without the index column whose `date` and `price` are
      already float, the numeric cleaner keeps `date`, raises at line 49 on
      `price`, and changes nothing: float columns do not imply completion. */
  lemma NumericOnFloat(c: seq<Column>)
    requires IndexColumn !in Names(c)
    requires var found := Lookup(c, Date); found.Some? && found.value.dtype == Numeric && !HasText(found.value.cells)
    requires var found := Lookup(c, Price); found.Some? && found.value.dtype == Numeric && !HasText(found.value.cells)
    ensures NumericClean(c) == RunResult(c, Failed(StrAccessorError(Price)))
  {
    DropColumnSpec(c, IndexColumn);
    NumericCleanStages(c);
    DateOnFloat(c);
    PriceOnFloat(c);
  }

  /** Cleaning a frame the numeric cleaner completed on a second time
      changes nothing: `date` is float already, `.str` raises on the float
      `price` column before anything else changes, the labels split the
      same way, and categorical cleaning is idempotent. */
  lemma CleanDatasetIdempotent(cols: seq<Column>, rows: nat)
    requires WellFormed(cols, rows)
    requires NumericClean(cols).outcome.Completed?
    ensures CleanDataset(CleanDataset(cols)) == CleanDataset(cols)
  {
    var numeric := NumericClean(cols);
    var categorical := DivideColumns(Schema(numeric.cols)).1;
    var final := CleanDataset(cols);
    CleanDatasetInvariants(cols, rows);
    NumericCleanEffect(cols);
    NumericColumnKept(cols, rows, Date);
    NumericColumnKept(cols, rows, Price);
    var dateCol, priceCol := Lookup(final, Date).value, Lookup(final, Price).value;
    assert dateCol in final && priceCol in final;
    assert Consistent(dateCol) && Consistent(priceCol);
    // The second numeric run: no index column to drop, `date` kept, `price` raises.
    NumericOnFloat(final);
    // The same split, and categorical cleaning a second time.
    assert DivideColumns(Schema(final)).1 == categorical;
    CategoricalIdempotent(numeric.cols, categorical);
  }
}
