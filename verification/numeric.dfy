/** `data_cleaning_numerical` (src/data/data_cleaning.py:34-57): drops the
    leftover index column and turns the textual `date`, `price` and
    `mileage` columns into float columns, fail-soft. */
module NumericCleaning {
  import opened Cells
  import opened Frame

  /** The row-index column a previous `to_csv` left behind. */
  const IndexColumn: string := "Unnamed: 0"
  const Date: string := "date"
  const Price: string := "price"
  const Mileage: string := "mileage"

  /** `column_clean`: the columns stripped of currency decoration, in order. */
  const CurrencyColumns: seq<string> := [Price, Mileage]

  /** `data['date'] = data['date'].replace('na', np.nan).astype(float)`:
      one assignment, so a failing parse assigns nothing. */
  function DateAssignment(): Assignment {
    Assignment(Date, [ReplaceValue(NA, Missing), ToFloat])
  }

  /** The body of the `for col in column_clean` loop: four assignments, each
      visible to the caller once it has run. */
  function CurrencyAssignments(col: string): seq<Assignment> {
    [ Assignment(col, [ReplaceValue(NA, Missing)]),
      Assignment(col, [RemoveChar(',')]),
      Assignment(col, [RemoveChar('$')]),
      Assignment(col, [ToFloat]) ]
  }

  function CurrencyPlan(cols: seq<string>): seq<Assignment>
    decreases |cols|
  {
    if cols == [] then [] else CurrencyAssignments(cols[0]) + CurrencyPlan(cols[1..])
  }

  /** The assignments of the `try` block after the drop, in program order. */
  function NumericPlan(): seq<Assignment> {
    [DateAssignment()] + CurrencyPlan(CurrencyColumns)
  }

  /** What `data_cleaning_numerical` leaves in the frame, and whether it
      completed or logged an error: the drop, then the plan up to the first
      statement that raises. */
  function NumericClean(cols: seq<Column>): RunResult {
    Run(DropColumn(cols, IndexColumn), NumericPlan())
  }

  /** `data_cleaning_numerical(data)`: mutates `t` in place and never raises;
      `outcome` tells whether it logged completion or an error. */
  method CleanNumerical(t: Table) returns (outcome: Outcome)
    requires t.Valid()
    modifies t
    ensures t.Valid() && t.rows == old(t.rows)
    ensures RunResult(t.columns, outcome) == NumericClean(old(t.columns))
  {
    DropColumnSpec(t.columns, IndexColumn);
    if IndexColumn in Names(t.columns) {
      t.Drop(IndexColumn);
    }
    ghost var goal := NumericClean(old(t.columns));
    assert NumericPlan()[0] == DateAssignment();
    assert NumericPlan()[1..] == CurrencyPlan(CurrencyColumns);
    outcome := t.Assign(DateAssignment());
    if outcome.Failed? {
      return;
    }
    var i := 0;
    while i < |CurrencyColumns|
      invariant 0 <= i <= |CurrencyColumns|
      invariant t.Valid() && t.rows == old(t.rows)
      invariant outcome == Completed
      invariant Run(t.columns, CurrencyPlan(CurrencyColumns[i..])) == goal
    {
      assert CurrencyColumns[i..][1..] == CurrencyColumns[i + 1..];
      RunAppend(t.columns, CurrencyAssignments(CurrencyColumns[i]), CurrencyPlan(CurrencyColumns[i + 1..]));
      outcome := CleanCurrencyColumn(t, CurrencyColumns[i]);
      if outcome.Failed? {
        return;
      }
      i := i + 1;
    }
  }

  /** One pass of `for col in column_clean` (lines 48-51). */
  method CleanCurrencyColumn(t: Table, col: string) returns (outcome: Outcome)
    requires t.Valid()
    modifies t
    ensures t.Valid() && t.rows == old(t.rows)
    ensures RunResult(t.columns, outcome) == Run(old(t.columns), CurrencyAssignments(col))
  {
    ghost var goal := Run(t.columns, CurrencyAssignments(col));
    ghost var todo := CurrencyAssignments(col);
    ghost var before := t.columns;
    outcome := t.Assign(Assignment(col, [ReplaceValue(NA, Missing)]));
    RunUnfold(before, todo);
    if outcome.Failed? {
      return;
    }
    todo, before := todo[1..], t.columns;
    outcome := t.Assign(Assignment(col, [RemoveChar(',')]));
    RunUnfold(before, todo);
    if outcome.Failed? {
      return;
    }
    todo, before := todo[1..], t.columns;
    outcome := t.Assign(Assignment(col, [RemoveChar('$')]));
    RunUnfold(before, todo);
    if outcome.Failed? {
      return;
    }
    todo, before := todo[1..], t.columns;
    outcome := t.Assign(Assignment(col, [ToFloat]));
    RunUnfold(before, todo);
    if outcome.Failed? {
      return;
    }
    assert todo[1..] == [];
  }

  /** What line 46 makes of one `date` cell; None where `astype(float)` raises. */
  function DateCell(c: Cell): Option<Cell> {
    match c
    case Str(s) =>
      if s == NA then Some(Missing)
      else
        (match ParseNumber(s)
         case Some(v) => Some(Num(v))
         case None => None)
    case Num(n) => Some(Num(n))
    case Missing => Some(Missing)
  }

  /** What lines 48-51 make of one `price` or `mileage` cell: the sentinel
      becomes NaN, other text loses every ',' and '$' and is parsed, and a
      value that is no string is NaN after `.str`. None where parsing raises. */
  function CurrencyCell(c: Cell): Option<Cell> {
    match c
    case Str(s) =>
      if s == NA then Some(Missing)
      else
        (match ParseNumber(Remove(Remove(s, ','), '$'))
         case Some(v) => Some(Num(v))
         case None => None)
    case _ => Some(Missing)
  }

  /** `after` is the float column `before` becomes when `f` converts each cell. */
  predicate ConvertedBy(after: Option<Column>, before: Column, f: Cell -> Option<Cell>) {
    && after.Some?
    && after.value.name == before.name
    && after.value.dtype == Numeric
    && |after.value.cells| == |before.cells|
    && forall i :: 0 <= i < |before.cells| ==> f(before.cells[i]) == Some(after.value.cells[i])
  }

  /** Line 46 cannot raise on this column. */
  predicate DateReady(c: Option<Column>) {
    c.Some? && forall i :: 0 <= i < |c.value.cells| ==> DateCell(c.value.cells[i]).Some?
  }

  /** Lines 48-51 cannot raise on this column: it exists, `.str` is usable
      once the sentinel is replaced, and every cleaned value parses. */
  predicate CurrencyReady(c: Option<Column>) {
    && c.Some?
    && StrAccessorApplies(c.value.(cells := ReplaceCells(c.value.cells, NA, Missing)))
    && forall i :: 0 <= i < |c.value.cells| ==> CurrencyCell(c.value.cells[i]).Some?
  }

  /** Any amount written as `$` followed by its digits comes out as that amount. */
  lemma {:induction false} CurrencyRoundTrip(n: nat)
    ensures CurrencyCell(Str("$" + ShowNat(n))) == Some(Num(n))
  {
    var digits := ShowNat(n);
    StripDollar(digits);
    assert ("$" + digits)[0] != NA[0];
    ParseShowNat(n);
  }

  lemma StripDollar(digits: string)
    requires AllDigits(digits)
    ensures Remove(Remove("$" + digits, ','), '$') == digits
  {
    var s := "$" + digits;
    assert s[0] == '$' && s[1..] == digits;
    assert ',' !in s by {
      assert forall i :: 0 <= i < |s| ==> s[i] == '$' || IsDigit(s[i]);
    }
    assert '$' !in digits by {
      assert forall i :: 0 <= i < |digits| ==> IsDigit(digits[i]);
    }
    RemoveSpec(s, ',');
    RemoveSpec(digits, '$');
    assert Remove(s, '$') == [] + Remove(digits, '$');
  }

  /** The whole-cell sentinel "na" becomes NaN under both column rules. */
  lemma SentinelCell()
    ensures DateCell(Str(NA)) == Some(Missing)
    ensures CurrencyCell(Str(NA)) == Some(Missing)
  {
  }

  /** An amount written like "$12,345" (a dollar sign, a digit group, a
      thousands separator and another digit group) parses to the value of
      its digits. */
  lemma CurrencyThousands(thousands: string, units: string)
    requires |thousands| > 0 && AllDigits(thousands) && AllDigits(units)
    ensures AllDigits(thousands + units)
    ensures CurrencyCell(Str("$" + thousands + "," + units)) == Some(Num(DigitsValue(thousands + units)))
  {
    var digits := thousands + units;
    assert AllDigits(digits) by {
      assert forall i :: 0 <= i < |digits| ==> IsDigit(digits[i]);
    }
    StripThousands(thousands, units);
    var text := "$" + thousands + "," + units;
    assert text[0] != NA[0];
  }

  /** `$` and one thousands separator around two digit groups are stripped. */
  lemma StripThousands(thousands: string, units: string)
    requires AllDigits(thousands) && AllDigits(units)
    ensures Remove(Remove("$" + thousands + "," + units, ','), '$') == thousands + units
  {
    var digits := thousands + units;
    assert AllDigits(digits) by {
      assert forall i :: 0 <= i < |digits| ==> IsDigit(digits[i]);
    }
    StripComma(thousands, units);
    var dollar := "$";
    NoDigitRemoved(dollar, digits, '$');
    assert Remove(dollar, '$') == [];
    assert Remove(dollar + digits, '$') == [] + digits;
  }

  lemma StripComma(thousands: string, units: string)
    requires AllDigits(thousands) && AllDigits(units)
    ensures Remove("$" + thousands + "," + units, ',') == "$" + (thousands + units)
  {
    StripSeparator('$', ',', thousands, units);
  }

  /** Removing the separator between two digit groups joins them. */
  lemma StripSeparator(mark: char, sep: char, left: string, right: string)
    requires AllDigits(left) && AllDigits(right) && !IsDigit(sep) && mark != sep
    ensures Remove([mark] + left + [sep] + right, sep) == [mark] + (left + right)
  {
    var text := ([mark] + left) + ([sep] + right);
    assert [mark] + left + [sep] + right == text;
    assert Remove([mark] + left, sep) == [mark] + left by {
      NoDigitRemoved([mark], left, sep);
      assert Remove([mark], sep) == [mark] + Remove([], sep);
    }
    assert Remove([sep] + right, sep) == right by {
      NoDigitRemoved([sep], right, sep);
      assert Remove([sep], sep) == [] + Remove([], sep);
    }
    RemoveConcat([mark] + left, [sep] + right, sep);
    assert ([mark] + left) + right == [mark] + (left + right);
  }

  /** Digits after a prefix survive removing a non-digit. */
  lemma NoDigitRemoved(prefix: string, digits: string, ch: char)
    requires AllDigits(digits) && !IsDigit(ch)
    ensures Remove(prefix + digits, ch) == Remove(prefix, ch) + digits
  {
    RemoveConcat(prefix, digits, ch);
    RemoveSpec(digits, ch);
    assert ch !in digits by {
      assert forall i :: 0 <= i < |digits| ==> IsDigit(digits[i]);
    }
  }

  /** The sentinel is recognised only as the whole raw cell: a decorated
      sentinel such as "$na" reaches the parse as "na" and makes it raise. */
  lemma DecoratedSentinel(s: string)
    requires s != NA && Remove(Remove(s, ','), '$') == NA
    ensures CurrencyCell(Str(s)) == None
  {
    assert !IsDigit(NA[0]);
  }

  /** Worked cases of the date rule: no stripping, so a `,` makes the parse fail. */
  lemma DateExample()
    ensures DateCell(Str("2,019")) == None
    ensures DateCell(Str("2019")) == Some(Num(2019))
  {
    assert !IsDigit("2,019"[1]);
    assert ShowNat(2019) == "2019";
    ParseShowNat(2019);
  }

  lemma DateCellSteps(c: Cell)
    ensures ParseCell(ReplaceCell(c, NA, Missing)) == DateCell(c)
  {
  }

  lemma CurrencyCellSteps(c: Cell)
    ensures ParseCell(StripCell(StripCell(ReplaceCell(c, NA, Missing), ','), '$')) == CurrencyCell(c)
  {
  }

  /** Line 46 on its own: it completes iff every `date` cell converts, and
      then `date` is the converted column; on failure nothing changes. */
  lemma DateStepEffect(c: seq<Column>)
    ensures var r := Run(c, [DateAssignment()]);
      && (r.outcome.Completed? <==> DateReady(Lookup(c, Date)))
      && (r.outcome.Completed? ==> ConvertedBy(Lookup(r.cols, Date), Lookup(c, Date).value, DateCell))
      && (r.outcome.Failed? ==> r.cols == c)
  {
    var a := DateAssignment();
    var r := Run(c, [a]);
    assert [a][1..] == [];
    match Lookup(c, Date)
    case None =>
    case Some(col) =>
      RunOneColumn(c, [a], Date);
      assert AllOps([a]) == a.ops + [];
      var c1 := col.(cells := ReplaceCells(col.cells, NA, Missing));
      assert a.ops[1..] == [ToFloat];
      assert ApplyOps(col, a.ops) == ApplyOps(c1, [ToFloat]);
      assert ApplyOps(c1, [ToFloat]) == ApplyOp(c1, ToFloat);
      forall i | 0 <= i < |col.cells| ensures ParseCell(c1.cells[i]) == DateCell(col.cells[i]) {
        DateCellSteps(col.cells[i]);
      }
  }

  /** The operations of one pass of the loop, as a single chain. */
  lemma CurrencyChain(name: string)
    ensures AllOps(CurrencyAssignments(name)) ==
      [ReplaceValue(NA, Missing), RemoveChar(','), RemoveChar('$'), ToFloat]
  {
    var a := CurrencyAssignments(name);
    assert a[1..][1..][1..][1..] == [];
    assert AllOps(a[1..][1..][1..]) == [ToFloat] + [];
    assert AllOps(a[1..][1..]) == [RemoveChar('$')] + [ToFloat];
    assert AllOps(a[1..]) == [RemoveChar(',')] + [RemoveChar('$'), ToFloat];
  }

  /** How a pass of lines 48-51 on `name` raised, and what it left in the
      column, given the column it started from: KeyError at line 48 if the
      column is absent; a `.str` error at line 49 if the sentinel-replaced
      column refuses `.str`, which leaves that column; otherwise a ValueError
      at line 51, which leaves the column with every ',' and '$' removed. */
  predicate FailedPass(r: RunResult, before: Option<Column>, name: string) {
    match before
    case None => r.outcome == Failed(KeyError(name)) && Lookup(r.cols, name).None?
    case Some(col) =>
      var col1 := col.(cells := ReplaceCells(col.cells, NA, Missing));
      if !StrAccessorApplies(col1) then
        r.outcome == Failed(StrAccessorError(name)) && Lookup(r.cols, name) == Some(col1)
      else
        && r.outcome.Failed? && r.outcome.error.ValueError?
        && Lookup(r.cols, name) == Some(col1.(cells := StripCells(StripCells(col1.cells, ','), '$')))
  }

  /** One pass of the `for col in column_clean` loop: it completes iff the
      column is ready, and then the column is the converted one; when it
      raises, the error and the column left behind are those of FailedPass. */
  lemma CurrencyStepsEffect(c: seq<Column>, name: string)
    ensures var r := Run(c, CurrencyAssignments(name));
      && (r.outcome.Completed? <==> CurrencyReady(Lookup(c, name)))
      && (r.outcome.Completed? ==> ConvertedBy(Lookup(r.cols, name), Lookup(c, name).value, CurrencyCell))
      && (r.outcome.Failed? ==> FailedPass(r, Lookup(c, name), name))
  {
    CurrencyFailure(c, name);
    var a := CurrencyAssignments(name);
    var r := Run(c, a);
    match Lookup(c, name)
    case None =>
      assert Step(c, a[0]).outcome.Failed?;
    case Some(col) =>
      RunOneColumn(c, a, name);
      CurrencyChain(name);
      var ops := AllOps(a);
      var col1 := col.(cells := ReplaceCells(col.cells, NA, Missing));
      assert ops[1..] == [RemoveChar(','), RemoveChar('$'), ToFloat];
      assert ApplyOps(col, ops) == ApplyOps(col1, ops[1..]);
      if StrAccessorApplies(col1) {
        var col2 := col1.(cells := StripCells(col1.cells, ','));
        assert ops[1..][1..] == [RemoveChar('$'), ToFloat];
        assert ApplyOps(col1, ops[1..]) == ApplyOps(col2, ops[1..][1..]);
        assert !HasNumber(col2.cells);
        var col3 := col2.(cells := StripCells(col2.cells, '$'));
        assert ops[1..][1..][1..] == [ToFloat];
        assert ApplyOps(col2, ops[1..][1..]) == ApplyOps(col3, [ToFloat]);
        assert ApplyOps(col3, [ToFloat]) == ApplyOp(col3, ToFloat);
        forall i | 0 <= i < |col.cells| ensures ParseCell(col3.cells[i]) == CurrencyCell(col.cells[i]) {
          CurrencyCellSteps(col.cells[i]);
        }
      }
  }

  /** The failure half of CurrencyStepsEffect, statement by statement. */
  lemma CurrencyFailure(c: seq<Column>, name: string)
    ensures var r := Run(c, CurrencyAssignments(name));
      r.outcome.Failed? ==> FailedPass(r, Lookup(c, name), name)
  {
    var a := CurrencyAssignments(name);
    RunUnfold(c, a);
    if Lookup(c, name).Some? {
      var col := Lookup(c, name).value;
      var col1 := col.(cells := ReplaceCells(col.cells, NA, Missing));
      StepOne(c, name, ReplaceValue(NA, Missing));
      var s1 := Step(c, a[0]);
      StripFailure(s1.cols, name, col1);
      assert a[1..] == StripAssignments(name);
    }
  }

  /** Lines 49-51 as statements. */
  function StripAssignments(name: string): seq<Assignment> {
    [Assignment(name, [RemoveChar(',')]), Assignment(name, [RemoveChar('$')]), Assignment(name, [ToFloat])]
  }

  lemma StripFailure(c: seq<Column>, name: string, col1: Column)
    requires Lookup(c, name) == Some(col1)
    ensures var r := Run(c, StripAssignments(name));
      r.outcome.Failed? ==>
        if !StrAccessorApplies(col1) then
          r.outcome == Failed(StrAccessorError(name)) && Lookup(r.cols, name) == Some(col1)
        else
          && r.outcome.error.ValueError?
          && Lookup(r.cols, name) == Some(col1.(cells := StripCells(StripCells(col1.cells, ','), '$')))
  {
    var a := StripAssignments(name);
    RunUnfold(c, a);
    StepOne(c, name, RemoveChar(','));
    if StrAccessorApplies(col1) {
      var col2 := col1.(cells := StripCells(col1.cells, ','));
      var s2 := Step(c, a[0]);
      assert !HasNumber(col2.cells);
      ParseFailure(s2.cols, name, col2);
      assert a[1..] == [Assignment(name, [RemoveChar('$')]), Assignment(name, [ToFloat])];
    }
  }

  lemma ParseFailure(c: seq<Column>, name: string, col2: Column)
    requires Lookup(c, name) == Some(col2) && col2.dtype == Object && !HasNumber(col2.cells)
    ensures var r := Run(c, [Assignment(name, [RemoveChar('$')]), Assignment(name, [ToFloat])]);
      r.outcome.Failed? ==>
        r.outcome.error.ValueError? && Lookup(r.cols, name) == Some(col2.(cells := StripCells(col2.cells, '$')))
  {
    var a := [Assignment(name, [RemoveChar('$')]), Assignment(name, [ToFloat])];
    RunUnfold(c, a);
    StepOne(c, name, RemoveChar('$'));
    var s3 := Step(c, a[0]);
    RunUnfold(s3.cols, a[1..]);
    StepOne(s3.cols, name, ToFloat);
    assert a[1..][1..] == [];
  }

  /** A single-operation statement on a present column. */
  lemma StepOne(c: seq<Column>, name: string, op: ColumnOp)
    requires Lookup(c, name).Some?
    ensures var s := Step(c, Assignment(name, [op]));
      match ApplyOp(Lookup(c, name).value, op)
      case Success(col) => s.outcome == Completed && Lookup(s.cols, name) == Some(col)
      case Failure(e) => s == RunResult(c, Failed(e))
  {
    var col := Lookup(c, name).value;
    var ops := [op];
    assert ops[1..] == [];
    assert ApplyOps(col, ops) == ApplyOp(col, op);
  }

  lemma DateFrame(c: seq<Column>, other: string)
    requires other != Date
    ensures Lookup(Run(c, [DateAssignment()]).cols, other) == Lookup(c, other)
  {
    RunFrame(c, [DateAssignment()], other);
  }

  lemma CurrencyFrame(c: seq<Column>, name: string, other: string)
    requires name != other
    ensures Lookup(Run(c, CurrencyAssignments(name)).cols, other) == Lookup(c, other)
  {
    RunFrame(c, CurrencyAssignments(name), other);
  }

  /** The numeric cleaner as the drop followed by its three stages, each
      reached only if the one before it completed. */
  lemma NumericCleanStages(cols: seq<Column>)
    ensures NumericClean(cols) ==
      var r1 := Run(DropColumn(cols, IndexColumn), [DateAssignment()]);
      if r1.outcome.Failed? then r1
      else
        var r2 := Run(r1.cols, CurrencyAssignments(Price));
        if r2.outcome.Failed? then r2 else Run(r2.cols, CurrencyAssignments(Mileage))
  {
    var d := DropColumn(cols, IndexColumn);
    assert CurrencyColumns[1..] == [Mileage];
    assert CurrencyPlan([Mileage]) == CurrencyAssignments(Mileage) + [];
    assert CurrencyAssignments(Mileage) + [] == CurrencyAssignments(Mileage);
    RunAppend(d, [DateAssignment()], CurrencyPlan(CurrencyColumns));
    var r1 := Run(d, [DateAssignment()]);
    RunAppend(r1.cols, CurrencyAssignments(Price), CurrencyAssignments(Mileage));
  }

  /** Line 46 and the loop cannot raise: `date`, `price` and `mileage` are all ready. */
  predicate NumericReady(cols: seq<Column>) {
    && DateReady(Lookup(cols, Date))
    && CurrencyReady(Lookup(cols, Price))
    && CurrencyReady(Lookup(cols, Mileage))
  }

  /** The cleaner completes iff the three columns are ready, and then each is
      the float column its cells convert to. */
  lemma NumericCleanEffect(cols: seq<Column>)
    requires DistinctNames(cols)
    ensures var r := NumericClean(cols);
      && (r.outcome.Completed? <==> NumericReady(cols))
      && (r.outcome.Completed? ==>
            && ConvertedBy(Lookup(r.cols, Date), Lookup(cols, Date).value, DateCell)
            && ConvertedBy(Lookup(r.cols, Price), Lookup(cols, Price).value, CurrencyCell)
            && ConvertedBy(Lookup(r.cols, Mileage), Lookup(cols, Mileage).value, CurrencyCell))
  {
    NumericCleanStages(cols);
    var d := DropColumn(cols, IndexColumn);
    DropLookup(cols, IndexColumn, Date);
    DropLookup(cols, IndexColumn, Price);
    DropLookup(cols, IndexColumn, Mileage);
    DateStepEffect(d);
    var r1 := Run(d, [DateAssignment()]);
    DateFrame(d, Price);
    DateFrame(d, Mileage);
    CurrencyStepsEffect(r1.cols, Price);
    var r2 := Run(r1.cols, CurrencyAssignments(Price));
    CurrencyFrame(r1.cols, Price, Date);
    CurrencyFrame(r1.cols, Price, Mileage);
    CurrencyStepsEffect(r2.cols, Mileage);
    CurrencyFrame(r2.cols, Mileage, Date);
    CurrencyFrame(r2.cols, Mileage, Price);
  }

  /** Fail-soft, stage by stage: a failure on `date` leaves only the drop; a
      failure on `price` leaves `date` converted, `price` as FailedPass says
      and `mileage` as it came; a failure on `mileage` leaves `date` and
      `price` converted and `mileage` as FailedPass says. */
  lemma NumericFailSoft(cols: seq<Column>)
    requires DistinctNames(cols)
    ensures var r := NumericClean(cols);
      && (!DateReady(Lookup(cols, Date)) ==>
            r.outcome.Failed? && r.cols == DropColumn(cols, IndexColumn))
      && (DateReady(Lookup(cols, Date)) && !CurrencyReady(Lookup(cols, Price)) ==>
            && r.outcome.Failed?
            && ConvertedBy(Lookup(r.cols, Date), Lookup(cols, Date).value, DateCell)
            && FailedPass(r, Lookup(cols, Price), Price)
            && Lookup(r.cols, Mileage) == Lookup(cols, Mileage))
      && (DateReady(Lookup(cols, Date)) && CurrencyReady(Lookup(cols, Price)) &&
          !CurrencyReady(Lookup(cols, Mileage)) ==>
            && r.outcome.Failed?
            && ConvertedBy(Lookup(r.cols, Date), Lookup(cols, Date).value, DateCell)
            && ConvertedBy(Lookup(r.cols, Price), Lookup(cols, Price).value, CurrencyCell)
            && FailedPass(r, Lookup(cols, Mileage), Mileage))
  {
    NumericCleanStages(cols);
    var d := DropColumn(cols, IndexColumn);
    DropLookup(cols, IndexColumn, Date);
    DropLookup(cols, IndexColumn, Price);
    DropLookup(cols, IndexColumn, Mileage);
    DateStepEffect(d);
    var r1 := Run(d, [DateAssignment()]);
    DateFrame(d, Price);
    DateFrame(d, Mileage);
    CurrencyStepsEffect(r1.cols, Price);
    var r2 := Run(r1.cols, CurrencyAssignments(Price));
    CurrencyFrame(r1.cols, Price, Date);
    CurrencyFrame(r1.cols, Price, Mileage);
    CurrencyStepsEffect(r2.cols, Mileage);
    CurrencyFrame(r2.cols, Mileage, Date);
    CurrencyFrame(r2.cols, Mileage, Price);
  }

  /** Whatever happens: the rows and the labels other than the index column
      survive, the index column is gone, and every column but the three
      numeric ones is exactly as it came in. */
  lemma NumericCleanFrame(cols: seq<Column>, rows: nat)
    requires WellFormed(cols, rows)
    ensures var r := NumericClean(cols);
      && WellFormed(r.cols, rows)
      && Names(r.cols) == Names(DropColumn(cols, IndexColumn))
      && IndexColumn !in Names(r.cols)
      && forall n :: n != IndexColumn && n != Date && n != Price && n != Mileage ==>
           Lookup(r.cols, n) == Lookup(cols, n)
  {
    var d := DropColumn(cols, IndexColumn);
    DropWellFormed(cols, IndexColumn, rows);
    RunWellFormed(d, NumericPlan(), rows);
    var r := NumericClean(cols);
    DropColumnSpec(cols, IndexColumn);
    assert IndexColumn !in Names(d);
    NumericCleanStages(cols);
    var r1 := Run(d, [DateAssignment()]);
    var r2 := Run(r1.cols, CurrencyAssignments(Price));
    forall n | n != IndexColumn && n != Date && n != Price && n != Mileage
      ensures Lookup(r.cols, n) == Lookup(cols, n)
    {
      DropLookup(cols, IndexColumn, n);
      DateFrame(d, n);
      CurrencyFrame(r1.cols, Price, n);
      CurrencyFrame(r2.cols, Mileage, n);
    }
  }
}
