/** Cells of a data-frame column, and the per-cell conversions the cleaning
    statements of src/data/data_cleaning.py apply to them. */
module Cells {

  datatype Option<T> = None | Some(value: T)

  datatype Result<T, E> = Success(value: T) | Failure(error: E)

  /** One cell: text as read from the CSV file, a number, or a missing value
      (NumPy's NaN, kept apart from the numbers). */
  datatype Cell = Str(text: string) | Num(number: int) | Missing

  /** The dtype of a column: pandas' object dtype ('O'), or any other dtype
      (float, int, ...), all of which the source treats alike. */
  datatype DType = Object | Numeric

  datatype Column = Column(name: string, dtype: DType, cells: seq<Cell>)

  /** The text the raw data uses for an absent value. */
  const NA: string := "na"

  predicate IsDigit(c: char) {
    '0' <= c <= '9'
  }

  predicate AllDigits(s: string) {
    forall i :: 0 <= i < |s| ==> IsDigit(s[i])
  }

  /** The value of a string of decimal digits, most significant first. */
  function DigitsValue(s: string): nat
    requires AllDigits(s)
  {
    if s == [] then 0
    else 10 * DigitsValue(s[..|s| - 1]) + (s[|s| - 1] as int - '0' as int)
  }

  /** `astype(float)` on one string, abstracted to non-empty digit strings:
      "12345" parses, everything else is refused. */
  function ParseNumber(s: string): Option<int> {
    if |s| > 0 && AllDigits(s) then Some(DigitsValue(s)) else None
  }

  /** The decimal text of a natural number: the reference that ParseNumber inverts. */
  function ShowNat(n: nat): (s: string)
    ensures |s| > 0 && AllDigits(s)
  {
    if n < 10 then [('0' as int + n) as char]
    else ShowNat(n / 10) + [('0' as int + n % 10) as char]
  }

  lemma {:induction false} ParseShowNat(n: nat)
    ensures ParseNumber(ShowNat(n)) == Some(n)
  {
    var s := ShowNat(n);
    if n >= 10 {
      ParseShowNat(n / 10);
      assert s[..|s| - 1] == ShowNat(n / 10);
      assert s[|s| - 1] as int - '0' as int == n % 10;
      assert DigitsValue(s) == 10 * (n / 10) + n % 10;
    }
  }

  /** A digit string without leading zeros is the canonical text of the value
      it parses to: ParseNumber and ShowNat are inverse on such strings. */
  lemma {:induction false} ShowParseNumber(s: string)
    requires ParseNumber(s).Some?
    requires |s| == 1 || s[0] != '0'
    ensures ShowNat(ParseNumber(s).value) == s
  {
    var v := DigitsValue(s);
    var last := s[|s| - 1];
    var p := s[..|s| - 1];
    assert AllDigits(p);
    assert v == 10 * DigitsValue(p) + (last as int - '0' as int);
    if |s| == 1 {
      assert p == [];
      assert ShowNat(v) == [last];
    } else {
      assert p[0] == s[0];
      ShowParseNumber(p);
      LeadingDigitPositive(p);
      assert v / 10 == DigitsValue(p) && v % 10 == last as int - '0' as int;
      assert ShowNat(v) == ShowNat(v / 10) + [last];
      assert s == p + [last];
    }
  }

  lemma {:induction false} LeadingDigitPositive(s: string)
    requires |s| > 0 && AllDigits(s) && s[0] != '0'
    ensures DigitsValue(s) >= 1
  {
    if |s| > 1 {
      LeadingDigitPositive(s[..|s| - 1]);
    }
  }

  /** `str.replace(ch, '')` on one string: every occurrence of `ch` removed. */
  function Remove(s: string, ch: char): string {
    if s == [] then [] else (if s[0] == ch then [] else [s[0]]) + Remove(s[1..], ch)
  }

  /** Removal deletes every `ch` and keeps every other character as often as
      it occurs; a string without `ch` comes back unchanged. */
  lemma {:induction false} RemoveSpec(s: string, ch: char)
    ensures multiset(Remove(s, ch)) == multiset(s)[ch := 0]
    ensures ch !in s ==> Remove(s, ch) == s
  {
    if s != [] {
      RemoveSpec(s[1..], ch);
      assert s == [s[0]] + s[1..];
    }
  }

  /** Removing a character distributes over concatenation. */
  lemma {:induction false} RemoveConcat(a: string, b: string, ch: char)
    ensures Remove(a + b, ch) == Remove(a, ch) + Remove(b, ch)
  {
    if a != [] {
      assert (a + b)[0] == a[0] && (a + b)[1..] == a[1..] + b;
      RemoveConcat(a[1..], b, ch);
    } else {
      assert a + b == b;
    }
  }

  /** `Series.replace(pattern, replacement)`: matches the WHOLE cell. */
  function ReplaceCell(c: Cell, pattern: string, replacement: Cell): Cell {
    if c == Str(pattern) then replacement else c
  }

  function ReplaceCells(cells: seq<Cell>, pattern: string, replacement: Cell): seq<Cell> {
    seq(|cells|, i requires 0 <= i < |cells| => ReplaceCell(cells[i], pattern, replacement))
  }

  /** `Series.str.replace(ch, '')` on one cell: strings lose every `ch`; a
      value that is not a string (a number, NaN) comes out as NaN. */
  function StripCell(c: Cell, ch: char): Cell {
    match c
    case Str(s) => Str(Remove(s, ch))
    case _ => Missing
  }

  function StripCells(cells: seq<Cell>, ch: char): seq<Cell> {
    seq(|cells|, i requires 0 <= i < |cells| => StripCell(cells[i], ch))
  }

  predicate HasText(cells: seq<Cell>) {
    exists i :: 0 <= i < |cells| && cells[i].Str?
  }

  predicate HasNumber(cells: seq<Cell>) {
    exists i :: 0 <= i < |cells| && cells[i].Num?
  }

  /** Whether pandas lets `.str` be used on the column: its dtype must be
      object, and the values it infers (NaN skipped) must be strings, mixed,
      or nothing at all; an object column of numbers only is refused. */
  predicate StrAccessorApplies(col: Column) {
    col.dtype == Object && (HasText(col.cells) || !HasNumber(col.cells))
  }

  /** `astype(float)` on one cell: numbers and NaN are kept, strings parsed. */
  function ParseCell(c: Cell): Option<Cell> {
    match c
    case Str(s) =>
      (match ParseNumber(s)
       case Some(v) => Some(Num(v))
       case None => None)
    case _ => Some(c)
  }

  /** `astype(float)` on a column: succeeds when every cell converts, and
      otherwise reports the first string that does not. */
  function ParseCells(cells: seq<Cell>): (r: Result<seq<Cell>, string>)
    ensures r.Success? <==> forall i :: 0 <= i < |cells| ==> ParseCell(cells[i]).Some?
    ensures r.Success? ==>
      |r.value| == |cells| &&
      forall i :: 0 <= i < |cells| ==> ParseCell(cells[i]) == Some(r.value[i]) && !r.value[i].Str?
    ensures r.Failure? ==>
      exists i :: 0 <= i < |cells| && cells[i] == Str(r.error) && ParseNumber(r.error).None?
  {
    if cells == [] then Success([])
    else
      match ParseCell(cells[0])
      case None => Failure(cells[0].text)
      case Some(c) =>
        match ParseCells(cells[1..])
        case Failure(s) => Failure(s)
        case Success(rest) => Success([c] + rest)
  }
}
