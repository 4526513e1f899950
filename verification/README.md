# Used-car data cleaning, modelled in Dafny

This project models the table-cleaning core of `src/data/data_cleaning.py`.
The core turns a raw used-car listing table into a cleaned one in three
steps:

1. **Numerical cleaning** (`data_cleaning_numerical`). It drops the
   leftover row-index column `Unnamed: 0` and converts `date`, `price` and
   `mileage` to float columns. The sentinel `"na"` becomes a missing value.
   For `price` and `mileage`, every `,` and `$` is removed before the parse.
2. **Column classification** (`divide_columns`). It splits the column labels
   into non-object ("numerical") and object ("categorical") columns, in
   frame order.
3. **Categorical cleaning** (`data_clean_categorical`). It applies each
   listed column's sentinel rule. In `transmission`, `"0"` becomes
   `"Other"`. In every other listed column, `"na"` becomes missing.

Both cleaners mutate the pandas DataFrame in place inside a `try` block. The
first statement that raises ends the function. Every earlier assignment
stays visible to the caller, since nothing is rolled back, and the error is
only logged.

Modules:

- `Cells` (cells.dfy): cell values, the digit parse that stands for
  `astype(float)`, and removal of one character from a string.
- `Frame` (frame.dfy):
  - the frame as a sequence of named, typed columns;
  - the statement `data[col] = data[col].<ops>` as an `Assignment`;
  - `Run`, which executes statements until the first one raises;
  - the class `Table`, the DataFrame the cleaners mutate.
- `NumericCleaning` (numeric.dfy): `data_cleaning_numerical` as a method
  over `Table`, and the per-cell rules it implements.
- `ColumnClassification` (classify.dfy): `divide_columns` as a function on
  the frame's labels and dtypes.
- `CategoricalCleaning` (categorical.dfy): `data_clean_categorical` as a
  method with a `for` loop and an early exit.
- `CleaningPipeline` (pipeline.dfy): the composition at lines 120-122.

Each method is proved against a specification function: `NumericClean`,
`CategoricalClean` or `CleanDataset`. The lemmas state what those functions
guarantee.

### Behaviour of the code worth knowing

- Line 51 converts the whole `price` column in one statement. One
  unparsable `price` value therefore makes it raise a ValueError.
  - By then lines 48-50 have run, so `price` keeps its text without `,`
    and `$`.
  - The loop never reaches `mileage`, which stays as read.
  - `NumericCleaning.NumericFailSoft` and `NumericCleaning.FailedPass`
    state this, together with the KeyError and `.str` error cases.
- When line 53 logs completion, `date`, `price` and `mileage` are float
  columns converted cell by cell from their input
  (`NumericCleaning.NumericCleanEffect`). The converse fails: when `price`
  is already float, line 49 raises even though all three columns are
  float (`CleaningPipeline.NumericOnFloat`).
- Running lines 120-122 a second time on their own result leaves the frame
  unchanged, when the first numeric pass completed
  (`CleaningPipeline.CleanDatasetIdempotent`). In the second pass, line 49
  raises on the float `price` column before anything changes, and the error
  is logged at line 56.
- Line 82 classifies a column by its dtype alone, without looking at its
  values.

## Model

| member | source | states |
|---|---|---|
| Cells.ParseShowNat | src/data/data_cleaning.py:46 | the digit parse reads back the decimal text of every natural number |
| Cells.ShowParseNumber | src/data/data_cleaning.py:46 | a digit string without leading zeros is the decimal text of the value it parses to |
| Cells.RemoveSpec | src/data/data_cleaning.py:49-50 | removing a character deletes every copy of it and keeps every other character with its multiplicity; a string without it is unchanged |
| Cells.RemoveConcat | src/data/data_cleaning.py:49-50 | removal distributes over concatenation |
| Cells.ParseCells | src/data/data_cleaning.py:46 | `astype(float)` on a column succeeds iff every cell converts; the result converts cell by cell and holds no text; a failure names an unparsable text that occurs in the column |
| Frame.IndexOf | src/data/data_cleaning.py:46 | finds the first position of a label, and finds nothing iff the label is absent |
| Frame.Lookup | src/data/data_cleaning.py:46 | `data[name]` is absent iff no column has that label; otherwise it is a column of the frame with that label |
| Frame.DropColumnSpec | src/data/data_cleaning.py:42-43 | after the drop no column has the label, every other column is kept, and dropping an absent label changes nothing |
| Frame.DropColumnAt | src/data/data_cleaning.py:42-43 | with distinct labels, the drop removes exactly the labelled column and keeps the others in order |
| Frame.DropLookup | src/data/data_cleaning.py:42-43 | the drop leaves every other label's column unchanged |
| Frame.DropWellFormed | src/data/data_cleaning.py:42-43 | the drop keeps labels distinct and every column's length |
| Frame.ApplyOps | src/data/data_cleaning.py:46 | a method chain keeps the label and the number of cells; a failure names the column and is never a KeyError |
| Frame.Step | src/data/data_cleaning.py:46 | `data[c] = data[c].<ops>` raises KeyError iff `c` is absent; it completes iff `c` is present and the chain succeeds, and then `data[c]` is the chain's result; on failure nothing changes; labels are kept |
| Frame.StepShape | src/data/data_cleaning.py:46 | an assignment keeps every column's length and consistency |
| Frame.StepFrame | src/data/data_cleaning.py:46 | an assignment leaves every other label's column alone |
| Frame.Run | src/data/data_cleaning.py:39-57 | a run of statements keeps the labels |
| Frame.RunShape | src/data/data_cleaning.py:46-51 | a run keeps every column's length, so the row count is preserved |
| Frame.RunAppend | src/data/data_cleaning.py:46-51 | running two blocks in sequence is the second block on the first block's result, unless the first raised |
| Frame.FailSoft | src/data/data_cleaning.py:55-57 | the final state is the completed prefix's state; the run completes iff every statement did; otherwise the next statement raises on that state with the run's error |
| Frame.RunFrame | src/data/data_cleaning.py:46-51 | a run leaves alone every column that none of its statements names |
| Frame.RunOneColumn | src/data/data_cleaning.py:48-51 | statements on one present column complete iff the concatenated chain succeeds, and leave its result |
| Frame.RunWellFormed | src/data/data_cleaning.py:46-51 | a run keeps labels distinct and the row count |
| Frame.Table.Drop | src/data/data_cleaning.py:43 | the in-place drop leaves exactly `DropColumn` of the old columns, with the same rows |
| Frame.Table.Assign | src/data/data_cleaning.py:46 | the in-place assignment leaves exactly the state and outcome of `Step` |
| NumericCleaning.CleanNumerical | src/data/data_cleaning.py:34-57 | the method's final table and outcome are those of `NumericClean`: the drop, then the statements up to the first that raises |
| NumericCleaning.CleanCurrencyColumn | src/data/data_cleaning.py:48-51 | one loop pass leaves the state and outcome of its four statements run in order |
| NumericCleaning.DateStepEffect | src/data/data_cleaning.py:46 | line 46 completes iff every `date` cell converts (`"na"` to missing, digits parsed, no stripping); then `date` is the converted float column; on failure nothing changes |
| NumericCleaning.CurrencyStepsEffect | src/data/data_cleaning.py:48-51 | one pass completes iff the column exists, `.str` applies after the sentinel replacement and every cell converts; then the column is converted cell by cell; when it raises, the error and the column left are those of `FailedPass`: KeyError if absent, a `.str` error leaving the sentinel-replaced column, or a ValueError leaving the column stripped of `,` and `$` |
| NumericCleaning.CurrencyRoundTrip | src/data/data_cleaning.py:48-51 | `"$"` followed by the digits of an amount converts back to that amount |
| NumericCleaning.CurrencyThousands | src/data/data_cleaning.py:48-51 | a value written like `"$12,345"` converts to the number its digits spell |
| NumericCleaning.SentinelCell | src/data/data_cleaning.py:46-48 | the whole-cell sentinel `"na"` becomes NaN under both the `date` rule and the `price`/`mileage` rule |
| NumericCleaning.StripThousands | src/data/data_cleaning.py:49-50 | removing `,` then `$` from `$`, digits, `,`, digits leaves the digits joined |
| NumericCleaning.DecoratedSentinel | src/data/data_cleaning.py:48-51 | a decorated sentinel such as `"$na"` is not recognised as the sentinel and makes the parse raise |
| NumericCleaning.DateExample | src/data/data_cleaning.py:46 | `date` gets no stripping: `"2,019"` does not convert, `"2019"` does |
| NumericCleaning.NumericCleanStages | src/data/data_cleaning.py:42-51 | the cleaner is the drop followed by three stages: `date`, then `price`, then `mileage`; each runs only if the previous one completed |
| NumericCleaning.NumericCleanEffect | src/data/data_cleaning.py:39-53 | the cleaner completes iff `date`, `price` and `mileage` are ready; then each is the float column its cells convert to |
| NumericCleaning.NumericFailSoft | src/data/data_cleaning.py:55-57 | a failure on `date` leaves only the drop; a failure on `price` leaves `date` converted, `price` as `FailedPass` says (error and column left) and `mileage` as it came; a failure on `mileage` leaves `date` and `price` converted and `mileage` as `FailedPass` says |
| NumericCleaning.NumericCleanFrame | src/data/data_cleaning.py:41-51 | in every case: the frame stays well formed with the same rows; the labels are the input's minus `Unnamed: 0`; `Unnamed: 0` is gone; every other column except `date`, `price` and `mileage` is unchanged |
| ColumnClassification.LabelsOfMembers | src/data/data_cleaning.py:82 | a label is listed iff some column carries it with that dtype |
| ColumnClassification.Without | src/data/data_cleaning.py:83 | the comprehension keeps exactly the labels not in the excluded list |
| ColumnClassification.DivideColumns | src/data/data_cleaning.py:77-88 | the two lists are disjoint; with distinct labels they cover every label; with a repeated label both are empty (the logged error path) |
| ColumnClassification.WithoutNumeric | src/data/data_cleaning.py:83 | with the numeric labels excluded, line 83 yields the object labels in frame order |
| ColumnClassification.DivideColumnsByDType | src/data/data_cleaning.py:82-83 | with distinct labels the lists are the non-object and the object labels, each in frame order |
| ColumnClassification.LabelsOfSplit | src/data/data_cleaning.py:82-84 | the two dtype lists together are a permutation of the labels |
| ColumnClassification.DivideColumnsPartition | src/data/data_cleaning.py:82-84 | the two lists are a permutation of the labels, so the counts logged at line 84 add up to the column count |
| ColumnClassification.CategoricalIffObject | src/data/data_cleaning.py:82-83 | a label is categorical iff its column exists and has object dtype |
| CategoricalCleaning.CleanCategorical | src/data/data_cleaning.py:59-75 | the method's final table and outcome are those of `CategoricalClean`: one statement per listed column, stopping at the first that raises |
| CategoricalCleaning.AssignmentCleans | src/data/data_cleaning.py:66-69 | a listed column's statement succeeds and applies that column's sentinel rule to every cell |
| CategoricalCleaning.CleanedColumnIdempotent | src/data/data_cleaning.py:66-69 | applying a sentinel rule twice is applying it once |
| CategoricalCleaning.StepOnClean | src/data/data_cleaning.py:66-69 | the statement on an already clean column completes and changes nothing |
| CategoricalCleaning.CategoricalStepLookup | src/data/data_cleaning.py:66-69 | one column's statement cleans that column and no other |
| CategoricalCleaning.CategoricalEffect | src/data/data_cleaning.py:63-75 | the listed columns up to the first absent one are cleaned; every other column is exactly as it came in |
| CategoricalCleaning.CategoricalCompletes | src/data/data_cleaning.py:65-75 | the cleaner completes iff every listed column exists; otherwise it raises KeyError at the first absent listed column |
| CategoricalCleaning.CategoricalSchema | src/data/data_cleaning.py:65-69 | every column keeps its label, dtype and position |
| CategoricalCleaning.CategoricalIdempotent | src/data/data_cleaning.py:65-69 | cleaning twice with the same list gives the frame and outcome of cleaning once |
| CleaningPipeline.CleanData | src/data/data_cleaning.py:119-122 | the method returns the classification of the numerically cleaned frame and leaves the table at `CleanDataset` of the input |
| CleaningPipeline.CleanedSentinelFree | src/data/data_cleaning.py:67-69 | a cleaned column holds no `"0"` if it is `transmission`, and no `"na"` otherwise |
| CleaningPipeline.CleanDatasetLookup | src/data/data_cleaning.py:120-122 | categorical cleaning always completes on the labels it is given; object columns are cleaned and every other column is as numeric cleaning left it |
| CleaningPipeline.CleanDatasetInvariants | src/data/data_cleaning.py:120-122 | the result is well formed with the same rows; the labels are the input's minus `Unnamed: 0`; dtypes are those after numeric cleaning; every categorical column is free of its sentinel |
| CleaningPipeline.NumericColumnKept | src/data/data_cleaning.py:121-122 | a non-object column passes through categorical cleaning unchanged |
| CleaningPipeline.CleanDatasetNumeric | src/data/data_cleaning.py:120-122 | when `date`, `price` and `mileage` are ready, numeric cleaning completes and all three end as float columns converted from the raw ones |
| CleaningPipeline.DateOnFloat | src/data/data_cleaning.py:46 | line 46 on a float `date` column completes and changes nothing |
| CleaningPipeline.PriceOnFloat | src/data/data_cleaning.py:48-49 | on a float `price` column, `.str` raises and nothing changes |
| CleaningPipeline.NumericOnFloat | src/data/data_cleaning.py:42-57 | without the index column and with `date` and `price` already float, the numeric cleaner raises the `.str` error at line 49 and leaves the frame unchanged |
| CleaningPipeline.CleanDatasetIdempotent | src/data/data_cleaning.py:120-122 | when numeric cleaning completed, cleaning the result again gives the same frame |

## Left out

- Reading and saving files (`read_csv`, `save_file`, lines 20-32 and 90-100): file I/O.
- The logging set-up and every `logging.*` call: these are side effects only. A logged error is modelled as the `Failed` outcome.
- Path resolution in the main block (lines 105-107). The `None` frame that a failed read passes to the cleaners is also left out.
- src/data/data_preparation.py is not part of this model. It holds a train/test split through sklearn and YAML parameter reading.
- Cells.ParseNumber: `astype(float)` is abstracted to non-empty digit strings. Signs, decimals, exponents, `"nan"`/`"inf"` text and float rounding are not modelled, and numbers are unbounded integers.
- Cells.Cell: NumPy's NaN is the separate constructor `Missing`, not a float value.
- Cells.DType: every non-object dtype is one tag, `Numeric`. The int/float distinction and `astype(float)` changing an int column's dtype are not modelled.
- Cells.StrAccessorApplies: pandas' inferred-dtype check for `.str` is reduced to two cases. A column with some text is accepted, and a column of numbers without text is refused. Byte strings and other element types are not modelled.
- NumericCleaning.CurrencyAssignments: `str.replace('$', '', regex=True)` is modelled as literal removal, which is pandas 1.x behaviour for single-character patterns. With pandas 2.x, `$` is an end-of-string anchor, nothing is removed, and `"$…"` values make the parse raise.
- Frame.ApplyOp: `Series.replace` keeps the column's dtype. pandas may downcast an object column whose remaining values are all NaN or numbers to float, and the model does not capture that.
- Frame.WellFormed: labels are assumed distinct, because `read_csv` renames duplicates. Only `divide_columns` models the duplicate-label error path.
- Frame.Table.Drop: requires the label to be present. The source checks this itself at line 42 before dropping, so `CleanNumerical` only calls it then.
- CleaningPipeline.CleanDatasetIdempotent: proved only when the first numeric cleaning completed. After a partial numeric failure, idempotence of the whole pipeline is not proved.
- Row labels (the pandas index) are not modelled, only the number of rows.
