# Zero-R and One-R rule induction, modelled in Dafny

`cervezas.py` learns two very small classifiers from a table read out of a pipe-delimited text
file:

- **Zero-R** (`zero_r`) always predicts the most frequent label of the training labels `y`.
  It reports its accuracy on the training rows.
- **One-R** (`one_r`) works one feature column at a time. For each column it:
  - builds a rule mapping each distinct value to the majority label of the rows that have
    that value;
  - counts the training rows the rule misclassifies;
  - keeps the column whose rule has the highest accuracy. A later column replaces the current
    best only when it is strictly better, and the best starts at accuracy 0.
- **Prediction** (`predecir_one_r`) labels every row of a frame with the rule for its value in
  the chosen column. A value without a rule gets a default label.
- **Loading** (`cargar_datos`) does the following:
  - reads the header line and skips the separator line;
  - reads the data lines, splitting each on `|`, trimming every cell and dropping empty cells;
  - skips lines that have no cells left;
  - turns a column into integers when every cell of that column is a run of decimal digits.

The model follows the program's structure, one module per concern:

| module | file | what it holds |
|---|---|---|
| `Results` | results.dfy | `Option`, `Result` and the three ways the program fails |
| `Seqs` | seqs.dfy | first index, occurrence count, first-appearance distinct elements (`unique()`), `zip` |
| `Dicts` | dicts.dfy | insertion-ordered dictionaries as association lists: lookup and `d[k] = v` |
| `Counting` | counting.dfy | `Counter` and `most_common(1)[0][0]` (the majority vote) |
| `Frames` | frames.dfy | a data frame as column names, one sequence per column, and a height |
| `ZeroRule` | zero_rule.dfy | `zero_r` |
| `OneRule` | one_rule.dfy | the loop over a column's values, the loop over the columns, and what the choice means |
| `RulePrediction` | rule_prediction.dfy | `predecir_one_r` and the training round trip `main` prints |
| `TableLoader` | table_loader.dfy | the text parsing and integer conversion of `cargar_datos` |

The loops of the program are written as methods with loops: `one_r` as `OneR`, its inner loop
as `EvaluateColumn`, `predecir_one_r` as `Predict`, and `cargar_datos` as `LoadTable`. Each of
these methods is proved equal to a specification function. The properties of the program are
then proved about those functions:

- the chosen column has the fewest misclassified rows, and ties go to the earliest column;
- One-R is never less accurate than Zero-R;
- a column that determines the label is chosen with accuracy 1;
- predicting the training rows gets right exactly the rows that One-R counted as correct;
- a table written in the format loads back to its header and rows.

Accuracy is a `real`: `1 - errores/n` for `n > 0` and `0` otherwise, exactly as on line 96.

On an empty `y`, `zero_r` fails with an `IndexError` at `most_common(1)[0]` (line 52). That
happens before its `else 0` (line 56) is reached. The model returns `Err(EmptyInput)` there.
With no rows, `one_r` keeps no column and reports accuracy 0: line 96 gives every column
precision 0, and line 99 keeps a column only when its precision is above 0.

## Model

| member | source | states |
|---|---|---|
| Counting.Tally | cervezas.py:50 | `Counter(y)` keys the distinct labels in order of first appearance and maps each to its number of occurrences |
| Counting.FirstMax | cervezas.py:52 | `most_common(1)` picks an entry of largest count, and every earlier entry has a strictly smaller count |
| Counting.MostCommon | cervezas.py:52 | `most_common(1)[0][0]` is absent exactly for an empty counter and is otherwise one of its keys (the entry `FirstMax` picks) |
| Counting.Majority | cervezas.py:50-52 | the majority vote is absent exactly for an empty input and is otherwise one of its elements |
| Counting.MajorityIsMode | cervezas.py:50-52 | the majority label occurs at least as often as any other element |
| Counting.MajorityBefore | cervezas.py:50-52 | an element as frequent as the majority does not occur before the majority's first occurrence |
| Counting.MajorityIsFirstMode | cervezas.py:85-86 | the majority label occurs at least as often as any other; among labels tied with it, it appears first |
| Dicts.Keys | cervezas.py:123 | the keys of a dictionary in insertion order, which `valor in reglas` searches |
| Dicts.Get | cervezas.py:124 | `reglas[valor]`, and `c.get(x)` inside `Counter`: a value exactly for the keys (`GetAt` states it is the stored one) |
| Dicts.Put | cervezas.py:88 | `reglas[valor] = clase`: a present key keeps its place, a new key is appended, the key now maps to the value, other keys are unchanged |
| Seqs.Distinct | cervezas.py:77 | `unique()`: the distinct elements with no duplicates, holding exactly the elements of the input |
| Seqs.DistinctOrdered | cervezas.py:77 | `unique()` lists the distinct elements in order of their first occurrence in the input |
| Seqs.Count | cervezas.py:55 | the occurrence count is positive exactly for elements of the sequence and is at most its length |
| Seqs.Zip | cervezas.py:162 | `zip(predicciones, y)`: the pairs of equal positions, as many as the shorter sequence has |
| Seqs.DistinctConstant | cervezas.py:77 | a column holding one value throughout has that single distinct value |
| ZeroRule.ZeroR | cervezas.py:42-58 | fails exactly on empty `y`. Otherwise it returns a label of `y` with maximal count, first among tied labels, and accuracy count/len(y) in (0, 1]. `X` is not consulted |
| OneRule.LabelsWhere | cervezas.py:79-81 | the labels of the rows having a value are empty exactly when no row has that value |
| OneRule.PartitionErrors | cervezas.py:92-93 | the number of rows having value `v` whose label is not `m`, counted row by row as the generator counts them. Its meaning is stated by `PartitionErrorsByCount` |
| OneRule.PartitionErrorsByCount | cervezas.py:92-93 | the errors of one partition are its size minus the rows labelled with its majority |
| OneRule.RulesOverFacts | cervezas.py:77-88 | after the values handled so far, each handled value maps to the majority of its partition, the others are absent, and the keys come in visiting order |
| OneRule.ColumnRules | cervezas.py:73-88 | a column's `reglas` has exactly the column's distinct values as keys, in first-appearance order, each mapped to its partition's majority label |
| OneRule.ColumnErrorsAreErrorsOver | cervezas.py:74-93 | the summed partition errors of the loop equal the number of rows whose label differs from the rule's label for their value |
| OneRule.EvaluateColumn | cervezas.py:73-93 | the inner loop computes exactly the column's rules and its number of misclassified rows |
| OneRule.ColumnErrorsBound | cervezas.py:83-93 | a column's rule misclassifies at most the rows not labelled `g`, for any label `g` |
| OneRule.ColumnErrorsBelowRows | cervezas.py:83-96 | with at least one row, a column's errors are fewer than its rows |
| OneRule.Select | cervezas.py:98-102 | the strict-`>` scan seeded at 0 keeps nothing when no precision is positive. Otherwise it keeps a position of maximal precision with every earlier position strictly lower |
| OneRule.Precision | cervezas.py:96 | `1 - errores/n` when there are rows and 0 otherwise. What it means is stated by `PrecisionIsRatio`, `PrecisionOrder` and `PrecisionPositive` |
| OneRule.PrecisionOrder | cervezas.py:96-99 | over the same rows, a higher precision means strictly fewer errors, and back |
| OneRule.PrecisionPositive | cervezas.py:96 | fewer errors than rows gives a positive precision |
| OneRule.PrecisionIsRatio | cervezas.py:96 | `1 - e/n` is the proportion `(n - e)/n` of correct rows |
| OneRule.OneR | cervezas.py:60-104 | returns the name, rules and precision of the column the scan keeps, and `(None, {}, 0)` when it keeps none |
| OneRule.PrecisionsAreOfErrors | cervezas.py:96 | every column's precision is that of its error count, and with rows every count is below len(y) |
| OneRule.SelectFewestErrors | cervezas.py:98-102 | over error ratios the scan keeps the first position of fewest errors, and keeps one whenever there is a position |
| OneRule.OneRFewestErrors | cervezas.py:72-102 | with rows, a column is kept exactly when there is one. The kept column is the first of those with the fewest misclassified rows |
| OneRule.OneRNoRows | cervezas.py:67-69 | without rows, the scan keeps nothing and the precision stays 0 |
| OneRule.OneRNone | cervezas.py:67-104 | `one_r` returns `None` exactly when there are no rows or no columns |
| OneRule.ColumnAtLeastConstant | cervezas.py:83-96 | a column's precision is at least the proportion of rows carrying any one label |
| OneRule.ColumnAtLeast | cervezas.py:83-96 | the same for column `j` of a frame, over the labels `y` |
| OneRule.OneRAtLeastZeroR | cervezas.py:153-158 | every column's precision, and so the precision `one_r` reports, is at least `zero_r`'s precision |
| OneRule.LabelsWhereFrom | cervezas.py:79-81 | every label of a partition is the label of a row having that value |
| OneRule.ConsistentColumnErrorFree | cervezas.py:77-96 | a column whose value determines the label misclassifies no row and has precision 1 |
| OneRule.OneRTakesFirstPerfect | cervezas.py:96-102 | the first error-free column is kept with precision 1, for example a perfectly predictive first column |
| OneRule.SingleValueRules | cervezas.py:77-88 | a column with one value throughout gets the single rule from that value to the majority label of all its rows |
| OneRule.SingleValueColumn | cervezas.py:77-96 | such a column misclassifies the rows not carrying the majority label, so its precision is Zero-R's |
| Frames.ColumnNamed | cervezas.py:121 | `fila[atributo]` taken column-wise: the first column carrying the name |
| RulePrediction.Lookup | cervezas.py:123-127 | a value that is a key gets the label stored with it, `reglas[valor]`. Any other value gets the default |
| RulePrediction.Predictions | cervezas.py:119-127 | one prediction per row, in row order: the rule's label `reglas[valor]` when the value is a key, the default otherwise |
| RulePrediction.Predict | cervezas.py:106-129 | fails with a missing column exactly when there are rows and the attribute is not a column. Otherwise it returns the predictions for the attribute's column |
| RulePrediction.TrainingUsesNoDefault | cervezas.py:123-124 | on the rows a rule was learnt from, every value has a rule, so the default is never used |
| RulePrediction.Hits | cervezas.py:162 | the agreeing pairs number at most all pairs, and all of them exactly when every pair agrees |
| RulePrediction.Correct | cervezas.py:162 | the correct predictions number at most the predictions and at most the labels |
| RulePrediction.HitsAndMisses | cervezas.py:162 | where every value has a rule, correct predictions plus misclassified rows are all the rows |
| RulePrediction.TrainingRoundTrip | cervezas.py:161-162 | predicting the training rows gets right exactly len(y) minus the rule's errors, whatever the default |
| RulePrediction.OneRRoundTrip | cervezas.py:161-163 | predicting the training frame with `one_r`'s output scores `correctos/len(y)` equal to `one_r`'s precision |
| TableLoader.StripLeft | cervezas.py:19 | `lstrip` leaves a suffix after a run of whitespace, not starting with whitespace |
| TableLoader.StripRight | cervezas.py:19 | `rstrip` leaves a prefix before a run of whitespace, not ending with whitespace |
| TableLoader.Strip | cervezas.py:17 | `strip` is empty exactly for all-whitespace text and otherwise starts and ends with non-whitespace |
| TableLoader.StripSurrounded | cervezas.py:27 | stripping a trimmed text between runs of whitespace gives the text back |
| TableLoader.Lines | cervezas.py:17 | the stripped content splits into at least one line, none holding a line break |
| TableLoader.Cells | cervezas.py:19-27 | the cells of a line are trimmed, non-empty texts |
| TableLoader.Header | cervezas.py:19 | the column names are the cells of the first line, so trimmed and non-empty |
| TableLoader.DataLines | cervezas.py:21 | `lineas[2:]`: the lines after the second, in order, and none when there are at most two |
| TableLoader.DataRows | cervezas.py:24-29 | at most one row per data line, and every row has a cell |
| TableLoader.Split | cervezas.py:17 | `split(sep)` gives at least one piece, none containing `sep`, which join back to the input |
| TableLoader.SplitJoin | cervezas.py:17 | splitting the join of separator-free pieces gives the pieces back |
| TableLoader.Filled | cervezas.py:27 | the kept cells are trimmed and non-empty, and at most one per piece |
| TableLoader.FilledNone | cervezas.py:27-28 | no cell is kept exactly when every piece is blank, so a line is skipped exactly when it is blank between its pipes |
| TableLoader.NonEmptyRows | cervezas.py:28 | only rows with cells are kept, and when all have cells all are kept |
| TableLoader.NonEmptyRowsAppend | cervezas.py:24-29 | the kept rows of two runs of lines are those of the first run followed by those of the second, in order |
| TableLoader.NonEmptyRowsOne | cervezas.py:28 | one row is kept exactly when it has a cell |
| TableLoader.ReadRows | cervezas.py:24-29 | the appending loop computes the non-empty cell rows of the data lines, in order |
| TableLoader.CellsOfRendered | cervezas.py:19-27 | reading back a row written with pipes around trimmed cells gives back its cells |
| TableLoader.RenderedLines | cervezas.py:17-21 | the lines of a written table are its header row, its separator line and its data rows |
| TableLoader.LoadRendered | cervezas.py:17-38 | loading a written table gives its header and data rows, and no error, for any trimmed one-line separator line |
| TableLoader.ParseDigits | cervezas.py:38 | the decimal digits of a number are a digit run that reads back to the number |
| TableLoader.AllDigits | cervezas.py:37 | `str.match(r'^\d+$')`: a non-empty run of ASCII decimal digits |
| TableLoader.ParseNat | cervezas.py:38 | `int(s)` on a digit run, read most significant digit first. `ParseDigits` states that it reads back `str(n)` |
| TableLoader.ConvertColumn | cervezas.py:37-38 | the column as integers when every cell is a digit run, otherwise as text. `ConvertAllOrNothing` states this cell by cell |
| TableLoader.ConvertAllOrNothing | cervezas.py:35-38 | a column becomes all integers exactly when every cell is a digit run, each read as its number. Otherwise every cell keeps its text |
| TableLoader.ConvertNumbers | cervezas.py:37-38 | a column of written numbers loads as those numbers |
| TableLoader.ConvertOneText | cervezas.py:37 | one cell that is not a digit run keeps the whole column textual |
| TableLoader.TableOf | cervezas.py:32-38 | fails exactly when some data row does not have one cell per column name. Otherwise the frame is well formed, named by the header, one row per data row |
| TableLoader.TableCells | cervezas.py:35-38 | every cell of the loaded frame is its data row's cell, as a number exactly when its whole column is digit runs |
| TableLoader.BuildFrame | cervezas.py:32-38 | the shape check and the in-place conversion loop compute exactly the frame of `TableOf` |
| TableLoader.Table | cervezas.py:16-40 | the frame of the text: named by its header, one row per data row, and a shape error when a data row does not fit the header |
| TableLoader.LoadTable | cervezas.py:16-40 | loading text computes exactly the table of its header and data rows |

## Left out

- Reading the file (lines 13-14). `LoadTable` takes the file's contents as text.
- `main` (lines 131-167): the hard-coded path, the printing and the report formatting. The
  comparison it prints (lines 153-158) is stated as `OneRAtLeastZeroR`. Its count of correct
  predictions (lines 161-163) is stated as `OneRRoundTrip`.
- pandas itself. A frame is a sequence of columns with the default positional index, so
  `y[indices]` and `indices.iloc[i]` pick the same rows. `X.drop('Prefiere')` and
  selecting `y` by name belong to `main` and are not modelled.
- Floating point. Accuracy is an exact `real`. The model does not capture rounding of
  `errores / len(y)`: two columns whose float accuracies round to the same value are
  compared exactly here.
- OneRAtLeastZeroR: holds of exact reals. Where the two accuracies are equal, the program's
  floats `1 - e/n` and `c/n` can differ by one unit in the last place in either direction. For
  n = 11 and e = 2, `1 - 2/11` is 0.8181818181818181 and `9/11` is 0.8181818181818182, so line
  155 prints that Zero-R beats One-R. For n = 3 and e = 1 the difference goes the other way.
- OneRRoundTrip: holds of exact reals. The float `correctos/len(y)` printed on line 163 and
  the float `1 - errores/len(y)` of line 96 can differ by one unit in the last place, for the
  same inputs as above.
- TableOf: a data row whose cell count differs from the number of column names is always an
  error (`Err(ShapeMismatch)`). pandas raises that error only when the widest row differs
  from the header. It pads narrower rows with missing cells, and a padded column of digit
  runs then fails in `astype(int)`. The padded cases are not modelled.
- TableLoader.AllDigits: `\d` is ASCII `0`-`9`. Python also matches other Unicode decimal
  digits.
- TableLoader.ParseNat: `astype(int)` converts to a C long (64-bit; 32-bit on Windows with
  NumPy 1.x), and a longer digit run makes `astype(int)` fail. The model reads any digit run
  as an unbounded natural number.
- Duplicate column names. With a repeated header name the program fails. `df[col]` on line 37
  is then a DataFrame, and `.str` raises an AttributeError. `X[atributo].unique()` on line 77
  fails the same way. The model does not fail there: `TableOf` converts each column by its
  position and returns a frame, and `OneR` reads each column by its position and returns a
  result. `ColumnNamed` takes the first column of a name, and `OneRRoundTrip` assumes
  distinct names.
- The values of a column and the labels are generic types with equality. The mixed
  int/string values of a real frame and numpy's scalar types are not distinguished.
- OneRule.EvaluateColumn: the inner loop of `one_r` (lines 73-93) is a method of its own called
  from `OneR`. Its results are the same as inline.
