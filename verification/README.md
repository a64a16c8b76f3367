# CSV column word count, modelled in Dafny

`word_count.py` reads a CSV file with a dictionary reader and tallies one
column: every distinct cell text of that column becomes a key of a
dictionary whose value is the number of rows holding that text. Each
cell's whole text is one key; cells are not split into words. A row
dictionary without the key raises `KeyError` and ends the run without a
result. For CSV input read by the dictionary reader, that happens when
the header lacks the column.

The docstrings speak of counting "words" (word_count.py:4-5, 26-28), but
line 45 takes the whole cell text as the key and never splits it. This
model follows the code and counts whole cell texts of one column.

This project models that tally, `enumerate_column`, and proves what the
table it builds means.

- `wrappers.dfy`: module `Wrappers`, the `Result` type that stands in
  for the raised exception.
- `word_count.dfy`: module `WordCount`. A row is a `map<string, string>`.
  A tally is a `map<string, nat>`. `EnumerateColumn` is the fold over the
  rows and returns `Success(tally)` or `Failure(KeyError(column))`.
  `AddRow` is one pass of the loop body, the step of the fold.
  `EnumerateColumnLoop` is the same pass written as a loop that updates
  the table one row at a time. It is
  proved equal to the fold. `CountOf` is the reference meaning of an
  entry: the number of row indices whose column cell is exactly that
  text. `TallyCounts` and `TallyTotal` prove that the fold agrees with it.
- `word_count_properties.dfy`: module `WordCountProperties`, lemmas that
  relate several calls. They cover one more row, edits to other columns,
  and reordering of the rows.

## Model

| member | source | states |
|---|---|---|
| WordCount.Increment | word_count.py:51 | the updated table holds the word with its previous count (0 if absent) plus one, gains no key but that word, and every other word keeps its count |
| WordCount.EnumerateColumn | word_count.py:22-52 | fails exactly when some row lacks the column, and then with `KeyError` naming the column and no table; no rows give the empty table; every count in a successful table is at least 1 |
| WordCount.TallyCounts | word_count.py:43-51 | on success the keys are exactly the texts found in the column, nothing else, and the count of every text is the number of rows whose cell is exactly that text (0 for any other text) |
| WordCount.TallyTotal | word_count.py:43-51 | on success the counts add up to the number of rows |
| WordCount.EnumerateColumnLoop | word_count.py:42-52 | the loop over the rows, which updates the table one row at a time, returns the same result as the fold, including the early `KeyError` at the first row without the column |
| WordCount.TotalIncrement | word_count.py:51 | each update step raises the sum of all counts by exactly one |
| WordCountProperties.OneMoreRow | word_count.py:43-51 | after a successful tally, one more row with the column adds its cell text as a key if new, raises that key's count by one and leaves every other count unchanged; one more row without the column makes the whole call fail with `KeyError` |
| WordCountProperties.OnlyColumnMatters | word_count.py:45 | row sequences of equal length that agree, row by row, on whether the column is present and on its text give the same result, success or failure |
| WordCountProperties.OtherColumnEdit | word_count.py:45 | writing any text into any other column of any row leaves the result unchanged |
| WordCountProperties.ReorderInvariant | word_count.py:43-51 | any permutation of the rows gives the same result, the same table or the same failure |

## Left out

- `extract_data` (word_count.py:54-73) opens the file and hands it to the
  library CSV reader. That is file I/O plus a parser whose source is not
  part of this model. Rows enter the model already parsed.
- `main` (word_count.py:75-98) is left out. It checks the argument count,
  prints the usage text, exits with status 1, and prints `word:  count`
  lines in dictionary order. All of that is command-line plumbing and
  console output.
- Rows are modelled as string-to-string maps, and the `str(...)` coercion
  at word_count.py:45 as the identity. The dictionary reader pads a record
  shorter than the header with `None`, which the program counts as the key
  `"None"` without raising. That padded `None` cell is not represented:
  such a row must be given to the model with the text `"None"` in that
  column.
- Python's unbounded integers match Dafny's `nat`, so no counter width is
  modelled.
- `WordCount.Total` (the sum of counts) is a ghost function. It chooses
  keys in no fixed order, so it serves only in contracts.
