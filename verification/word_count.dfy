/** The column tally of word_count.py: row dictionaries are folded, in
    order, into a table from each distinct cell text of one column to the
    number of rows holding it. A row dictionary without the column aborts
    the whole pass with a key-lookup error. */
module WordCount {
  import opened Wrappers

  /** One row dictionary: column name to cell text. */
  type Row = map<string, string>

  /** The frequency table: distinct cell text to number of occurrences. */
  type Tally = map<string, nat>

  /** The key-lookup failure raised for a row that has no such column. */
  datatype ColumnError = KeyError(column: string)

  /** The stored count of `w`, or 0 when `w` is not yet a key
      (the dictionary `get` with default 0). */
  function Get(t: Tally, w: string): nat
  {
    if w in t then t[w] else 0
  }

  /** True iff every row has a cell for `col`. */
  predicate HasColumn(rows: seq<Row>, col: string)
  {
    forall i :: 0 <= i < |rows| ==> col in rows[i]
  }

  /** The texts of the `col` cells, one per row, in row order. */
  function Cells(rows: seq<Row>, col: string): seq<string>
    requires HasColumn(rows, col)
  {
    seq(|rows|, i requires 0 <= i < |rows| => rows[i][col])
  }

  /** Every text that appears in the `col` cell of some row. */
  function ColumnValues(rows: seq<Row>, col: string): set<string>
  {
    set i | 0 <= i < |rows| && col in rows[i] :: rows[i][col]
  }

  /** The number of rows whose `col` cell is exactly `w`: the reference
      meaning of one entry of the tally. */
  function CountOf(rows: seq<Row>, col: string, w: string): nat
  {
    |set i | 0 <= i < |rows| && col in rows[i] && rows[i][col] == w|
  }

  /** The sum of all counts in a tally. */
  ghost function Total(t: Tally): nat
    decreases |t|
  {
    if t == map[] then 0
    else
      var k :| k in t;
      assert (t - {k}).Keys == t.Keys - {k};
      t[k] + Total(t - {k})
  }

  /** The single update step of the loop: the count of `w` goes up by one
      (starting from 0 when absent) and no other entry moves. */
  function Increment(t: Tally, w: string): (r: Tally)
    ensures r.Keys == t.Keys + {w}
    ensures r[w] == Get(t, w) + 1
    ensures forall k :: k != w ==> Get(r, k) == Get(t, k)
  {
    t[w := Get(t, w) + 1]
  }

  /** One pass of the loop body: look the column up in `row` and count its
      text, or fail; an earlier failure is passed on unchanged. */
  function AddRow(acc: Result<Tally, ColumnError>, row: Row, col: string): Result<Tally, ColumnError>
  {
    match acc
    case Failure(_) => acc
    case Success(t) =>
      if col !in row then Failure(KeyError(col))
      else Success(Increment(t, row[col]))
  }

  /** The column tally. Rows are consumed in order; the first row without
      `col` makes the whole call fail and no partial table is returned.
      What the table holds is stated by `TallyCounts` and `TallyTotal`. */
  function EnumerateColumn(rows: seq<Row>, col: string): (r: Result<Tally, ColumnError>)
    ensures r.Failure? <==> !HasColumn(rows, col)
    ensures r.Failure? ==> r.error == KeyError(col)
    ensures |rows| == 0 ==> r == Success(map[])
    ensures r.Success? ==> forall w :: w in r.value ==> r.value[w] >= 1
    decreases |rows|
  {
    if |rows| == 0 then
      Success(map[])
    else
      LastRowHasColumn(rows, col);
      AddRow(EnumerateColumn(rows[..|rows| - 1], col), rows[|rows| - 1], col)
  }

  /** The tally of a non-empty row sequence is the tally of all rows but
      the last, advanced by one step over the last row. */
  lemma EnumerateLast(rows: seq<Row>, col: string)
    requires |rows| > 0
    ensures EnumerateColumn(rows, col)
            == AddRow(EnumerateColumn(rows[..|rows| - 1], col), rows[|rows| - 1], col)
  {
  }

  /** On success the keys are exactly the texts found in the column, and
      the count of every text is the number of rows holding it. */
  lemma {:induction false} TallyCounts(rows: seq<Row>, col: string)
    requires HasColumn(rows, col)
    ensures var t := EnumerateColumn(rows, col).value;
      && t.Keys == ColumnValues(rows, col)
      && forall w :: Get(t, w) == CountOf(rows, col, w)
    decreases |rows|
  {
    if |rows| > 0 {
      var init := rows[..|rows| - 1];
      LastRowHasColumn(rows, col);
      LastRowValues(rows, col);
      TallyCounts(init, col);
      forall w
        ensures Get(EnumerateColumn(rows, col).value, w) == CountOf(rows, col, w)
      {
        LastRowCount(rows, col, w);
      }
    }
  }

  /** On success the counts add up to the number of rows. */
  lemma {:induction false} TallyTotal(rows: seq<Row>, col: string)
    requires HasColumn(rows, col)
    ensures Total(EnumerateColumn(rows, col).value) == |rows|
    decreases |rows|
  {
    if |rows| > 0 {
      var init := rows[..|rows| - 1];
      LastRowHasColumn(rows, col);
      TallyTotal(init, col);
      TotalIncrement(EnumerateColumn(init, col).value, rows[|rows| - 1][col]);
    }
  }

  /** The same tally computed by a loop over the rows, with the table
      updated one row at a time. */
  method EnumerateColumnLoop(rows: seq<Row>, col: string) returns (r: Result<Tally, ColumnError>)
    ensures r == EnumerateColumn(rows, col)
  {
    var words: Tally := map[];
    var i := 0;
    while i < |rows|
      invariant 0 <= i <= |rows|
      invariant EnumerateColumn(rows[..i], col) == Success(words)
    {
      var row := rows[i];
      if col !in row {
        assert !HasColumn(rows, col);
        return Failure(KeyError(col));
      }
      var word := row[col];
      assert rows[..i + 1][..i] == rows[..i];
      assert rows[..i + 1][i] == row;
      assert EnumerateColumn(rows[..i + 1], col) == Success(Increment(words, word));
      words := words[word := Get(words, word) + 1];
      i := i + 1;
    }
    assert rows[..i] == rows;
    r := Success(words);
  }

  /** Every row has the column iff the rows before the last do and the
      last row does. */
  lemma LastRowHasColumn(rows: seq<Row>, col: string)
    requires |rows| > 0
    ensures HasColumn(rows, col)
            <==> HasColumn(rows[..|rows| - 1], col) && col in rows[|rows| - 1]
  {
  }

  /** The last row adds its cell text to the column's values. */
  lemma LastRowValues(rows: seq<Row>, col: string)
    requires |rows| > 0 && col in rows[|rows| - 1]
    ensures ColumnValues(rows, col)
            == ColumnValues(rows[..|rows| - 1], col) + {rows[|rows| - 1][col]}
  {
  }

  /** The last row adds one to the count of its own cell text only. */
  lemma LastRowCount(rows: seq<Row>, col: string, w: string)
    requires |rows| > 0
    ensures var init, row := rows[..|rows| - 1], rows[|rows| - 1];
      CountOf(rows, col, w) == CountOf(init, col, w) + (if col in row && row[col] == w then 1 else 0)
  {
    var init, row := rows[..|rows| - 1], rows[|rows| - 1];
    var all := set i | 0 <= i < |rows| && col in rows[i] && rows[i][col] == w;
    var pre := set i | 0 <= i < |init| && col in init[i] && init[i][col] == w;
    if col in row && row[col] == w {
      assert all == pre + {|init|};
    } else {
      assert all == pre;
    }
  }

  /** The total of a tally splits into any one entry plus the rest. */
  lemma {:induction false} TotalRemove(t: Tally, k: string)
    requires k in t
    ensures Total(t) == t[k] + Total(t - {k})
    decreases |t|
  {
    var k' :| k' in t && Total(t) == t[k'] + Total(t - {k'});
    if k' != k {
      assert (t - {k'}).Keys == t.Keys - {k'};
      TotalRemove(t - {k'}, k);
      assert (t - {k}).Keys == t.Keys - {k};
      TotalRemove(t - {k}, k');
      assert t - {k'} - {k} == t - {k} - {k'};
    }
  }

  /** One update step raises the total of the tally by exactly one. */
  lemma TotalIncrement(t: Tally, w: string)
    ensures Total(Increment(t, w)) == Total(t) + 1
  {
    var r := Increment(t, w);
    TotalRemove(r, w);
    if w in t {
      TotalRemove(t, w);
      assert r - {w} == t - {w};
    } else {
      assert r - {w} == t;
    }
  }
}
