/** Properties that relate several calls of the column tally: growth by one
    row, independence from the other columns, and independence from the
    order of the rows. */
module WordCountProperties {
  import opened Wrappers
  import opened WordCount

  /** Two rows agree on column `col`: both lack it, or both hold the same
      text in it. */
  predicate SameCell(a: Row, b: Row, col: string)
  {
    (col in a <==> col in b) && (col in a ==> a[col] == b[col])
  }

  /** Processing one more row bumps the count of exactly that row's cell
      text by one (inserting it with 1 when new) and leaves every other
      entry as it was; a row without the column makes the call fail. */
  lemma OneMoreRow(rows: seq<Row>, row: Row, col: string)
    requires EnumerateColumn(rows, col).Success?
    ensures col !in row ==> EnumerateColumn(rows + [row], col) == Failure(KeyError(col))
    ensures col in row ==>
      var t, w := EnumerateColumn(rows, col).value, row[col];
      var r := EnumerateColumn(rows + [row], col);
      && r.Success?
      && r.value.Keys == t.Keys + {w}
      && r.value[w] == Get(t, w) + 1
      && forall k :: k != w ==> Get(r.value, k) == Get(t, k)
  {
  }

  /** One step of the loop sees nothing of a row but its `col` cell. */
  lemma AddRowSameCell(acc: Result<Tally, ColumnError>, row: Row, row': Row, col: string)
    requires SameCell(row, row', col)
    ensures AddRow(acc, row, col) == AddRow(acc, row', col)
  {
  }

  /** Only the `col` cell of each row influences the tally: rows that agree
      position by position on that one cell give the same result. */
  lemma {:induction false} OnlyColumnMatters(rows: seq<Row>, rows': seq<Row>, col: string)
    requires |rows| == |rows'|
    requires forall i :: 0 <= i < |rows| ==> SameCell(rows[i], rows'[i], col)
    ensures EnumerateColumn(rows, col) == EnumerateColumn(rows', col)
    decreases |rows|
  {
    if |rows| > 0 {
      var n := |rows| - 1;
      var init, init' := rows[..n], rows'[..n];
      assert forall i :: 0 <= i < n ==> init[i] == rows[i] && init'[i] == rows'[i];
      OnlyColumnMatters(init, init', col);
      EnumerateLast(rows, col);
      EnumerateLast(rows', col);
      AddRowSameCell(EnumerateColumn(init, col), rows[n], rows'[n], col);
    }
  }

  /** Changing any column other than `col` in one row leaves the tally
      unchanged. */
  lemma OtherColumnEdit(rows: seq<Row>, i: nat, other: string, text: string, col: string)
    requires i < |rows|
    requires other != col
    ensures EnumerateColumn(rows[i := rows[i][other := text]], col) == EnumerateColumn(rows, col)
  {
    var rows' := rows[i := rows[i][other := text]];
    assert forall j :: 0 <= j < |rows| ==> SameCell(rows[j], rows'[j], col);
    OnlyColumnMatters(rows, rows', col);
  }

  /** A row set that has the column keeps it under any reordering. */
  lemma HasColumnPermutation(rows: seq<Row>, rows': seq<Row>, col: string)
    requires multiset(rows) == multiset(rows')
    requires HasColumn(rows, col)
    ensures HasColumn(rows', col)
  {
    forall j | 0 <= j < |rows'|
      ensures col in rows'[j]
    {
      assert rows'[j] in multiset(rows);
      var i :| 0 <= i < |rows| && rows[i] == rows'[j];
    }
  }

  /** Dropping the element at `j` removes one copy of it from the multiset. */
  lemma MultisetRemove<T>(s: seq<T>, j: nat)
    requires j < |s|
    ensures multiset(s[..j] + s[j + 1..]) == multiset(s) - multiset{s[j]}
  {
    assert s == s[..j] + [s[j]] + s[j + 1..];
  }

  /** Dropping row `j` drops one copy of its cell text from the column. */
  lemma CellsRemove(rows: seq<Row>, j: nat, col: string)
    requires j < |rows|
    requires HasColumn(rows, col)
    ensures HasColumn(rows[..j] + rows[j + 1..], col)
    ensures multiset(Cells(rows, col))
            == multiset(Cells(rows[..j] + rows[j + 1..], col)) + multiset{rows[j][col]}
  {
    var rest := rows[..j] + rows[j + 1..];
    var cells := Cells(rows, col);
    assert forall i :: 0 <= i < j ==> rest[i] == rows[i];
    assert forall i :: j <= i < |rest| ==> rest[i] == rows[i + 1];
    assert Cells(rest, col) == cells[..j] + cells[j + 1..];
    MultisetRemove(cells, j);
  }

  /** Reordering the rows reorders the cell texts of the column. */
  lemma {:induction false} CellsPermutation(rows: seq<Row>, rows': seq<Row>, col: string)
    requires multiset(rows) == multiset(rows')
    requires HasColumn(rows, col) && HasColumn(rows', col)
    ensures multiset(Cells(rows, col)) == multiset(Cells(rows', col))
    decreases |rows|
  {
    if |rows| == 0 {
      assert |multiset(rows')| == 0;
    } else {
      var n := |rows| - 1;
      var x := rows[n];
      assert x in multiset(rows');
      var j :| 0 <= j < |rows'| && rows'[j] == x;
      var rest := rows'[..j] + rows'[j + 1..];
      MultisetRemove(rows, n);
      MultisetRemove(rows', j);
      assert rows[..n] + rows[n + 1..] == rows[..n];
      CellsRemove(rows, n, col);
      CellsRemove(rows', j, col);
      CellsPermutation(rows[..n], rest, col);
    }
  }

  /** The count of `w` is the multiplicity of `w` among the column's cell
      texts. */
  lemma {:induction false} CountOfIsMultiplicity(rows: seq<Row>, col: string, w: string)
    requires HasColumn(rows, col)
    ensures CountOf(rows, col, w) == multiset(Cells(rows, col))[w]
    decreases |rows|
  {
    if |rows| > 0 {
      var n := |rows| - 1;
      LastRowCount(rows, col, w);
      CountOfIsMultiplicity(rows[..n], col, w);
      assert Cells(rows, col) == Cells(rows[..n], col) + [rows[n][col]];
    }
  }

  /** A successful tally is determined by its counts. */
  lemma TallyExtensional(t: Tally, t': Tally)
    requires forall w :: w in t ==> t[w] >= 1
    requires forall w :: w in t' ==> t'[w] >= 1
    requires forall w :: Get(t, w) == Get(t', w)
    ensures t == t'
  {
    assert forall w :: w in t <==> Get(t, w) >= 1;
    assert forall w :: w in t' <==> Get(t', w) >= 1;
    assert t.Keys == t'.Keys;
  }

  /** The tally does not depend on the order of the rows. */
  lemma ReorderInvariant(rows: seq<Row>, rows': seq<Row>, col: string)
    requires multiset(rows) == multiset(rows')
    ensures EnumerateColumn(rows, col) == EnumerateColumn(rows', col)
  {
    if HasColumn(rows, col) {
      HasColumnPermutation(rows, rows', col);
      CellsPermutation(rows, rows', col);
      var t, t' := EnumerateColumn(rows, col).value, EnumerateColumn(rows', col).value;
      TallyCounts(rows, col);
      TallyCounts(rows', col);
      forall w
        ensures Get(t, w) == Get(t', w)
      {
        CountOfIsMultiplicity(rows, col, w);
        CountOfIsMultiplicity(rows', col, w);
      }
      TallyExtensional(t, t');
    } else if HasColumn(rows', col) {
      HasColumnPermutation(rows', rows, col);
    }
  }
}
