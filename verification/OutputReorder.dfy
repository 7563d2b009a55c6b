/** The order in which observed twoports are put out: a column-major matrix with one row per cell
    (SetOutputVectors). */
module OutputReorder {
  import opened Optional
  import opened Division

  /** std::ceil of the quotient, which is exact for counts below 2^53. */
  function Columns(count: nat, rows: nat): nat
    requires rows > 0
  {
    (count + rows - 1) / rows
  }

  /** How many places the matrix has too many. */
  function Missing(count: nat, rows: nat): int
    requires rows > 0
  {
    rows * Columns(count, rows) - count
  }

  lemma ColumnsFit(count: nat, rows: nat)
    requires rows > 0
    ensures 0 <= Missing(count, rows) < rows
    ensures count > rows ==> Columns(count, rows) >= 2
    ensures Missing(count, rows) == 0 <==> count % rows == 0
  {
    var c := Columns(count, rows);
    assert count + rows - 1 == c * rows + (count + rows - 1) % rows;
    assert c * rows == rows * c;
    if c <= 1 {
      Monotone(c, 1, rows);
    }
    Remainder(count, rows, c);
  }

  lemma Remainder(count: nat, rows: nat, c: nat)
    requires rows > 0 && 0 <= rows * c - count < rows
    ensures rows * c == count <==> count % rows == 0
  {
    var q := count / rows;
    assert count == q * rows + count % rows;
    if count % rows == 0 {
      if c > q {
        Monotone(q + 1, c, rows);
      } else if c < q {
        Monotone(c + 1, q, rows);
      }
    } else if rows * c == count {
      Quotient(c, 0, rows);
    }
  }

  // ---------------------------------------------------------------------------------------------
  // Where every twoport goes
  // ---------------------------------------------------------------------------------------------

  /** The place of the `i`-th observed twoport: cells in the first column, and after them the elements of each
      cell along its row. */
  function Slot(i: nat, rows: nat, columns: nat): nat
    requires columns > 1
  {
    if i < rows then i else PlaceIn((i - rows) % (columns - 1) + 1, (i - rows) / (columns - 1), rows)
  }

  /** The place in this column and row. */
  function PlaceIn(column: nat, row: nat, rows: nat): nat {
    column * rows + row
  }

  /** The `k`-th element of the cell in this row goes to this row, one column further each. */
  lemma SlotOf(row: nat, column: nat, rows: nat, columns: nat)
    requires 0 < column < columns && row < rows
    ensures Slot(rows + row * (columns - 1) + column - 1, rows, columns) == column * rows + row
  {
    Quotient(row, column - 1, columns - 1);
    assert row * (columns - 1) >= 0;
  }

  /** Which element of which cell the `i`-th twoport is. */
  lemma Place(i: nat, rows: nat, columns: nat) returns (row: nat, column: nat)
    requires rows <= i && columns > 1
    ensures 0 < column < columns && i == rows + row * (columns - 1) + column - 1
    ensures Slot(i, rows, columns) == column * rows + row
  {
    row, column := (i - rows) / (columns - 1), (i - rows) % (columns - 1) + 1;
    assert i - rows == row * (columns - 1) + (i - rows) % (columns - 1);
  }

  ghost predicate AllInRange(count: nat, rows: nat)
    requires 0 < rows < count
  {
    ColumnsFit(count, rows);
    forall i: nat :: i < count ==> Slot(i, rows, Columns(count, rows)) < count
  }

  /** The loop stays inside the vector exactly when at most one place of the matrix is missing or the matrix has
      just two columns. */
  ghost predicate Fits(count: nat, rows: nat)
    requires rows > 0
  {
    Missing(count, rows) <= 1 || Columns(count, rows) == 2
  }

  lemma SlotInRange(i: nat, count: nat, rows: nat)
    requires 0 < rows < count && Fits(count, rows) && i < count
    ensures Columns(count, rows) >= 2 && Slot(i, rows, Columns(count, rows)) < count
  {
    hide Slot, Columns;
    ColumnsFit(count, rows);
    var c := Columns(count, rows);
    if i < rows {
      CellStays(i, rows, c);
    } else {
      var row, column := Place(i, rows, c);
      PlaceInRange(i, row, column, count, rows, c);
    }
  }

  lemma PlaceInRange(i: nat, row: nat, column: nat, count: nat, rows: nat, c: nat)
    requires 0 < column < c && i == rows + row * (c - 1) + column - 1 && i < count <= rows * c
    requires count >= rows * c - 1 || c == 2
    ensures column * rows + row < count
  {
    if c == 2 {
      assert column == 1;
    } else {
      RowBound(i, row, column, count, rows, c);
      if column < c - 1 {
        Monotone(column + 1, c - 1, rows);
        assert c * rows == (c - 1) * rows + rows;
      }
    }
  }

  /** With at most one place missing, every row exists, and the last place is not used when it is missing. */
  lemma RowBound(i: nat, row: nat, column: nat, count: nat, rows: nat, c: nat)
    requires 0 < column < c && i == rows + row * (c - 1) + column - 1 && i < count <= rows * c <= count + 1 && c > 2
    ensures row < rows && (column == c - 1 ==> column * rows + row < count)
  {
    assert rows * c == rows + rows * (c - 1);
    if row >= rows {
      Monotone(rows, row, c - 1);
    } else if column == c - 1 {
      assert row * (c - 1) + (c - 1) == (row + 1) * (c - 1);
      assert c * rows == (c - 1) * rows + rows;
      if row == rows - 1 {
        assert (row + 1) * (c - 1) == rows * (c - 1);
      }
    }
  }

  /** Otherwise the last element of some cell goes right behind the vector. */
  lemma SlotOutOfRange(count: nat, rows: nat) returns (i: nat)
    requires 0 < rows < count && !Fits(count, rows)
    ensures Columns(count, rows) >= 2 && rows <= i < count && Slot(i, rows, Columns(count, rows)) == count
  {
    hide Slot, Columns;
    ColumnsFit(count, rows);
    var c, m := Columns(count, rows), Missing(count, rows);
    Enough(m, c - 1);
    BehindTheVector(count, rows, c, m);
    SlotOf(rows - m, c - 1, rows, c);
    i := rows + (rows - m) * (c - 1) + (c - 1) - 1;
  }

  lemma BehindTheVector(count: nat, rows: nat, c: nat, m: nat)
    requires c > 1 && m <= rows && count == rows * c - m && m * (c - 1) >= m + (c - 1)
    ensures (c - 1) * rows + (rows - m) == count
    ensures 0 <= (rows - m) * (c - 1) && rows + (rows - m) * (c - 1) + (c - 1) - 1 < count
  {
    assert (c - 1) * rows + rows == rows * c;
    assert (rows - m) * (c - 1) == rows * (c - 1) - m * (c - 1);
    Monotone(0, rows - m, c - 1);
  }

  lemma Enough(m: nat, d: nat)
    requires m >= 2 && d >= 2
    ensures m * d >= m + d
  {
    assert (m - 1) * (d - 1) >= 1;
    assert (m - 1) * (d - 1) == m * d - m - d + 1;
  }

  lemma InRangeExactly(count: nat, rows: nat)
    requires 0 < rows < count
    ensures AllInRange(count, rows) <==> Fits(count, rows)
  {
    ColumnsFit(count, rows);
    if Fits(count, rows) {
      forall i: nat | i < count
        ensures Slot(i, rows, Columns(count, rows)) < count
      {
        SlotInRange(i, count, rows);
      }
    } else {
      var i := SlotOutOfRange(count, rows);
      assert Slot(i, rows, Columns(count, rows)) == count;
    }
  }

  /** Three cells with four elements between them: the last one goes behind the vector. */
  lemma SevenTwoports()
    ensures Columns(7, 3) == 3 && Slot(6, 3, 3) == 7 && !AllInRange(7, 3)
  {
    ColumnsFit(7, 3);
    assert Slot(6, 3, Columns(7, 3)) == 7;
  }

  /** Different twoports go to different places. */
  lemma SlotIsUnique(i: nat, j: nat, count: nat, rows: nat)
    requires 0 < rows < count && Fits(count, rows) && i < count && j < count
    ensures Columns(count, rows) >= 2
            && (Slot(i, rows, Columns(count, rows)) == Slot(j, rows, Columns(count, rows)) ==> i == j)
  {
    hide Slot, Columns;
    ColumnsFit(count, rows);
    var c := Columns(count, rows);
    var k := WhereFrom(i, count, rows);
    var l := WhereFrom(j, count, rows);
  }

  /** The twoport at a place, found from the place alone. */
  function From(slot: nat, rows: nat, columns: nat): nat
    requires rows > 0 && columns > 1
  {
    if slot < rows then slot
    else
      assert slot / rows >= 1;
      rows + (slot % rows) * (columns - 1) + slot / rows - 1
  }

  lemma WhereFrom(i: nat, count: nat, rows: nat) returns (k: nat)
    requires 0 < rows < count && Fits(count, rows) && i < count
    ensures Columns(count, rows) >= 2
    ensures k == From(Slot(i, rows, Columns(count, rows)), rows, Columns(count, rows)) == i
  {
    hide Slot, Columns;
    ColumnsFit(count, rows);
    var c := Columns(count, rows);
    k := i;
    if i < rows {
      CellStays(i, rows, c);
    } else {
      var row, column := Place(i, rows, c);
      RowExists(i, row, column, count, rows);
      Quotient(column, row, rows);
      Monotone(1, column, rows);
    }
  }

  lemma CellStays(i: nat, rows: nat, columns: nat)
    requires i < rows && columns > 1
    ensures Slot(i, rows, columns) == i
  {
  }

  lemma RowExists(i: nat, row: nat, column: nat, count: nat, rows: nat)
    requires 0 < rows < count && Fits(count, rows) && rows <= i < count && 0 < column < Columns(count, rows)
    requires i == rows + row * (Columns(count, rows) - 1) + column - 1
    ensures row < rows
  {
    hide Columns;
    ColumnsFit(count, rows);
    var c := Columns(count, rows);
    if c > 2 {
      RowBound(i, row, column, count, rows, c);
    }
  }

  /** Every place gets a twoport. */
  lemma EverySlotUsed(slot: nat, count: nat, rows: nat)
    requires 0 < rows < count && Fits(count, rows) && slot < count
    ensures Columns(count, rows) >= 2
    ensures From(slot, rows, Columns(count, rows)) < count
    ensures Slot(From(slot, rows, Columns(count, rows)), rows, Columns(count, rows)) == slot
  {
    hide Slot, Columns;
    ColumnsFit(count, rows);
    var c := Columns(count, rows);
    if slot < rows {
      CellStays(slot, rows, c);
    } else {
      var row, column := slot % rows, slot / rows;
      assert slot == column * rows + row;
      ColumnExists(slot, row, column, count, rows, c);
      SlotOf(row, column, rows, c);
    }
  }

  lemma ColumnExists(slot: nat, row: nat, column: nat, count: nat, rows: nat, c: nat)
    requires rows <= slot < count <= rows * c && slot == column * rows + row && row < rows && c > 1
    requires count >= rows * c - 1 || c == 2
    ensures 0 < column < c && 0 <= row * (c - 1) && rows + row * (c - 1) + column - 1 < count
  {
    if column >= c {
      Monotone(c, column, rows);
    }
    Monotone(0, row, c - 1);
    Monotone(row, rows - 1, c - 1);
    assert (rows - 1) * (c - 1) == rows * c - rows - c + 1;
    if c == 2 {
      assert column == 1;
    } else if row == rows - 1 && column == c - 1 {
      assert (c - 1) * rows == rows * c - rows;
    } else if row < rows - 1 {
      Monotone(row + 1, rows - 1, c - 1);
      assert (row + 1) * (c - 1) == row * (c - 1) + (c - 1);
    }
  }

  // ---------------------------------------------------------------------------------------------
  // The loop
  // ---------------------------------------------------------------------------------------------

  /** Fills the vector: every place once, cells in the first column in their order, and the elements of each cell
      in its row. */
  method Reorder<T>(observed: seq<T>, numberOfCells: nat) returns (twoports: seq<Option<T>>)
    requires 0 < numberOfCells < |observed| && Fits(|observed|, numberOfCells)
    ensures |twoports| == |observed| && Columns(|observed|, numberOfCells) >= 2
    ensures forall i :: 0 <= i < |observed| ==>
              From(i, numberOfCells, Columns(|observed|, numberOfCells)) < |observed|
              && twoports[i] == Some(observed[From(i, numberOfCells, Columns(|observed|, numberOfCells))])
  {
    hide Columns, Slot, From;
    ColumnsFit(|observed|, numberOfCells);
    ghost var n := |observed|;
    twoports := seq(|observed|, i => None);
    var outputRows := numberOfCells;
    var outputColumns := Columns(|observed|, outputRows);
    var i := 0;
    while i < numberOfCells
      invariant i <= numberOfCells && |twoports| == n
      invariant forall j :: 0 <= j < i ==> twoports[j] == Some(observed[j])
    {
      twoports := twoports[i := Some(observed[i])];
      i := i + 1;
    }
    forall j: nat | j < numberOfCells
      ensures Slot(j, outputRows, outputColumns) == j
    {
      CellStays(j, outputRows, outputColumns);
    }
    while i < |observed|
      invariant numberOfCells <= i <= n == |twoports|
      invariant forall j: nat :: j < i ==>
                  Slot(j, outputRows, outputColumns) < n
                  && twoports[Slot(j, outputRows, outputColumns)] == Some(observed[j])
    {
      var row := (i - numberOfCells) / (outputColumns - 1);
      var column := (i - numberOfCells) % (outputColumns - 1) + 1;
      SlotInRange(i, n, outputRows);
      SlotHere(i, outputRows, outputColumns);
      forall j: nat | j < i
        ensures Slot(j, outputRows, outputColumns) != Slot(i, outputRows, outputColumns)
      {
        SlotIsUnique(i, j, n, outputRows);
      }
      twoports := twoports[column * outputRows + row := Some(observed[i])];
      i := i + 1;
    }
    forall s: nat | s < n
      ensures From(s, outputRows, outputColumns) < n
              && twoports[s] == Some(observed[From(s, outputRows, outputColumns)])
    {
      EverySlotUsed(s, n, outputRows);
    }
  }

  lemma SlotHere(i: nat, rows: nat, columns: nat)
    requires rows <= i && columns > 1
    ensures Slot(i, rows, columns) == ((i - rows) % (columns - 1) + 1) * rows + (i - rows) / (columns - 1)
  {
  }

  /** When the count is a multiple of the cells, the matrix is full: the row of a cell holds the cell and then its
      own `columns - 1` elements. */
  lemma RowOfCell<T>(observed: seq<T>, numberOfCells: nat, twoports: seq<Option<T>>, row: nat, column: nat)
    requires 0 < numberOfCells < |observed| && |observed| % numberOfCells == 0 && row < numberOfCells
    requires column < Columns(|observed|, numberOfCells) && |twoports| == |observed|
             && Columns(|observed|, numberOfCells) >= 2
    requires forall i :: 0 <= i < |observed| ==>
               From(i, numberOfCells, Columns(|observed|, numberOfCells)) < |observed|
               && twoports[i] == Some(observed[From(i, numberOfCells, Columns(|observed|, numberOfCells))])
    ensures var c := Columns(|observed|, numberOfCells);
            var k := if column == 0 then row else numberOfCells + row * (c - 1) + column - 1;
            && 0 <= k < |observed| && column * numberOfCells + row < |observed|
            && twoports[column * numberOfCells + row] == Some(observed[k])
  {
    ColumnsFit(|observed|, numberOfCells);
    var c := Columns(|observed|, numberOfCells);
    hide Columns;
    Monotone(column + 1, c, numberOfCells);
    assert (column + 1) * numberOfCells == column * numberOfCells + numberOfCells;
    Quotient(column, row, numberOfCells);
    if column == 0 {
      assert column * numberOfCells == 0;
    } else {
      Monotone(1, column, numberOfCells);
    }
  }
}
