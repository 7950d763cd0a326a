/** Saddle points of a two-player zero-sum game (nash.py). Rows are Player 1's
    actions, columns Player 2's, and each entry is Player 1's payoff. */
module Nash {
  import opened Scans
  import opened Matrices

  /** An action together with the payoff it guarantees. */
  datatype Guarantee = Guarantee(index: nat, value: int)

  /** A saddle point: row, column and the value of the game. */
  datatype SaddlePoint = SaddlePoint(row: nat, col: nat, value: int)

  datatype Option<T> = None | Some(value: T)

  /** numpy raises on a max reduction over an empty axis. */
  datatype Failure = EmptyReduction

  datatype Result<T> = Ok(value: T) | Err(error: Failure)

  // ---------------------------------------------------------------------
  // Row maximin and column minimax
  // ---------------------------------------------------------------------

  /** Each row's minimum (np.min, axis 1). */
  function RowMins(m: Matrix): (mins: seq<int>)
    requires m.Valid() && m.cols > 0
    ensures |mins| == m.rows
    ensures forall i :: 0 <= i < m.rows ==> mins[i] == Min(m.entries[i])
  {
    seq(m.rows, i requires 0 <= i < m.rows => Min(m.entries[i]))
  }

  /** Each column's maximum (np.max, axis 0). */
  function ColMaxes(m: Matrix): (maxes: seq<int>)
    requires m.Valid() && m.rows > 0
    ensures |maxes| == m.cols
    ensures forall j :: 0 <= j < m.cols ==> maxes[j] == Max(Column(m, j))
  {
    seq(m.cols, j requires 0 <= j < m.cols => Max(Column(m, j)))
  }

  /** Player 1's maximin strategy: the first row whose minimum is largest. */
  function RowMaximin(m: Matrix): (g: Guarantee)
    requires m.Valid() && m.rows > 0 && m.cols > 0
    ensures g.index < m.rows && g.value == Min(m.entries[g.index])
    ensures forall i :: 0 <= i < m.rows ==> Min(m.entries[i]) <= g.value
    ensures forall i :: 0 <= i < g.index ==> Min(m.entries[i]) < g.value
  {
    var mins := RowMins(m);
    var k := ArgMax(mins);
    Guarantee(k, mins[k])
  }

  /** Player 2's minimax strategy: the first column whose maximum is smallest. */
  function ColumnMinimax(m: Matrix): (g: Guarantee)
    requires m.Valid() && m.rows > 0 && m.cols > 0
    ensures g.index < m.cols && g.value == Max(Column(m, g.index))
    ensures forall j :: 0 <= j < m.cols ==> g.value <= Max(Column(m, j))
    ensures forall j :: 0 <= j < g.index ==> g.value < Max(Column(m, j))
  {
    var maxes := ColMaxes(m);
    var k := ArgMin(maxes);
    Guarantee(k, maxes[k])
  }

  /** The minimax inequality: what Player 1 can guarantee never exceeds what
      Player 2 can hold Player 1 to. */
  lemma {:induction false} MaximinAtMostMinimax(m: Matrix)
    requires m.Valid() && m.rows > 0 && m.cols > 0
    ensures RowMaximin(m).value <= ColumnMinimax(m).value
  {
  }

  // ---------------------------------------------------------------------
  // Row and column elimination
  // ---------------------------------------------------------------------

  /** Every entry of the row is the same. */
  predicate IsConstant(row: seq<int>) {
    forall j, k :: 0 <= j < |row| && 0 <= k < |row| ==> row[j] == row[k]
  }

  /** The row test: every entry of row `i` is at most that row's minimum. */
  predicate RowDominated(m: Matrix, rowMin: seq<int>, i: nat)
    requires m.Valid() && |rowMin| == m.rows && i < m.rows
  {
    forall j :: 0 <= j < m.cols ==> m.entries[i][j] <= rowMin[i]
  }

  /** The positions of the rows that pass the row test. */
  function DominatedRows(m: Matrix, rowMin: seq<int>): set<nat>
    requires m.Valid() && |rowMin| == m.rows
  {
    set i: nat | i < m.rows && RowDominated(m, rowMin, i)
  }

  /** The column test: every entry of column `j` is at most that column's maximum. */
  predicate ColumnDominated(m: Matrix, colMax: seq<int>, j: nat)
    requires m.Valid() && |colMax| == m.cols && j < m.cols
  {
    forall i :: 0 <= i < m.rows ==> m.entries[i][j] <= colMax[j]
  }

  /** The positions of the columns that pass the column test. */
  function DominatedCols(m: Matrix, colMax: seq<int>): set<nat>
    requires m.Valid() && |colMax| == m.cols
  {
    set j: nat | j < m.cols && ColumnDominated(m, colMax, j)
  }

  /** The row half of one elimination pass. */
  function RowPass(m: Matrix): (r: Matrix)
    requires m.Valid() && m.cols > 0
    ensures r.Valid() && r.cols == m.cols && r.rows <= m.rows
  {
    DeleteRows(m, DominatedRows(m, RowMins(m)))
  }

  /** The column half of one elimination pass; computing the column maxima
      fails when no row is left. */
  function ColumnPass(m: Matrix): (r: Result<Matrix>)
    requires m.Valid()
    ensures r.Err? <==> m.rows == 0
    ensures r.Ok? ==> r.value.Valid() && r.value.rows == m.rows && r.value.cols <= m.cols
  {
    if m.rows == 0 then Err(EmptyReduction)
    else Ok(DeleteCols(m, DominatedCols(m, ColMaxes(m))))
  }

  /** What the elimination loop computes: nothing happens to a matrix with at
      most two rows or at most two columns; otherwise the loop stops after one
      row pass and one column pass. */
  function Eliminated(m: Matrix): (r: Result<Matrix>)
    requires m.Valid()
    ensures r.Ok? ==> r.value.Valid() && r.value.rows <= m.rows && r.value.cols <= m.cols
  {
    if m.rows > 2 && m.cols > 2 then ColumnPass(RowPass(m)) else Ok(m)
  }

  /** The non-constant rows of `s`, in their original order: what the row test keeps. */
  function NonConstantRows(s: seq<seq<int>>): (r: seq<seq<int>>)
    ensures |r| <= |s|
    ensures forall x :: x in r <==> x in s && !IsConstant(x)
  {
    if |s| == 0 then []
    else
      NonConstantRows(s[..|s| - 1]) + (if IsConstant(s[|s| - 1]) then [] else [s[|s| - 1]])
  }

  /** With no constant row, every row is kept. */
  lemma {:induction false} NoConstantRowDeleted(s: seq<seq<int>>)
    requires forall i :: 0 <= i < |s| ==> !IsConstant(s[i])
    ensures NonConstantRows(s) == s
  {
    if |s| > 0 {
      var p, last := s[..|s| - 1], s[|s| - 1];
      assert s == p + [last];
      forall i | 0 <= i < |p|
        ensures !IsConstant(p[i])
      {
        assert p[i] == s[i];
      }
      NoConstantRowDeleted(p);
      assert !IsConstant(last);
      assert NonConstantRows(s) == p + [last];
    }
  }

  /** The row test selects exactly the constant rows. */
  lemma RowTestSelectsConstantRows(m: Matrix, i: nat)
    requires m.Valid() && m.cols > 0 && i < m.rows
    ensures RowDominated(m, RowMins(m), i) <==> IsConstant(m.entries[i])
  {
  }

  /** Deleting the positions of the constant rows keeps the other rows in order. */
  lemma {:induction false} DeleteConstantPositions(s: seq<seq<int>>, drop: set<nat>)
    requires forall i: nat :: i < |s| ==> (i in drop <==> IsConstant(s[i]))
    ensures DeleteIndices(s, drop) == NonConstantRows(s)
  {
    if |s| > 0 {
      var p := s[..|s| - 1];
      forall i: nat | i < |p|
        ensures i in drop <==> IsConstant(p[i])
      {
        assert p[i] == s[i];
      }
      DeleteConstantPositions(p, drop);
    }
  }

  /** The row pass deletes exactly the constant rows and keeps the others in
      their original order. */
  lemma RowPassKeepsNonConstantRows(m: Matrix)
    requires m.Valid() && m.cols > 0
    ensures RowPass(m).entries == NonConstantRows(m.entries)
    ensures RowPass(m).rows == |NonConstantRows(m.entries)|
  {
    var drop := DominatedRows(m, RowMins(m));
    forall i: nat | i < |m.entries|
      ensures i in drop <==> IsConstant(m.entries[i])
    {
      RowTestSelectsConstantRows(m, i);
    }
    DeleteConstantPositions(m.entries, drop);
  }

  /** The column test holds of every column as soon as one row is left, so
      the column pass deletes every column. */
  lemma ColumnPassDeletesEveryColumn(m: Matrix)
    requires m.Valid() && m.rows > 0
    ensures forall j: nat :: j < m.cols ==> j in DominatedCols(m, ColMaxes(m))
    ensures ColumnPass(m).Ok? && ColumnPass(m).value.cols == 0
    ensures ColumnPass(m).value.rows == m.rows
  {
    var colMax := ColMaxes(m);
    forall j: nat | j < m.cols
      ensures ColumnDominated(m, colMax, j)
    {
      forall i | 0 <= i < m.rows
        ensures m.entries[i][j] <= colMax[j]
      {
        assert Column(m, j)[i] == m.entries[i][j];
      }
    }
    DeleteEverything(m.cols, DominatedCols(m, colMax));
  }

  /** Nothing but constant rows: there is no non-constant row to keep. */
  lemma {:induction false} AllConstantIffNoneKept(s: seq<seq<int>>)
    ensures (forall i :: 0 <= i < |s| ==> IsConstant(s[i])) <==> |NonConstantRows(s)| == 0
  {
    var r := NonConstantRows(s);
    if |r| > 0 {
      assert r[0] in s && !IsConstant(r[0]);
      var w :| 0 <= w < |s| && s[w] == r[0];
    }
    if !forall i :: 0 <= i < |s| ==> IsConstant(s[i]) {
      var i :| 0 <= i < |s| && !IsConstant(s[i]);
      assert s[i] in r;
    }
  }

  /** A matrix with at most two rows or at most two columns is returned unchanged. */
  lemma EliminationKeepsSmallMatrix(m: Matrix)
    requires m.Valid() && (m.rows <= 2 || m.cols <= 2)
    ensures Eliminated(m) == Ok(m)
  {
  }

  /** A matrix with more than two rows and more than two columns either fails
      (exactly when every row is constant) or loses every column; the rows left
      are its non-constant rows. */
  lemma EliminationOfLargeMatrix(m: Matrix)
    requires m.Valid() && m.rows > 2 && m.cols > 2
    ensures Eliminated(m).Err? <==> forall i :: 0 <= i < m.rows ==> IsConstant(m.entries[i])
    ensures Eliminated(m).Ok? ==> Eliminated(m).value.cols == 0
    ensures Eliminated(m).Ok? ==> Eliminated(m).value.rows == |NonConstantRows(m.entries)|
  {
    RowPassKeepsNonConstantRows(m);
    AllConstantIffNoneKept(m.entries);
    if RowPass(m).rows > 0 {
      ColumnPassDeletesEveryColumn(RowPass(m));
    }
  }

  /** Eliminating again changes nothing. */
  lemma EliminationIdempotent(m: Matrix)
    requires m.Valid() && Eliminated(m).Ok?
    ensures Eliminated(Eliminated(m).value) == Eliminated(m)
  {
    if m.rows > 2 && m.cols > 2 {
      EliminationOfLargeMatrix(m);
    }
  }

  /** The elimination loop: while the matrix has more than two rows and more
      than two columns, delete the rows that pass the row test, then the
      columns that pass the column test, and stop once both dimensions are at
      most two. */
  method RowAndColumnElimination(m: Matrix) returns (res: Result<Matrix>)
    requires m.Valid()
    ensures res == Eliminated(m)
  {
    var cur := m;
    while cur.rows > 2 && cur.cols > 2
      invariant cur.Valid()
      invariant cur == m || (cur.cols == 0 && Eliminated(m) == Ok(cur))
      decreases cur.cols
    {
      var rowMin := RowMins(cur);
      var dominatedRows := DominatedRows(cur, rowMin);
      cur := DeleteRows(cur, dominatedRows);
      if cur.rows == 0 {
        return Err(EmptyReduction);
      }
      ColumnPassDeletesEveryColumn(cur);
      var colMax := ColMaxes(cur);
      var dominatedCols := DominatedCols(cur, colMax);
      cur := DeleteCols(cur, dominatedCols);
      if cur.rows <= 2 && cur.cols <= 2 {
        break;
      }
    }
    return Ok(cur);
  }

  // ---------------------------------------------------------------------
  // Saddle point
  // ---------------------------------------------------------------------

  /** Entry (i, j) is the smallest of its row and the largest of its column. */
  predicate IsSaddleEntry(m: Matrix, i: nat, j: nat)
    requires m.Valid() && i < m.rows && j < m.cols
  {
    (forall k :: 0 <= k < m.cols ==> m.entries[i][j] <= m.entries[i][k]) &&
    (forall k :: 0 <= k < m.rows ==> m.entries[k][j] <= m.entries[i][j])
  }

  /** Reduce the matrix, give up when it has fewer than two rows or columns,
      and otherwise report the maximin row, the minimax column and their
      common value when maximin equals minimax. */
  function FindSaddlePoint(m: Matrix): (r: Result<Option<SaddlePoint>>)
    requires m.Valid()
    ensures r.Ok? && r.value.Some? ==> r.value.value.row < m.rows && r.value.value.col < m.cols
    ensures r.Err? ==> m.rows > 2 && m.cols > 2
  {
    match Eliminated(m)
    case Err(e) => Err(e)
    case Ok(reduced) =>
      if reduced.rows < 2 || reduced.cols < 2 then Ok(None)
      else
        var rowChoice := RowMaximin(reduced);
        var colChoice := ColumnMinimax(reduced);
        if rowChoice.value == colChoice.value
        then Ok(Some(SaddlePoint(rowChoice.index, colChoice.index, rowChoice.value)))
        else Ok(None)
  }

  /** On a matrix that elimination leaves alone and that has at least two rows
      and columns, the search compares maximin with minimax directly. */
  lemma SaddlePointOfUnreducedMatrix(m: Matrix)
    requires m.Valid() && m.rows >= 2 && m.cols >= 2 && (m.rows <= 2 || m.cols <= 2)
    ensures var rowChoice, colChoice := RowMaximin(m), ColumnMinimax(m);
      FindSaddlePoint(m) ==
        if rowChoice.value == colChoice.value
        then Ok(Some(SaddlePoint(rowChoice.index, colChoice.index, rowChoice.value)))
        else Ok(None)
  {
    EliminationKeepsSmallMatrix(m);
  }

  /** Fewer than two rows or columns (a 1 x 1 game among them): no saddle point. */
  lemma NoSaddlePointForThinMatrix(m: Matrix)
    requires m.Valid() && (m.rows < 2 || m.cols < 2)
    ensures FindSaddlePoint(m) == Ok(None)
  {
  }

  /** More than two rows and more than two columns: no saddle point is ever
      reported, and the search fails exactly when every row is constant. */
  lemma NoSaddlePointForLargeMatrix(m: Matrix)
    requires m.Valid() && m.rows > 2 && m.cols > 2
    ensures FindSaddlePoint(m).Err? <==> forall i :: 0 <= i < m.rows ==> IsConstant(m.entries[i])
    ensures FindSaddlePoint(m).Ok? ==> FindSaddlePoint(m).value == None
  {
    EliminationOfLargeMatrix(m);
  }

  /** A saddle point is only reported for a game with at least two rows and
      two columns and at most two of one of them. */
  lemma ReportedOnlyForUnreducedShape(m: Matrix)
    requires m.Valid()
    ensures FindSaddlePoint(m).Ok? && FindSaddlePoint(m).value.Some? ==>
      m.rows >= 2 && m.cols >= 2 && (m.rows == 2 || m.cols == 2)
  {
    if m.rows < 2 || m.cols < 2 {
      NoSaddlePointForThinMatrix(m);
    } else if m.rows > 2 && m.cols > 2 {
      NoSaddlePointForLargeMatrix(m);
    }
  }

  /** A reported saddle point indexes the original matrix (elimination left
      it alone), its value is both the maximin and the minimax value, and the
      entry there is the minimum of its row and the maximum of its column. */
  lemma ReportedSaddlePointIsSaddleEntry(m: Matrix)
    requires m.Valid()
    ensures FindSaddlePoint(m).Ok? && FindSaddlePoint(m).value.Some? ==>
      && m.rows >= 2 && m.cols >= 2 && (m.rows == 2 || m.cols == 2)
      && Eliminated(m) == Ok(m)
      && var s := FindSaddlePoint(m).value.value;
      && s.row < m.rows && s.col < m.cols
      && s.row == RowMaximin(m).index && s.col == ColumnMinimax(m).index
      && s.value == RowMaximin(m).value == ColumnMinimax(m).value
      && m.entries[s.row][s.col] == s.value
      && IsSaddleEntry(m, s.row, s.col)
  {
    ReportedOnlyForUnreducedShape(m);
    if FindSaddlePoint(m).Ok? && FindSaddlePoint(m).value.Some? {
      SaddlePointOfUnreducedMatrix(m);
      EliminationKeepsSmallMatrix(m);
      var rowChoice := RowMaximin(m);
      var colChoice := ColumnMinimax(m);
      var r, c, v := rowChoice.index, colChoice.index, rowChoice.value;
      assert v == Min(m.entries[r]) == Max(Column(m, c));
      assert m.entries[r][c] == v by {
        assert Column(m, c)[r] == m.entries[r][c];
      }
      forall k | 0 <= k < m.rows
        ensures m.entries[k][c] <= v
      {
        assert Column(m, c)[k] == m.entries[k][c];
      }
    }
  }

  /** Conversely, when elimination leaves the matrix alone and it has at
      least two rows and columns, any saddle entry is found: a saddle point
      with that entry's value is reported. */
  lemma SaddleEntryIsReported(m: Matrix, i: nat, j: nat)
    requires m.Valid() && m.rows >= 2 && m.cols >= 2 && (m.rows <= 2 || m.cols <= 2)
    requires i < m.rows && j < m.cols && IsSaddleEntry(m, i, j)
    ensures FindSaddlePoint(m).Ok? && FindSaddlePoint(m).value.Some?
    ensures FindSaddlePoint(m).value.value.value == m.entries[i][j]
  {
    var v := m.entries[i][j];
    SaddlePointOfUnreducedMatrix(m);
    var rowChoice := RowMaximin(m);
    var colChoice := ColumnMinimax(m);
    assert Min(m.entries[i]) == v;
    assert Column(m, j)[i] == v;
    assert Max(Column(m, j)) == v by {
      var w :| 0 <= w < m.rows && Column(m, j)[w] == Max(Column(m, j));
      assert Column(m, j)[w] == m.entries[w][j];
    }
    MaximinAtMostMinimax(m);
    assert v <= rowChoice.value <= colChoice.value <= v;
  }

  // ---------------------------------------------------------------------
  // The example games of the demonstration driver
  // ---------------------------------------------------------------------

  /** The 2 x 2 game [[1, 2], [0, 3]] has its saddle point at row 0, column 0. */
  lemma TwoByTwoExample()
    ensures FindSaddlePoint(Matrix(2, 2, [[1, 2], [0, 3]])) == Ok(Some(SaddlePoint(0, 0, 1)))
  {
    var m := Matrix(2, 2, [[1, 2], [0, 3]]);
    assert Column(m, 0) == [1, 0];
    assert IsSaddleEntry(m, 0, 0);
    SaddleEntryIsReported(m, 0, 0);
    ReportedSaddlePointIsSaddleEntry(m);
    assert Min(m.entries[0]) == 1;
    assert Max(Column(m, 0)) == 1;
  }

  /** The 3 x 3 game [[1, -1, 3], [2, 0, -2], [-1, 4, -1]] has no constant row,
      so elimination keeps its three rows and deletes all three columns. */
  lemma ThreeByThreeElimination()
    ensures var r := Eliminated(Matrix(3, 3, [[1, -1, 3], [2, 0, -2], [-1, 4, -1]]));
      r.Ok? && r.value.rows == 3 && r.value.cols == 0
  {
    var m := Matrix(3, 3, [[1, -1, 3], [2, 0, -2], [-1, 4, -1]]);
    assert !IsConstant(m.entries[0]) by { assert m.entries[0][0] != m.entries[0][1]; }
    assert !IsConstant(m.entries[1]) by { assert m.entries[1][0] != m.entries[1][1]; }
    assert !IsConstant(m.entries[2]) by { assert m.entries[2][0] != m.entries[2][1]; }
    NoConstantRowDeleted(m.entries);
    assert |NonConstantRows(m.entries)| == 3;
    EliminationOfLargeMatrix(m);
  }

  /** The same game reports no saddle point. */
  lemma ThreeByThreeExample()
    ensures FindSaddlePoint(Matrix(3, 3, [[1, -1, 3], [2, 0, -2], [-1, 4, -1]])) == Ok(None)
  {
    var m := Matrix(3, 3, [[1, -1, 3], [2, 0, -2], [-1, 4, -1]]);
    assert !IsConstant(m.entries[0]) by { assert m.entries[0][0] != m.entries[0][1]; }
    NoSaddlePointForLargeMatrix(m);
  }

  /** A 1 x 1 game reports no saddle point. */
  lemma OneByOneExample()
    ensures FindSaddlePoint(Matrix(1, 1, [[5]])) == Ok(None)
  {
  }
}
