/** The board-shape check made before a game or an experiment starts: a board
    whose column count is odd and whose row count is even is not symmetrical
    between the two sides, and a warning is shown. */
module BoardSymmetry {

  /** Twice k; named so that parity can be stated with a witness. */
  function Twice(k: int): int
  {
    2 * k
  }

  /** Whether the asymmetry warning is shown for a board of `numRows` rows and
      `numColumns` columns. The remainder by 2 is 0 or 1 for negative counts
      too, as it is in the source language, so the condition reads the same
      for every integer. */
  predicate ShowsAsymmetryWarning(numRows: int, numColumns: int)
  {
    numColumns % 2 == 1 && numRows % 2 == 0
  }

  /** The warning is shown exactly when the column count is odd and the row
      count is even, in the sense of an explicit witness: numColumns is
      2c + 1 and numRows is 2r for some integers c and r. */
  lemma WarningIffOddColumnsEvenRows(numRows: int, numColumns: int)
    ensures ShowsAsymmetryWarning(numRows, numColumns) <==>
      (exists c :: numColumns == Twice(c) + 1) && (exists r :: numRows == Twice(r))
  {
    var c, r := numColumns / 2, numRows / 2;
    assert numColumns == Twice(c) + numColumns % 2;
    assert numRows == Twice(r) + numRows % 2;
    if (exists c' :: numColumns == Twice(c') + 1) && (exists r' :: numRows == Twice(r')) {
      var c' :| numColumns == Twice(c') + 1;
      var r' :| numRows == Twice(r');
      assert numColumns % 2 == 1;
      assert numRows % 2 == 0;
    }
  }
}
