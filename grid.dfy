/** Where the letters of an assignment land on the grid. */
module Grid {
  import opened Puzzle
  import opened Constraints

  type Letters = seq<seq<Option<char>>>

  /** `letters` has `height` rows of `width` cells. */
  predicate IsGrid(letters: Letters, height: nat, width: nat)
  {
    |letters| == height && forall r | 0 <= r < height :: |letters[r]| == width
  }

  /** Some slot of `vs` writes letter `ch` at row r, column c. */
  predicate Shows(a: Assignment, vs: set<Variable>, r: int, c: int, ch: char)
  {
    exists v, k | v in vs && v in a && 0 <= k < |a[v]| :: Row(v, k) == r && Col(v, k) == c && a[v][k] == ch
  }

  /** Some slot of `vs` writes a letter at row r, column c. */
  predicate Covered(a: Assignment, vs: set<Variable>, r: int, c: int)
  {
    exists v, k | v in vs && v in a && 0 <= k < |a[v]| :: Row(v, k) == r && Col(v, k) == c
  }

  /** In a consistent fill two letters written to the same cell are equal, so
      the order in which slots are written does not matter. */
  lemma SameCellSameLetter(cw: Crossword, a: Assignment, v1: Variable, k1: nat, v2: Variable, k2: nat)
    requires SharedCellsOverlap(cw) && OverlapsAgree(cw, a)
    requires v1 in a && v2 in a && v1 in cw.variables && v2 in cw.variables
    requires k1 < |a[v1]| <= v1.length && k2 < |a[v2]| <= v2.length
    requires Row(v1, k1) == Row(v2, k2) && Col(v1, k1) == Col(v2, k2)
    ensures a[v1][k1] == a[v2][k2]
  {
    if v1 != v2 {
      assert cw.overlaps[(v1, v2)] == (k1, k2);
      assert Agree(a[v1], a[v2], (k1, k2));
    }
  }

  /** The cell at row r, column c; None outside the grid. */
  function Cell(letters: Letters, r: int, c: int): Option<char>
  {
    if 0 <= r < |letters| && 0 <= c < |letters[r]| then letters[r][c] else None
  }

  /** The grid with letter `ch` written at row i, column j. */
  function Write(letters: Letters, i: int, j: int, ch: char): (r: Letters)
    requires 0 <= i < |letters| && 0 <= j < |letters[i]|
    ensures |r| == |letters| && forall row | 0 <= row < |r| :: |r[row]| == |letters[row]|
    ensures forall row, col :: Cell(r, row, col) == if row == i && col == j then Some(ch) else Cell(letters, row, col)
  {
    letters[i := letters[i][j := Some(ch)]]
  }

  /** Every filled cell shows a letter some assigned slot writes there. */
  ghost predicate OnlyShows(letters: Letters, a: Assignment)
  {
    forall r, c | Cell(letters, r, c).Some? :: Shows(a, a.Keys, r, c, Cell(letters, r, c).value)
  }

  /** The cells of the first n letters of slot u are filled. */
  predicate Written(letters: Letters, a: Assignment, u: Variable, n: int)
    requires u in a
  {
    forall m | 0 <= m < n && m < |a[u]| :: Cell(letters, Row(u, m), Col(u, m)).Some?
  }

  /** The cells of the first n letters of slot u show u's word. */
  predicate WrittenAs(letters: Letters, a: Assignment, u: Variable, n: int)
    requires u in a
  {
    forall m | 0 <= m < n && m < |a[u]| :: Cell(letters, Row(u, m), Col(u, m)) == Some(a[u][m])
  }

  /** Writing letter k of slot v keeps every filled cell filled and every
      filled cell showing an assigned letter. */
  lemma WriteKeepsFilled(letters: Letters, a: Assignment, v: Variable, k: nat, done: set<Variable>)
    requires v in a && k < |a[v]|
    requires 0 <= Row(v, k) < |letters| && 0 <= Col(v, k) < |letters[Row(v, k)]|
    requires OnlyShows(letters, a) && Written(letters, a, v, k)
    requires forall u | u in done :: u in a && Written(letters, a, u, |a[u]|)
    ensures OnlyShows(Write(letters, Row(v, k), Col(v, k), a[v][k]), a)
    ensures Written(Write(letters, Row(v, k), Col(v, k), a[v][k]), a, v, k + 1)
    ensures forall u | u in done :: Written(Write(letters, Row(v, k), Col(v, k), a[v][k]), a, u, |a[u]|)
  {
    var next := Write(letters, Row(v, k), Col(v, k), a[v][k]);
    forall r, c | Cell(next, r, c).Some? ensures Shows(a, a.Keys, r, c, Cell(next, r, c).value) {
      if r == Row(v, k) && c == Col(v, k) {
        assert Row(v, k) == r && Col(v, k) == c && a[v][k] == Cell(next, r, c).value;
      }
    }
  }

  /** In a consistent fill, writing letter k of slot v keeps every slot's
      letters intact. */
  lemma WriteKeepsWords(cw: Crossword, letters: Letters, a: Assignment, v: Variable, k: nat, done: set<Variable>)
    requires SharedCellsOverlap(cw) && OverlapsAgree(cw, a)
    requires forall u | u in a :: u in cw.variables && |a[u]| <= u.length
    requires v in a && k < |a[v]|
    requires 0 <= Row(v, k) < |letters| && 0 <= Col(v, k) < |letters[Row(v, k)]|
    requires WrittenAs(letters, a, v, k)
    requires forall u | u in done :: u in a && WrittenAs(letters, a, u, |a[u]|)
    ensures WrittenAs(Write(letters, Row(v, k), Col(v, k), a[v][k]), a, v, k + 1)
    ensures forall u | u in done :: WrittenAs(Write(letters, Row(v, k), Col(v, k), a[v][k]), a, u, |a[u]|)
  {
    forall u, m | u in a && 0 <= m < |a[u]| && Row(u, m) == Row(v, k) && Col(u, m) == Col(v, k)
      ensures a[u][m] == a[v][k]
    {
      SameCellSameLetter(cw, a, u, m, v, k);
    }
  }

  /** A grid whose filled cells show assigned letters and in which every
      assigned letter's cell is filled is filled exactly on the covered cells. */
  lemma FilledExactlyCovered(letters: Letters, a: Assignment, height: nat, width: nat)
    requires IsGrid(letters, height, width) && OnlyShows(letters, a)
    requires forall u | u in a :: Written(letters, a, u, |a[u]|)
    ensures forall r, c | 0 <= r < height && 0 <= c < width ::
              letters[r][c].Some? <==> Covered(a, a.Keys, r, c)
    ensures forall r, c | 0 <= r < height && 0 <= c < width && letters[r][c].Some? ::
              Shows(a, a.Keys, r, c, letters[r][c].value)
  {
    forall r, c | 0 <= r < height && 0 <= c < width
      ensures letters[r][c].Some? <==> Covered(a, a.Keys, r, c)
    {
      assert Cell(letters, r, c) == letters[r][c];
      if letters[r][c].Some? {
        var u, m :| u in a.Keys && u in a && 0 <= m < |a[u]| && Row(u, m) == r && Col(u, m) == c
                    && a[u][m] == letters[r][c].value;
      }
      if Covered(a, a.Keys, r, c) {
        var u, m :| u in a.Keys && u in a && 0 <= m < |a[u]| && Row(u, m) == r && Col(u, m) == c;
        assert Written(letters, a, u, |a[u]|);
      }
    }
    forall r, c | 0 <= r < height && 0 <= c < width && letters[r][c].Some?
      ensures Shows(a, a.Keys, r, c, letters[r][c].value)
    {
      assert Cell(letters, r, c) == letters[r][c];
    }
  }
}
