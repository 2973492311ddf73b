/** The crossword structure the solver consumes, taken as given values: the
    slots ("variables"), the vocabulary, the overlap offsets between slots and
    the grid's size. Nothing here changes during a solve. */
module Puzzle {

  datatype Option<T> = None | Some(value: T)

  datatype Direction = Across | Down

  /** A slot: the row and column of its first cell, its orientation, its length. */
  datatype Variable = Variable(i: int, j: int, direction: Direction, length: nat)

  /** An ordered pair of slots, as used for overlap lookups and AC-3 arcs. */
  type Arc = (Variable, Variable)

  /** Offsets (ix, iy): letter ix of x's word must equal letter iy of y's word. */
  type Offsets = (nat, nat)

  /** The collaborator the solver reads. `words` is the vocabulary in the
      iteration order of the set it was read into; an arc absent from
      `overlaps` is an arc whose overlap is None. */
  datatype Crossword = Crossword(
    height: nat,
    width: nat,
    variables: set<Variable>,
    words: seq<string>,
    overlaps: map<Arc, Offsets>)

  /** What the overlap map computed from the grid guarantees: only distinct
      slots overlap, the offsets lie inside both slots, and the map is
      symmetric with the offsets swapped. */
  ghost predicate WellFormed(cw: Crossword)
  {
    && (forall x, y | (x, y) in cw.overlaps :: x in cw.variables && y in cw.variables && x != y)
    && (forall x, y | (x, y) in cw.overlaps ::
          cw.overlaps[(x, y)].0 < x.length && cw.overlaps[(x, y)].1 < y.length)
    && (forall x, y | (x, y) in cw.overlaps ::
          (y, x) in cw.overlaps && cw.overlaps[(y, x)] == (cw.overlaps[(x, y)].1, cw.overlaps[(x, y)].0))
  }

  /** The slots that share a cell with `x`. */
  function Neighbors(cw: Crossword, x: Variable): set<Variable>
  {
    set y | y in cw.variables && y != x && (x, y) in cw.overlaps
  }

  /** The number of neighbours of `x`, the tie-break of the variable order. */
  function Degree(cw: Crossword, x: Variable): nat
  {
    |Neighbors(cw, x)|
  }

  /** Row and column of letter `k` of slot `v`. */
  function Row(v: Variable, k: int): int
  {
    v.i + (if v.direction == Down then k else 0)
  }

  function Col(v: Variable, k: int): int
  {
    v.j + (if v.direction == Across then k else 0)
  }

  /** Every cell of every slot lies inside the grid. */
  predicate InGrid(cw: Crossword)
  {
    forall v, k | v in cw.variables && 0 <= k < v.length ::
      0 <= Row(v, k) < cw.height && 0 <= Col(v, k) < cw.width
  }

  /** The overlap map records every cell two distinct slots share. */
  predicate SharedCellsOverlap(cw: Crossword)
  {
    forall v1, v2, k1: nat, k2: nat |
      && v1 in cw.variables && v2 in cw.variables && v1 != v2
      && k1 < v1.length && k2 < v2.length
      && Row(v1, k1) == Row(v2, k2) && Col(v1, k1) == Col(v2, k2)
      :: (v1, v2) in cw.overlaps && cw.overlaps[(v1, v2)] == (k1, k2)
  }
}
