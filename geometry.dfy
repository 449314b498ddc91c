/** Points, directions and the toroidal wrap of the size x size playing field. */
module Geometry {

  /** A cell coordinate [row, col]; the source keeps these as two-element lists. */
  datatype Point = Point(row: int, col: int)

  /** The four values the source stores in `Snake.direction`: 'up', 'down', 'left', 'right'. */
  datatype Direction = Up | Down | Left | Right

  function Opposite(d: Direction): Direction
  {
    match d
    case Up => Down
    case Down => Up
    case Left => Right
    case Right => Left
  }

  predicate InBounds(p: Point, n: int)
  {
    0 <= p.row < n && 0 <= p.col < n
  }

  /** At most one coordinate is off the grid, and that one by a single step. */
  predicate NearGrid(p: Point, n: int)
  {
    || (-1 <= p.row <= n && 0 <= p.col < n)
    || (0 <= p.row < n && -1 <= p.col <= n)
  }

  /** The head displacement of `Snake.move`: 'up' decreases the row, 'right' increases the column. */
  function Step(p: Point, d: Direction): (r: Point)
    ensures || (r.row == p.row && (r.col == p.col + 1 || r.col == p.col - 1))
            || (r.col == p.col && (r.row == p.row + 1 || r.row == p.row - 1))
  {
    match d
    case Up => Point(p.row - 1, p.col)
    case Down => Point(p.row + 1, p.col)
    case Right => Point(p.row, p.col + 1)
    case Left => Point(p.row, p.col - 1)
  }

  /** `Snake._check_limit`: an elif chain, so at most one coordinate is corrected per call.
      On a point that is one step off the grid it agrees with reduction modulo n. */
  function CheckLimit(p: Point, n: int): (r: Point)
    ensures InBounds(p, n) ==> r == p
    ensures n >= 1 && NearGrid(p, n) ==> InBounds(r, n)
    ensures r.row == p.row || r.col == p.col
  {
    if p.row > n - 1 then Point(0, p.col)
    else if p.row < 0 then Point(n - 1, p.col)
    else if p.col < 0 then Point(p.row, n - 1)
    else if p.col > n - 1 then Point(p.row, 0)
    else p
  }

  /** On a point at most one step off the grid the wrap is reduction modulo n on both axes. */
  lemma CheckLimitIsModular(p: Point, n: int)
    requires n >= 1 && NearGrid(p, n)
    ensures CheckLimit(p, n) == Point(p.row % n, p.col % n)
  {
    ModOneStep(p.row, n);
    ModOneStep(p.col, n);
  }

  /** Reduction modulo n of an integer at most one step outside 0 .. n - 1. */
  lemma ModOneStep(x: int, n: int)
    requires n >= 1 && -1 <= x <= n
    ensures x % n == if x == n then 0 else if x == -1 then n - 1 else x
  {
    if x == n {
      assert x % n == 0;
    } else if x == -1 {
      assert x == (-1) * n + (n - 1);
    }
  }

  /** Only one axis is corrected: a point off the grid on both axes stays off the grid. */
  lemma CheckLimitCorrectsOneAxis(n: int)
    requires n >= 1
    ensures CheckLimit(Point(-1, -1), n) == Point(n - 1, -1)
    ensures !InBounds(CheckLimit(Point(-1, -1), n), n)
  {
  }

  /** The new head of `Snake.move`: one step in direction d, then wrapped. */
  function NextHead(head: Point, d: Direction, n: int): (r: Point)
    requires n >= 1 && InBounds(head, n)
    ensures InBounds(r, n)
  {
    CheckLimit(Step(head, d), n)
  }

  /** The field is a torus: the new head is the stepped head reduced modulo n. */
  lemma NextHeadIsModular(head: Point, d: Direction, n: int)
    requires n >= 1 && InBounds(head, n)
    ensures NextHead(head, d, n) == Point(Step(head, d).row % n, Step(head, d).col % n)
  {
    CheckLimitIsModular(Step(head, d), n);
  }

  /** q is one step from p on the torus. */
  predicate Neighbours(p: Point, q: Point, n: int)
    requires n >= 1 && InBounds(p, n)
  {
    q == NextHead(p, Up, n) || q == NextHead(p, Down, n) || q == NextHead(p, Left, n) || q == NextHead(p, Right, n)
  }

  /** Stepping back undoes a step, across the seam too. */
  lemma NextHeadOpposite(p: Point, d: Direction, n: int)
    requires n >= 1 && InBounds(p, n)
    ensures NextHead(NextHead(p, d, n), Opposite(d), n) == p
  {
  }

  /** On a grid at least two cells wide a step never lands on its start. */
  lemma NextHeadMoves(p: Point, d: Direction, n: int)
    requires n >= 2 && InBounds(p, n)
    ensures NextHead(p, d, n) != p
  {
  }
}
