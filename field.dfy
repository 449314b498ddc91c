/** The playing field: a size x size grid of cell codes, food placement and the food scan. */
module Board {
  import opened Geometry

  /** The cell codes of `Field.field`: 0 empty, 1 body, 2 head, 3 food. */
  datatype Cell = Empty | Body | Head | Food

  /** What `get_entity_pos` returns when no cell holds food: [-1, -1]. */
  const NoEntity := Point(-1, -1)

  predicate IsGrid(g: seq<seq<Cell>>, n: int)
  {
    |g| == n && forall i | 0 <= i < n :: |g[i]| == n
  }

  /** The grid with the single cell p overwritten by c. */
  function SetCell(g: seq<seq<Cell>>, p: Point, c: Cell): (r: seq<seq<Cell>>)
    requires 0 <= p.row < |g| && 0 <= p.col < |g[p.row]|
    ensures |r| == |g|
    ensures forall i | 0 <= i < |g| :: |r[i]| == |g[i]|
    ensures forall i, j | 0 <= i < |g| && 0 <= j < |g[i]| :: r[i][j] == if Point(i, j) == p then c else g[i][j]
  {
    g[p.row := g[p.row][p.col := c]]
  }

  /** The row-major scan of `get_entity_pos` started at [i, j]: the first food cell at or after
      [i, j], or NoEntity when there is none. */
  function ScanFrom(g: seq<seq<Cell>>, n: int, i: int, j: int): (r: Point)
    requires IsGrid(g, n) && 0 <= i <= n && 0 <= j <= n
    ensures r == NoEntity || (InBounds(r, n) && g[r.row][r.col] == Food && (i < r.row || (i == r.row && j <= r.col)))
    ensures forall k, l | 0 <= k < n && 0 <= l < n && (i < k || (i == k && j <= l))
                          && (r == NoEntity || k < r.row || (k == r.row && l < r.col)) :: g[k][l] != Food
    decreases n - i, n - j
  {
    if i == n then NoEntity
    else if j == n then ScanFrom(g, n, i + 1, 0)
    else if g[i][j] == Food then Point(i, j)
    else ScanFrom(g, n, i, j + 1)
  }

  /** The specification of `get_entity_pos`: the first food cell in row-major order, or NoEntity. */
  function FirstFood(g: seq<seq<Cell>>, n: int): (r: Point)
    requires IsGrid(g, n)
    ensures r == NoEntity <==> forall k, l | 0 <= k < n && 0 <= l < n :: g[k][l] != Food
    ensures r != NoEntity ==> InBounds(r, n) && g[r.row][r.col] == Food
    ensures forall k, l | 0 <= k < n && 0 <= l < n && (k < r.row || (k == r.row && l < r.col)) :: g[k][l] != Food
  {
    ScanFrom(g, n, 0, 0)
  }

  /** Every food cell is the one the row-major scan finds, so no two cells hold food. */
  ghost predicate AtMostOneFood(g: seq<seq<Cell>>, n: int)
    requires IsGrid(g, n)
  {
    forall i, j | 0 <= i < n && 0 <= j < n && g[i][j] == Food :: Point(i, j) == FirstFood(g, n)
  }

  /** With at most one food cell, the scan of `get_entity_pos` finds a cell exactly when that
      cell holds the food. */
  lemma FirstFoodIsTheFood(g: seq<seq<Cell>>, n: int, p: Point)
    requires IsGrid(g, n) && AtMostOneFood(g, n) && InBounds(p, n)
    ensures FirstFood(g, n) == p <==> g[p.row][p.col] == Food
  {
  }

  /** A single food cell on an otherwise empty grid is the one the scan finds. */
  lemma FoodOnEmptyGrid(n: int, p: Point)
    requires n >= 1 && InBounds(p, n)
    ensures IsGrid(SetCell(EmptyGrid(n), p, Food), n)
    ensures FirstFood(SetCell(EmptyGrid(n), p, Food), n) == p
    ensures AtMostOneFood(SetCell(EmptyGrid(n), p, Food), n)
  {
    var g := SetCell(EmptyGrid(n), p, Food);
    assert g[p.row][p.col] == Food;
  }

  /** A Python list object of coordinates; `Field.snake_coords` and `Snake.coords` end up
      referring to the same one. */
  class CoordList {
    var elems: seq<Point>

    constructor (elems: seq<Point>)
      ensures this.elems == elems
    {
      this.elems := elems;
    }
  }

  class Field {
    const size: int
    var cells: seq<seq<Cell>>
    var snakeCoords: CoordList

    ghost predicate Valid()
      reads this
    {
      size >= 1 && IsGrid(cells, size)
    }

    /** `Field.__init__`: an empty grid, an empty coordinate list of its own and one food cell,
        placed while that list is still empty, so anywhere on the grid. */
    constructor (size: int)
      requires size >= 1
      ensures Valid() && this.size == size
      ensures fresh(snakeCoords) && snakeCoords.elems == []
      ensures exists p :: InBounds(p, size) && cells == SetCell(EmptyGrid(size), p, Food)
    {
      this.size := size;
      snakeCoords := new CoordList([]);
      new;
      GenerateField();
      assert Point(0, 0) !in snakeCoords.elems;
      ghost var p := AddEntity();
    }

    /** `_generate_field`: a fresh size x size grid of empty cells. */
    method GenerateField()
      requires size >= 1
      modifies this
      ensures Valid() && cells == EmptyGrid(size)
      ensures snakeCoords == old(snakeCoords)
    {
      cells := EmptyGrid(size);
    }

    /** There is a cell on the grid that the snake does not occupy. */
    predicate HasFreeCell()
      reads this, snakeCoords
    {
      exists i, j | 0 <= i < size && 0 <= j < size :: Point(i, j) !in snakeCoords.elems
    }

    /** `add_entity`: any cell not in `snake_coords` becomes food; nothing else changes. The
        random retry loop is the choice of an arbitrary free cell, and is only entered when one exists. */
    method AddEntity() returns (ghost p: Point)
      requires Valid() && HasFreeCell()
      modifies this
      ensures Valid() && snakeCoords == old(snakeCoords)
      ensures InBounds(p, size) && p !in snakeCoords.elems
      ensures cells == SetCell(old(cells), p, Food)
    {
      var i, j :| 0 <= i < size && 0 <= j < size && Point(i, j) !in snakeCoords.elems;
      cells := SetCell(cells, Point(i, j), Food);
      p := Point(i, j);
    }

    /** `_clear_field`: body and head marks become empty; empty and food cells stay. */
    method ClearField()
      requires Valid()
      modifies this
      ensures Valid() && snakeCoords == old(snakeCoords)
      ensures forall i, j | 0 <= i < size && 0 <= j < size ::
                cells[i][j] == if old(cells)[i][j] in {Body, Head} then Empty else old(cells)[i][j]
    {
      var g := cells;
      cells := seq(size, i requires 0 <= i < size => seq(size, j requires 0 <= j < size => if g[i][j] != Body && g[i][j] != Head then g[i][j] else Empty));
    }

    /** `get_entity_pos`: the row-major nested scan with an early return. */
    method GetEntityPos() returns (pos: Point)
      requires Valid()
      ensures pos == FirstFood(cells, size)
    {
      var i := 0;
      while i < size
        invariant 0 <= i <= size
        invariant ScanFrom(cells, size, i, 0) == FirstFood(cells, size)
      {
        var j := 0;
        while j < size
          invariant 0 <= j <= size
          invariant ScanFrom(cells, size, i, j) == FirstFood(cells, size)
        {
          if cells[i][j] == Food {
            return Point(i, j);
          }
          j := j + 1;
        }
        i := i + 1;
      }
      return NoEntity;
    }

    /** `is_snake_eat_entity`: the food scan meets the last element of `snake_coords`. */
    method IsSnakeEatEntity() returns (eats: bool)
      requires Valid() && |snakeCoords.elems| >= 1
      ensures eats <==> FirstFood(cells, size) == snakeCoords.elems[|snakeCoords.elems| - 1]
      ensures var h := snakeCoords.elems[|snakeCoords.elems| - 1];
                InBounds(h, size) ==>
                  (eats <==> cells[h.row][h.col] == Food &&
                             forall k, l | 0 <= k < size && 0 <= l < size && (k < h.row || (k == h.row && l < h.col)) :: cells[k][l] != Food)
    {
      var entity := GetEntityPos();
      var head := snakeCoords.elems[|snakeCoords.elems| - 1];
      eats := entity == head;
    }
  }

  function EmptyGrid(n: int): (g: seq<seq<Cell>>)
    requires n >= 0
    ensures IsGrid(g, n)
    ensures forall i, j | 0 <= i < n && 0 <= j < n :: g[i][j] == Empty
  {
    seq(n, i => seq(n, j => Empty))
  }
}
