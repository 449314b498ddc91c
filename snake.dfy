/** The snake: its body list from tail (index 0) to head (last), moving, growing and
    colliding with itself on the toroidal field. */
module Snakes {
  import opened Geometry
  import opened Board

  /** How one `move` ends. The source has no result: it calls `sys.exit()` on a collision,
      and `add_entity` never returns once the body covers every cell. */
  datatype Outcome =
    | Continue    // the snake moved, and grew if it ate
    | GameOver    // the new head hit the body
    | NoFreeCell  // the snake ate and then covered every cell: the food retry loop would not end

  /** `Snake.__init__`: [[0, 1], [0, 2], [0, 3]], tail first. */
  const InitialBody := [Point(0, 1), Point(0, 2), Point(0, 3)]

  /** The new tail cell of `level_up`: one step away from b, taken from a on whichever axis the
      elif chain meets first, then wrapped by `_check_limit`. The comparison is on raw
      coordinates, so it does not know about the seam. */
  function GrowthTail(a: Point, b: Point, n: int): (r: Point)
    ensures n >= 1 && InBounds(a, n) ==> InBounds(r, n) && (r == a || Neighbours(a, r, n))
  {
    var t :=
      if a.row < b.row then Point(a.row - 1, a.col)
      else if a.col < b.col then Point(a.row, a.col - 1)
      else if a.row > b.row then Point(a.row + 1, a.col)
      else if a.col > b.col then Point(a.row, a.col + 1)
      else a;
    CheckLimit(t, n)
  }

  /** Away from the seam the tail grows outward: from a, opposite to the step that led to b,
      so the new cell is not b. */
  lemma GrowthTailContinuesPath(a: Point, d: Direction, n: int)
    requires n >= 3 && InBounds(a, n) && InBounds(Step(a, d), n)
    ensures GrowthTail(a, Step(a, d), n) == NextHead(a, Opposite(d), n)
    ensures GrowthTail(a, Step(a, d), n) != Step(a, d)
  {
  }

  /** When a and b straddle the seam the raw comparison points the wrong way, and the new
      tail is b itself: the body then holds b twice. */
  lemma GrowthTailAcrossSeam(a: Point, d: Direction, n: int)
    requires n >= 2 && InBounds(a, n) && !InBounds(Step(a, d), n)
    ensures GrowthTail(a, NextHead(a, d, n), n) == NextHead(a, d, n)
  {
  }

  /** With a == b no branch of the elif chain fires and the new tail repeats a. */
  lemma GrowthTailOfRepeat(a: Point, n: int)
    requires InBounds(a, n)
    ensures GrowthTail(a, a, n) == a
  {
  }

  /** Either way, the tail grown behind a cell a reached by one step in direction d is a
      neighbour of a. */
  lemma GrowthTailLinksStep(a: Point, d: Direction, n: int)
    requires n >= 3 && InBounds(a, n)
    ensures Neighbours(GrowthTail(a, NextHead(a, d, n), n), a, n)
  {
    var t := GrowthTail(a, NextHead(a, d, n), n);
    if InBounds(Step(a, d), n) {
      GrowthTailContinuesPath(a, d, n);
      NextHeadOpposite(a, Opposite(d), n);
      assert Opposite(Opposite(d)) == d;
      assert NextHead(t, d, n) == a;
    } else {
      GrowthTailAcrossSeam(a, d, n);
      NextHeadOpposite(a, d, n);
      assert NextHead(t, Opposite(d), n) == a;
    }
  }

  /** The new tail of `level_up` keeps the body a connected path. */
  lemma GrowthTailLinks(a: Point, b: Point, n: int)
    requires n >= 3 && InBounds(a, n) && Neighbours(a, b, n)
    ensures Neighbours(GrowthTail(a, b, n), a, n)
  {
    if b == NextHead(a, Up, n) {
      GrowthTailLinksStep(a, Up, n);
    } else if b == NextHead(a, Down, n) {
      GrowthTailLinksStep(a, Down, n);
    } else if b == NextHead(a, Left, n) {
      GrowthTailLinksStep(a, Left, n);
    } else {
      GrowthTailLinksStep(a, Right, n);
    }
  }

  /** In a connected body on a field at least two cells wide the two tail-most cells differ, so
      the repeated-cell case of `GrowthTailOfRepeat` never arises in a running game. */
  lemma LinkedTailCellsDiffer(body: seq<Point>, n: int)
    requires n >= 2 && |body| >= 2 && AllInBounds(body, n) && Linked(body, n)
    ensures body[0] != body[1]
  {
    assert LinkAt(body, 0, n);
    NextHeadMoves(body[0], Up, n);
    NextHeadMoves(body[0], Down, n);
    NextHeadMoves(body[0], Left, n);
    NextHeadMoves(body[0], Right, n);
  }

  /** The head equals some earlier element of the body. */
  ghost predicate SelfCollides(body: seq<Point>)
  {
    exists k :: 0 <= k < |body| - 1 && body[k] == body[|body| - 1]
  }

  predicate AllInBounds(body: seq<Point>, n: int)
  {
    forall k | 0 <= k < |body| :: InBounds(body[k], n)
  }

  /** Elements k and k + 1 of the body are neighbours on the torus. */
  predicate LinkAt(body: seq<Point>, k: int, n: int)
    requires n >= 1 && AllInBounds(body, n) && 0 <= k < |body| - 1
  {
    Neighbours(body[k], body[k + 1], n)
  }

  /** Consecutive elements of the body are neighbours on the torus. */
  predicate Linked(body: seq<Point>, n: int)
    requires n >= 1 && AllInBounds(body, n)
  {
    forall k | 0 <= k < |body| - 1 :: LinkAt(body, k, n)
  }

  /** `del coords[0]` followed by `coords.append(head)`. */
  function Shifted(body: seq<Point>, head: Point): (r: seq<Point>)
    requires |body| >= 1
    ensures |r| == |body| && r[|r| - 1] == head
    ensures r[..|r| - 1] == body[1..]
  {
    body[1..] + [head]
  }

  /** Dropping the tail and appending the next head keeps the body on the grid and connected. */
  lemma ShiftedStaysLinked(body: seq<Point>, d: Direction, n: int)
    requires n >= 1 && |body| >= 1 && AllInBounds(body, n) && Linked(body, n)
    ensures AllInBounds(Shifted(body, NextHead(body[|body| - 1], d, n)), n)
    ensures Linked(Shifted(body, NextHead(body[|body| - 1], d, n)), n)
  {
    var moved := Shifted(body, NextHead(body[|body| - 1], d, n));
    forall k | 0 <= k < |moved| - 1
      ensures LinkAt(moved, k, n)
    {
      if k < |moved| - 2 {
        assert LinkAt(body, k + 1, n);
      }
    }
  }

  /** A tail cell that neighbours the old tail keeps the body connected. */
  lemma PrependStaysLinked(tail: Point, body: seq<Point>, n: int)
    requires n >= 1 && |body| >= 1 && InBounds(tail, n) && AllInBounds(body, n) && Linked(body, n)
    requires Neighbours(tail, body[0], n)
    ensures AllInBounds([tail] + body, n) && Linked([tail] + body, n)
  {
    var grown := [tail] + body;
    forall k | 0 <= k < |grown| - 1
      ensures LinkAt(grown, k, n)
    {
      if k > 0 {
        assert LinkAt(body, k - 1, n);
      }
    }
  }

  class Snake {
    const name: string
    var direction: Direction
    const coords: CoordList
    const field: Field

    /** The body stays on the grid and stays a connected path; the body is never shorter than
        its initial three cells. */
    ghost predicate Valid()
      reads this, coords, field
    {
      && field.Valid()
      && field.size >= 4
      && |coords.elems| >= 3
      && AllInBounds(coords.elems, field.size)
      && Linked(coords.elems, field.size)
    }

    /** `Snake.__init__` followed by `set_field`. */
    constructor (name: string, field: Field)
      requires field.Valid() && field.size >= 4
      ensures Valid()
      ensures this.name == name && this.field == field && direction == Up
      ensures fresh(coords) && coords.elems == InitialBody
    {
      this.name := name;
      direction := Up;
      coords := new CoordList(InitialBody);
      this.field := field;
      new;
      assert Point(0, 2) == NextHead(Point(0, 1), Right, field.size);
      assert Point(0, 3) == NextHead(Point(0, 2), Right, field.size);
      assert LinkAt(coords.elems, 0, field.size) && LinkAt(coords.elems, 1, field.size);
    }

    /** `is_alive`: the head does not occur among the other cells. */
    function IsAlive(): (alive: bool)
      reads this, coords
      requires |coords.elems| >= 1
      ensures alive <==> !SelfCollides(coords.elems)
    {
      var body := coords.elems;
      body[|body| - 1] !in body[..|body| - 1]
    }

    /** `level_up`: one new cell inserted before the tail, everything else kept in order. */
    method LevelUp()
      requires Valid()
      modifies coords
      ensures Valid()
      ensures coords.elems == [GrowthTail(old(coords.elems)[0], old(coords.elems)[1], field.size)] + old(coords.elems)
    {
      var a := coords.elems[0];
      var b := coords.elems[1];
      var tail := GrowthTail(a, b, field.size);
      assert LinkAt(coords.elems, 0, field.size);
      GrowthTailLinks(a, b, field.size);
      PrependStaysLinked(tail, coords.elems, field.size);
      coords.elems := [tail] + coords.elems;
    }

    /** `move`: advance the head one step, drop the tail, share the list with the field, stop on a
        self-collision, and otherwise grow and place new food when the head reaches the food cell. */
    method Move() returns (outcome: Outcome)
      requires Valid()
      modifies coords, field
      ensures Valid() && field.snakeCoords == coords
      ensures var moved := Shifted(old(coords.elems), NextHead(old(coords.elems)[|old(coords.elems)| - 1], direction, field.size));
              && (outcome == GameOver <==> SelfCollides(moved))
              && (outcome == GameOver || FirstFood(old(field.cells), field.size) != moved[|moved| - 1] ==>
                    outcome != NoFreeCell && coords.elems == moved && field.cells == old(field.cells))
              && (outcome != GameOver && FirstFood(old(field.cells), field.size) == moved[|moved| - 1] ==>
                    coords.elems == [GrowthTail(moved[0], moved[1], field.size)] + moved)
      ensures coords.elems[|coords.elems| - 1] == NextHead(old(coords.elems)[|old(coords.elems)| - 1], direction, field.size)
      ensures outcome == NoFreeCell ==> !field.HasFreeCell() && field.cells == old(field.cells)
      ensures outcome == Continue && |coords.elems| > |old(coords.elems)| ==>
                exists p :: InBounds(p, field.size) && p !in coords.elems && field.cells == SetCell(old(field.cells), p, Food)
    {
      ghost var body := coords.elems;
      var head := coords.elems[|coords.elems| - 1];
      head := Step(head, direction);
      head := CheckLimit(head, field.size);
      coords.elems := coords.elems[1..];
      coords.elems := coords.elems + [head];
      field.snakeCoords := coords;
      ghost var moved := coords.elems;
      assert moved == Shifted(body, NextHead(body[|body| - 1], direction, field.size));
      ShiftedStaysLinked(body, direction, field.size);

      if !IsAlive() {
        return GameOver;
      }

      var eats := field.IsSnakeEatEntity();
      if eats {
        LevelUp();
        if !field.HasFreeCell() {
          return NoFreeCell;
        }
        ghost var p := field.AddEntity();
      }
      return Continue;
    }
  }
}
