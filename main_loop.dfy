/** The logic of the game loop: the joystick direction filter, stamping the snake onto the
    field, and one tick put together from these and `Snake.move`. */
module MainLoop {
  import opened Geometry
  import opened Board
  import opened Snakes

  /** Raw 16-bit joystick readings at or below this count as pushed right (x) or down (y). */
  const LowThreshold := 10000
  /** Raw 16-bit joystick readings at or above this count as pushed left (x) or up (y). */
  const HighThreshold := 56000

  /** One guard of the filter: a crossed threshold selects its candidate unless the direction
      at that moment is the candidate's opposite. */
  function Guard(d: Direction, crossed: bool, candidate: Direction): (r: Direction)
    ensures r == d || (crossed && r == candidate)
    ensures r != Opposite(d)
  {
    if crossed && d != Opposite(candidate) then candidate else d
  }

  /** The four guards in their order, each seeing the direction left by the ones before it. */
  function Steered(x: int, y: int, d: Direction): (r: Direction)
    ensures LowThreshold < x < HighThreshold && LowThreshold < y < HighThreshold ==> r == d
    ensures LowThreshold < y < HighThreshold ==>
              r == if x <= LowThreshold && d != Left then Right
                   else if x >= HighThreshold && d != Right then Left
                   else d
    ensures LowThreshold < x < HighThreshold ==>
              r == if y <= LowThreshold && d != Up then Down
                   else if y >= HighThreshold && d != Down then Up
                   else d
    ensures LowThreshold < x < HighThreshold || LowThreshold < y < HighThreshold ==> r != Opposite(d)
    ensures r == Opposite(d) <==>
              || (d == Up && y <= LowThreshold && (x <= LowThreshold || x >= HighThreshold))
              || (d == Down && y >= HighThreshold && (x <= LowThreshold || x >= HighThreshold))
  {
    var afterRight := Guard(d, x <= LowThreshold, Right);
    var afterLeft := Guard(afterRight, x >= HighThreshold, Left);
    var afterDown := Guard(afterLeft, y <= LowThreshold, Down);
    Guard(afterDown, y >= HighThreshold, Up)
  }

  /** The direction filter of the main loop, reassigning `snake.direction` guard by guard. */
  method Steer(snake: Snake, x: int, y: int)
    modifies snake
    ensures snake.direction == Steered(x, y, old(snake.direction))
  {
    if x <= LowThreshold && snake.direction != Left {
      snake.direction := Right;
    }
    if x >= HighThreshold && snake.direction != Right {
      snake.direction := Left;
    }
    if y <= LowThreshold && snake.direction != Up {
      snake.direction := Down;
    }
    if y >= HighThreshold && snake.direction != Down {
      snake.direction := Up;
    }
  }

  /** Every body cell is marked body, the last one head, and no other cell carries either mark. */
  ghost predicate Rendered(g: seq<seq<Cell>>, body: seq<Point>, n: int)
    requires IsGrid(g, n) && |body| >= 1
  {
    forall i, j | 0 <= i < n && 0 <= j < n ::
      && (g[i][j] == Head <==> Point(i, j) == body[|body| - 1])
      && (g[i][j] == Body <==> Point(i, j) in body && Point(i, j) != body[|body| - 1])
  }

  /** The start of the program: `Field(size)`, then the snake on that field. */
  method NewGame(size: int) returns (snake: Snake)
    requires size >= 4
    ensures snake.Valid() && fresh(snake) && fresh(snake.coords) && fresh(snake.field)
    ensures snake.field.size == size && snake.direction == Up && snake.coords.elems == InitialBody
    ensures exists p :: InBounds(p, size) && snake.field.cells == SetCell(EmptyGrid(size), p, Food)
    ensures AtMostOneFood(snake.field.cells, size)
  {
    var field := new Field(size);
    snake := new Snake("Joe", field);
    ghost var p :| InBounds(p, size) && snake.field.cells == SetCell(EmptyGrid(size), p, Food);
    FoodOnEmptyGrid(size, p);
  }

  /** Every food cell that the body does not cover is q. */
  ghost predicate FoodOffBodyIs(g: seq<seq<Cell>>, body: seq<Point>, n: int, q: Point)
    requires IsGrid(g, n)
  {
    forall i, j | 0 <= i < n && 0 <= j < n && g[i][j] == Food && Point(i, j) !in body :: Point(i, j) == q
  }

  /** After eating, the old food cell is under the head and the new one p is off the body, so
      p is the only food left outside the body. */
  lemma {:induction false} PlacedFoodIsOnlyFoodOffBody(before: seq<seq<Cell>>, body: seq<Point>, n: int, h: Point, p: Point)
    requires IsGrid(before, n) && AtMostOneFood(before, n)
    requires InBounds(h, n) && h in body && FirstFood(before, n) == h
    requires InBounds(p, n)
    ensures FoodOffBodyIs(SetCell(before, p, Food), body, n, p)
  {
    var placed := SetCell(before, p, Food);
    forall i, j | 0 <= i < n && 0 <= j < n && placed[i][j] == Food && Point(i, j) !in body
      ensures Point(i, j) == p
    {
    }
  }

  /** After a move that went on, all food outside the body is one cell: the untouched old food
      when the snake did not eat, the newly placed cell when it did. */
  lemma FoodOffBodyAfterMove(before: seq<seq<Cell>>, placed: seq<seq<Cell>>, body: seq<Point>, n: int, h: Point)
    requires IsGrid(before, n) && AtMostOneFood(before, n) && InBounds(h, n) && h in body
    requires || (FirstFood(before, n) != h && placed == before)
             || (FirstFood(before, n) == h && exists p :: InBounds(p, n) && p !in body && placed == SetCell(before, p, Food))
    ensures IsGrid(placed, n)
    ensures exists q :: FoodOffBodyIs(placed, body, n, q)
  {
    if FirstFood(before, n) != h && placed == before {
      assert FoodOffBodyIs(placed, body, n, FirstFood(before, n));
    } else {
      var p :| InBounds(p, n) && p !in body && placed == SetCell(before, p, Food);
      PlacedFoodIsOnlyFoodOffBody(before, body, n, h, p);
    }
  }

  /** Clearing and then stamping the body leaves the body drawn and keeps exactly the food cells
      the body does not cover. */
  lemma {:induction false} DrawnBody(placed: seq<seq<Cell>>, drawn: seq<seq<Cell>>, body: seq<Point>, n: int)
    requires IsGrid(placed, n) && IsGrid(drawn, n) && |body| >= 1
    requires forall i, j | 0 <= i < n && 0 <= j < n ::
               drawn[i][j] == if Point(i, j) == body[|body| - 1] then Head
                              else if Point(i, j) in body then Body
                              else if placed[i][j] in {Body, Head} then Empty
                              else placed[i][j]
    ensures Rendered(drawn, body, n)
    ensures forall i, j | 0 <= i < n && 0 <= j < n :: drawn[i][j] == Food <==> placed[i][j] == Food && Point(i, j) !in body
  {
  }

  /** When all food outside the body is one cell q, the drawn field has at most one food cell. */
  lemma {:induction false} DrawnFoodIsUnique(placed: seq<seq<Cell>>, drawn: seq<seq<Cell>>, body: seq<Point>, n: int, q: Point)
    requires IsGrid(placed, n) && IsGrid(drawn, n)
    requires forall i, j | 0 <= i < n && 0 <= j < n :: drawn[i][j] == Food <==> placed[i][j] == Food && Point(i, j) !in body
    requires FoodOffBodyIs(placed, body, n, q)
    ensures AtMostOneFood(drawn, n)
  {
    var f := FirstFood(drawn, n);
    forall i, j | 0 <= i < n && 0 <= j < n && drawn[i][j] == Food
      ensures Point(i, j) == f
    {
      assert f != NoEntity;
      assert drawn[f.row][f.col] == Food;
    }
  }

  /** The loop over `field.snake_coords` writing body marks, then the head mark. */
  method StampSnake(field: Field)
    requires field.Valid() && |field.snakeCoords.elems| >= 1 && AllInBounds(field.snakeCoords.elems, field.size)
    modifies field
    ensures field.Valid() && field.snakeCoords == old(field.snakeCoords)
    ensures var body := field.snakeCoords.elems;
            forall i, j | 0 <= i < field.size && 0 <= j < field.size ::
              field.cells[i][j] == if Point(i, j) == body[|body| - 1] then Head
                                   else if Point(i, j) in body then Body
                                   else old(field.cells)[i][j]
  {
    var body := field.snakeCoords.elems;
    for k := 0 to |body|
      invariant field.Valid() && field.snakeCoords == old(field.snakeCoords)
      invariant forall i, j | 0 <= i < field.size && 0 <= j < field.size ::
                  field.cells[i][j] == if Point(i, j) in body[..k] then Body else old(field.cells)[i][j]
    {
      field.cells := SetCell(field.cells, body[k], Body);
    }
    assert body[..|body|] == body;
    var head := body[|body| - 1];
    field.cells := SetCell(field.cells, head, Head);
  }

  /** Lines 185-193 of the main loop: clear the marks, then stamp the snake. The body ends up drawn
      exactly, and the food cells left are the old ones the body does not cover. */
  method Redraw(field: Field)
    requires field.Valid() && |field.snakeCoords.elems| >= 1 && AllInBounds(field.snakeCoords.elems, field.size)
    modifies field
    ensures field.Valid() && field.snakeCoords == old(field.snakeCoords)
    ensures Rendered(field.cells, field.snakeCoords.elems, field.size)
    ensures forall i, j | 0 <= i < field.size && 0 <= j < field.size ::
              field.cells[i][j] == Food <==> old(field.cells)[i][j] == Food && Point(i, j) !in field.snakeCoords.elems
  {
    ghost var before := field.cells;
    field.ClearField();
    StampSnake(field);
    DrawnBody(before, field.cells, field.snakeCoords.elems, field.size);
  }

  /** The redraw after a move that went on: whether or not the snake ate, the field then shows
      the body exactly and holds at most one food cell. */
  method RedrawAfterMove(field: Field, ghost before: seq<seq<Cell>>, ghost h: Point)
    requires field.Valid() && AllInBounds(field.snakeCoords.elems, field.size) && h in field.snakeCoords.elems
    requires IsGrid(before, field.size) && AtMostOneFood(before, field.size) && InBounds(h, field.size)
    requires || (FirstFood(before, field.size) != h && field.cells == before)
             || (&& FirstFood(before, field.size) == h
                 && exists p :: InBounds(p, field.size) && p !in field.snakeCoords.elems && field.cells == SetCell(before, p, Food))
    modifies field
    ensures field.Valid() && field.snakeCoords == old(field.snakeCoords)
    ensures Rendered(field.cells, field.snakeCoords.elems, field.size)
    ensures AtMostOneFood(field.cells, field.size)
    ensures FirstFood(before, field.size) != h ==>
              forall i, j | 0 <= i < field.size && 0 <= j < field.size ::
                field.cells[i][j] == Food <==> before[i][j] == Food && Point(i, j) !in field.snakeCoords.elems
    ensures FirstFood(before, field.size) == h ==>
              FirstFood(field.cells, field.size) != NoEntity && FirstFood(field.cells, field.size) !in field.snakeCoords.elems
  {
    ghost var body := field.snakeCoords.elems;
    ghost var placed := field.cells;
    FoodOffBodyAfterMove(before, placed, body, field.size, h);
    ghost var q :| FoodOffBodyIs(placed, body, field.size, q);
    Redraw(field);
    DrawnFoodIsUnique(placed, field.cells, body, field.size, q);
    if FirstFood(before, field.size) == h {
      var p :| InBounds(p, field.size) && p !in body && placed == SetCell(before, p, Food);
      assert field.cells[p.row][p.col] == Food;
      FirstFoodIsTheFood(field.cells, field.size, p);
    }
  }

  /** `snake.move()` followed, when the game goes on, by the redraw of the field. */
  method Advance(snake: Snake) returns (outcome: Outcome)
    requires snake.Valid() && AtMostOneFood(snake.field.cells, snake.field.size)
    modifies snake.coords, snake.field
    ensures snake.Valid()
    ensures var body := old(snake.coords.elems);
            var moved := Shifted(body, NextHead(body[|body| - 1], snake.direction, snake.field.size));
            && (outcome == GameOver <==> SelfCollides(moved))
            && (outcome != GameOver && FirstFood(old(snake.field.cells), snake.field.size) != moved[|moved| - 1] ==>
                  snake.coords.elems == moved)
            && (outcome != GameOver && FirstFood(old(snake.field.cells), snake.field.size) == moved[|moved| - 1] ==>
                  snake.coords.elems == [GrowthTail(moved[0], moved[1], snake.field.size)] + moved)
            && (outcome == NoFreeCell ==>
                  FirstFood(old(snake.field.cells), snake.field.size) == moved[|moved| - 1] && !snake.field.HasFreeCell())
    ensures outcome == Continue ==>
              && snake.field.snakeCoords == snake.coords
              && Rendered(snake.field.cells, snake.coords.elems, snake.field.size)
              && AtMostOneFood(snake.field.cells, snake.field.size)
    ensures outcome == Continue && FirstFood(old(snake.field.cells), snake.field.size) == NoEntity ==>
              FirstFood(snake.field.cells, snake.field.size) == NoEntity
    ensures outcome == Continue && |snake.coords.elems| > |old(snake.coords.elems)| ==>
              FirstFood(snake.field.cells, snake.field.size) != NoEntity
  {
    var field := snake.field;
    ghost var before := field.cells;
    ghost var body := snake.coords.elems;
    ghost var h := NextHead(body[|body| - 1], snake.direction, field.size);
    outcome := snake.Move();
    if outcome == Continue {
      ghost var after := snake.coords.elems;
      RedrawAfterMove(field, before, h);
      assert snake.coords.elems == after;
    }
  }

  /** One pass of the main loop without its I/O: filter the direction, move, and when the game
      goes on, clear the field and stamp the snake onto it. */
  method Tick(snake: Snake, x: int, y: int) returns (outcome: Outcome)
    requires snake.Valid() && AtMostOneFood(snake.field.cells, snake.field.size)
    modifies snake, snake.coords, snake.field
    ensures snake.Valid()
    ensures snake.direction == Steered(x, y, old(snake.direction))
    ensures var body := old(snake.coords.elems);
            var moved := Shifted(body, NextHead(body[|body| - 1], snake.direction, snake.field.size));
            && (outcome == GameOver <==> SelfCollides(moved))
            && (outcome != GameOver && FirstFood(old(snake.field.cells), snake.field.size) != moved[|moved| - 1] ==>
                  snake.coords.elems == moved)
            && (outcome != GameOver && FirstFood(old(snake.field.cells), snake.field.size) == moved[|moved| - 1] ==>
                  snake.coords.elems == [GrowthTail(moved[0], moved[1], snake.field.size)] + moved)
            && (outcome == NoFreeCell ==>
                  FirstFood(old(snake.field.cells), snake.field.size) == moved[|moved| - 1] && !snake.field.HasFreeCell())
    ensures outcome == Continue ==>
              && snake.field.snakeCoords == snake.coords
              && Rendered(snake.field.cells, snake.coords.elems, snake.field.size)
              && AtMostOneFood(snake.field.cells, snake.field.size)
    ensures outcome == Continue && FirstFood(old(snake.field.cells), snake.field.size) == NoEntity ==>
              FirstFood(snake.field.cells, snake.field.size) == NoEntity
    ensures outcome == Continue && |snake.coords.elems| > |old(snake.coords.elems)| ==>
              FirstFood(snake.field.cells, snake.field.size) != NoEntity
  {
    Steer(snake, x, y);
    outcome := Advance(snake);
  }

  /** The first move from the start position on the 8 x 8 field: the head wraps from row 0 to row 7,
      and a growth on that move would add the tail cell [0, 1]. */
  lemma FirstMoveWraps()
    ensures Shifted(InitialBody, NextHead(Point(0, 3), Up, 8)) == [Point(0, 2), Point(0, 3), Point(7, 3)]
    ensures !SelfCollides([Point(0, 2), Point(0, 3), Point(7, 3)])
    ensures var moved := [Point(0, 2), Point(0, 3), Point(7, 3)];
            [GrowthTail(moved[0], moved[1], 8)] + moved == [Point(0, 1), Point(0, 2), Point(0, 3), Point(7, 3)]
  {
  }

  /** The food of the first field is placed before the snake exists, so it may lie under the
      snake's initial body. */
  lemma InitialFoodMayLieUnderBody()
    ensures InBounds(InitialBody[0], 8) && InitialBody[0] !in []
    ensures var g := SetCell(EmptyGrid(8), InitialBody[0], Food);
            FirstFood(g, 8) == InitialBody[0] && AtMostOneFood(g, 8)
  {
    FoodOnEmptyGrid(8, InitialBody[0]);
  }

  /** Neither body the first move can produce covers [4, 4], so food can still be placed. */
  lemma FirstBodiesLeaveCellFree(body: seq<Point>)
    requires || body == [Point(0, 1), Point(0, 2), Point(0, 3), Point(7, 3)]
             || body == [Point(0, 2), Point(0, 3), Point(7, 3)]
    ensures Point(4, 4) !in body
  {
  }

  /** The first move from the start position on the 8 x 8 field, whose food scan finds q: the
      game goes on, and the body grows by the tail cell [0, 1] exactly when q is [7, 3]. */
  method MoveFromStart(snake: Snake, ghost q: Point) returns (outcome: Outcome)
    requires snake.Valid() && snake.field.size == 8 && snake.direction == Up && snake.coords.elems == InitialBody
    requires FirstFood(snake.field.cells, 8) == q
    modifies snake.coords, snake.field
    ensures outcome == Continue
    ensures snake.coords.elems == if q == Point(7, 3) then [Point(0, 1), Point(0, 2), Point(0, 3), Point(7, 3)]
                                  else [Point(0, 2), Point(0, 3), Point(7, 3)]
  {
    FirstMoveWraps();
    assert InitialBody[|InitialBody| - 1] == Point(0, 3);
    outcome := snake.Move();
    ghost var body := snake.coords.elems;
    if q == Point(7, 3) {
      assert body == [Point(0, 1), Point(0, 2), Point(0, 3), Point(7, 3)];
    } else {
      assert body == [Point(0, 2), Point(0, 3), Point(7, 3)];
    }
    FirstBodiesLeaveCellFree(body);
    assert snake.field.snakeCoords.elems == body;
  }

  /** The start of the program followed by its first tick with the stick at rest, so that the
      direction filter keeps 'up', and the first move on the 8 x 8 field. The first field `first`
      is empty but for the food on q. The game goes on, and the body is [[0, 2], [0, 3], [7, 3]],
      or, exactly when that food lay on [7, 3], that body grown by the tail cell [0, 1]. */
  method FirstMove() returns (outcome: Outcome, body: seq<Point>, ghost first: seq<seq<Cell>>, ghost q: Point)
    ensures InBounds(q, 8) && first == SetCell(EmptyGrid(8), q, Food)
    ensures outcome == Continue
    ensures body == if q == Point(7, 3) then [Point(0, 1), Point(0, 2), Point(0, 3), Point(7, 3)]
                    else [Point(0, 2), Point(0, 3), Point(7, 3)]
  {
    var snake := NewGame(8);
    first := snake.field.cells;
    q :| InBounds(q, 8) && first == SetCell(EmptyGrid(8), q, Food);
    FoodOnEmptyGrid(8, q);
    Steer(snake, (LowThreshold + HighThreshold) / 2, (LowThreshold + HighThreshold) / 2);
    outcome := MoveFromStart(snake, q);
    body := snake.coords.elems;
  }

  /** The initial direction 'up' does not follow the body, which is laid out to the right. The
      filter only blocks 'right' while heading left, so pushing the stick left on the first tick
      turns the head into its own neck and ends the game; pushing it right moves along the row. */
  lemma FirstTickSideways()
    ensures var d := Steered(HighThreshold, (LowThreshold + HighThreshold) / 2, Up);
            && d == Left
            && Shifted(InitialBody, NextHead(InitialBody[2], d, 8)) == [Point(0, 2), Point(0, 3), Point(0, 2)]
            && SelfCollides(Shifted(InitialBody, NextHead(InitialBody[2], d, 8)))
    ensures var d := Steered(LowThreshold, (LowThreshold + HighThreshold) / 2, Up);
            && d == Right
            && Shifted(InitialBody, NextHead(InitialBody[2], d, 8)) == [Point(0, 2), Point(0, 3), Point(0, 4)]
            && !SelfCollides(Shifted(InitialBody, NextHead(InitialBody[2], d, 8)))
  {
    var left := [Point(0, 2), Point(0, 3), Point(0, 2)];
    assert left[0] == left[|left| - 1];
  }

  /** Food first placed under [0, 2] or [0, 3] is still under the body after the first move, which
      does not eat it, so the first redraw erases it. The scan then finds no food; by `Tick`, a
      field without food stays without food, so no later move eats or places food again. */
  lemma FoodUnderFirstBodyIsErased(q: Point, drawn: seq<seq<Cell>>)
    requires q == Point(0, 2) || q == Point(0, 3)
    requires IsGrid(drawn, 8)
    requires forall i, j | 0 <= i < 8 && 0 <= j < 8 ::
               drawn[i][j] == Food <==>
                 SetCell(EmptyGrid(8), q, Food)[i][j] == Food && Point(i, j) !in [Point(0, 2), Point(0, 3), Point(7, 3)]
    ensures FirstFood(SetCell(EmptyGrid(8), q, Food), 8) != Point(7, 3)
    ensures FirstFood(drawn, 8) == NoEntity
  {
    FoodOnEmptyGrid(8, q);
    var g := SetCell(EmptyGrid(8), q, Food);
    forall i, j | 0 <= i < 8 && 0 <= j < 8
      ensures drawn[i][j] != Food
    {
      if g[i][j] == Food {
        assert Point(i, j) == q;
      }
    }
  }
}
