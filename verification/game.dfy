/** The snake and its game rules (the `Snake` class): direction commands
    with the reversal guard, the unchecked shift `base_move`, the per-tick
    `move` with its four-way case split on the target cell, and the two ways
    of starting a game. */
module Game {
  import opened Geometry
  import opened Counting
  import opened Board

  /** `delta` is the direction for the next move, `lastDelta` the one the last
      move used, `body` lists the occupied cells head first. */
  datatype Snake = Snake(delta: Vector, lastDelta: Vector, body: seq<Vector>, field: Field) {

    function Head(): Vector
      requires |body| > 0
    {
      body[0]
    }

    function Tail(): Vector
      requires |body| > 0
    {
      body[|body| - 1]
    }

    /** The cell the head moves into on the next tick. */
    function Next(): Vector
      requires |body| > 0
    {
      Add(body[0], delta)
    }
  }

  // ---------------------------------------------------------------------
  // The invariant
  // ---------------------------------------------------------------------

  /** Border cells, and only they, are Wall. */
  ghost predicate WallsAreBorder(f: Field)
    requires f.Valid()
  {
    forall p :: InBounds(f.size, p) ==> (f.At(p) == Wall <==> !InInterior(f.size, p))
  }

  ghost predicate AtMostOneApple(f: Field)
    requires f.Valid()
  {
    forall p, q :: InBounds(f.size, p) && InBounds(f.size, q) && f.At(p) == Apple && f.At(q) == Apple ==> p == q
  }

  ghost predicate NoApple(f: Field)
    requires f.Valid()
  {
    forall p :: InBounds(f.size, p) ==> f.At(p) != Apple
  }

  /** The grid's Snake cells are exactly the body's cells. */
  ghost predicate SnakeCellsAreBody(f: Field, body: seq<Vector>)
    requires f.Valid()
  {
    forall p :: InBounds(f.size, p) ==> (f.At(p) == SnakePart <==> p in body)
  }

  predicate InsideInterior(size: int, body: seq<Vector>) {
    forall i :: 0 <= i < |body| ==> InInterior(size, body[i])
  }

  /** What every reachable state satisfies, even one whose body is not a
      connected chain (as the hand-built boards of the win and restart
      scenarios are). */
  ghost predicate Consistent(s: Snake) {
    && s.field.Valid()
    && |s.body| >= 2
    && InsideInterior(s.field.size, s.body)
    && Distinct(s.body)
    && WallsAreBorder(s.field)
    && SnakeCellsAreBody(s.field, s.body)
    && AtMostOneApple(s.field)
    && IsUnit(s.delta)
  }

  /** `Consistent` plus the link between the neck and the last direction:
      the head sits one `lastDelta` step past the second segment, and the
      pending direction does not reverse it. */
  ghost predicate Inv(s: Snake) {
    && Consistent(s)
    && IsUnit(s.lastDelta)
    && Sub(s.body[0], s.body[1]) == s.lastDelta
    && s.delta != Neg(s.lastDelta)
  }

  /** Under the invariant the head's target is on the grid and is never the
      second segment: the snake cannot turn back into its own neck. */
  lemma NextIsSafe(s: Snake)
    requires Inv(s)
    ensures InBounds(s.field.size, s.Next())
    ensures s.Next() != s.body[1]
  {
  }

  // ---------------------------------------------------------------------
  // Direction commands
  // ---------------------------------------------------------------------

  /** The shared shape of `up`, `down`, `left` and `right`: take `d` unless it
      cancels `lastDelta`. The guard compares with the last applied
      direction, not the pending one. */
  function Turn(s: Snake, d: Vector): (r: Snake)
    ensures r.delta == (if d == Neg(s.lastDelta) then s.delta else d)
    ensures r.lastDelta == s.lastDelta && r.body == s.body && r.field == s.field
  {
    CancelIffReverse(s.lastDelta, d);
    if NotEqual(Add(s.lastDelta, d), Zero) then s.(delta := d) else s
  }

  /** A direction command keeps the invariant: the pending direction is a
      unit step that never reverses the last one. */
  lemma TurnKeepsInvariant(s: Snake, d: Vector)
    requires IsUnit(d)
    ensures Consistent(s) ==> Consistent(Turn(s, d))
    ensures Inv(s) ==> Inv(Turn(s, d))
  {
  }

  /** `up`: go up unless the last move went down. */
  function GoUp(s: Snake): (r: Snake)
    ensures r.delta == (if s.lastDelta == Down then s.delta else Up)
    ensures r.lastDelta == s.lastDelta && r.body == s.body && r.field == s.field
  {
    Turn(s, Up)
  }

  /** `down`: go down unless the last move went up. */
  function GoDown(s: Snake): (r: Snake)
    ensures r.delta == (if s.lastDelta == Up then s.delta else Down)
    ensures r.lastDelta == s.lastDelta && r.body == s.body && r.field == s.field
  {
    Turn(s, Down)
  }

  /** `left`: go left unless the last move went right. */
  function GoLeft(s: Snake): (r: Snake)
    ensures r.delta == (if s.lastDelta == Right then s.delta else Left)
    ensures r.lastDelta == s.lastDelta && r.body == s.body && r.field == s.field
  {
    Turn(s, Left)
  }

  /** `right`: go right unless the last move went left. */
  function GoRight(s: Snake): (r: Snake)
    ensures r.delta == (if s.lastDelta == Left then s.delta else Right)
    ensures r.lastDelta == s.lastDelta && r.body == s.body && r.field == s.field
  {
    Turn(s, Right)
  }

  /** Turn buffering is one deep and last-write-wins: while the last move went
      up, `left` then `right` are both accepted (right is not a reversal of
      up), and a following `down` is refused because it reverses up. */
  lemma LastTurnWins(s: Snake)
    requires s.lastDelta == Up
    ensures GoLeft(s).delta == Left
    ensures GoRight(GoLeft(s)).delta == Right
    ensures GoDown(GoRight(GoLeft(s))).delta == Right
  {
  }

  // ---------------------------------------------------------------------
  // Moving
  // ---------------------------------------------------------------------

  /** What `base_move` needs so that every grid index it uses exists. */
  predicate CanBaseMove(s: Snake) {
    && s.field.Valid()
    && |s.body| >= 1
    && (forall i :: 0 <= i < |s.body| ==> InBounds(s.field.size, s.body[i]))
    && InBounds(s.field.size, Add(s.body[0], s.delta))
  }

  /** `base_move`: shift without looking at the target cell. The head steps
      by `delta` (over a Wall if that is what lies there), every other
      segment takes its predecessor's place, the old tail cell is emptied
      unless it holds an apple, and every new body cell is Snake. */
  function BaseMove(s: Snake): (r: Snake)
    requires CanBaseMove(s)
    ensures r.delta == s.delta && r.lastDelta == s.delta
    ensures |r.body| == |s.body|
    ensures r.body[0] == s.Next()
    ensures forall i :: 1 <= i < |s.body| ==> r.body[i] == s.body[i - 1]
    ensures r.field.Valid() && r.field.size == s.field.size
    ensures forall p :: InBounds(s.field.size, p) ==>
              r.field.At(p) == (if p in r.body then SnakePart
                                else if p == s.Tail() && s.field.At(p) != Apple then Empty
                                else s.field.At(p))
  {
    var tail := s.body[|s.body| - 1];
    var cleared := if s.field.At(tail) != Apple then s.field.Set(tail, Empty) else s.field;
    var body := [Add(s.body[0], s.delta)] + s.body[..|s.body| - 1];
    Snake(s.delta, s.delta, body, Paint(cleared, body, SnakePart))
  }

  /** The apple branch of `move` before its win check: the tail is pushed a
      second time and `base_move` runs, so the snake gains the eaten cell as
      its new head and keeps every old segment, the old tail last. */
  function Grow(s: Snake): (r: Snake)
    requires CanBaseMove(s)
    ensures r.delta == s.delta && r.lastDelta == s.delta
    ensures r.body == [s.Next()] + s.body
    ensures r.body[|r.body| - 1] == s.Tail()
    ensures r.field.Valid() && r.field.size == s.field.size
    ensures forall p :: InBounds(s.field.size, p) ==>
              r.field.At(p) == (if p in r.body then SnakePart else s.field.At(p))
  {
    var t := s.(body := s.body + [s.Tail()]);
    var r := BaseMove(t);
    assert r.body == [s.Next()] + s.body by {
      forall i | 1 <= i < |r.body|
        ensures r.body[i] == ([s.Next()] + s.body)[i]
      {
        assert r.body[i] == t.body[i - 1];
      }
    }
    r
  }

  /** Some cell that was Empty in `before` has become the apple, and nothing else changed. */
  ghost predicate ApplePlaced(before: Field, after: Field)
    requires before.Valid()
  {
    exists a :: a in EmptyInterior(before) && after == before.Set(a, Apple)
  }

  /** `move`: look at the cell ahead of the head and
      - Empty: shift and report success;
      - Apple: grow onto it; if the snake is still shorter than the interior
        place a new apple and report success, otherwise report the win as
        `false` with the grown state kept;
      - Wall: report failure and change nothing;
      - Snake: when it is the current tail, which leaves this tick, shift and
        report success; any other segment is a collision that changes
        nothing. */
  method Move(s: Snake) returns (ok: bool, r: Snake)
    requires Consistent(s)
    ensures Consistent(r)
    ensures Inv(s) ==> Inv(r)
    ensures s.field.At(s.Next()) == Wall ==> !ok && r == s
    ensures s.field.At(s.Next()) == SnakePart ==> (ok <==> s.Next() == s.Tail())
    ensures s.field.At(s.Next()) == SnakePart && s.Next() != s.Tail() ==> r == s
    ensures s.field.At(s.Next()) == Empty || s.Next() == s.Tail() ==> ok && r == BaseMove(s)
    ensures s.field.At(s.Next()) == Apple ==>
              && r.body == [s.Next()] + s.body
              && r.delta == s.delta && r.lastDelta == s.delta
              && (ok <==> |r.body| < InteriorArea(s.field.size))
              && (!ok <==> |r.body| == InteriorArea(s.field.size))
              && (!ok ==> r == Grow(s))
              && (ok ==> r == Grow(s).(field := r.field) && ApplePlaced(Grow(s).field, r.field))
  {
    NextInBounds(s);
    var next := Add(s.body[0], s.delta);
    match s.field.At(next)
    case Empty =>
      AdvanceKeepsInvariant(s);
      ok, r := true, BaseMove(s);
    case Apple =>
      GrowKeepsInvariant(s);
      var grown := Grow(s);
      if |grown.body| < InteriorArea(grown.field.size) {
        RoomForApple(grown);
        var f, at := CreateApple(grown.field);
        NewAppleKeepsInvariant(grown, f, at);
        ok, r := true, grown.(field := f);
      } else {
        ok, r := false, grown;
      }
    case Wall =>
      ok, r := false, s;
    case SnakePart =>
      if Equal(next, s.body[|s.body| - 1]) {
        AdvanceKeepsInvariant(s);
        ok, r := true, BaseMove(s);
      } else {
        ok, r := false, s;
      }
  }

  // ---------------------------------------------------------------------
  // Starting a game
  // ---------------------------------------------------------------------

  /** The two starting segments at the centre, head above tail. They lie in
      the interior exactly when the field is at least 5 wide; on a 3- or
      4-wide field the tail lands on the bottom border row. */
  function InitialBody(size: int): (b: seq<Vector>)
    requires size >= 3
    ensures |b| == 2 && Sub(b[0], b[1]) == Up
    ensures InBounds(size, b[0]) && InBounds(size, b[1])
    ensures InInterior(size, b[0]) && InInterior(size, b[1]) <==> size >= 5
  {
    [Vector(size / 2, size / 2), Vector(size / 2, size / 2 + 1)]
  }

  /** The state both the constructor and `new_game` leave behind: directions
      up, the two starting segments stamped Snake, and every other interior
      cell Empty except for at most one Apple. */
  ghost predicate FreshGame(r: Snake, size: int)
    requires size >= 3
  {
    && r.delta == Up && r.lastDelta == Up
    && r.body == InitialBody(size)
    && r.field.Valid() && r.field.size == size
    && r.field.At(r.body[0]) == SnakePart && r.field.At(r.body[1]) == SnakePart
    && (forall p :: InInterior(size, p) && p !in r.body ==>
          r.field.At(p) == Empty || r.field.At(p) == Apple)
    && (forall p, q ::
          InInterior(size, p) && InInterior(size, q) && r.field.At(p) == Apple && r.field.At(q) == Apple
          ==> p == q)
  }

  /** Constructor `Snake(size)`: a fresh walled field, one apple at `at`,
      then the two starting segments stamped over whatever was there. When
      `at` is a starting cell the apple is lost, so afterwards there is at
      most one apple, not exactly one. */
  method NewSnake(size: int) returns (s: Snake, at: Vector)
    requires size >= 3
    ensures FreshGame(s, size)
    ensures forall p :: InBounds(size, p) && p !in s.body ==>
              (s.field.At(p) == Wall <==> !InInterior(size, p))
    ensures InInterior(size, at)
    ensures at !in s.body ==> s.field.At(at) == Apple
    ensures forall p :: InInterior(size, p) && p != at && p !in s.body ==> s.field.At(p) == Empty
    ensures size >= 5 ==> Inv(s)
    ensures size < 5 ==> !InInterior(size, s.Tail())
  {
    var f := NewField(size);
    assert Vector(1, 1) in EmptyInterior(f);
    f, at := CreateApple(f);
    var body := InitialBody(size);
    s := Snake(Up, Up, body, Paint(f, body, SnakePart));
    StampStart(f, at, s);
    if size >= 5 {
      FreshInvariant(s);
    }
  }

  /** `new_game`: empty the interior, reset both directions to up, place an
      apple, and stamp the two starting segments. Border cells are not
      touched, so the game is consistent again provided the border was. */
  method NewGame(s: Snake) returns (ok: bool, r: Snake, at: Vector)
    requires s.field.Valid() && s.field.size >= 3
    ensures ok
    ensures FreshGame(r, s.field.size)
    ensures InInterior(s.field.size, at)
    ensures at !in r.body ==> r.field.At(at) == Apple
    ensures forall p :: InInterior(s.field.size, p) && p != at && p !in r.body ==> r.field.At(p) == Empty
    ensures forall p :: InBounds(s.field.size, p) && !InInterior(s.field.size, p) && p !in r.body ==>
              r.field.At(p) == s.field.At(p)
    ensures WallsAreBorder(s.field) && s.field.size >= 5 ==> Inv(r)
  {
    var cleared := ClearInterior(s.field);
    assert Vector(1, 1) in EmptyInterior(cleared);
    var f;
    f, at := CreateApple(cleared);
    assert forall p :: InInterior(f.size, p) && p != at ==> f.At(p) == Empty;
    assert forall p :: InBounds(f.size, p) && !InInterior(f.size, p) ==> f.At(p) == s.field.At(p);
    var body := InitialBody(f.size);
    r := Snake(Up, Up, body, Paint(f, body, SnakePart));
    StampStart(f, at, r);
    ok := true;
    RestartKeepsBorder(s.field, f, r);
  }

  // ---------------------------------------------------------------------
  // Proofs
  // ---------------------------------------------------------------------

  lemma NextInBounds(s: Snake)
    requires Consistent(s)
    ensures InBounds(s.field.size, s.Next())
    ensures CanBaseMove(s)
  {
  }

  /** A consistent snake is never longer than the interior. */
  lemma BodyFits(s: Snake)
    requires Consistent(s)
    ensures |s.body| <= InteriorArea(s.field.size)
  {
    assert InInterior(s.field.size, s.body[0]);
    DistinctCard(s.body);
    SubsetCard(Cells(s.body), Interior(s.field.size));
  }

  /** With no apple on the board and the snake shorter than the interior, an
      Empty interior cell exists, so `create_apple` can finish. */
  lemma RoomForApple(s: Snake)
    requires Consistent(s) && NoApple(s.field)
    requires |s.body| < InteriorArea(s.field.size)
    ensures EmptyInterior(s.field) != {}
  {
    assert InInterior(s.field.size, s.body[0]);
    DistinctCard(s.body);
    RoomOutside(Cells(s.body), Interior(s.field.size));
    var p :| p in Interior(s.field.size) && p !in Cells(s.body);
    assert p in EmptyInterior(s.field);
  }

  /** The body after an advance into an Empty cell or into the tail's cell
      stays inside the interior and free of duplicates. */
  lemma AdvanceKeepsBody(s: Snake)
    requires Consistent(s)
    requires CanBaseMove(s)
    requires s.field.At(s.Next()) == Empty || s.Next() == s.Tail()
    ensures BaseMove(s).body == [s.Next()] + s.body[..|s.body| - 1]
    ensures s.Next() !in s.body[..|s.body| - 1]
    ensures InsideInterior(s.field.size, BaseMove(s).body)
    ensures Distinct(BaseMove(s).body)
  {
  }

  /** Stepping into an Empty cell or into the tail's cell keeps the Wall cells
      exactly on the border. */
  lemma AdvanceKeepsWalls(s: Snake)
    requires Consistent(s)
    requires CanBaseMove(s)
    requires s.field.At(s.Next()) == Empty || s.Next() == s.Tail()
    ensures WallsAreBorder(BaseMove(s).field)
  {
  }

  /** Stepping into an Empty cell or into the tail's cell keeps the Snake
      cells exactly the cells of the body. */
  lemma AdvanceKeepsSnakeCells(s: Snake)
    requires Consistent(s)
    requires CanBaseMove(s)
    requires s.field.At(s.Next()) == Empty || s.Next() == s.Tail()
    ensures SnakeCellsAreBody(BaseMove(s).field, BaseMove(s).body)
  {
  }

  /** Stepping into an Empty cell or into the tail's cell adds no apple. */
  lemma AdvanceKeepsApple(s: Snake)
    requires Consistent(s)
    requires CanBaseMove(s)
    requires s.field.At(s.Next()) == Empty || s.Next() == s.Tail()
    ensures AtMostOneApple(BaseMove(s).field)
  {
  }

  /** Moving into an Empty cell or into the tail's cell keeps the invariant. */
  lemma AdvanceKeepsInvariant(s: Snake)
    requires Consistent(s)
    requires CanBaseMove(s)
    requires s.field.At(s.Next()) == Empty || s.Next() == s.Tail()
    ensures Consistent(BaseMove(s))
    ensures Inv(s) ==> Inv(BaseMove(s))
  {
    AdvanceKeepsBody(s);
    AdvanceKeepsWalls(s);
    AdvanceKeepsSnakeCells(s);
    AdvanceKeepsApple(s);
    if Inv(s) {
      AddSubInverse(s.body[0], s.delta);
      UnitNotSelfReverse(s.delta);
    }
  }

  /** After eating, the body (the eaten cell followed by the whole old body)
      lies in the interior and has no duplicates. */
  lemma GrowKeepsBody(s: Snake)
    requires Consistent(s)
    requires CanBaseMove(s)
    requires s.field.At(s.Next()) == Apple
    ensures InsideInterior(s.field.size, Grow(s).body)
    ensures Distinct(Grow(s).body)
  {
  }

  /** Eating the apple keeps the invariant and leaves no apple on the board;
      the grown snake still fits in the interior. */
  lemma GrowKeepsInvariant(s: Snake)
    requires Consistent(s)
    requires CanBaseMove(s)
    requires s.field.At(s.Next()) == Apple
    ensures Consistent(Grow(s))
    ensures NoApple(Grow(s).field)
    ensures |Grow(s).body| <= InteriorArea(s.field.size)
    ensures Inv(s) ==> Inv(Grow(s))
  {
    var r := Grow(s);
    var size := s.field.size;
    GrowKeepsBody(s);
    assert NoApple(r.field) by {
      forall p | InBounds(size, p)
        ensures r.field.At(p) != Apple
      {
        assert s.field.At(p) == Apple ==> p == s.Next();
      }
    }
    assert WallsAreBorder(r.field) by {
      forall p | InBounds(size, p)
        ensures r.field.At(p) == Wall <==> !InInterior(size, p)
      {
        if p in r.body {
          var k :| 0 <= k < |r.body| && r.body[k] == p;
          assert InInterior(size, r.body[k]);
        }
      }
    }
    BodyFits(r);
    if Inv(s) {
      AddSubInverse(s.body[0], s.delta);
      UnitNotSelfReverse(s.delta);
    }
  }

  /** Placing the one apple on an empty, apple-free board keeps the invariant. */
  lemma NewAppleKeepsInvariant(s: Snake, f: Field, at: Vector)
    requires Consistent(s) && NoApple(s.field)
    requires InInterior(s.field.size, at) && s.field.At(at) == Empty
    requires f.Valid() && f.size == s.field.size && f.At(at) == Apple
    requires forall q :: InBounds(f.size, q) && q != at ==> f.At(q) == s.field.At(q)
    ensures Consistent(s.(field := f))
    ensures Inv(s) ==> Inv(s.(field := f))
    ensures ApplePlaced(s.field, f)
  {
    assert f == s.field.Set(at, Apple) by {
      var g := s.field.Set(at, Apple);
      forall x | 0 <= x < f.size
        ensures f.cells[x] == g.cells[x]
      {
        forall y | 0 <= y < f.size
          ensures f.cells[x][y] == g.cells[x][y]
        {
          assert f.At(Vector(x, y)) == g.At(Vector(x, y));
        }
      }
    }
    assert at in EmptyInterior(s.field);
  }

  /** Stamping the starting segments over a field whose interior holds only
      Empty cells and the one apple just placed yields a fresh game, and
      cells outside the body keep their state. */
  lemma StampStart(f: Field, at: Vector, r: Snake)
    requires f.Valid() && f.size >= 3
    requires InInterior(f.size, at) && f.At(at) == Apple
    requires forall p :: InInterior(f.size, p) && p != at ==> f.At(p) == Empty
    requires r == Snake(Up, Up, InitialBody(f.size), Paint(f, InitialBody(f.size), SnakePart))
    ensures FreshGame(r, f.size)
    ensures forall p :: InBounds(f.size, p) && p !in r.body ==> r.field.At(p) == f.At(p)
  {
  }

  /** `new_game` leaves border cells off the body as they were, so a walled
      border on a field at least 5 wide gives back the full invariant. */
  lemma RestartKeepsBorder(before: Field, f: Field, r: Snake)
    requires before.Valid() && before.size >= 3
    requires f.Valid() && f.size == before.size
    requires forall p :: InBounds(before.size, p) && !InInterior(before.size, p) ==> f.At(p) == before.At(p)
    requires FreshGame(r, before.size)
    requires forall p :: InBounds(before.size, p) && p !in r.body ==> r.field.At(p) == f.At(p)
    ensures forall p :: InBounds(before.size, p) && !InInterior(before.size, p) && p !in r.body ==>
              r.field.At(p) == before.At(p)
    ensures WallsAreBorder(before) && before.size >= 5 ==> Inv(r)
  {
    if WallsAreBorder(before) && before.size >= 5 {
      FreshInvariant(r);
    }
  }

  /** A fresh game on a field at least 5 wide has every interior cell Empty
      except the two starting segments and, when it survived the stamping,
      the apple placed before them. */
  lemma FreshEmptyCount(r: Snake, at: Vector)
    requires r.field.size >= 5 && FreshGame(r, r.field.size)
    requires InInterior(r.field.size, at)
    requires at !in r.body ==> r.field.At(at) == Apple
    requires forall p :: InInterior(r.field.size, p) && p != at && p !in r.body ==> r.field.At(p) == Empty
    ensures |EmptyInterior(r.field)| == InteriorArea(r.field.size) - 2 - (if at in r.body then 0 else 1)
  {
    var size := r.field.size;
    var start := Cells(r.body);
    assert start == {r.body[0], r.body[1]};
    var rest := Interior(size) - start;
    DiffCard(Interior(size), start);
    if at in r.body {
      assert EmptyInterior(r.field) == rest;
    } else {
      assert EmptyInterior(r.field) == rest - {at};
      DiffCard(rest, {at});
    }
  }

  /** `base_move` empties the cell the tail leaves, unless an apple lies
      there or the new body still covers it. */
  lemma BaseMoveClearsTail(s: Snake)
    requires CanBaseMove(s)
    requires s.field.At(s.Tail()) != Apple
    requires s.Tail() != s.Next() && s.Tail() !in s.body[..|s.body| - 1]
    ensures BaseMove(s).field.At(s.Tail()) == Empty
  {
    var r := BaseMove(s);
    assert r.body == [s.Next()] + s.body[..|s.body| - 1];
  }

  /** On a 4-wide field the starting tail (2,3) sits on the bottom border
      row. The first `base_move` heads into the interior cell (2,1), moves
      the tail off (2,3) and clears it: the wall gets a hole through which
      the snake can later leave the grid. */
  lemma SmallFieldOpensWall(s: Snake)
    requires FreshGame(s, 4)
    ensures s.Tail() == Vector(2, 3) && OnBorder(4, s.Tail())
    ensures s.Next() == Vector(2, 1) && InInterior(4, s.Next())
    ensures CanBaseMove(s)
    ensures BaseMove(s).field.At(Vector(2, 3)) == Empty
  {
    StartStepOnSmallField(s);
  }

  /** The step behind `SmallFieldOpensWall`, from just the facts about the
      starting state it uses. */
  lemma StartStepOnSmallField(s: Snake)
    requires s.field.Valid() && s.field.size == 4
    requires s.body == [Vector(2, 2), Vector(2, 3)] && s.delta == Up
    requires s.field.At(Vector(2, 3)) == SnakePart
    ensures s.Tail() == Vector(2, 3) && OnBorder(4, s.Tail())
    ensures s.Next() == Vector(2, 1) && InInterior(4, s.Next())
    ensures CanBaseMove(s)
    ensures BaseMove(s).field.At(Vector(2, 3)) == Empty
  {
    assert s.body[..1] == [Vector(2, 2)];
    BaseMoveClearsTail(s);
  }

  /** A freshly started game on a field at least 5 wide whose border is Wall
      satisfies the full invariant. */
  lemma FreshInvariant(r: Snake)
    requires r.field.Valid() && r.field.size >= 5
    requires FreshGame(r, r.field.size)
    requires forall p :: InBounds(r.field.size, p) && p !in r.body ==>
               (r.field.At(p) == Wall <==> !InInterior(r.field.size, p))
    ensures Inv(r)
  {
  }
}
