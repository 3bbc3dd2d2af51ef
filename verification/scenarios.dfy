/** The repository's own doctest cases, replayed on the model: each member
    starts from the states those cases build and states the outcomes they
    check, derived from the contracts of the game operations alone. */
module Scenarios {
  import opened Geometry
  import opened Board
  import opened Game

  /** "Direction check", after the move: whether the target holds nothing or
      the constructor's apple, the move commits the pending direction as the
      last one, so once the snake has moved right `down` is no longer a
      reversal and is accepted. */
  method TurnAfterMove(s: Snake) returns (ok: bool, r: Snake)
    requires Consistent(s) && s.delta == Right
    requires s.field.At(s.Next()) == Empty || s.field.At(s.Next()) == Apple
    ensures r.lastDelta == Right
    ensures GoDown(r).delta == Down
  {
    ok, r := Move(s);
  }

  /** "Troubleproof move": `base_move` does not look ahead, so stepping onto a
      Wall cell puts the head there and turns the cell into a Snake cell. */
  lemma BaseMoveOverWall(s: Snake)
    requires CanBaseMove(s) && s.field.At(s.Next()) == Wall
    ensures BaseMove(s).body[0] == s.Next()
    ensures BaseMove(s).field.At(s.Next()) == SnakePart
  {
  }

  /** The starting segments on a 6-wide field. */
  lemma StartOnSixWide()
    ensures InitialBody(6) == [Vector(3, 3), Vector(3, 4)]
  {
    assert 6 / 2 == 3;
  }

  /** `n` calls of `create_apple` on a fresh game whose only possible apple
      is at `at`: every interior cell off the snake that is not still Empty
      holds an apple afterwards, and the snake's cells are untouched. */
  method FillFreshGame(s: Snake, at: Vector, n: nat) returns (f: Field)
    requires s.field.size >= 5 && FreshGame(s, s.field.size)
    requires InInterior(s.field.size, at) && (at !in s.body ==> s.field.At(at) == Apple)
    requires forall p :: InInterior(s.field.size, p) && p != at && p !in s.body ==> s.field.At(p) == Empty
    requires n <= |EmptyInterior(s.field)|
    ensures f.Valid() && f.size == s.field.size
    ensures |EmptyInterior(f)| == |EmptyInterior(s.field)| - n
    ensures forall p :: InInterior(s.field.size, p) && p !in s.body && p !in EmptyInterior(f) ==> f.At(p) == Apple
    ensures forall i :: 0 <= i < |s.body| ==> f.At(s.body[i]) == SnakePart
  {
    f := CreateApples(s.field, n);
    forall p | InInterior(s.field.size, p) && p !in s.body && p !in EmptyInterior(f)
      ensures f.At(p) == Apple
    {
      assert p !in EmptyInterior(s.field) ==> s.field.At(p) == Apple;
    }
  }

  /** On the 6-wide field the constructor builds, both starting cells are
      Empty interior cells, so its first `create_apple` may choose either of
      them; the snake is then stamped over that apple. */
  lemma FirstDrawMayHitStart(f: Field)
    requires f.Valid() && f.size == 6
    requires forall p :: InBounds(6, p) ==> (f.At(p) == Empty <==> InInterior(6, p))
    ensures InitialBody(6)[0] in EmptyInterior(f) && InitialBody(6)[1] in EmptyInterior(f)
  {
    StartOnSixWide();
  }

  /** "Apple gen check" as written, on a 6-wide field: the constructor places
      one apple at `at` before stamping the starting cells, then `create_apple`
      is called exactly 13 times. That fills the board only if the first apple
      survived. When it landed on a starting cell, it was stamped over and 14
      cells were Empty, so one interior cell off the snake is still Empty
      after the 13 calls, and the test's check on it fails. */
  method AppleGen() returns (f: Field, body: seq<Vector>, at: Vector)
    ensures f.Valid() && f.size == 6
    ensures body == [Vector(3, 3), Vector(3, 4)]
    ensures forall i :: 0 <= i < |body| ==> f.At(body[i]) == SnakePart
    ensures forall p :: InInterior(6, p) && p !in body && p !in EmptyInterior(f) ==> f.At(p) == Apple
    ensures at !in body ==> EmptyInterior(f) == {}
    ensures at in body ==> |EmptyInterior(f)| == 1
  {
    var s;
    s, at := NewSnake(6);
    StartOnSixWide();
    FreshEmptyCount(s, at);
    var before := |EmptyInterior(s.field)|;
    assert before == (if at in s.body then 14 else 13);
    f := FillFreshGame(s, at, 13);
    body := s.body;
    if at !in body {
      assert |EmptyInterior(f)| == 0;
    }
  }

  /** "Apple gen check" as evidently intended: calling `create_apple` once per
      Empty interior cell puts an apple on every interior cell but the two
      snake cells, whichever cell the constructor's apple landed on. */
  method AppleGenUntilFull() returns (f: Field, body: seq<Vector>, calls: nat)
    ensures f.Valid() && f.size == 6
    ensures body == [Vector(3, 3), Vector(3, 4)]
    ensures calls == 13 || calls == 14
    ensures forall p :: InInterior(6, p) && p !in body ==> f.At(p) == Apple
    ensures forall i :: 0 <= i < |body| ==> f.At(body[i]) == SnakePart
  {
    var s, at := NewSnake(6);
    StartOnSixWide();
    FreshEmptyCount(s, at);
    calls := |EmptyInterior(s.field)|;
    f := FillFreshGame(s, at, calls);
    body := s.body;
    assert EmptyInterior(f) == {} by {
      assert |EmptyInterior(f)| == 0;
    }
  }

  /** "Eating apple check" on a 10-wide field: with an apple right above the
      head at (5,5), the snake grows to [(5,4), (5,5), (5,6)], its head cell
      is a Snake cell, its last step leads from the tail to the segment
      before it, and the old tail cell (5,6) stays a Snake cell. The test's
      board may hold a second apple, the constructor's, so nothing beyond a
      well-formed grid is assumed. */
  lemma EatingApple(s: Snake)
    requires s.field.Valid() && s.field.size == 10
    requires s.body == [Vector(5, 5), Vector(5, 6)] && s.delta == Up
    requires s.field.At(Vector(5, 4)) == Apple
    ensures CanBaseMove(s)
    ensures Grow(s).body == [Vector(5, 4), Vector(5, 5), Vector(5, 6)]
    ensures Add(Grow(s).body[2], Grow(s).delta) == Grow(s).body[1]
    ensures Grow(s).field.At(Vector(5, 4)) == SnakePart
    ensures Grow(s).field.At(Vector(5, 6)) == SnakePart
  {
  }

  /** "Win check" on a 6-wide field: a snake of 15 segments eating the apple
      fills all 16 interior cells, so `move` reports the win as `false`. */
  method WinOnFullBoard(s: Snake) returns (ok: bool, r: Snake)
    requires Consistent(s) && s.field.size == 6 && |s.body| == 15
    requires s.field.At(s.Next()) == Apple
    ensures !ok
    ensures |r.body| == InteriorArea(s.field.size) == 16
  {
    ok, r := Move(s);
  }
}
