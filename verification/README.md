# Snake game engine — a Dafny model

This project models the game-state engine of a small Snake game (`Snake.h`).
A snake moves on a square field of cells. Each cell is Empty, Wall, Snake or
Apple. The field's border is Wall. The snake grows when it eats the apple.
A move into a wall or into the snake's own body ends the game, except a move
into the cell the tail is leaving on that same tick. The game is won when the
snake fills the whole interior.

The model is functional:

- `Geometry` (`geometry.dfy`) is the `Vector` struct: `+`, `==` and `!=`,
  plus the four unit directions.
- `Board` (`board.dfy`) is the `Field` struct. It holds the `Cell` datatype
  and the grid as `seq<seq<Cell>>`, indexed `[x][y]` as in the source. It has
  the field constructor, `create_apple`, the stamping of snake cells and the
  interior-clearing loop of `new_game`.
- `Game` (`game.dfy`) is the `Snake` class, written as an immutable record
  `Snake(delta, lastDelta, body, field)`. It has the four direction
  commands, `base_move`, `move`, the constructor and `new_game`, with the
  invariant and its preservation proofs.
- `Counting` (`counting.dfy`) proves two cardinality facts. The interior
  holds `(size-2)²` cells, and a body with no duplicates covers `|body|`
  cells. Together they show that `move` only calls `create_apple` when an
  Empty interior cell exists.
- `Scenarios` (`scenarios.dfy`) restates the repository's doctest cases
  against the model's contracts.

The random engine is not modelled. `create_apple` chooses an Empty interior
cell nondeterministically with `:|`, so every statement about it holds
whichever cell the engine would have drawn. `Move`, `NewSnake`, `NewGame` and
`CreateApple` are methods because they make this choice. `BaseMove`, `Grow`
and the direction commands are pure functions.

The invariant has two layers:

- `Consistent(s)` holds in every state the engine produces on a field at
  least 5 wide, including the hand-built, non-contiguous bodies of the win
  and restart test cases. It says:
  - the grid is size × size;
  - Wall cells are exactly the border;
  - Snake cells are exactly the body's cells;
  - the body has at least two segments, has no duplicates and lies in the
    interior;
  - there is at most one Apple;
  - `delta` is a unit step.
- `Inv(s)` adds the neck condition: `body[0] - body[1] == lastDelta`, with
  `delta` not the reverse of `lastDelta`. So the head's target is never the
  second segment.

`Move` preserves both layers. The constructor and `new_game` establish
`Inv` on fields at least 5 wide.

Two source behaviours are kept as they are:

- The constructor and `new_game` call `create_apple` before stamping the two
  starting segments (Snake.h:164 and 171-172, Snake.h:187 and 193-194). The
  apple may be overwritten, so only "at most one apple" holds afterwards, not
  "exactly one".
- On a field 3 or 4 wide, the starting tail `(size/2, size/2+1)` lies on the
  bottom border row, and stamping it overwrites a Wall cell. `InitialBody`
  states this as an if-and-only-if, and `NewSnake` states the border
  overwrite for those sizes. `SmallFieldOpensWall` shows the consequence on
  a 4-wide field: the first `base_move` clears that border cell, leaving a
  hole in the wall.

`create_apple` has no fail-fast path: with no Empty interior cell left, its
redraw loop (Snake.h:134-137) never ends. So the model makes an Empty
interior cell a precondition of `CreateApple`, and the proofs show that
`move` meets it.

## Model

| member | source | states |
|---|---|---|
| Geometry.Equal | Snake.h:55-57 | comparing x and y separately gives exactly value equality of vectors |
| Geometry.NotEqual | Snake.h:64-66 | the coordinate-wise `!=` is exactly the negation of `==` |
| Geometry.AddSubInverse | Snake.h:44-46 | `+` is undone by subtracting either summand; the neck invariant `body[0] - body[1] == lastDelta` relies on this |
| Geometry.CancelIffReverse | Snake.h:200-224 | `last_delta + candidate == (0,0)` holds exactly when the candidate is the reverse of `last_delta`, so the guard forbids 180-degree turns |
| Geometry.UnitNotSelfReverse | Snake.h:231 | a unit direction is never its own reverse, so committing `delta` as `last_delta` never forbids `delta` itself |
| Board.Interior | Snake.h:260 | the interior, as a set, has exactly `(size-2)*(size-2)` cells, the length at which `move` declares the win |
| Board.NewField | Snake.h:107-123 | builds a size×size grid (none for a negative size); a cell is Wall iff it is on the border and Empty iff it is in the interior |
| Board.EmptyInteriorBound | Snake.h:130-137 | the cells `create_apple` can land on (both coordinates drawn from 1 .. size-2, redrawn until Empty) form a subset of the interior, so there are at most `(size-2)*(size-2)` of them, and there are none on a field narrower than 3 |
| Board.CreateApple | Snake.h:129-139 | given some Empty interior cell, exactly one previously Empty interior cell becomes Apple and every other cell is unchanged; the set of Empty interior cells loses exactly that cell |
| Board.CreateApples | tests_main.cpp:95-97 | `n` calls of `create_apple` in a row, allowed while `n` does not exceed the Empty interior cells: exactly `n` of those cells become Apple, the rest stay Empty, every other cell is unchanged, and with `n` equal to their number none is left Empty |
| Board.Paint | Snake.h:235-241 | stamping a list of cells sets exactly those cells and leaves every other cell as it was |
| Board.ClearInterior | Snake.h:180-184 | every interior cell becomes Empty and every border cell keeps its state |
| Game.Turn | Snake.h:200-224 | a direction command takes the candidate unless it reverses `last_delta`, in which case `delta` is kept; `last_delta`, body and grid never change |
| Game.GoUp | Snake.h:200-203 | `up` sets `delta` to up unless the last move went down |
| Game.GoRight | Snake.h:207-210 | `right` sets `delta` to right unless the last move went left |
| Game.GoLeft | Snake.h:214-217 | `left` sets `delta` to left unless the last move went right |
| Game.GoDown | Snake.h:221-224 | `down` sets `delta` to down unless the last move went up |
| Game.TurnKeepsInvariant | Snake.h:200-224 | a unit direction command preserves both `Consistent` and `Inv` |
| Game.LastTurnWins | tests_main.cpp:5-13 | with the last move up, `left` then `right` are both accepted (the guard reads `last_delta`, not `delta`) and a following `down` is refused |
| Game.NextIsSafe | Snake.h:252-253 | under `Inv` the head's target is on the grid and is never the second segment |
| Game.NextInBounds | Snake.h:252-253 | in any consistent state the cell `move` inspects is on the grid, so `base_move` may run |
| Game.BaseMove | Snake.h:230-242 | the head moves by `delta` even onto a Wall, each other segment takes its predecessor's place, the length is kept, `last_delta := delta`; a cell is then Snake if it is in the new body, Empty if it was the old tail and not an Apple, and unchanged otherwise |
| Game.Grow | Snake.h:257-259 | eating: the body becomes `[head + delta] + old body`, so the length grows by exactly one and the old tail stays last; the eaten cell becomes Snake and no other cell changes |
| Game.Move | Snake.h:251-276 | Wall, or a Snake cell other than the tail: returns false and nothing changes; the tail's cell or an Empty cell: returns true as `base_move`; Apple: grows by one, and returns true with one new apple on a previously Empty cell iff the new length is below `(size-2)²`, otherwise returns false (win) exactly when the board is full, keeping the grown state; `Consistent` and `Inv` are preserved |
| Game.InitialBody | Snake.h:167-170 | the two starting cells are one step apart vertically, head above tail, and both lie in the interior iff the field is at least 5 wide |
| Game.NewSnake | Snake.h:162-173 | the constructor yields directions up, body `[(s/2,s/2),(s/2,s/2+1)]` stamped Snake, border Wall, and `Inv` for sizes of 5 and above; the apple drawn first lies at an interior cell `at` and is still there unless `at` is a starting cell; every other interior cell is Empty; for sizes 3 and 4 the tail lies on the border |
| Game.NewGame | Snake.h:179-196 | always returns true; resets both directions to up and the body to the two centre cells stamped Snake; the apple `create_apple` places lies at an interior cell `at` and is still there unless `at` is a starting cell; every other interior cell is Empty; border cells off the body are untouched; `Inv` holds afterwards whenever the border was Wall and the field is at least 5 wide |
| Game.BodyFits | Snake.h:260 | a consistent snake is never longer than the interior, so `move`'s win test `length < (size-2)²` fails only on a full board |
| Game.RoomForApple | Snake.h:260-261 | with no apple left and the snake shorter than the interior, an Empty interior cell exists, which is `create_apple`'s precondition |
| Game.AdvanceKeepsBody | Snake.h:235-239 | after stepping into an Empty cell or the tail's cell, the new body lies in the interior and has no duplicates |
| Game.AdvanceKeepsWalls | Snake.h:232-241 | after such an advance, Wall cells are still exactly the border: the emptied tail and the new head are interior cells |
| Game.AdvanceKeepsSnakeCells | Snake.h:232-241 | after such an advance, the Snake cells are exactly the new body's cells; the vacated tail cell is no longer Snake |
| Game.AdvanceKeepsApple | Snake.h:232-241 | such an advance never creates an apple, so at most one apple remains |
| Game.AdvanceKeepsInvariant | Snake.h:254-256 | stepping into an Empty cell or into the tail's cell preserves `Consistent` and `Inv` |
| Game.GrowKeepsBody | Snake.h:257-259 | after eating, the body (the eaten cell in front of the whole old body) lies in the interior and has no duplicates |
| Game.GrowKeepsInvariant | Snake.h:257-259 | eating the only apple preserves `Consistent` and `Inv`, leaves no apple on the board, and the new length is at most `(size-2)²` |
| Game.NewAppleKeepsInvariant | Snake.h:260-262 | placing the next apple on an apple-free consistent board keeps `Consistent` and `Inv` |
| Game.StampStart | Snake.h:187-194 | stamping the two starting segments over a field whose interior is Empty except for one apple gives a fresh game and changes no other cell |
| Game.RestartKeepsBorder | Snake.h:179-196 | `new_game` leaves every border cell that is not a starting segment as it was, and the restarted game has the full invariant when the old border was Wall and the field is at least 5 wide |
| Game.FreshEmptyCount | Snake.h:162-173 | a fresh game at least 5 wide has `(size-2)²-2` Empty interior cells when the first apple was stamped over, and one fewer when it survived |
| Game.BaseMoveClearsTail | Snake.h:232-234 | `base_move` leaves the old tail cell Empty unless it held an apple or the new body still covers it |
| Game.SmallFieldOpensWall | Snake.h:167-172 | on a 4-wide field the starting tail (2,3) is a border cell; the first `base_move` heads into the interior cell (2,1) and leaves (2,3) Empty, a hole in the wall |
| Game.StartStepOnSmallField | Snake.h:230-242 | from the 4-wide starting body `[(2,2),(2,3)]` moving up, `base_move` can run and clears the border cell (2,3) |
| Game.FreshInvariant | Snake.h:162-173 | a fresh game on a field at least 5 wide, whose border is Wall, satisfies the full invariant |
| Scenarios.TurnAfterMove | tests_main.cpp:14-16 | `move` to the right, whether its target is Empty or holds the apple, commits Right as the last direction, so a following `down` is accepted |
| Scenarios.BaseMoveOverWall | tests_main.cpp:46-58 | `base_move` towards a Wall cell puts the head on it and makes it a Snake cell |
| Scenarios.AppleGen | tests_main.cpp:91-102 | the test as written, 13 calls on a 6-wide field: every interior cell off the snake that is not Empty holds an apple; if the constructor's apple survived none is Empty, and if it was drawn on a starting cell exactly one is still Empty, so the test's check fails |
| Scenarios.AppleGenUntilFull | tests_main.cpp:91-102 | one call per Empty interior cell (13 or 14 calls) leaves an apple on every interior cell except the two snake cells, wherever the first apple landed |
| Scenarios.FillFreshGame | tests_main.cpp:95-101 | `n` calls on a fresh game whose only possible apple is at `at` leave every interior cell off the snake either still Empty or Apple, and the snake's cells Snake |
| Scenarios.FirstDrawMayHitStart | tests_main.cpp:92 | on the freshly built 6-wide field both starting cells (3,3) and (3,4) are Empty interior cells, so the constructor's first `create_apple` may land on either |
| Scenarios.EatingApple | tests_main.cpp:19-32 | on any well-formed 10-wide grid (even one holding a second apple) with the apple above the head at (5,5), eating gives the body `[(5,4),(5,5),(5,6)]`: the length grows by one, the tail plus `delta` is the segment before it, the head (5,4) is a Snake cell, and the old tail (5,6) stays last and Snake |
| Scenarios.WinOnFullBoard | tests_main.cpp:77-89 | on a 6-wide field, `move` on a 15-segment snake whose target holds the apple returns false, with the snake grown to 16 = `(6-2)²` segments |

## Left out

- `main.cpp` is not modelled. It holds the window, textures and sprites, keyboard and mouse polling, `Sleep(32)`, the tick counter and the play-button overlay. All of it is presentation and input.
- The random engine (`std::random_device`, `default_random_engine`, `uniform_int_distribution`) is not modelled. The apple cell is a nondeterministic choice among the Empty interior cells. Whether the rejection-sampling loop terminates is a probabilistic question that is not modelled.
- `operator<<` on `Vector` is not modelled: it only writes to a stream.
- The `std::terminate()` default branch of `move` is not modelled. With cells as a four-constructor datatype it cannot be reached.
- Fixed-width integers are not modelled; the model's integers are unbounded. Coordinates never exceed the field size. `(size-2)*(size-2)` overflows a 32-bit `int` only above size 46341, and a grid that large holds over two billion cells.
- Game.Move: requires `Consistent`, which includes "at most one apple". The source's eating-apple and self-crush test cases write a second apple into the grid by hand. The model does not cover those states, because with two apples `move` may call `create_apple` on a board without an Empty cell.
- Game.Move: states nothing about a game on a field 3 or 4 wide. There the starting tail lies on the border, so the state is not `Consistent`. After the first step the wall has a hole (`SmallFieldOpensWall`), and later moves can read cells outside the grid, which is undefined behaviour in the source.
- Game.NewSnake: requires a size of at least 3. Below that, `create_apple` draws from the empty range `1 .. size-2`, which is undefined.
- Game.NewGame: requires a well-formed grid of size at least 3, for the same reason as `NewSnake`.
- The doctest cases "Wall crush", "Restart check" and the full "Direction check" run several moves in a row. They are covered by the contracts of `Move`, `NewGame` and the direction commands rather than replayed step by step.

## Findings

| source | as written | input that shows it | evidently intended | confidence | as-written member | corrected member |
|---|---|---|---|---|---|---|
| tests_main.cpp:95-101 | the "Apple gen check" calls `create_apple` exactly 13 times, counting on the constructor's apple to fill the 14th free cell | the constructor's first draw is a starting cell, (3,3) or (3,4) (`FirstDrawMayHitStart`), which happens 2 times in 16; the snake is stamped over that apple, 14 cells are Empty, and one is still Empty after 13 calls, so the check at line 101 fails on it | every interior cell off the snake holds an apple whichever cell the first draw hit, e.g. by calling `create_apple` once per Empty interior cell | high; not executed | Scenarios.AppleGen | Scenarios.AppleGenUntilFull |
