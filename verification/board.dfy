/** The playing field (the `Field` struct): a size-by-size grid of cell
    states, indexed [x][y], whose border is wall and whose interior holds
    the snake and at most one apple. */
module Board {
  import opened Geometry
  import opened Counting

  /** The four cell states (`Empty_id`, `Wall_id`, `Snake_id`, `Apple_id`). */
  datatype Cell = Empty | Wall | SnakePart | Apple

  predicate InBounds(size: int, p: Vector) {
    0 <= p.x < size && 0 <= p.y < size
  }

  /** The cells an apple may be placed on: both coordinates in 1 .. size-2. */
  predicate InInterior(size: int, p: Vector) {
    1 <= p.x <= size - 2 && 1 <= p.y <= size - 2
  }

  /** The cells the field constructor makes Wall. */
  predicate OnBorder(size: int, p: Vector) {
    InBounds(size, p) && (p.x == 0 || p.y == 0 || p.x == size - 1 || p.y == size - 1)
  }

  /** Number of interior cells: the length at which the snake fills the board. */
  function InteriorArea(size: int): int {
    (size - 2) * (size - 2)
  }

  /** The interior as a set; it holds exactly `InteriorArea` cells. */
  function Interior(size: int): (s: set<Vector>)
    requires size >= 2
    ensures forall p :: p in s <==> InInterior(size, p)
    ensures |s| == InteriorArea(size)
  {
    RectCard(size - 2, size - 2);
    Rect(size - 2, size - 2)
  }

  /** A field: its side length and its columns of cells (`body[x][y]` in the
      source). The random engine lives outside the model. */
  datatype Field = Field(size: int, cells: seq<seq<Cell>>) {

    /** The grid really is size by size. */
    predicate Valid() {
      |cells| == size && forall x :: 0 <= x < size ==> |cells[x]| == size
    }

    function At(p: Vector): Cell
      requires Valid() && InBounds(size, p)
    {
      cells[p.x][p.y]
    }

    /** The field with one cell overwritten and every other cell kept. */
    function Set(p: Vector, c: Cell): (g: Field)
      requires Valid() && InBounds(size, p)
      ensures g.Valid() && g.size == size
      ensures g.At(p) == c
      ensures forall q :: InBounds(size, q) && q != p ==> g.At(q) == At(q)
    {
      Field(size, cells[p.x := cells[p.x][p.y := c]])
    }
  }

  /** Constructor `Field(size)`: the border is Wall and the interior Empty.
      A negative size yields no columns at all. */
  method NewField(size: int) returns (f: Field)
    ensures f.size == size
    ensures size >= 0 ==> f.Valid()
    ensures size < 0 ==> f.cells == []
    ensures forall p :: size >= 0 && InBounds(size, p) ==> (f.At(p) == Wall <==> !InInterior(size, p))
    ensures forall p :: size >= 0 && InBounds(size, p) ==> (f.At(p) == Empty <==> InInterior(size, p))
  {
    var columns: seq<seq<Cell>> := [];
    var i := 0;
    while i < size
      invariant 0 <= i && (i <= size || i == 0)
      invariant |columns| == i
      invariant forall a :: 0 <= a < i ==> |columns[a]| == size
      invariant forall a, b :: 0 <= a < i && 0 <= b < size ==>
                  columns[a][b] == (if OnBorder(size, Vector(a, b)) then Wall else Empty)
    {
      var column: seq<Cell> := [];
      var j := 0;
      while j < size
        invariant 0 <= j <= size
        invariant |column| == j
        invariant forall b :: 0 <= b < j ==>
                    column[b] == (if OnBorder(size, Vector(i, b)) then Wall else Empty)
      {
        if i == 0 || j == 0 || i == size - 1 || j == size - 1 {
          column := column + [Wall];
        } else {
          column := column + [Empty];
        }
        j := j + 1;
      }
      columns := columns + [column];
      i := i + 1;
    }
    f := Field(size, columns);
  }

  /** The interior cells that are currently Empty: the cells `create_apple`
      can land on, since it draws both coordinates from 1 .. size-2 and
      redraws until the cell is Empty. */
  function EmptyInterior(f: Field): (e: set<Vector>)
    requires f.Valid()
    ensures forall p :: p in e <==> InInterior(f.size, p) && f.At(p) == Empty
  {
    set x, y | 1 <= x <= f.size - 2 && 1 <= y <= f.size - 2 && f.cells[x][y] == Empty :: Vector(x, y)
  }

  /** There are never more cells for `create_apple` to choose from than
      interior cells, and none at all on a field narrower than 3. */
  lemma EmptyInteriorBound(f: Field)
    requires f.Valid()
    ensures f.size >= 2 ==> EmptyInterior(f) <= Interior(f.size) && |EmptyInterior(f)| <= InteriorArea(f.size)
    ensures f.size < 3 ==> EmptyInterior(f) == {}
  {
    if f.size >= 2 {
      SubsetCard(EmptyInterior(f), Interior(f.size));
    }
  }

  /** `create_apple`: the source draws interior cells uniformly until it hits
      an Empty one; here the cell is chosen nondeterministically among them.
      Exactly that cell changes, from Empty to Apple. */
  method CreateApple(f: Field) returns (g: Field, at: Vector)
    requires f.Valid() && EmptyInterior(f) != {}
    ensures InInterior(f.size, at) && f.At(at) == Empty
    ensures g.Valid() && g.size == f.size && g.At(at) == Apple
    ensures forall q :: InBounds(f.size, q) && q != at ==> g.At(q) == f.At(q)
    ensures EmptyInterior(g) == EmptyInterior(f) - {at}
  {
    at :| at in EmptyInterior(f);
    g := f.Set(at, Apple);
  }

  /** `create_apple` called `n` times in a row. Every call consumes one Empty
      interior cell, so `n` may not exceed their number (one call more would
      redraw forever). Afterwards exactly `n` of them hold apples and no
      other cell has changed; with `n` equal to their number, none is left. */
  method CreateApples(f: Field, n: nat) returns (g: Field)
    requires f.Valid() && n <= |EmptyInterior(f)|
    ensures g.Valid() && g.size == f.size
    ensures EmptyInterior(g) <= EmptyInterior(f)
    ensures |EmptyInterior(g)| == |EmptyInterior(f)| - n
    ensures n == |EmptyInterior(f)| ==> EmptyInterior(g) == {}
    ensures forall p :: InBounds(f.size, p) ==>
              g.At(p) == (if p in EmptyInterior(f) && p !in EmptyInterior(g) then Apple else f.At(p))
  {
    g := f;
    var i := 0;
    while i < n
      invariant 0 <= i <= n
      invariant g.Valid() && g.size == f.size
      invariant EmptyInterior(g) <= EmptyInterior(f)
      invariant |EmptyInterior(g)| == |EmptyInterior(f)| - i
      invariant forall p :: InBounds(f.size, p) ==>
                  g.At(p) == (if p in EmptyInterior(f) && p !in EmptyInterior(g) then Apple else f.At(p))
    {
      var at;
      g, at := CreateApple(g);
      i := i + 1;
    }
  }

  /** Writes `c` into every listed cell (the stamping of snake segments). */
  function Paint(f: Field, ps: seq<Vector>, c: Cell): (g: Field)
    requires f.Valid()
    requires forall i :: 0 <= i < |ps| ==> InBounds(f.size, ps[i])
    ensures g.Valid() && g.size == f.size
    ensures forall p :: InBounds(f.size, p) ==> g.At(p) == (if p in ps then c else f.At(p))
    decreases |ps|
  {
    if ps == [] then f else Paint(f.Set(ps[0], c), ps[1..], c)
  }

  /** The first loop of `new_game`: every interior cell becomes Empty and the
      border is left as it is. */
  method ClearInterior(f: Field) returns (g: Field)
    requires f.Valid()
    ensures g.Valid() && g.size == f.size
    ensures forall p :: InBounds(f.size, p) ==>
              g.At(p) == (if InInterior(f.size, p) then Empty else f.At(p))
  {
    g := f;
    var i := 1;
    while i < f.size - 1
      invariant 1 <= i && (i <= f.size - 1 || i == 1)
      invariant g.Valid() && g.size == f.size
      invariant forall p :: InBounds(f.size, p) ==>
                  g.At(p) == (if InInterior(f.size, p) && p.x < i then Empty else f.At(p))
    {
      var j := 1;
      while j < f.size - 1
        invariant 1 <= j <= f.size - 1
        invariant g.Valid() && g.size == f.size
        invariant forall p :: InBounds(f.size, p) ==>
                    g.At(p) == (if InInterior(f.size, p) && (p.x < i || (p.x == i && p.y < j)) then Empty else f.At(p))
      {
        g := g.Set(Vector(i, j), Empty);
        j := j + 1;
      }
      i := i + 1;
    }
  }
}
