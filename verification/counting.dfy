/** Cardinality facts about sets of grid positions: how many cells a
    rectangle holds and how many cells a duplicate-free body covers. They
    turn "the snake is shorter than the interior" into "some interior cell
    is free". */
module Counting {
  import opened Geometry

  /** The cells (x, 1) .. (x, h) of one column. */
  function Column(x: int, h: int): set<Vector> {
    set y | 1 <= y <= h :: Vector(x, y)
  }

  /** The cells (x, y) with 1 <= x <= w and 1 <= y <= h. */
  function Rect(w: int, h: int): set<Vector> {
    set x, y | 1 <= x <= w && 1 <= y <= h :: Vector(x, y)
  }

  /** No position occurs twice. */
  predicate Distinct(s: seq<Vector>) {
    forall i, j :: 0 <= i < j < |s| ==> s[i] != s[j]
  }

  /** The set of positions a sequence visits. */
  function Cells(s: seq<Vector>): (c: set<Vector>)
    ensures forall p :: p in c <==> p in s
  {
    set p | p in s
  }

  lemma {:induction false} ColumnCard(x: int, h: nat)
    ensures |Column(x, h)| == h
  {
    if h == 0 {
      assert Column(x, h) == {};
    } else {
      ColumnCard(x, h - 1);
      assert Column(x, h) == Column(x, h - 1) + {Vector(x, h)};
      assert Vector(x, h) !in Column(x, h - 1);
    }
  }

  lemma {:induction false} RectCard(w: nat, h: nat)
    ensures |Rect(w, h)| == w * h
  {
    if w == 0 {
      assert Rect(w, h) == {};
    } else {
      RectCard(w - 1, h);
      ColumnCard(w, h);
      assert Rect(w, h) == Rect(w - 1, h) + Column(w, h);
      assert Rect(w - 1, h) * Column(w, h) == {};
      assert (w - 1) * h + h == w * h;
    }
  }

  /** A duplicate-free sequence covers exactly as many cells as it is long. */
  lemma {:induction false} DistinctCard(s: seq<Vector>)
    requires Distinct(s)
    ensures |Cells(s)| == |s|
  {
    if s != [] {
      assert Distinct(s[1..]) by {
        forall i, j | 0 <= i < j < |s[1..]|
          ensures s[1..][i] != s[1..][j]
        {
          assert s[1..][i] == s[i + 1] && s[1..][j] == s[j + 1];
        }
      }
      DistinctCard(s[1..]);
      assert Cells(s) == {s[0]} + Cells(s[1..]);
      assert s[0] !in Cells(s[1..]);
    }
  }

  lemma SubsetCard(a: set<Vector>, b: set<Vector>)
    requires a <= b
    ensures |a| <= |b|
  {
    assert b == a + (b - a);
    assert a * (b - a) == {};
  }

  /** Removing a subset removes exactly its size. */
  lemma DiffCard(a: set<Vector>, b: set<Vector>)
    requires b <= a
    ensures |a - b| == |a| - |b|
  {
    assert a == (a - b) + b;
    assert (a - b) * b == {};
  }

  /** A strictly smaller set cannot cover a bigger one. */
  lemma RoomOutside(small: set<Vector>, big: set<Vector>)
    requires |small| < |big|
    ensures exists p :: p in big && p !in small
  {
    assert big == (big - small) + (big * small);
    assert (big - small) * (big * small) == {};
    SubsetCard(big * small, small);
    assert |big - small| > 0;
    var p :| p in big - small;
  }
}
