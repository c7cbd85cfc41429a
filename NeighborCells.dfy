/**
 * `GetNeighborCells` of ExtraMath: the grid cells on the square ring at a given
 * Chebyshev distance around a start cell, listed column by column, or a single
 * clamped cell when the distance is not positive.
 *
 * The source bounds the row coordinate by the grid's width (`maxX`) rather than
 * its height; `GetNeighborCells` keeps that, and `GetNeighborCellsInGrid` is the
 * same enumeration with the height as the row bound.
 */
module NeighborCells {

  datatype Cell = Cell(x: int, y: int)

  function Abs(n: int): nat
  {
    if n < 0 then -n else n
  }

  /** Chessboard distance: the larger of the two coordinate differences. */
  function Chebyshev(a: Cell, b: Cell): nat
  {
    if Abs(a.x - b.x) < Abs(a.y - b.y) then Abs(a.y - b.y) else Abs(a.x - b.x)
  }

  /**
   * The int overload of MonoGame's `MathHelper.Clamp`: cap at `max` first,
   * then raise to `min`, so `min` wins when the bounds cross.
   */
  function Clamp(value: int, min: int, max: int): (r: int)
    ensures min <= max ==> min <= r <= max
    ensures min <= value <= max ==> r == value
    ensures max < min ==> r == min
    ensures value < min ==> r == min
    ensures min <= max < value ==> r == max
  {
    var capped := if value > max then max else value;
    if capped < min then min else capped
  }

  /**
   * `c` is on the ring of radius `distance` around `start`, is not `start`
   * itself, and lies in the quadrant box [0, xBound) x [0, yBound).
   */
  ghost predicate OnRing(c: Cell, start: Cell, distance: int, xBound: int, yBound: int)
  {
    Chebyshev(c, start) == distance && c != start &&
    0 <= c.x < xBound && 0 <= c.y < yBound
  }

  /** Column-major order: by `x`, then by `y`. */
  predicate Before(a: Cell, b: Cell)
  {
    a.x < b.x || (a.x == b.x && a.y < b.y)
  }

  /** Listed in strictly increasing column-major order, hence without repeats. */
  ghost predicate StrictlyOrdered(cells: seq<Cell>)
  {
    forall a, b | 0 <= a < b < |cells| :: Before(cells[a], cells[b])
  }

  /**
   * The nested scan of the source over the square [startX - distance,
   * startX + distance] x [startY - distance, startY + distance], keeping the
   * cells on its border, other than the start, inside the bounds.
   */
  method RingCells(startX: int, startY: int, distance: int, xBound: int, yBound: int)
    returns (result: seq<Cell>)
    ensures forall c :: c in result <==> OnRing(c, Cell(startX, startY), distance, xBound, yBound)
    ensures StrictlyOrdered(result)
  {
    var start := Cell(startX, startY);
    result := [];
    var i := startX - distance;
    while i <= startX + distance
      invariant i >= startX - distance
      invariant forall c :: c in result <==> OnRing(c, start, distance, xBound, yBound) && c.x < i
      invariant forall k | 0 <= k < |result| :: result[k].x < i
      invariant StrictlyOrdered(result)
    {
      var j := startY - distance;
      while j <= startY + distance
        invariant j >= startY - distance
        invariant forall c :: c in result <==>
          OnRing(c, start, distance, xBound, yBound) && (c.x < i || (c.x == i && c.y < j))
        invariant forall k | 0 <= k < |result| :: Before(result[k], Cell(i, j))
        invariant StrictlyOrdered(result)
      {
        if Abs(startX - i) == distance || Abs(startY - j) == distance {
          if i != startX || j != startY {
            if i >= 0 && j >= 0 {
              if i < xBound && j < yBound {
                result := result + [Cell(i, j)];
              }
            }
          }
        }
        j := j + 1;
      }
      i := i + 1;
    }
  }

  /**
   * `GetNeighborCells` as written: for a positive distance the ring cells with
   * both coordinates below `maxX`; otherwise the start clamped into the grid.
   */
  method GetNeighborCells(startX: int, startY: int, distance: int, maxX: int, maxY: int)
    returns (result: seq<Cell>)
    ensures distance > 0 ==>
      (forall c :: c in result <==> OnRing(c, Cell(startX, startY), distance, maxX, maxX)) &&
      StrictlyOrdered(result)
    ensures distance <= 0 ==> result == [Cell(Clamp(startX, 0, maxX - 1), Clamp(startY, 0, maxY - 1))]
    ensures distance <= 0 && maxX >= 1 && maxY >= 1 ==>
      0 <= result[0].x < maxX && 0 <= result[0].y < maxY
  {
    if distance > 0 {
      result := RingCells(startX, startY, distance, maxX, maxX);
    } else {
      result := [Cell(Clamp(startX, 0, maxX - 1), Clamp(startY, 0, maxY - 1))];
    }
  }

  /**
   * The enumeration with the row coordinate bounded by the grid's height, so
   * that every returned cell lies in the maxX-by-maxY grid.
   */
  method GetNeighborCellsInGrid(startX: int, startY: int, distance: int, maxX: int, maxY: int)
    returns (result: seq<Cell>)
    ensures distance > 0 ==>
      (forall c :: c in result <==> OnRing(c, Cell(startX, startY), distance, maxX, maxY)) &&
      StrictlyOrdered(result)
    ensures distance <= 0 ==> result == [Cell(Clamp(startX, 0, maxX - 1), Clamp(startY, 0, maxY - 1))]
    ensures (distance > 0 || (maxX >= 1 && maxY >= 1)) ==>
      forall c | c in result :: 0 <= c.x < maxX && 0 <= c.y < maxY
  {
    if distance > 0 {
      result := RingCells(startX, startY, distance, maxX, maxY);
    } else {
      result := [Cell(Clamp(startX, 0, maxX - 1), Clamp(startY, 0, maxY - 1))];
    }
  }

  /**
   * Bounding rows by the width both drops and invents cells: in a 1-by-5 grid
   * the cell (0, 1) next to (0, 0) is left out, and in a 5-by-1 grid the cell
   * (1, 1), outside the grid, is let in.
   */
  lemma RowBoundByWidth()
    ensures OnRing(Cell(0, 1), Cell(0, 0), 1, 1, 5) && !OnRing(Cell(0, 1), Cell(0, 0), 1, 1, 1)
    ensures OnRing(Cell(1, 1), Cell(0, 0), 1, 5, 5) && !OnRing(Cell(1, 1), Cell(0, 0), 1, 5, 1)
  {
  }

  /** The head of a strictly ordered list comes before every other member. */
  lemma HeadComesFirst(cells: seq<Cell>, c: Cell)
    requires StrictlyOrdered(cells) && c in cells
    ensures c == cells[0] || Before(cells[0], c)
  {
    var p :| 0 <= p < |cells| && cells[p] == c;
    if p > 0 {
      assert Before(cells[0], cells[p]);
    }
  }

  /**
   * The result is fixed by its cells alone: two strictly ordered lists with the
   * same members are the same list. So the ring is listed once per cell, in
   * column-major order, and in no other way.
   */
  lemma {:induction false} OrderedBySameCells(a: seq<Cell>, b: seq<Cell>)
    requires StrictlyOrdered(a) && StrictlyOrdered(b)
    requires forall c :: c in a <==> c in b
    ensures a == b
  {
    if b != [] {
      assert b[0] in a;
    }
    if a != [] {
      assert a[0] in b;
      HeadComesFirst(a, b[0]);
      HeadComesFirst(b, a[0]);
      assert a[0] == b[0];
      forall c
        ensures c in a[1..] <==> c in b[1..]
      {
        if c in a[1..] {
          var p :| 1 <= p < |a| && a[p] == c;
          assert Before(a[0], a[p]);
          assert c in b && c != b[0];
        }
        if c in b[1..] {
          var q :| 1 <= q < |b| && b[q] == c;
          assert Before(b[0], b[q]);
          assert c in a && c != a[0];
        }
      }
      OrderedBySameCells(a[1..], b[1..]);
      assert a == [a[0]] + a[1..] && b == [b[0]] + b[1..];
    }
  }
}
