/** The lasso of `imageProcessor/toolsManager.ts`: the even-odd ray-casting test
    `isPointInPolygon`, and the cell selection made on release from the cells
    whose centre lies inside the drawn polygon. Coordinates are exact reals
    rather than JavaScript doubles. */
module Lasso {
  import opened Board
  import opened State

  /** A point of the lasso path, in stage coordinates. */
  datatype Point = Point(x: real, y: real)

  /** The loop's `j`: the vertex before `i`, wrapping from the first vertex to the
      last. */
  function Prev(n: nat, i: nat): (j: nat)
    requires i < n
    ensures j < n
    ensures i == 0 ==> j == n - 1
    ensures i > 0 ==> j + 1 == i
  {
    if i == 0 then n - 1 else i - 1
  }

  /** `intersect` for the edge from `b = polygon[j]` to `a = polygon[i]`: the edge
      straddles the horizontal line through `p`, and the point where it meets
      that line lies to the right of `p`. The straddle test guards the division,
      so the divisor `b.y - a.y` is never zero. */
  predicate Crosses(a: Point, b: Point, p: Point) {
    (a.y > p.y) != (b.y > p.y) && p.x < (b.x - a.x) * (p.y - a.y) / (b.y - a.y) + a.x
  }

  /** The number of edges among the first `n` that the ray from `p` crosses. */
  function CrossCount(polygon: seq<Point>, p: Point, n: nat): nat
    requires n <= |polygon|
  {
    if n == 0 then 0
    else
      var i := n - 1;
      CrossCount(polygon, p, i) + if Crosses(polygon[i], polygon[Prev(|polygon|, i)], p) then 1 else 0
  }

  /** The even-odd rule: `p` is inside when the ray crosses an odd number of
      edges. */
  predicate Inside(polygon: seq<Point>, p: Point) {
    CrossCount(polygon, p, |polygon|) % 2 == 1
  }

  /** `isPointInPolygon(x, y, polygon)`: the flag flips at every crossed edge, so
      it ends up set exactly when the point is inside by the even-odd rule. */
  method IsPointInPolygon(x: real, y: real, polygon: seq<Point>) returns (inside: bool)
    ensures inside <==> Inside(polygon, Point(x, y))
  {
    inside := false;
    var i := 0;
    var j := |polygon| - 1;
    while i < |polygon|
      invariant i <= |polygon|
      invariant 0 < i ==> j == i - 1
      invariant i == 0 ==> j == |polygon| - 1
      invariant inside <==> CrossCount(polygon, Point(x, y), i) % 2 == 1
    {
      var intersect := Crosses(polygon[i], polygon[j], Point(x, y));
      if intersect {
        inside := !inside;
      }
      j := i;
      i := i + 1;
    }
  }

  /** A crossed edge is not horizontal, and the crossing point lies within the
      edge's horizontal extent, so `p` is left of one of its ends. */
  lemma CrossedEdge(a: Point, b: Point, p: Point)
    requires Crosses(a, b, p)
    ensures a.y != b.y
    ensures p.x < a.x || p.x < b.x
  {
    var t := (p.y - a.y) / (b.y - a.y);
    assert 0.0 <= t <= 1.0 by {
      if a.y > p.y {
        assert p.y - a.y < 0.0 && b.y - a.y <= p.y - a.y;
        DivBetween(a.y - p.y, a.y - b.y);
        assert t == (a.y - p.y) / (a.y - b.y);
      } else {
        assert 0.0 <= p.y - a.y < b.y - a.y;
        DivBetween(p.y - a.y, b.y - a.y);
      }
    }
    ScaledWithin(b.x - a.x, t);
  }

  lemma DivBetween(u: real, v: real)
    requires 0.0 <= u <= v && v > 0.0
    ensures 0.0 <= u / v <= 1.0
  {
  }

  lemma ScaledWithin(w: real, t: real)
    requires 0.0 <= t <= 1.0
    ensures w * t <= 0.0 || w * t <= w
  {
    if w >= 0.0 {
      assert w * t <= w * 1.0;
    } else {
      assert w * t <= 0.0;
    }
  }

  /** No edge among the first `n` is crossed when no vertex lies right of `p`, or
      when all vertices lie on the same side of the horizontal through `p`. */
  lemma {:induction false} NoCrossings(polygon: seq<Point>, p: Point, n: nat)
    requires n <= |polygon|
    requires (forall i :: 0 <= i < |polygon| ==> polygon[i].x <= p.x)
      || (forall i :: 0 <= i < |polygon| ==> polygon[i].y > p.y)
      || (forall i :: 0 <= i < |polygon| ==> polygon[i].y <= p.y)
    ensures CrossCount(polygon, p, n) == 0
  {
    if n > 0 {
      NoCrossings(polygon, p, n - 1);
      var i := n - 1;
      var j := Prev(|polygon|, i);
      if Crosses(polygon[i], polygon[j], p) {
        CrossedEdge(polygon[i], polygon[j], p);
        assert false;
      }
    }
  }

  /** A point to the right of every vertex, above every vertex or below every
      vertex is outside; in particular nothing is inside an empty polygon. */
  lemma OutsideOfExtent(polygon: seq<Point>, p: Point)
    requires (forall i :: 0 <= i < |polygon| ==> polygon[i].x <= p.x)
      || (forall i :: 0 <= i < |polygon| ==> polygon[i].y > p.y)
      || (forall i :: 0 <= i < |polygon| ==> polygon[i].y <= p.y)
    ensures !Inside(polygon, p)
  {
    NoCrossings(polygon, p, |polygon|);
  }

  /** `x * SCALE + SCALE / 2`, `y * SCALE + SCALE / 2`: the centre of cell `p`. */
  function CellCentre(d: Dims, p: Pos): (c: Point)
    requires ValidDims(d)
    ensures p.0 as real * d.scale < c.x < (p.0 + 1) as real * d.scale
    ensures p.1 as real * d.scale < c.y < (p.1 + 1) as real * d.scale
  {
    Point(p.0 as real * d.scale + d.scale / 2.0, p.1 as real * d.scale + d.scale / 2.0)
  }

  /** Exactly the grid cells whose centre is inside the polygon. */
  ghost predicate LassoSelection(d: Dims, polygon: seq<Point>, sel: set<Pos>)
    requires ValidDims(d)
  {
    forall p :: p in sel <==> InBounds(d, p) && Inside(polygon, CellCentre(d, p))
  }

  /** The selection loop of the `pointerup` handler: starting from an empty
      selection, every cell of every row whose centre is inside is added. */
  method LassoSelect(d: Dims, polygon: seq<Point>) returns (sel: set<Pos>)
    requires ValidDims(d)
    ensures LassoSelection(d, polygon, sel)
  {
    sel := {};
    var y := 0;
    while y < d.height
      invariant y <= d.height
      invariant forall p :: p in sel <==> InBounds(d, p) && p.1 < y && Inside(polygon, CellCentre(d, p))
    {
      sel := SelectRow(d, polygon, y, sel);
      y := y + 1;
    }
  }

  /** The inner loop over row `y`: the cells of the row whose centre is inside are
      added and nothing else changes. */
  method SelectRow(d: Dims, polygon: seq<Point>, y: nat, sel: set<Pos>) returns (sel': set<Pos>)
    requires ValidDims(d)
    ensures forall p :: p in sel' <==> p in sel || (p.1 == y && 0 <= p.0 < d.width && Inside(polygon, CellCentre(d, p)))
  {
    sel' := sel;
    var x := 0;
    while x < d.width
      invariant x <= d.width
      invariant forall p :: p in sel' <==> p in sel || (p.1 == y && 0 <= p.0 < x && Inside(polygon, CellCentre(d, p)))
    {
      var cellCenterX := x as real * d.scale + d.scale / 2.0;
      var cellCenterY := y as real * d.scale + d.scale / 2.0;
      assert Point(cellCenterX, cellCenterY) == CellCentre(d, (x, y));
      var inside := IsPointInPolygon(cellCenterX, cellCenterY, polygon);
      if inside {
        sel' := sel' + {(x, y)};
      }
      x := x + 1;
    }
  }
}
