/** `floodFillSelect` of `imageProcessor/toolsManager.ts`: from a start cell,
    select the 4-connected region of cells that carry the same number text and
    the same fill colour, remembering visited cells so that each is entered once. */
module FloodFill {
  import opened Common
  import opened State
  import opened Board

  /** What cells are compared by: `cell.text ? cell.text.text : null` and
      `cell.fillColor`. A hidden number still counts. */
  datatype Target = Target(number: Option<string>, color: int)

  function TargetOf(c: Cell): (t: Target)
    ensures t.color == c.fillColor
    ensures t.number.Some? <==> c.text.Some?
    ensures c.text.Some? ==> t.number.value == c.text.value.text
  {
    Target(if c.text.Some? then Some(c.text.value.text) else None, c.fillColor)
  }

  /** The checks a call makes before selecting `p`: inside the grid, a cell is
      there, and it has the target number and colour. */
  predicate Matches(d: Dims, cells: Grid, target: Target, p: Pos) {
    && InBounds(d, p)
    && CellAt(cells, p).Some?
    && TargetOf(CellAt(cells, p).value) == target
  }

  /** The four recursive calls, in order: right, left, down, up. */
  function Neighbours(p: Pos): (ns: seq<Pos>)
    ensures |ns| == 4
    ensures forall q :: q in ns <==>
      || (q.1 == p.1 && (q.0 == p.0 + 1 || q.0 == p.0 - 1))
      || (q.0 == p.0 && (q.1 == p.1 + 1 || q.1 == p.1 - 1))
  {
    [(p.0 + 1, p.1), (p.0 - 1, p.1), (p.0, p.1 + 1), (p.0, p.1 - 1)]
  }

  /** A chain of matching cells, each a neighbour of the one before. */
  ghost predicate IsPath(d: Dims, cells: Grid, target: Target, path: seq<Pos>) {
    && |path| > 0
    && (forall i :: 0 <= i < |path| ==> Matches(d, cells, target, path[i]))
    && (forall i :: 0 < i < |path| ==> path[i] in Neighbours(path[i - 1]))
  }

  /** `q` is joined to `seed` by a chain of matching cells. */
  ghost predicate Reachable(d: Dims, cells: Grid, target: Target, seed: Pos, q: Pos) {
    exists path :: IsPath(d, cells, target, path) && path[0] == seed && path[|path| - 1] == q
  }

  /** Every visited cell is reachable from the seed. */
  ghost predicate AllReachable(d: Dims, cells: Grid, target: Target, seed: Pos, visited: set<Pos>) {
    forall v :: v in visited ==> Reachable(d, cells, target, seed, v)
  }

  /** Every matching neighbour of a cell of `entered` is in `visited`. */
  ghost predicate Closed(d: Dims, cells: Grid, target: Target, entered: set<Pos>, visited: set<Pos>) {
    forall v, q :: v in entered && q in Neighbours(v) && Matches(d, cells, target, q) ==> q in visited
  }

  /** `floodFillSelect(x, y, targetNumber, targetColor, visited)`, with the
      selection it adds to. Nothing happens off the grid, on a visited cell, on a
      missing cell or on a cell that does not match; otherwise the cell is marked
      visited and selected and the four neighbours are filled in turn. The cells
      entered are reachable from `seed` (the cell of the first call), the cell
      itself is entered when it matches, every matching neighbour of an entered
      cell ends up visited, and the selection gains exactly the entered cells. */
  method FloodFillSelect(d: Dims, cells: Grid, p: Pos, target: Target, visited: set<Pos>,
                         selected: set<Pos>, ghost seed: Pos)
    returns (visited': set<Pos>, selected': set<Pos>)
    requires visited <= AllCells(d)
    requires AllReachable(d, cells, target, seed, visited)
    requires p == seed || exists v :: v in visited && p in Neighbours(v)
    ensures visited <= visited' <= AllCells(d)
    ensures AllReachable(d, cells, target, seed, visited')
    ensures Matches(d, cells, target, p) ==> p in visited'
    ensures Closed(d, cells, target, visited' - visited, visited')
    ensures selected' == selected + (visited' - visited)
    decreases |AllCells(d) - visited|, 2
  {
    visited', selected' := visited, selected;
    if !InBounds(d, p) || p in visited {
      return;
    }
    var cell := CellAt(cells, p);
    if cell.None? || TargetOf(cell.value) != target {
      return;
    }
    ReachStep(d, cells, target, seed, visited, p);
    visited', selected' := FillNeighbours(d, cells, p, target, visited, visited + {p}, selected + {p}, seed);
  }

  /** The four recursive calls after `p` has been entered: `entered` is the
      visited set right after adding `p` and `chosen` the selection then. */
  method FillNeighbours(d: Dims, cells: Grid, p: Pos, target: Target, ghost before: set<Pos>,
                        entered: set<Pos>, chosen: set<Pos>, ghost seed: Pos)
    returns (visited': set<Pos>, selected': set<Pos>)
    requires p in AllCells(d) && p !in before && entered == before + {p}
    requires entered <= AllCells(d)
    requires AllReachable(d, cells, target, seed, entered)
    ensures entered <= visited' <= AllCells(d)
    ensures AllReachable(d, cells, target, seed, visited')
    ensures Closed(d, cells, target, visited' - before, visited')
    ensures selected' == chosen + (visited' - entered)
    decreases |AllCells(d) - before|, 1
  {
    visited', selected' := entered, chosen;
    var i := 0;
    while i < 4
      invariant i <= 4
      invariant FillProgress(d, cells, p, target, entered, chosen, seed, i, visited', selected')
    {
      visited', selected' := FillNeighbour(d, cells, p, target, before, entered, chosen, seed, i, visited', selected');
      i := i + 1;
    }
    FillDone(d, cells, p, target, before, entered, chosen, seed, visited', selected');
  }

  /** Where the four calls stand after the first `i`: the visited set has grown
      within the grid, stays reachable, holds the matching neighbours called so
      far and the matching neighbours of every cell entered since `p`, and the
      selection has grown by exactly the cells entered since `p`. */
  ghost predicate FillProgress(d: Dims, cells: Grid, p: Pos, target: Target, entered: set<Pos>,
                               chosen: set<Pos>, seed: Pos, i: nat, visited: set<Pos>, selected: set<Pos>)
    requires i <= 4
  {
    && entered <= visited <= AllCells(d)
    && AllReachable(d, cells, target, seed, visited)
    && Covered(d, cells, target, Neighbours(p)[..i], visited)
    && Closed(d, cells, target, visited - entered, visited)
    && selected == chosen + (visited - entered)
  }

  /** Call `i` of the four: `floodFillSelect` on the `i`-th neighbour. */
  method FillNeighbour(d: Dims, cells: Grid, p: Pos, target: Target, ghost before: set<Pos>,
                       entered: set<Pos>, chosen: set<Pos>, ghost seed: Pos, i: nat,
                       visited: set<Pos>, selected: set<Pos>)
    returns (visited': set<Pos>, selected': set<Pos>)
    requires p in AllCells(d) && p !in before && entered == before + {p}
    requires i < 4 && FillProgress(d, cells, p, target, entered, chosen, seed, i, visited, selected)
    ensures FillProgress(d, cells, p, target, entered, chosen, seed, i + 1, visited', selected')
    decreases |AllCells(d) - before|, 0
  {
    var ns := Neighbours(p);
    LessLeft(AllCells(d), before, visited, p);
    assert p in visited;
    visited', selected' := FloodFillSelect(d, cells, ns[i], target, visited, selected, seed);
    ProgressStep(d, cells, p, target, entered, chosen, seed, i, visited, selected, visited', selected');
  }

  lemma ProgressStep(d: Dims, cells: Grid, p: Pos, target: Target, entered: set<Pos>, chosen: set<Pos>,
                     seed: Pos, i: nat, visited: set<Pos>, selected: set<Pos>, visited': set<Pos>, selected': set<Pos>)
    requires i < 4 && FillProgress(d, cells, p, target, entered, chosen, seed, i, visited, selected)
    requires visited <= visited' <= AllCells(d)
    requires AllReachable(d, cells, target, seed, visited')
    requires Matches(d, cells, target, Neighbours(p)[i]) ==> Neighbours(p)[i] in visited'
    requires Closed(d, cells, target, visited' - visited, visited')
    requires selected' == selected + (visited' - visited)
    ensures FillProgress(d, cells, p, target, entered, chosen, seed, i + 1, visited', selected')
  {
    ClosedGrow(d, cells, target, visited - entered, visited, visited' - visited, visited');
    CoveredGrow(d, cells, target, Neighbours(p), i, visited, visited');
    assert visited' - entered == (visited - entered) + (visited' - visited);
  }

  /** After the four calls every matching neighbour of `p` is visited, so the
      cells entered since before `p` are closed. */
  lemma FillDone(d: Dims, cells: Grid, p: Pos, target: Target, before: set<Pos>,
                 entered: set<Pos>, chosen: set<Pos>, seed: Pos, visited: set<Pos>, selected: set<Pos>)
    requires entered == before + {p} && p !in before
    requires FillProgress(d, cells, p, target, entered, chosen, seed, 4, visited, selected)
    ensures Closed(d, cells, target, visited - before, visited)
  {
    assert Neighbours(p)[..4] == Neighbours(p);
    ClosedAdd(d, cells, target, p, visited - entered, visited);
    assert visited - before == (visited - entered) + {p};
  }

  /** A matching cell that is the seed, or a neighbour of a reachable cell, is
      reachable. */
  lemma ReachStep(d: Dims, cells: Grid, target: Target, seed: Pos, visited: set<Pos>, p: Pos)
    requires AllReachable(d, cells, target, seed, visited)
    requires p == seed || exists v :: v in visited && p in Neighbours(v)
    requires Matches(d, cells, target, p)
    ensures AllReachable(d, cells, target, seed, visited + {p})
  {
    ReachOne(d, cells, target, seed, visited, p);
  }

  lemma ReachOne(d: Dims, cells: Grid, target: Target, seed: Pos, visited: set<Pos>, p: Pos)
    requires AllReachable(d, cells, target, seed, visited)
    requires p == seed || exists v :: v in visited && p in Neighbours(v)
    requires Matches(d, cells, target, p)
    ensures Reachable(d, cells, target, seed, p)
  {
    if p == seed {
      SeedReachable(d, cells, target, p);
    } else {
      var v :| v in visited && p in Neighbours(v);
      ExtendReach(d, cells, target, seed, v, p);
    }
  }

  /** A matching cell reaches itself. */
  lemma SeedReachable(d: Dims, cells: Grid, target: Target, p: Pos)
    requires Matches(d, cells, target, p)
    ensures Reachable(d, cells, target, p, p)
  {
    assert IsPath(d, cells, target, [p]);
  }

  /** A matching neighbour of a reachable cell is reachable. */
  lemma ExtendReach(d: Dims, cells: Grid, target: Target, seed: Pos, v: Pos, p: Pos)
    requires Reachable(d, cells, target, seed, v)
    requires Matches(d, cells, target, p) && p in Neighbours(v)
    ensures Reachable(d, cells, target, seed, p)
  {
    var path :| IsPath(d, cells, target, path) && path[0] == seed && path[|path| - 1] == v;
    PathSnoc(d, cells, target, path, p);
    var path' := path + [p];
    assert path'[|path'| - 1] == p;
  }

  lemma PathSnoc(d: Dims, cells: Grid, target: Target, path: seq<Pos>, p: Pos)
    requires IsPath(d, cells, target, path)
    requires Matches(d, cells, target, p) && p in Neighbours(path[|path| - 1])
    ensures IsPath(d, cells, target, path + [p])
    ensures (path + [p])[0] == path[0] && (path + [p])[|path|] == p
  {
    var path' := path + [p];
    forall i | 0 <= i < |path'| ensures Matches(d, cells, target, path'[i]) {
      if i < |path| {
        assert path'[i] == path[i];
      }
    }
    forall i | 0 < i < |path'| ensures path'[i] in Neighbours(path'[i - 1]) {
      if i < |path| {
        assert path'[i] == path[i] && path'[i - 1] == path[i - 1];
      }
    }
  }

  /** Every matching cell of `qs` is in `visited`. */
  ghost predicate Covered(d: Dims, cells: Grid, target: Target, qs: seq<Pos>, visited: set<Pos>) {
    forall q :: q in qs && Matches(d, cells, target, q) ==> q in visited
  }

  lemma CoveredGrow(d: Dims, cells: Grid, target: Target, qs: seq<Pos>, i: nat, v: set<Pos>, w: set<Pos>)
    requires i < |qs| && Covered(d, cells, target, qs[..i], v) && v <= w
    requires Matches(d, cells, target, qs[i]) ==> qs[i] in w
    ensures Covered(d, cells, target, qs[..i + 1], w)
  {
    assert qs[..i + 1] == qs[..i] + [qs[i]];
  }

  lemma ClosedGrow(d: Dims, cells: Grid, target: Target, a: set<Pos>, v: set<Pos>, b: set<Pos>, w: set<Pos>)
    requires Closed(d, cells, target, a, v) && v <= w && Closed(d, cells, target, b, w)
    ensures Closed(d, cells, target, a + b, w)
  {
  }

  lemma ClosedAdd(d: Dims, cells: Grid, target: Target, p: Pos, a: set<Pos>, w: set<Pos>)
    requires Closed(d, cells, target, a, w)
    requires Covered(d, cells, target, Neighbours(p), w)
    ensures Closed(d, cells, target, a + {p}, w)
  {
  }

  /** The first call, `floodFillSelect(gridX, gridY, targetNumber, cellColor, new Set())`:
      the cells entered are exactly those reachable from the start cell through
      matching cells, and they are added to the selection. */
  method FillFrom(d: Dims, cells: Grid, seed: Pos, target: Target, selected: set<Pos>)
    returns (region: set<Pos>, selected': set<Pos>)
    ensures forall q :: q in region <==> Reachable(d, cells, target, seed, q)
    ensures selected' == selected + region
    ensures forall q :: q in region ==> Matches(d, cells, target, q)
    ensures seed in region <==> Matches(d, cells, target, seed)
  {
    region, selected' := FloodFillSelect(d, cells, seed, target, {}, selected, seed);
    assert region - {} == region;
    forall q | q in region ensures Matches(d, cells, target, q) {
      ReachableMatches(d, cells, target, seed, q);
    }
    forall q | Reachable(d, cells, target, seed, q) ensures q in region {
      var path :| IsPath(d, cells, target, path) && path[0] == seed && path[|path| - 1] == q;
      PathInside(d, cells, target, region, path, |path| - 1);
    }
  }

  /** Only matching cells are reachable. */
  lemma ReachableMatches(d: Dims, cells: Grid, target: Target, seed: Pos, q: Pos)
    requires Reachable(d, cells, target, seed, q)
    ensures Matches(d, cells, target, q)
  {
    var path :| IsPath(d, cells, target, path) && path[0] == seed && path[|path| - 1] == q;
    assert Matches(d, cells, target, path[|path| - 1]);
  }

  /** A region that holds the start of a path and every matching neighbour of
      its own cells holds the whole path. */
  lemma {:induction false} PathInside(d: Dims, cells: Grid, target: Target, region: set<Pos>, path: seq<Pos>, n: nat)
    requires IsPath(d, cells, target, path) && n < |path|
    requires path[0] in region
    requires Closed(d, cells, target, region, region)
    ensures path[n] in region
  {
    if n > 0 {
      PathInside(d, cells, target, region, path, n - 1);
      assert path[n] in Neighbours(path[n - 1]) && Matches(d, cells, target, path[n]);
    }
  }

  /** Visiting one more cell of the grid leaves fewer cells to visit. */
  lemma LessLeft(all: set<Pos>, visited: set<Pos>, visited': set<Pos>, p: Pos)
    requires p in all && p !in visited && visited + {p} <= visited'
    ensures |all - visited'| < |all - visited|
  {
    assert all - visited' <= (all - visited) - {p};
    assert (all - visited) - {p} < all - visited;
    SubsetCard(all - visited', (all - visited) - {p});
  }

  lemma {:induction false} SubsetCard<T>(a: set<T>, b: set<T>)
    requires a <= b
    ensures |a| <= |b|
    decreases |b|
  {
    if a != {} {
      var x :| x in a;
      SubsetCard(a - {x}, b - {x});
    }
  }
}
