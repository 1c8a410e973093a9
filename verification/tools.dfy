/** The selection tools and bulk label edits of `imageProcessor/toolsManager.ts`,
    without the drawing: the lasso and clever-select toggles, the pointer
    handlers that build a selection, and the buttons that hide or restore the
    numbers of the selected cells. The module's own variables (`cleverSelectActive`,
    `lassoPoints`, `lassoGraphics`, and the handlers' `isDrawing`) sit beside the
    session record. */
module ToolsManager {
  import opened Common
  import opened Color
  import opened OrderedMap
  import opened State
  import opened Board
  import opened Lasso
  import opened FloodFill
  import opened PatternGenerator

  /** The tool variables; `hasLassoGraphics` says whether `lassoGraphics` is
      non-null. */
  datatype ToolState = ToolState(
    cleverSelectActive: bool,
    lassoPoints: seq<Point>,
    hasLassoGraphics: bool,
    isDrawing: bool)

  /** The session together with the tool variables. */
  datatype Workspace = Workspace(session: Session, tools: ToolState)

  /** The cells, the pixels and the colour map are those of `w`. */
  predicate SameBoard(w: Workspace, w': Workspace) {
    && w'.session.cells == w.session.cells
    && w'.session.globalPixels == w.session.globalPixels
    && w'.session.colorMap == w.session.colorMap
  }

  /** Every existing cell lies on the `GRID_WIDTH` x `GRID_HEIGHT` board. */
  predicate GridFits(d: Dims, cells: Grid) {
    |cells| <= d.height && forall y :: 0 <= y < |cells| ==> |cells[y]| <= d.width
  }

  /** Two grids have the same rows of the same lengths. */
  predicate SameShape(a: Grid, b: Grid) {
    |a| == |b| && forall y :: 0 <= y < |a| ==> |a[y]| == |b[y]|
  }

  /** Every cell shows a number exactly when it is not background. */
  predicate CellsConsistent(cells: Grid) {
    forall y, x :: 0 <= y < |cells| && 0 <= x < |cells[y]| ==> LabelConsistent(cells[y][x])
  }

  /** What holds between any two events: the two tools are never both on, the
      lasso path is empty when there is no lasso drawing, the selection lies on
      the board, the grid fits the board and its labels agree with the
      background flags. */
  ghost predicate Invariant(d: Dims, w: Workspace) {
    && !(w.session.lassoToolActive && w.tools.cleverSelectActive)
    && (!w.tools.hasLassoGraphics ==> w.tools.lassoPoints == [])
    && (forall p :: p in w.session.selectedCells ==> InBounds(d, p))
    && GridFits(d, w.session.cells)
    && CellsConsistent(w.session.cells)
  }

  /** Dropping the lasso drawing and its path, and `clearSelection`. */
  function DropLasso(w: Workspace): (w': Workspace)
    ensures SameBoard(w, w')
    ensures w'.session.selectedCells == {}
    ensures !w'.tools.hasLassoGraphics && w'.tools.lassoPoints == []
    ensures w'.session.lassoToolActive == w.session.lassoToolActive
    ensures w'.tools.cleverSelectActive == w.tools.cleverSelectActive
    ensures w'.tools.isDrawing == w.tools.isDrawing
  {
    Workspace(w.session.(selectedCells := {}), w.tools.(hasLassoGraphics := false, lassoPoints := []))
  }

  /** `setupTools(app)`: without its five controls it does nothing; otherwise
      both tools are off, the lasso path and drawing are gone, the selection is
      empty and no lasso is being drawn. */
  function SetupTools(w: Workspace, controlsFound: bool): (w': Workspace)
    ensures !controlsFound ==> w' == w
    ensures controlsFound ==>
      && SameBoard(w, w')
      && !w'.session.lassoToolActive && !w'.tools.cleverSelectActive
      && w'.session.selectedCells == {}
      && !w'.tools.hasLassoGraphics && w'.tools.lassoPoints == [] && !w'.tools.isDrawing
  {
    if !controlsFound then w
    else
      var w1 := DropLasso(w);
      Workspace(w1.session.(lassoToolActive := false), ToolState(false, [], false, false))
  }

  /** The lasso button: the lasso flag flips and clever select goes off.
      Switching the lasso on keeps everything else; switching it off also drops
      the lasso path and clears the selection. */
  function ToggleLasso(w: Workspace): (w': Workspace)
    ensures w'.session.lassoToolActive == !w.session.lassoToolActive
    ensures !w'.tools.cleverSelectActive
    ensures SameBoard(w, w') && w'.tools.isDrawing == w.tools.isDrawing
    ensures w'.session.lassoToolActive ==>
      && w'.session.selectedCells == w.session.selectedCells
      && w'.tools.lassoPoints == w.tools.lassoPoints
      && w'.tools.hasLassoGraphics == w.tools.hasLassoGraphics
    ensures !w'.session.lassoToolActive ==>
      w'.session.selectedCells == {} && w'.tools.lassoPoints == [] && !w'.tools.hasLassoGraphics
  {
    var active := !w.session.lassoToolActive;
    var w1 := Workspace(w.session.(lassoToolActive := active), w.tools.(cleverSelectActive := false));
    if active then w1 else DropLasso(w1)
  }

  /** The clever-select button: its flag flips and the lasso goes off.
      Switching clever select off drops the lasso path and clears the
      selection; switching it on keeps them. */
  function ToggleCleverSelect(w: Workspace): (w': Workspace)
    ensures w'.tools.cleverSelectActive == !w.tools.cleverSelectActive
    ensures !w'.session.lassoToolActive
    ensures SameBoard(w, w') && w'.tools.isDrawing == w.tools.isDrawing
    ensures w'.tools.cleverSelectActive ==>
      && w'.session.selectedCells == w.session.selectedCells
      && w'.tools.lassoPoints == w.tools.lassoPoints
      && w'.tools.hasLassoGraphics == w.tools.hasLassoGraphics
    ensures !w'.tools.cleverSelectActive ==>
      w'.session.selectedCells == {} && w'.tools.lassoPoints == [] && !w'.tools.hasLassoGraphics
  {
    var active := !w.tools.cleverSelectActive;
    var w1 := Workspace(w.session.(lassoToolActive := false), w.tools.(cleverSelectActive := active));
    if active then w1 else DropLasso(w1)
  }

  /** `Math.floor(localX / SCALE)`, `Math.floor(localY / SCALE)`: the cell under a
      stage point. */
  function GridCell(d: Dims, at: Point): Pos
    requires ValidDims(d)
  {
    ((at.x / d.scale).Floor, (at.y / d.scale).Floor)
  }

  /** The cell under the centre of a cell is that cell, so the lasso's centre
      test and the clever-select click agree on which cell a point belongs to. */
  lemma GridCellOfCentre(d: Dims, p: Pos)
    requires ValidDims(d)
    ensures GridCell(d, CellCentre(d, p)) == p
  {
    var c := CellCentre(d, p);
    CentreFloor(p.0, d.scale, c.x);
    CentreFloor(p.1, d.scale, c.y);
  }

  /** `(n * s + s / 2) / s` rounds down to `n`. */
  lemma CentreFloor(n: int, s: real, v: real)
    requires s > 0.0 && v == n as real * s + s / 2.0
    ensures (v / s).Floor == n
  {
    var t := n as real + 0.5;
    assert v == t * s;
    DivCancel(t, s);
    HalfFloor(n);
  }

  lemma HalfFloor(n: int)
    ensures (n as real + 0.5).Floor == n
  {
  }

  lemma DivCancel(t: real, s: real)
    requires s > 0.0
    ensures (t * s) / s == t
  {
  }

  /** The `pointerdown` handler. With the lasso on, a new path starts at the
      point. With clever select on, a press off the board or off the cells
      changes nothing; otherwise the selection (kept only with ctrl held) gains
      exactly the cells joined to the pressed cell through cells with its number
      text and fill colour, the pressed cell included. With neither tool on
      nothing happens. */
  method PointerDown(d: Dims, w: Workspace, at: Point, ctrlKey: bool) returns (w': Workspace)
    requires ValidDims(d)
    ensures w.session.lassoToolActive ==>
      && w'.session == w.session
      && w'.tools == w.tools.(isDrawing := true, lassoPoints := [at], hasLassoGraphics := true)
    ensures !w.session.lassoToolActive && !w.tools.cleverSelectActive ==> w' == w
    ensures !w.session.lassoToolActive && w.tools.cleverSelectActive ==>
      var g := GridCell(d, at);
      var cells := w.session.cells;
      && w'.tools == w.tools
      && w'.session == w.session.(selectedCells := w'.session.selectedCells)
      && (!InBounds(d, g) || CellAt(cells, g).None? ==> w' == w)
      && (InBounds(d, g) && CellAt(cells, g).Some? ==>
        var target := TargetOf(CellAt(cells, g).value);
        && g in w'.session.selectedCells
        && forall q :: q in w'.session.selectedCells <==>
          (ctrlKey && q in w.session.selectedCells) || Reachable(d, cells, target, g, q))
  {
    if w.session.lassoToolActive {
      w' := w.(tools := w.tools.(isDrawing := true, lassoPoints := [at], hasLassoGraphics := true));
    } else if w.tools.cleverSelectActive {
      var g := GridCell(d, at);
      if !InBounds(d, g) {
        return w;
      }
      var cell := CellAt(w.session.cells, g);
      if cell.None? {
        return w;
      }
      var base := if ctrlKey then w.session.selectedCells else {};
      var target := TargetOf(cell.value);
      var region, selected := FillFrom(d, w.session.cells, g, target, base);
      w' := w.(session := w.session.(selectedCells := selected));
    } else {
      w' := w;
    }
  }

  /** The `pointermove` handler: while a lasso is being drawn the point is added
      to the end of the path; otherwise nothing happens. */
  function PointerMove(w: Workspace, at: Point): (w': Workspace)
    ensures w.session.lassoToolActive && w.tools.isDrawing && w.tools.hasLassoGraphics ==>
      w'.session == w.session && w'.tools.lassoPoints == w.tools.lassoPoints + [at]
      && w'.tools == w.tools.(lassoPoints := w'.tools.lassoPoints)
    ensures !(w.session.lassoToolActive && w.tools.isDrawing && w.tools.hasLassoGraphics) ==> w' == w
  {
    if w.session.lassoToolActive && w.tools.isDrawing && w.tools.hasLassoGraphics then
      w.(tools := w.tools.(lassoPoints := w.tools.lassoPoints + [at]))
    else w
  }

  /** The `pointerup` handler: ends the drawing of a lasso. A path of fewer than
      three points selects nothing new and leaves the selection as it was;
      otherwise the selection becomes exactly the board cells whose centre is
      inside the closed path. */
  method PointerUp(d: Dims, w: Workspace) returns (w': Workspace)
    requires ValidDims(d)
    ensures !(w.session.lassoToolActive && w.tools.isDrawing && w.tools.hasLassoGraphics) ==> w' == w
    ensures w.session.lassoToolActive && w.tools.isDrawing && w.tools.hasLassoGraphics ==>
      && w'.tools == w.tools.(isDrawing := false)
      && w'.session == w.session.(selectedCells := w'.session.selectedCells)
      && (|w.tools.lassoPoints| < 3 ==> w'.session == w.session)
      && (|w.tools.lassoPoints| >= 3 ==> LassoSelection(d, w.tools.lassoPoints, w'.session.selectedCells))
  {
    if !(w.session.lassoToolActive && w.tools.isDrawing && w.tools.hasLassoGraphics) {
      return w;
    }
    w' := w.(tools := w.tools.(isDrawing := false));
    if |w.tools.lassoPoints| < 3 {
      return;
    }
    var selected := LassoSelect(d, w.tools.lassoPoints);
    w' := w'.(session := w'.session.(selectedCells := selected));
  }

  /** One press, drag and release of the lasso, with at least one move, selects
      exactly the board cells whose centre is inside the drawn path. */
  method DrawLasso(d: Dims, w: Workspace, first: Point, moves: seq<Point>) returns (w': Workspace)
    requires ValidDims(d) && w.session.lassoToolActive && |moves| >= 2
    ensures LassoSelection(d, [first] + moves, w'.session.selectedCells)
    ensures SameBoard(w, w') && w'.session.lassoToolActive && !w'.tools.isDrawing
  {
    w' := PointerDown(d, w, first, false);
    var i := 0;
    while i < |moves|
      invariant i <= |moves|
      invariant w'.session == w.session
      invariant w'.tools.isDrawing && w'.tools.hasLassoGraphics
      invariant w'.tools.lassoPoints == [first] + moves[..i]
    {
      w' := PointerMove(w', moves[i]);
      assert moves[..i + 1] == moves[..i] + [moves[i]];
      i := i + 1;
    }
    assert moves[..i] == moves;
    w' := PointerUp(d, w');
  }

  /** One selected cell under "Remove Numbers": a cell with a number text has
      it hidden and becomes background; a cell without text is left alone. */
  function HideCell(c: Cell): (c': Cell)
    ensures c.text.None? ==> c' == c
    ensures c.text.Some? ==>
      && c'.text == Some(TextLabel(c.text.value.text, false))
      && c'.isBackground
      && c' == c.(text := c'.text, isBackground := true)
  {
    if c.text.Some? then c.(text := Some(c.text.value.(visible := false)), isBackground := true) else c
  }

  /** Clever select compares hidden numbers too: hiding a cell's number does
      not change what it matches. */
  lemma HiddenKeepsTarget(c: Cell)
    ensures TargetOf(HideCell(c)) == TargetOf(c)
  {
  }

  /** The loop of the "Remove Numbers" button over the selected cells. The
      grid keeps its shape, no cell changes colour or position, unselected cells
      and cells without text are unchanged, and every selected cell with text
      keeps the text hidden and is background. */
  function HideLabels(cells: Grid, sel: set<Pos>): (cells': Grid)
    ensures SameShape(cells, cells')
    ensures forall y, x :: 0 <= y < |cells| && 0 <= x < |cells[y]| ==>
      var c, c' := cells[y][x], cells'[y][x];
      && c'.fillColor == c.fillColor && c'.x == c.x && c'.y == c.y
      && ((x, y) !in sel || c.text.None? ==> c' == c)
      && ((x, y) in sel && c.text.Some? ==>
        c'.isBackground && c'.text == Some(TextLabel(c.text.value.text, false)))
    ensures CellsConsistent(cells) ==> CellsConsistent(cells')
  {
    seq(|cells|, y requires 0 <= y < |cells| =>
      seq(|cells[y]|, x requires 0 <= x < |cells[y]| =>
        if (x, y) in sel then HideCell(cells[y][x]) else cells[y][x]))
  }

  /** Hiding is idempotent: pressing "Remove Numbers" twice on the same
      selection hides what once does. */
  lemma HideLabelsIdempotent(cells: Grid, sel: set<Pos>)
    ensures HideLabels(HideLabels(cells, sel), sel) == HideLabels(cells, sel)
  {
    var once := HideLabels(cells, sel);
    var twice := HideLabels(once, sel);
    assert |twice| == |once|;
    forall y | 0 <= y < |once| ensures twice[y] == once[y] {
      assert |twice[y]| == |once[y]|;
      forall x | 0 <= x < |once[y]| ensures twice[y][x] == once[y][x] {
        if (x, y) in sel {
          assert once[y][x] == HideCell(cells[y][x]);
        }
      }
    }
  }

  /** `Object.values(colorMap).map(info => ({ rgb: info.rgb }))`: the colours of the
      map's entries, in entry order. */
  function PaletteRgbs(m: ColorMap): (s: seq<Rgb>)
    ensures |s| == |m|
    ensures forall i :: 0 <= i < |m| ==> s[i] == m[i].value.rgb
  {
    seq(|m|, i requires 0 <= i < |m| => m[i].value.rgb)
  }

  /** A cell showing the number of `info` in its colour. */
  function Labelled(c: Cell, info: ColorInfo): (c': Cell)
    ensures !c'.isBackground && c'.text == Some(TextLabel(info.number, true))
    ensures c'.fillColor == Pack(info.rgb) && c'.x == c.x && c'.y == c.y
  {
    c.(fillColor := Pack(info.rgb), text := Some(TextLabel(info.number, true)), isBackground := false)
  }

  /** `findClosestColor` of `imageProcessor/utils.ts`: the first nearest colour,
      or black (`{ rgb: [0, 0, 0] }`) for an empty list. */
  function ClosestOrBlack(p: Rgb, colors: seq<Rgb>): (c: Rgb)
    ensures |colors| == 0 ==> c == Rgb(0, 0, 0)
    ensures |colors| > 0 ==> exists k: nat :: IsClosestIn(p, colors, k) && c == colors[k]
  {
    match FindClosest(p, colors)
    case None => Rgb(0, 0, 0)
    case Some(k) => assert IsClosestIn(p, colors, k); colors[k]
  }

  /** One selected cell under "Add Numbers": a background cell looks up the map
      colour nearest its stored pixel and, on a hit, takes that entry's colour
      and visible number and stops being background. Cells that are not
      background do not change. Neither does anything with an empty map, where
      the black default colour is not found. */
  function RestoreCell(d: Dims, pixels: seq<Byte>, m: ColorMap, p: Pos, c: Cell): (c': Cell)
    requires FullBuffer(d, pixels) && InBounds(d, p)
    ensures c'.x == c.x && c'.y == c.y
    ensures !c.isBackground || |m| == 0 ==> c' == c
    ensures LabelConsistent(c) ==> LabelConsistent(c')
  {
    if !c.isBackground then c
    else
      match Get(m, ClosestOrBlack(PixelAt(d, pixels, p), PaletteRgbs(m)))
      case None => c
      case Some(info) => Labelled(c, info)
  }

  /** With every entry stored under its own colour the lookup always hits: a
      background cell takes the colour and number of the map's first entry
      nearest to its pixel. */
  lemma RestoreCellHits(d: Dims, pixels: seq<Byte>, m: ColorMap, p: Pos, c: Cell)
    requires FullBuffer(d, pixels) && InBounds(d, p)
    requires WellKeyed(m) && |m| > 0 && c.isBackground
    ensures var k := FindClosest(PixelAt(d, pixels, p), PaletteRgbs(m)).value;
      RestoreCell(d, pixels, m, p, c) == Labelled(c, m[k].value)
  {
    var raw := PixelAt(d, pixels, p);
    var rgbs := PaletteRgbs(m);
    var k := FindClosest(raw, rgbs).value;
    assert m[k].key == rgbs[k];
    var j := IndexOf(m, rgbs[k]).value;
    assert j == k;
  }

  /** The loop of the "Add Numbers" button over the selected cells: the grid keeps
      its shape, cells that are unselected or not background are unchanged, and
      with a well-keyed non-empty map every selected background cell takes the
      colour and number of the first map entry nearest its pixel. */
  function RestoreLabels(d: Dims, pixels: seq<Byte>, m: ColorMap, cells: Grid, sel: set<Pos>): (cells': Grid)
    requires FullBuffer(d, pixels) && GridFits(d, cells)
    ensures SameShape(cells, cells')
    ensures forall y, x :: 0 <= y < |cells| && 0 <= x < |cells[y]| ==>
      var c, c' := cells[y][x], cells'[y][x];
      && ((x, y) !in sel || !c.isBackground || |m| == 0 ==> c' == c)
      && ((x, y) in sel && c.isBackground && |m| > 0 && WellKeyed(m) ==>
        var k := FindClosest(PixelAt(d, pixels, (x, y)), PaletteRgbs(m)).value;
        c' == Labelled(c, m[k].value))
    ensures CellsConsistent(cells) ==> CellsConsistent(cells')
  {
    var cells' := seq(|cells|, y requires 0 <= y < |cells| =>
      seq(|cells[y]|, x requires 0 <= x < |cells[y]| =>
        if (x, y) in sel then RestoreCell(d, pixels, m, (x, y), cells[y][x]) else cells[y][x]));
    forall y, x | 0 <= y < |cells| && 0 <= x < |cells[y]| && (x, y) in sel && cells[y][x].isBackground && |m| > 0 && WellKeyed(m)
      ensures var k := FindClosest(PixelAt(d, pixels, (x, y)), PaletteRgbs(m)).value;
        cells'[y][x] == Labelled(cells[y][x], m[k].value)
    {
      RestoreCellHits(d, pixels, m, (x, y), cells[y][x]);
    }
    cells'
  }

  /** Both bulk edits end the same way: `clearSelection`, both tools off, the
      lasso drawing and path dropped. */
  function EndEdit(w: Workspace): (w': Workspace)
    ensures SameBoard(w, w') && w'.tools.isDrawing == w.tools.isDrawing
    ensures w'.session.selectedCells == {} && !w'.session.lassoToolActive && !w'.tools.cleverSelectActive
    ensures !w'.tools.hasLassoGraphics && w'.tools.lassoPoints == []
  {
    var w1 := DropLasso(w);
    Workspace(w1.session.(lassoToolActive := false), w1.tools.(cleverSelectActive := false))
  }

  /** The "Remove Numbers" button: the selected cells' numbers are hidden,
      then the selection is cleared and both tools are switched off. */
  function RemoveNumbers(w: Workspace): (w': Workspace)
    ensures w'.session.cells == HideLabels(w.session.cells, w.session.selectedCells)
    ensures w'.session.globalPixels == w.session.globalPixels && w'.session.colorMap == w.session.colorMap
    ensures w'.session.selectedCells == {} && !w'.session.lassoToolActive && !w'.tools.cleverSelectActive
    ensures !w'.tools.hasLassoGraphics && w'.tools.lassoPoints == []
  {
    var w1 := w.(session := w.session.(cells := HideLabels(w.session.cells, w.session.selectedCells)));
    EndEdit(w1)
  }

  /** The "Add Numbers" button. A pixel buffer of the wrong length changes
      nothing. Otherwise the selected background cells are restored from their
      pixels, the selection is cleared and both tools are switched off. This
      happens also with an empty colour map, where no cell changes. */
  function AddNumbers(d: Dims, w: Workspace): (w': Workspace)
    requires GridFits(d, w.session.cells)
    ensures |w.session.globalPixels| != d.width * d.height * 4 ==> w' == w
    ensures |w.session.globalPixels| == d.width * d.height * 4 ==>
      && FullBuffer(d, w.session.globalPixels)
      && w'.session.cells == RestoreLabels(d, w.session.globalPixels, w.session.colorMap, w.session.cells, w.session.selectedCells)
      && w'.session.globalPixels == w.session.globalPixels && w'.session.colorMap == w.session.colorMap
      && w'.session.selectedCells == {} && !w'.session.lassoToolActive && !w'.tools.cleverSelectActive
      && !w'.tools.hasLassoGraphics && w'.tools.lassoPoints == []
    ensures |w.session.globalPixels| == d.width * d.height * 4 && |w.session.colorMap| == 0 ==>
      w'.session.cells == w.session.cells
  {
    var pixels := w.session.globalPixels;
    var m := w.session.colorMap;
    if |pixels| != d.width * d.height * 4 then w
    else
      assert FullBuffer(d, pixels);
      var cells := RestoreLabels(d, pixels, m, w.session.cells, w.session.selectedCells);
      assert |m| == 0 ==> cells == w.session.cells by {
        if |m| == 0 {
          forall y | 0 <= y < |cells| ensures cells[y] == w.session.cells[y] {
          }
        }
      }
      EndEdit(w.(session := w.session.(cells := cells)))
  }

  /** A numbered cell of a generated pattern, hidden and then restored with the
      same pixels and colour map, is the cell it was: the nearest map colour to
      its pixel is the catalogue colour it was generated from, because the map
      lists kept catalogue colours in catalogue order and both searches take the
      first nearest colour. */
  lemma HideRestoreCell(d: Dims, pixels: seq<Byte>, catalog: Catalog, m: ColorMap, p: Pos)
    requires FullBuffer(d, pixels) && InBounds(d, p) && |catalog| > 0
    requires CatalogOrdered(m, catalog) && LabelsNonEmpty(m)
    requires !BuildCell(d, pixels, catalog, m, p).isBackground
    ensures var c := BuildCell(d, pixels, catalog, m, p);
      RestoreCell(d, pixels, m, p, HideCell(c)) == c
  {
    var c := BuildCell(d, pixels, catalog, m, p);
    var raw := PixelAt(d, pixels, p);
    var s := CatalogRgbs(catalog);
    var q := Nearest(catalog, raw);
    assert q == s[FindClosest(raw, s).value];
    var i := IndexOf(m, q).value;
    var info := m[i].value;
    assert c == Cell(p.0, p.1, Some(TextLabel(info.number, true)), false, Pack(info.rgb));
    var rgbs := PaletteRgbs(m);
    assert rgbs == Keys(m);
    assert q in Keys(m);
    ClosestOfOrderedSelection(raw, s, Keys(m));
    RestoreCellHits(d, pixels, m, p, HideCell(c));
    var k := FindClosest(raw, rgbs).value;
    assert rgbs[k] == q;
    assert m[k].value == info;
  }

  /** Remove then add on a generated pattern: with the pixels and the colour map
      unchanged, every numbered cell that was not hidden, or was hidden and is
      selected again, ends up exactly as generated. */
  lemma HideRestoreGrid(d: Dims, pixels: seq<Byte>, catalog: Catalog, m: ColorMap, s1: set<Pos>, s2: set<Pos>, p: Pos)
    requires FullBuffer(d, pixels) && |catalog| > 0
    requires CatalogOrdered(m, catalog) && LabelsNonEmpty(m)
    requires InBounds(d, p)
    requires !BuildCell(d, pixels, catalog, m, p).isBackground
    requires p in s2 || p !in s1
    ensures var g := BuildGrid(d, pixels, catalog, m);
      GridFits(d, HideLabels(g, s1))
      && RestoreLabels(d, pixels, m, HideLabels(g, s1), s2)[p.1][p.0] == g[p.1][p.0]
  {
    var g := BuildGrid(d, pixels, catalog, m);
    var h := HideLabels(g, s1);
    var c := BuildCell(d, pixels, catalog, m, p);
    assert g[p.1][p.0] == c;
    if p in s1 {
      HideRestoreCell(d, pixels, catalog, m, p);
    }
    RestoredAt(d, pixels, m, h, s2, p);
  }

  /** Cell `p` of the restored grid is the restored cell when `p` is selected, and
      the old cell otherwise. */
  lemma RestoredAt(d: Dims, pixels: seq<Byte>, m: ColorMap, cells: Grid, sel: set<Pos>, p: Pos)
    requires FullBuffer(d, pixels) && GridFits(d, cells)
    requires 0 <= p.1 < |cells| && 0 <= p.0 < |cells[p.1]|
    ensures InBounds(d, p)
    ensures RestoreLabels(d, pixels, m, cells, sel)[p.1][p.0]
      == if p in sel then RestoreCell(d, pixels, m, p, cells[p.1][p.0]) else cells[p.1][p.0]
  {
  }

  /** A generated grid fits the board and, with non-empty labels, shows a
      number exactly on its non-background cells. */
  lemma GeneratedGridConsistent(d: Dims, pixels: seq<Byte>, catalog: Catalog, m: ColorMap)
    requires FullBuffer(d, pixels) && |catalog| > 0 && LabelsNonEmpty(m)
    ensures GridFits(d, BuildGrid(d, pixels, catalog, m))
    ensures CellsConsistent(BuildGrid(d, pixels, catalog, m))
  {
    var g := BuildGrid(d, pixels, catalog, m);
    forall y, x | 0 <= y < |g| && 0 <= x < |g[y]| ensures LabelConsistent(g[y][x]) {
      var q := Nearest(catalog, PixelAt(d, pixels, (x, y)));
      assert g[y][x] == BuildCell(d, pixels, catalog, m, (x, y));
      match IndexOf(m, q)
      case None =>
      case Some(i) =>
        assert |m[i].value.number| > 0;
    }
  }

  /** The events the handlers react to. */
  datatype Event =
    | Setup(controlsFound: bool)
    | LassoClick
    | CleverSelectClick
    | Down(at: Point, ctrlKey: bool)
    | Move(at: Point)
    | Up
    | RemoveNumbersClick
    | AddNumbersClick

  /** One event, handled. Every handler keeps the invariant. */
  method Step(d: Dims, w: Workspace, e: Event) returns (w': Workspace)
    requires ValidDims(d) && Invariant(d, w)
    ensures Invariant(d, w')
  {
    match e
    case Setup(found) => w' := SetupTools(w, found);
    case LassoClick => w' := ToggleLasso(w);
    case CleverSelectClick => w' := ToggleCleverSelect(w);
    case Down(at, ctrlKey) =>
      w' := PointerDown(d, w, at, ctrlKey);
      DownSelectsOnBoard(d, w, at, ctrlKey, w');
    case Move(at) => w' := PointerMove(w, at);
    case Up => w' := PointerUp(d, w);
    case RemoveNumbersClick =>
      w' := RemoveNumbers(w);
    case AddNumbersClick => w' := AddNumbers(d, w);
  }

  /** The selection after a press lies on the board. */
  lemma DownSelectsOnBoard(d: Dims, w: Workspace, at: Point, ctrlKey: bool, w': Workspace)
    requires ValidDims(d) && Invariant(d, w)
    requires !w.session.lassoToolActive && w.tools.cleverSelectActive ==>
      var g := GridCell(d, at);
      var cells := w.session.cells;
      InBounds(d, g) && CellAt(cells, g).Some? ==>
        forall q :: q in w'.session.selectedCells <==>
          (ctrlKey && q in w.session.selectedCells) || Reachable(d, cells, TargetOf(CellAt(cells, g).value), g, q)
    ensures !w.session.lassoToolActive && w.tools.cleverSelectActive ==>
      var g := GridCell(d, at);
      var cells := w.session.cells;
      InBounds(d, g) && CellAt(cells, g).Some? ==>
        forall q :: q in w'.session.selectedCells ==> InBounds(d, q)
  {
    if !w.session.lassoToolActive && w.tools.cleverSelectActive {
      var g := GridCell(d, at);
      var cells := w.session.cells;
      if InBounds(d, g) && CellAt(cells, g).Some? {
        forall q | q in w'.session.selectedCells ensures InBounds(d, q) {
          if !(ctrlKey && q in w.session.selectedCells) {
            ReachableMatches(d, cells, TargetOf(CellAt(cells, g).value), g, q);
          }
        }
      }
    }
  }

  /** Any run of events from a workspace satisfying the invariant keeps it; in
      particular lasso and clever select are never on together. */
  method Run(d: Dims, w: Workspace, events: seq<Event>) returns (w': Workspace)
    requires ValidDims(d) && Invariant(d, w)
    ensures Invariant(d, w')
    ensures !(w'.session.lassoToolActive && w'.tools.cleverSelectActive)
  {
    w' := w;
    var i := 0;
    while i < |events|
      invariant i <= |events|
      invariant Invariant(d, w')
    {
      w' := Step(d, w', events[i]);
      i := i + 1;
    }
  }
}
