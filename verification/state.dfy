/** The session record shared by the generator and the tools: the grid of cells,
    the pixel buffer the pattern was made from, the active colour map, the
    selected cells and the lasso flag. Every getter returns the field, and every
    setter replaces one field and nothing else. */
module State {
  import opened Common
  import opened Color
  import opened OrderedMap

  /** The number text drawn over a square; hiding it keeps the string. */
  datatype TextLabel = TextLabel(text: string, visible: bool)

  /** A grid square: its coordinates, its optional number text, whether it is
      shown as background, and its packed fill colour. */
  datatype Cell = Cell(x: int, y: int, text: Option<TextLabel>, isBackground: bool, fillColor: int)

  /** A palette entry: the label drawn in the cells, the catalogue id of the
      colour, and the colour itself. */
  datatype ColorInfo = ColorInfo(number: string, pictureNumber: string, rgb: Rgb)

  /** The colour map, keyed by colour in insertion order. */
  type ColorMap = seq<Entry<Rgb, ColorInfo>>

  /** A cell position `(x, y)`; the source's `"x,y"` selection key. */
  type Pos = (int, int)

  type Grid = seq<seq<Cell>>

  datatype Session = Session(
    cells: Grid,
    globalPixels: seq<Byte>,
    colorMap: ColorMap,
    selectedCells: set<Pos>,
    lassoToolActive: bool)

  /** The state before any image is processed. */
  const Initial: Session := Session([], [], [], {}, false)

  /** The five fields, for the setter and getter contracts. */
  datatype Field = CellsField | PixelsField | ColorMapField | SelectionField | LassoField

  /** A value stored by one of the setters, tagged with its field. */
  datatype FieldValue =
    | CellsValue(cells: Grid)
    | PixelsValue(pixels: seq<Byte>)
    | ColorMapValue(colorMap: ColorMap)
    | SelectionValue(selection: set<Pos>)
    | LassoValue(active: bool)
  {
    function FieldOf(): Field {
      match this
      case CellsValue(_) => CellsField
      case PixelsValue(_) => PixelsField
      case ColorMapValue(_) => ColorMapField
      case SelectionValue(_) => SelectionField
      case LassoValue(_) => LassoField
    }
  }

  /** The getters `getCells`, `getGlobalPixels`, `getColorMap`,
      `getSelectedCells` and `getLassoToolActive`. */
  function GetField(s: Session, f: Field): (v: FieldValue)
    ensures v.FieldOf() == f
  {
    match f
    case CellsField => CellsValue(s.cells)
    case PixelsField => PixelsValue(s.globalPixels)
    case ColorMapField => ColorMapValue(s.colorMap)
    case SelectionField => SelectionValue(s.selectedCells)
    case LassoField => LassoValue(s.lassoToolActive)
  }

  /** The setters `setCells`, `setGlobalPixels`, `setColorMap`,
      `setSelectedCells` and `setLassoToolActive`: the getter of the field set
      returns the new value, and every other getter is unaffected. */
  function SetField(s: Session, v: FieldValue): (s': Session)
    ensures GetField(s', v.FieldOf()) == v
    ensures forall f :: f != v.FieldOf() ==> GetField(s', f) == GetField(s, f)
  {
    match v
    case CellsValue(c) => s.(cells := c)
    case PixelsValue(p) => s.(globalPixels := p)
    case ColorMapValue(m) => s.(colorMap := m)
    case SelectionValue(sel) => s.(selectedCells := sel)
    case LassoValue(a) => s.(lassoToolActive := a)
  }

  /** A run of setter calls, first to last. */
  function Apply(s: Session, calls: seq<FieldValue>): Session
    decreases |calls|
  {
    if |calls| == 0 then s else SetField(Apply(s, calls[..|calls| - 1]), calls[|calls| - 1])
  }

  /** The argument of the most recent setter call for field `f`, if any. */
  function LatestFor(calls: seq<FieldValue>, f: Field): (r: Option<FieldValue>)
    ensures r.Some? <==> exists i :: 0 <= i < |calls| && calls[i].FieldOf() == f
    ensures r.Some? ==> r.value.FieldOf() == f && r.value in calls
    decreases |calls|
  {
    if |calls| == 0 then None
    else if calls[|calls| - 1].FieldOf() == f then Some(calls[|calls| - 1])
    else
      var r := LatestFor(calls[..|calls| - 1], f);
      assert forall i :: 0 <= i < |calls| - 1 ==> calls[..|calls| - 1][i] == calls[i];
      r
  }

  /** After any run of setter calls, each getter returns the value passed to the
      most recent setter of its field, or the old value if there was none. */
  lemma {:induction false} GetAfterCalls(s: Session, calls: seq<FieldValue>, f: Field)
    ensures GetField(Apply(s, calls), f) == LatestFor(calls, f).GetOr(GetField(s, f))
    decreases |calls|
  {
    if |calls| > 0 {
      GetAfterCalls(s, calls[..|calls| - 1], f);
    }
  }

  /** Sessions with equal getters are equal: the getters observe the whole
      record. */
  lemma GettersDetermineSession(s: Session, t: Session)
    requires forall f :: GetField(s, f) == GetField(t, f)
    ensures s == t
  {
    assert GetField(s, CellsField) == GetField(t, CellsField);
    assert GetField(s, PixelsField) == GetField(t, PixelsField);
    assert GetField(s, ColorMapField) == GetField(t, ColorMapField);
    assert GetField(s, SelectionField) == GetField(t, SelectionField);
    assert GetField(s, LassoField) == GetField(t, LassoField);
  }

  /** The getters of the initial state return empty collections and `false`. */
  lemma InitialIsEmpty(f: Field)
    ensures GetField(Initial, f) == match f
      case CellsField => CellsValue([])
      case PixelsField => PixelsValue([])
      case ColorMapField => ColorMapValue([])
      case SelectionField => SelectionValue({})
      case LassoField => LassoValue(false)
  {
  }

  /** `selected.add(key); setSelectedCells(selected)`. */
  function AddSelected(s: Session, p: Pos): (s': Session)
    ensures s'.selectedCells == s.selectedCells + {p}
    ensures forall f :: f != SelectionField ==> GetField(s', f) == GetField(s, f)
  {
    SetField(s, SelectionValue(s.selectedCells + {p}))
  }

  /** Adding a key that is already selected changes nothing, so adding twice is
      adding once. */
  lemma AddSelectedIdempotent(s: Session, p: Pos)
    ensures p in s.selectedCells ==> AddSelected(s, p) == s
    ensures AddSelected(AddSelected(s, p), p) == AddSelected(s, p)
  {
    if p in s.selectedCells {
      assert s.selectedCells + {p} == s.selectedCells;
    }
    assert s.selectedCells + {p} + {p} == s.selectedCells + {p};
  }
}
