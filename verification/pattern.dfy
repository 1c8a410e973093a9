/** The catalogue pipeline of `imageProcessor/patternGenerator.ts`: every pixel is
    matched to its nearest catalogue colour, the most frequent matches are kept,
    the kept colours are labelled in catalogue order, and every cell is either a
    labelled square in its catalogue colour or a background square in its raw
    pixel colour. The catalogue (`PREDEFINED_COLORS`) and the label scheme
    (`getDisplayNumber`) come from files that are not part of this model, so they
    are parameters. */
module PatternGenerator {
  import opened Common
  import opened Color
  import opened OrderedMap
  import opened Histogram
  import opened State
  import opened Board

  /** One catalogue colour: its catalogue id (such as "3713") and its RGB. */
  datatype CatalogEntry = CatalogEntry(number: string, rgb: Rgb)

  type Catalog = seq<CatalogEntry>

  /** `PREDEFINED_COLORS.map(color => ({ rgb: color.rgb }))`. */
  function CatalogRgbs(catalog: Catalog): (s: seq<Rgb>)
    ensures |s| == |catalog|
    ensures forall i :: 0 <= i < |catalog| ==> s[i] == catalog[i].rgb
  {
    seq(|catalog|, i requires 0 <= i < |catalog| => catalog[i].rgb)
  }

  /** The catalogue colour `findClosestColor` picks for `c`: nearest, and
      earliest among equally near ones. */
  function Nearest(catalog: Catalog, c: Rgb): (n: Rgb)
    requires |catalog| > 0
    ensures n in CatalogRgbs(catalog)
    ensures forall e :: e in CatalogRgbs(catalog) ==> Dist2(c, n) <= Dist2(c, e)
    ensures exists k: nat :: IsClosestIn(c, CatalogRgbs(catalog), k) && n == CatalogRgbs(catalog)[k]
  {
    var s := CatalogRgbs(catalog);
    var k := FindClosest(c, s).value;
    assert forall e :: e in s ==> exists j :: 0 <= j < |s| && s[j] == e;
    assert IsClosestIn(c, s, k);
    s[k]
  }

  /** The nearest catalogue colour of every pixel, in the row-by-row order of
      both passes. */
  function NearestColors(d: Dims, pixels: seq<Byte>, catalog: Catalog): (qs: seq<Rgb>)
    requires FullBuffer(d, pixels) && |catalog| > 0
    ensures |qs| == d.width * d.height
  {
    seq(d.width * d.height, k requires 0 <= k < d.width * d.height => Nearest(catalog, RawPixel(pixels, k)))
  }

  /** The nearest catalogue colours of row `y`, left to right. */
  function RowColors(d: Dims, pixels: seq<Byte>, catalog: Catalog, y: nat): (row: seq<Rgb>)
    requires FullBuffer(d, pixels) && |catalog| > 0 && y < d.height
    ensures |row| == d.width
  {
    RowEnd(d.width, d.height, y);
    seq(d.width, x requires 0 <= x < d.width => Nearest(catalog, RawPixel(pixels, y * d.width + x)))
  }

  /** The nearest catalogue colours of rows `0` to `y - 1`, row after row. */
  function RowsBefore(d: Dims, pixels: seq<Byte>, catalog: Catalog, y: nat): seq<Rgb>
    requires FullBuffer(d, pixels) && |catalog| > 0 && y <= d.height
  {
    if y == 0 then [] else RowsBefore(d, pixels, catalog, y - 1) + RowColors(d, pixels, catalog, y - 1)
  }

  /** The rows before `y` are the first `y * GRID_WIDTH` pixels. */
  lemma {:induction false} RowsBeforePrefix(d: Dims, pixels: seq<Byte>, catalog: Catalog, y: nat)
    requires FullBuffer(d, pixels) && |catalog| > 0 && y <= d.height
    ensures y * d.width <= d.width * d.height
    ensures RowsBefore(d, pixels, catalog, y) == NearestColors(d, pixels, catalog)[..y * d.width]
  {
    if y == 0 {
      assert y * d.width == 0;
    } else {
      RowsBeforePrefix(d, pixels, catalog, y - 1);
      RowsConcat(d, pixels, catalog, y - 1);
      MulSucc(y - 1, d.width);
    }
  }

  /** The rows, one after another, make up all the pixels. */
  lemma RowsConcat(d: Dims, pixels: seq<Byte>, catalog: Catalog, y: nat)
    requires FullBuffer(d, pixels) && |catalog| > 0 && y < d.height
    ensures y * d.width + d.width <= d.width * d.height
    ensures var qs := NearestColors(d, pixels, catalog);
      qs[..y * d.width + d.width] == qs[..y * d.width] + RowColors(d, pixels, catalog, y)
  {
    RowEnd(d.width, d.height, y);
  }

  /** The first pass: for every row `y` and column `x`, count the nearest
      catalogue colour of pixel `y * GRID_WIDTH + x`. */
  method CountFrequencies(d: Dims, pixels: seq<Byte>, catalog: Catalog) returns (freq: Table<Rgb>)
    requires FullBuffer(d, pixels) && |catalog| > 0
    ensures freq == Tally(NearestColors(d, pixels, catalog))
  {
    freq := [];
    ghost var done: seq<Rgb> := [];
    var y := 0;
    while y < d.height
      invariant y <= d.height
      invariant done == RowsBefore(d, pixels, catalog, y)
      invariant freq == Tally(done)
    {
      freq := CountRow(d, pixels, catalog, y, freq, done);
      done := done + RowColors(d, pixels, catalog, y);
      y := y + 1;
    }
    RowsBeforeAll(d, pixels, catalog);
  }

  /** All the rows are all the pixels. */
  lemma RowsBeforeAll(d: Dims, pixels: seq<Byte>, catalog: Catalog)
    requires FullBuffer(d, pixels) && |catalog| > 0
    ensures RowsBefore(d, pixels, catalog, d.height) == NearestColors(d, pixels, catalog)
  {
    RowsBeforePrefix(d, pixels, catalog, d.height);
    RowsEnd(d.width, d.height, d.height);
  }

  /** The inner loop of the first pass over row `y`: the counts of the colours
      before the row become the counts of those colours and the row's. */
  method CountRow(d: Dims, pixels: seq<Byte>, catalog: Catalog, y: nat, freq: Table<Rgb>,
                  ghost before: seq<Rgb>)
    returns (freq': Table<Rgb>)
    requires FullBuffer(d, pixels) && |catalog| > 0 && y < d.height
    requires freq == Tally(before)
    ensures freq' == Tally(before + RowColors(d, pixels, catalog, y))
  {
    ghost var row := RowColors(d, pixels, catalog, y);
    freq' := freq;
    var x := 0;
    assert before + row[..x] == before;
    while x < d.width
      invariant x <= d.width
      invariant freq' == Tally(before + row[..x])
    {
      freq' := CountPixel(d, pixels, catalog, x, y, freq', before);
      x := x + 1;
    }
    assert row[..x] == row;
  }

  /** The body of the inner loop: count the nearest catalogue colour of pixel
      `y * GRID_WIDTH + x`. */
  method CountPixel(d: Dims, pixels: seq<Byte>, catalog: Catalog, x: nat, y: nat,
                    freq: Table<Rgb>, ghost before: seq<Rgb>)
    returns (freq': Table<Rgb>)
    requires FullBuffer(d, pixels) && |catalog| > 0 && x < d.width && y < d.height
    requires freq == Tally(before + RowColors(d, pixels, catalog, y)[..x])
    ensures freq' == Tally(before + RowColors(d, pixels, catalog, y)[..x + 1])
  {
    var c := NearestPixel(d, pixels, catalog, x, y);
    TallyRowStep(before, RowColors(d, pixels, catalog, y), x, freq);
    freq' := Put(freq, c, CountOf(freq, c) + 1);
  }

  /** The nearest catalogue colour of the pixel under cell (x, y), read from bytes
      `index`, `index + 1` and `index + 2` with `index = (y * GRID_WIDTH + x) * 4`. */
  method NearestPixel(d: Dims, pixels: seq<Byte>, catalog: Catalog, x: nat, y: nat) returns (c: Rgb)
    requires FullBuffer(d, pixels) && |catalog| > 0 && x < d.width && y < d.height
    ensures c == RowColors(d, pixels, catalog, y)[x]
  {
    PixelBytes(d, pixels, x, y);
    var index := (y * d.width + x) * 4;
    c := Nearest(catalog, Rgb(pixels[index], pixels[index + 1], pixels[index + 2]));
  }

  /** Counting element `x` of `row` extends the counted prefix by one. */
  lemma TallyRowStep(before: seq<Rgb>, row: seq<Rgb>, x: nat, freq: Table<Rgb>)
    requires x < |row| && freq == Tally(before + row[..x])
    ensures Put(freq, row[x], CountOf(freq, row[x]) + 1) == Tally(before + row[..x + 1])
  {
    NextInRow(before, row, x, row[x]);
    TallySnoc(before + row[..x], row[x]);
  }

  /** Extending a prefix of `row` by its next element. */
  lemma NextInRow(before: seq<Rgb>, row: seq<Rgb>, x: nat, c: Rgb)
    requires x < |row| && c == row[x]
    ensures before + row[..x] + [c] == before + row[..x + 1]
  {
    assert row[..x + 1] == row[..x] + [c];
  }

  /** Every counted colour is a catalogue colour, every count is the number of
      pixels matched to it, and the counts add up to one per cell. */
  lemma FrequenciesFacts(d: Dims, pixels: seq<Byte>, catalog: Catalog)
    requires FullBuffer(d, pixels) && |catalog| > 0
    ensures var freq := Tally(NearestColors(d, pixels, catalog));
      && DistinctKeys(freq)
      && (forall c :: c in KeySet(freq) ==> c in CatalogRgbs(catalog))
      && (forall c :: CountOf(freq, c) == multiset(NearestColors(d, pixels, catalog))[c])
      && Total(freq) == d.width * d.height
  {
    var qs := NearestColors(d, pixels, catalog);
    TallyKeys(qs);
    TallyCounts(qs);
    TallyTotal(qs);
  }

  /** `allowedColors`: the keys of the `min(MAX_COLORS, size)` largest counts. */
  function Allowed(freq: Table<Rgb>, maxColors: nat): set<Rgb>
    requires DistinctKeys(freq)
  {
    set c | c in TopKeys(freq, Min(maxColors, |freq|))
  }

  /** There are `min(MAX_COLORS, distinct colours)` allowed colours, all of them
      counted, and none left out was counted more often than one allowed. */
  lemma AllowedFacts(freq: Table<Rgb>, maxColors: nat)
    requires DistinctKeys(freq)
    ensures |Allowed(freq, maxColors)| == Min(maxColors, |KeySet(freq)|)
    ensures Allowed(freq, maxColors) <= KeySet(freq)
    ensures forall c, e ::
      c in Allowed(freq, maxColors) && e in KeySet(freq) && e !in Allowed(freq, maxColors) ==>
      CountOf(freq, c) >= CountOf(freq, e)
  {
    var top := TopKeys(freq, Min(maxColors, |freq|));
    DistinctCard(top);
    DistinctKeysCount(freq);
  }

  /** The walk over the catalogue: the colour map so far and `currentNumber`. */
  datatype Walk = Walk(colorMap: ColorMap, next: nat)

  /** How many catalogue entries have an allowed colour. */
  function CountAllowed(catalog: Catalog, allowed: set<Rgb>): nat
    decreases |catalog|
  {
    if |catalog| == 0 then 0
    else CountAllowed(catalog[..|catalog| - 1], allowed) + (if catalog[|catalog| - 1].rgb in allowed then 1 else 0)
  }

  /** `PREDEFINED_COLORS.forEach(...)` in `assignNumbersToColors`: each catalogue
      entry with an allowed colour stores its label, id and colour under its
      colour and advances the counter, which starts at 1. */
  function WalkCatalog(catalog: Catalog, allowed: set<Rgb>, labelOf: nat -> string): (w: Walk)
    ensures DistinctKeys(w.colorMap)
    ensures w.next == 1 + CountAllowed(catalog, allowed)
    decreases |catalog|
  {
    if |catalog| == 0 then Walk([], 1)
    else
      var w := WalkCatalog(catalog[..|catalog| - 1], allowed, labelOf);
      var e := catalog[|catalog| - 1];
      if e.rgb in allowed then
        Walk(Put(w.colorMap, e.rgb, ColorInfo(labelOf(w.next), e.number, e.rgb)), w.next + 1)
      else w
  }

  /** `assignNumbersToColors(colorFrequencies)`. */
  function AssignNumbers(freq: Table<Rgb>, maxColors: nat, catalog: Catalog, labelOf: nat -> string): (m: ColorMap)
    requires DistinctKeys(freq)
    ensures DistinctKeys(m) && WellKeyed(m)
    ensures forall c :: c in KeySet(m) <==> c in Allowed(freq, maxColors) && c in CatalogRgbs(catalog)
  {
    var allowed := Allowed(freq, maxColors);
    WalkKeys(catalog, allowed, labelOf);
    WalkWellKeyed(catalog, allowed, labelOf);
    WalkCatalog(catalog, allowed, labelOf).colorMap
  }

  /** Every entry is stored under its own colour. */
  predicate WellKeyed(m: ColorMap) {
    forall i :: 0 <= i < |m| ==> m[i].value.rgb == m[i].key
  }

  /** The colours of `m` are catalogue colours, listed once each, in the order in
      which they first occur in the catalogue, and each is stored under itself. */
  ghost predicate CatalogOrdered(m: ColorMap, catalog: Catalog) {
    && DistinctKeys(m)
    && WellKeyed(m)
    && InFirstOccurrenceOrder(Keys(m), CatalogRgbs(catalog))
  }

  /** The map holds exactly the allowed catalogue colours. */
  lemma {:induction false} WalkKeys(catalog: Catalog, allowed: set<Rgb>, labelOf: nat -> string)
    ensures forall c ::
      c in KeySet(WalkCatalog(catalog, allowed, labelOf).colorMap) <==> c in allowed && c in CatalogRgbs(catalog)
    decreases |catalog|
  {
    if |catalog| > 0 {
      var init := catalog[..|catalog| - 1];
      var e := catalog[|catalog| - 1];
      var w := WalkCatalog(init, allowed, labelOf);
      WalkKeys(init, allowed, labelOf);
      assert CatalogRgbs(catalog) == CatalogRgbs(init) + [e.rgb];
      if e.rgb in allowed {
        PutKeys(w.colorMap, e.rgb, ColorInfo(labelOf(w.next), e.number, e.rgb));
      }
    }
  }

  /** Every stored entry is stored under its own colour. */
  lemma {:induction false} WalkWellKeyed(catalog: Catalog, allowed: set<Rgb>, labelOf: nat -> string)
    ensures WellKeyed(WalkCatalog(catalog, allowed, labelOf).colorMap)
    decreases |catalog|
  {
    if |catalog| > 0 {
      var init := catalog[..|catalog| - 1];
      var e := catalog[|catalog| - 1];
      var w := WalkCatalog(init, allowed, labelOf);
      WalkWellKeyed(init, allowed, labelOf);
      if e.rgb in allowed {
        var v := ColorInfo(labelOf(w.next), e.number, e.rgb);
        var m := Put(w.colorMap, e.rgb, v);
        PutEntries(w.colorMap, e.rgb, v);
        forall i | 0 <= i < |m| ensures m[i].value.rgb == m[i].key {
          assert m[i] in m;
          if m[i] != Entry(e.rgb, v) {
            var j :| 0 <= j < |w.colorMap| && w.colorMap[j] == m[i];
          }
        }
      }
    }
  }

  /** The colour the `k`-th allowed catalogue entry carries gets the label `labelOf(k)`,
      with its catalogue id; a colour listed twice keeps its last entry. */
  lemma {:induction false} WalkLabels(catalog: Catalog, allowed: set<Rgb>, labelOf: nat -> string, i: nat)
    requires i < |catalog| && catalog[i].rgb in allowed
    requires forall j :: i < j < |catalog| ==> catalog[j].rgb != catalog[i].rgb
    ensures Get(WalkCatalog(catalog, allowed, labelOf).colorMap, catalog[i].rgb)
      == Some(ColorInfo(labelOf(1 + CountAllowed(catalog[..i], allowed)), catalog[i].number, catalog[i].rgb))
    decreases |catalog|
  {
    var init := catalog[..|catalog| - 1];
    var e := catalog[|catalog| - 1];
    var w := WalkCatalog(init, allowed, labelOf);
    if i == |catalog| - 1 {
      assert catalog[..i] == init;
      PutGet(w.colorMap, e.rgb, ColorInfo(labelOf(w.next), e.number, e.rgb));
    } else {
      assert init[i] == catalog[i];
      assert init[..i] == catalog[..i];
      WalkLabels(init, allowed, labelOf, i);
      assert e.rgb != catalog[i].rgb;
      if e.rgb in allowed {
        PutGet(w.colorMap, e.rgb, ColorInfo(labelOf(w.next), e.number, e.rgb));
      }
    }
  }

  /** With a label scheme that never yields the empty string, every stored
      label is non-empty. */
  lemma {:induction false} WalkLabelsNonEmpty(catalog: Catalog, allowed: set<Rgb>, labelOf: nat -> string)
    requires forall k :: |labelOf(k)| > 0
    ensures LabelsNonEmpty(WalkCatalog(catalog, allowed, labelOf).colorMap)
    decreases |catalog|
  {
    if |catalog| > 0 {
      var init := catalog[..|catalog| - 1];
      var e := catalog[|catalog| - 1];
      var w := WalkCatalog(init, allowed, labelOf);
      WalkLabelsNonEmpty(init, allowed, labelOf);
      if e.rgb in allowed {
        var v := ColorInfo(labelOf(w.next), e.number, e.rgb);
        var m := Put(w.colorMap, e.rgb, v);
        PutEntries(w.colorMap, e.rgb, v);
        forall i | 0 <= i < |m| ensures |m[i].value.number| > 0 {
          assert m[i] in m;
          if m[i] != Entry(e.rgb, v) {
            var j :| 0 <= j < |w.colorMap| && w.colorMap[j] == m[i];
          }
        }
      }
    }
  }

  /** `FirstIndex` is unchanged by appending, except for a colour not seen
      before, which is found at the end. */
  lemma FirstIndexSnoc(s: seq<Rgb>, x: Rgb, c: Rgb)
    requires c in s + [x]
    ensures c in s ==> FirstIndex(s + [x], c) == FirstIndex(s, c)
    ensures c !in s ==> FirstIndex(s + [x], c) == |s|
  {
    var i := FirstIndex(s + [x], c);
    if c in s {
      var f := FirstIndex(s, c);
      assert (s + [x])[f] == c;
    }
  }

  /** The map lists its colours in catalogue order. */
  lemma {:induction false} WalkOrdered(catalog: Catalog, allowed: set<Rgb>, labelOf: nat -> string)
    ensures InFirstOccurrenceOrder(Keys(WalkCatalog(catalog, allowed, labelOf).colorMap), CatalogRgbs(catalog))
    decreases |catalog|
  {
    if |catalog| > 0 {
      var init := catalog[..|catalog| - 1];
      var e := catalog[|catalog| - 1];
      var w := WalkCatalog(init, allowed, labelOf);
      var s0 := CatalogRgbs(init);
      assert CatalogRgbs(catalog) == s0 + [e.rgb];
      WalkOrdered(init, allowed, labelOf);
      OrderedSnoc(Keys(w.colorMap), s0, e.rgb);
      if e.rgb in allowed {
        PutKeys(w.colorMap, e.rgb, ColorInfo(labelOf(w.next), e.number, e.rgb));
        WalkKeys(init, allowed, labelOf);
      }
    }
  }

  /** Appending `x` to `s` keeps an ordered selection ordered, and when `x` is
      new to `s` the selection may take it as its last colour. */
  lemma OrderedSnoc(m: seq<Rgb>, s: seq<Rgb>, x: Rgb)
    requires InFirstOccurrenceOrder(m, s)
    ensures InFirstOccurrenceOrder(m, s + [x])
    ensures x !in s ==> InFirstOccurrenceOrder(m + [x], s + [x])
  {
    forall j | 0 <= j < |m| ensures m[j] in s + [x] && FirstIndex(s + [x], m[j]) == FirstIndex(s, m[j]) {
      FirstIndexSnoc(s, x, m[j]);
    }
    if x !in s {
      FirstIndexSnoc(s, x, x);
      var m' := m + [x];
      forall j, k | 0 <= j < k < |m'| ensures FirstIndex(s + [x], m'[j]) < FirstIndex(s + [x], m'[k]) {
        assert m'[j] == m[j];
        if k < |m| {
          assert m'[k] == m[k];
        }
      }
    }
  }

  /** `assignNumbersToColors` keeps at most `MAX_COLORS` colours, exactly the
      allowed ones, labels them in catalogue order, and stores each entry under
      its own colour. */
  lemma AssignNumbersFacts(d: Dims, pixels: seq<Byte>, catalog: Catalog, maxColors: nat, labelOf: nat -> string)
    requires FullBuffer(d, pixels) && |catalog| > 0
    ensures var freq := Tally(NearestColors(d, pixels, catalog));
      var m := AssignNumbers(freq, maxColors, catalog, labelOf);
      && KeySet(m) == Allowed(freq, maxColors)
      && |m| == Min(maxColors, |KeySet(freq)|) <= maxColors
      && CatalogOrdered(m, catalog)
  {
    var freq := Tally(NearestColors(d, pixels, catalog));
    var allowed := Allowed(freq, maxColors);
    var m := AssignNumbers(freq, maxColors, catalog, labelOf);
    FrequenciesFacts(d, pixels, catalog);
    AllowedFacts(freq, maxColors);
    WalkKeys(catalog, allowed, labelOf);
    WalkWellKeyed(catalog, allowed, labelOf);
    WalkOrdered(catalog, allowed, labelOf);
    DistinctKeysCount(m);
  }

  /** The second pass for cell (x, y): on a colour-map hit the square takes the
      mapped colour and, for a non-empty labelOf, a visible number; on a miss it
      keeps the raw pixel colour, has no number and is background. */
  function BuildCell(d: Dims, pixels: seq<Byte>, catalog: Catalog, colorMap: ColorMap, p: Pos): (c: Cell)
    requires FullBuffer(d, pixels) && InBounds(d, p) && |catalog| > 0
    ensures c.x == p.0 && c.y == p.1
    ensures c.isBackground <==> Nearest(catalog, PixelAt(d, pixels, p)) !in KeySet(colorMap)
    ensures c.isBackground ==> c.text.None? && c.fillColor == Pack(PixelAt(d, pixels, p))
  {
    var raw := PixelAt(d, pixels, p);
    match Get(colorMap, Nearest(catalog, raw))
    case None => Cell(p.0, p.1, None, true, Pack(raw))
    case Some(info) =>
      Cell(p.0, p.1, if |info.number| > 0 then Some(TextLabel(info.number, true)) else None, false, Pack(info.rgb))
  }

  /** `newCells`: `GRID_HEIGHT` rows of `GRID_WIDTH` cells. */
  function BuildGrid(d: Dims, pixels: seq<Byte>, catalog: Catalog, colorMap: ColorMap): (g: Grid)
    requires FullBuffer(d, pixels) && |catalog| > 0
    ensures Shaped(d, g)
    ensures forall x, y :: 0 <= x < d.width && 0 <= y < d.height ==> g[y][x].x == x && g[y][x].y == y
  {
    seq(d.height, y requires 0 <= y < d.height =>
      seq(d.width, x requires 0 <= x < d.width => BuildCell(d, pixels, catalog, colorMap, (x, y))))
  }

  /** A number is shown exactly on the squares that are not background. */
  predicate LabelConsistent(c: Cell) {
    c.isBackground <==> !(c.text.Some? && c.text.value.visible)
  }

  /** All labels are non-empty strings (the source's `getDisplayNumber` yields
      "1".."9", "A", ...). */
  predicate LabelsNonEmpty(m: ColorMap) {
    forall i :: 0 <= i < |m| ==> |m[i].value.number| > 0
  }

  /** A generated square is background exactly when its nearest catalogue colour
      was not kept. A kept square is filled with that catalogue colour, a
      background square with its own pixel, and both fills unpack to those
      colours; with non-empty labels the number is shown exactly on the squares
      that are not background. */
  lemma BuildCellFacts(d: Dims, pixels: seq<Byte>, catalog: Catalog, colorMap: ColorMap, p: Pos)
    requires FullBuffer(d, pixels) && InBounds(d, p) && |catalog| > 0
    requires WellKeyed(colorMap)
    requires forall i :: 0 <= i < |catalog| ==> IsByteColor(catalog[i].rgb)
    ensures var c := BuildCell(d, pixels, catalog, colorMap, p);
      var raw := PixelAt(d, pixels, p);
      var q := Nearest(catalog, raw);
      && (c.isBackground <==> q !in KeySet(colorMap))
      && 0 <= c.fillColor
      && (c.isBackground ==> c.text.None? && Unpack(c.fillColor) == raw)
      && (!c.isBackground ==> Unpack(c.fillColor) == q)
      && (!c.isBackground ==> c.text == (var n := Get(colorMap, q).value.number;
                                         if |n| > 0 then Some(TextLabel(n, true)) else None))
      && (LabelsNonEmpty(colorMap) ==> LabelConsistent(c))
  {
    var raw := PixelAt(d, pixels, p);
    var q := Nearest(catalog, raw);
    PackRoundTrip(raw);
    var r := IndexOf(colorMap, q);
    if r.Some? {
      assert colorMap[r.value].value.rgb == q;
      var k :| 0 <= k < |catalog| && catalog[k].rgb == q;
      PackRoundTrip(q);
    }
  }

  /** The label a square of the generated pattern shows. Let catalogue entry
      `i` be the last entry with the square's nearest colour. The square is
      numbered exactly when that colour is allowed. It then shows the label the
      catalogue walk gave that entry, `getDisplayNumber(k)` for the `k`-th
      allowed entry. */
  lemma GeneratedLabel(d: Dims, pixels: seq<Byte>, catalog: Catalog, freq: Table<Rgb>, maxColors: nat,
                       labelOf: nat -> string, p: Pos, i: nat)
    requires FullBuffer(d, pixels) && InBounds(d, p) && |catalog| > 0 && DistinctKeys(freq)
    requires i < |catalog| && catalog[i].rgb == Nearest(catalog, PixelAt(d, pixels, p))
    requires forall j :: i < j < |catalog| ==> catalog[j].rgb != catalog[i].rgb
    requires forall k :: |labelOf(k)| > 0
    ensures var allowed := Allowed(freq, maxColors);
      var c := BuildCell(d, pixels, catalog, AssignNumbers(freq, maxColors, catalog, labelOf), p);
      && (!c.isBackground <==> catalog[i].rgb in allowed)
      && (!c.isBackground ==> c.text == Some(TextLabel(labelOf(1 + CountAllowed(catalog[..i], allowed)), true)))
  {
    var allowed := Allowed(freq, maxColors);
    var q := catalog[i].rgb;
    assert CatalogRgbs(catalog)[i] == q;
    WalkKeys(catalog, allowed, labelOf);
    if q in allowed {
      WalkLabels(catalog, allowed, labelOf, i);
    }
  }

  /** `generatePattern(app, pixels)` without the drawing: the colour map, the
      pixels and the new grid are stored, in that order; the selection and the
      lasso flag are left as they were. */
  method GeneratePattern(s: Session, d: Dims, pixels: seq<Byte>, catalog: Catalog, maxColors: nat, labelOf: nat -> string)
    returns (s': Session)
    requires FullBuffer(d, pixels) && |catalog| > 0
    ensures var freq := Tally(NearestColors(d, pixels, catalog));
      s'.colorMap == AssignNumbers(freq, maxColors, catalog, labelOf)
    ensures |s'.colorMap| <= maxColors
    ensures CatalogOrdered(s'.colorMap, catalog)
    ensures s'.globalPixels == pixels
    ensures s'.cells == BuildGrid(d, pixels, catalog, s'.colorMap)
    ensures s'.selectedCells == s.selectedCells && s'.lassoToolActive == s.lassoToolActive
  {
    var freq := CountFrequencies(d, pixels, catalog);
    var colorMap := AssignNumbers(freq, maxColors, catalog, labelOf);
    AssignNumbersFacts(d, pixels, catalog, maxColors, labelOf);
    s' := SetField(s, ColorMapValue(colorMap));
    s' := SetField(s', PixelsValue(pixels));
    s' := SetField(s', CellsValue(BuildGrid(d, pixels, catalog, colorMap)));
  }
}
