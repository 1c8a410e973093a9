/** The older pipeline of `imageProcessor.ts`, the one the application entry point
    imports: every channel is rounded to a multiple of 32, the most frequent
    rounded colours become the palette numbered 1..n, and every cell of the
    70 x 100 grid is labelled with the number of its rounded colour, or of the
    palette colour nearest to it. */
module Quantizer {
  import opened Common
  import opened Color
  import opened OrderedMap
  import opened Histogram

  const GridWidth: nat := 70
  const GridHeight: nat := 100
  const MaxColors: nat := 20

  /** `Math.round(x)`: the nearest integer, halves rounded up. */
  function MathRound(x: real): int {
    (x + 0.5).Floor
  }

  /** `Math.round(v / 32) * 32`. */
  function Quantize(v: int): int {
    MathRound(v as real / 32.0) * 32
  }

  /** Rounding a byte gives a multiple of 32 within 16 of it, in [0, 256]; the
      bytes from 240 up round to 256, which is not a byte any more. */
  lemma QuantizeBounds(v: int)
    requires 0 <= v <= 255
    ensures Quantize(v) % 32 == 0
    ensures 0 <= Quantize(v) <= 256
    ensures v - 16 < Quantize(v) <= v + 16
    ensures Quantize(v) == 256 <==> v >= 240
  {
    var q := (v + 16) / 32;
    assert v as real / 32.0 + 0.5 == (v + 16) as real / 32.0;
    assert q * 32 <= v + 16 < q * 32 + 32;
    assert q as real <= (v + 16) as real / 32.0 < (q + 1) as real;
    assert MathRound(v as real / 32.0) == q;
  }

  /** The rounded colour of pixel `k` (bytes `4k`, `4k+1`, `4k+2`; alpha ignored). */
  function QuantizedPixel(pixels: seq<Byte>, k: nat): Rgb
    requires 4 * k + 2 < |pixels|
  {
    Rgb(Quantize(pixels[4 * k]), Quantize(pixels[4 * k + 1]), Quantize(pixels[4 * k + 2]))
  }

  /** The rounded colour of every pixel, in buffer order. */
  function QuantizedPixels(pixels: seq<Byte>): (qs: seq<Rgb>)
    requires |pixels| % 4 == 0
    ensures |qs| == |pixels| / 4
  {
    seq(|pixels| / 4, k requires 0 <= k < |pixels| / 4 => QuantizedPixel(pixels, k))
  }

  /** The counting loop of `reduceColors`, stepping through the buffer four bytes
      at a time. Each key is a rounded pixel colour, listed once, with the number
      of pixels that round to it. */
  method CountColors(pixels: seq<Byte>) returns (counts: Table<Rgb>)
    requires |pixels| % 4 == 0
    ensures counts == Tally(QuantizedPixels(pixels))
    ensures DistinctKeys(counts)
    ensures forall c :: c in KeySet(counts) <==> c in QuantizedPixels(pixels)
    ensures forall c :: CountOf(counts, c) == multiset(QuantizedPixels(pixels))[c]
  {
    ghost var qs := QuantizedPixels(pixels);
    assert |pixels| == 4 * |qs|;
    counts := [];
    var i := 0;
    ghost var k := 0;
    ghost var done: seq<Rgb> := [];
    while i < |pixels|
      invariant i == 4 * k && k <= |qs|
      invariant done == qs[..k]
      invariant counts == Tally(done)
    {
      assert 4 * k + 2 < |pixels|;
      var key := Rgb(Quantize(pixels[i]), Quantize(pixels[i + 1]), Quantize(pixels[i + 2]));
      assert key == qs[k];
      TallySnoc(done, key);
      counts := Put(counts, key, CountOf(counts, key) + 1);
      done := done + [key];
      i := i + 4;
      k := k + 1;
    }
    assert done == qs;
    TallyKeys(qs);
    TallyCounts(qs);
  }

  /** `reduceColors`: the rounded colours of the `MaxColors` largest pixel counts,
      most frequent first. Equal counts keep their first-seen order, as the
      stable `sort` does. There are as many as `MaxColors`, or as many as there
      are distinct rounded colours if fewer, and none repeats. */
  function ReduceColors(pixels: seq<Byte>): (colors: seq<Rgb>)
    requires |pixels| % 4 == 0
    ensures |colors| == Min(MaxColors, |set c | c in QuantizedPixels(pixels)|)
    ensures Distinct(colors)
  {
    var qs := QuantizedPixels(pixels);
    var t := Tally(qs);
    DistinctKeysCount(t);
    TallyKeys(qs);
    assert KeySet(t) == set c | c in qs;
    TopKeys(t, MaxColors)
  }

  /** The palette colours occur in the image, in non-increasing order of pixel
      count, and no colour left out occurs more often than one kept. */
  lemma ReduceColorsRanked(pixels: seq<Byte>)
    requires |pixels| % 4 == 0
    ensures var qs := QuantizedPixels(pixels); var colors := ReduceColors(pixels);
      && (forall i :: 0 <= i < |colors| ==> colors[i] in qs)
      && (forall i, j :: 0 <= i < j < |colors| ==> multiset(qs)[colors[i]] >= multiset(qs)[colors[j]])
      && (forall c, e :: c in colors && e in qs && e !in colors ==> multiset(qs)[c] >= multiset(qs)[e])
  {
    var qs := QuantizedPixels(pixels);
    TallyKeys(qs);
    TallyCounts(qs);
  }

  /** The counts `reduceColors` sorts add up to one per pixel. */
  lemma ReduceColorsCountsTotal(pixels: seq<Byte>)
    requires |pixels| % 4 == 0
    ensures Total(Tally(QuantizedPixels(pixels))) == |pixels| / 4
  {
    TallyTotal(QuantizedPixels(pixels));
  }

  /** `assignNumbersToColors`: colour `colors[i]` gets the number `i + 1`; a
      repeated colour keeps its first place and takes its last number. */
  function AssignNumbers(colors: seq<Rgb>): (numbers: Table<Rgb>)
    ensures DistinctKeys(numbers)
    ensures forall q :: q in KeySet(numbers) <==> q in colors
    ensures forall i :: 0 <= i < |numbers| ==> 1 <= numbers[i].value <= |colors|
  {
    if |colors| == 0 then []
    else
      var init := colors[..|colors| - 1];
      var last := colors[|colors| - 1];
      var t := AssignNumbers(init);
      assert colors == init + [last];
      PutKeySet(t, last, |colors|);
      PutEntries(t, last, |colors|);
      Put(t, last, |colors|)
  }

  /** With distinct colours the table is the colours in order, numbered 1..n. */
  lemma {:induction false} NumbersInOrder(colors: seq<Rgb>)
    requires Distinct(colors)
    ensures AssignNumbers(colors) == seq(|colors|, i requires 0 <= i < |colors| => Entry(colors[i], i + 1))
    decreases |colors|
  {
    if |colors| > 0 {
      var init := colors[..|colors| - 1];
      var last := colors[|colors| - 1];
      var m0 := AssignNumbers(init);
      NumbersInOrder(init);
      assert last !in KeySet(m0) by {
        forall i | 0 <= i < |init| ensures m0[i].key != last {
          assert init[i] == colors[i];
        }
      }
      PutNew(m0, last, |colors|);
    }
  }

  /** With distinct colours the numbers are 1..n, each used once, and every
      colour is numbered by its position. */
  lemma NumbersAreOneToN(colors: seq<Rgb>)
    requires Distinct(colors)
    ensures Values(AssignNumbers(colors)) == seq(|colors|, i requires 0 <= i < |colors| => i + 1)
    ensures forall i :: 0 <= i < |colors| ==> Get(AssignNumbers(colors), colors[i]) == Some(i + 1)
  {
    NumbersInOrder(colors);
    PositionTable(colors, AssignNumbers(colors));
  }

  /** The facts about a table listing the colours in order with numbers 1..n. */
  lemma PositionTable(colors: seq<Rgb>, m: Table<Rgb>)
    requires Distinct(colors)
    requires m == seq(|colors|, i requires 0 <= i < |colors| => Entry(colors[i], i + 1))
    ensures Values(m) == seq(|colors|, i requires 0 <= i < |colors| => i + 1)
    ensures forall i :: 0 <= i < |colors| ==> Get(m, colors[i]) == Some(i + 1)
  {
    assert DistinctKeys(m) by {
      forall i, j | 0 <= i < j < |m| ensures m[i].key != m[j].key {
        assert m[i].key == colors[i] && m[j].key == colors[j];
      }
    }
    forall i | 0 <= i < |colors| ensures Get(m, colors[i]) == Some(i + 1) {
      assert m[i] == Entry(colors[i], i + 1);
      GetFindsEntry(m, i);
    }
  }

  /** The number lookup of `generatePattern` for the rounded colour `q`: its own
      number, or else the number of the palette colour nearest to it. `None` is
      the "still undefined" case, where no text is drawn. */
  function NumberFor(q: Rgb, colors: seq<Rgb>, numbers: Table<Rgb>): (r: Option<nat>)
    requires |colors| > 0
    ensures q in KeySet(numbers) ==> r == Get(numbers, q)
    ensures r.Some? ==> exists e :: e in numbers && e.value == r.value
  {
    match Get(numbers, q)
    case Some(n) => GetEntry(numbers, q); Some(n)
    case None =>
      var c := colors[FindClosest(q, colors).value];
      if c in KeySet(numbers) then GetEntry(numbers, c); Get(numbers, c) else None
  }

  /** With the numbers assigned to a non-empty palette, a palette colour gets its
      own position plus one and any other colour the position of its nearest
      palette colour plus one: the "still undefined" branch is never taken. */
  lemma NumberForPalette(q: Rgb, colors: seq<Rgb>)
    requires |colors| > 0 && Distinct(colors)
    ensures NumberFor(q, colors, AssignNumbers(colors))
      == Some(if q in colors then FirstIndex(colors, q) + 1 else FindClosest(q, colors).value + 1)
  {
    var m := AssignNumbers(colors);
    NumbersInOrder(colors);
    NumbersAreOneToN(colors);
    if q in colors {
      var i := FirstIndex(colors, q);
      assert Get(m, colors[i]) == Some(i + 1);
    } else {
      assert q !in KeySet(m) by {
        forall i | 0 <= i < |m| ensures m[i].key != q {
          assert m[i].key == colors[i];
        }
      }
      var i := FindClosest(q, colors).value;
      assert Get(m, colors[i]) == Some(i + 1);
    }
  }

  /** One grid square as `generatePattern` draws it: its fill and its number text. */
  datatype Square = Square(fill: int, number: Option<nat>)

  /** Square `k` of the raster: the raw pixel fill and the number found for the
      rounded colour. */
  function SquareAt(pixels: seq<Byte>, k: nat, colors: seq<Rgb>, numbers: Table<Rgb>): Square
    requires 4 * k + 2 < |pixels| && |colors| > 0
  {
    Square(Pack(RawPixel(pixels, k)), NumberFor(QuantizedPixel(pixels, k), colors, numbers))
  }

  /** `generatePattern` without the drawing: the `GridWidth` x `GridHeight`
      squares, row by row, each carrying a number of the palette. */
  function GeneratePattern(pixels: seq<Byte>): (grid: seq<seq<Square>>)
    requires |pixels| == 4 * (GridWidth * GridHeight)
    ensures |grid| == GridHeight
    ensures forall y :: 0 <= y < GridHeight ==> |grid[y]| == GridWidth
    ensures Numbered(grid, |ReduceColors(pixels)|)
  {
    var colors := ReduceColors(pixels);
    PaletteNotEmpty(pixels);
    var grid := Squares(pixels, colors);
    SquaresNumbered(pixels, colors);
    grid
  }

  /** The squares of the raster for a palette, row by row. */
  function Squares(pixels: seq<Byte>, colors: seq<Rgb>): (grid: seq<seq<Square>>)
    requires |pixels| == 4 * (GridWidth * GridHeight) && |colors| > 0
  {
    var numbers := AssignNumbers(colors);
    seq(GridHeight, y requires 0 <= y < GridHeight =>
      seq(GridWidth, x requires 0 <= x < GridWidth =>
        SquareAt(pixels, CellIndex(GridWidth, GridHeight, x, y), colors, numbers)))
  }

  /** Every square carries a number between 1 and `n`. */
  predicate Numbered(grid: seq<seq<Square>>, n: nat) {
    forall y, x :: 0 <= y < |grid| && 0 <= x < |grid[y]| ==>
      grid[y][x].number.Some? && 1 <= grid[y][x].number.value <= n
  }

  /** With distinct palette colours every square is numbered from the palette,
      so the "still undefined" case never arises. */
  lemma SquaresNumbered(pixels: seq<Byte>, colors: seq<Rgb>)
    requires |pixels| == 4 * (GridWidth * GridHeight) && |colors| > 0 && Distinct(colors)
    ensures Numbered(Squares(pixels, colors), |colors|)
  {
    var grid: seq<seq<Square>> := Squares(pixels, colors);
    forall y: int, x: int | 0 <= y < |grid| && 0 <= x < |grid[y]|
      ensures grid[y][x].number.Some? && 1 <= grid[y][x].number.value <= |colors|
    {
      SquareNumber(pixels, CellIndex(GridWidth, GridHeight, x, y), colors);
    }
  }

  /** With the numbers assigned to a non-empty palette of distinct colours,
      every square carries a number of the palette. */
  lemma SquareNumber(pixels: seq<Byte>, k: nat, colors: seq<Rgb>)
    requires 4 * k + 2 < |pixels| && |colors| > 0 && Distinct(colors)
    ensures var n := SquareAt(pixels, k, colors, AssignNumbers(colors)).number;
      n.Some? && 1 <= n.value <= |colors|
  {
    var q := QuantizedPixel(pixels, k);
    NumberForPalette(q, colors);
    var i := if q in colors then FirstIndex(colors, q) else FindClosest(q, colors).value;
    assert i < |colors|;
  }

  /** Square (x, y) is filled with the raw colour of pixel `y * 70 + x`, which
      unpacks to that pixel's channels. */
  lemma PatternFill(pixels: seq<Byte>, x: nat, y: nat)
    requires |pixels| == 4 * (GridWidth * GridHeight)
    requires x < GridWidth && y < GridHeight
    ensures var s := GeneratePattern(pixels)[y][x];
      0 <= s.fill && Unpack(s.fill) == RawPixel(pixels, CellIndex(GridWidth, GridHeight, x, y))
  {
    var k := CellIndex(GridWidth, GridHeight, x, y);
    var c := RawPixel(pixels, k);
    var f := GeneratePattern(pixels)[y][x].fill;
    assert f == Pack(c);
    PackRoundTrip(c);
    assert Unpack(f) == c;
  }

  /** Square (x, y) carries a number of the palette: the palette position of its
      rounded colour, or else of the palette colour nearest to it, plus one. */
  lemma PatternNumber(pixels: seq<Byte>, x: nat, y: nat)
    requires |pixels| == 4 * (GridWidth * GridHeight)
    requires x < GridWidth && y < GridHeight
    ensures 0 < |ReduceColors(pixels)|
    ensures var q := QuantizedPixel(pixels, CellIndex(GridWidth, GridHeight, x, y));
      var colors := ReduceColors(pixels);
      GeneratePattern(pixels)[y][x].number
        == Some(if q in colors then FirstIndex(colors, q) + 1 else FindClosest(q, colors).value + 1)
    ensures var n := GeneratePattern(pixels)[y][x].number;
      n.Some? && 1 <= n.value <= |ReduceColors(pixels)|
  {
    var q := QuantizedPixel(pixels, CellIndex(GridWidth, GridHeight, x, y));
    var colors := ReduceColors(pixels);
    PatternSquare(pixels, x, y);
    NumberForPalette(q, colors);
    var i := if q in colors then FirstIndex(colors, q) else FindClosest(q, colors).value;
    assert i < |colors|;
  }

  /** Square (x, y) is the square of pixel `y * 70 + x`. */
  lemma PatternSquare(pixels: seq<Byte>, x: nat, y: nat)
    requires |pixels| == 4 * (GridWidth * GridHeight)
    requires x < GridWidth && y < GridHeight
    ensures 0 < |ReduceColors(pixels)|
    ensures var colors := ReduceColors(pixels);
      GeneratePattern(pixels)[y][x]
        == SquareAt(pixels, CellIndex(GridWidth, GridHeight, x, y), colors, AssignNumbers(colors))
  {
    PaletteNotEmpty(pixels);
  }

  /** Some rounded colour occurs, so the palette is never empty. */
  lemma PaletteNotEmpty(pixels: seq<Byte>)
    requires |pixels| == 4 * (GridWidth * GridHeight)
    ensures |ReduceColors(pixels)| > 0
  {
    var qs := QuantizedPixels(pixels);
    assert qs[0] in set c | c in qs;
  }
}
