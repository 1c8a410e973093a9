# Diamond-painting pattern core in Dafny

This project models the logic of a diamond-painting web application that turns
a picture into a numbered bead pattern. The drawing is not modelled.

- **Catalogue pipeline** (`imageProcessor/patternGenerator.ts`):
  - every pixel of a `GRID_WIDTH` x `GRID_HEIGHT` image is matched to its nearest catalogue colour;
  - the `MAX_COLORS` most frequent matches are kept;
  - the kept colours are labelled in catalogue order;
  - each cell becomes either a numbered square in its catalogue colour or a background square in its raw pixel colour.
- **Older rounding pipeline** (`imageProcessor.ts`), the one the entry point imports:
  - channels are rounded to multiples of 32;
  - the top colours are numbered 1..n;
  - each cell gets the number of its rounded colour or of the nearest palette colour.
- **Session record** (`imageProcessor/state.ts`): getters and setters over the cells, the pixel buffer, the colour map, the selection and the lasso flag.
- **Selection tools and label edits** (`imageProcessor/toolsManager.ts`):
  - the ray-casting lasso;
  - the clever-select flood fill over 4-connected cells with equal number text and fill colour;
  - the tool toggles and the pointer handlers;
  - the "Remove Numbers" and "Add Numbers" buttons.

Modelling choices:

- Colours are `Rgb` triples and cell keys are `(x, y)` pairs. They stand in for the source's `"r,g,b"` and `"x,y"` strings. Module `ColorKey` proves that the decimal key codec round-trips, so nothing is lost.
- JavaScript `Map`s and string-keyed objects keep insertion order. They are association lists (module `OrderedMap`).
- Pixel distances are compared as squared integers. The square root the source takes is monotone, so every strict `<` decision is the same.
- Pointer coordinates and the lasso test use exact `real` arithmetic.
- The catalogue pipeline gets the grid size, `SCALE`, `MAX_COLORS`, the catalogue `PREDEFINED_COLORS` and the label scheme `getDisplayNumber` as parameters (`Dims`, `catalog`, `labelOf`). Their files are not part of this model.
- `imageProcessor.ts` declares its constants itself (70, 100, 20), so they are constants there.
- `findClosestColor` of `imageProcessor/utils.ts` is modelled as returning the first nearest entry, and black (`[0, 0, 0]`) for an empty list (`ToolsManager.ClosestOrBlack`). The pattern generator only calls it on the non-empty catalogue.

Behaviour worth noting:

- "Remove Numbers" turns a selected cell into background only when it has a number text. Cells without text are left alone.
- "Add Numbers" with an empty colour map restores no cell, because the black default colour is not in the map. The selection is still cleared and both tools are still switched off.
- Generating a new pattern keeps the current selection and tool state.

## Model

| member | source | states |
|---|---|---|
| Color.FindClosest | diamond-painting-app/src/scripts/imageProcessor.ts:41-59 | no result exactly for an empty list; otherwise an index of least distance with every earlier entry strictly farther (the first nearest wins) |
| Color.ClosestIsUnique | diamond-painting-app/src/scripts/imageProcessor.ts:41-59 | the first nearest index is unique, so the search result is fixed by its specification |
| Color.ClosestOfOrderedSelection | diamond-painting-app/src/scripts/imageProcessor/toolsManager.ts:308 | searching a sub-list that keeps the colours in their first-occurrence order finds the same colour as searching the whole list, whenever that colour was kept |
| Color.PackRoundTrip | diamond-painting-app/src/scripts/imageProcessor/patternGenerator.ts:115 | a packed byte colour `(r<<16)+(g<<8)+b` is below 2^24 and unpacks through `>>16 & 0xFF`, `>>8 & 0xFF`, `& 0xFF` to the same channels |
| Color.PackInjective | diamond-painting-app/src/scripts/imageProcessor/patternGenerator.ts:115 | distinct byte colours pack to distinct fill values |
| ColorKey.DecimalRoundTrip | diamond-painting-app/src/scripts/imageProcessor.ts:28 | `Number` of the decimal text of n is n |
| ColorKey.JoinRoundTrip | diamond-painting-app/src/scripts/imageProcessor.ts:35 | splitting a comma-joined list of naturals and parsing every field gives the list back |
| ColorKey.RgbKeyRoundTrip | diamond-painting-app/src/scripts/imageProcessor.ts:23-28 | `key.split(',').map(Number)` of a colour key gives back the three channels |
| ColorKey.RgbKeyInjective | diamond-painting-app/src/scripts/imageProcessor.ts:23 | distinct colours have distinct keys |
| ColorKey.CellKeyRoundTrip | diamond-painting-app/src/scripts/imageProcessor/toolsManager.ts:267-268 | a cell key `"x,y"` parses back to x and y |
| OrderedMap.PutGet | diamond-painting-app/src/scripts/imageProcessor/patternGenerator.ts:63 | after `set(k, v)`, `get(k)` is v and every other key reads as before |
| OrderedMap.PutKeys | diamond-painting-app/src/scripts/imageProcessor/patternGenerator.ts:31 | assigning keeps a present key in place, appends a new one, and adds no other key |
| OrderedMap.DistinctKeysCount | diamond-painting-app/src/scripts/imageProcessor/patternGenerator.ts:20 | a table with distinct keys has as many keys as entries (its `size`) |
| Histogram.Tally | diamond-painting-app/src/scripts/imageProcessor/patternGenerator.ts:51-65 | the counting loop's table has one entry per key |
| Histogram.TallyKeys | diamond-painting-app/src/scripts/imageProcessor/patternGenerator.ts:51-65 | the counting loop's table holds exactly the keys that occur |
| Histogram.TallyCounts | diamond-painting-app/src/scripts/imageProcessor/patternGenerator.ts:63 | each key is counted with its number of occurrences |
| Histogram.TallyTotal | diamond-painting-app/src/scripts/imageProcessor/patternGenerator.ts:51-65 | the counts add up to the number of keys counted |
| Histogram.SortDesc | diamond-painting-app/src/scripts/imageProcessor/patternGenerator.ts:18-19 | the sorted entries are a permutation of the table in non-increasing count order |
| Histogram.SortDescKeys | diamond-painting-app/src/scripts/imageProcessor/patternGenerator.ts:18-19 | sorting keeps the key set and distinct keys |
| Histogram.TopKeys | diamond-painting-app/src/scripts/imageProcessor/patternGenerator.ts:18-23 | the cut keeps min(n, size) distinct keys of the table, in non-increasing count order, and no dropped key has a larger count than a kept one |
| Quantizer.QuantizeBounds | diamond-painting-app/src/scripts/imageProcessor.ts:20-22 | `Math.round(v/32)*32` of a byte is a multiple of 32 in [0, 256] within 16 of v, and is 256 exactly for v >= 240 |
| Quantizer.CountColors | diamond-painting-app/src/scripts/imageProcessor.ts:15-25 | the count table holds exactly the rounded colours of the pixels, each with its number of pixels |
| Quantizer.ReduceColors | diamond-painting-app/src/scripts/imageProcessor.ts:27-29 | at most `MAX_COLORS` distinct colours, as many as there are distinct rounded colours up to that bound |
| Quantizer.ReduceColorsRanked | diamond-painting-app/src/scripts/imageProcessor.ts:15-29 | every kept colour is the rounded colour of some pixel, kept colours are in non-increasing count order, and none dropped is more frequent than one kept |
| Quantizer.ReduceColorsCountsTotal | diamond-painting-app/src/scripts/imageProcessor.ts:16-25 | the colour counts add up to pixels.length / 4 |
| Quantizer.AssignNumbers | diamond-painting-app/src/scripts/imageProcessor.ts:32-39 | the table holds exactly the listed colours, once each, with numbers between 1 and the number of colours |
| Quantizer.NumbersInOrder | diamond-painting-app/src/scripts/imageProcessor.ts:33-39 | the i-th colour is stored under its own key with number i + 1, in list order |
| Quantizer.NumbersAreOneToN | diamond-painting-app/src/scripts/imageProcessor.ts:33-39 | the numbers are exactly 1..n and colour i reads back number i + 1 |
| Quantizer.NumberFor | diamond-painting-app/src/scripts/imageProcessor.ts:255-262 | a colour with its own number gets it; any number found is one the table assigned |
| Quantizer.NumberForPalette | diamond-painting-app/src/scripts/imageProcessor.ts:256-262 | a palette colour gets its own number; any other colour gets the number of the first nearest palette colour, so the lookup always finds one |
| Quantizer.PaletteNotEmpty | diamond-painting-app/src/scripts/imageProcessor.ts:14-29 | a full 70 x 100 image yields a non-empty palette |
| Quantizer.GeneratePattern | diamond-painting-app/src/scripts/imageProcessor.ts:239-275 | 100 rows of 70 squares, each carrying a number between 1 and the palette size |
| Quantizer.SquaresNumbered | diamond-painting-app/src/scripts/imageProcessor.ts:255-275 | with distinct palette colours every square is numbered from the palette |
| Quantizer.PatternNumber | diamond-painting-app/src/scripts/imageProcessor.ts:247-275 | every square's number is its rounded colour's own number or that of the nearest palette colour, always in 1..n, so the "still undefined" branch is unreachable |
| Quantizer.PatternFill | diamond-painting-app/src/scripts/imageProcessor.ts:249-267 | every square is filled with its raw pixel colour whatever its number, and the fill unpacks to that pixel |
| State.SetField | diamond-painting-app/src/scripts/imageProcessor/state.ts:30-63 | a setter's getter returns the new value and every other getter is unaffected |
| State.GetAfterCalls | diamond-painting-app/src/scripts/imageProcessor/state.ts:26-63 | after any run of setter calls each getter returns the value of the latest setter of its field, or the old value |
| State.GettersDetermineSession | diamond-painting-app/src/scripts/imageProcessor/state.ts:20-24 | two states with equal getters are equal |
| State.InitialIsEmpty | diamond-painting-app/src/scripts/imageProcessor/state.ts:20-24 | initially the cells, pixels, colour map and selection are empty and the lasso is off |
| State.AddSelectedIdempotent | diamond-painting-app/src/scripts/imageProcessor/state.ts:50-56 | adding a present key to the selection changes nothing, and adding twice is adding once |
| Board.PixelBytes | diamond-painting-app/src/scripts/imageProcessor/patternGenerator.ts:81-84 | on a full buffer the bytes at `(y*W+x)*4` .. `+2` are in range and form pixel `y*W+x` |
| Board.CellAt | diamond-painting-app/src/scripts/imageProcessor/toolsManager.ts:78 | `cells[y]?.[x]` finds a cell exactly when both indices are inside the arrays |
| PatternGenerator.Nearest | diamond-painting-app/src/scripts/imageProcessor/patternGenerator.ts:58-60 | the matched colour is a catalogue colour at least as near as any other, and the first of several equally near ones |
| PatternGenerator.CountFrequencies | diamond-painting-app/src/scripts/imageProcessor/patternGenerator.ts:50-65 | the two nested loops build the count table of the nearest catalogue colours in row order |
| PatternGenerator.FrequenciesFacts | diamond-painting-app/src/scripts/imageProcessor/patternGenerator.ts:51-65 | every counted key is a catalogue colour, each is counted with its number of pixels, and the counts add up to W x H |
| PatternGenerator.AllowedFacts | diamond-painting-app/src/scripts/imageProcessor/patternGenerator.ts:18-23 | min(MAX_COLORS, distinct colours) colours are allowed, all counted, none less frequent than an excluded one |
| PatternGenerator.WalkCatalog | diamond-painting-app/src/scripts/imageProcessor/patternGenerator.ts:26-38 | the walk stores distinct keys and its counter ends one past the number of allowed catalogue entries |
| PatternGenerator.WalkKeys | diamond-painting-app/src/scripts/imageProcessor/patternGenerator.ts:26-38 | the colour map holds exactly the allowed catalogue colours |
| PatternGenerator.WalkLabels | diamond-painting-app/src/scripts/imageProcessor/patternGenerator.ts:26-36 | the k-th allowed catalogue entry gets label `getDisplayNumber(k)`, its catalogue id and its colour; a colour listed twice keeps its last entry |
| PatternGenerator.WalkLabelsNonEmpty | diamond-painting-app/src/scripts/imageProcessor/patternGenerator.ts:30-32 | with a label scheme that never yields "", every stored label is non-empty |
| PatternGenerator.AssignNumbers | diamond-painting-app/src/scripts/imageProcessor/patternGenerator.ts:13-41 | the colour map has distinct keys, each entry stored under its own colour, and holds exactly the allowed catalogue colours |
| PatternGenerator.AssignNumbersFacts | diamond-painting-app/src/scripts/imageProcessor/patternGenerator.ts:13-41 | the colour map holds exactly the allowed colours, at most `MAX_COLORS` of them, stored under themselves in catalogue order |
| PatternGenerator.BuildGrid | diamond-painting-app/src/scripts/imageProcessor/patternGenerator.ts:76-80 | the grid has H rows of W cells and cell (x, y) carries x and y |
| PatternGenerator.BuildCell | diamond-painting-app/src/scripts/imageProcessor/patternGenerator.ts:86-122 | a cell keeps its coordinates and is background exactly when its nearest catalogue colour is not in the map, and a background cell has no text and its raw pixel's fill |
| PatternGenerator.BuildCellFacts | diamond-painting-app/src/scripts/imageProcessor/patternGenerator.ts:92-122 | a cell is background exactly when its nearest catalogue colour was not kept; kept cells unpack to that colour and show that colour's label from the map (visible, or no text for an empty label), background cells unpack to their pixel and have no text; with non-empty labels a number shows exactly on non-background cells |
| PatternGenerator.GeneratedLabel | diamond-painting-app/src/scripts/imageProcessor/patternGenerator.ts:26-36 | a generated cell is numbered exactly when its nearest colour is allowed, and then shows `getDisplayNumber(k)` for that colour's place k among the allowed catalogue entries |
| PatternGenerator.GeneratePattern | diamond-painting-app/src/scripts/imageProcessor/patternGenerator.ts:43-146 | the stored colour map is the assigned one (at most `MAX_COLORS` entries, catalogue-ordered), the pixels and the built grid are stored, and selection and lasso flag are kept |
| Lasso.IsPointInPolygon | diamond-painting-app/src/scripts/imageProcessor/toolsManager.ts:12-25 | the result is the parity of the edges the horizontal ray from the point crosses |
| Lasso.CrossedEdge | diamond-painting-app/src/scripts/imageProcessor/toolsManager.ts:20-21 | an edge is counted only when it is not horizontal, so the division never divides by zero, and the crossing lies within the edge's extent |
| Lasso.OutsideOfExtent | diamond-painting-app/src/scripts/imageProcessor/toolsManager.ts:12-25 | a point right of, above or below every vertex is outside, and nothing is inside an empty polygon |
| Lasso.CellCentre | diamond-painting-app/src/scripts/imageProcessor/toolsManager.ts:251-252 | `x*SCALE + SCALE/2` lies strictly inside cell x's span, and likewise for y |
| Lasso.LassoSelect | diamond-painting-app/src/scripts/imageProcessor/toolsManager.ts:248-259 | the new selection is exactly the board cells whose centre is inside the polygon |
| Lasso.SelectRow | diamond-painting-app/src/scripts/imageProcessor/toolsManager.ts:250-258 | one row adds exactly its cells whose centre is inside and nothing else |
| FloodFill.TargetOf | diamond-painting-app/src/scripts/imageProcessor/toolsManager.ts:81-82 | cells are compared by their text, present even when hidden, or none, and their fill colour |
| ToolsManager.HiddenKeepsTarget | diamond-painting-app/src/scripts/imageProcessor/toolsManager.ts:81-82 | hiding a cell's number does not change what clever select matches it with |
| FloodFill.FloodFillSelect | diamond-painting-app/src/scripts/imageProcessor/toolsManager.ts:71-95 | terminates; enters only unvisited in-grid matching cells reachable from the start, enters the cell itself when it matches, closes every entered cell's matching neighbours, and adds exactly the entered cells to the selection |
| FloodFill.FillFrom | diamond-painting-app/src/scripts/imageProcessor/toolsManager.ts:200-204 | the fill from a fresh visited set selects exactly the cells 4-connected to the start through matching cells, all of them matching, the start included exactly when it matches |
| FloodFill.PathInside | diamond-painting-app/src/scripts/imageProcessor/toolsManager.ts:91-94 | a set holding the start and every matching neighbour of its members holds every matching path from the start |
| ToolsManager.SetupTools | diamond-painting-app/src/scripts/imageProcessor/toolsManager.ts:97-124 | missing controls change nothing; otherwise both tools are off, the lasso path and drawing are gone and the selection is empty |
| ToolsManager.ToggleLasso | diamond-painting-app/src/scripts/imageProcessor/toolsManager.ts:127-145 | the lasso flips, clever select goes off, and switching the lasso off clears the selection and path |
| ToolsManager.ToggleCleverSelect | diamond-painting-app/src/scripts/imageProcessor/toolsManager.ts:148-165 | clever select flips, the lasso goes off, and switching it off clears the selection and path |
| ToolsManager.GridCellOfCentre | diamond-painting-app/src/scripts/imageProcessor/toolsManager.ts:186-187 | `Math.floor(c / SCALE)` of a cell's centre is that cell |
| ToolsManager.PointerDown | diamond-painting-app/src/scripts/imageProcessor/toolsManager.ts:170-208 | with the lasso a new path starts; with clever select a press off the board or cells changes nothing, otherwise the selection (kept only with ctrl) gains exactly the pressed cell's component |
| ToolsManager.PointerMove | diamond-painting-app/src/scripts/imageProcessor/toolsManager.ts:210-217 | a point is appended only while a lasso is being drawn |
| ToolsManager.PointerUp | diamond-painting-app/src/scripts/imageProcessor/toolsManager.ts:230-262 | ends the drawing; fewer than three points leave the selection as it was, otherwise it becomes exactly the cells whose centre is inside |
| ToolsManager.DrawLasso | diamond-painting-app/src/scripts/imageProcessor/toolsManager.ts:170-262 | a press, two or more moves and a release select exactly the cells whose centre is inside the drawn path |
| ToolsManager.HideCell | diamond-painting-app/src/scripts/imageProcessor/toolsManager.ts:269-273 | a cell with text keeps it hidden and becomes background; a cell without text is unchanged |
| ToolsManager.HideLabels | diamond-painting-app/src/scripts/imageProcessor/toolsManager.ts:265-274 | only selected cells with text change, they hide their text and become background, no fill colour changes, and consistent labels stay consistent |
| ToolsManager.HideLabelsIdempotent | diamond-painting-app/src/scripts/imageProcessor/toolsManager.ts:265-274 | hiding twice with one selection is hiding once |
| ToolsManager.RemoveNumbers | diamond-painting-app/src/scripts/imageProcessor/toolsManager.ts:264-287 | hides the selected labels, then clears the selection and switches both tools off |
| ToolsManager.RestoreCell | diamond-painting-app/src/scripts/imageProcessor/toolsManager.ts:303-348 | only a background cell changes, never with an empty map, and the label stays consistent with the background flag |
| ToolsManager.ClosestOrBlack | diamond-painting-app/src/scripts/imageProcessor/toolsManager.ts:308 | the colour looked up is black for an empty list and otherwise the first nearest entry |
| ToolsManager.RestoreCellHits | diamond-painting-app/src/scripts/imageProcessor/toolsManager.ts:308-312 | with every entry stored under its own colour the lookup always hits the first nearest map entry, whose colour and number the cell takes |
| ToolsManager.RestoreLabels | diamond-painting-app/src/scripts/imageProcessor/toolsManager.ts:300-350 | only selected background cells change, each taking the colour and number of the map entry nearest its pixel |
| ToolsManager.AddNumbers | diamond-painting-app/src/scripts/imageProcessor/toolsManager.ts:289-363 | a wrong buffer length changes nothing; otherwise the selected background cells are restored, then the selection is cleared, both tools go off and the lasso path is dropped; with an empty map no cell changes |
| ToolsManager.HideRestoreCell | diamond-painting-app/src/scripts/imageProcessor/patternGenerator.ts:86-122 | a generated numbered cell, hidden and restored with the same pixels and map, is exactly the cell it was |
| ToolsManager.HideRestoreGrid | diamond-painting-app/src/scripts/imageProcessor/toolsManager.ts:264-350 | after hiding one selection and restoring another, every generated numbered cell not hidden, or hidden and reselected, is as generated |
| ToolsManager.GeneratedGridConsistent | diamond-painting-app/src/scripts/imageProcessor/patternGenerator.ts:76-146 | a generated grid fits the board and, with non-empty labels, shows a number exactly on its non-background cells |
| ToolsManager.Step | diamond-painting-app/src/scripts/imageProcessor/toolsManager.ts:97-363 | every handler keeps the invariant: the tools are never both on, there is no path without a drawing, the selection is on the board, and labels agree with background flags |
| ToolsManager.Run | diamond-painting-app/src/scripts/imageProcessor/toolsManager.ts:127-165 | after any sequence of events lasso and clever select are never both active |

## Left out

- PIXI drawing is left out because it is presentation: graphics and text objects, `lineStyle`, `drawRect`, rendering, `highlightSelectedCells` and the redraw loop of `clearSelection`. Only `clearSelection`'s effect, an empty selection, is kept.
- The luminance-based text colour is floating-point presentation only.
- `processImage` (cropping, file loading, texture extraction), `main.ts` (zoom, pan, wiring) and `ui.ts` (legend, download) are left out, because they are DOM and I/O. The pixel buffer is an input.
- `getDisplayNumber`, the constants file and the catalogue are not part of this model, so they are parameters. `WalkLabelsNonEmpty` and the label-consistency results assume labels are never empty.
- `findClosestColor` of `imageProcessor/utils.ts` uses a floating-point square root. The model compares squared distances, which takes the same decisions.
- Event-listener registration is left out. Calling `setupTools` again adds listeners in the source, and the model treats each event as handled once.
- JavaScript recursion depth in `floodFillSelect` is left out. The model's recursion is unbounded.
- Histogram.SortDesc: proved to be a permutation in non-increasing order, not that equal counts keep their insertion order. The stable insertion sort is written to do so.
- PatternGenerator.GeneratePattern: requires a full pixel buffer, because a shorter one makes the source read `undefined` bytes. It also requires a non-empty catalogue: `PREDEFINED_COLORS` is not part of this model and is assumed non-empty. With an empty catalogue the source would count every pixel as black, store no colour and build an all-background grid; the model does not cover that run. `PatternGenerator.Nearest` and the pipeline lemmas carry the same non-empty-catalogue requires.
- Quantizer.ReduceColors: requires a buffer length divisible by 4. The loop over a partial last pixel reads `undefined` channels.
- ToolsManager.PointerDown: requires a positive `SCALE`.
- ToolsManager.PointerUp: requires a positive `SCALE`.
- ToolsManager.AddNumbers: requires every existing cell to lie on the W x H board, as generated grids do (`ToolsManager.GeneratedGridConsistent`) and as every handler keeps (`ToolsManager.Step`). For a larger array the source would read bytes of another row or past the buffer.
- ToolsManager.RestoreLabels: requires every existing cell to lie on the W x H board. For a larger array the source would read bytes of another row or past the buffer.
- Color.Unpack: the JavaScript shifts work on 32-bit integers; unpacking is modelled for the non-negative values below 2^31 that packing byte colours produces.
- Floating-point rounding of pointer coordinates and of the lasso's intersection test is left out. Exact reals are used.
