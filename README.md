# Terminal fire over burning text — a Dafny model

`fire.py` draws an ASCII fire in a terminal. Piped-in text is laid out on the
screen and the flames burn it away. The interesting part is `run_animation`.
It keeps two height × width layers:

- the glyph layer `grid`, which holds the unburned text;
- the heat layer `fire_buffer`, which holds intensities in [0, 1], with the
  bottom row as the heat source.

It seeds both layers once. Then, every frame, it runs one simulation tick of
three in-place passes and maps each cell to a display character and a curses
colour pair.

This project models that core:

- `grids.dfy` (module `Grids`): grids as sequences of rows, plus Python's
  `max`, `min` and the truncating `int()`.
- `engine.dfy` (module `Engine`): the tick as values. It defines the
  propagation pass (`Propagated`), the burn-away pass (`Burned`), the
  source-row pass (`Refreshed`), a whole tick (`Step`) and a run of many ticks
  (`Run`), with the lemmas that state their properties.
- `seeding.dfy` (module `Seeding`): where the input lines, or the default
  banner `=== GEMINI FIRE ===`, land on a fresh glyph layer.
- `render.dfy` (module `Render`): the per-cell mapping from glyph and heat to
  a character of the palette `# O o . ` and a colour pair, and the whole frame.
- `scene.dfy` (module `SceneState`): class `Scene`. It holds the two layers
  as `array2`s. Its constructor does the seeding. Its methods run the three
  passes in place with nested loops, and tie the new state to the value-level
  functions above.

Random draws are inputs, not generated. `random.random()` becomes values in
[0, 1) that the caller passes in:

- for each cell of rows 0 .. height-2, a wind draw and a cooling draw;
- for each column, a re-ignition draw.

The terminal size is an input too: height ≥ 1 and width ≥ 1, as curses
reports them. The text comes in already split into lines.

Heat is an exact `real`. The source only compares, clamps, multiplies by 0.9,
subtracts `r * 0.25` and truncates, so exact arithmetic matches its intent
without IEEE-754 rounding.

The wind offset is `int((r - 0.5) * 4)`, and `int()` truncates toward zero.
So the offset is -2 only for r = 0, -1 on (0, 0.25], 0 on (0.25, 0.75) and 1
on [0.75, 1) (`Engine.WindOffset`); a floor would give -2 on [0, 0.25).

The declared constants `COOLING_FACTOR` and `WIND_FACTOR` are never read.
The model uses the hard-coded 0.25 and × 4, as the code does.

## Model

| member | source | states |
|---|---|---|
| `Grids.Trunc` | fire.py:63 | Python `int()` on a float truncates toward zero: the result has the sign of the input and the largest magnitude not above the input's |
| `Engine.WindOffset` | fire.py:63 | the wind offset lies in -2..1; it is -2 exactly when r = 0, -1 exactly on (0, 0.25], 0 exactly on (0.25, 0.75), 1 exactly on [0.75, 1) |
| `Engine.SourceColumn` | fire.py:64 | the clamped source column is always a valid column; it is x + dx when that is inside the row, else the nearer edge |
| `Engine.Cooled` | fire.py:66 | cooled heat is never negative, never above a non-negative input, and loses under 0.25 unless floored at 0 |
| `Engine.ColdHeat` | fire.py:33 | the freshly allocated heat layer is height × width and within [0, 1] (all 0.0) |
| `Engine.Propagated` | fire.py:61-67 | the propagation pass keeps the height × width shape |
| `Engine.PropagatedBounds` | fire.py:61-67 | after propagation every cell of rows 0..height-2 is between 0 and the old heat of its source one row below; that source is at most 2 columns left or 1 column right; the bottom row is untouched; heat in [0, 1] stays in [0, 1] |
| `Engine.PropagatedReadsRowBelow` | fire.py:61-67 | row y of the propagation result depends only on row y + 1 of the heat layer before the pass, so the in-place top-down order reads no already-rewritten row |
| `Engine.Burned` | fire.py:69-73 | the burn-away pass keeps the shape of both layers |
| `Engine.BurnedCells` | fire.py:69-73 | a glyph becomes blank exactly when it was non-blank with heat > 0.6, and then its heat is 1.0; a non-blank glyph with heat ≤ 0.6 keeps its glyph and heat, as does every unchanged cell; a blank cell never gains a glyph |
| `Engine.Refreshed` | fire.py:75-78 | the source-row pass keeps the shape of the heat layer |
| `Engine.RefreshedCells` | fire.py:75-78 | every bottom-row cell ends as 0.9 × its value or 1.0: 1.0 when its draw is below 0.15, 0.9 × its value when the draw is 0.15 or more; rows above are unchanged |
| `Engine.Step` | fire.py:61-78 | one tick (the three passes in order) keeps the grid dimensions |
| `Engine.StepInvariant` | fire.py:61-78 | if all heat starts in [0, 1] it is in [0, 1] after a tick, and every glyph either stays or turns blank |
| `Engine.Run` | fire.py:56-78 | any number of ticks keeps the grid dimensions |
| `Engine.RunInvariant` | fire.py:56-78 | over any number of ticks heat stays in [0, 1], and burning is one-way: each cell ends with its seeded glyph or blank |
| `Engine.RunSnoc` | fire.py:56-78 | one more loop iteration is one more tick on the result of the earlier ones |
| `Seeding.StartRow` | fire.py:37 | the text block sits four rows above centre: when height ≥ lines + 8 the rows below it outnumber those above by 8 or 9; with fewer than ten spare rows it starts at row 0 |
| `Seeding.BannerColumn` | fire.py:49 | when the banner fits, its left and right margins differ by at most one column, the right one the wider; in a row narrower than 21 columns it starts at column 0 |
| `Seeding.Seeded` | fire.py:32 | the seeded glyph layer is height × width |
| `Seeding.SeededText` | fire.py:36-44 | with input lines, character j of line i is at (start row + i, j) whenever that cell is inside the grid, and every cell not covered so is blank |
| `Seeding.SeededBanner` | fire.py:45-53 | with no lines, the banner is on row height - 5 from the banner column on, cut at the right edge; every other cell is blank; below 5 rows the grid stays blank |
| `Seeding.SeededHello` | fire.py:36-44 | seeding a 10 × 40 grid with the line HELLO puts it at the left edge of row 0, the rest of the row blank |
| `Render.RenderCell` | fire.py:84-97 | a non-blank glyph renders as itself with pair 0; a blank cell with heat ≤ 0.01 renders as ' ' with pair 0; the pair is 0 exactly in those two cases; a blank cell always shows a palette character; pairs are 0..4 |
| `Render.RenderBands` | fire.py:91-97 | a blank cell hotter than 0.01 shows ' ' below 0.25 (in pair 4), '.' below 0.5, 'o' below 0.75, 'O' below 1.0 and '#' from 1.0; its pair is 1 above 0.8, 2 on (0.6, 0.8], 3 on (0.4, 0.6], 4 otherwise |
| `Render.RenderMonotone` | fire.py:91-97 | a hotter blank cell never renders with a cooler palette character or colour tier |
| `Render.Frame` | fire.py:82-97 | the frame has one display cell per grid cell |
| `Render.FrameColdIsBlank` | fire.py:85-91 | a blank cell with heat ≤ 0.01 (in particular 0.0) renders as a blank with pair 0, never a fire glyph |
| `SceneState.Scene.constructor` | fire.py:32-53 | allocation and seeding produce exactly the seeded glyph layer and an all-zero heat layer of the given size |
| `SceneState.Scene.PlaceLines` | fire.py:36-44 | writing the input lines into a blank layer yields the seeded text layout |
| `SceneState.Scene.PlaceBanner` | fire.py:45-53 | writing the banner into a blank layer yields the seeded banner layout, and writes nothing when height < 5 |
| `SceneState.Scene.WriteClipped` | fire.py:42-44 | a bounds-checked write of a string into one row changes only the cells inside the grid that the string covers |
| `SceneState.Scene.Propagate` | fire.py:61-67 | the in-place top-down pass leaves the heat layer equal to the propagation of the pre-pass layer; glyphs are untouched |
| `SceneState.Scene.PropagateRow` | fire.py:62-67 | one row gets the cooled heat of its wind-shifted sources in the row below as they stood before; no other row changes |
| `SceneState.Scene.Burn` | fire.py:69-73 | the in-place burn pass leaves both layers equal to the burn-away of the previous state |
| `SceneState.Scene.Refresh` | fire.py:75-78 | the in-place source-row pass leaves the heat layer equal to the refreshed previous layer; glyphs are untouched |
| `SceneState.Scene.Tick` | fire.py:61-78 | one simulation step in place equals the value-level tick of the previous state |
| `SceneState.Scene.RenderFrame` | fire.py:82-97 | the render loop produces exactly the frame of the current state |
| `SceneState.Scene.Animate` | fire.py:56-106 | n loop iterations leave the state equal to n ticks of the starting state, and frame i shows the state after ticks 0..i |

## Left out

- Terminal work is not modelled: cursor hiding, colour-pair registration, `getmaxyx`, `erase`, `addch`, `refresh`, the swallowed `curses.error` and `time.sleep`. This is terminal I/O through a foreign library. The terminal size is a parameter (height, width ≥ 1), and `SceneState.Scene.RenderFrame` returns the frame instead of drawing it.
- The always-true guard `y < height and x < width` before `addch` has no counterpart. The render loop visits every cell.
- Quit-key polling with `getch` is not modelled. The infinite `while True` loop becomes `SceneState.Scene.Animate`, which runs as many iterations as it is given draws, as if `q` arrived after the last one.
- Reading stdin, reopening `/dev/tty`, the `try/except/finally` terminal restoration and the Ctrl-C handling are left out. They are process and I/O plumbing.
- `random.random()` is not modelled as a generator. Its draws are caller-supplied values in [0, 1).
- `str.splitlines()` is not modelled. Its Unicode line-boundary rules belong to the library. The model takes the split lines, and empty text is the empty sequence of lines.
- `COOLING_FACTOR` and `WIND_FACTOR` are not modelled because the code never reads them.
- IEEE-754 rounding is not modelled. Heat is an exact real.
- `Engine.Cooled`: when cooling reaches or goes below zero, Python's `max(0, v)` returns the integer 0. The model returns the real 0.0. The value and every later use of it are the same.
