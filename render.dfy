/** The renderer: each cell's glyph and heat become a display character and
    a colour pair (0 the terminal default, 1..4 white, yellow, red, magenta). */
module Render {
  import opened Grids
  import opened Engine

  /** Palette from hottest to coolest. */
  const FireChars: seq<char> := ['#', 'O', 'o', '.', ' ']

  /** Highest palette index. */
  const PaletteSize: nat := |FireChars| - 1

  datatype Cell = Cell(ch: char, pair: nat)

  /** Colour tier of a burning cell: 1 above 0.8, 2 above 0.6, 3 above 0.4, else 4. */
  function Tier(intensity: real): nat {
    if intensity > 0.8 then 1
    else if intensity > 0.6 then 2
    else if intensity > 0.4 then 3
    else 4
  }

  /** The display of one cell. Unburned text shows itself in the default
      colour; a blank cell warmer than 0.01 shows a palette glyph in a fire
      colour; anything else is a blank in the default colour. */
  function RenderCell(glyph: char, intensity: real): (c: Cell)
    ensures c.pair <= 4
    ensures c.pair == 0 <==> glyph != Blank || intensity <= 0.01
    ensures glyph != Blank ==> c.ch == glyph
    ensures glyph == Blank ==> c.ch in FireChars
    ensures glyph == Blank && intensity <= 0.01 ==> c == Cell(Blank, 0)
  {
    if glyph != Blank then Cell(glyph, 0)
    else if intensity > 0.01 then
      var index := Min(PaletteSize, Trunc(intensity * PaletteSize as real));
      Cell(FireChars[PaletteSize - index], Tier(intensity))
    else Cell(Blank, 0)
  }

  /** The palette glyph of a blank, burning cell by heat band: ' ' below 0.25
      (still in fire colour 4), '.' below 0.5, 'o' below 0.75, 'O' below 1.0,
      '#' from 1.0 on; and the colour pair by the tier thresholds. */
  lemma RenderBands(intensity: real)
    requires intensity > 0.01
    ensures var c := RenderCell(Blank, intensity);
      (intensity < 0.25 ==> c.ch == ' ') &&
      (0.25 <= intensity < 0.5 ==> c.ch == '.') &&
      (0.5 <= intensity < 0.75 ==> c.ch == 'o') &&
      (0.75 <= intensity < 1.0 ==> c.ch == 'O') &&
      (1.0 <= intensity ==> c.ch == '#') &&
      (c.pair == 1 <==> intensity > 0.8) &&
      (c.pair == 2 <==> 0.6 < intensity <= 0.8) &&
      (c.pair == 3 <==> 0.4 < intensity <= 0.6) &&
      (c.pair == 4 <==> intensity <= 0.4)
  {
    var v := intensity * 4.0;
    if intensity < 0.25 {
      assert Trunc(v) == 0;
    } else if intensity < 0.5 {
      assert Trunc(v) == 1;
    } else if intensity < 0.75 {
      assert Trunc(v) == 2;
    } else if intensity < 1.0 {
      assert Trunc(v) == 3;
    } else {
      assert Trunc(v) >= 4;
    }
  }

  /** Position of a glyph in the palette, hottest first. */
  function PaletteRank(ch: char): nat {
    if ch == '#' then 0 else if ch == 'O' then 1 else if ch == 'o' then 2 else if ch == '.' then 3 else 4
  }

  /** A hotter blank cell never renders cooler: neither its palette glyph nor
      its colour tier moves toward the cool end. */
  lemma RenderMonotone(a: real, b: real)
    requires 0.01 < a <= b
    ensures PaletteRank(RenderCell(Blank, b).ch) <= PaletteRank(RenderCell(Blank, a).ch)
    ensures RenderCell(Blank, b).pair <= RenderCell(Blank, a).pair
  {
    RenderBands(a);
    RenderBands(b);
  }

  /** The frame the renderer hands to the terminal: one cell per grid cell. */
  function Frame(s: State, h: nat, w: nat): (f: Grid<Cell>)
    requires Fits(s, h, w)
    ensures IsGrid(f, h, w)
  {
    seq(h, y requires 0 <= y < h => seq(w, x requires 0 <= x < w => RenderCell(s.glyphs[y][x], s.heat[y][x])))
  }

  /** A blank cell at heat 0.01 or below, in particular at 0.0, shows in a
      frame as a default-coloured blank, never a fire glyph. */
  lemma FrameColdIsBlank(s: State, h: nat, w: nat)
    requires Fits(s, h, w)
    ensures forall y, x :: 0 <= y < h && 0 <= x < w && s.glyphs[y][x] == Blank && s.heat[y][x] <= 0.01 ==>
      Frame(s, h, w)[y][x] == Cell(Blank, 0)
  {
  }
}
