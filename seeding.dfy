/** Seed text placement: where the input lines, or the default banner when
    there are none, land on a fresh height x width glyph layer. */
module Seeding {
  import opened Grids
  import opened Engine

  /** The banner burned when no text is given. */
  const Banner: string := "=== GEMINI FIRE ==="

  /** First text row of a block of n lines: four rows above the position
      that would centre the block, never above row 0. When there is room,
      the rows below the block outnumber those above it by 8 or 9; with
      fewer than ten spare rows the block starts at the top. (Dafny's /
      agrees with Python's // for the positive divisor 2.) */
  function StartRow(h: nat, n: nat): (s: nat)
    ensures h >= n + 8 ==> 8 <= (h - (s + n)) - s <= 9
    ensures h < n + 10 ==> s == 0
  {
    Max(0, (h - n) / 2 - 4)
  }

  /** First banner column: the banner centred, never left of column 0. When
      it fits, its left and right margins differ by at most one column, the
      right one being the wider; in a row narrower than the banner plus two
      columns it starts at column 0. */
  function BannerColumn(w: nat): (c: nat)
    ensures w >= |Banner| ==> c <= w - (c + |Banner|) <= c + 1
    ensures w < |Banner| + 2 ==> c == 0
  {
    Max(0, (w - |Banner|) / 2)
  }

  /** Row of the banner, five rows above the bottom; negative when h < 5. */
  function BannerRow(h: nat): int { h - 5 }

  /** The glyph of cell (y, x) after seeding: with lines, line i left-justified
      on row StartRow + i and cut at the right edge; without, the banner on
      BannerRow from BannerColumn on, cut at the right edge; blank elsewhere. */
  function SeedGlyph(lines: seq<string>, h: nat, w: nat, y: nat, x: nat): char {
    if |lines| > 0 then
      var s := StartRow(h, |lines|);
      if s <= y < s + |lines| && x < |lines[y - s]| then lines[y - s][x] else Blank
    else
      var c := BannerColumn(w);
      if y == BannerRow(h) && c <= x < c + |Banner| then Banner[x - c] else Blank
  }

  /** The whole seeded glyph layer. */
  function Seeded(lines: seq<string>, h: nat, w: nat): (g: Grid<char>)
    ensures IsGrid(g, h, w)
  {
    seq(h, y requires 0 <= y < h => seq(w, x requires 0 <= x < w => SeedGlyph(lines, h, w, y, x)))
  }

  /** With input text, character j of line i appears at (StartRow + i, j)
      whenever that cell is inside the grid, and every cell that no visible
      character of a line covers is blank. */
  lemma SeededText(lines: seq<string>, h: nat, w: nat)
    requires |lines| > 0
    ensures forall i, j ::
      0 <= i < |lines| && 0 <= j < |lines[i]| && StartRow(h, |lines|) + i < h && j < w ==>
      Seeded(lines, h, w)[StartRow(h, |lines|) + i][j] == lines[i][j]
    ensures forall y, x ::
      0 <= y < h && 0 <= x < w && !(StartRow(h, |lines|) <= y < StartRow(h, |lines|) + |lines| && x < |lines[y - StartRow(h, |lines|)]|) ==>
      Seeded(lines, h, w)[y][x] == Blank
  {
  }

  /** Without input text, the banner occupies row h - 5 from column
      BannerColumn(w) on, cut at the right edge; every other cell is blank,
      and a grid under five rows stays blank. */
  lemma SeededBanner(h: nat, w: nat)
    ensures h >= 5 ==> forall i :: 0 <= i < |Banner| && BannerColumn(w) + i < w ==>
      Seeded([], h, w)[h - 5][BannerColumn(w) + i] == Banner[i]
    ensures forall y, x ::
      0 <= y < h && 0 <= x < w && !(y == h - 5 && BannerColumn(w) <= x < BannerColumn(w) + |Banner|) ==>
      Seeded([], h, w)[y][x] == Blank
    ensures h < 5 ==> forall y, x :: 0 <= y < h && 0 <= x < w ==> Seeded([], h, w)[y][x] == Blank
  {
  }

  /** Seeding a 10 x 40 grid with the single line HELLO puts it at the left
      edge of row 0 and leaves the rest of that row blank. */
  lemma SeededHello()
    ensures Seeded(["HELLO"], 10, 40)[0][..5] == "HELLO"
    ensures forall x :: 5 <= x < 40 ==> Seeded(["HELLO"], 10, 40)[0][x] == Blank
  {
    assert StartRow(10, 1) == 0;
  }
}
