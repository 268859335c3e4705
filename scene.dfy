/** The scene state of run_animation: the glyph layer and the heat layer as
    two height x width arrays that the seeding and the tick update in place. */
module SceneState {
  import opened Grids
  import opened Engine
  import opened Seeding
  import opened Render

  class Scene {
    const height: nat
    const width: nat
    /** Glyph layer: unburned text, Blank elsewhere. */
    const grid: array2<char>
    /** Heat layer: one intensity per cell; row height - 1 is the source row. */
    const heat: array2<real>

    ghost predicate Valid() {
      height >= 1 && width >= 1 &&
      grid.Length0 == height && grid.Length1 == width &&
      heat.Length0 == height && heat.Length1 == width
    }

    /** The glyph layer as a value. */
    ghost function Glyphs(): (g: Grid<char>)
      reads grid
      ensures IsGrid(g, grid.Length0, grid.Length1)
      ensures forall y, x :: 0 <= y < grid.Length0 && 0 <= x < grid.Length1 ==> g[y][x] == grid[y, x]
    {
      seq(grid.Length0, y requires 0 <= y < grid.Length0 reads grid =>
        seq(grid.Length1, x requires 0 <= x < grid.Length1 reads grid => grid[y, x]))
    }

    /** The heat layer as a value. */
    ghost function Heat(): (g: Grid<real>)
      reads heat
      ensures IsGrid(g, heat.Length0, heat.Length1)
      ensures forall y, x :: 0 <= y < heat.Length0 && 0 <= x < heat.Length1 ==> g[y][x] == heat[y, x]
    {
      seq(heat.Length0, y requires 0 <= y < heat.Length0 reads heat =>
        seq(heat.Length1, x requires 0 <= x < heat.Length1 reads heat => heat[y, x]))
    }

    /** The whole scene as a value. */
    ghost function Model(): (s: State)
      reads grid, heat
      requires Valid()
      ensures Fits(s, height, width)
    {
      State(Glyphs(), Heat())
    }

    /** Allocation and seeding: a blank glyph layer and a cold heat layer,
        then the input lines (or, with none, the banner) written cell by
        cell, each write guarded by a bounds check. */
    constructor (h: nat, w: nat, lines: seq<string>)
      requires h >= 1 && w >= 1
      ensures Valid() && height == h && width == w
      ensures fresh(grid) && fresh(heat)
      ensures Model() == State(Seeded(lines, h, w), ColdHeat(h, w))
    {
      height, width := h, w;
      grid := new char[h, w]((_, _) => Blank);
      heat := new real[h, w]((_, _) => 0.0);
      new;
      if |lines| > 0 {
        PlaceLines(lines);
      } else {
        PlaceBanner();
      }
      GridExt(Glyphs(), Seeded(lines, h, w), h, w);
      GridExt(Heat(), ColdHeat(h, w), h, w);
    }

    /** Every cell of the glyph layer is blank. */
    ghost predicate AllBlank()
      reads grid
    {
      forall y, x :: 0 <= y < grid.Length0 && 0 <= x < grid.Length1 ==> grid[y, x] == Blank
    }

    /** Seeding with input: line i goes to row StartRow + i, cut to the
        width; rows past the bottom are skipped. */
    method PlaceLines(lines: seq<string>)
      requires Valid() && |lines| > 0 && AllBlank()
      modifies grid
      ensures forall y, x :: 0 <= y < height && 0 <= x < width ==> grid[y, x] == SeedGlyph(lines, height, width, y, x)
    {
      var startRow := StartRow(height, |lines|);
      var i := 0;
      while i < |lines|
        invariant 0 <= i <= |lines|
        invariant forall y, x :: 0 <= y < height && 0 <= x < width ==>
          grid[y, x] == if startRow <= y < startRow + i && x < |lines[y - startRow]| then lines[y - startRow][x] else Blank
      {
        if startRow + i < height {
          var lineText := lines[i][..Min(|lines[i]|, width)];
          WriteClipped(startRow + i, 0, lineText);
        }
        i := i + 1;
      }
    }

    /** Seeding without input: the banner on row height - 5, centred,
        skipped entirely when that row is above the grid. */
    method PlaceBanner()
      requires Valid() && AllBlank()
      modifies grid
      ensures forall y, x :: 0 <= y < height && 0 <= x < width ==> grid[y, x] == SeedGlyph([], height, width, y, x)
    {
      var logRow := BannerRow(height);
      var startCol := BannerColumn(width);
      if logRow >= 0 {
        WriteClipped(logRow, startCol, Banner);
      }
    }

    /** Writes text into row `row` from column `col` on, one character per
        cell, skipping every character that would fall right of the grid. */
    method WriteClipped(row: nat, col: nat, text: string)
      requires Valid() && row < height
      modifies grid
      ensures forall x :: 0 <= x < width ==>
        grid[row, x] == if col <= x < col + |text| then text[x - col] else old(grid[row, x])
      ensures forall y, x :: 0 <= y < height && 0 <= x < width && y != row ==> grid[y, x] == old(grid[y, x])
    {
      var i := 0;
      while i < |text|
        invariant 0 <= i <= |text|
        invariant forall x :: 0 <= x < width ==>
          grid[row, x] == if col <= x < col + i then text[x - col] else old(grid[row, x])
        invariant forall y, x :: 0 <= y < height && 0 <= x < width && y != row ==> grid[y, x] == old(grid[y, x])
      {
        if col + i < width {
          grid[row, col + i] := text[i];
        }
        i := i + 1;
      }
    }

    /** Pass 1, rows 0 .. height-2 top to bottom: each cell takes the cooled
        heat of its wind-shifted source one row below, which this pass has
        not yet rewritten. */
    method Propagate(wind: Grid<real>, cool: Grid<real>)
      requires Valid() && UnitGrid(wind, height - 1, width) && UnitGrid(cool, height - 1, width)
      modifies heat
      ensures Model() == State(old(Model()).glyphs, Propagated(old(Model()).heat, width, wind, cool))
    {
      ghost var before := Heat();
      ghost var target := Propagated(before, width, wind, cool);
      var y := 0;
      while y < height - 1
        invariant 0 <= y <= height - 1
        invariant forall i, j :: 0 <= i < height && 0 <= j < width ==>
          heat[i, j] == if i < y then target[i][j] else before[i][j]
      {
        PropagateRow(y, wind, cool);
        y := y + 1;
      }
      GridExt(Heat(), target, height, width);
    }

    /** Row y of pass 1, left to right, reading row y + 1 only. */
    method PropagateRow(y: nat, wind: Grid<real>, cool: Grid<real>)
      requires Valid() && y < height - 1
      requires UnitGrid(wind, height - 1, width) && UnitGrid(cool, height - 1, width)
      modifies heat
      ensures forall j :: 0 <= j < width ==>
        heat[y, j] == Cooled(old(heat[y + 1, Source(wind, width, y, j)]), cool[y][j])
      ensures forall i, j :: 0 <= i < height && 0 <= j < width && i != y ==> heat[i, j] == old(heat[i, j])
    {
      var x := 0;
      while x < width
        invariant 0 <= x <= width
        invariant forall j :: 0 <= j < x ==>
          heat[y, j] == Cooled(old(heat[y + 1, Source(wind, width, y, j)]), cool[y][j])
        invariant forall i, j :: 0 <= i < height && 0 <= j < width && (i != y || j >= x) ==> heat[i, j] == old(heat[i, j])
      {
        var windDx := WindOffset(wind[y][x]);
        var srcX := SourceColumn(x, windDx, width);
        var rising := heat[y + 1, srcX];
        var cooledHeat := Cooled(rising, cool[y][x]);
        heat[y, x] := cooledHeat;
        x := x + 1;
      }
    }

    /** Pass 2, every cell: a glyph on a cell hotter than 0.6 burns away and
        the cell flares to full heat. */
    method Burn()
      requires Valid()
      modifies grid, heat
      ensures Model() == Burned(old(Model()), height, width)
    {
      ghost var before := Model();
      ghost var target := Burned(before, height, width);
      var y := 0;
      while y < height
        invariant 0 <= y <= height
        invariant forall i, j :: 0 <= i < height && 0 <= j < width ==>
          if i < y then grid[i, j] == target.glyphs[i][j] && heat[i, j] == target.heat[i][j]
          else grid[i, j] == before.glyphs[i][j] && heat[i, j] == before.heat[i][j]
      {
        var x := 0;
        while x < width
          invariant 0 <= x <= width
          invariant forall i, j :: 0 <= i < height && 0 <= j < width ==>
            if i < y || (i == y && j < x) then grid[i, j] == target.glyphs[i][j] && heat[i, j] == target.heat[i][j]
            else grid[i, j] == before.glyphs[i][j] && heat[i, j] == before.heat[i][j]
        {
          if grid[y, x] != Blank && heat[y, x] > 0.6 {
            heat[y, x] := 1.0;
            grid[y, x] := Blank;
          }
          x := x + 1;
        }
        y := y + 1;
      }
      GridExt(Glyphs(), target.glyphs, height, width);
      GridExt(Heat(), target.heat, height, width);
    }

    /** Pass 3, the source row: each column decays by 0.9 and is re-ignited
        to 1.0 when its draw is below 0.15. */
    method Refresh(spark: seq<real>)
      requires Valid() && |spark| == width
      modifies heat
      ensures Model() == State(old(Model()).glyphs, Refreshed(old(Model()).heat, height, width, spark))
    {
      ghost var before := Heat();
      ghost var target := Refreshed(before, height, width, spark);
      var x := 0;
      while x < width
        invariant 0 <= x <= width
        invariant forall i, j :: 0 <= i < height && 0 <= j < width ==>
          heat[i, j] == if i == height - 1 && j < x then target[i][j] else before[i][j]
      {
        heat[height - 1, x] := heat[height - 1, x] * 0.9;
        if spark[x] < 0.15 {
          heat[height - 1, x] := 1.0;
        }
        x := x + 1;
      }
      GridExt(Heat(), target, height, width);
    }

    /** One simulation step: the three passes in order. */
    method Tick(d: TickDraws)
      requires Valid() && DrawsFit(d, height, width)
      modifies grid, heat
      ensures Model() == Step(old(Model()), height, width, d)
    {
      Propagate(d.wind, d.cool);
      Burn();
      Refresh(d.spark);
    }

    /** The render step: the display cell of every grid cell, row by row. */
    method RenderFrame() returns (frame: Grid<Cell>)
      requires Valid()
      ensures frame == Frame(Model(), height, width)
    {
      ghost var target := Frame(Model(), height, width);
      frame := [];
      var y := 0;
      while y < height
        invariant 0 <= y <= height
        invariant frame == target[..y]
      {
        var row: seq<Cell> := [];
        var x := 0;
        while x < width
          invariant 0 <= x <= width
          invariant row == target[y][..x]
        {
          row := row + [RenderCell(grid[y, x], heat[y, x])];
          x := x + 1;
        }
        assert row == target[y];
        frame := frame + [row];
        y := y + 1;
      }
    }

    /** The animation loop for |ds| iterations (the quit key arrives after
        the last): tick, then render; frame i shows the scene after ticks
        0..i. */
    method Animate(ds: seq<TickDraws>) returns (frames: seq<Grid<Cell>>)
      requires Valid() && AllDrawsFit(ds, height, width)
      modifies grid, heat
      ensures Model() == Run(old(Model()), height, width, ds)
      ensures |frames| == |ds|
      ensures forall i :: 0 <= i < |ds| ==> frames[i] == Frame(Run(old(Model()), height, width, ds[..i + 1]), height, width)
    {
      ghost var start := Model();
      frames := [];
      var n := 0;
      while n < |ds|
        invariant 0 <= n <= |ds|
        invariant Model() == Run(start, height, width, ds[..n])
        invariant |frames| == n
        invariant forall i :: 0 <= i < n ==> frames[i] == Frame(Run(start, height, width, ds[..i + 1]), height, width)
      {
        RunSnoc(start, height, width, ds[..n], ds[n]);
        assert ds[..n] + [ds[n]] == ds[..n + 1];
        Tick(ds[n]);
        var frame := RenderFrame();
        frames := frames + [frame];
        n := n + 1;
      }
      assert ds[..|ds|] == ds;
    }
  }
}
