/** The fire simulation engine as values: one tick is three passes over the
    heat layer and the glyph layer (upward propagation with wind and cooling,
    burn-away of hot glyphs, decay and re-ignition of the bottom source row).
    The random draws of a tick are explicit inputs in [0, 1). */
module Engine {
  import opened Grids

  /** The blank glyph: an unburned cell holds anything else. */
  const Blank: char := ' '

  /** The scene as values: the glyph layer and the heat layer. */
  datatype State = State(glyphs: Grid<char>, heat: Grid<real>)

  /** The random draws one tick consumes: per cell of rows 0..height-2 a wind
      draw and a cooling draw, and per column a draw for the source row. */
  datatype TickDraws = TickDraws(wind: Grid<real>, cool: Grid<real>, spark: seq<real>)

  /** A value random.random() can return. */
  predicate Unit(r: real) { 0.0 <= r < 1.0 }

  predicate UnitGrid(g: Grid<real>, h: nat, w: nat) {
    IsGrid(g, h, w) && forall y, x :: 0 <= y < h && 0 <= x < w ==> Unit(g[y][x])
  }

  predicate HeatInRange(g: Grid<real>, h: nat, w: nat) {
    IsGrid(g, h, w) && forall y, x :: 0 <= y < h && 0 <= x < w ==> 0.0 <= g[y][x] <= 1.0
  }

  /** Both layers are height x width, and the frame is at least one cell. */
  predicate Fits(s: State, h: nat, w: nat) {
    h >= 1 && w >= 1 && IsGrid(s.glyphs, h, w) && IsGrid(s.heat, h, w)
  }

  predicate DrawsFit(d: TickDraws, h: nat, w: nat) {
    h >= 1 && UnitGrid(d.wind, h - 1, w) && UnitGrid(d.cool, h - 1, w) &&
    |d.spark| == w && forall x :: 0 <= x < w ==> Unit(d.spark[x])
  }

  /** The heat layer as allocated: 0.0 everywhere. */
  function ColdHeat(h: nat, w: nat): (g: Grid<real>)
    ensures HeatInRange(g, h, w)
  {
    seq(h, y => seq(w, x => 0.0))
  }

  // ---------------------------------------------------------------- pass 1

  /** The wind jitter int((r - 0.5) * 4): -2 only for r = 0, -1 on (0, 0.25],
      0 on (0.25, 0.75), 1 on [0.75, 1). */
  function WindOffset(r: real): (dx: int)
    requires Unit(r)
    ensures -2 <= dx <= 1
    ensures dx == -2 <==> r == 0.0
    ensures dx == -1 <==> 0.0 < r <= 0.25
    ensures dx == 0 <==> 0.25 < r < 0.75
    ensures dx == 1 <==> 0.75 <= r
  {
    Trunc((r - 0.5) * 4.0)
  }

  /** The column heat is drawn from: x + dx clamped into the row. */
  function SourceColumn(x: int, dx: int, w: nat): (c: nat)
    requires w >= 1
    ensures c < w
    ensures 0 <= x + dx < w ==> c == x + dx
    ensures x + dx < 0 ==> c == 0
    ensures w <= x + dx ==> c == w - 1
  {
    Max(0, Min(w - 1, x + dx))
  }

  /** Heat after random cooling by up to a quarter, floored at zero. */
  function Cooled(heat: real, r: real): (c: real)
    requires Unit(r)
    ensures 0.0 <= c
    ensures 0.0 <= heat ==> c <= heat
    ensures c == 0.0 || heat - 0.25 < c
  {
    MaxReal(0.0, heat - r * 0.25)
  }

  /** The column cell (y, x) of the propagation pass reads from, one row below. */
  function Source(d: Grid<real>, w: nat, y: nat, x: nat): nat
    requires w >= 1 && |d| > y && |d[y]| == w && x < w && Unit(d[y][x])
  {
    SourceColumn(x, WindOffset(d[y][x]), w)
  }

  /** The propagation pass: every row but the bottom one is rewritten from
      the row below as it stood before the pass; the bottom row is kept. */
  function Propagated(heat: Grid<real>, w: nat, wind: Grid<real>, cool: Grid<real>): (r: Grid<real>)
    requires w >= 1 && |heat| >= 1 && IsGrid(heat, |heat|, w)
    requires UnitGrid(wind, |heat| - 1, w) && UnitGrid(cool, |heat| - 1, w)
    ensures IsGrid(r, |heat|, w)
  {
    seq(|heat|, y requires 0 <= y < |heat| =>
      if y < |heat| - 1 then
        seq(w, x requires 0 <= x < w => Cooled(heat[y + 1][Source(wind, w, y, x)], cool[y][x]))
      else heat[y])
  }

  /** Every propagated cell is at least 0 and at most the heat of its source
      cell one row below, which lies at most two columns left or one column
      right of it; the bottom row is untouched. */
  lemma PropagatedBounds(heat: Grid<real>, h: nat, w: nat, wind: Grid<real>, cool: Grid<real>)
    requires h >= 1 && w >= 1 && HeatInRange(heat, h, w)
    requires UnitGrid(wind, h - 1, w) && UnitGrid(cool, h - 1, w)
    ensures HeatInRange(Propagated(heat, w, wind, cool), h, w)
    ensures Propagated(heat, w, wind, cool)[h - 1] == heat[h - 1]
    ensures forall y, x :: 0 <= y < h - 1 && 0 <= x < w ==>
      x - 2 <= Source(wind, w, y, x) <= x + 1 &&
      0.0 <= Propagated(heat, w, wind, cool)[y][x] <= heat[y + 1][Source(wind, w, y, x)]
  {
  }

  /** Row y of the propagation result depends on row y + 1 of the old layer
      only (and on row y's draws): the pass never reads a row it has written. */
  lemma PropagatedReadsRowBelow(a: Grid<real>, b: Grid<real>, h: nat, w: nat, wind: Grid<real>, cool: Grid<real>, y: nat)
    requires h >= 1 && w >= 1 && IsGrid(a, h, w) && IsGrid(b, h, w)
    requires UnitGrid(wind, h - 1, w) && UnitGrid(cool, h - 1, w)
    requires y < h - 1 && a[y + 1] == b[y + 1]
    ensures Propagated(a, w, wind, cool)[y] == Propagated(b, w, wind, cool)[y]
  {
  }

  // ---------------------------------------------------------------- pass 2

  /** A cell burns when it still holds a glyph and its heat exceeds 0.6. */
  predicate Burns(g: char, heat: real) { g != Blank && heat > 0.6 }

  /** The burn-away pass: burning cells lose their glyph and flare to 1.0. */
  function Burned(s: State, h: nat, w: nat): (r: State)
    requires Fits(s, h, w)
    ensures Fits(r, h, w)
  {
    State(
      seq(h, y requires 0 <= y < h => seq(w, x requires 0 <= x < w =>
        if Burns(s.glyphs[y][x], s.heat[y][x]) then Blank else s.glyphs[y][x])),
      seq(h, y requires 0 <= y < h => seq(w, x requires 0 <= x < w =>
        if Burns(s.glyphs[y][x], s.heat[y][x]) then 1.0 else s.heat[y][x])))
  }

  /** A glyph turns blank exactly when it was non-blank with heat above 0.6,
      and then the heat is 1.0; every other cell keeps glyph and heat; a blank
      cell never gains a glyph. */
  lemma BurnedCells(s: State, h: nat, w: nat)
    requires Fits(s, h, w)
    ensures forall y, x :: 0 <= y < h && 0 <= x < w ==>
      var r := Burned(s, h, w);
      ((s.glyphs[y][x] != Blank && r.glyphs[y][x] == Blank) <==> (s.glyphs[y][x] != Blank && s.heat[y][x] > 0.6)) &&
      (s.glyphs[y][x] == Blank ==> r.glyphs[y][x] == Blank) &&
      (r.glyphs[y][x] != s.glyphs[y][x] ==> r.heat[y][x] == 1.0) &&
      (r.glyphs[y][x] == s.glyphs[y][x] ==> r.heat[y][x] == s.heat[y][x]) &&
      (s.glyphs[y][x] != Blank && s.heat[y][x] <= 0.6 ==>
        r.glyphs[y][x] == s.glyphs[y][x] && r.heat[y][x] == s.heat[y][x])
  {
  }

  // ---------------------------------------------------------------- pass 3

  /** One source-row column: decay by 0.9, overridden by 1.0 when r < 0.15. */
  function Rekindled(v: real, r: real): real {
    var decayed := v * 0.9;
    if r < 0.15 then 1.0 else decayed
  }

  /** The source-row pass: only the bottom row changes. */
  function Refreshed(heat: Grid<real>, h: nat, w: nat, spark: seq<real>): (r: Grid<real>)
    requires h >= 1 && IsGrid(heat, h, w) && |spark| == w
    ensures IsGrid(r, h, w)
  {
    seq(h, y requires 0 <= y < h =>
      if y == h - 1 then seq(w, x requires 0 <= x < w => Rekindled(heat[y][x], spark[x]))
      else heat[y])
  }

  /** Each bottom-row cell ends as 0.9 times its value or as 1.0: 1.0 when
      its draw is below 0.15, 0.9 times its value otherwise; every row above
      is unchanged. */
  lemma RefreshedCells(heat: Grid<real>, h: nat, w: nat, spark: seq<real>)
    requires h >= 1 && IsGrid(heat, h, w) && |spark| == w
    ensures forall x :: 0 <= x < w ==>
      var v := Refreshed(heat, h, w, spark)[h - 1][x];
      (v == heat[h - 1][x] * 0.9 || v == 1.0) && (spark[x] < 0.15 ==> v == 1.0) &&
      (spark[x] >= 0.15 ==> v == heat[h - 1][x] * 0.9)
    ensures forall y :: 0 <= y < h - 1 ==> Refreshed(heat, h, w, spark)[y] == heat[y]
  {
    var r := Refreshed(heat, h, w, spark);
    forall x | 0 <= x < w
      ensures (r[h - 1][x] == heat[h - 1][x] * 0.9 || r[h - 1][x] == 1.0) && (spark[x] < 0.15 ==> r[h - 1][x] == 1.0)
      ensures spark[x] >= 0.15 ==> r[h - 1][x] == heat[h - 1][x] * 0.9
    {
      assert r[h - 1][x] == Rekindled(heat[h - 1][x], spark[x]);
    }
  }

  // ---------------------------------------------------------------- tick

  /** One tick: the three passes in order, each over the previous one's result. */
  function Step(s: State, h: nat, w: nat, d: TickDraws): (r: State)
    requires Fits(s, h, w) && DrawsFit(d, h, w)
    ensures Fits(r, h, w)
  {
    var afterRise := State(s.glyphs, Propagated(s.heat, w, d.wind, d.cool));
    var afterBurn := Burned(afterRise, h, w);
    State(afterBurn.glyphs, Refreshed(afterBurn.heat, h, w, d.spark))
  }

  /** A tick keeps every heat value in [0, 1], and a glyph either stays or
      becomes blank: no cell ever gains a glyph. */
  lemma StepInvariant(s: State, h: nat, w: nat, d: TickDraws)
    requires Fits(s, h, w) && DrawsFit(d, h, w) && HeatInRange(s.heat, h, w)
    ensures HeatInRange(Step(s, h, w, d).heat, h, w)
    ensures forall y, x :: 0 <= y < h && 0 <= x < w ==>
      Step(s, h, w, d).glyphs[y][x] == s.glyphs[y][x] || Step(s, h, w, d).glyphs[y][x] == Blank
  {
    var p := Propagated(s.heat, w, d.wind, d.cool);
    PropagatedBounds(s.heat, h, w, d.wind, d.cool);
    var b := Burned(State(s.glyphs, p), h, w);
    assert HeatInRange(b.heat, h, w);
    var f := Refreshed(b.heat, h, w, d.spark);
    forall y, x | 0 <= y < h && 0 <= x < w
      ensures 0.0 <= f[y][x] <= 1.0
    {
      if y == h - 1 {
        assert f[y][x] == Rekindled(b.heat[y][x], d.spark[x]);
      }
    }
  }

  predicate AllDrawsFit(ds: seq<TickDraws>, h: nat, w: nat) {
    forall i :: 0 <= i < |ds| ==> DrawsFit(ds[i], h, w)
  }

  /** The animation loop run for |ds| ticks, tick i consuming draws ds[i]. */
  function Run(s: State, h: nat, w: nat, ds: seq<TickDraws>): (r: State)
    requires Fits(s, h, w) && AllDrawsFit(ds, h, w)
    ensures Fits(r, h, w)
    decreases |ds|
  {
    if ds == [] then s else Run(Step(s, h, w, ds[0]), h, w, ds[1..])
  }

  /** Over any number of ticks, heat stays in [0, 1] and burning is one-way:
      every cell ends with its original glyph or blank, and a cell that
      started blank ends blank. */
  lemma {:induction false} RunInvariant(s: State, h: nat, w: nat, ds: seq<TickDraws>)
    requires Fits(s, h, w) && AllDrawsFit(ds, h, w) && HeatInRange(s.heat, h, w)
    ensures HeatInRange(Run(s, h, w, ds).heat, h, w)
    ensures forall y, x :: 0 <= y < h && 0 <= x < w ==>
      Run(s, h, w, ds).glyphs[y][x] == s.glyphs[y][x] || Run(s, h, w, ds).glyphs[y][x] == Blank
    decreases |ds|
  {
    if ds != [] {
      var next := Step(s, h, w, ds[0]);
      StepInvariant(s, h, w, ds[0]);
      RunInvariant(next, h, w, ds[1..]);
    }
  }

  /** Running the ticks of ds and then the tick d is running ds + [d]. */
  lemma {:induction false} RunSnoc(s: State, h: nat, w: nat, ds: seq<TickDraws>, d: TickDraws)
    requires Fits(s, h, w) && AllDrawsFit(ds, h, w) && DrawsFit(d, h, w)
    ensures AllDrawsFit(ds + [d], h, w)
    ensures Run(s, h, w, ds + [d]) == Step(Run(s, h, w, ds), h, w, d)
    decreases |ds|
  {
    assert AllDrawsFit(ds + [d], h, w) by {
      forall i | 0 <= i < |ds + [d]|
        ensures DrawsFit((ds + [d])[i], h, w)
      {
        if i < |ds| { assert (ds + [d])[i] == ds[i]; }
      }
    }
    if ds == [] {
      assert [] + [d] == [d];
      assert [d][1..] == [];
    } else {
      var next := Step(s, h, w, ds[0]);
      assert (ds + [d])[0] == ds[0];
      assert (ds + [d])[1..] == ds[1..] + [d];
      RunSnoc(next, h, w, ds[1..], d);
    }
  }
}
