/** The main function of langtonsant.go: the image buffer, the ant's step on
    it, and the loop that runs until the ant leaves the image. The image
    stores palette colours; the colour index of a pixel is recovered by the
    reverse palette lookup, as in the Go program. */
module Simulation {
  import opened Headings
  import opened Tables
  import opened Engine

  /** The image shows the index grid g: every pixel holds the palette colour
      of the index at the same coordinates. */
  ghost predicate Rendered(img: array2<Color>, g: Grid)
    reads img
  {
    && img.Length0 == Width
    && img.Length1 == Height
    && WellFormed(g)
    && forall x, y :: 0 <= x < Width && 0 <= y < Height ==> img[x, y] == PaletteColor(g[x][y])
  }

  /** One pass of the loop body in main, on the image and the ant's position
      and heading. The image afterwards shows the grid of Step, and the new
      position and heading are those of Step; the one pixel that changes is
      the one under the ant. */
  method StepImage(img: array2<Color>, palette: array<Color>, turns: array<Turn>,
                   pos: Point, dir: Heading, ghost s: State)
    returns (pos': Point, dir': Heading)
    requires TablesReady(palette, turns)
    requires Rendered(img, s.grid) && s.pos == pos && s.dir == dir && InBounds(pos)
    modifies img
    ensures Rendered(img, Step(s).grid)
    ensures pos' == Step(s).pos && dir' == Step(s).dir
    ensures forall x, y :: 0 <= x < Width && 0 <= y < Height && Point(x, y) != pos ==>
              img[x, y] == old(img[x, y])
  {
    ghost var g := s.grid;
    var curColor := img[pos.x, pos.y];
    assert palette[g[pos.x][pos.y]] == curColor;
    var i := FindColorInPalette(palette, curColor);
    PaletteInjective(i, g[pos.x][pos.y]);
    img[pos.x, pos.y] := palette[(i + 1) % PaletteSize];
    dir' := Apply(turns[i], dir);
    match dir'
    case Up => pos' := Point(pos.x, pos.y - 1);
    case Rt => pos' := Point(pos.x + 1, pos.y);
    case Dn => pos' := Point(pos.x, pos.y + 1);
    case Lt => pos' := Point(pos.x - 1, pos.y);
    ghost var t := Step(s);
    forall x, y | 0 <= x < Width && 0 <= y < Height
      ensures img[x, y] == PaletteColor(t.grid[x][y])
    {
      if Point(x, y) != pos {
        assert t.grid[x][y] == g[x][y];
      }
    }
  }

  /** main, less the logging and the PNG export: fill the image with the
      colour of index 0, put the ant at the centre heading left, and step
      while the ant is inside the image. The Go loop has no bound; here it
      also stops after fuel steps. The result is the Walk of the initial
      state: the image shows its final grid, pos and dir are its final
      position and heading, and iter is the number of steps it took. */
  method Run(palette: array<Color>, turns: array<Turn>, fuel: nat)
    returns (img: array2<Color>, pos: Point, dir: Heading, iter: nat)
    requires TablesReady(palette, turns)
    ensures Rendered(img, Walk(Initial(), fuel).last.grid)
    ensures pos == Walk(Initial(), fuel).last.pos && dir == Walk(Initial(), fuel).last.dir
    ensures iter == |Walk(Initial(), fuel).visited|
    ensures iter <= fuel && (iter < fuel ==> !InBounds(pos))
  {
    var background := palette[0];
    img := new Color[Width, Height]((x, y) => background);
    dir := Lt;
    pos := Point(Width / 2, Height / 2);
    iter := 0;
    ghost var s := Initial();
    ghost var left := fuel;
    ghost var whole := Walk(s, left);
    while InBounds(pos) && iter < fuel
      invariant iter + left == fuel
      invariant s.pos == pos && s.dir == dir
      invariant Rendered(img, s.grid)
      invariant Walk(s, left).last == whole.last
      invariant iter + |Walk(s, left).visited| == |whole.visited|
      decreases left
    {
      pos, dir := StepImage(img, palette, turns, pos, dir, s);
      ghost var rest := left - 1;
      WalkUnfold(s, left, rest);
      s := Step(s);
      left := rest;
      iter := iter + 1;
    }
    WalkHalts(s, left);
  }
}
