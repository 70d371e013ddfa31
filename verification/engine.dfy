/** The simulation as a pure state machine: the index grid, the ant's
    position and heading, one step of the ant, and a run of steps that ends
    when the ant leaves the grid (or a step budget is used up). */
module Engine {
  import opened Headings
  import opened Tables

  const Width: nat := 512
  const Height: nat := 512

  datatype Point = Point(x: int, y: int)

  /** The grid rectangle [0, Width) x [0, Height), as pos.In(bounds) tests it. */
  predicate InBounds(p: Point)
  {
    0 <= p.x < Width && 0 <= p.y < Height
  }

  /** One unit in the given heading: up is y - 1, right x + 1, down y + 1,
      left x - 1. */
  function Move(p: Point, d: Heading): (q: Point)
  {
    match d
    case Up => Point(p.x, p.y - 1)
    case Rt => Point(p.x + 1, p.y)
    case Dn => Point(p.x, p.y + 1)
    case Lt => Point(p.x - 1, p.y)
  }

  function Abs(n: int): (a: nat)
  {
    if n < 0 then -n else n
  }

  /** A move changes exactly one coordinate, by exactly one. */
  lemma MoveIsUnit(p: Point, d: Heading)
    ensures Abs(Move(p, d).x - p.x) + Abs(Move(p, d).y - p.y) == 1
  {
  }

  /** Moving after a half turn undoes a move. */
  lemma MoveBackReturns(p: Point, d: Heading)
    ensures Move(Move(p, d), TurnBack(d)) == p
  {
  }

  /** The colour indices of the grid, column by column: g[x][y] is the index
      of the cell at (x, y). */
  type Grid = seq<seq<int>>

  ghost predicate WellFormed(g: Grid)
  {
    && |g| == Width
    && forall x :: 0 <= x < Width ==>
         |g[x]| == Height && forall y :: 0 <= y < Height ==> 0 <= g[x][y] < PaletteSize
  }

  /** The state main keeps in img, pos and dir. */
  datatype State = State(grid: Grid, pos: Point, dir: Heading)

  /** The state before the first step: every cell holds index 0, the ant
      stands at the centre and heads left. */
  ghost function Initial(): (s: State)
    ensures WellFormed(s.grid) && InBounds(s.pos) && s.dir == Lt
    ensures s.pos == Point(Width / 2, Height / 2)
    ensures forall x, y :: 0 <= x < Width && 0 <= y < Height ==> s.grid[x][y] == 0
  {
    State(seq(Width, x => seq(Height, y => 0)), Point(Width / 2, Height / 2), Lt)
  }

  /** One step on an in-bounds position: advance the current cell's index by
      one modulo the palette size, turn by the rule of the index the cell held
      before, and move one unit in the new heading. */
  ghost function Step(s: State): (t: State)
    requires WellFormed(s.grid) && InBounds(s.pos)
    ensures WellFormed(t.grid)
  {
    var i := s.grid[s.pos.x][s.pos.y];
    var d := Apply(RuleFor(i), s.dir);
    State(s.grid[s.pos.x := s.grid[s.pos.x][s.pos.y := (i + 1) % PaletteSize]], Move(s.pos, d), d)
  }

  /** What a step does: the cell under the ant advances by one modulo the
      palette size and every other cell keeps its index; the ant turns right
      on an index that is 0 or 3 modulo 4 and left otherwise, and moves one
      unit in the new heading. */
  lemma StepSpec(s: State)
    requires WellFormed(s.grid) && InBounds(s.pos)
    ensures Step(s).grid[s.pos.x][s.pos.y] == (s.grid[s.pos.x][s.pos.y] + 1) % PaletteSize
    ensures forall x, y :: 0 <= x < Width && 0 <= y < Height && Point(x, y) != s.pos ==>
              Step(s).grid[x][y] == s.grid[x][y]
    ensures var i := s.grid[s.pos.x][s.pos.y];
            Step(s).dir == if i % 4 == 0 || i % 4 == 3 then TurnRight(s.dir) else TurnLeft(s.dir)
    ensures Step(s).pos == Move(s.pos, Step(s).dir)
    ensures Abs(Step(s).pos.x - s.pos.x) + Abs(Step(s).pos.y - s.pos.y) == 1
  {
    MoveIsUnit(s.pos, Step(s).dir);
  }

  /** Advancing a palette index by one, modulo the palette size, is injective. */
  lemma NextIndexInjective(i: int, j: int)
    requires 0 <= i < PaletteSize && 0 <= j < PaletteSize
    requires (i + 1) % PaletteSize == (j + 1) % PaletteSize
    ensures i == j
  {
  }

  /** The step is reversible: two states that step to the same state are equal. */
  lemma StepInjective(s: State, s': State)
    requires WellFormed(s.grid) && InBounds(s.pos)
    requires WellFormed(s'.grid) && InBounds(s'.pos)
    requires Step(s) == Step(s')
    ensures s == s'
  {
    var t := Step(s);
    StepSpec(s);
    StepSpec(s');
    MoveBackReturns(s.pos, t.dir);
    MoveBackReturns(s'.pos, t.dir);
    assert s.pos == s'.pos;
    var p := s.pos;
    var i, i' := s.grid[p.x][p.y], s'.grid[p.x][p.y];
    NextIndexInjective(i, i');
    ApplyInjective(RuleFor(i), s.dir, s'.dir);
    forall x | 0 <= x < Width
      ensures s.grid[x] == s'.grid[x]
    {
      assert |s.grid[x]| == |s'.grid[x]| == Height;
      forall y | 0 <= y < Height
        ensures s.grid[x][y] == s'.grid[x][y]
      {
        if Point(x, y) != p {
          assert t.grid[x][y] == s.grid[x][y];
          assert Step(s').grid[x][y] == s'.grid[x][y];
        }
      }
    }
    assert s.grid == s'.grid;
  }

  /** The index of any cell after a step, counting whether the ant stood on it. */
  lemma StepCell(s: State, x: int, y: int)
    requires WellFormed(s.grid) && InBounds(s.pos)
    requires 0 <= x < Width && 0 <= y < Height
    ensures Step(s).grid[x][y]
            == (s.grid[x][y] + if s.pos == Point(x, y) then 1 else 0) % PaletteSize
  {
    StepSpec(s);
    if s.pos != Point(x, y) {
      assert 0 <= s.grid[x][y] < PaletteSize;
    }
  }

  /** The end of a run, and the positions of the cells it stepped on, in order. */
  datatype Trace = Trace(last: State, visited: seq<Point>)

  /** Repeats Step while the ant is in bounds, at most fuel times. The number
      of steps taken is |visited|. A run stops early only when the ant has
      left the grid, and every cell it stepped on is inside the grid. */
  ghost function Walk(s: State, fuel: nat): (r: Trace)
    requires WellFormed(s.grid)
    ensures WellFormed(r.last.grid)
    ensures |r.visited| <= fuel
    ensures |r.visited| < fuel ==> !InBounds(r.last.pos)
    ensures forall k :: 0 <= k < |r.visited| ==> InBounds(r.visited[k])
    decreases fuel
  {
    if fuel == 0 || !InBounds(s.pos) then Trace(s, [])
    else
      var r := Walk(Step(s), fuel - 1);
      Trace(r.last, [s.pos] + r.visited)
  }

  /** A run from an in-bounds state with fuel left is one step followed by a
      run with one unit of fuel less. */
  lemma WalkUnfold(s: State, fuel: nat, rest: nat)
    requires WellFormed(s.grid) && InBounds(s.pos) && fuel == rest + 1
    ensures Walk(s, fuel).last == Walk(Step(s), rest).last
    ensures Walk(s, fuel).visited == [s.pos] + Walk(Step(s), rest).visited
  {
  }

  /** A run from an out-of-bounds state, or with no fuel, takes no step. */
  lemma WalkHalts(s: State, fuel: nat)
    requires WellFormed(s.grid) && (fuel == 0 || !InBounds(s.pos))
    ensures Walk(s, fuel) == Trace(s, [])
  {
  }

  /** The k-th cell stepped on is where the ant stands after k steps. */
  lemma {:induction false} VisitedArePositions(s: State, fuel: nat, k: nat)
    requires WellFormed(s.grid)
    requires k < |Walk(s, fuel).visited|
    ensures k < fuel
    ensures Walk(s, fuel).visited[k] == Walk(s, k).last.pos
    decreases fuel
  {
    if fuel == 0 || !InBounds(s.pos) {
      WalkHalts(s, fuel);
    } else {
      WalkUnfold(s, fuel, fuel - 1);
      if k == 0 {
        WalkHalts(s, 0);
      } else {
        VisitedArePositions(Step(s), fuel - 1, k - 1);
        WalkUnfold(s, k, k - 1);
      }
    }
  }

  /** How many times p occurs in ps. */
  function Count(ps: seq<Point>, p: Point): (n: nat)
    ensures n <= |ps|
  {
    if ps == [] then 0
    else (if ps[0] == p then 1 else 0) + Count(ps[1..], p)
  }

  lemma CountCons(p: Point, ps: seq<Point>, q: Point)
    ensures Count([p] + ps, q) == (if p == q then 1 else 0) + Count(ps, q)
  {
    assert ([p] + ps)[1..] == ps;
  }

  /** A point that does not occur in a sequence occurs zero times in it. */
  lemma {:induction false} CountAbsent(ps: seq<Point>, p: Point)
    requires p !in ps
    ensures Count(ps, p) == 0
  {
    if ps != [] {
      assert p != ps[0];
      CountAbsent(ps[1..], p);
    }
  }

  lemma ModAddLeft(a: int, b: int, sum: int)
    requires sum == a + b
    ensures ((a % PaletteSize) + b) % PaletteSize == sum % PaletteSize
  {
    var q := a / PaletteSize;
    assert a + b == (a % PaletteSize + b) + q * PaletteSize;
  }

  /** After a run every cell in bounds holds its starting index advanced by the
      number of times the ant stepped on it, modulo the palette size. */
  lemma {:induction false} WalkAdvancesVisitedCells(s: State, fuel: nat, x: int, y: int)
    requires WellFormed(s.grid)
    requires 0 <= x < Width && 0 <= y < Height
    ensures Walk(s, fuel).last.grid[x][y]
            == (s.grid[x][y] + Count(Walk(s, fuel).visited, Point(x, y))) % PaletteSize
    decreases fuel
  {
    if fuel == 0 || !InBounds(s.pos) {
      WalkHalts(s, fuel);
    } else {
      var t, rest := Step(s), fuel - 1;
      var r := Walk(t, rest);
      var hit := if s.pos == Point(x, y) then 1 else 0;
      var c := Count(r.visited, Point(x, y));
      WalkUnfold(s, fuel, rest);
      CountCons(s.pos, r.visited, Point(x, y));
      StepCell(s, x, y);
      WalkAdvancesVisitedCells(t, rest, x, y);
      ModAddLeft(s.grid[x][y] + hit, c, s.grid[x][y] + Count(Walk(s, fuel).visited, Point(x, y)));
    }
  }

  /** A cell the ant never stepped on keeps its index. */
  lemma UnvisitedUnchanged(s: State, fuel: nat, x: int, y: int)
    requires WellFormed(s.grid)
    requires 0 <= x < Width && 0 <= y < Height
    requires Point(x, y) !in Walk(s, fuel).visited
    ensures Walk(s, fuel).last.grid[x][y] == s.grid[x][y]
  {
    CountAbsent(Walk(s, fuel).visited, Point(x, y));
    WalkAdvancesVisitedCells(s, fuel, x, y);
  }

  /** A cell the ant stepped on a multiple of PaletteSize times is back at
      its starting index. */
  lemma FullCyclesRestore(s: State, fuel: nat, x: int, y: int)
    requires WellFormed(s.grid)
    requires 0 <= x < Width && 0 <= y < Height
    requires Count(Walk(s, fuel).visited, Point(x, y)) % PaletteSize == 0
    ensures Walk(s, fuel).last.grid[x][y] == s.grid[x][y]
  {
    var n := Count(Walk(s, fuel).visited, Point(x, y));
    WalkAdvancesVisitedCells(s, fuel, x, y);
    ModAddLeft(n, s.grid[x][y], s.grid[x][y] + n);
  }

  /** The first five steps from the initial state. Index 0 turns right, so
      the ant goes round a square (up, right, down) and is back at the centre
      heading left after four steps. The centre now holds index 1, whose rule
      turns left: the fifth step heads down and leaves index 2 behind. */
  lemma FirstFiveSteps()
    ensures |Walk(Initial(), 5).visited| == 5
    ensures Walk(Initial(), 5).visited[4] == Point(256, 256)
    ensures Walk(Initial(), 5).last.pos == Point(256, 257)
    ensures Walk(Initial(), 5).last.dir == Dn
    ensures Walk(Initial(), 5).last.grid[256][256] == 2
    ensures Walk(Initial(), 5).last.grid[257][255] == 1
  {
    var s0 := Initial();
    var s1 := Step(s0);
    assert s1.pos == Point(256, 255) && s1.dir == Up;
    var s2 := Step(s1);
    assert s2.pos == Point(257, 255) && s2.dir == Rt;
    var s3 := Step(s2);
    assert s3.pos == Point(257, 256) && s3.dir == Dn;
    var s4 := Step(s3);
    assert s4.pos == Point(256, 256) && s4.dir == Lt;
    var s5 := Step(s4);
    assert s5.pos == Point(256, 257) && s5.dir == Dn;
    assert s5.grid[256][256] == 2 && s5.grid[257][255] == 1;
    WalkHalts(s5, 0);
    WalkUnfold(s4, 1, 0);
    WalkUnfold(s3, 2, 1);
    WalkUnfold(s2, 3, 2);
    WalkUnfold(s1, 4, 3);
    WalkUnfold(s0, 5, 4);
    WalkHalts(s4, 0);
    WalkUnfold(s3, 1, 0);
    WalkUnfold(s2, 2, 1);
    WalkUnfold(s1, 3, 2);
    WalkUnfold(s0, 4, 3);
    VisitedArePositions(s0, 5, 4);
  }
}
