/** The pure rules of Conway's Game of Life on a bounded grid (no wrap-around):
    neighbour counting, the B3/S23 cell rule and the synchronous generation step.
    The imperative engine in module Conway is proved against these definitions. */
module Rules {

  /** A board as rows of cells, indexed g[y][x]; a live cell holds 1, a dead one 0. */
  type Grid = seq<seq<int>>

  /** g has ysize rows of xsize cells each. */
  predicate IsGrid(g: Grid, ysize: nat, xsize: nat)
  {
    |g| == ysize && forall y :: 0 <= y < ysize ==> |g[y]| == xsize
  }

  /** Every cell holds 0 or 1. */
  predicate IsBinary(g: Grid)
  {
    forall y, x :: 0 <= y < |g| && 0 <= x < |g[y]| ==> g[y][x] == 0 || g[y][x] == 1
  }

  /** The bounds test of the engine: the position lies on the grid. */
  predicate InBounds(ysize: int, xsize: int, y: int, x: int)
  {
    0 <= y < ysize && 0 <= x < xsize
  }

  /** The eight neighbour offsets (dy, dx), in the order the counting loop visits them. */
  const Offsets: seq<(int, int)> := [(1, 0), (-1, 0), (0, -1), (0, 1), (-1, 1), (1, -1), (1, 1), (-1, -1)]

  /** The position (y, x) is on the grid and holds 1. The conjunction short-circuits:
      the cell is read only once the position is known to be in bounds. */
  predicate IsLive(g: Grid, ysize: nat, xsize: nat, y: int, x: int)
    requires IsGrid(g, ysize, xsize)
  {
    InBounds(ysize, xsize, y, x) && g[y][x] == 1
  }

  /** 1 when the neighbour of (y, x) at offset o is live, 0 otherwise. */
  function Hit(g: Grid, ysize: nat, xsize: nat, y: int, x: int, o: (int, int)): nat
    requires IsGrid(g, ysize, xsize)
  {
    if IsLive(g, ysize, xsize, y + o.0, x + o.1) then 1 else 0
  }

  /** The number of live positions among the offsets offs around (y, x). */
  function CountOver(g: Grid, ysize: nat, xsize: nat, y: int, x: int, offs: seq<(int, int)>): (n: nat)
    requires IsGrid(g, ysize, xsize)
    ensures n <= |offs|
  {
    if offs == [] then 0
    else CountOver(g, ysize, xsize, y, x, offs[..|offs| - 1]) + Hit(g, ysize, xsize, y, x, offs[|offs| - 1])
  }

  /** The live-neighbour count of the cell at (y, x). */
  function Count(g: Grid, ysize: nat, xsize: nat, y: int, x: int): (n: nat)
    requires IsGrid(g, ysize, xsize)
    ensures n <= 8
  {
    CountOver(g, ysize, xsize, y, x, Offsets)
  }

  /** The B3/S23 rule: a cell is live in the next generation when it has exactly
      three live neighbours, or when it is live now and has exactly two. */
  function Next(cell: int, n: int): (r: int)
    ensures r == 0 || r == 1
  {
    if n == 3 || (cell == 1 && n == 2) then 1 else 0
  }

  /** The next generation: every cell computed from the current generation only. */
  function Step(g: Grid, ysize: nat, xsize: nat): (r: Grid)
    requires IsGrid(g, ysize, xsize)
    ensures IsGrid(r, ysize, xsize) && IsBinary(r)
    ensures forall y, x :: 0 <= y < ysize && 0 <= x < xsize ==>
      r[y][x] == Next(g[y][x], Count(g, ysize, xsize, y, x))
  {
    seq(ysize, y requires 0 <= y < ysize =>
      seq(xsize, x requires 0 <= x < xsize => Next(g[y][x], Count(g, ysize, xsize, y, x))))
  }

  /** The grid of ysize rows of xsize dead cells. */
  function Empty(ysize: nat, xsize: nat): (r: Grid)
    ensures IsGrid(r, ysize, xsize) && IsBinary(r)
    ensures forall y, x :: 0 <= y < ysize && 0 <= x < xsize ==> r[y][x] == 0
  {
    seq(ysize, y => seq(xsize, x => 0))
  }

  /** Two grids of the same shape that agree on every cell are equal. */
  lemma GridExt(a: Grid, b: Grid, ysize: nat, xsize: nat)
    requires IsGrid(a, ysize, xsize) && IsGrid(b, ysize, xsize)
    requires forall y, x :: 0 <= y < ysize && 0 <= x < xsize ==> a[y][x] == b[y][x]
    ensures a == b
  {
    forall y | 0 <= y < ysize ensures a[y] == b[y] {
      assert forall x :: 0 <= x < xsize ==> a[y][x] == b[y][x];
    }
  }

  // ---------------------------------------------------------------------------
  // Neighbour counting

  /** The count is the sum of the eight neighbour tests, one per offset. */
  lemma CountUnfold(g: Grid, ysize: nat, xsize: nat, y: int, x: int)
    requires IsGrid(g, ysize, xsize)
    ensures Count(g, ysize, xsize, y, x) ==
      Hit(g, ysize, xsize, y, x, (1, 0)) + Hit(g, ysize, xsize, y, x, (-1, 0)) +
      Hit(g, ysize, xsize, y, x, (0, -1)) + Hit(g, ysize, xsize, y, x, (0, 1)) +
      Hit(g, ysize, xsize, y, x, (-1, 1)) + Hit(g, ysize, xsize, y, x, (1, -1)) +
      Hit(g, ysize, xsize, y, x, (1, 1)) + Hit(g, ysize, xsize, y, x, (-1, -1))
  {
    var o := Offsets;
    assert o[..0] == [];
    CountOverSnoc(g, ysize, xsize, y, x, o, 1);
    CountOverSnoc(g, ysize, xsize, y, x, o, 2);
    CountOverSnoc(g, ysize, xsize, y, x, o, 3);
    CountOverSnoc(g, ysize, xsize, y, x, o, 4);
    CountOverSnoc(g, ysize, xsize, y, x, o, 5);
    CountOverSnoc(g, ysize, xsize, y, x, o, 6);
    CountOverSnoc(g, ysize, xsize, y, x, o, 7);
    CountOverSnoc(g, ysize, xsize, y, x, o, 8);
    assert o[..8] == o;
  }

  /** Counting over one more offset adds that offset's test. */
  lemma CountOverSnoc(g: Grid, ysize: nat, xsize: nat, y: int, x: int, offs: seq<(int, int)>, k: nat)
    requires IsGrid(g, ysize, xsize) && 0 < k <= |offs|
    ensures CountOver(g, ysize, xsize, y, x, offs[..k]) ==
            CountOver(g, ysize, xsize, y, x, offs[..k - 1]) + Hit(g, ysize, xsize, y, x, offs[k - 1])
  {
    assert offs[..k][..k - 1] == offs[..k - 1];
  }

  /** The live neighbours of (y, x) as a set of positions: the in-bounds cells of
      the 3x3 window around (y, x), other than (y, x) itself, that hold 1. */
  ghost function LiveNeighbours(g: Grid, ysize: nat, xsize: nat, y: int, x: int): set<(int, int)>
    requires IsGrid(g, ysize, xsize)
  {
    set ny, nx | y - 1 <= ny <= y + 1 && x - 1 <= nx <= x + 1 && (ny != y || nx != x)
                 && IsLive(g, ysize, xsize, ny, nx) :: (ny, nx)
  }

  /** The live positions reached from (y, x) through the offsets offs. */
  ghost function HitSet(g: Grid, ysize: nat, xsize: nat, y: int, x: int, offs: seq<(int, int)>): set<(int, int)>
    requires IsGrid(g, ysize, xsize)
  {
    if offs == [] then {}
    else
      var o := offs[|offs| - 1];
      HitSet(g, ysize, xsize, y, x, offs[..|offs| - 1]) +
        (if IsLive(g, ysize, xsize, y + o.0, x + o.1) then {(y + o.0, x + o.1)} else {})
  }

  /** A position is in HitSet(offs) exactly when it is live and is reached from
      (y, x) through one of the offsets in offs. */
  lemma {:induction false} HitSetMembers(g: Grid, ysize: nat, xsize: nat, y: int, x: int, offs: seq<(int, int)>, p: (int, int))
    requires IsGrid(g, ysize, xsize)
    ensures p in HitSet(g, ysize, xsize, y, x, offs) <==>
            (p.0 - y, p.1 - x) in offs && IsLive(g, ysize, xsize, p.0, p.1)
  {
    if offs != [] {
      var init := offs[..|offs| - 1];
      HitSetMembers(g, ysize, xsize, y, x, init, p);
      assert offs == init + [offs[|offs| - 1]];
    }
  }

  /** With no repeated offset, HitSet has exactly as many positions as CountOver counts. */
  lemma {:induction false} HitSetSize(g: Grid, ysize: nat, xsize: nat, y: int, x: int, offs: seq<(int, int)>)
    requires IsGrid(g, ysize, xsize)
    requires forall i, j :: 0 <= i < j < |offs| ==> offs[i] != offs[j]
    ensures |HitSet(g, ysize, xsize, y, x, offs)| == CountOver(g, ysize, xsize, y, x, offs)
  {
    if offs != [] {
      var init, o := offs[..|offs| - 1], offs[|offs| - 1];
      HitSetSize(g, ysize, xsize, y, x, init);
      HitSetMembers(g, ysize, xsize, y, x, init, (y + o.0, x + o.1));
    }
  }

  /** The count counts exactly the live in-bounds neighbours: out-of-grid positions
      contribute nothing and the grid does not wrap around. */
  lemma CountIsLiveNeighbours(g: Grid, ysize: nat, xsize: nat, y: int, x: int)
    requires IsGrid(g, ysize, xsize)
    ensures Count(g, ysize, xsize, y, x) == |LiveNeighbours(g, ysize, xsize, y, x)|
  {
    HitSetSize(g, ysize, xsize, y, x, Offsets);
    var L, H := LiveNeighbours(g, ysize, xsize, y, x), HitSet(g, ysize, xsize, y, x, Offsets);
    forall p ensures p in L <==> p in H {
      HitSetMembers(g, ysize, xsize, y, x, Offsets, p);
    }
    assert L == H;
  }

  /** The corner cell (0, 0) of a grid at least 2x2 counts only its three in-bounds
      neighbours (1, 0), (0, 1) and (1, 1). */
  lemma CornerCount(g: Grid, ysize: nat, xsize: nat)
    requires IsGrid(g, ysize, xsize) && IsBinary(g) && ysize >= 2 && xsize >= 2
    ensures Count(g, ysize, xsize, 0, 0) == g[1][0] + g[0][1] + g[1][1]
  {
    CountUnfold(g, ysize, xsize, 0, 0);
  }

  /** A cell's count depends only on the eight cells around it: two grids that agree
      there give the same count. */
  lemma CountLocal(g: Grid, h: Grid, ysize: nat, xsize: nat, y: int, x: int)
    requires IsGrid(g, ysize, xsize) && IsGrid(h, ysize, xsize)
    requires forall i, j :: (InBounds(ysize, xsize, i, j) && y - 1 <= i <= y + 1 && x - 1 <= j <= x + 1 &&
                             (i != y || j != x)) ==> g[i][j] == h[i][j]
    ensures Count(g, ysize, xsize, y, x) == Count(h, ysize, xsize, y, x)
  {
    CountUnfold(g, ysize, xsize, y, x);
    CountUnfold(h, ysize, xsize, y, x);
  }

  // ---------------------------------------------------------------------------
  // The rule and the generation step

  /** The rule table: underpopulation, survival, overpopulation, birth and stasis. */
  lemma NextTable(n: int)
    ensures n < 2 ==> Next(1, n) == 0
    ensures n == 2 || n == 3 ==> Next(1, n) == 1
    ensures n > 3 ==> Next(1, n) == 0
    ensures Next(0, n) == 1 <==> n == 3
  {
  }

  /** A generation's cell depends only on the 3x3 window around it in the previous
      generation, never on a cell already computed for the new one. */
  lemma StepLocal(g: Grid, h: Grid, ysize: nat, xsize: nat, y: int, x: int)
    requires IsGrid(g, ysize, xsize) && IsGrid(h, ysize, xsize) && InBounds(ysize, xsize, y, x)
    requires forall i, j :: InBounds(ysize, xsize, i, j) && y - 1 <= i <= y + 1 && x - 1 <= j <= x + 1
                            ==> g[i][j] == h[i][j]
    ensures Step(g, ysize, xsize)[y][x] == Step(h, ysize, xsize)[y][x]
  {
    CountLocal(g, h, ysize, xsize, y, x);
  }

  /** On a dead grid every count is 0. */
  lemma CountEmpty(ysize: nat, xsize: nat, y: int, x: int)
    ensures Count(Empty(ysize, xsize), ysize, xsize, y, x) == 0
  {
    CountUnfold(Empty(ysize, xsize), ysize, xsize, y, x);
  }

  /** The dead grid is a fixed point of the step: nothing is born without three
      live neighbours. */
  lemma EmptyIsFixedPoint(ysize: nat, xsize: nat)
    ensures Step(Empty(ysize, xsize), ysize, xsize) == Empty(ysize, xsize)
  {
    var e := Empty(ysize, xsize);
    forall y, x | 0 <= y < ysize && 0 <= x < xsize ensures Step(e, ysize, xsize)[y][x] == e[y][x] {
      CountEmpty(ysize, xsize, y, x);
    }
    GridExt(Step(e, ysize, xsize), e, ysize, xsize);
  }

  /** A live cell whose in-bounds neighbours are all dead dies of underpopulation. */
  lemma IsolatedCellDies(g: Grid, ysize: nat, xsize: nat, y: int, x: int)
    requires IsGrid(g, ysize, xsize) && InBounds(ysize, xsize, y, x) && g[y][x] == 1
    requires forall i, j :: (InBounds(ysize, xsize, i, j) && y - 1 <= i <= y + 1 && x - 1 <= j <= x + 1
                             && (i != y || j != x)) ==> g[i][j] == 0
    ensures Count(g, ysize, xsize, y, x) == 0
    ensures Step(g, ysize, xsize)[y][x] == 0
  {
    CountUnfold(g, ysize, xsize, y, x);
  }
}
