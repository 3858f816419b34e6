/** The glider of the 20x20 demonstration board: after four generations the same
    five-cell shape stands one row down and one column right, with no wrap-around. */
module Glider {
  import opened Rules
  import Conway

  /** The 20x20 grid whose live cells are exactly the positions where live holds. */
  function FromLive(live: (int, int) -> bool): (g: Grid)
    ensures IsGrid(g, 20, 20) && IsBinary(g)
    ensures forall y, x :: 0 <= y < 20 && 0 <= x < 20 ==> g[y][x] == if live(y, x) then 1 else 0
  {
    seq(20, y => seq(20, x => if live(y, x) then 1 else 0))
  }

  /** The positions of live moved by dy rows and dx columns. */
  function Shift(live: (int, int) -> bool, dy: int, dx: int): (int, int) -> bool
  {
    (y, x) => live(y - dy, x - dx)
  }

  /** The live cells of the demonstration board and of its next four generations. */
  predicate Phase0(y: int, x: int)
  {
    (y == 1 && x == 4) || (y == 2 && x == 2) || (y == 2 && x == 4) || (y == 3 && x == 3) || (y == 3 && x == 4)
  }

  predicate Phase1(y: int, x: int)
  {
    (y == 1 && x == 3) || (y == 2 && x == 4) || (y == 2 && x == 5) || (y == 3 && x == 3) || (y == 3 && x == 4)
  }

  predicate Phase2(y: int, x: int)
  {
    (y == 1 && x == 4) || (y == 2 && x == 5) || (y == 3 && x == 3) || (y == 3 && x == 4) || (y == 3 && x == 5)
  }

  predicate Phase3(y: int, x: int)
  {
    (y == 2 && x == 3) || (y == 2 && x == 5) || (y == 3 && x == 4) || (y == 3 && x == 5) || (y == 4 && x == 4)
  }

  predicate Phase4(y: int, x: int)
  {
    (y == 2 && x == 5) || (y == 3 && x == 3) || (y == 3 && x == 5) || (y == 4 && x == 4) || (y == 4 && x == 5)
  }

  /** The demonstration board, row by row. */
  function Board(): (g: Grid)
    ensures IsGrid(g, 20, 20) && IsBinary(g)
  {
    var zero := seq(20, x => 0);
    [zero,
     zero[4 := 1],
     zero[2 := 1][4 := 1],
     zero[3 := 1][4 := 1]] + seq(16, y => zero)
  }

  /** The demonstration board holds exactly the glider's five cells. */
  lemma BoardIsPhase0()
    ensures Board() == FromLive(Phase0)
  {
    var b, f := Board(), FromLive(Phase0);
    forall y, x | 0 <= y < 20 && 0 <= x < 20 ensures b[y][x] == f[y][x] {
      if y >= 4 {
        assert b[y] == seq(20, x => 0);
      }
    }
    GridExt(b, f, 20, 20);
  }

  /** 1 when (y, x) is on the board and live holds there, 0 otherwise. */
  function LiveAt(live: (int, int) -> bool, y: int, x: int): nat
  {
    if InBounds(20, 20, y, x) && live(y, x) then 1 else 0
  }

  /** The live-neighbour count of (y, x), read off live: one term per offset. This is
      Count specialised to the 20x20 board, written on live directly so that the
      glider proofs need not unfold the grid; CountFromLive proves the two equal. */
  function CountLive(live: (int, int) -> bool, y: int, x: int): nat
  {
    LiveAt(live, y + 1, x) + LiveAt(live, y - 1, x) + LiveAt(live, y, x - 1) + LiveAt(live, y, x + 1) +
    LiveAt(live, y - 1, x + 1) + LiveAt(live, y + 1, x - 1) + LiveAt(live, y + 1, x + 1) + LiveAt(live, y - 1, x - 1)
  }

  /** One neighbour test on the grid built from live is the test read off live. */
  lemma HitFromLive(live: (int, int) -> bool, y: int, x: int, o: (int, int))
    ensures Hit(FromLive(live), 20, 20, y, x, o) == LiveAt(live, y + o.0, x + o.1)
  {
  }

  /** On a grid built from live, the count is the count read off live. */
  lemma CountFromLive(live: (int, int) -> bool, y: int, x: int)
    ensures Count(FromLive(live), 20, 20, y, x) == CountLive(live, y, x)
  {
    CountUnfold(FromLive(live), 20, 20, y, x);
    HitFromLive(live, y, x, (1, 0));
    HitFromLive(live, y, x, (-1, 0));
    HitFromLive(live, y, x, (0, -1));
    HitFromLive(live, y, x, (0, 1));
    HitFromLive(live, y, x, (-1, 1));
    HitFromLive(live, y, x, (1, -1));
    HitFromLive(live, y, x, (1, 1));
    HitFromLive(live, y, x, (-1, -1));
  }

  /** One generation takes the grid of `from` to the grid of `to`, provided every
      cell follows the rule when counted off `from`. */
  lemma StepBetween(from: (int, int) -> bool, to: (int, int) -> bool)
    requires forall y, x :: 0 <= y < 20 && 0 <= x < 20 ==>
      Next(LiveAt(from, y, x), CountLive(from, y, x)) == LiveAt(to, y, x)
    ensures Step(FromLive(from), 20, 20) == FromLive(to)
  {
    var g := FromLive(from);
    forall y, x | 0 <= y < 20 && 0 <= x < 20 ensures Step(g, 20, 20)[y][x] == FromLive(to)[y][x] {
      StepFromLive(from, y, x);
    }
    GridExt(Step(g, 20, 20), FromLive(to), 20, 20);
  }

  /** A cell of the next generation, counted off live. */
  lemma StepFromLive(live: (int, int) -> bool, y: int, x: int)
    requires 0 <= y < 20 && 0 <= x < 20
    ensures Step(FromLive(live), 20, 20)[y][x] == Next(LiveAt(live, y, x), CountLive(live, y, x))
  {
    CountFromLive(live, y, x);
  }

  /** Every cell of generation 0 follows the rule into generation 1. */
  lemma Rule0(y: int, x: int)
    requires 0 <= y < 20 && 0 <= x < 20
    ensures Next(LiveAt(Phase0, y, x), CountLive(Phase0, y, x)) == LiveAt(Phase1, y, x)
  {
  }

  /** Generation 0 of the glider steps to generation 1. */
  lemma Step0()
    ensures Step(FromLive(Phase0), 20, 20) == FromLive(Phase1)
  {
    forall y, x | 0 <= y < 20 && 0 <= x < 20
      ensures Next(LiveAt(Phase0, y, x), CountLive(Phase0, y, x)) == LiveAt(Phase1, y, x)
    {
      Rule0(y, x);
    }
    StepBetween(Phase0, Phase1);
  }

  /** Every cell of generation 1 follows the rule into generation 2. */
  lemma Rule1(y: int, x: int)
    requires 0 <= y < 20 && 0 <= x < 20
    ensures Next(LiveAt(Phase1, y, x), CountLive(Phase1, y, x)) == LiveAt(Phase2, y, x)
  {
  }

  /** Generation 1 of the glider steps to generation 2. */
  lemma Step1()
    ensures Step(FromLive(Phase1), 20, 20) == FromLive(Phase2)
  {
    forall y, x | 0 <= y < 20 && 0 <= x < 20
      ensures Next(LiveAt(Phase1, y, x), CountLive(Phase1, y, x)) == LiveAt(Phase2, y, x)
    {
      Rule1(y, x);
    }
    StepBetween(Phase1, Phase2);
  }

  /** Every cell of generation 2 follows the rule into generation 3. */
  lemma Rule2(y: int, x: int)
    requires 0 <= y < 20 && 0 <= x < 20
    ensures Next(LiveAt(Phase2, y, x), CountLive(Phase2, y, x)) == LiveAt(Phase3, y, x)
  {
  }

  /** Generation 2 of the glider steps to generation 3. */
  lemma Step2()
    ensures Step(FromLive(Phase2), 20, 20) == FromLive(Phase3)
  {
    forall y, x | 0 <= y < 20 && 0 <= x < 20
      ensures Next(LiveAt(Phase2, y, x), CountLive(Phase2, y, x)) == LiveAt(Phase3, y, x)
    {
      Rule2(y, x);
    }
    StepBetween(Phase2, Phase3);
  }

  /** Every cell of generation 3 follows the rule into generation 4. */
  lemma Rule3(y: int, x: int)
    requires 0 <= y < 20 && 0 <= x < 20
    ensures Next(LiveAt(Phase3, y, x), CountLive(Phase3, y, x)) == LiveAt(Phase4, y, x)
  {
  }

  /** Generation 3 of the glider steps to generation 4. */
  lemma Step3()
    ensures Step(FromLive(Phase3), 20, 20) == FromLive(Phase4)
  {
    forall y, x | 0 <= y < 20 && 0 <= x < 20
      ensures Next(LiveAt(Phase3, y, x), CountLive(Phase3, y, x)) == LiveAt(Phase4, y, x)
    {
      Rule3(y, x);
    }
    StepBetween(Phase3, Phase4);
  }

  /** The glider invariant on the demonstration board: four generations later the
      live cells are the initial ones moved by one row and one column. */
  lemma GliderTranslates()
    ensures Step(Step(Step(Step(Board(), 20, 20), 20, 20), 20, 20), 20, 20) == FromLive(Shift(Phase0, 1, 1))
  {
    BoardIsPhase0();
    Step0();
    Step1();
    Step2();
    Step3();
    ShiftedIsPhase4();
  }

  /** Generation 4 is generation 0 moved by one row and one column. */
  lemma ShiftedIsPhase4()
    ensures FromLive(Phase4) == FromLive(Shift(Phase0, 1, 1))
  {
    GridExt(FromLive(Phase4), FromLive(Shift(Phase0, 1, 1)), 20, 20);
  }

  /** A game over the demonstration board, the shadow buffer a copy of it. */
  method GliderGame() returns (game: Conway.Game)
    ensures fresh(game) && fresh(game.board) && fresh(game.tmpboard) && game.Valid()
    ensures game.xsize == 20 && game.ysize == 20
    ensures Conway.Cells(game.board) == Board()
  {
    var g := Board();
    var b := new int[20, 20]((y, x) requires 0 <= y < 20 && 0 <= x < 20 => g[y][x]);
    GridExt(Conway.Cells(b), g, 20, 20);
    game := new Conway.Game(20, 20, b);
  }

  /** Four generations of the engine move the glider by one row and one column. */
  method RunGlider() returns (game: Conway.Game)
    ensures game.xsize == 20 && game.ysize == 20 && game.Valid()
    ensures Conway.Cells(game.board) == FromLive(Shift(Phase0, 1, 1))
    ensures Conway.Cells(game.board) == Step(Step(Step(Step(Board(), 20, 20), 20, 20), 20, 20), 20, 20)
  {
    game := GliderGame();
    game.UpdateAll();
    game.UpdateAll();
    game.UpdateAll();
    game.UpdateAll();
    GliderTranslates();
  }
}
