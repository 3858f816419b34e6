/** The simulation engine: a game holds the current generation in `board` and a
    shadow buffer `tmpboard` of the same shape. A generation step applies the rule
    to every cell, reading only `board` and writing only `tmpboard`, and then makes
    a fresh copy of `tmpboard` the new `board`. */
module Conway {
  import opened Rules
  import Render

  /** The cells of a two-dimensional array as a grid value. */
  function Cells(a: array2<int>): (g: Grid)
    reads a
    ensures IsGrid(g, a.Length0, a.Length1)
    ensures forall y, x :: 0 <= y < a.Length0 && 0 <= x < a.Length1 ==> g[y][x] == a[y, x]
  {
    seq(a.Length0, y reads a requires 0 <= y < a.Length0 =>
      seq(a.Length1, x reads a requires 0 <= x < a.Length1 => a[y, x]))
  }

  /** A deep copy: a new array of the same shape holding the same cells. */
  method DeepCopy(a: array2<int>) returns (b: array2<int>)
    ensures fresh(b)
    ensures b.Length0 == a.Length0 && b.Length1 == a.Length1
    ensures Cells(b) == Cells(a)
  {
    b := new int[a.Length0, a.Length1];
    var y := 0;
    while y < a.Length0
      invariant 0 <= y <= a.Length0
      invariant forall i, j :: 0 <= i < y && 0 <= j < a.Length1 ==> b[i, j] == a[i, j]
    {
      var x := 0;
      while x < a.Length1
        invariant 0 <= x <= a.Length1
        invariant forall i, j :: 0 <= i < y && 0 <= j < a.Length1 ==> b[i, j] == a[i, j]
        invariant forall j :: 0 <= j < x ==> b[y, j] == a[y, j]
      {
        b[y, x] := a[y, x];
        x := x + 1;
      }
      y := y + 1;
    }
    GridExt(Cells(b), Cells(a), a.Length0, a.Length1);
  }

  class Game {
    const xsize: nat
    const ysize: nat
    var board: array2<int>
    var tmpboard: array2<int>

    /** Both buffers have ysize rows of xsize cells, and they are distinct arrays. */
    ghost predicate Shaped()
      reads this
    {
      board.Length0 == ysize && board.Length1 == xsize &&
      tmpboard.Length0 == ysize && tmpboard.Length1 == xsize &&
      board != tmpboard
    }

    /** Between steps: every cell is 0 or 1 and the shadow buffer equals the board. */
    ghost predicate Valid()
      reads this, board, tmpboard
    {
      Shaped() &&
      (forall y, x :: 0 <= y < ysize && 0 <= x < xsize ==> board[y, x] == 0 || board[y, x] == 1) &&
      (forall y, x :: 0 <= y < ysize && 0 <= x < xsize ==> tmpboard[y, x] == board[y, x])
    }

    /** A game over the caller's board, which it keeps (not a copy); the shadow
        buffer starts as a deep copy of it. */
    constructor (xsize: nat, ysize: nat, initialboard: array2<int>)
      requires initialboard.Length0 == ysize && initialboard.Length1 == xsize
      requires IsBinary(Cells(initialboard))
      ensures Valid()
      ensures this.xsize == xsize && this.ysize == ysize
      ensures board == initialboard && fresh(tmpboard)
      ensures Cells(board) == old(Cells(initialboard))
    {
      var copy := DeepCopy(initialboard);
      this.xsize, this.ysize := xsize, ysize;
      board, tmpboard := initialboard, copy;
    }

    /** The live-neighbour count of the cell at (y, x) of the board. */
    method CountNeighbours(y: int, x: int) returns (n: nat)
      requires board.Length0 == ysize && board.Length1 == xsize
      requires InBounds(ysize, xsize, y, x)
      ensures n == Count(Cells(board), ysize, xsize, y, x)
      ensures n == |LiveNeighbours(Cells(board), ysize, xsize, y, x)|
    {
      ghost var g := Cells(board);
      n := 0;
      var i := 0;
      while i < |Offsets|
        invariant 0 <= i <= |Offsets|
        invariant n == CountOver(g, ysize, xsize, y, x, Offsets[..i])
      {
        var cury, curx := y + Offsets[i].0, x + Offsets[i].1;
        if InBounds(ysize, xsize, cury, curx) && board[cury, curx] == 1 {
          n := n + 1;
        }
        CountOverSnoc(g, ysize, xsize, y, x, Offsets, i + 1);
        i := i + 1;
      }
      assert Offsets[..|Offsets|] == Offsets;
      CountIsLiveNeighbours(g, ysize, xsize, y, x);
    }

    /** Applies the rule to the cell at (y, x): reads the board, and writes the
        shadow cell at (y, x) only when the rule changes the cell. */
    method UpdateOne(y: int, x: int)
      requires Shaped()
      requires InBounds(ysize, xsize, y, x)
      modifies tmpboard
      ensures unchanged(board)
      ensures forall i, j :: 0 <= i < ysize && 0 <= j < xsize && (i != y || j != x) ==>
        tmpboard[i, j] == old(tmpboard[i, j])
      ensures var n := Count(Cells(board), ysize, xsize, y, x);
        if board[y, x] == 1 then
          tmpboard[y, x] == (if n < 2 || n > 3 then 0 else old(tmpboard[y, x]))
        else
          tmpboard[y, x] == (if n == 3 then 1 else old(tmpboard[y, x]))
    {
      var n := CountNeighbours(y, x);
      if board[y, x] == 1 {
        if n < 2 || n > 3 {
          tmpboard[y, x] := 0;
        }
      } else {
        if n == 3 {
          tmpboard[y, x] := 1;
        }
      }
    }

    /** One generation: the new board is the step of the old one, computed
        synchronously, and the shadow buffer again equals the board. */
    method UpdateAll()
      requires Valid()
      modifies this`board, tmpboard
      ensures Valid()
      ensures fresh(board) && tmpboard == old(tmpboard)
      ensures Cells(board) == Step(old(Cells(board)), ysize, xsize)
    {
      ghost var g := Cells(board);
      var y := 0;
      while y < ysize
        invariant 0 <= y <= ysize
        invariant board == old(board) && Shaped() && Cells(board) == g
        invariant forall i, j :: 0 <= i < y && 0 <= j < xsize ==>
          tmpboard[i, j] == Next(g[i][j], Count(g, ysize, xsize, i, j))
        invariant forall i, j :: y <= i < ysize && 0 <= j < xsize ==> tmpboard[i, j] == g[i][j]
      {
        var x := 0;
        while x < xsize
          invariant 0 <= x <= xsize
          invariant board == old(board) && Shaped() && Cells(board) == g
          invariant forall i, j :: 0 <= i < y && 0 <= j < xsize ==>
            tmpboard[i, j] == Next(g[i][j], Count(g, ysize, xsize, i, j))
          invariant forall j :: 0 <= j < x ==> tmpboard[y, j] == Next(g[y][j], Count(g, ysize, xsize, y, j))
          invariant forall i, j :: y <= i < ysize && 0 <= j < xsize && (i != y || j >= x) ==>
            tmpboard[i, j] == g[i][j]
        {
          UpdateOne(y, x);
          x := x + 1;
        }
        y := y + 1;
      }
      board := DeepCopy(tmpboard);
      GridExt(Cells(board), Step(g, ysize, xsize), ysize, xsize);
    }

    /** The frame of the current board, as the renderer draws it. */
    method Draw() returns (frame: string)
      ensures frame == Render.Frame(Cells(board))
    {
      ghost var g := Cells(board);
      var out: seq<string> := [];
      var y := 0;
      while y < board.Length0
        invariant 0 <= y <= board.Length0
        invariant out == Render.RowsText(g[..y])
      {
        var outln: string := [];
        var x := 0;
        while x < board.Length1
          invariant 0 <= x <= board.Length1
          invariant outln == Render.RowText(g[y][..x])
        {
          if board[y, x] == 0 {
            outln := outln + [' '];
          } else {
            outln := outln + ['x'];
          }
          assert g[y][..x + 1][..x] == g[y][..x];
          x := x + 1;
        }
        assert g[y][..x] == g[y];
        out := out + [outln];
        assert g[..y + 1][..y] == g[..y];
        y := y + 1;
      }
      assert g[..y] == g;
      frame := Render.Join(out);
    }
  }
}
