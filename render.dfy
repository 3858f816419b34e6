/** The text frame of one generation: a dead cell is drawn as ' ', any other cell
    as 'x', one line per row, the lines joined by '\n'. */
module Render {
  import opened Rules

  /** The character drawn for one cell: blank exactly for a dead cell. */
  function Glyph(cell: int): (c: char)
    ensures c == ' ' || c == 'x'
    ensures c == ' ' <==> cell == 0
  {
    if cell == 0 then ' ' else 'x'
  }

  /** The line drawn for one row. */
  function RowText(row: seq<int>): (t: string)
    ensures |t| == |row|
    ensures forall i :: 0 <= i < |row| ==> t[i] == Glyph(row[i])
    ensures '\n' !in t
  {
    if row == [] then "" else RowText(row[..|row| - 1]) + [Glyph(row[|row| - 1])]
  }

  /** The lines drawn for the rows of g, in order. */
  function RowsText(g: Grid): (ls: seq<string>)
    ensures |ls| == |g|
    ensures forall y :: 0 <= y < |g| ==> ls[y] == RowText(g[y])
  {
    if g == [] then [] else RowsText(g[..|g| - 1]) + [RowText(g[|g| - 1])]
  }

  /** The lines joined with '\n' between consecutive ones (no trailing newline):
      the text starts with the first line and ends with the last. */
  function Join(ls: seq<string>): (s: string)
    ensures |ls| == 0 ==> s == ""
    ensures |ls| >= 1 ==> ls[0] <= s
    ensures |ls| >= 1 ==> |ls[|ls| - 1]| <= |s| && s[|s| - |ls[|ls| - 1]|..] == ls[|ls| - 1]
  {
    if |ls| == 0 then ""
    else if |ls| == 1 then ls[0]
    else ls[0] + "\n" + Join(ls[1..])
  }

  /** When no line holds a newline, the joined text holds exactly one newline
      fewer than there are lines: one between each consecutive pair. */
  lemma {:induction false} JoinNewlines(ls: seq<string>)
    requires |ls| >= 1
    requires forall i :: 0 <= i < |ls| ==> '\n' !in ls[i]
    ensures multiset(Join(ls))['\n'] == |ls| - 1
  {
    assert '\n' !in multiset(ls[0]);
    if |ls| >= 2 {
      JoinNewlines(ls[1..]);
      assert multiset(Join(ls)) == multiset(ls[0]) + multiset("\n") + multiset(Join(ls[1..]));
    }
  }

  /** The frame of g: empty for a grid with no rows, and otherwise a text whose
      lines, cut at the newlines, are the lines of the rows. */
  function Frame(g: Grid): (s: string)
    ensures |g| == 0 ==> s == ""
    ensures |g| >= 1 ==> Lines(s) == RowsText(g)
  {
    if |g| >= 1 then LinesJoin(RowsText(g)); Join(RowsText(g)) else Join(RowsText(g))
  }

  /** The text s cut at every '\n' (so an empty text is one empty line). */
  function Lines(s: string): (ls: seq<string>)
    ensures |ls| >= 1
  {
    if s == [] then [[]]
    else
      var rest := Lines(s[1..]);
      if s[0] == '\n' then [[]] + rest else [[s[0]] + rest[0]] + rest[1..]
  }

  /** Text without a newline in front of t only extends the first line of t. */
  lemma {:induction false} LinesPrefix(l: string, t: string)
    requires '\n' !in l
    ensures Lines(l + t) == [l + Lines(t)[0]] + Lines(t)[1..]
  {
    if l != [] {
      LinesPrefix(l[1..], t);
      var ls := Lines(t);
      assert (l + t)[0] == l[0] && (l + t)[1..] == l[1..] + t;
      var rest := Lines(l[1..] + t);
      assert rest[0] == l[1..] + ls[0] && rest[1..] == ls[1..];
      assert [l[0]] + (l[1..] + ls[0]) == l + ls[0];
    } else {
      var ls := Lines(t);
      assert l + t == t && l + ls[0] == ls[0];
      assert [ls[0]] + ls[1..] == ls;
    }
  }

  /** Cutting the joined lines at the newlines gives back the lines. */
  lemma {:induction false} LinesJoin(ls: seq<string>)
    requires |ls| >= 1
    requires forall i :: 0 <= i < |ls| ==> '\n' !in ls[i]
    ensures Lines(Join(ls)) == ls
  {
    if |ls| == 1 {
      LinesPrefix(ls[0], "");
      assert ls[0] + "" == ls[0];
    } else {
      var t := "\n" + Join(ls[1..]);
      LinesJoin(ls[1..]);
      assert t[1..] == Join(ls[1..]);
      assert Lines(t) == [[]] + ls[1..];
      LinesPrefix(ls[0], t);
      assert ls[0] + [] == ls[0];
      assert ls[0] + "\n" + Join(ls[1..]) == ls[0] + t;
    }
  }

  /** The frame of a grid with ysize >= 1 rows of xsize cells has ysize lines of
      xsize characters each, ' ' for a 0 cell and 'x' for any other; the frame of a
      grid with no rows is empty. */
  lemma FrameLayout(g: Grid, ysize: nat, xsize: nat)
    requires IsGrid(g, ysize, xsize)
    ensures ysize == 0 ==> Frame(g) == ""
    ensures ysize >= 1 ==>
      var ls := Lines(Frame(g));
      |ls| == ysize &&
      forall y :: 0 <= y < ysize ==>
        |ls[y]| == xsize &&
        forall x :: 0 <= x < xsize ==> ls[y][x] == (if g[y][x] == 0 then ' ' else 'x')
  {
  }
}
