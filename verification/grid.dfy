/**
 The serpentine (boustrophedon) layout of the board: cell 1 is bottom-left,
 numbers run left to right on the bottom row, right to left on the row above,
 and so on up to cell 100 in the top-left corner. Row 0 is the top row.

 Two views of the same layout exist in the game: `PosToGrid`, which places a
 player marker, and the painter's numbering loop, which writes a label into
 every cell. The lemmas here prove that the two agree.
 */
module Grid {
  import opened Board

  /** A (row, column) cell of the 10x10 grid, row 0 at the top. */
  datatype Cell = Cell(row: int, col: int)

  predicate InGrid(c: Cell) {
    0 <= c.row < BoardSize && 0 <= c.col < BoardSize
  }

  /**
   Where cell number `pos` is drawn. The row counts down from the top; odd
   rows counted from the bottom run right to left. Defined on every integer,
   as in the game, where floor division and modulo by a positive constant
   coincide with Dafny's.
   */
  function PosToGrid(pos: int): (c: Cell)
    ensures OnBoard(pos) ==> InGrid(c)
  {
    var row := 9 - (pos - 1) / 10;
    var col := (pos - 1) % 10;
    if (9 - row) % 2 == 1 then Cell(row, 9 - col) else Cell(row, col)
  }

  /**
   The label the painter writes into grid cell `c`: it counts down from 100
   along each row in turn, starting left to right on the top row and flipping
   direction on every row.
   */
  function PaintedLabel(c: Cell): (n: int)
    ensures InGrid(c) ==> OnBoard(n) && PosToGrid(n) == c
  {
    var leftToRight := c.row % 2 == 0;
    var step := if leftToRight then c.col else 9 - c.col;
    var n := 100 - 10 * c.row - step;
    assert InGrid(c) ==> PosToGrid(n) == c by {
      if InGrid(c) {
        assert n - 1 == 10 * (9 - c.row) + (9 - step);
        assert (n - 1) / 10 == 9 - c.row;
        assert (n - 1) % 10 == 9 - step;
      }
    }
    n
  }

  /** The painter labels the cell where a marker for `pos` is drawn with `pos` itself. */
  lemma GridThenLabel(pos: int)
    requires OnBoard(pos)
    ensures PaintedLabel(PosToGrid(pos)) == pos
  {
    var q := (pos - 1) / 10;
    var r := (pos - 1) % 10;
    assert pos - 1 == 10 * q + r;
    assert 0 <= q < 10;
  }

  /** Distinct cells of the board are drawn in distinct grid cells. */
  lemma PosToGridInjective(p: int, q: int)
    requires OnBoard(p) && OnBoard(q)
    requires PosToGrid(p) == PosToGrid(q)
    ensures p == q
  {
    GridThenLabel(p);
    GridThenLabel(q);
  }

  /** Every grid cell is where some cell of the board is drawn: with injectivity, a bijection. */
  lemma PosToGridSurjective(c: Cell)
    requires InGrid(c)
    ensures exists pos :: OnBoard(pos) && PosToGrid(pos) == c
  {
    assert PosToGrid(PaintedLabel(c)) == c;
  }

  /** One cell drawn by the painter: its grid position and the number written in it. */
  datatype Drawn = Drawn(at: Cell, number: int)

  /**
   The painter's numbering loop, with only its integers kept: `num` counts
   down from 100, `row` and `col` run over the grid in row-major order and
   `leftToRight` flips after each row, choosing the column the number is
   drawn in. Every one of the 100 grid cells is drawn exactly once.
   */
  method PaintNumbering() returns (cells: seq<Drawn>)
    ensures |cells| == BoardSize * BoardSize
    ensures forall i :: 0 <= i < |cells| ==> cells[i].number == 100 - i
    ensures forall i :: 0 <= i < |cells| ==> InGrid(cells[i].at) && cells[i].number == PaintedLabel(cells[i].at)
    ensures forall i :: 0 <= i < |cells| ==> PosToGrid(cells[i].number) == cells[i].at
    ensures forall i, j :: 0 <= i < j < |cells| ==> cells[i].at != cells[j].at
  {
    cells := [];
    var num := 100;
    var leftToRight := true;
    var row := 0;
    while row < BoardSize
      invariant 0 <= row <= BoardSize
      invariant |cells| == 10 * row
      invariant num == 100 - |cells|
      invariant leftToRight == (row % 2 == 0)
      invariant forall i :: 0 <= i < |cells| ==> cells[i].number == 100 - i
      invariant forall i :: 0 <= i < |cells| ==> InGrid(cells[i].at) && cells[i].number == PaintedLabel(cells[i].at)
    {
      var col := 0;
      while col < BoardSize
        invariant 0 <= col <= BoardSize
        invariant |cells| == 10 * row + col
        invariant num == 100 - |cells|
        invariant forall i :: 0 <= i < |cells| ==> cells[i].number == 100 - i
        invariant forall i :: 0 <= i < |cells| ==> InGrid(cells[i].at) && cells[i].number == PaintedLabel(cells[i].at)
      {
        var rc := if leftToRight then col else BoardSize - 1 - col;
        cells := cells + [Drawn(Cell(row, rc), num)];
        num := num - 1;
        col := col + 1;
      }
      leftToRight := !leftToRight;
      row := row + 1;
    }
    forall i, j | 0 <= i < j < |cells|
      ensures cells[i].at != cells[j].at
    {
      if cells[i].at == cells[j].at {
        PosToGridInjective(cells[i].number, cells[j].number);
      }
    }
  }
}
