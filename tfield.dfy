/** The row model of src/tfield.hpp: a fixed array of ten cells. */
module Field {
  import opened Cells

  /** Row::length, the size of the fixed array Row::content. */
  const RowLength: nat := 10

  /** Exactly RowLength cells, as the array type Cell[10] guarantees. */
  type RowCells = s: seq<Cell> | |s| == RowLength
    witness [Cell(0, Blank), Cell(0, Blank), Cell(0, Blank), Cell(0, Blank), Cell(0, Blank),
             Cell(0, Blank), Cell(0, Blank), Cell(0, Blank), Cell(0, Blank), Cell(0, Blank)]

  datatype Row = Row(content: RowCells)

  /** Whether every cell of a range is filled, tested left to right. */
  function AllFilled(s: seq<Cell>): (b: bool)
    ensures b <==> forall i :: 0 <= i < |s| ==> IsFilled(s[i])
  {
    if |s| == 0 then true else IsFilled(s[0]) && AllFilled(s[1..])
  }

  /** Row::full: every one of the ten cells is filled; one empty cell is enough
      to make it false. */
  function Full(r: Row): (b: bool)
    ensures b <==> forall i :: 0 <= i < RowLength ==> IsFilled(r.content[i])
    ensures !b <==> exists i :: 0 <= i < RowLength && IsEmpty(r.content[i])
  {
    AllFilled(r.content)
  }

  /** Row(): ten default cells. */
  function EmptyRow(): (r: Row)
    ensures forall i :: 0 <= i < RowLength ==> r.content[i] == DefaultCell()
    ensures !Full(r)
  {
    var c := DefaultCell();
    Row([c, c, c, c, c, c, c, c, c, c])
  }

  /** Row(c1, ..., c10): the arguments stored at indices 0 to 9 in order. */
  function RowOf(c1: Cell, c2: Cell, c3: Cell, c4: Cell, c5: Cell,
                 c6: Cell, c7: Cell, c8: Cell, c9: Cell, c10: Cell): (r: Row)
    ensures r.content[0] == c1 && r.content[1] == c2 && r.content[2] == c3
    ensures r.content[3] == c4 && r.content[4] == c5 && r.content[5] == c6
    ensures r.content[6] == c7 && r.content[7] == c8 && r.content[8] == c9
    ensures r.content[9] == c10
    ensures Full(r) <==> IsFilled(c1) && IsFilled(c2) && IsFilled(c3) && IsFilled(c4)
                         && IsFilled(c5) && IsFilled(c6) && IsFilled(c7) && IsFilled(c8)
                         && IsFilled(c9) && IsFilled(c10)
  {
    Row([c1, c2, c3, c4, c5, c6, c7, c8, c9, c10])
  }

  /** The row with cell i replaced by c; every other cell is kept. */
  function SetCell(r: Row, i: nat, c: Cell): (r': Row)
    requires i < RowLength
    ensures r'.content[i] == c
    ensures forall j :: 0 <= j < RowLength && j != i ==> r'.content[j] == r.content[j]
  {
    Row(r.content[i := c])
  }
}
