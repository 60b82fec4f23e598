/** The colour names of the rendering backend (raylib) that cell colours are
    drawn with. Only the names the game uses appear; they are abstract names,
    not RGBA values. */
module Raylib {
  datatype Color =
    | White | LightGray | Gray | DarkGray | Black | Red | Orange | Yellow
    | Green | Lime | SkyBlue | Blue | Purple | Magenta | Maroon | Blank
}

/** The cell model of src/cell.hpp: a 16-value colour enumeration, its table to
    backend colours, and a cell made of a weight and a colour. */
module Cells {
  import Raylib

  /** The enumeration CellColor, QC_BLANK (value 0) through QC_MAROON (value 15),
      in declaration order; GrayL and GrayD are QC_GRAY_L and QC_GRAY_D. */
  datatype CellColor =
    | Blank | White | GrayL | Gray | GrayD | Black | Red | Orange
    | Yellow | Green | Lime | Cyan | Blue | Purple | Magenta | Maroon

  /** Number of enumerators. */
  const ColorCount: nat := 16

  /** The integer value of an enumerator. */
  function Ordinal(c: CellColor): (n: nat)
    ensures n < ColorCount
    ensures n == 0 <==> c == Blank
  {
    match c
    case Blank => 0
    case White => 1
    case GrayL => 2
    case Gray => 3
    case GrayD => 4
    case Black => 5
    case Red => 6
    case Orange => 7
    case Yellow => 8
    case Green => 9
    case Lime => 10
    case Cyan => 11
    case Blue => 12
    case Purple => 13
    case Magenta => 14
    case Maroon => 15
  }

  /** The cast of an integer in [0, 16) to CellColor. */
  function FromOrdinal(n: nat): (c: CellColor)
    requires n < ColorCount
    ensures Ordinal(c) == n
  {
    match n
    case 0 => Blank
    case 1 => White
    case 2 => GrayL
    case 3 => Gray
    case 4 => GrayD
    case 5 => Black
    case 6 => Red
    case 7 => Orange
    case 8 => Yellow
    case 9 => Green
    case 10 => Lime
    case 11 => Cyan
    case 12 => Blue
    case 13 => Purple
    case 14 => Magenta
    case _ => Maroon
  }

  /** The enumeration has exactly 16 values: the cast undoes Ordinal. */
  lemma OrdinalRoundTrip(c: CellColor)
    ensures FromOrdinal(Ordinal(c)) == c
  {
  }

  /** QcToRaylibColor: the total table from cell colours to backend colours. */
  function ToRaylibColor(c: CellColor): (r: Raylib.Color)
    ensures r == Raylib.Blank <==> c == Blank
    ensures c == Cyan ==> r == Raylib.SkyBlue
  {
    match c
    case White => Raylib.White
    case GrayL => Raylib.LightGray
    case Gray => Raylib.Gray
    case GrayD => Raylib.DarkGray
    case Black => Raylib.Black
    case Red => Raylib.Red
    case Orange => Raylib.Orange
    case Yellow => Raylib.Yellow
    case Green => Raylib.Green
    case Lime => Raylib.Lime
    case Cyan => Raylib.SkyBlue
    case Blue => Raylib.Blue
    case Purple => Raylib.Purple
    case Magenta => Raylib.Magenta
    case Maroon => Raylib.Maroon
    case Blank => Raylib.Blank
  }

  /** Distinct cell colours are drawn with distinct backend colours. */
  lemma ToRaylibColorInjective(a: CellColor, b: CellColor)
    requires a != b
    ensures ToRaylibColor(a) != ToRaylibColor(b)
  {
  }

  /** A cell: weight 0 means empty, any other weight means filled. */
  datatype Cell = Cell(weight: int, color: CellColor)

  /** Cell::empty. */
  predicate Empty(c: Cell) {
    c.weight == 0
  }

  /** Cell::isEmpty, the static form of Empty. */
  predicate IsEmpty(c: Cell) {
    Empty(c)
  }

  /** Cell::isFilled. */
  predicate IsFilled(c: Cell) {
    !Empty(c)
  }

  /** Emptiness is decided by the weight alone, and filled is its negation. */
  lemma EmptinessLaws(c: Cell)
    ensures IsEmpty(c) <==> c.weight == 0
    ensures IsFilled(c) <==> !IsEmpty(c)
    ensures forall color :: IsEmpty(Cell(c.weight, color)) == IsEmpty(c)
  {
  }

  /** Cell::getColor, the colour a cell is shown with: an empty cell is blank
      whatever colour it stores, and a filled cell storing QC_BLANK (value 0)
      is shown white. */
  function GetColor(c: Cell): (r: CellColor)
    ensures r == Blank <==> Empty(c)
    ensures !Empty(c) && c.color == Blank ==> r == White
    ensures !Empty(c) && c.color != Blank ==> r == c.color
  {
    if Empty(c) then Blank else if Ordinal(c.color) == 0 then White else c.color
  }

  /** What a cell is drawn with is the backend's blank exactly when the cell is
      empty. */
  lemma DrawnBlankIffEmpty(c: Cell)
    ensures ToRaylibColor(GetColor(c)) == Raylib.Blank <==> IsEmpty(c)
  {
  }

  /** Cell(): weight 0 and QC_BLANK. */
  function DefaultCell(): (c: Cell)
    ensures c.weight == 0 && c.color == Blank
    ensures IsEmpty(c) && GetColor(c) == Blank
  {
    NewCell(0, Blank)
  }

  /** Cell(w, c = QC_WHITE). */
  function NewCell(w: int, color: CellColor := White): (c: Cell)
    ensures c.weight == w && c.color == color
    ensures IsFilled(c) <==> w != 0
  {
    Cell(w, color)
  }
}
