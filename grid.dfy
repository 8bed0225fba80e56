/**
 * Grid helpers shared by the server rooms (server/src/rooms/utils.js):
 * sides and their opposites, row-major indexing and the grid-adjacent
 * partner lookup.
 */
module Grid {
  import opened Wrappers

  /** The four sides of a piece. */
  datatype Side = Top | Right | Bottom | Left

  /** The order in which every scan of the source visits a piece's sides. */
  const Sides: seq<Side> := [Top, Right, Bottom, Left]

  /** The side facing `s` on the neighbouring piece. */
  function Opposite(s: Side): Side {
    match s
    case Top => Bottom
    case Bottom => Top
    case Left => Right
    case Right => Left
  }

  /** The slot name the source uses for a side. */
  function SideName(s: Side): string {
    match s
    case Top => "top"
    case Right => "right"
    case Bottom => "bottom"
    case Left => "left"
  }

  /** The two kinds of JavaScript value that `getOpposite` distinguishes. */
  datatype JsValue = Num(n: real) | Str(s: string)

  /**
   * `getOpposite`: swaps the tab types innie (0) and outtie (1), keeps flat (2),
   * swaps the side names top/bottom and left/right, and returns anything else as it is.
   */
  function GetOpposite(v: JsValue): JsValue {
    if v == Num(1.0) then Num(0.0)
    else if v == Num(0.0) then Num(1.0)
    else if v == Num(2.0) then Num(2.0)
    else if v == Str("top") then Str("bottom")
    else if v == Str("bottom") then Str("top")
    else if v == Str("left") then Str("right")
    else if v == Str("right") then Str("left")
    else v
  }

  /** `getOpposite` applied to an integer tab type. */
  function OppositeTab(t: int): int {
    if t == 1 then 0 else if t == 0 then 1 else t
  }

  /**
   * The typed `OppositeTab` is `getOpposite` on numbers, for every integer: innie 0 and outtie 1
   * swap, flat 2 and every other number stay.
   */
  lemma OppositeTabAgrees(t: int)
    ensures GetOpposite(Num(t as real)) == Num(OppositeTab(t) as real)
    ensures OppositeTab(0) == 1 && OppositeTab(1) == 0 && (t != 0 && t != 1 ==> OppositeTab(t) == t)
  {
  }

  /** On side names `getOpposite` is the typed `Opposite`, so it swaps top/bottom and left/right. */
  lemma OppositeOnSideNames(s: Side)
    ensures GetOpposite(Str(SideName(s))) == Str(SideName(Opposite(s)))
    ensures Opposite(s) != s && Opposite(Opposite(s)) == s
  {
  }

  /** Any value other than the three tab numbers and the four side names comes back unchanged. */
  lemma OppositeFixesOtherValues(v: JsValue)
    requires v !in {Num(0.0), Num(1.0), Num(2.0)}
    requires v !in {Str("top"), Str("right"), Str("bottom"), Str("left")}
    ensures GetOpposite(v) == v
  {
  }

  /** `getOpposite` undoes itself on every value. */
  lemma OppositeInvolution(v: JsValue)
    ensures GetOpposite(GetOpposite(v)) == v
  {
  }

  /** `getPieceIndex`: the row-major index of a grid cell. */
  function PieceIndex(row: int, col: int, cols: int): int {
    row * cols + col
  }

  /** Row-major indexing maps the grid one-to-one onto [0, rows * cols) and can be inverted. */
  lemma PieceIndexInverse(row: int, col: int, cols: int)
    requires 0 <= row && 0 <= col < cols
    ensures 0 <= PieceIndex(row, col, cols)
    ensures PieceIndex(row, col, cols) / cols == row
    ensures PieceIndex(row, col, cols) % cols == col
  {
    var k := PieceIndex(row, col, cols);
    NonNegativeProduct(row, cols);
    var q, r := k / cols, k % cols;
    assert k == q * cols + r && 0 <= r < cols;
    var d := q - row;
    assert d * cols == col - r by {
      assert q * cols - row * cols == (q - row) * cols;
    }
  }

  lemma NonNegativeProduct(a: int, b: int)
    requires 0 <= a && 0 <= b
    ensures 0 <= a * b
  {
  }

  lemma PieceIndexInRange(row: int, col: int, rows: int, cols: int)
    requires 0 <= row < rows && 0 <= col < cols
    ensures 0 <= PieceIndex(row, col, cols) < rows * cols
  {
    assert row * cols + cols == (row + 1) * cols;
    NonNegativeProduct(rows - (row + 1), cols);
    assert rows * cols == (row + 1) * cols + (rows - (row + 1)) * cols;
  }

  lemma PieceIndexInjective(r1: int, c1: int, r2: int, c2: int, cols: int)
    requires 0 <= r1 && 0 <= c1 < cols && 0 <= r2 && 0 <= c2 < cols
    requires PieceIndex(r1, c1, cols) == PieceIndex(r2, c2, cols)
    ensures r1 == r2 && c1 == c2
  {
    PieceIndexInverse(r1, c1, cols);
    PieceIndexInverse(r2, c2, cols);
  }

  /** `getPiece`: the element at the row-major index, none for a negative row or column or an index past the end. */
  function GetPiece<T>(pieces: seq<T>, row: int, col: int, cols: int): (r: Option<T>)
    ensures r.Some? <==> 0 <= row && 0 <= col && 0 <= PieceIndex(row, col, cols) < |pieces|
    ensures r.Some? ==> r.value == pieces[PieceIndex(row, col, cols)]
  {
    if row < 0 || col < 0 then None
    else
      var i := PieceIndex(row, col, cols);
      if 0 <= i < |pieces| then Some(pieces[i]) else None
  }

  /** Past the end of a row the index runs on into the next row: `getPiece` does not check the column bound. */
  lemma GetPieceWrapsPastRowEnd<T>(pieces: seq<T>, row: int, cols: int)
    requires 0 <= row
    ensures GetPiece(pieces, row, cols, cols) == GetPiece(pieces, row + 1, 0, cols)
  {
    assert PieceIndex(row, cols, cols) == PieceIndex(row + 1, 0, cols) by {
      assert row * cols + cols == (row + 1) * cols;
    }
  }

  /** The grid cell across side `s` of cell (row, col). */
  function Neighbour(row: int, col: int, s: Side): (int, int) {
    match s
    case Top => (row - 1, col)
    case Right => (row, col + 1)
    case Bottom => (row + 1, col)
    case Left => (row, col - 1)
  }

  predicate OnGrid(cell: (int, int), rows: int, cols: int) {
    0 <= cell.0 < rows && 0 <= cell.1 < cols
  }

  /** `getPartner`, for a piece at (row, col): the piece across side `s`, none when that cell is off the grid. */
  function GetPartner<T>(row: int, col: int, s: Side, pieces: seq<T>, rows: int, cols: int): Option<T> {
    var cell := Neighbour(row, col, s);
    if cell.0 < 0 || cell.0 >= rows || cell.1 < 0 || cell.1 >= cols then None
    else GetPiece(pieces, cell.0, cell.1, cols)
  }

  /** The index of the element `getPartner` reads, when its bounds check passes. */
  function PartnerIndex(row: int, col: int, s: Side, rows: int, cols: int): (r: Option<nat>)
    ensures r.Some? <==> OnGrid(Neighbour(row, col, s), rows, cols)
  {
    var cell := Neighbour(row, col, s);
    if OnGrid(cell, rows, cols) then
      PieceIndexInRange(cell.0, cell.1, rows, cols);
      Some(PieceIndex(cell.0, cell.1, cols))
    else None
  }

  /**
   * On a complete board `getPartner` returns null exactly when the neighbouring cell
   * leaves [0, rows) x [0, cols), and otherwise the element at that cell's index.
   */
  lemma GetPartnerFindsNeighbour<T>(row: int, col: int, s: Side, pieces: seq<T>, rows: int, cols: int)
    requires |pieces| == rows * cols
    ensures GetPartner(row, col, s, pieces, rows, cols).None? <==> !OnGrid(Neighbour(row, col, s), rows, cols)
    ensures PartnerIndex(row, col, s, rows, cols).Some? ==>
              PartnerIndex(row, col, s, rows, cols).value < |pieces| &&
              GetPartner(row, col, s, pieces, rows, cols) == Some(pieces[PartnerIndex(row, col, s, rows, cols).value])
  {
    var cell := Neighbour(row, col, s);
    if OnGrid(cell, rows, cols) {
      PieceIndexInRange(cell.0, cell.1, rows, cols);
    }
  }

  /**
   * Partners are mutual: if the cell at index `k` is across side `s` of (row, col),
   * then (row, col) is across the opposite side of cell `k`.
   */
  lemma PartnerOfPartner(row: int, col: int, s: Side, rows: int, cols: int)
    requires OnGrid((row, col), rows, cols)
    requires PartnerIndex(row, col, s, rows, cols).Some?
    ensures var k := PartnerIndex(row, col, s, rows, cols).value;
            PartnerIndex(k / cols, k % cols, Opposite(s), rows, cols) == Some(PieceIndex(row, col, cols))
  {
    var cell := Neighbour(row, col, s);
    PieceIndexInverse(cell.0, cell.1, cols);
  }
}
