/**
 * Server-side puzzle generation (server/src/rooms/puzzleGeneration.js): the per-side
 * constraints of a cell, the candidate filter over the catalogue, and the row-major fill
 * that builds the board and pre-connects its border.
 */
module PuzzleGeneration {
  import opened Wrappers
  import opened Grid
  import opened Geometry
  import opened Schema
  import opened Board
  import opened Catalogue

  /** The grid of pieces placed so far: `grid[i][j]` is the piece of cell (i, j). */
  type PieceGrid = seq<seq<Piece>>

  /** `grid[r]?.[c]`: the piece placed in cell (r, c), if any. */
  function Cell(grid: PieceGrid, r: int, c: int): Option<Piece> {
    if 0 <= r < |grid| && 0 <= c < |grid[r]| then Some(grid[r][c]) else None
  }

  /** A placed neighbour pins a side to the opposite of the neighbour's facing slot type. */
  function Pinned(neighbour: Option<Piece>, facing: Side, otherwise: Range): Range {
    match neighbour
    case None => otherwise
    case Some(q) => Range(OppositeTab(GetSlot(q, facing).tab), OppositeTab(GetSlot(q, facing).tab))
  }

  /** The constraints of `getValidPieceTypes`, in top, right, bottom, left order. */
  function Constraints(row: int, col: int, grid: PieceGrid, gridCols: int, gridRows: int): (cons: seq<Range>)
    ensures |cons| == 4
  {
    var top := if row == 0 then Range(2, 2) else Range(0, 1);
    var right := if col == gridCols - 1 then Range(2, 2) else Range(0, 1);
    var bottom := if row == gridRows - 1 then Range(2, 2) else Range(0, 1);
    var left := if col == 0 then Range(2, 2) else Range(0, 1);
    [Pinned(Cell(grid, row - 1, col), Bottom, top),
     Pinned(Cell(grid, row, col + 1), Left, right),
     Pinned(Cell(grid, row + 1, col), Top, bottom),
     Pinned(Cell(grid, row, col - 1), Right, left)]
  }

  /**
   * `getValidPieceTypes`: the catalogue signatures that pass the cell's constraints, in the
   * order JavaScript enumerates the lookup object (see `PieceTypeMapKeys`).
   */
  function GetValidPieceTypes(row: int, col: int, grid: PieceGrid, gridCols: int, gridRows: int): (valid: seq<string>)
    requires 0 <= row < |grid|
    ensures forall t :: t in valid <==> t in PieceTypes && Fits(t, Constraints(row, col, grid, gridCols, gridRows))
    ensures valid == [] <==> forall t :: t in PieceTypes ==> !Fits(t, Constraints(row, col, grid, gridCols, gridRows))
  {
    PieceTypeMapHoldsCatalogue();
    FilterFitting(PieceTypeMapKeys(), Constraints(row, col, grid, gridCols, gridRows))
  }

  /** The grid is filled row by row up to cell (i, j): rows before i are full, row i holds j pieces. */
  predicate FilledUpTo(grid: PieceGrid, i: int, j: int, cols: int) {
    0 <= i && |grid| == i + 1 && 0 <= j <= cols && |grid[i]| == j &&
    forall r | 0 <= r < i :: |grid[r]| == cols
  }

  /**
   * While the grid is filled in row-major order only the top and left neighbours exist:
   * the right and bottom sides keep their border or default range, the top and left sides
   * are flat on the border and pinned by the neighbour inside it.
   */
  lemma ConstraintsWhileFilling(i: int, j: int, grid: PieceGrid, rows: int, cols: int)
    requires FilledUpTo(grid, i, j, cols) && j < cols
    ensures var cons := Constraints(i, j, grid, cols, rows);
            cons[0] == (if i == 0 then Range(2, 2)
                        else Range(OppositeTab(grid[i - 1][j].slotBottom.tab), OppositeTab(grid[i - 1][j].slotBottom.tab))) &&
            cons[1] == (if j == cols - 1 then Range(2, 2) else Range(0, 1)) &&
            cons[2] == (if i == rows - 1 then Range(2, 2) else Range(0, 1)) &&
            cons[3] == (if j == 0 then Range(2, 2)
                        else Range(OppositeTab(grid[i][j - 1].slotRight.tab), OppositeTab(grid[i][j - 1].slotRight.tab)))
  {
  }

  /**
   * A piece's four slot types spell a catalogue signature: each is a tab type and the piece is
   * never flat on two opposite sides (`SpelledSignatureInCatalogue`).
   */
  predicate SpellsSignature(p: Piece) {
    0 <= p.slotTop.tab <= 2 && 0 <= p.slotRight.tab <= 2 && 0 <= p.slotBottom.tab <= 2 && 0 <= p.slotLeft.tab <= 2 &&
    !(p.slotTop.tab == 2 && p.slotBottom.tab == 2) && !(p.slotRight.tab == 2 && p.slotLeft.tab == 2)
  }

  lemma SpelledSignatureInCatalogue(p: Piece)
    requires SpellsSignature(p)
    ensures [TabChar(p.slotTop.tab), TabChar(p.slotRight.tab), TabChar(p.slotBottom.tab), TabChar(p.slotLeft.tab)] in PieceTypes
  {
    CatalogueComplete(p.slotTop.tab, p.slotRight.tab, p.slotBottom.tab, p.slotLeft.tab);
  }

  /** A side is flat exactly when it lies on the board's border. */
  predicate FlatExactlyOnBorder(p: Piece, rows: int, cols: int) {
    (p.slotTop.tab == 2 <==> p.gridRow == 0) && (p.slotRight.tab == 2 <==> p.gridCol == cols - 1) &&
    (p.slotBottom.tab == 2 <==> p.gridRow == rows - 1) && (p.slotLeft.tab == 2 <==> p.gridCol == 0)
  }

  /** A side is connected exactly when it lies on the board's border. */
  predicate ConnectedExactlyOnBorder(p: Piece, rows: int, cols: int) {
    (p.slotTop.connected <==> p.gridRow == 0) && (p.slotRight.connected <==> p.gridCol == cols - 1) &&
    (p.slotBottom.connected <==> p.gridRow == rows - 1) && (p.slotLeft.connected <==> p.gridCol == 0)
  }

  predicate NoneConnected(p: Piece) {
    !p.slotTop.connected && !p.slotRight.connected && !p.slotBottom.connected && !p.slotLeft.connected
  }

  /** A freshly generated piece: centred in its cell, free, alone in its group, a catalogue signature. */
  predicate AsGenerated(p: Piece, rows: int, cols: int, w: real, h: real) {
    p.positionX == CellCentre(p.gridCol, cols, w) && p.positionY == 0.0 && p.positionZ == CellCentre(p.gridRow, rows, h) &&
    p.heldBy == "" && p.connectedPieces == [PieceIndex(p.gridRow, p.gridCol, cols)] &&
    SpellsSignature(p) && FlatExactlyOnBorder(p, rows, cols)
  }

  /** Piece `a` sits in the cell whose row-major index is `a`. */
  predicate InOwnCell(s: seq<Piece>, a: int, rows: int, cols: int)
    requires 0 <= a < |s|
  {
    0 <= s[a].gridRow < rows && 0 <= s[a].gridCol < cols && PieceIndex(s[a].gridRow, s[a].gridCol, cols) == a
  }

  /** Facing sides of horizontally and vertically adjacent pieces are complementary. */
  predicate Complementary(s: seq<Piece>, cols: int) {
    (forall a | 0 <= a && a + 1 < |s| && s[a].gridCol + 1 < cols :: s[a + 1].slotLeft.tab == OppositeTab(s[a].slotRight.tab)) &&
    (forall a | 0 <= a < |s| && 0 <= a + cols < |s| :: s[a + cols].slotTop.tab == OppositeTab(s[a].slotBottom.tab))
  }

  /** The state after the first, filling pass over the first |s| cells. */
  predicate FirstPass(s: seq<Piece>, rows: int, cols: int, w: real, h: real) {
    (forall a | 0 <= a < |s| :: InOwnCell(s, a, rows, cols) && AsGenerated(s[a], rows, cols, w, h) && NoneConnected(s[a])) &&
    Complementary(s, cols)
  }

  /** The board `generatePuzzlePieces` returns. */
  predicate Generated(s: seq<Piece>, rows: int, cols: int, w: real, h: real) {
    |s| == rows * cols &&
    (forall a | 0 <= a < |s| :: InOwnCell(s, a, rows, cols) && AsGenerated(s[a], rows, cols, w, h) &&
                                ConnectedExactlyOnBorder(s[a], rows, cols)) &&
    Complementary(s, cols)
  }

  /** Every placed cell of the grid holds the piece at its row-major index. */
  predicate GridMatches(grid: PieceGrid, s: seq<Piece>, cols: int) {
    forall r, c | 0 <= r < |grid| && 0 <= c < |grid[r]| ::
      0 <= PieceIndex(r, c, cols) < |s| && grid[r][c] == s[PieceIndex(r, c, cols)]
  }

  /** The second pass: border sides are marked connected. */
  function MarkBorders(p: Piece, i: int, j: int, rows: int, cols: int): Piece {
    var p1 := if i == 0 then MarkConnected(p, Top) else p;
    var p2 := if j == cols - 1 then MarkConnected(p1, Right) else p1;
    var p3 := if i == rows - 1 then MarkConnected(p2, Bottom) else p2;
    if j == 0 then MarkConnected(p3, Left) else p3
  }

  lemma MarkBordersEffect(p: Piece, rows: int, cols: int)
    requires NoneConnected(p)
    ensures var q := MarkBorders(p, p.gridRow, p.gridCol, rows, cols);
            SameButFlags(q, p) && ConnectedExactlyOnBorder(q, rows, cols)
  {
  }

  /** Why generation fails: the cell for which no catalogue entry fits. */
  datatype GenerationError = NoValidPieceType(row: int, col: int)

  /** A piece of the first pass that sits in cell (r, c) faces away from the border with an innie or outtie. */
  lemma PlacedPieceSides(s: seq<Piece>, r: int, c: int, rows: int, cols: int, w: real, h: real)
    requires 0 <= r < rows && 0 <= c < cols && FirstPass(s, rows, cols, w, h)
    requires 0 <= PieceIndex(r, c, cols) < |s|
    ensures var p := s[PieceIndex(r, c, cols)];
            (r < rows - 1 ==> 0 <= p.slotBottom.tab <= 1) && (c < cols - 1 ==> 0 <= p.slotRight.tab <= 1)
  {
    var a := PieceIndex(r, c, cols);
    assert InOwnCell(s, a, rows, cols) && AsGenerated(s[a], rows, cols, w, h);
    PieceIndexInjective(s[a].gridRow, s[a].gridCol, r, c, cols);
  }

  /**
   * While the grid is filled, the placed top and left neighbours of a cell inside the board
   * face it with an innie or an outtie, never a flat side.
   */
  lemma PlacedNeighboursNotFlat(i: int, j: int, grid: PieceGrid, s: seq<Piece>, rows: int, cols: int, w: real, h: real)
    requires i < rows && j < cols
    requires FilledUpTo(grid, i, j, cols) && GridMatches(grid, s, cols) && FirstPass(s, rows, cols, w, h)
    ensures i > 0 ==> 0 <= grid[i - 1][j].slotBottom.tab <= 1
    ensures j > 0 ==> 0 <= grid[i][j - 1].slotRight.tab <= 1
  {
    if i > 0 {
      assert grid[i - 1][j] == s[PieceIndex(i - 1, j, cols)];
      PlacedPieceSides(s, i - 1, j, rows, cols, w, h);
    }
    if j > 0 {
      assert grid[i][j - 1] == s[PieceIndex(i, j - 1, cols)];
      PlacedPieceSides(s, i, j - 1, rows, cols, w, h);
    }
  }

  /** On a board at least two pieces wide and high every cell has a candidate while the grid is filled. */
  lemma CandidateExists(i: int, j: int, grid: PieceGrid, rows: int, cols: int)
    requires 2 <= rows && 2 <= cols && i < rows && j < cols && FilledUpTo(grid, i, j, cols)
    requires i > 0 ==> 0 <= grid[i - 1][j].slotBottom.tab <= 1
    requires j > 0 ==> 0 <= grid[i][j - 1].slotRight.tab <= 1
    ensures |GetValidPieceTypes(i, j, grid, cols, rows)| > 0
  {
    ConstraintsWhileFilling(i, j, grid, rows, cols);
    var cons := Constraints(i, j, grid, cols, rows);
    var top := if i == 0 then 2 else OppositeTab(grid[i - 1][j].slotBottom.tab);
    var right := if j == cols - 1 then 2 else 0;
    var bottom := if i == rows - 1 then 2 else 0;
    var left := if j == 0 then 2 else OppositeTab(grid[i][j - 1].slotRight.tab);
    CatalogueComplete(top, right, bottom, left);
    var t := [TabChar(top), TabChar(right), TabChar(bottom), TabChar(left)];
    assert IsSignature(t);
    SignatureFromSlots(t, top, right, bottom, left);
    SignatureFits(t, cons);
    assert Fits(t, cons);
    var valid := GetValidPieceTypes(i, j, grid, cols, rows);
    assert t in valid;
  }

  /** A board one piece wide or high has no candidate for its first cell: both ends of the line would be flat. */
  lemma NoCandidateOnALine(rows: int, cols: int)
    requires 1 <= rows && 1 <= cols && (rows == 1 || cols == 1)
    ensures GetValidPieceTypes(0, 0, [[]], cols, rows) == []
  {
    var cons := Constraints(0, 0, [[]], cols, rows);
    CatalogueSignatures();
    forall t | t in PieceTypes
      ensures !Fits(t, cons)
    {
      SignatureFits(t, cons);
      SignatureSlots(t);
    }
  }

  /**
   * `generatePuzzlePieces(cols, rows, scaleX, scaleZ)`. The random pick among the candidates of
   * cell (i, j) is the oracle `pick(i, j, n)`, any index below n. Generation fails at the first
   * cell without a candidate, which happens exactly on a board one piece wide or high.
   */
  method GeneratePuzzlePieces(cfg: Config, cols: nat, rows: nat, scaleX: real, scaleZ: real, pick: (int, int, nat) -> nat)
    returns (r: Result<seq<Piece>, GenerationError>)
    requires forall i, j, n :: n > 0 ==> pick(i, j, n) < n
    ensures r.Failure? <==> 1 <= rows && 1 <= cols && (rows == 1 || cols == 1)
    ensures r.Failure? ==> r.error == NoValidPieceType(0, 0)
    ensures r.Success? ==> Generated(r.value, rows, cols, cfg.pieceWidth * scaleX, cfg.pieceHeight * scaleZ)
  {
    var w := cfg.pieceWidth * scaleX;
    var h := cfg.pieceHeight * scaleZ;
    var grid: PieceGrid := [];
    var pieces: seq<Piece> := [];
    var i := 0;
    while i < rows
      invariant 0 <= i <= rows && |grid| == i && |pieces| == i * cols
      invariant forall r | 0 <= r < i :: |grid[r]| == cols
      invariant GridMatches(grid, pieces, cols) && FirstPass(pieces, rows, cols, w, h)
      invariant i > 0 && cols > 0 ==> 2 <= rows && 2 <= cols
    {
      var failure;
      failure, grid, pieces := FillRow(grid + [[]], pieces, i, rows, cols, w, h, pick);
      if failure.Some? {
        return Failure(failure.value);
      }
      i := i + 1;
    }
    var connected := ConnectBorders(pieces, rows, cols, w, h);
    r := Success(connected);
  }

  /**
   * One row of the first pass of `generatePuzzlePieces`: row `i` of the grid is filled cell by
   * cell. It fails at its first cell when no piece type fits, which happens exactly when the
   * board is one piece wide or high.
   */
  method FillRow(grid: PieceGrid, pieces: seq<Piece>, i: nat, rows: nat, cols: nat, w: real, h: real, pick: (int, int, nat) -> nat)
    returns (failure: Option<GenerationError>, grid': PieceGrid, pieces': seq<Piece>)
    requires forall i, j, n :: n > 0 ==> pick(i, j, n) < n
    requires i < rows && FilledUpTo(grid, i, 0, cols) && |pieces| == i * cols
    requires GridMatches(grid, pieces, cols) && FirstPass(pieces, rows, cols, w, h)
    requires i > 0 && cols > 0 ==> 2 <= rows && 2 <= cols
    ensures failure.Some? <==> i == 0 && 1 <= cols && (rows == 1 || cols == 1)
    ensures failure.Some? ==> failure.value == NoValidPieceType(0, 0)
    ensures failure.None? ==> FilledUpTo(grid', i, cols, cols) && |pieces'| == (i + 1) * cols
    ensures failure.None? ==> GridMatches(grid', pieces', cols) && FirstPass(pieces', rows, cols, w, h)
    ensures failure.None? && cols > 0 ==> 2 <= rows && 2 <= cols
  {
    grid', pieces' := grid, pieces;
    var j := 0;
    while j < cols
      invariant FilledUpTo(grid', i, j, cols) && |pieces'| == i * cols + j
      invariant GridMatches(grid', pieces', cols) && FirstPass(pieces', rows, cols, w, h)
      invariant (i > 0 && cols > 0) || j > 0 ==> 2 <= rows && 2 <= cols
    {
      var validTypes := GetValidPieceTypes(i, j, grid', cols, rows);
      CandidatesWhileFilling(i, j, grid', pieces', rows, cols, w, h);
      if |validTypes| == 0 {
        return Some(NoValidPieceType(i, j)), grid', pieces';
      }
      var pieceType := validTypes[pick(i, j, |validTypes|)];
      FillStep(grid', pieces', pieceType, i, j, rows, cols, w, h);
      var piece := NewPiece(SlotsOf(pieceType), i, j, rows, cols, w, h);
      grid' := grid'[i := grid'[i] + [piece]];
      pieces' := pieces' + [piece];
      j := j + 1;
    }
    assert i * cols + cols == (i + 1) * cols;
    failure := None;
  }

  /** The piece `generatePuzzlePieces` creates for cell (i, j) with the given slot types. */
  function NewPiece(slots: seq<int>, i: int, j: int, rows: int, cols: int, w: real, h: real): Piece
    requires |slots| == 4 && 0 <= i && 0 <= j < cols
  {
    PieceIndexInverse(i, j, cols);
    Piece(i, j, CellCentre(j, cols, w), 0.0, CellCentre(i, rows, h), "", [PieceIndex(i, j, cols)],
          Slot(slots[0], false), Slot(slots[1], false), Slot(slots[2], false), Slot(slots[3], false))
  }

  /**
   * While the grid is filled, a cell has candidates exactly when the board is at least two pieces
   * wide and high; otherwise the cell is the first one.
   */
  lemma CandidatesWhileFilling(i: int, j: int, grid: PieceGrid, s: seq<Piece>, rows: int, cols: int, w: real, h: real)
    requires 0 <= i < rows && 0 <= j < cols
    requires FilledUpTo(grid, i, j, cols) && GridMatches(grid, s, cols) && FirstPass(s, rows, cols, w, h)
    requires i > 0 || j > 0 ==> 2 <= rows && 2 <= cols
    ensures GetValidPieceTypes(i, j, grid, cols, rows) == [] <==> rows == 1 || cols == 1
  {
    PlacedNeighboursNotFlat(i, j, grid, s, rows, cols, w, h);
    if 2 <= rows && 2 <= cols {
      CandidateExists(i, j, grid, rows, cols);
    } else {
      assert grid == [[]];
      NoCandidateOnALine(rows, cols);
    }
  }

  /** Placing a candidate of cell (i, j) extends the first pass by one cell. */
  lemma FillStep(grid: PieceGrid, s: seq<Piece>, pieceType: string, i: int, j: int, rows: int, cols: int, w: real, h: real)
    requires 0 <= i < rows && 0 <= j < cols
    requires FilledUpTo(grid, i, j, cols) && |s| == i * cols + j
    requires GridMatches(grid, s, cols) && FirstPass(s, rows, cols, w, h)
    requires pieceType in GetValidPieceTypes(i, j, grid, cols, rows)
    ensures AllDigits(pieceType) && |pieceType| == 4
    ensures var piece := NewPiece(SlotsOf(pieceType), i, j, rows, cols, w, h);
            FilledUpTo(grid[i := grid[i] + [piece]], i, j + 1, cols) &&
            GridMatches(grid[i := grid[i] + [piece]], s + [piece], cols) &&
            FirstPass(s + [piece], rows, cols, w, h)
  {
    CatalogueSignatures();
    SignatureSlots(pieceType);
    NewPieceAsGenerated(grid, s, pieceType, i, j, rows, cols, w, h);
    PlaceNext(grid, s, NewPiece(SlotsOf(pieceType), i, j, rows, cols, w, h), i, j, rows, cols, w, h);
  }

  /** A candidate of cell (i, j) spells a catalogue signature that is flat exactly on the border. */
  lemma NewPieceAsGenerated(grid: PieceGrid, s: seq<Piece>, pieceType: string, i: int, j: int, rows: int, cols: int, w: real, h: real)
    requires 0 <= i < rows && 0 <= j < cols
    requires FilledUpTo(grid, i, j, cols) && GridMatches(grid, s, cols) && FirstPass(s, rows, cols, w, h)
    requires pieceType in GetValidPieceTypes(i, j, grid, cols, rows)
    requires AllDigits(pieceType) && |pieceType| == 4
    ensures var piece := NewPiece(SlotsOf(pieceType), i, j, rows, cols, w, h);
            AsGenerated(piece, rows, cols, w, h) && NoneConnected(piece) &&
            (i > 0 ==> piece.slotTop.tab == OppositeTab(grid[i - 1][j].slotBottom.tab)) &&
            (j > 0 ==> piece.slotLeft.tab == OppositeTab(grid[i][j - 1].slotRight.tab))
  {
    var piece := NewPiece(SlotsOf(pieceType), i, j, rows, cols, w, h);
    CatalogueSignatures();
    SignatureSlots(pieceType);
    ConstraintsWhileFilling(i, j, grid, rows, cols);
    PlacedNeighboursNotFlat(i, j, grid, s, rows, cols, w, h);
    var cons := Constraints(i, j, grid, cols, rows);
    SignatureFits(pieceType, cons);
  }

  /** Appending the piece of the next cell keeps facing sides complementary. */
  lemma ExtendComplementary(grid: PieceGrid, s: seq<Piece>, piece: Piece, i: int, j: int, rows: int, cols: int, w: real, h: real)
    requires 0 <= i < rows && 0 <= j < cols
    requires FilledUpTo(grid, i, j, cols) && |s| == i * cols + j
    requires GridMatches(grid, s, cols) && FirstPass(s, rows, cols, w, h)
    requires piece.gridCol == j
    requires i > 0 ==> piece.slotTop.tab == OppositeTab(grid[i - 1][j].slotBottom.tab)
    requires j > 0 ==> piece.slotLeft.tab == OppositeTab(grid[i][j - 1].slotRight.tab)
    ensures Complementary(s + [piece], cols)
  {
    var s' := s + [piece];
    var a := |s|;
    if j > 0 {
      assert grid[i][j - 1] == s[PieceIndex(i, j - 1, cols)];
      assert PieceIndex(i, j - 1, cols) == a - 1;
    } else if a > 0 {
      assert InOwnCell(s, a - 1, rows, cols);
      assert PieceIndex(i - 1, cols - 1, cols) == a - 1;
      PieceIndexInjective(s[a - 1].gridRow, s[a - 1].gridCol, i - 1, cols - 1, cols);
    }
    if a - cols >= 0 {
      assert i >= 1;
      assert a - cols == PieceIndex(i - 1, j, cols);
      assert s[a - cols] == grid[i - 1][j];
    }
    forall b | 0 <= b && b + 1 < |s'| && s'[b].gridCol + 1 < cols
      ensures s'[b + 1].slotLeft.tab == OppositeTab(s'[b].slotRight.tab)
    {
      if b + 1 < a {
        assert s'[b] == s[b] && s'[b + 1] == s[b + 1];
      }
    }
    forall b | 0 <= b < |s'| && 0 <= b + cols < |s'|
      ensures s'[b + cols].slotTop.tab == OppositeTab(s'[b].slotBottom.tab)
    {
      if b + cols < a {
        assert s'[b] == s[b] && s'[b + cols] == s[b + cols];
      }
    }
  }

  /** Appending the piece of the next cell to both the grid and the list keeps them matched. */
  lemma ExtendGridMatches(grid: PieceGrid, s: seq<Piece>, piece: Piece, i: int, j: int, cols: int)
    requires FilledUpTo(grid, i, j, cols) && j < cols && |s| == i * cols + j
    requires GridMatches(grid, s, cols)
    ensures FilledUpTo(grid[i := grid[i] + [piece]], i, j + 1, cols)
    ensures GridMatches(grid[i := grid[i] + [piece]], s + [piece], cols)
  {
    var grid' := grid[i := grid[i] + [piece]];
    var s' := s + [piece];
    forall r, c | 0 <= r < |grid'| && 0 <= c < |grid'[r]|
      ensures 0 <= PieceIndex(r, c, cols) < |s'| && grid'[r][c] == s'[PieceIndex(r, c, cols)]
    {
      if r == i && c == j {
        assert PieceIndex(r, c, cols) == |s|;
      } else if r == i {
        assert grid'[r][c] == grid[r][c];
      } else {
        assert grid'[r] == grid[r];
      }
    }
  }

  /**
   * Placing a candidate of cell (i, j) extends the first pass by one cell: the new piece's sides are
   * flat exactly on the border and complement its placed top and left neighbours.
   */
  lemma PlaceNext(grid: PieceGrid, s: seq<Piece>, piece: Piece, i: int, j: int, rows: int, cols: int, w: real, h: real)
    requires 0 <= i < rows && 0 <= j < cols
    requires FilledUpTo(grid, i, j, cols) && |s| == i * cols + j
    requires GridMatches(grid, s, cols) && FirstPass(s, rows, cols, w, h)
    requires piece.gridRow == i && piece.gridCol == j
    requires AsGenerated(piece, rows, cols, w, h) && NoneConnected(piece)
    requires i > 0 ==> piece.slotTop.tab == OppositeTab(grid[i - 1][j].slotBottom.tab)
    requires j > 0 ==> piece.slotLeft.tab == OppositeTab(grid[i][j - 1].slotRight.tab)
    ensures FilledUpTo(grid[i := grid[i] + [piece]], i, j + 1, cols)
    ensures GridMatches(grid[i := grid[i] + [piece]], s + [piece], cols)
    ensures FirstPass(s + [piece], rows, cols, w, h)
  {
    ExtendComplementary(grid, s, piece, i, j, rows, cols, w, h);
    ExtendGridMatches(grid, s, piece, i, j, cols);
    var s' := s + [piece];
    assert PieceIndex(i, j, cols) == |s|;
    assert InOwnCell(s', |s|, rows, cols);
    forall a | 0 <= a < |s'|
      ensures InOwnCell(s', a, rows, cols) && AsGenerated(s'[a], rows, cols, w, h) && NoneConnected(s'[a])
    {
      if a < |s| {
        assert s'[a] == s[a];
      }
    }
  }

  /**
   * The second pass of `generatePuzzlePieces`: every side on the board's border is marked
   * connected, cell by cell in row-major order.
   */
  method ConnectBorders(placed: seq<Piece>, rows: nat, cols: nat, w: real, h: real) returns (pieces: seq<Piece>)
    requires |placed| == rows * cols && FirstPass(placed, rows, cols, w, h)
    ensures Generated(pieces, rows, cols, w, h)
    ensures forall a | 0 <= a < |pieces| :: SameButFlags(pieces[a], placed[a])
  {
    pieces := placed;
    var i := 0;
    while i < rows
      invariant 0 <= i <= rows && |pieces| == |placed|
      invariant forall a | 0 <= a < |pieces| ::
        pieces[a] == if a < i * cols then MarkBorders(placed[a], placed[a].gridRow, placed[a].gridCol, rows, cols) else placed[a]
    {
      var j := 0;
      while j < cols
        invariant 0 <= j <= cols && |pieces| == |placed|
        invariant forall a | 0 <= a < |pieces| ::
          pieces[a] == if a < i * cols + j then MarkBorders(placed[a], placed[a].gridRow, placed[a].gridCol, rows, cols) else placed[a]
      {
        var index := PieceIndex(i, j, cols);
        PieceIndexInRange(i, j, rows, cols);
        assert InOwnCell(placed, index, rows, cols);
        PieceIndexInjective(placed[index].gridRow, placed[index].gridCol, i, j, cols);
        pieces := pieces[index := MarkBorders(pieces[index], i, j, rows, cols)];
        j := j + 1;
      }
      assert i * cols + cols == (i + 1) * cols;
      i := i + 1;
    }
    FinishGeneration(placed, pieces, rows, cols, w, h);
  }

  /** The second pass turns the first pass over a full board into the generated board. */
  lemma FinishGeneration(placed: seq<Piece>, s: seq<Piece>, rows: int, cols: int, w: real, h: real)
    requires |placed| == rows * cols && |s| == |placed| && FirstPass(placed, rows, cols, w, h)
    requires forall a | 0 <= a < |s| :: s[a] == MarkBorders(placed[a], placed[a].gridRow, placed[a].gridCol, rows, cols)
    ensures Generated(s, rows, cols, w, h)
    ensures forall a | 0 <= a < |s| :: SameButFlags(s[a], placed[a])
  {
    forall a | 0 <= a < |s|
      ensures InOwnCell(s, a, rows, cols) && AsGenerated(s[a], rows, cols, w, h) && ConnectedExactlyOnBorder(s[a], rows, cols)
      ensures s[a].gridCol == placed[a].gridCol && SameButFlags(s[a], placed[a])
      ensures s[a].slotLeft.tab == placed[a].slotLeft.tab && s[a].slotRight.tab == placed[a].slotRight.tab
      ensures s[a].slotTop.tab == placed[a].slotTop.tab && s[a].slotBottom.tab == placed[a].slotBottom.tab
    {
      MarkBordersEffect(placed[a], rows, cols);
      assert GetSlot(s[a], Top).tab == GetSlot(placed[a], Top).tab;
      assert GetSlot(s[a], Right).tab == GetSlot(placed[a], Right).tab;
      assert GetSlot(s[a], Bottom).tab == GetSlot(placed[a], Bottom).tab;
      assert GetSlot(s[a], Left).tab == GetSlot(placed[a], Left).tab;
    }
  }

  /** A generated board is laid out row-major and every piece starts alone in its own group. */
  lemma GeneratedBoardIsConsistent(s: seq<Piece>, rows: int, cols: int, w: real, h: real)
    requires Generated(s, rows, cols, w, h)
    ensures RowMajor(s, rows, cols) && GroupsConsistent(s) && IndicesInRange(s)
    ensures forall k | 0 <= k < |s| :: s[k].connectedPieces == [k] && s[k].heldBy == ""
  {
  }

  /** Facing sides of grid neighbours on a generated board interlock: an innie meets an outtie. */
  lemma GeneratedFacingSides(s: seq<Piece>, rows: int, cols: int, w: real, h: real, k: int, side: Side, q: int)
    requires Generated(s, rows, cols, w, h) && 0 <= k < |s| && 0 <= q < |s| && GridAdjacent(s[k], side, s[q])
    ensures GetSlot(s[q], Opposite(side)).tab == OppositeTab(GetSlot(s[k], side).tab)
    ensures 0 <= GetSlot(s[k], side).tab <= 1
  {
    assert InOwnCell(s, k, rows, cols) && InOwnCell(s, q, rows, cols);
    assert AsGenerated(s[k], rows, cols, w, h) && AsGenerated(s[q], rows, cols, w, h);
    var r, c := s[k].gridRow, s[k].gridCol;
    match side
    case Right =>
      assert q == k + 1;
    case Left =>
      assert k == q + 1;
    case Bottom =>
      assert q == (r + 1) * cols + c == k + cols;
    case Top =>
      assert k == (s[q].gridRow + 1) * cols + c == q + cols;
  }

  /**
   * Pieces of a generated board laid out with the configured scales are exactly seated against
   * their grid neighbours: the positional error across every shared side is zero.
   */
  lemma GeneratedPiecesSeated(cfg: Config, s: seq<Piece>, rows: int, cols: int, k: nat, side: Side, q: nat)
    requires Generated(s, rows, cols, ScaledWidth(cfg), ScaledHeight(cfg))
    requires k < |s| && q < |s| && GridAdjacent(s[k], side, s[q])
    ensures PieceError(cfg, s, k, side, q).errorMagnitude == 0.0
  {
    assert AsGenerated(s[k], rows, cols, ScaledWidth(cfg), ScaledHeight(cfg));
    assert AsGenerated(s[q], rows, cols, ScaledWidth(cfg), ScaledHeight(cfg));
    CellCentresAreSeated(cfg, rows, cols, s[k].gridRow, s[k].gridCol, side);
  }
}
