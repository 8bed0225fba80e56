/**
 * The client's board generation (client/src/puzzle.js): the candidate filter over the loaded
 * piece meshes, the row-major fill that creates one mesh per cell, and the spawn pass that
 * links every slot to its grid neighbour. The rule is the server's, but the client reads tab
 * types as characters of the piece type name and compares them with JavaScript's loose
 * number semantics.
 */
module ClientPuzzle {
  import opened Wrappers
  import opened Grid
  import opened Geometry
  import opened ClientMesh
  import Catalogue
  import ClientUtils

  // ---------------------------------------------------------------------------------------
  // Numbers as the range checks see them
  // ---------------------------------------------------------------------------------------

  /** A JavaScript number as the range comparisons meet it: an integer, or NaN. */
  datatype Num = Int(v: int) | NaN

  /** `a < b` in JavaScript: false whenever either side is NaN. */
  predicate Less(a: Num, b: Num) {
    a.Int? && b.Int? && a.v < b.v
  }

  /** The white space and line terminators that JavaScript skips when it turns a string into a number. */
  predicate IsJsSpace(c: char) {
    var n := c as int;
    n == 0x09 || n == 0x0A || n == 0x0B || n == 0x0C || n == 0x0D || n == 0x20 || n == 0xA0 ||
    n == 0x1680 || (0x2000 <= n <= 0x200A) || n == 0x2028 || n == 0x2029 || n == 0x202F ||
    n == 0x205F || n == 0x3000 || n == 0xFEFF
  }

  /** A one-character string compared with a number: a digit is its value, white space is 0, anything else NaN. */
  function CharNumber(c: char): Num {
    if Catalogue.IsDigit(c) then Int(Catalogue.DigitValue(c))
    else if IsJsSpace(c) then Int(0)
    else NaN
  }

  /**
   * `parseInt(data.slots[i])` for the mesh named `name`: the loader stores the name's characters
   * parsed one by one (client/src/loader.js:79), so a digit gives its value and anything else,
   * or a position past the end of the name, gives NaN.
   */
  function SlotNumber(name: string, i: nat): Num {
    if i < |name| then
      match Catalogue.ParseDigit(name[i])
      case Some(d) => Int(d)
      case None => NaN
    else NaN
  }

  // ---------------------------------------------------------------------------------------
  // getValidPieceTypes
  // ---------------------------------------------------------------------------------------

  /** The range `[lo, hi]` of one side. */
  datatype Range = Range(lo: Num, hi: Num)

  const InnieOrOuttie: Range := Range(Int(0), Int(1))
  const Flat: Range := Range(Int(2), Int(2))

  /** The loop test `slot < lo || slot > hi` fails: the slot is accepted. */
  predicate Within(slot: Num, r: Range) {
    !Less(slot, r.lo) && !Less(r.hi, slot)
  }

  /**
   * `getOpposite(piece.userData.pieceType[k])` as the comparisons read it. Past the end of the
   * name the character is undefined, `getOpposite` returns it unchanged and it reads as NaN.
   */
  function Required(pieceType: string, k: nat): Num {
    if k < |pieceType| then CharNumber(ClientUtils.GetOpposite([pieceType[k]])[0]) else NaN
  }

  /** The grid of meshes placed so far: `grid[i][j]` is the mesh of cell (i, j). */
  type MeshGrid = seq<seq<Mesh>>

  /** `grid[r]?.[c]`: the mesh placed in cell (r, c), if any. */
  function Cell(grid: MeshGrid, r: int, c: int): Option<Mesh> {
    if 0 <= r < |grid| && 0 <= c < |grid[r]| then Some(grid[r][c]) else None
  }

  /** A placed neighbour pins a side to the opposite of character `k` of the neighbour's type. */
  function Pinned(neighbour: Option<Mesh>, k: nat, otherwise: Range): Range {
    match neighbour
    case None => otherwise
    case Some(m) => Range(Required(m.pieceType, k), Required(m.pieceType, k))
  }

  /** The constraints of `getValidPieceTypes`, in top, right, bottom, left order. */
  function Constraints(row: int, col: int, grid: MeshGrid, gridCols: int, gridRows: int): (cons: seq<Range>)
    ensures |cons| == 4
  {
    var top := if row == 0 then Flat else InnieOrOuttie;
    var right := if col == gridCols - 1 then Flat else InnieOrOuttie;
    var bottom := if row == gridRows - 1 then Flat else InnieOrOuttie;
    var left := if col == 0 then Flat else InnieOrOuttie;
    [Pinned(Cell(grid, row - 1, col), 2, top),
     Pinned(Cell(grid, row, col + 1), 3, right),
     Pinned(Cell(grid, row + 1, col), 0, bottom),
     Pinned(Cell(grid, row, col - 1), 1, left)]
  }

  /** The mesh named `name` passes all four range checks. */
  predicate Fits(name: string, cons: seq<Range>)
    requires |cons| == 4
  {
    Within(SlotNumber(name, 0), cons[0]) && Within(SlotNumber(name, 1), cons[1]) &&
    Within(SlotNumber(name, 2), cons[2]) && Within(SlotNumber(name, 3), cons[3])
  }

  /** The names of `keys` that pass all four range checks, in the order they are visited. */
  function FilterFitting(keys: seq<string>, cons: seq<Range>): (r: seq<string>)
    requires |cons| == 4
    ensures forall t :: t in r <==> t in keys && Fits(t, cons)
    ensures r == [] <==> forall t :: t in keys ==> !Fits(t, cons)
    ensures |r| <= |keys|
  {
    if keys == [] then []
    else
      assert forall t :: t in keys <==> t == keys[0] || t in keys[1..];
      (if Fits(keys[0], cons) then [keys[0]] else []) + FilterFitting(keys[1..], cons)
  }

  /**
   * `getValidPieceTypes(row, col, grid, gridCols, gridRows)`: the names of the loaded meshes, in
   * the order `Object.entries(meshMap)` visits them (`meshMap`), that pass the cell's constraints.
   * Row `row` of the grid must exist: the source reads `grid[row][...]` without a guard.
   */
  function ValidPieceTypes(row: int, col: int, grid: MeshGrid, gridCols: int, gridRows: int, meshMap: seq<string>): (valid: seq<string>)
    requires 0 <= row < |grid|
    ensures forall t :: t in valid <==> t in meshMap && Fits(t, Constraints(row, col, grid, gridCols, gridRows))
    ensures valid == [] <==> forall t :: t in meshMap ==> !Fits(t, Constraints(row, col, grid, gridCols, gridRows))
  {
    FilterFitting(meshMap, Constraints(row, col, grid, gridCols, gridRows))
  }

  /**
   * A side with no placed neighbour is flat on the border and innie-or-outtie inside it; the
   * four border tests are independent of each other.
   */
  lemma UnpinnedSides(row: int, col: int, grid: MeshGrid, gridCols: int, gridRows: int)
    ensures var cons := Constraints(row, col, grid, gridCols, gridRows);
            (Cell(grid, row - 1, col).None? ==> cons[0] == if row == 0 then Flat else InnieOrOuttie) &&
            (Cell(grid, row, col + 1).None? ==> cons[1] == if col == gridCols - 1 then Flat else InnieOrOuttie) &&
            (Cell(grid, row + 1, col).None? ==> cons[2] == if row == gridRows - 1 then Flat else InnieOrOuttie) &&
            (Cell(grid, row, col - 1).None? ==> cons[3] == if col == 0 then Flat else InnieOrOuttie)
  {
  }

  /** Inside the border an unpinned side never accepts a flat slot. */
  lemma InnieOrOuttieNeverFlat(name: string, i: nat)
    requires Within(SlotNumber(name, i), InnieOrOuttie)
    ensures i < |name| ==> name[i] != '2'
  {
  }

  /** On the border an unpinned side accepts a digit only if it is the flat one. */
  lemma FlatAcceptsOnlyFlat(name: string, i: nat)
    requires Within(SlotNumber(name, i), Flat) && i < |name| && Catalogue.IsDigit(name[i])
    ensures name[i] == '2'
  {
  }

  /** A character that is not a digit parses as NaN, and NaN passes every range check. */
  lemma NonDigitPasses(name: string, i: nat, r: Range)
    requires i < |name| && !Catalogue.IsDigit(name[i])
    ensures Within(SlotNumber(name, i), r)
  {
  }

  /**
   * A neighbour whose facing character is a tab type pins the side: a digit accepted there is the
   * opposite tab type, as the client's `getOpposite` computes it.
   */
  lemma PinnedFacesOpposite(m: Mesh, k: nat, otherwise: Range, name: string, i: nat)
    requires k < |m.pieceType| && Catalogue.IsTabChar(m.pieceType[k])
    requires i < |name| && Catalogue.IsDigit(name[i])
    requires Within(SlotNumber(name, i), Pinned(Some(m), k, otherwise))
    ensures [name[i]] == ClientUtils.GetOpposite([m.pieceType[k]])
  {
    var o := ClientUtils.GetOpposite([m.pieceType[k]]);
    assert Catalogue.IsTabChar(o[0]);
    assert Required(m.pieceType, k) == Int(Catalogue.DigitValue(o[0]));
    assert Catalogue.DigitValue(name[i]) == Catalogue.DigitValue(o[0]);
  }

  // ---------------------------------------------------------------------------------------
  // Instance names
  // ---------------------------------------------------------------------------------------

  function DigitChar(d: nat): (c: char)
    requires d < 10
    ensures Catalogue.IsDigit(c) && Catalogue.DigitValue(c) == d
  {
    (48 + d) as char
  }

  /** `${n}` for a natural number: its decimal digits, most significant first. */
  function Decimal(n: nat): (r: string)
    ensures |r| >= 1 && Catalogue.AllDigits(r)
    ensures |r| == 1 <==> n < 10
    decreases n
  {
    if n < 10 then [DigitChar(n)] else Decimal(n / 10) + [DigitChar(n % 10)]
  }

  /** Different numbers are written differently. */
  lemma {:induction false} DecimalInjective(a: nat, b: nat)
    requires Decimal(a) == Decimal(b)
    ensures a == b
    decreases a
  {
    if a >= 10 && b >= 10 {
      var da, db := Decimal(a), Decimal(b);
      assert da[..|da| - 1] == Decimal(a / 10) && da[|da| - 1] == DigitChar(a % 10);
      assert db[..|db| - 1] == Decimal(b / 10) && db[|db| - 1] == DigitChar(b % 10);
      DecimalInjective(a / 10, b / 10);
    } else if a < 10 && b < 10 {
      assert DigitChar(a) == Decimal(a)[0] == Decimal(b)[0] == DigitChar(b);
    }
  }

  /** `${pieceType}_${n}`, the name of the n-th mesh of a piece type. */
  function InstanceName(pieceType: string, n: nat): string {
    pieceType + "_" + Decimal(n)
  }

  /**
   * A name determines its piece type and instance number: the number has no underscore, so the
   * name's last underscore is the separator.
   */
  lemma InstanceNameInjective(t1: string, n1: nat, t2: string, n2: nat)
    requires InstanceName(t1, n1) == InstanceName(t2, n2)
    ensures t1 == t2 && n1 == n2
  {
    var s := InstanceName(t1, n1);
    var d1, d2 := Decimal(n1), Decimal(n2);
    if |t1| < |t2| {
      NoUnderscoreAfterSeparator(t1, d1, |t2|);
      assert false;
    } else if |t2| < |t1| {
      NoUnderscoreAfterSeparator(t2, d2, |t1|);
      assert false;
    }
    assert t1 == s[..|t1|] == t2;
    assert d1 == s[|t1| + 1..] == d2;
    DecimalInjective(n1, n2);
  }

  /** Past the separator a name holds only the digits of the instance number. */
  lemma NoUnderscoreAfterSeparator(t: string, d: string, k: int)
    requires Catalogue.AllDigits(d) && |t| < k < |t| + 1 + |d|
    ensures (t + "_" + d)[k] != '_'
  {
    assert (t + "_" + d)[k] == d[k - |t| - 1];
  }

  /** How often `t` occurs in `s`. */
  function Count(s: seq<string>, t: string): nat {
    if s == [] then 0 else Count(s[..|s| - 1], t) + (if s[|s| - 1] == t then 1 else 0)
  }

  lemma CountAppend(s: seq<string>, x: string, t: string)
    ensures Count(s + [x], t) == Count(s, t) + (if x == t then 1 else 0)
  {
    assert (s + [x])[..|s|] == s;
  }

  /** A prefix holds no more occurrences than the whole. */
  lemma {:induction false} CountPrefix(a: seq<string>, b: seq<string>, t: string)
    requires a <= b
    ensures Count(a, t) <= Count(b, t)
    decreases |b|
  {
    if |a| < |b| {
      assert a <= b[..|b| - 1];
      CountPrefix(a, b[..|b| - 1], t);
    } else {
      assert a == b;
    }
  }

  // ---------------------------------------------------------------------------------------
  // generatePieces
  // ---------------------------------------------------------------------------------------

  /** The piece types of a row of meshes. */
  function Types(row: seq<Mesh>): (r: seq<string>)
    ensures |r| == |row| && forall k | 0 <= k < |row| :: r[k] == row[k].pieceType
  {
    seq(|row|, k requires 0 <= k < |row| => row[k].pieceType)
  }

  /** The piece types of whole rows of meshes, in row-major order. */
  function TypesOfRows(rows: MeshGrid): seq<string> {
    if rows == [] then [] else TypesOfRows(rows[..|rows| - 1]) + Types(rows[|rows| - 1])
  }

  /** The piece types of the cells before (i, j) in row-major order: what the counters have seen. */
  function TypesBefore(grid: MeshGrid, i: int, j: int): seq<string>
    requires 0 <= i < |grid| && 0 <= j <= |grid[i]|
  {
    TypesOfRows(grid[..i]) + Types(grid[i][..j])
  }

  /** The grid as it stood when cell (i, j) was filled. */
  function Prefix(grid: MeshGrid, i: int, j: int): MeshGrid
    requires 0 <= i < |grid| && 0 <= j <= |grid[i]|
  {
    grid[..i] + [grid[i][..j]]
  }

  /** `pieceType[k]`: the k-th character of the type name, undefined past its end. */
  function CharAt(pieceType: string, k: nat): Option<char> {
    if k < |pieceType| then Some(pieceType[k]) else None
  }

  /**
   * The mesh `generatePieces` creates for cell (i, j) as the n-th instance of `pieceType`: named
   * after both, alone in its group, centred in its cell on the table, its slot types the
   * characters of the type name, no slot connected and no partner yet.
   */
  function NewMesh(pieceType: string, n: nat, i: int, j: int, rows: int, cols: int, w: real, h: real): Mesh
    requires 0 <= i && 0 <= j < cols
  {
    PieceIndexInverse(i, j, cols);
    Mesh(InstanceName(pieceType, n), pieceType, i, j, CellCentre(j, cols, w), 0.0, CellCentre(i, rows, h),
         [PieceIndex(i, j, cols)],
         MeshSlot(CharAt(pieceType, 0), false, None), MeshSlot(CharAt(pieceType, 1), false, None),
         MeshSlot(CharAt(pieceType, 2), false, None), MeshSlot(CharAt(pieceType, 3), false, None))
  }

  /**
   * Cell (i, j) holds what `generatePieces` put there: a mesh of a type that was a candidate
   * when the cell was filled, numbered by the count of earlier meshes of that type.
   */
  predicate GeneratedCell(grid: MeshGrid, i: int, j: int, rows: int, cols: int, w: real, h: real, meshMap: seq<string>)
    requires 0 <= i < |grid| && 0 <= j < |grid[i]| && j < cols
  {
    var m := grid[i][j];
    m == NewMesh(m.pieceType, Count(TypesBefore(grid, i, j), m.pieceType), i, j, rows, cols, w, h) &&
    m.pieceType in ValidPieceTypes(i, j, Prefix(grid, i, j), cols, rows, meshMap)
  }

  predicate Rectangular(grid: MeshGrid, cols: int) {
    forall r | 0 <= r < |grid| :: |grid[r]| == cols
  }

  /** The grid is filled in row-major order up to cell (i, j), every placed cell as generated. */
  predicate FilledUpTo(grid: MeshGrid, i: int, j: int, rows: int, cols: int, w: real, h: real, meshMap: seq<string>) {
    0 <= i < rows && |grid| == i + 1 && 0 <= j <= cols && |grid[i]| == j && Rectangular(grid[..i], cols) &&
    forall r, c | 0 <= r <= i && 0 <= c < |grid[r]| :: GeneratedCell(grid, r, c, rows, cols, w, h, meshMap)
  }

  /** The grid `generatePieces` returns. */
  predicate Generated(grid: MeshGrid, rows: int, cols: int, w: real, h: real, meshMap: seq<string>) {
    |grid| == rows && Rectangular(grid, cols) &&
    forall r, c | 0 <= r < rows && 0 <= c < cols :: GeneratedCell(grid, r, c, rows, cols, w, h, meshMap)
  }

  /** Every generated mesh starts as a group of its own. */
  lemma GeneratedGroup(grid: MeshGrid, rows: int, cols: int, w: real, h: real, meshMap: seq<string>, i: int, j: int)
    requires Generated(grid, rows, cols, w, h, meshMap) && 0 <= i < rows && 0 <= j < cols
    ensures grid[i][j].connectedGroup == [PieceIndex(i, j, cols)]
  {
    assert GeneratedCell(grid, i, j, rows, cols, w, h, meshMap);
  }

  /** Why generation stops: cell (row, col) of the grid `placed` has no candidate type. */
  datatype GenerationError = NoCandidate(row: int, col: int, placed: MeshGrid)

  /** `pieceInstanceCounts[t]`, zero for a type not seen yet. */
  function Get(counts: map<string, nat>, t: string): nat {
    if t in counts then counts[t] else 0
  }

  /**
   * `generatePieces(cols, rows)`. The random pick among the candidates of cell (i, j) is the
   * oracle `pick(i, j, n)`, any index below n. A cell without candidates stops generation (the
   * source reads the geometry of an undefined mesh there).
   */
  method GeneratePieces(cfg: Config, cols: nat, rows: nat, meshMap: seq<string>, pick: (int, int, nat) -> nat)
    returns (r: Result<MeshGrid, GenerationError>)
    requires forall i, j, n :: n > 0 ==> pick(i, j, n) < n
    ensures r.Success? ==> Generated(r.value, rows, cols, ScaledWidth(cfg), ScaledHeight(cfg), meshMap)
    ensures r.Failure? ==>
              var e := r.error;
              FilledUpTo(e.placed, e.row, e.col, rows, cols, ScaledWidth(cfg), ScaledHeight(cfg), meshMap) && e.col < cols &&
              ValidPieceTypes(e.row, e.col, e.placed, cols, rows, meshMap) == []
  {
    var w, h := ScaledWidth(cfg), ScaledHeight(cfg);
    var grid: MeshGrid := [];
    var counts: map<string, nat> := map[];
    var i := 0;
    while i < rows
      invariant 0 <= i <= rows && |grid| == i && Rectangular(grid, cols)
      invariant forall r, c | 0 <= r < i && 0 <= c < cols :: GeneratedCell(grid, r, c, rows, cols, w, h, meshMap)
      invariant forall t :: Get(counts, t) == Count(TypesOfRows(grid), t)
    {
      StartRow(grid, i, rows, cols, w, h, meshMap);
      var failure;
      failure, grid, counts := FillRow(grid + [[]], counts, i, rows, cols, w, h, meshMap, pick);
      if failure.Some? {
        return Failure(failure.value);
      }
      i := i + 1;
    }
    r := Success(grid);
  }

  /** Opening row i with `grid[i] = []` keeps every placed cell as it was and the counters' history. */
  lemma StartRow(grid: MeshGrid, i: nat, rows: nat, cols: nat, w: real, h: real, meshMap: seq<string>)
    requires 0 <= i < rows && |grid| == i && Rectangular(grid, cols)
    requires forall r, c | 0 <= r < i && 0 <= c < cols :: GeneratedCell(grid, r, c, rows, cols, w, h, meshMap)
    ensures FilledUpTo(grid + [[]], i, 0, rows, cols, w, h, meshMap)
    ensures TypesBefore(grid + [[]], i, 0) == TypesOfRows(grid)
  {
    var g := grid + [[]];
    assert g[..i] == grid;
    forall r, c | 0 <= r <= i && 0 <= c < |g[r]|
      ensures GeneratedCell(g, r, c, rows, cols, w, h, meshMap)
    {
      assert g[r] == grid[r] && g[..r] == grid[..r];
      assert GeneratedCell(grid, r, c, rows, cols, w, h, meshMap);
    }
  }

  /**
   * One row of `generatePieces`: row i of the grid is filled cell by cell, each cell taking the
   * picked candidate and the next number of its type. It stops at the first cell without a candidate.
   */
  method FillRow(grid: MeshGrid, counts: map<string, nat>, i: nat, rows: nat, cols: nat, w: real, h: real,
                 meshMap: seq<string>, pick: (int, int, nat) -> nat)
    returns (failure: Option<GenerationError>, grid': MeshGrid, counts': map<string, nat>)
    requires forall i, j, n :: n > 0 ==> pick(i, j, n) < n
    requires FilledUpTo(grid, i, 0, rows, cols, w, h, meshMap)
    requires forall t :: Get(counts, t) == Count(TypesBefore(grid, i, 0), t)
    ensures failure.Some? ==>
              var e := failure.value;
              FilledUpTo(e.placed, e.row, e.col, rows, cols, w, h, meshMap) && e.col < cols &&
              ValidPieceTypes(e.row, e.col, e.placed, cols, rows, meshMap) == []
    ensures failure.None? ==>
              |grid'| == i + 1 && Rectangular(grid', cols) &&
              (forall r, c | 0 <= r <= i && 0 <= c < cols :: GeneratedCell(grid', r, c, rows, cols, w, h, meshMap)) &&
              forall t :: Get(counts', t) == Count(TypesOfRows(grid'), t)
  {
    grid', counts' := grid, counts;
    var j := 0;
    while j < cols
      invariant FilledUpTo(grid', i, j, rows, cols, w, h, meshMap)
      invariant forall t :: Get(counts', t) == Count(TypesBefore(grid', i, j), t)
    {
      var validTypes := ValidPieceTypes(i, j, grid', cols, rows, meshMap);
      if |validTypes| == 0 {
        return Some(NoCandidate(i, j, grid')), grid', counts';
      }
      var pieceType := validTypes[pick(i, j, |validTypes|)];
      var instanceNum := Get(counts', pieceType);
      var mesh := NewMesh(pieceType, instanceNum, i, j, rows, cols, w, h);
      PlaceCell(grid', i, j, rows, cols, w, h, meshMap, mesh);
      CountAppend(TypesBefore(grid', i, j), pieceType, pieceType);
      forall t | t != pieceType
        ensures Count(TypesBefore(grid', i, j) + [pieceType], t) == Count(TypesBefore(grid', i, j), t)
      {
        CountAppend(TypesBefore(grid', i, j), pieceType, t);
      }
      counts' := counts'[pieceType := instanceNum + 1];
      grid' := grid'[i := grid'[i] + [mesh]];
      j := j + 1;
    }
    assert grid'[..i] + [grid'[i]] == grid';
    assert TypesOfRows(grid') == TypesBefore(grid', i, j);
    failure := None;
  }

  /**
   * Appending the mesh chosen for cell (i, j) keeps every placed cell as generated and adds the
   * new one, and the counters' history grows by its type.
   */
  lemma PlaceCell(grid: MeshGrid, i: int, j: int, rows: int, cols: int, w: real, h: real, meshMap: seq<string>, m: Mesh)
    requires FilledUpTo(grid, i, j, rows, cols, w, h, meshMap) && j < cols
    requires m == NewMesh(m.pieceType, Count(TypesBefore(grid, i, j), m.pieceType), i, j, rows, cols, w, h)
    requires m.pieceType in ValidPieceTypes(i, j, grid, cols, rows, meshMap)
    ensures var g := grid[i := grid[i] + [m]];
            FilledUpTo(g, i, j + 1, rows, cols, w, h, meshMap) &&
            TypesBefore(g, i, j + 1) == TypesBefore(grid, i, j) + [m.pieceType]
  {
    var g := grid[i := grid[i] + [m]];
    AppendToRow(grid, i, j, m);
    assert GeneratedCell(g, i, j, rows, cols, w, h, meshMap);
    forall r, c | 0 <= r <= i && 0 <= c < |g[r]| && (r, c) != (i, j)
      ensures GeneratedCell(g, r, c, rows, cols, w, h, meshMap)
    {
      PlaceKeepsCell(grid, i, m, r, c);
      assert GeneratedCell(grid, r, c, rows, cols, w, h, meshMap);
    }
  }

  /** Appending mesh m to the last row, which holds j meshes, puts m in cell (i, j) with the grid before as its history. */
  lemma AppendToRow(grid: MeshGrid, i: int, j: int, m: Mesh)
    requires 0 <= i && |grid| == i + 1 && |grid[i]| == j
    ensures var g := grid[i := grid[i] + [m]];
            |g| == |grid| && |g[i]| == j + 1 && g[i][j] == m && Prefix(g, i, j) == grid &&
            TypesBefore(g, i, j) == TypesBefore(grid, i, j) &&
            TypesBefore(g, i, j + 1) == TypesBefore(grid, i, j) + [m.pieceType]
  {
    var g := grid[i := grid[i] + [m]];
    assert g[..i] == grid[..i];
    assert g[i][..j] == grid[i] == grid[i][..j];
    assert grid == grid[..i] + [grid[i]];
    assert g[i][..j + 1] == grid[i] + [m];
    assert Types(grid[i] + [m]) == Types(grid[i]) + [m.pieceType];
  }

  /** Appending to row i leaves an earlier cell, its history and the grid it was filled against as they were. */
  lemma PlaceKeepsCell(grid: MeshGrid, i: int, m: Mesh, r: int, c: int)
    requires 0 <= r <= i < |grid| && 0 <= c < |grid[r]|
    ensures var g := grid[i := grid[i] + [m]];
            0 <= c < |g[r]| && g[r][c] == grid[r][c] &&
            TypesBefore(g, r, c) == TypesBefore(grid, r, c) && Prefix(g, r, c) == Prefix(grid, r, c)
  {
    var g := grid[i := grid[i] + [m]];
    assert g[..r] == grid[..r];
    assert g[r][..c] == grid[r][..c];
  }

  // ---------------------------------------------------------------------------------------
  // What a generated grid satisfies
  // ---------------------------------------------------------------------------------------

  lemma {:induction false} RowsPrefix(grid: MeshGrid, a: int, b: int)
    requires 0 <= a <= b <= |grid|
    ensures TypesOfRows(grid[..a]) <= TypesOfRows(grid[..b])
    decreases b - a
  {
    if a < b {
      RowsPrefix(grid, a, b - 1);
      assert grid[..b][..b - 1] == grid[..b - 1];
    }
  }

  /** The history of a cell, followed by its own type, is a prefix of the history of every later cell. */
  lemma HistoryGrows(grid: MeshGrid, cols: int, i1: int, j1: int, i2: int, j2: int)
    requires Rectangular(grid, cols) && 0 <= i1 < |grid| && 0 <= j1 < cols && 0 <= i2 < |grid| && 0 <= j2 < cols
    requires i1 < i2 || (i1 == i2 && j1 < j2)
    ensures TypesBefore(grid, i1, j1) + [grid[i1][j1].pieceType] <= TypesBefore(grid, i2, j2)
  {
    var row := grid[i1];
    assert row[..j1 + 1] == row[..j1] + [row[j1]];
    assert Types(row[..j1] + [row[j1]]) == Types(row[..j1]) + [row[j1].pieceType];
    var a := TypesOfRows(grid[..i1]) + Types(row[..j1 + 1]);
    assert TypesBefore(grid, i1, j1) + [row[j1].pieceType] == a;
    if i1 == i2 {
      assert Types(row[..j1 + 1]) <= Types(row[..j2]);
    } else {
      assert Types(row[..j1 + 1]) <= Types(row);
      assert grid[..i1 + 1][..i1] == grid[..i1];
      assert TypesOfRows(grid[..i1 + 1]) == TypesOfRows(grid[..i1]) + Types(row);
      RowsPrefix(grid, i1 + 1, i2);
      assert a <= TypesOfRows(grid[..i1 + 1]);
    }
  }

  /** A later mesh of the same type has a higher instance number, so no name repeats. */
  lemma NamesOrdered(grid: MeshGrid, rows: int, cols: int, w: real, h: real, meshMap: seq<string>, i1: int, j1: int, i2: int, j2: int)
    requires Generated(grid, rows, cols, w, h, meshMap)
    requires 0 <= i1 < rows && 0 <= j1 < cols && 0 <= i2 < rows && 0 <= j2 < cols
    requires i1 < i2 || (i1 == i2 && j1 < j2)
    ensures grid[i1][j1].name != grid[i2][j2].name
  {
    var m1, m2 := grid[i1][j1], grid[i2][j2];
    assert GeneratedCell(grid, i1, j1, rows, cols, w, h, meshMap);
    assert GeneratedCell(grid, i2, j2, rows, cols, w, h, meshMap);
    var h1, h2 := TypesBefore(grid, i1, j1), TypesBefore(grid, i2, j2);
    if m1.name == m2.name {
      InstanceNameInjective(m1.pieceType, Count(h1, m1.pieceType), m2.pieceType, Count(h2, m2.pieceType));
      HistoryGrows(grid, cols, i1, j1, i2, j2);
      CountAppend(h1, m1.pieceType, m1.pieceType);
      CountPrefix(h1 + [m1.pieceType], h2, m1.pieceType);
      assert false;
    }
  }

  /** The per-type counters make every instance name unique across the grid. */
  lemma NamesUnique(grid: MeshGrid, rows: int, cols: int, w: real, h: real, meshMap: seq<string>)
    requires Generated(grid, rows, cols, w, h, meshMap)
    ensures forall i1, j1, i2, j2 | 0 <= i1 < rows && 0 <= j1 < cols && 0 <= i2 < rows && 0 <= j2 < cols && (i1, j1) != (i2, j2) ::
              grid[i1][j1].name != grid[i2][j2].name
  {
    forall i1, j1, i2, j2 | 0 <= i1 < rows && 0 <= j1 < cols && 0 <= i2 < rows && 0 <= j2 < cols && (i1, j1) != (i2, j2)
      ensures grid[i1][j1].name != grid[i2][j2].name
    {
      if i1 < i2 || (i1 == i2 && j1 < j2) {
        NamesOrdered(grid, rows, cols, w, h, meshMap, i1, j1, i2, j2);
      } else {
        NamesOrdered(grid, rows, cols, w, h, meshMap, i2, j2, i1, j1);
      }
    }
  }

  /** When cell (i, j) was filled, only its top and left neighbours were on the grid. */
  lemma PrefixNeighbours(grid: MeshGrid, cols: int, i: int, j: int)
    requires Rectangular(grid, cols) && 0 <= i < |grid| && 0 <= j < cols
    ensures var p := Prefix(grid, i, j);
            Cell(p, i - 1, j) == (if i > 0 then Some(grid[i - 1][j]) else None) &&
            Cell(p, i, j + 1) == None && Cell(p, i + 1, j) == None &&
            Cell(p, i, j - 1) == (if j > 0 then Some(grid[i][j - 1]) else None)
  {
  }

  /** With every loaded name a signature, every generated mesh's type is one. */
  lemma GeneratedSignature(grid: MeshGrid, rows: int, cols: int, w: real, h: real, meshMap: seq<string>, i: int, j: int)
    requires Generated(grid, rows, cols, w, h, meshMap) && forall t :: t in meshMap ==> Catalogue.IsSignature(t)
    requires 0 <= i < rows && 0 <= j < cols
    ensures Catalogue.IsSignature(grid[i][j].pieceType)
    ensures var m := grid[i][j];
            m.row == i && m.col == j &&
            m.top.tabType == Some(m.pieceType[0]) && m.right.tabType == Some(m.pieceType[1]) &&
            m.bottom.tabType == Some(m.pieceType[2]) && m.left.tabType == Some(m.pieceType[3])
  {
    assert GeneratedCell(grid, i, j, rows, cols, w, h, meshMap);
  }

  /**
   * The sides of cell (i, j) as its candidate filter left them: flat towards the right and
   * bottom border and not flat inside it, flat on the top and left border, and elsewhere the
   * opposite of the placed neighbour's facing character.
   */
  lemma CellSides(grid: MeshGrid, rows: int, cols: int, w: real, h: real, meshMap: seq<string>, i: int, j: int)
    requires Generated(grid, rows, cols, w, h, meshMap) && forall t :: t in meshMap ==> Catalogue.IsSignature(t)
    requires 0 <= i < rows && 0 <= j < cols
    ensures Catalogue.IsSignature(grid[i][j].pieceType)
    ensures i > 0 ==> Catalogue.IsSignature(grid[i - 1][j].pieceType)
    ensures j > 0 ==> Catalogue.IsSignature(grid[i][j - 1].pieceType)
    ensures var t := grid[i][j].pieceType;
            (t[1] == '2' <==> j == cols - 1) && (t[2] == '2' <==> i == rows - 1) &&
            (i == 0 ==> t[0] == '2') && (j == 0 ==> t[3] == '2') &&
            (i > 0 ==> [t[0]] == ClientUtils.GetOpposite([grid[i - 1][j].pieceType[2]])) &&
            (j > 0 ==> [t[3]] == ClientUtils.GetOpposite([grid[i][j - 1].pieceType[1]]))
  {
    assert GeneratedCell(grid, i, j, rows, cols, w, h, meshMap);
    var m := grid[i][j];
    var t := m.pieceType;
    var p := Prefix(grid, i, j);
    var cons := Constraints(i, j, p, cols, rows);
    GeneratedSignature(grid, rows, cols, w, h, meshMap, i, j);
    assert Fits(t, cons);
    PrefixNeighbours(grid, cols, i, j);
    if i > 0 {
      GeneratedSignature(grid, rows, cols, w, h, meshMap, i - 1, j);
      PinnedFacesOpposite(grid[i - 1][j], 2, InnieOrOuttie, t, 0);
    } else {
      FlatAcceptsOnlyFlat(t, 0);
    }
    if j > 0 {
      GeneratedSignature(grid, rows, cols, w, h, meshMap, i, j - 1);
      PinnedFacesOpposite(grid[i][j - 1], 1, InnieOrOuttie, t, 3);
    } else {
      FlatAcceptsOnlyFlat(t, 3);
    }
    if j == cols - 1 {
      FlatAcceptsOnlyFlat(t, 1);
    } else {
      InnieOrOuttieNeverFlat(t, 1);
    }
    if i == rows - 1 {
      FlatAcceptsOnlyFlat(t, 2);
    } else {
      InnieOrOuttieNeverFlat(t, 2);
    }
  }

  /** The tab characters of two facing slots are opposite tab types. */
  predicate FacesOpposite(a: MeshSlot, b: MeshSlot) {
    a.tabType.Some? && b.tabType.Some? && Catalogue.IsTabChar(a.tabType.value) &&
    [b.tabType.value] == ClientUtils.GetOpposite([a.tabType.value])
  }

  /** A mesh's slots are flat exactly on the sides that lie on the border of the board. */
  predicate FlatExactlyOnBorder(m: Mesh, rows: int, cols: int) {
    (m.top.tabType == Some('2') <==> m.row == 0) && (m.right.tabType == Some('2') <==> m.col == cols - 1) &&
    (m.bottom.tabType == Some('2') <==> m.row == rows - 1) && (m.left.tabType == Some('2') <==> m.col == 0)
  }

  /**
   * With every loaded name a signature, the generated board fits together: each mesh is flat
   * exactly on the border, and the facing slots of horizontal and vertical neighbours are opposite
   * tab types.
   */
  lemma GeneratedInterlocks(grid: MeshGrid, rows: int, cols: int, w: real, h: real, meshMap: seq<string>, i: int, j: int)
    requires Generated(grid, rows, cols, w, h, meshMap) && forall t :: t in meshMap ==> Catalogue.IsSignature(t)
    requires 0 <= i < rows && 0 <= j < cols
    ensures FlatExactlyOnBorder(grid[i][j], rows, cols)
    ensures j + 1 < cols ==> FacesOpposite(grid[i][j].right, grid[i][j + 1].left)
    ensures i + 1 < rows ==> FacesOpposite(grid[i][j].bottom, grid[i + 1][j].top)
  {
    BorderFlat(grid, rows, cols, w, h, meshMap, i, j);
    if j + 1 < cols {
      RightFacesLeft(grid, rows, cols, w, h, meshMap, i, j);
    }
    if i + 1 < rows {
      BottomFacesTop(grid, rows, cols, w, h, meshMap, i, j);
    }
  }

  lemma BorderFlat(grid: MeshGrid, rows: int, cols: int, w: real, h: real, meshMap: seq<string>, i: int, j: int)
    requires Generated(grid, rows, cols, w, h, meshMap) && forall t :: t in meshMap ==> Catalogue.IsSignature(t)
    requires 0 <= i < rows && 0 <= j < cols
    ensures FlatExactlyOnBorder(grid[i][j], rows, cols)
  {
    CellSides(grid, rows, cols, w, h, meshMap, i, j);
    GeneratedSignature(grid, rows, cols, w, h, meshMap, i, j);
    var t := grid[i][j].pieceType;
    if i > 0 {
      CellSides(grid, rows, cols, w, h, meshMap, i - 1, j);
      ClientUtils.OppositeOfInnieOrOuttie(grid[i - 1][j].pieceType[2]);
      assert t[0] != '2';
    }
    if j > 0 {
      CellSides(grid, rows, cols, w, h, meshMap, i, j - 1);
      ClientUtils.OppositeOfInnieOrOuttie(grid[i][j - 1].pieceType[1]);
      assert t[3] != '2';
    }
  }


  lemma RightFacesLeft(grid: MeshGrid, rows: int, cols: int, w: real, h: real, meshMap: seq<string>, i: int, j: int)
    requires Generated(grid, rows, cols, w, h, meshMap) && forall t :: t in meshMap ==> Catalogue.IsSignature(t)
    requires 0 <= i < rows && 0 <= j && j + 1 < cols
    ensures FacesOpposite(grid[i][j].right, grid[i][j + 1].left)
  {
    CellSides(grid, rows, cols, w, h, meshMap, i, j + 1);
    GeneratedSignature(grid, rows, cols, w, h, meshMap, i, j);
    GeneratedSignature(grid, rows, cols, w, h, meshMap, i, j + 1);
  }

  lemma BottomFacesTop(grid: MeshGrid, rows: int, cols: int, w: real, h: real, meshMap: seq<string>, i: int, j: int)
    requires Generated(grid, rows, cols, w, h, meshMap) && forall t :: t in meshMap ==> Catalogue.IsSignature(t)
    requires 0 <= i && i + 1 < rows && 0 <= j < cols
    ensures FacesOpposite(grid[i][j].bottom, grid[i + 1][j].top)
  {
    CellSides(grid, rows, cols, w, h, meshMap, i + 1, j);
    GeneratedSignature(grid, rows, cols, w, h, meshMap, i, j);
    GeneratedSignature(grid, rows, cols, w, h, meshMap, i + 1, j);
  }

  // ---------------------------------------------------------------------------------------
  // spawnPuzzle
  // ---------------------------------------------------------------------------------------

  /** `grid[r]?.[c]` on a rectangular grid, as a mesh id: the row-major index of the mesh in cell (r, c), if any. */
  function MeshAt(grid: MeshGrid, r: int, c: int, cols: int): (id: Option<nat>)
    requires Rectangular(grid, cols)
    ensures id.Some? <==> OnGrid((r, c), |grid|, cols)
    ensures id.Some? ==> id.value == PieceIndex(r, c, cols)
  {
    if 0 <= r < |grid| && 0 <= c < |grid[r]| then
      PieceIndexInRange(r, c, |grid|, cols);
      Some(PieceIndex(r, c, cols))
    else None
  }

  /** A slot takes its partner; a slot left without one is marked connected, any other keeps its flag. */
  function LinkSlot(slot: MeshSlot, partner: Option<nat>): MeshSlot {
    slot.(partnerPiece := partner, isConnected := if partner.None? then true else slot.isConnected)
  }

  /** The mesh of cell (i, j) after `spawnPuzzle`: every slot linked to the grid neighbour across it. */
  function Linked(m: Mesh, i: int, j: int, rows: int, cols: int): (r: Mesh)
    ensures SameButSlots(r, m)
    ensures forall s :: SlotOf(r, s) == LinkSlot(SlotOf(m, s), PartnerIndex(i, j, s, rows, cols))
  {
    m.(top := LinkSlot(m.top, PartnerIndex(i, j, Top, rows, cols)),
       right := LinkSlot(m.right, PartnerIndex(i, j, Right, rows, cols)),
       bottom := LinkSlot(m.bottom, PartnerIndex(i, j, Bottom, rows, cols)),
       left := LinkSlot(m.left, PartnerIndex(i, j, Left, rows, cols)))
  }

  /**
   * `spawnPuzzle(grid)`: every mesh's slots are pointed at the meshes above, right of, below and
   * left of it, and a slot with nothing there is marked connected. The grid's first row sets the
   * width, so the grid must have one. Adding the meshes to the scene is rendering and not modelled.
   */
  method SpawnPuzzle(grid: MeshGrid) returns (linked: MeshGrid)
    requires |grid| > 0 && Rectangular(grid, |grid[0]|)
    ensures |linked| == |grid| && Rectangular(linked, |grid[0]|)
    ensures forall i, j | 0 <= i < |grid| && 0 <= j < |grid[0]| :: linked[i][j] == Linked(grid[i][j], i, j, |grid|, |grid[0]|)
  {
    var rows, cols := |grid|, |grid[0]|;
    linked := grid;
    for i := 0 to rows
      invariant |linked| == rows && Rectangular(linked, cols)
      invariant forall r, c | 0 <= r < rows && 0 <= c < cols ::
                  linked[r][c] == if r < i then Linked(grid[r][c], r, c, rows, cols) else grid[r][c]
    {
      for j := 0 to cols
        invariant |linked| == rows && Rectangular(linked, cols)
        invariant forall r, c | 0 <= r < rows && 0 <= c < cols ::
                    linked[r][c] == if r < i || (r == i && c < j) then Linked(grid[r][c], r, c, rows, cols) else grid[r][c]
      {
        var piece := LinkCell(linked, i, j, cols);
        assert linked[i][j] == grid[i][j];
        linked := linked[i := linked[i][j := piece]];
      }
    }
  }

  /**
   * The body of the second loop of `spawnPuzzle` for cell (i, j): each slot takes the mesh found
   * across it, and a slot with none is marked connected.
   */
  method LinkCell(grid: MeshGrid, i: int, j: int, cols: int) returns (piece: Mesh)
    requires Rectangular(grid, cols) && OnGrid((i, j), |grid|, cols)
    ensures piece == Linked(grid[i][j], i, j, |grid|, cols)
  {
    var rows := |grid|;
    piece := grid[i][j];
    var top, right := MeshAt(grid, i - 1, j, cols), MeshAt(grid, i, j + 1, cols);
    var bottom, left := MeshAt(grid, i + 1, j, cols), MeshAt(grid, i, j - 1, cols);
    piece := piece.(top := piece.top.(partnerPiece := top), right := piece.right.(partnerPiece := right),
                    bottom := piece.bottom.(partnerPiece := bottom), left := piece.left.(partnerPiece := left));
    if top.None? {
      piece := piece.(top := piece.top.(isConnected := true));
    }
    if right.None? {
      piece := piece.(right := piece.right.(isConnected := true));
    }
    if bottom.None? {
      piece := piece.(bottom := piece.bottom.(isConnected := true));
    }
    if left.None? {
      piece := piece.(left := piece.left.(isConnected := true));
    }
  }

  /** Cell (i2, j2) lies across side `s` of cell (i, j) exactly when (i, j) lies across the opposite side of (i2, j2). */
  lemma PartnerIndexMutual(i: int, j: int, i2: int, j2: int, s: Side, rows: int, cols: int)
    requires OnGrid((i, j), rows, cols) && OnGrid((i2, j2), rows, cols)
    ensures PartnerIndex(i, j, s, rows, cols) == Some(PieceIndex(i2, j2, cols)) <==>
            PartnerIndex(i2, j2, Opposite(s), rows, cols) == Some(PieceIndex(i, j, cols))
  {
    var n, n2 := Neighbour(i, j, s), Neighbour(i2, j2, Opposite(s));
    if PartnerIndex(i, j, s, rows, cols) == Some(PieceIndex(i2, j2, cols)) {
      PieceIndexInjective(n.0, n.1, i2, j2, cols);
      assert n2 == (i, j);
    }
    if PartnerIndex(i2, j2, Opposite(s), rows, cols) == Some(PieceIndex(i, j, cols)) {
      PieceIndexInjective(n2.0, n2.1, i, j, cols);
      assert n == (i2, j2);
    }
  }

  /**
   * Partners are mutual: slot `s` of cell (i, j) points at cell (i2, j2) exactly when the opposite
   * slot of cell (i2, j2) points back at (i, j).
   */
  lemma PartnersMutual(m: Mesh, i: int, j: int, m2: Mesh, i2: int, j2: int, s: Side, rows: int, cols: int)
    requires OnGrid((i, j), rows, cols) && OnGrid((i2, j2), rows, cols)
    ensures SlotOf(Linked(m, i, j, rows, cols), s).partnerPiece == Some(PieceIndex(i2, j2, cols)) <==>
            SlotOf(Linked(m2, i2, j2, rows, cols), Opposite(s)).partnerPiece == Some(PieceIndex(i, j, cols))
  {
    PartnerIndexMutual(i, j, i2, j2, s, rows, cols);
  }


  /** A linked slot is connected exactly when it already was or no mesh lies across it. */
  lemma PreConnected(m: Mesh, i: int, j: int, s: Side, rows: int, cols: int)
    ensures SlotOf(Linked(m, i, j, rows, cols), s).isConnected <==>
            SlotOf(m, s).isConnected || !OnGrid(Neighbour(i, j, s), rows, cols)
  {
  }

  /**
   * The spawned board: every mesh keeps what generation gave it outside its slots, every slot
   * points at the mesh across it (so partners are mutual), and exactly the slots on the border of
   * the board start connected.
   */
  lemma SpawnedBoard(grid: MeshGrid, linked: MeshGrid, rows: int, cols: int, w: real, h: real, meshMap: seq<string>, i: int, j: int, s: Side)
    requires Generated(grid, rows, cols, w, h, meshMap) && |linked| == rows && Rectangular(linked, cols)
    requires forall r, c | 0 <= r < rows && 0 <= c < cols :: linked[r][c] == Linked(grid[r][c], r, c, rows, cols)
    requires 0 <= i < rows && 0 <= j < cols
    ensures SameButSlots(linked[i][j], grid[i][j]) && SlotOf(linked[i][j], s).tabType == SlotOf(grid[i][j], s).tabType
    ensures SlotOf(linked[i][j], s).partnerPiece == PartnerIndex(i, j, s, rows, cols)
    ensures SlotOf(linked[i][j], s).isConnected <==> !OnGrid(Neighbour(i, j, s), rows, cols)
  {
    assert GeneratedCell(grid, i, j, rows, cols, w, h, meshMap);
    PreConnected(grid[i][j], i, j, s, rows, cols);
  }
}
