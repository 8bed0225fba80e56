/**
 * Piece geometry on the table plane (x, z): the configuration the game reads and the
 * positional error between two pieces across a side. The same error function appears in
 * server/src/rooms/snapping.js, server/src/rooms/gameLogic.js and client/src/gameplay.js.
 */
module Geometry {
  import opened Grid

  /** The configuration values the core reads; the configuration file itself is not part of this model. */
  datatype Config = Config(
    pieceWidth: real,
    pieceHeight: real,
    aspectRatioScaleX: real,
    aspectRatioScaleZ: real,
    snapThreshold: real,
    connectionThreshold: real)

  function Abs(x: real): real { if x < 0.0 then -x else x }

  function Max(a: real, b: real): real { if a < b then b else a }

  /** A piece's width and height on the table, after the aspect-ratio scaling. */
  function ScaledWidth(cfg: Config): real { cfg.pieceWidth * cfg.aspectRatioScaleX }

  function ScaledHeight(cfg: Config): real { cfg.pieceHeight * cfg.aspectRatioScaleZ }

  /** Where a correctly placed partner across side `s` sits, relative to the piece. */
  function ExpectedOffset(cfg: Config, s: Side): (real, real) {
    match s
    case Top => (0.0, -ScaledHeight(cfg))
    case Bottom => (0.0, ScaledHeight(cfg))
    case Left => (-ScaledWidth(cfg), 0.0)
    case Right => (ScaledWidth(cfg), 0.0)
  }

  /** The error report: its Chebyshev magnitude and the correction that cancels it. */
  datatype PositionalError = PositionalError(errorMagnitude: real, deltaX: real, deltaZ: real)

  /**
   * The positional error of a partner at (x2, z2) across side `s` of a piece at (x1, z1):
   * the magnitude is the larger of the two axis errors, and the deltas are the negated errors.
   */
  function ErrorBetween(cfg: Config, x1: real, z1: real, s: Side, x2: real, z2: real): (r: PositionalError)
    ensures r.errorMagnitude >= 0.0
    ensures r.errorMagnitude == Max(Abs(r.deltaX), Abs(r.deltaZ))
    ensures r.errorMagnitude == 0.0 <==> (x2 - x1, z2 - z1) == ExpectedOffset(cfg, s)
  {
    var expected := ExpectedOffset(cfg, s);
    var errorX := (x2 - x1) - expected.0;
    var errorZ := (z2 - z1) - expected.1;
    PositionalError(Max(Abs(errorX), Abs(errorZ)), -errorX, -errorZ)
  }

  /** Translating the first piece by the negated deltas seats it exactly: the error drops to zero. */
  lemma CorrectionSeats(cfg: Config, x1: real, z1: real, s: Side, x2: real, z2: real)
    ensures var e := ErrorBetween(cfg, x1, z1, s, x2, z2);
            ErrorBetween(cfg, x1 - e.deltaX, z1 - e.deltaZ, s, x2, z2).errorMagnitude == 0.0
  {
  }

  /** Moving both pieces by the same amount leaves the error report unchanged. */
  lemma ErrorTranslationInvariant(cfg: Config, x1: real, z1: real, s: Side, x2: real, z2: real, dx: real, dz: real)
    ensures ErrorBetween(cfg, x1 + dx, z1 + dz, s, x2 + dx, z2 + dz) == ErrorBetween(cfg, x1, z1, s, x2, z2)
  {
  }

  /**
   * Seen from the partner across the opposite side the error has the same magnitude
   * and the opposite correction.
   */
  lemma ErrorSymmetric(cfg: Config, x1: real, z1: real, s: Side, x2: real, z2: real)
    ensures var e := ErrorBetween(cfg, x1, z1, s, x2, z2);
            var f := ErrorBetween(cfg, x2, z2, Opposite(s), x1, z1);
            f.errorMagnitude == e.errorMagnitude && f.deltaX == -e.deltaX && f.deltaZ == -e.deltaZ
  {
  }

  /**
   * The centre of the piece in column `col` (or row) of a board `count` pieces wide (or high)
   * with pieces `size` apart, so that the board is centred on the origin.
   */
  function CellCentre(index: int, count: int, size: real): real {
    (index as real) * size - (count as real) * size / 2.0 + size / 2.0
  }

  /** Pieces laid out at their cell centres are exactly seated against every grid neighbour. */
  lemma CellCentresAreSeated(cfg: Config, rows: int, cols: int, row: int, col: int, s: Side)
    ensures var w, h := ScaledWidth(cfg), ScaledHeight(cfg);
            var n := Neighbour(row, col, s);
            ErrorBetween(cfg, CellCentre(col, cols, w), CellCentre(row, rows, h), s,
                         CellCentre(n.1, cols, w), CellCentre(n.0, rows, h)).errorMagnitude == 0.0
  {
  }
}
