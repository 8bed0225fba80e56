/**
 * The synchronised room state of the server (server/src/rooms/schema/Schema.js):
 * players, slots and puzzle pieces, and the slot accessor of server/src/rooms/gameLogic.js.
 */
module Schema {
  import opened Grid

  /** A connected player's cursor. */
  datatype Player = Player(cursorX: real, cursorY: real)

  /** One edge of a piece: its tab type (0 innie, 1 outtie, 2 flat) and whether it is joined. */
  datatype Slot = Slot(tab: int, connected: bool)

  /**
   * A puzzle piece. `connectedPieces` lists the indices of the pieces of its group
   * (itself included); `heldBy` is the holding session's id, empty when free.
   */
  datatype Piece = Piece(
    gridRow: int,
    gridCol: int,
    positionX: real,
    positionY: real,
    positionZ: real,
    heldBy: string,
    connectedPieces: seq<nat>,
    slotTop: Slot,
    slotRight: Slot,
    slotBottom: Slot,
    slotLeft: Slot)

  /** `getSlot`: the slot on side `s` (the server's snapping code reaches the same field by name). */
  function GetSlot(p: Piece, s: Side): Slot {
    match s
    case Top => p.slotTop
    case Right => p.slotRight
    case Bottom => p.slotBottom
    case Left => p.slotLeft
  }

  /** The same piece with the slot on side `s` replaced. */
  function WithSlot(p: Piece, s: Side, slot: Slot): (q: Piece)
    ensures GetSlot(q, s) == slot
    ensures forall t :: t != s ==> GetSlot(q, t) == GetSlot(p, t)
    ensures SameButSlots(q, p)
  {
    match s
    case Top => p.(slotTop := slot)
    case Right => p.(slotRight := slot)
    case Bottom => p.(slotBottom := slot)
    case Left => p.(slotLeft := slot)
  }

  /** `getSlot(piece, s).connected = true`: only that slot's flag changes, its tab type stays. */
  function MarkConnected(p: Piece, s: Side): (q: Piece)
    ensures GetSlot(q, s) == Slot(GetSlot(p, s).tab, true)
    ensures forall t :: t != s ==> GetSlot(q, t) == GetSlot(p, t)
    ensures SameButSlots(q, p)
  {
    WithSlot(p, s, GetSlot(p, s).(connected := true))
  }

  /** The two pieces agree on everything except possibly their slots. */
  predicate SameButSlots(p: Piece, q: Piece) {
    p.gridRow == q.gridRow && p.gridCol == q.gridCol &&
    p.positionX == q.positionX && p.positionY == q.positionY && p.positionZ == q.positionZ &&
    p.heldBy == q.heldBy && p.connectedPieces == q.connectedPieces
  }

  /** The two pieces agree on everything except possibly the slots' connected flags. */
  predicate SameButFlags(p: Piece, q: Piece) {
    SameButSlots(p, q) && forall s :: GetSlot(p, s).tab == GetSlot(q, s).tab
  }

  /** Two pieces that agree outside their slots and on every slot are the same piece. */
  lemma PieceFromSlots(p: Piece, q: Piece)
    requires SameButSlots(p, q)
    requires forall s :: GetSlot(p, s) == GetSlot(q, s)
    ensures p == q
  {
    assert GetSlot(p, Top) == GetSlot(q, Top);
    assert GetSlot(p, Right) == GetSlot(q, Right);
    assert GetSlot(p, Bottom) == GetSlot(q, Bottom);
    assert GetSlot(p, Left) == GetSlot(q, Left);
  }

  /** The grid-adjacency test of the snapping code: `q` sits in the cell across side `s` of `p`. */
  predicate GridAdjacent(p: Piece, s: Side, q: Piece) {
    Neighbour(p.gridRow, p.gridCol, s) == (q.gridRow, q.gridCol)
  }

  lemma GridAdjacentSymmetric(p: Piece, s: Side, q: Piece)
    ensures GridAdjacent(p, s, q) <==> GridAdjacent(q, Opposite(s), p)
  {
  }
}
