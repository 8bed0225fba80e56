/**
 * The client's puzzle pieces: the `userData` that client/src/puzzle.js attaches to each three.js
 * mesh and that client/src/gameplay.js reads and updates. A mesh is identified by its row-major
 * index on the board, so the object references of the source (a slot's `partnerPiece`, the
 * members of `connectedGroup`) are indices.
 */
module ClientMesh {
  import opened Wrappers
  import opened Grid

  /**
   * One slot of a mesh: its tab character (missing when the piece type name is shorter than
   * four characters), whether it is joined, and the mesh across it (none before the board is
   * spawned and on the border).
   */
  datatype MeshSlot = MeshSlot(tabType: Option<char>, isConnected: bool, partnerPiece: Option<nat>)

  /**
   * A mesh: its name, piece type, grid position, position on the table, the member list of
   * its group (itself included) and its four slots.
   */
  datatype Mesh = Mesh(
    name: string,
    pieceType: string,
    row: int,
    col: int,
    x: real,
    y: real,
    z: real,
    connectedGroup: seq<nat>,
    top: MeshSlot,
    right: MeshSlot,
    bottom: MeshSlot,
    left: MeshSlot)

  /** `mesh.userData.slots[slotName]`. */
  function SlotOf(m: Mesh, s: Side): MeshSlot {
    match s
    case Top => m.top
    case Right => m.right
    case Bottom => m.bottom
    case Left => m.left
  }

  /** The same mesh with the slot on side `s` replaced. */
  function WithSlot(m: Mesh, s: Side, slot: MeshSlot): (q: Mesh)
    ensures SlotOf(q, s) == slot
    ensures forall t :: t != s ==> SlotOf(q, t) == SlotOf(m, t)
    ensures SameButSlots(q, m)
  {
    match s
    case Top => m.(top := slot)
    case Right => m.(right := slot)
    case Bottom => m.(bottom := slot)
    case Left => m.(left := slot)
  }

  /** `slots[slotName].isConnected = true`: only that flag changes. */
  function MarkConnected(m: Mesh, s: Side): (q: Mesh)
    ensures SlotOf(q, s) == SlotOf(m, s).(isConnected := true)
    ensures forall t :: t != s ==> SlotOf(q, t) == SlotOf(m, t)
    ensures SameButFlags(q, m)
  {
    WithSlot(m, s, SlotOf(m, s).(isConnected := true))
  }

  /** The two meshes agree on everything except possibly their slots. */
  predicate SameButSlots(m: Mesh, q: Mesh) {
    m.name == q.name && m.pieceType == q.pieceType && m.row == q.row && m.col == q.col &&
    m.x == q.x && m.y == q.y && m.z == q.z && m.connectedGroup == q.connectedGroup
  }

  /** The two meshes agree on everything except possibly the slots' connected flags. */
  predicate SameButFlags(m: Mesh, q: Mesh) {
    SameButSlots(m, q) &&
    forall s :: SlotOf(m, s).tabType == SlotOf(q, s).tabType && SlotOf(m, s).partnerPiece == SlotOf(q, s).partnerPiece
  }

  /** Two meshes that agree outside their slots and on every slot are the same mesh. */
  lemma MeshFromSlots(m: Mesh, q: Mesh)
    requires SameButSlots(m, q)
    requires forall s :: SlotOf(m, s) == SlotOf(q, s)
    ensures m == q
  {
    assert SlotOf(m, Top) == SlotOf(q, Top);
    assert SlotOf(m, Right) == SlotOf(q, Right);
    assert SlotOf(m, Bottom) == SlotOf(q, Bottom);
    assert SlotOf(m, Left) == SlotOf(q, Left);
  }
}
