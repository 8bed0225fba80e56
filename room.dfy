/**
 * The room (server/src/rooms/PuzzleRoom.js): it builds a 10 x 10 board when created and then
 * serves three messages, each a guard on the piece's holder followed by an update of the piece
 * list (`pickUpRequest`, `dragToRequest`, `dropRequest`), plus the player bookkeeping of
 * `onJoin` and `onLeave`. The handlers are specified by functions on the piece list.
 */
module Room {
  import opened Wrappers
  import opened Grid
  import opened Geometry
  import opened Schema
  import opened Board
  import opened Snapping
  import PuzzleGeneration

  /** The aspect-ratio scale along x that `onCreate` stores in the configuration. */
  function ScaleX(aspectRatio: real): real {
    if aspectRatio >= 1.0 then aspectRatio else 1.0
  }

  /** The aspect-ratio scale along z that `onCreate` stores in the configuration. */
  function ScaleZ(aspectRatio: real): real
    requires aspectRatio > 0.0
  {
    if aspectRatio <= 1.0 then 1.0 / aspectRatio else 1.0
  }

  /** Both scales are at least one and their ratio is the image's aspect ratio, so a cell has the image's shape. */
  lemma ScalesKeepAspect(aspectRatio: real)
    requires aspectRatio > 0.0
    ensures ScaleX(aspectRatio) >= 1.0 && ScaleZ(aspectRatio) >= 1.0
    ensures ScaleX(aspectRatio) == aspectRatio * ScaleZ(aspectRatio)
  {
    if aspectRatio < 1.0 {
      assert aspectRatio * (1.0 / aspectRatio) == 1.0;
    }
  }

  /** A piece lifted by (dx, dy, dz) in all three coordinates. */
  function Lift(p: Piece, dx: real, dy: real, dz: real): Piece {
    p.(positionX := p.positionX + dx, positionY := p.positionY + dy, positionZ := p.positionZ + dz)
  }

  /** The board after the move loop of the drag and drop handlers: every listed piece, one listing after the other. */
  function Translated(s: seq<Piece>, group: seq<nat>, dx: real, dy: real, dz: real): (r: seq<Piece>)
    ensures |r| == |s|
  {
    if group == [] then s
    else
      var before, k := Translated(s, group[..|group| - 1], dx, dy, dz), group[|group| - 1];
      if k < |before| then before[k := Lift(before[k], dx, dy, dz)] else before
  }

  /** A group without duplicates moves rigidly: each member by exactly (dx, dy, dz), every other piece not at all. */
  lemma {:induction false} TranslatedRigid(s: seq<Piece>, group: seq<nat>, dx: real, dy: real, dz: real, k: nat)
    requires NoDuplicates(group) && k < |s|
    ensures Translated(s, group, dx, dy, dz)[k] == if k in group then Lift(s[k], dx, dy, dz) else s[k]
  {
    if group != [] {
      var init, last := group[..|group| - 1], group[|group| - 1];
      assert group == init + [last];
      assert last !in init;
      TranslatedRigid(s, init, dx, dy, dz, k);
    }
  }

  /** The move loop changes positions only. */
  lemma {:induction false} TranslatedKeepsAllButPositions(s: seq<Piece>, group: seq<nat>, dx: real, dy: real, dz: real, k: nat)
    requires k < |s|
    ensures Translated(s, group, dx, dy, dz)[k] ==
              s[k].(positionX := Translated(s, group, dx, dy, dz)[k].positionX,
                    positionY := Translated(s, group, dx, dy, dz)[k].positionY,
                    positionZ := Translated(s, group, dx, dy, dz)[k].positionZ)
  {
    if group != [] {
      TranslatedKeepsAllButPositions(s, group[..|group| - 1], dx, dy, dz, k);
    }
  }

  /** `piece && !piece.heldBy`: the piece exists and nobody holds it. */
  predicate Free(s: seq<Piece>, id: int) {
    0 <= id < |s| && s[id].heldBy == ""
  }

  /** `piece && piece.heldBy === client.sessionId`: the piece exists and this session holds it. */
  predicate Holds(s: seq<Piece>, sessionId: string, id: int) {
    0 <= id < |s| && s[id].heldBy == sessionId
  }

  /** The two boards differ at most in who holds which piece. */
  predicate SameButHolders(a: seq<Piece>, b: seq<Piece>) {
    |a| == |b| && forall k | 0 <= k < |a| :: a[k].(heldBy := "") == b[k].(heldBy := "")
  }

  /** The board after `pickUpRequest` from `sessionId` for piece `id`. */
  function PickedUp(s: seq<Piece>, sessionId: string, id: int): (r: seq<Piece>)
    ensures SameButHolders(s, r)
  {
    if Free(s, id) then s[id := s[id].(heldBy := sessionId)] else s
  }

  /** The board after `dragToRequest` from `sessionId` moving piece `id` to (x, y, z). */
  function Dragged(s: seq<Piece>, sessionId: string, id: int, x: real, y: real, z: real): (r: seq<Piece>)
    ensures |r| == |s|
  {
    if Holds(s, sessionId, id) then
      Translated(s, s[id].connectedPieces, x - s[id].positionX, y - s[id].positionY, z - s[id].positionZ)
    else s
  }

  /** The board after `handleSnapping` runs on the held piece's group. */
  function Snapped(cfg: Config, d: seq<Piece>, id: nat): (r: seq<Piece>)
    requires id < |d| && IndicesInRange(d)
    ensures |r| == |d|
  {
    var group := d[id].connectedPieces;
    match FirstSnap(cfg, d, id, group)
    case Some(snap) => AfterSnap(cfg, d, group, snap)
    case None => d
  }

  /** The rest of `dropRequest` once the group is in place: snap the held piece's group, then release the piece. */
  function Settled(cfg: Config, d: seq<Piece>, id: nat): (r: seq<Piece>)
    requires id < |d| && IndicesInRange(d)
    ensures |r| == |d|
  {
    var after := Snapped(cfg, d, id);
    after[id := after[id].(heldBy := "")]
  }

  /** The board after `dropRequest` from `sessionId` dropping piece `id` at (x, y, z). */
  function Dropped(cfg: Config, s: seq<Piece>, sessionId: string, id: int, x: real, y: real, z: real): (r: seq<Piece>)
    requires IndicesInRange(s)
    ensures |r| == |s|
  {
    if Holds(s, sessionId, id) then
      DragKeepsGroups(s, sessionId, id, x, y, z);
      Settled(cfg, Dragged(s, sessionId, id, x, y, z), id)
    else s
  }

  /** Dragging changes positions only, so the groups and the grid cells stay. */
  lemma DragKeepsGroups(s: seq<Piece>, sessionId: string, id: int, x: real, y: real, z: real)
    ensures var d := Dragged(s, sessionId, id, x, y, z);
            SameGroups(s, d) &&
            forall k | 0 <= k < |s| :: d[k].gridRow == s[k].gridRow && d[k].gridCol == s[k].gridCol &&
                                       d[k].heldBy == s[k].heldBy &&
                                       forall side :: GetSlot(d[k], side) == GetSlot(s[k], side)
    ensures IndicesInRange(s) ==> IndicesInRange(Dragged(s, sessionId, id, x, y, z))
    ensures GroupsConsistent(s) ==> GroupsConsistent(Dragged(s, sessionId, id, x, y, z))
  {
    var d := Dragged(s, sessionId, id, x, y, z);
    if Holds(s, sessionId, id) {
      forall k | 0 <= k < |s|
        ensures d[k] == s[k].(positionX := d[k].positionX, positionY := d[k].positionY, positionZ := d[k].positionZ)
      {
        TranslatedKeepsAllButPositions(s, s[id].connectedPieces, x - s[id].positionX, y - s[id].positionY, z - s[id].positionZ, k);
      }
    }
    assert SameGroups(s, d);
    if IndicesInRange(s) {
      forall k, j | 0 <= k < |d| && j in d[k].connectedPieces
        ensures j < |d|
      {
        assert d[k].connectedPieces == s[k].connectedPieces;
      }
    }
    if GroupsConsistent(s) {
      SameGroupsConsistent(s, d);
    }
  }

  /** A free piece goes to the first session that asks; a second request leaves it with that session. */
  lemma PickUpFirstWins(s: seq<Piece>, first: string, second: string, id: int)
    requires Free(s, id) && first != ""
    ensures PickedUp(s, first, id)[id].heldBy == first
    ensures PickedUp(PickedUp(s, first, id), second, id) == PickedUp(s, first, id)
  {
  }

  /** A pick-up sets the holder of the requested piece only: its group-mates and every other piece keep theirs. */
  lemma PickUpHoldsOnlyRequested(s: seq<Piece>, sessionId: string, id: int, k: int)
    requires 0 <= k < |s| && k != id
    ensures PickedUp(s, sessionId, id)[k] == s[k]
  {
  }

  /** A request for a piece that does not exist, or from a session that does not hold it, changes nothing. */
  lemma NonHolderChangesNothing(cfg: Config, s: seq<Piece>, sessionId: string, id: int, x: real, y: real, z: real)
    requires IndicesInRange(s) && !Holds(s, sessionId, id)
    ensures Dragged(s, sessionId, id, x, y, z) == s
    ensures Dropped(cfg, s, sessionId, id, x, y, z) == s
    ensures !Free(s, id) ==> PickedUp(s, sessionId, id) == s
  {
  }

  /**
   * A drag moves the holder's whole group rigidly by the offset from the dragged piece to the
   * target, so the dragged piece lands on the target and every other piece stays.
   */
  lemma DragLandsOnTarget(s: seq<Piece>, sessionId: string, id: int, x: real, y: real, z: real, k: nat)
    requires GroupsConsistent(s) && Holds(s, sessionId, id) && k < |s|
    ensures var d := Dragged(s, sessionId, id, x, y, z);
            d[id].positionX == x && d[id].positionY == y && d[id].positionZ == z &&
            d[k] == if k in s[id].connectedPieces
                    then Lift(s[k], x - s[id].positionX, y - s[id].positionY, z - s[id].positionZ)
                    else s[k]
  {
    var g := s[id].connectedPieces;
    TranslatedRigid(s, g, x - s[id].positionX, y - s[id].positionY, z - s[id].positionZ, k);
    TranslatedRigid(s, g, x - s[id].positionX, y - s[id].positionY, z - s[id].positionZ, id);
  }

  /** Two pieces of the dragged group keep their positional error: a drag never opens a seam. */
  lemma DragKeepsSeams(cfg: Config, s: seq<Piece>, sessionId: string, id: int, x: real, y: real, z: real, k: nat, side: Side, q: nat)
    requires GroupsConsistent(s) && Holds(s, sessionId, id) && k < |s| && q < |s|
    requires k in s[id].connectedPieces && q in s[id].connectedPieces
    ensures PieceError(cfg, Dragged(s, sessionId, id, x, y, z), k, side, q) == PieceError(cfg, s, k, side, q)
  {
    var dx, dz := x - s[id].positionX, z - s[id].positionZ;
    DragLandsOnTarget(s, sessionId, id, x, y, z, k);
    DragLandsOnTarget(s, sessionId, id, x, y, z, q);
    ErrorTranslationInvariant(cfg, s[k].positionX, s[k].positionZ, side, s[q].positionX, s[q].positionZ, dx, dz);
  }

  /** A snap keeps every holder and grid cell, clears no flag and keeps the groups a partition. */
  lemma SnapKeepsBoard(cfg: Config, d: seq<Piece>, id: nat)
    requires id < |d| && GroupsConsistent(d)
    ensures var a := Snapped(cfg, d, id);
            (forall k | 0 <= k < |d| :: a[k].heldBy == d[k].heldBy && a[k].gridRow == d[k].gridRow && a[k].gridCol == d[k].gridCol) &&
            Grows(d, a) && GroupsConsistent(a)
  {
    var group := d[id].connectedPieces;
    if FirstSnap(cfg, d, id, group).Some? {
      var snap := FirstSnap(cfg, d, id, group).value;
      var a := AfterSnap(cfg, d, group, snap);
      assert Snapped(cfg, d, id) == a;
      FirstSnapMeans(cfg, d, id, group);
      AfterSnapKeepsGroups(cfg, d, id, group);
      forall k | 0 <= k < |d|
        ensures a[k].heldBy == d[k].heldBy && a[k].gridRow == d[k].gridRow && a[k].gridCol == d[k].gridCol
        ensures forall side :: GetSlot(d[k], side).connected ==> GetSlot(a[k], side).connected
      {
        AfterSnapAt(cfg, d, group, snap, k);
      }
    }
  }

  /**
   * Snapping and releasing after the move: the piece is free afterwards, no other holder changed,
   * no flag was cleared, every piece kept its grid cell and the groups are still a partition.
   */
  lemma SettledReleases(cfg: Config, d: seq<Piece>, id: nat)
    requires id < |d| && GroupsConsistent(d)
    ensures var r := Settled(cfg, d, id);
            r[id].heldBy == "" &&
            (forall k | 0 <= k < |d| && k != id :: r[k].heldBy == d[k].heldBy) &&
            (forall k | 0 <= k < |d| :: r[k].gridRow == d[k].gridRow && r[k].gridCol == d[k].gridCol) &&
            Grows(d, r) && GroupsConsistent(r)
  {
    var after := Snapped(cfg, d, id);
    SnapKeepsBoard(cfg, d, id);
    var r := Settled(cfg, d, id);
    assert SameGroups(after, r);
    SameGroupsConsistent(after, r);
  }

  /**
   * A drop by the holder leaves the piece free and no other holder changed, clears no flag,
   * keeps every piece in its grid cell and keeps the groups a partition.
   */
  lemma DropReleases(cfg: Config, s: seq<Piece>, sessionId: string, id: int, x: real, y: real, z: real)
    requires GroupsConsistent(s) && Holds(s, sessionId, id)
    ensures var r := Dropped(cfg, s, sessionId, id, x, y, z);
            r[id].heldBy == "" &&
            (forall k | 0 <= k < |s| && k != id :: r[k].heldBy == s[k].heldBy) &&
            (forall k | 0 <= k < |s| :: r[k].gridRow == s[k].gridRow && r[k].gridCol == s[k].gridCol) &&
            Grows(s, r) && GroupsConsistent(r)
  {
    DragKeepsGroups(s, sessionId, id, x, y, z);
    SettledReleases(cfg, Dragged(s, sessionId, id, x, y, z), id);
  }

  /** Every holder is a session that is still in the room. */
  predicate HoldersPresent(s: seq<Piece>, players: map<string, Player>) {
    forall k | 0 <= k < |s| :: s[k].heldBy == "" || s[k].heldBy in players
  }

  /** A pick-up by a session in the room keeps every holder present. */
  lemma PickUpKeepsHoldersPresent(s: seq<Piece>, players: map<string, Player>, sessionId: string, id: int)
    requires HoldersPresent(s, players) && sessionId in players
    ensures HoldersPresent(PickedUp(s, sessionId, id), players)
  {
  }

  /**
   * `onLeave` as written: once a session that holds a piece leaves, the piece's holder is no longer
   * in the room and no other session can pick it up, drag it or drop it.
   */
  lemma LeaveStrandsHeldPieces(cfg: Config, s: seq<Piece>, players: map<string, Player>, gone: string, id: nat,
                               other: string, x: real, y: real, z: real)
    requires IndicesInRange(s) && id < |s| && s[id].heldBy == gone && gone != "" && other != gone
    ensures !HoldersPresent(s, players - {gone})
    ensures PickedUp(s, other, id) == s
    ensures Dragged(s, other, id, x, y, z) == s && Dropped(cfg, s, other, id, x, y, z) == s
  {
    assert !(s[id].heldBy == "" || s[id].heldBy in players - {gone});
  }

  /** The pieces a leaving session holds, released. */
  function Released(s: seq<Piece>, sessionId: string): (r: seq<Piece>)
    ensures SameButHolders(s, r)
  {
    seq(|s|, k requires 0 <= k < |s| => if s[k].heldBy == sessionId then s[k].(heldBy := "") else s[k])
  }

  /** Releasing a leaving session's pieces keeps every holder present and leaves nothing held by it. */
  lemma ReleaseKeepsHoldersPresent(s: seq<Piece>, players: map<string, Player>, gone: string)
    requires HoldersPresent(s, players)
    ensures HoldersPresent(Released(s, gone), players - {gone})
    ensures gone != "" ==> forall k | 0 <= k < |s| :: Released(s, gone)[k].heldBy != gone
    ensures forall k | 0 <= k < |s| && s[k].heldBy != gone :: Released(s, gone)[k] == s[k]
  {
  }

  /** Boards that differ only in their holders keep the room's invariant together. */
  lemma SameButHoldersKeepsBoard(a: seq<Piece>, b: seq<Piece>, rows: int, cols: int)
    requires SameButHolders(a, b) && RowMajor(a, rows, cols) && GroupsConsistent(a)
    ensures RowMajor(b, rows, cols) && GroupsConsistent(b)
  {
    forall k | 0 <= k < |a|
      ensures a[k].connectedPieces == b[k].connectedPieces && a[k].gridRow == b[k].gridRow && a[k].gridCol == b[k].gridCol
    {
      assert a[k].(heldBy := "") == b[k].(heldBy := "");
    }
    SameGroupsConsistent(a, b);
  }

  /** The move loop of the drag and drop handlers: every listed piece by (dx, dy, dz). */
  method TranslateGroup(pieces: array<Piece>, group: seq<nat>, dx: real, dy: real, dz: real)
    requires InBoard(group, pieces.Length)
    modifies pieces
    ensures pieces[..] == Translated(old(pieces[..]), group, dx, dy, dz)
  {
    ghost var s := pieces[..];
    var n := 0;
    while n < |group|
      invariant 0 <= n <= |group|
      invariant pieces[..] == Translated(s, group[..n], dx, dy, dz)
    {
      var k := group[n];
      assert k in group;
      assert group[..n + 1][..n] == group[..n];
      pieces[k] := Lift(pieces[k], dx, dy, dz);
      n := n + 1;
    }
    assert group[..|group|] == group;
  }

  /** The board `onCreate` installs: `generatePuzzlePieces(10, 10, scaleX, scaleZ)` as an array. */
  method CreateBoard(c: Config, pick: (int, int, nat) -> nat) returns (a: array<Piece>)
    requires forall i, j, n :: n > 0 ==> pick(i, j, n) < n
    ensures fresh(a) && RowMajor(a[..], 10, 10) && GroupsConsistent(a[..])
    ensures PuzzleGeneration.Generated(a[..], 10, 10, ScaledWidth(c), ScaledHeight(c))
  {
    var r := PuzzleGeneration.GeneratePuzzlePieces(c, 10, 10, c.aspectRatioScaleX, c.aspectRatioScaleZ, pick);
    assert r.Success?;
    var generated := r.value;
    assert ScaledWidth(c) == c.pieceWidth * c.aspectRatioScaleX && ScaledHeight(c) == c.pieceHeight * c.aspectRatioScaleZ;
    GeneratedIsValid(generated, 10, 10, ScaledWidth(c), ScaledHeight(c));
    a := new Piece[|generated|](i requires 0 <= i < |generated| => generated[i]);
    assert a[..] == generated;
  }

  /** The room state: the board of `rows` x `cols` pieces and the players keyed by session id. */
  class PuzzleRoom {
    const cfg: Config
    const rows: nat
    const cols: nat
    const pieces: array<Piece>
    var players: map<string, Player>

    /** Every piece sits in its own cell and the groups partition the board. */
    ghost predicate Valid()
      reads pieces
    {
      RowMajor(pieces[..], rows, cols) && GroupsConsistent(pieces[..])
    }

    /**
     * `onCreate`: a 10 x 10 board generated with the image's aspect-ratio scales; the image read
     * is replaced by its aspect ratio and the random choice by `pick`.
     */
    constructor (base: Config, aspectRatio: real, pick: (int, int, nat) -> nat)
      requires aspectRatio > 0.0
      requires forall i, j, n :: n > 0 ==> pick(i, j, n) < n
      ensures Valid() && rows == 10 && cols == 10 && players == map[]
      ensures cfg == base.(aspectRatioScaleX := ScaleX(aspectRatio), aspectRatioScaleZ := ScaleZ(aspectRatio))
      ensures PuzzleGeneration.Generated(pieces[..], 10, 10, ScaledWidth(cfg), ScaledHeight(cfg))
      ensures fresh(pieces)
    {
      var c := base.(aspectRatioScaleX := ScaleX(aspectRatio), aspectRatioScaleZ := ScaleZ(aspectRatio));
      var a := CreateBoard(c, pick);
      cfg, rows, cols, pieces, players := c, 10, 10, a, map[];
    }

    /** `pickUpRequest`: a free piece becomes held by the requesting session. */
    method PickUpRequest(sessionId: string, pieceId: int)
      requires Valid()
      modifies pieces
      ensures Valid() && pieces[..] == PickedUp(old(pieces[..]), sessionId, pieceId)
    {
      ghost var s := pieces[..];
      if 0 <= pieceId < pieces.Length && pieces[pieceId].heldBy == "" {
        pieces[pieceId] := pieces[pieceId].(heldBy := sessionId);
      }
      SameButHoldersKeepsBoard(s, pieces[..], rows, cols);
    }

    /** `dragToRequest`: the holder moves the piece's group so that the piece lands on (x, y, z). */
    method DragToRequest(sessionId: string, pieceId: int, x: real, y: real, z: real)
      requires Valid()
      modifies pieces
      ensures Valid() && pieces[..] == Dragged(old(pieces[..]), sessionId, pieceId, x, y, z)
    {
      ghost var s := pieces[..];
      DragKeepsGroups(s, sessionId, pieceId, x, y, z);
      if 0 <= pieceId < pieces.Length && pieces[pieceId].heldBy == sessionId {
        var piece := pieces[pieceId];
        assert InBoard(piece.connectedPieces, pieces.Length);
        TranslateGroup(pieces, piece.connectedPieces, x - piece.positionX, y - piece.positionY, z - piece.positionZ);
      }
      RowMajorKept(s, pieces[..], rows, cols);
    }

    /**
     * `dropRequest`: the holder moves the group into place, the snapping engine of snapping.js runs
     * on the held piece's group, and the piece is released whether or not it snapped.
     */
    method DropRequest(sessionId: string, pieceId: int, x: real, y: real, z: real)
      requires Valid()
      modifies pieces
      ensures Valid() && pieces[..] == Dropped(cfg, old(pieces[..]), sessionId, pieceId, x, y, z)
    {
      ghost var s := pieces[..];
      if !(0 <= pieceId < pieces.Length && pieces[pieceId].heldBy == sessionId) {
        return;
      }
      var piece := pieces[pieceId];
      assert InBoard(piece.connectedPieces, pieces.Length);
      TranslateGroup(pieces, piece.connectedPieces, x - piece.positionX, y - piece.positionY, z - piece.positionZ);
      DragKeepsGroups(s, sessionId, pieceId, x, y, z);
      ghost var d := pieces[..];
      var droppedGroup := pieces[pieceId].connectedPieces;
      assert InBoard(droppedGroup, pieces.Length);
      var snapped := HandleSnapping(cfg, pieces, pieceId, droppedGroup);
      pieces[pieceId] := pieces[pieceId].(heldBy := "");
      DropReleases(cfg, s, sessionId, pieceId, x, y, z);
      RowMajorKept(s, pieces[..], rows, cols);
    }

    /** `onJoin`: the session's player enters with its cursor at the origin. */
    method OnJoin(sessionId: string)
      modifies this
      ensures players == old(players)[sessionId := Player(0.0, 0.0)]
    {
      players := players[sessionId := Player(0.0, 0.0)];
    }

    /** `onLeave` as written: the session's player is removed; the pieces it holds stay held. */
    method OnLeave(sessionId: string)
      modifies this
      ensures players == old(players) - {sessionId}
    {
      players := players - {sessionId};
    }

    /** `onLeave` as intended: the session's player is removed and the pieces it holds are released. */
    method OnLeaveReleasing(sessionId: string)
      requires Valid()
      modifies this, pieces
      ensures Valid()
      ensures players == old(players) - {sessionId}
      ensures pieces[..] == Released(old(pieces[..]), sessionId)
    {
      ghost var s := pieces[..];
      var k := 0;
      while k < pieces.Length
        invariant 0 <= k <= pieces.Length && players == old(players)
        invariant forall j | 0 <= j < pieces.Length ::
                    pieces[j] == if j < k && s[j].heldBy == sessionId then s[j].(heldBy := "") else s[j]
      {
        if pieces[k].heldBy == sessionId {
          pieces[k] := pieces[k].(heldBy := "");
        }
        k := k + 1;
      }
      players := players - {sessionId};
      assert pieces[..] == Released(s, sessionId);
      SameButHoldersKeepsBoard(s, pieces[..], rows, cols);
    }
  }

  /** A board whose grid cells did not change is still row-major. */
  lemma RowMajorKept(a: seq<Piece>, b: seq<Piece>, rows: int, cols: int)
    requires RowMajor(a, rows, cols) && |b| == |a|
    requires forall k | 0 <= k < |a| :: b[k].gridRow == a[k].gridRow && b[k].gridCol == a[k].gridCol
    ensures RowMajor(b, rows, cols)
  {
  }

  /** The generated board is row-major and every piece forms a group of its own. */
  lemma GeneratedIsValid(s: seq<Piece>, rows: int, cols: int, w: real, h: real)
    requires PuzzleGeneration.Generated(s, rows, cols, w, h)
    ensures RowMajor(s, rows, cols) && GroupsConsistent(s)
  {
    forall k | 0 <= k < |s|
      ensures s[k].connectedPieces == [k]
    {
      assert PuzzleGeneration.InOwnCell(s, k, rows, cols) && PuzzleGeneration.AsGenerated(s[k], rows, cols, w, h);
    }
  }
}
