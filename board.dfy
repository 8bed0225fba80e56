/**
 * The server's piece list as a whole: the row-major layout the generator produces,
 * the group invariant, and the two group operations both server snapping files share
 * (`moveGroup` and `mergeGroups`, specified here by what they produce).
 */
module Board {
  import opened Grid
  import opened Geometry
  import opened Schema

  predicate NoDuplicates(g: seq<nat>) {
    forall i, j | 0 <= i < j < |g| :: g[i] != g[j]
  }

  /** Piece `k` sits in cell (k / cols, k % cols) of a rows x cols board. */
  predicate RowMajor(s: seq<Piece>, rows: int, cols: int) {
    |s| == rows * cols &&
    forall k | 0 <= k < |s| ::
      0 <= s[k].gridRow && 0 <= s[k].gridCol < cols && PieceIndex(s[k].gridRow, s[k].gridCol, cols) == k
  }

  /** Every group entry names a piece of the list. */
  predicate IndicesInRange(s: seq<Piece>) {
    forall k, j | 0 <= k < |s| && j in s[k].connectedPieces :: j < |s|
  }

  /**
   * Groups partition the board: each piece is in its own group, a group lists no piece twice,
   * and every member of a group holds the very same member list.
   */
  predicate GroupsConsistent(s: seq<Piece>) {
    forall k | 0 <= k < |s| ::
      k in s[k].connectedPieces && NoDuplicates(s[k].connectedPieces) &&
      forall j | j in s[k].connectedPieces :: j < |s| && s[j].connectedPieces == s[k].connectedPieces
  }

  /** The positional error of piece `q` across side `side` of piece `k`. */
  function PieceError(cfg: Config, s: seq<Piece>, k: nat, side: Side, q: nat): PositionalError
    requires k < |s| && q < |s|
  {
    ErrorBetween(cfg, s[k].positionX, s[k].positionZ, side, s[q].positionX, s[q].positionZ)
  }

  function Shift(p: Piece, dx: real, dz: real): Piece {
    p.(positionX := p.positionX + dx, positionZ := p.positionZ + dz)
  }

  /**
   * The board after `moveGroup(pieces, group, dx, dz)`: the listed pieces move on the table
   * plane one listing after the other.
   */
  function Moved(s: seq<Piece>, group: seq<nat>, dx: real, dz: real): (r: seq<Piece>)
    ensures |r| == |s|
  {
    if group == [] then s
    else
      var before, k := Moved(s, group[..|group| - 1], dx, dz), group[|group| - 1];
      if k < |before| then before[k := Shift(before[k], dx, dz)] else before
  }

  /**
   * A group without duplicates moves rigidly: each member by exactly (dx, dz), every other piece
   * not at all.
   */
  lemma {:induction false} MovedRigid(s: seq<Piece>, group: seq<nat>, dx: real, dz: real, k: nat)
    requires NoDuplicates(group) && k < |s|
    ensures Moved(s, group, dx, dz)[k] == if k in group then Shift(s[k], dx, dz) else s[k]
  {
    if group != [] {
      var init, last := group[..|group| - 1], group[|group| - 1];
      assert group == init + [last];
      assert last !in init;
      MovedRigid(s, init, dx, dz, k);
    }
  }

  /** Moving a group never touches slots, groups, grid cells, heights or holders. */
  lemma {:induction false} MovedKeepsAllButPositions(s: seq<Piece>, group: seq<nat>, dx: real, dz: real, k: nat)
    requires k < |s|
    ensures var p := Moved(s, group, dx, dz)[k];
            p.gridRow == s[k].gridRow && p.gridCol == s[k].gridCol && p.positionY == s[k].positionY &&
            p.heldBy == s[k].heldBy && p.connectedPieces == s[k].connectedPieces &&
            forall side :: GetSlot(p, side) == GetSlot(s[k], side)
  {
    if group != [] {
      MovedKeepsAllButPositions(s, group[..|group| - 1], dx, dz, k);
    }
  }

  /** Two pieces moved together keep their positional error. */
  lemma MovedKeepsErrorWithinGroup(cfg: Config, s: seq<Piece>, group: seq<nat>, dx: real, dz: real, k: nat, side: Side, q: nat)
    requires NoDuplicates(group) && k < |s| && q < |s|
    requires k in group <==> q in group
    ensures PieceError(cfg, Moved(s, group, dx, dz), k, side, q) == PieceError(cfg, s, k, side, q)
  {
    MovedRigid(s, group, dx, dz, k);
    MovedRigid(s, group, dx, dz, q);
    if k in group {
      ErrorTranslationInvariant(cfg, s[k].positionX, s[k].positionZ, side, s[q].positionX, s[q].positionZ, dx, dz);
    }
  }

  /** The board after `mergeGroups(pieces, g1, g2)` with `merged == g1 + g2`: every listed piece gets the merged list. */
  function Merged(s: seq<Piece>, merged: seq<nat>): (r: seq<Piece>)
    ensures |r| == |s|
  {
    seq(|s|, k requires 0 <= k < |s| => if k in merged then s[k].(connectedPieces := merged) else s[k])
  }

  /** Piece `k` after moving the group and merging `m`: shifted if in the group, regrouped if in `m`. */
  lemma MovedThenMergedAt(s: seq<Piece>, group: seq<nat>, dx: real, dz: real, m: seq<nat>, k: nat)
    requires NoDuplicates(group) && k < |s|
    ensures var moved := Moved(s, group, dx, dz);
            moved[k] == (if k in group then Shift(s[k], dx, dz) else s[k]) &&
            Merged(moved, m)[k] == if k in m then moved[k].(connectedPieces := m) else moved[k]
  {
    MovedRigid(s, group, dx, dz, k);
  }

  lemma GroupsDisjoint(s: seq<Piece>, a: nat, b: nat)
    requires GroupsConsistent(s) && a < |s| && b < |s|
    requires b !in s[a].connectedPieces
    ensures forall j :: j in s[a].connectedPieces ==> j !in s[b].connectedPieces
  {
  }

  lemma ConcatNoDuplicates(a: seq<nat>, b: seq<nat>)
    requires NoDuplicates(a) && NoDuplicates(b)
    requires forall j :: j in a ==> j !in b
    ensures NoDuplicates(a + b)
  {
    forall i, j | 0 <= i < j < |a + b|
      ensures (a + b)[i] != (a + b)[j]
    {
      if j >= |a| && i < |a| {
        assert (a + b)[i] in a;
        assert (a + b)[j] == b[j - |a|];
      }
    }
  }

  /**
   * Merging the group of piece `a` with the group of a piece `b` outside it keeps the groups
   * a partition: the merged list holds no duplicates and every piece of either former group
   * now carries it.
   */
  lemma MergeKeepsGroupsConsistent(s: seq<Piece>, a: nat, b: nat)
    requires GroupsConsistent(s) && a < |s| && b < |s|
    requires b !in s[a].connectedPieces
    ensures var m := s[a].connectedPieces + s[b].connectedPieces;
            NoDuplicates(m) && GroupsConsistent(Merged(s, m)) &&
            (IndicesInRange(s) ==> IndicesInRange(Merged(s, m)))
  {
    var A, B := s[a].connectedPieces, s[b].connectedPieces;
    var m := A + B;
    GroupsDisjoint(s, a, b);
    ConcatNoDuplicates(A, B);
    var r := Merged(s, m);
    forall k | 0 <= k < |r|
      ensures k in r[k].connectedPieces && NoDuplicates(r[k].connectedPieces)
      ensures forall j | j in r[k].connectedPieces :: j < |r| && r[j].connectedPieces == r[k].connectedPieces
    {
      if k !in m {
        var C := s[k].connectedPieces;
        assert forall j :: j in C ==> j !in m;
      }
    }
  }

  /**
   * A seam the cascade closes: slot `side` of group member `k` faces the grid-adjacent group
   * member `q` with a positional error below the connection threshold.
   */
  predicate Seam(cfg: Config, s: seq<Piece>, group: seq<nat>, k: nat, side: Side, q: nat) {
    k < |s| && q < |s| && k in group && q in group && GridAdjacent(s[k], side, s[q]) &&
    PieceError(cfg, s, k, side, q).errorMagnitude < cfg.connectionThreshold
  }

  /** Some piece of `members` closes a seam with slot `side` of piece `k`. */
  predicate SeamWithAny(cfg: Config, s: seq<Piece>, group: seq<nat>, k: nat, side: Side, members: seq<nat>) {
    members != [] && (Seam(cfg, s, group, k, side, members[0]) || SeamWithAny(cfg, s, group, k, side, members[1..]))
  }

  lemma {:induction false} SeamWithAnyMeans(cfg: Config, s: seq<Piece>, group: seq<nat>, k: nat, side: Side, members: seq<nat>)
    ensures SeamWithAny(cfg, s, group, k, side, members) <==> exists q :: q in members && Seam(cfg, s, group, k, side, q)
  {
    if members != [] {
      SeamWithAnyMeans(cfg, s, group, k, side, members[1..]);
      assert forall q :: q in members <==> q == members[0] || q in members[1..];
    }
  }

  /** Slot `side` of piece `k` faces a seam within the group. */
  predicate SeamClosed(cfg: Config, s: seq<Piece>, group: seq<nat>, k: nat, side: Side) {
    SeamWithAny(cfg, s, group, k, side, group)
  }

  /** Seams are mutual: the partner sees the piece across the opposite side within the same error. */
  lemma SeamSymmetric(cfg: Config, s: seq<Piece>, group: seq<nat>, k: nat, side: Side, q: nat)
    requires Seam(cfg, s, group, k, side, q)
    ensures Seam(cfg, s, group, q, Opposite(side), k)
  {
    GridAdjacentSymmetric(s[k], side, s[q]);
    ErrorSymmetric(cfg, s[k].positionX, s[k].positionZ, side, s[q].positionX, s[q].positionZ);
  }

  /** A slot closed when `closed` holds; a connected slot stays connected. */
  function Closing(slot: Slot, closed: bool): Slot {
    Slot(slot.tab, slot.connected || closed)
  }

  /** Piece `k` with every slot that faces a seam of the group marked connected. */
  function CloseSeams(cfg: Config, s: seq<Piece>, group: seq<nat>, k: nat): Piece
    requires k < |s|
  {
    var p := s[k];
    p.(slotTop := Closing(p.slotTop, SeamClosed(cfg, s, group, k, Top)),
       slotRight := Closing(p.slotRight, SeamClosed(cfg, s, group, k, Right)),
       slotBottom := Closing(p.slotBottom, SeamClosed(cfg, s, group, k, Bottom)),
       slotLeft := Closing(p.slotLeft, SeamClosed(cfg, s, group, k, Left)))
  }

  /**
   * The board after `checkIfPieceConnects(pieces, group)`: every slot of a group member that faces
   * a grid-adjacent member within the connection threshold is connected, and nothing else changes.
   */
  function Cascaded(cfg: Config, s: seq<Piece>, group: seq<nat>): (r: seq<Piece>)
    ensures |r| == |s|
  {
    seq(|s|, k requires 0 <= k < |s| => CloseSeams(cfg, s, group, k))
  }

  /**
   * The cascade only sets flags: a slot ends connected exactly when it was connected or faces a
   * seam, and everything but the flags stays as it was.
   */
  lemma CascadedSlot(cfg: Config, s: seq<Piece>, group: seq<nat>, k: nat, side: Side)
    requires k < |s|
    ensures SameButFlags(Cascaded(cfg, s, group)[k], s[k])
    ensures GetSlot(Cascaded(cfg, s, group)[k], side).connected <==>
              GetSlot(s[k], side).connected || SeamClosed(cfg, s, group, k, side)
  {
    var r := Cascaded(cfg, s, group)[k];
    assert r == CloseSeams(cfg, s, group, k);
    match side
    case Top =>
    case Right =>
    case Bottom =>
    case Left =>
  }

  /** Pieces outside the group are untouched by the cascade. */
  lemma CascadeOutsideGroup(cfg: Config, s: seq<Piece>, group: seq<nat>, k: nat)
    requires k < |s| && k !in group
    ensures Cascaded(cfg, s, group)[k] == s[k]
  {
    forall side
      ensures GetSlot(Cascaded(cfg, s, group)[k], side) == GetSlot(s[k], side)
    {
      CascadedSlot(cfg, s, group, k, side);
      SeamWithAnyMeans(cfg, s, group, k, side, group);
    }
    CascadedSlot(cfg, s, group, k, Top);
    PieceFromSlots(Cascaded(cfg, s, group)[k], s[k]);
  }
}
