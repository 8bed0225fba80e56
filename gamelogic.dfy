/**
 * The second server snapping engine (server/src/rooms/gameLogic.js). It differs from the one in
 * snapping.js in how it finds partners: instead of scanning the board for a grid-adjacent piece
 * it asks `getPartner` for the element at the neighbouring cell's row-major index, and decides
 * group membership by the index recomputed from that element's own grid cell, and it scans the
 * dropped group in list order without trying the held piece first. On a row-major board both
 * engines agree on each slot's snap test and on the cascade, and they report the same snap when
 * the group starts with the held piece. On any other board the cascade here still only sets flags.
 */
module GameLogic {
  import opened Wrappers
  import opened Grid
  import opened Geometry
  import opened Schema
  import opened Board
  import Snapping

  /**
   * `getPartner(piece k, side)` as an index: the element it returns sits at this index of the list.
   */
  function PartnerOf(s: seq<Piece>, k: nat, side: Side, rows: int, cols: int): (r: Option<nat>)
    requires k < |s|
    ensures r.Some? ==> r.value < |s| && OnGrid(Neighbour(s[k].gridRow, s[k].gridCol, side), rows, cols)
    ensures GetPartner(s[k].gridRow, s[k].gridCol, side, s, rows, cols) == if r.Some? then Some(s[r.value]) else None
  {
    var cell := Neighbour(s[k].gridRow, s[k].gridCol, side);
    if !OnGrid(cell, rows, cols) then None
    else
      PieceIndexInRange(cell.0, cell.1, rows, cols);
      var i := PieceIndex(cell.0, cell.1, cols);
      if i < |s| then Some(i) else None
  }

  /** `getPieceIndex(partner.gridRow, partner.gridCol, cols)`: the index the membership tests use. */
  function CellIndex(p: Piece, cols: int): int {
    PieceIndex(p.gridRow, p.gridCol, cols)
  }

  /**
   * Slot `side` of piece `k` snaps: it is free, `getPartner` finds an element whose recomputed
   * index lies outside the dropped group, and the positional error is below the snap threshold.
   */
  predicate SnapsVia(cfg: Config, s: seq<Piece>, group: seq<nat>, k: nat, side: Side, rows: int, cols: int) {
    k < |s| && !GetSlot(s[k], side).connected && PartnerOf(s, k, side, rows, cols).Some? &&
    var l := PartnerOf(s, k, side, rows, cols).value;
    CellIndex(s[l], cols) !in group &&
    PieceError(cfg, s, k, side, l).errorMagnitude < cfg.snapThreshold
  }

  /** The slot loop of `checkIfPieceSnaps` for piece `k`, from slot `t` on. */
  function SearchSides(cfg: Config, s: seq<Piece>, group: seq<nat>, k: nat, t: nat, rows: int, cols: int): Option<Snapping.Snap>
    requires k < |s|
    decreases 4 - t
  {
    if t >= 4 then None
    else if SnapsVia(cfg, s, group, k, Sides[t], rows, cols) then
      Some(Snapping.ToSnap(cfg, s, k, Sides[t], PartnerOf(s, k, Sides[t], rows, cols).value))
    else SearchSides(cfg, s, group, k, t + 1, rows, cols)
  }

  /** The member loop of `checkIfPieceSnaps`, from entry `m` of the dropped group on. */
  function SearchGroup(cfg: Config, s: seq<Piece>, group: seq<nat>, m: nat, rows: int, cols: int): Option<Snapping.Snap>
    requires Snapping.InBoard(group, |s|)
    decreases |group| - m
  {
    if m >= |group| then None
    else
      assert group[m] in group;
      match SearchSides(cfg, s, group, group[m], 0, rows, cols)
      case Some(hit) => Some(hit)
      case None => SearchGroup(cfg, s, group, m + 1, rows, cols)
  }

  lemma {:induction false} SearchSidesMeans(cfg: Config, s: seq<Piece>, group: seq<nat>, k: nat, t: nat, rows: int, cols: int)
    requires k < |s|
    decreases 4 - t
    ensures var r := SearchSides(cfg, s, group, k, t, rows, cols);
            (r.Some? ==> exists u | t <= u < 4 ::
               SnapsVia(cfg, s, group, k, Sides[u], rows, cols) &&
               r.value == Snapping.ToSnap(cfg, s, k, Sides[u], PartnerOf(s, k, Sides[u], rows, cols).value) &&
               forall v | t <= v < u :: !SnapsVia(cfg, s, group, k, Sides[v], rows, cols)) &&
            (r.None? <==> forall u | t <= u < 4 :: !SnapsVia(cfg, s, group, k, Sides[u], rows, cols))
  {
    if t < 4 && !SnapsVia(cfg, s, group, k, Sides[t], rows, cols) {
      SearchSidesMeans(cfg, s, group, k, t + 1, rows, cols);
    }
  }

  lemma {:induction false} SearchGroupMeans(cfg: Config, s: seq<Piece>, group: seq<nat>, m: nat, rows: int, cols: int)
    requires Snapping.InBoard(group, |s|)
    decreases |group| - m
    ensures var r := SearchGroup(cfg, s, group, m, rows, cols);
            (r.Some? ==> exists j | m <= j < |group| ::
               r.value.pieceIndex == group[j] && SnapsVia(cfg, s, group, group[j], r.value.slotName, rows, cols) &&
               r.value == Snapping.ToSnap(cfg, s, group[j], r.value.slotName, PartnerOf(s, group[j], r.value.slotName, rows, cols).value) &&
               forall i, side | m <= i < j :: !SnapsVia(cfg, s, group, group[i], side, rows, cols)) &&
            (r.None? <==> forall i, side | m <= i < |group| :: !SnapsVia(cfg, s, group, group[i], side, rows, cols))
  {
    if m < |group| {
      var k := group[m];
      assert k in group;
      SearchSidesMeans(cfg, s, group, k, 0, rows, cols);
      SearchGroupMeans(cfg, s, group, m + 1, rows, cols);
      if SearchSides(cfg, s, group, k, 0, rows, cols).None? {
        forall side
          ensures !SnapsVia(cfg, s, group, k, side, rows, cols)
        {
          var u := Snapping.SideIndex(side);
        }
      }
    }
  }

  /** What `checkIfPieceSnaps(heldPiece, group, pieces, rows, cols)` returns. */
  function FirstSnap(cfg: Config, s: seq<Piece>, group: seq<nat>, rows: int, cols: int): (r: Option<Snapping.Snap>)
    requires Snapping.InBoard(group, |s|)
    ensures r.Some? ==> r.value.pieceIndex < |s| && r.value.partnerIndex < |s|
  {
    SearchGroupMeans(cfg, s, group, 0, rows, cols);
    SearchGroup(cfg, s, group, 0, rows, cols)
  }

  /**
   * The reported snap is the first snapping slot in group order, then side order (top, right,
   * bottom, left); the held piece has no priority. No report means no member has a snapping slot.
   */
  lemma FirstSnapMeans(cfg: Config, s: seq<Piece>, group: seq<nat>, rows: int, cols: int)
    requires Snapping.InBoard(group, |s|)
    ensures var r := FirstSnap(cfg, s, group, rows, cols);
            (r.Some? ==> exists j | 0 <= j < |group| ::
               r.value.pieceIndex == group[j] && SnapsVia(cfg, s, group, group[j], r.value.slotName, rows, cols) &&
               Some(r.value.partnerIndex) == PartnerOf(s, group[j], r.value.slotName, rows, cols) &&
               r.value == Snapping.ToSnap(cfg, s, group[j], r.value.slotName, r.value.partnerIndex) &&
               forall i, side | 0 <= i < j :: !SnapsVia(cfg, s, group, group[i], side, rows, cols)) &&
            (r.None? <==> forall k, side | k in group :: !SnapsVia(cfg, s, group, k, side, rows, cols))
  {
    SearchGroupMeans(cfg, s, group, 0, rows, cols);
    var r := FirstSnap(cfg, s, group, rows, cols);
    if r.None? {
      forall k, side | k in group
        ensures !SnapsVia(cfg, s, group, k, side, rows, cols)
      {
        var i :| 0 <= i < |group| && group[i] == k;
      }
    }
  }

  /** On a row-major board `getPartner` finds exactly the grid-adjacent piece, and the recomputed index is its own. */
  lemma RowMajorPartner(s: seq<Piece>, rows: int, cols: int, k: nat, side: Side, q: nat)
    requires RowMajor(s, rows, cols) && k < |s| && q < |s|
    ensures PartnerOf(s, k, side, rows, cols) == Some(q) <==> GridAdjacent(s[k], side, s[q])
    ensures CellIndex(s[q], cols) == q
  {
    var cell := Neighbour(s[k].gridRow, s[k].gridCol, side);
    if PartnerOf(s, k, side, rows, cols) == Some(q) {
      PieceIndexInjective(cell.0, cell.1, s[q].gridRow, s[q].gridCol, cols);
    }
    if GridAdjacent(s[k], side, s[q]) {
      RowBelowRows(s[q].gridRow, s[q].gridCol, rows, cols);
    }
  }

  /** A cell whose row-major index is below rows * cols lies in a row below `rows`. */
  lemma RowBelowRows(row: int, col: int, rows: int, cols: int)
    requires 0 <= row && 0 <= col < cols && PieceIndex(row, col, cols) < rows * cols
    ensures row < rows
  {
    if row >= rows {
      NonNegativeProduct(row - rows, cols);
    }
  }

  /** On a row-major board a slot snaps here exactly when it snaps in the scanning engine of snapping.js. */
  lemma SnapsAgreeOnRowMajor(cfg: Config, s: seq<Piece>, group: seq<nat>, k: nat, side: Side, rows: int, cols: int)
    requires RowMajor(s, rows, cols) && k < |s|
    ensures SnapsVia(cfg, s, group, k, side, rows, cols) <==> exists q :: Snapping.Snaps(cfg, s, group, k, side, q)
  {
    if SnapsVia(cfg, s, group, k, side, rows, cols) {
      var l := PartnerOf(s, k, side, rows, cols).value;
      RowMajorPartner(s, rows, cols, k, side, l);
      assert Snapping.Snaps(cfg, s, group, k, side, l);
    }
    if q :| Snapping.Snaps(cfg, s, group, k, side, q) {
      RowMajorPartner(s, rows, cols, k, side, q);
    }
  }

  /** On a row-major board the slot loop of piece `k` reports what the slot and partner loops of snapping.js report. */
  lemma {:induction false} SidesAgreeOnRowMajor(cfg: Config, s: seq<Piece>, group: seq<nat>, k: nat, t: nat, rows: int, cols: int)
    requires RowMajor(s, rows, cols) && k < |s|
    ensures SearchSides(cfg, s, group, k, t, rows, cols) == Snapping.SearchSlots(cfg, s, group, k, t)
    decreases 4 - t
  {
    if t < 4 {
      var side := Sides[t];
      SidesAgreeOnRowMajor(cfg, s, group, k, t + 1, rows, cols);
      if !GetSlot(s[k], side).connected {
        Snapping.SearchPartnersMeans(cfg, s, group, k, side, 0);
        var hit := Snapping.SearchPartners(cfg, s, group, k, side, 0);
        if SnapsVia(cfg, s, group, k, side, rows, cols) {
          var l := PartnerOf(s, k, side, rows, cols).value;
          RowMajorPartner(s, rows, cols, k, side, l);
          assert Snapping.Snaps(cfg, s, group, k, side, l);
          var q := hit.value.partnerIndex;
          RowMajorPartner(s, rows, cols, k, side, q);
          assert q == l;
        } else if hit.Some? {
          var q := hit.value.partnerIndex;
          RowMajorPartner(s, rows, cols, k, side, q);
          assert false;
        }
      }
    }
  }

  /**
   * When the held piece has no snapping slot, the member loop here (which does not skip the held
   * piece) reports what the member loop of snapping.js (which does) reports, on a row-major board.
   */
  lemma {:induction false} MembersAgreeOnRowMajor(cfg: Config, s: seq<Piece>, held: nat, group: seq<nat>, m: nat, rows: int, cols: int)
    requires RowMajor(s, rows, cols) && held < |s| && Snapping.InBoard(group, |s|)
    requires Snapping.SearchSlots(cfg, s, group, held, 0).None?
    ensures SearchGroup(cfg, s, group, m, rows, cols) == Snapping.SearchMembers(cfg, s, held, group, m)
    decreases |group| - m
  {
    if m < |group| {
      assert group[m] in group;
      SidesAgreeOnRowMajor(cfg, s, group, group[m], 0, rows, cols);
      MembersAgreeOnRowMajor(cfg, s, held, group, m + 1, rows, cols);
    }
  }

  /**
   * On a row-major board whose dropped group starts with the held piece, as a group that has
   * never been merged does, both server engines report the same snap.
   */
  lemma EnginesAgreeWhenHeldLeads(cfg: Config, s: seq<Piece>, held: nat, group: seq<nat>, rows: int, cols: int)
    requires RowMajor(s, rows, cols) && held < |s| && Snapping.InBoard(group, |s|)
    requires |group| > 0 && group[0] == held
    ensures FirstSnap(cfg, s, group, rows, cols) == Snapping.FirstSnap(cfg, s, held, group)
  {
    SidesAgreeOnRowMajor(cfg, s, group, held, 0, rows, cols);
    if Snapping.SearchSlots(cfg, s, group, held, 0).None? {
      MembersAgreeOnRowMajor(cfg, s, held, group, 1, rows, cols);
    }
  }

  /**
   * `checkIfPieceSnaps(heldPiece, group, pieces, rows, cols)`: every member in group order, every
   * free slot in side order; the first partner within the snap threshold is reported.
   */
  method CheckIfPieceSnaps(cfg: Config, pieces: seq<Piece>, group: seq<nat>, rows: int, cols: int) returns (snap: Option<Snapping.Snap>)
    requires Snapping.InBoard(group, |pieces|)
    ensures snap == FirstSnap(cfg, pieces, group, rows, cols)
  {
    var m := 0;
    while m < |group|
      invariant 0 <= m <= |group|
      invariant SearchGroup(cfg, pieces, group, 0, rows, cols) == SearchGroup(cfg, pieces, group, m, rows, cols)
    {
      var k := group[m];
      assert k in group;
      var t := 0;
      while t < 4
        invariant 0 <= t <= 4
        invariant SearchSides(cfg, pieces, group, k, 0, rows, cols) == SearchSides(cfg, pieces, group, k, t, rows, cols)
      {
        var side := Sides[t];
        if !GetSlot(pieces[k], side).connected {
          var partner := PartnerOf(pieces, k, side, rows, cols);
          if partner.Some? {
            var l := partner.value;
            var partnerIndex := PieceIndex(pieces[l].gridRow, pieces[l].gridCol, cols);
            if partnerIndex !in group {
              var e := ErrorBetween(cfg, pieces[k].positionX, pieces[k].positionZ, side, pieces[l].positionX, pieces[l].positionZ);
              if e.errorMagnitude < cfg.snapThreshold {
                return Some(Snapping.Snap(k, side, l, e.deltaX, e.deltaZ));
              }
            }
          }
        }
        t := t + 1;
      }
      m := m + 1;
    }
    return None;
  }

  /**
   * Slot `side` of group member `k` faces a seam: `getPartner` finds an element whose recomputed
   * index is in the group, within the connection threshold.
   */
  predicate SeamVia(cfg: Config, s: seq<Piece>, group: seq<nat>, k: nat, side: Side, rows: int, cols: int) {
    k < |s| && k in group && PartnerOf(s, k, side, rows, cols).Some? &&
    var l := PartnerOf(s, k, side, rows, cols).value;
    CellIndex(s[l], cols) in group &&
    PieceError(cfg, s, k, side, l).errorMagnitude < cfg.connectionThreshold
  }

  /** Slot `side` of piece `k` is the far side of such a seam: the element `getPartner` found for it. */
  ghost predicate MirrorVia(cfg: Config, s: seq<Piece>, group: seq<nat>, k: nat, side: Side, rows: int, cols: int) {
    exists j: nat, t: Side | j < |s| ::
      SeamVia(cfg, s, group, j, t, rows, cols) && PartnerOf(s, j, t, rows, cols) == Some(k) && Opposite(t) == side
  }

  /**
   * The cascade so far, started from `s`, has produced `cur`: only flags differ, no flag was
   * cleared, and every newly set flag is a seam or the far side of one.
   */
  ghost predicate Justified(cfg: Config, s: seq<Piece>, group: seq<nat>, rows: int, cols: int, cur: seq<Piece>) {
    |cur| == |s| &&
    forall k | 0 <= k < |s| ::
      SameButFlags(cur[k], s[k]) &&
      forall side :: (GetSlot(s[k], side).connected ==> GetSlot(cur[k], side).connected) &&
                     (GetSlot(cur[k], side).connected && !GetSlot(s[k], side).connected ==>
                        SeamVia(cfg, s, group, k, side, rows, cols) || MirrorVia(cfg, s, group, k, side, rows, cols))
  }

  /** Flags do not enter the partner lookup or the seam test. */
  lemma SeamViaIgnoresFlags(cfg: Config, s: seq<Piece>, group: seq<nat>, rows: int, cols: int, cur: seq<Piece>, k: nat, side: Side)
    requires Justified(cfg, s, group, rows, cols, cur) && k < |s|
    ensures PartnerOf(cur, k, side, rows, cols) == PartnerOf(s, k, side, rows, cols)
    ensures SeamVia(cfg, cur, group, k, side, rows, cols) == SeamVia(cfg, s, group, k, side, rows, cols)
  {
    assert SameButFlags(cur[k], s[k]);
    if PartnerOf(s, k, side, rows, cols).Some? {
      var l := PartnerOf(s, k, side, rows, cols).value;
      assert SameButFlags(cur[l], s[l]);
    }
  }

  /** Marking a slot that is a seam or the far side of one keeps the cascade justified. */
  lemma MarkJustified(cfg: Config, s: seq<Piece>, group: seq<nat>, rows: int, cols: int, cur: seq<Piece>, k: nat, side: Side)
    requires Justified(cfg, s, group, rows, cols, cur) && k < |s|
    requires SeamVia(cfg, s, group, k, side, rows, cols) || MirrorVia(cfg, s, group, k, side, rows, cols)
    ensures var c := cur[k := MarkConnected(cur[k], side)];
            Justified(cfg, s, group, rows, cols, c) && Snapping.Grows(cur, c) && GetSlot(c[k], side).connected
  {
    var c := cur[k := MarkConnected(cur[k], side)];
    forall j | 0 <= j < |s|
      ensures SameButFlags(c[j], s[j])
      ensures forall t :: (GetSlot(s[j], t).connected ==> GetSlot(c[j], t).connected) &&
                          (GetSlot(c[j], t).connected && !GetSlot(s[j], t).connected ==>
                             SeamVia(cfg, s, group, j, t, rows, cols) || MirrorVia(cfg, s, group, j, t, rows, cols))
    {
    }
  }

  /** Closing a seam marks its slot and the facing slot of the element `getPartner` found. */
  lemma CloseSeamVia(cfg: Config, s: seq<Piece>, group: seq<nat>, rows: int, cols: int, cur: seq<Piece>, k: nat, side: Side)
    requires Justified(cfg, s, group, rows, cols, cur) && SeamVia(cfg, s, group, k, side, rows, cols)
    ensures var l := PartnerOf(s, k, side, rows, cols).value;
            var c1 := cur[k := MarkConnected(cur[k], side)];
            var c2 := c1[l := MarkConnected(c1[l], Opposite(side))];
            Justified(cfg, s, group, rows, cols, c2) && Snapping.Grows(cur, c2) && GetSlot(c2[k], side).connected
  {
    var l := PartnerOf(s, k, side, rows, cols).value;
    var c1 := cur[k := MarkConnected(cur[k], side)];
    MarkJustified(cfg, s, group, rows, cols, cur, k, side);
    assert MirrorVia(cfg, s, group, l, Opposite(side), rows, cols);
    MarkJustified(cfg, s, group, rows, cols, c1, l, Opposite(side));
    Snapping.GrowsTransitive(cur, c1, c1[l := MarkConnected(c1[l], Opposite(side))]);
  }

  /**
   * On a row-major board a justified cascade that closed every seam is the cascade of the
   * scanning engine: the two server engines leave the same board.
   */
  lemma CascadeAgreesOnRowMajor(cfg: Config, s: seq<Piece>, group: seq<nat>, rows: int, cols: int, r: seq<Piece>)
    requires RowMajor(s, rows, cols) && Justified(cfg, s, group, rows, cols, r)
    requires forall k: nat, side | k < |s| && SeamVia(cfg, s, group, k, side, rows, cols) :: GetSlot(r[k], side).connected
    ensures r == Cascaded(cfg, s, group)
  {
    var f := Cascaded(cfg, s, group);
    forall k | 0 <= k < |s|
      ensures r[k] == f[k]
    {
      forall side
        ensures GetSlot(r[k], side) == GetSlot(f[k], side)
      {
        SeamMeansClosed(cfg, s, group, rows, cols, k, side);
        CascadedSlot(cfg, s, group, k, side);
      }
      CascadedSlot(cfg, s, group, k, Top);
      PieceFromSlots(r[k], f[k]);
    }
  }

  /** On a row-major board the seams found through `getPartner` are the seams of the scanning engine. */
  lemma SeamMeansClosed(cfg: Config, s: seq<Piece>, group: seq<nat>, rows: int, cols: int, k: nat, side: Side)
    requires RowMajor(s, rows, cols) && k < |s|
    ensures SeamVia(cfg, s, group, k, side, rows, cols) <==> SeamClosed(cfg, s, group, k, side)
    ensures MirrorVia(cfg, s, group, k, side, rows, cols) ==> SeamClosed(cfg, s, group, k, side)
  {
    SeamWithAnyMeans(cfg, s, group, k, side, group);
    if SeamVia(cfg, s, group, k, side, rows, cols) {
      var l := PartnerOf(s, k, side, rows, cols).value;
      RowMajorPartner(s, rows, cols, k, side, l);
      assert Seam(cfg, s, group, k, side, l);
    }
    if q :| q in group && Seam(cfg, s, group, k, side, q) {
      RowMajorPartner(s, rows, cols, k, side, q);
    }
    if MirrorVia(cfg, s, group, k, side, rows, cols) {
      var j: nat, t: Side :| j < |s| && SeamVia(cfg, s, group, j, t, rows, cols) &&
                             PartnerOf(s, j, t, rows, cols) == Some(k) && Opposite(t) == side;
      RowMajorPartner(s, rows, cols, j, t, k);
      assert Seam(cfg, s, group, j, t, k);
      SeamSymmetric(cfg, s, group, j, t, k);
      OppositeOnSideNames(t);
    }
  }

  /**
   * The body of the slot loop of `checkIfPieceConnects` for slot `side` of member `k`: a free slot
   * whose `getPartner` element is in the group within the connection threshold is marked, with the
   * partner's facing slot.
   */
  method ConnectSlot(cfg: Config, pieces: array<Piece>, group: seq<nat>, k: nat, side: Side, rows: int, cols: int, ghost s: seq<Piece>)
    requires k < pieces.Length && k in group && Justified(cfg, s, group, rows, cols, pieces[..])
    modifies pieces
    ensures Justified(cfg, s, group, rows, cols, pieces[..]) && Snapping.Grows(old(pieces[..]), pieces[..])
    ensures SeamVia(cfg, s, group, k, side, rows, cols) ==> GetSlot(pieces[k], side).connected
  {
    ghost var before := pieces[..];
    SeamViaIgnoresFlags(cfg, s, group, rows, cols, before, k, side);
    if GetSlot(pieces[k], side).connected {
      return;
    }
    var partner := PartnerOf(pieces[..], k, side, rows, cols);
    if partner.None? {
      return;
    }
    var l := partner.value;
    var partnerIndex := PieceIndex(pieces[l].gridRow, pieces[l].gridCol, cols);
    if partnerIndex !in group {
      return;
    }
    var e := ErrorBetween(cfg, pieces[k].positionX, pieces[k].positionZ, side, pieces[l].positionX, pieces[l].positionZ);
    if e.errorMagnitude < cfg.connectionThreshold {
      assert SeamVia(cfg, before, group, k, side, rows, cols);
      CloseSeamVia(cfg, s, group, rows, cols, before, k, side);
      pieces[k] := MarkConnected(pieces[k], side);
      ghost var marked := pieces[..];
      assert marked == before[k := MarkConnected(before[k], side)];
      pieces[l] := MarkConnected(pieces[l], Opposite(side));
      assert pieces[..] == marked[l := MarkConnected(marked[l], Opposite(side))];
    }
  }

  /**
   * `checkIfPieceConnects(pieces, group, rows, cols)`: every free slot of every member whose
   * `getPartner` element is in the group within the connection threshold is marked, together with
   * the partner's facing slot. Only flags change and none is cleared; on a row-major board the
   * result is the scanning engine's cascade.
   */
  method CheckIfPieceConnects(cfg: Config, pieces: array<Piece>, group: seq<nat>, rows: int, cols: int)
    requires Snapping.InBoard(group, pieces.Length)
    modifies pieces
    ensures Justified(cfg, old(pieces[..]), group, rows, cols, pieces[..])
    ensures forall k: nat, side | k < pieces.Length && SeamVia(cfg, old(pieces[..]), group, k, side, rows, cols) ::
              GetSlot(pieces[k], side).connected
    ensures RowMajor(old(pieces[..]), rows, cols) ==> pieces[..] == Cascaded(cfg, old(pieces[..]), group)
  {
    ghost var s := pieces[..];
    var m := 0;
    while m < |group|
      invariant 0 <= m <= |group|
      invariant Justified(cfg, s, group, rows, cols, pieces[..])
      invariant forall k: nat, side | k in group[..m] && k < |s| && SeamVia(cfg, s, group, k, side, rows, cols) ::
                  GetSlot(pieces[k], side).connected
    {
      var k := group[m];
      assert k in group;
      var t := 0;
      while t < 4
        invariant 0 <= t <= 4
        invariant Justified(cfg, s, group, rows, cols, pieces[..])
        invariant forall k: nat, side | k in group[..m] && k < |s| && SeamVia(cfg, s, group, k, side, rows, cols) ::
                    GetSlot(pieces[k], side).connected
        invariant forall u | 0 <= u < t :: SeamVia(cfg, s, group, k, Sides[u], rows, cols) ==> GetSlot(pieces[k], Sides[u]).connected
      {
        ConnectSlot(cfg, pieces, group, k, Sides[t], rows, cols, s);
        t := t + 1;
      }
      forall side | SeamVia(cfg, s, group, k, side, rows, cols)
        ensures GetSlot(pieces[k], side).connected
      {
        var u := Snapping.SideIndex(side);
      }
      assert group[..m + 1] == group[..m] + [k];
      m := m + 1;
    }
    assert group[..m] == group;
    if RowMajor(s, rows, cols) {
      CascadeAgreesOnRowMajor(cfg, s, group, rows, cols, pieces[..]);
    }
  }

  /** Aligning, merging and marking never move a piece to another grid cell: a row-major board stays row-major. */
  lemma PairedKeepsRowMajor(s: seq<Piece>, group: seq<nat>, snap: Snapping.Snap, rows: int, cols: int)
    requires snap.pieceIndex < |s| && snap.partnerIndex < |s| && RowMajor(s, rows, cols)
    ensures RowMajor(Snapping.Paired(s, group, snap), rows, cols)
  {
    var moved := Snapping.Aligned(s, group, snap);
    var p := Snapping.Paired(s, group, snap);
    forall k | 0 <= k < |s|
      ensures p[k].gridRow == s[k].gridRow && p[k].gridCol == s[k].gridCol
    {
      MovedKeepsAllButPositions(s, group, -snap.deltaX, -snap.deltaZ, k);
      assert moved[k].gridRow == s[k].gridRow && moved[k].gridCol == s[k].gridCol;
    }
  }

  /**
   * `handleSnapping(heldPieceIndex, pieces, rows, cols)`: the dropped group is the held piece's
   * member list. Without a snap nothing changes and the answer is false. With one, the group is
   * aligned, merged with the partner's group and the pair marked as in snapping.js, then the
   * cascade runs over the merged group. On a row-major board the result is the snapping.js
   * `AfterSnap` applied to this engine's own snap. That snap is the one snapping.js finds when
   * the group starts with the held piece. Otherwise the two engines can choose different snaps,
   * because this one gives the held piece no priority.
   */
  method HandleSnapping(cfg: Config, pieces: array<Piece>, held: nat, rows: int, cols: int) returns (snapped: bool)
    requires held < pieces.Length && IndicesInRange(pieces[..])
    modifies pieces
    ensures snapped <==> FirstSnap(cfg, old(pieces[..]), old(pieces[held].connectedPieces), rows, cols).Some?
    ensures !snapped ==> pieces[..] == old(pieces[..])
    ensures snapped ==>
              var s := old(pieces[..]);
              var group := s[held].connectedPieces;
              var snap := FirstSnap(cfg, s, group, rows, cols).value;
              var p, m := Snapping.Paired(s, group, snap), Snapping.MergedGroup(s, group, snap);
              Justified(cfg, p, m, rows, cols, pieces[..]) &&
              (forall k: nat, side | k < |s| && SeamVia(cfg, p, m, k, side, rows, cols) :: GetSlot(pieces[k], side).connected) &&
              (RowMajor(s, rows, cols) ==> pieces[..] == Snapping.AfterSnap(cfg, s, group, snap))
    ensures var s := old(pieces[..]);
            var group := s[held].connectedPieces;
            RowMajor(s, rows, cols) && |group| > 0 && group[0] == held ==>
              FirstSnap(cfg, s, group, rows, cols) == Snapping.FirstSnap(cfg, s, held, group)
  {
    ghost var s := pieces[..];
    var group := pieces[held].connectedPieces;
    assert Snapping.InBoard(group, pieces.Length);
    var snap := CheckIfPieceSnaps(cfg, pieces[..], group, rows, cols);
    if RowMajor(s, rows, cols) && |group| > 0 && group[0] == held {
      EnginesAgreeWhenHeldLeads(cfg, s, held, group, rows, cols);
    }
    if snap.None? {
      return false;
    }
    var hit := snap.value;
    assert pieces[..] == s;
    var merged := Snapping.JoinPair(pieces, group, hit);
    if RowMajor(s, rows, cols) {
      PairedKeepsRowMajor(s, group, hit, rows, cols);
    }
    CheckIfPieceConnects(cfg, pieces, merged, rows, cols);
    return true;
  }
}
