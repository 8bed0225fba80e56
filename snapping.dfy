/**
 * The snapping engine the room calls (server/src/rooms/snapping.js): rigid group moves,
 * the first-hit snap search, the seam cascade, the group merge and the drop handler that
 * sequences them. The board is the room's piece array, updated in place.
 */
module Snapping {
  import opened Wrappers
  import opened Grid
  import opened Geometry
  import opened Schema
  import opened Board

  /** Every index of `group` names a piece of the board. */
  predicate InBoard(group: seq<nat>, n: int) {
    forall j :: j in group ==> j < n
  }

  /** `moveGroup(pieces, group, dx, dz)`: every listed piece moves by (dx, dz) on the table plane. */
  method MoveGroup(pieces: array<Piece>, group: seq<nat>, dx: real, dz: real)
    requires InBoard(group, pieces.Length)
    modifies pieces
    ensures pieces[..] == Moved(old(pieces[..]), group, dx, dz)
  {
    ghost var s := pieces[..];
    var n := 0;
    while n < |group|
      invariant 0 <= n <= |group|
      invariant pieces[..] == Moved(s, group[..n], dx, dz)
    {
      var k := group[n];
      assert k in group;
      assert group[..n + 1][..n] == group[..n];
      pieces[k] := Shift(pieces[k], dx, dz);
      n := n + 1;
    }
    assert group[..|group|] == group;
  }

  /** The snap `checkIfPieceSnaps` reports: the slot, its partner and the correcting offset. */
  datatype Snap = Snap(pieceIndex: nat, slotName: Side, partnerIndex: nat, deltaX: real, deltaZ: real)

  /**
   * Slot `side` of piece `k` snaps to piece `q` when the slot is free, `q` lies outside the
   * dropped group and next to `k` on the grid, and the positional error is below the snap threshold.
   */
  predicate Snaps(cfg: Config, s: seq<Piece>, group: seq<nat>, k: nat, side: Side, q: nat) {
    k < |s| && q < |s| && !GetSlot(s[k], side).connected && q !in group &&
    GridAdjacent(s[k], side, s[q]) &&
    PieceError(cfg, s, k, side, q).errorMagnitude < cfg.snapThreshold
  }

  /** The report for a hit: the correction is the error's delta. */
  function ToSnap(cfg: Config, s: seq<Piece>, k: nat, side: Side, q: nat): Snap
    requires k < |s| && q < |s|
  {
    var e := PieceError(cfg, s, k, side, q);
    Snap(k, side, q, e.deltaX, e.deltaZ)
  }

  /** The partner loop for slot `side` of piece `k`, from piece `i` on: the first partner that snaps. */
  function SearchPartners(cfg: Config, s: seq<Piece>, group: seq<nat>, k: nat, side: Side, i: nat): Option<Snap>
    decreases |s| - i
  {
    if i >= |s| then None
    else if Snaps(cfg, s, group, k, side, i) then Some(ToSnap(cfg, s, k, side, i))
    else SearchPartners(cfg, s, group, k, side, i + 1)
  }

  /** The slot loop of piece `k` from the `t`-th side of top, right, bottom, left on; connected slots are skipped. */
  function SearchSlots(cfg: Config, s: seq<Piece>, group: seq<nat>, k: nat, t: nat): Option<Snap>
    requires k < |s|
    decreases 4 - t
  {
    if t >= 4 then None
    else
      var hit := if GetSlot(s[k], Sides[t]).connected then None else SearchPartners(cfg, s, group, k, Sides[t], 0);
      if hit.Some? then hit else SearchSlots(cfg, s, group, k, t + 1)
  }

  /** The loop over the dropped group from its `m`-th entry on, skipping the held piece. */
  function SearchMembers(cfg: Config, s: seq<Piece>, held: nat, group: seq<nat>, m: nat): Option<Snap>
    requires InBoard(group, |s|)
    decreases |group| - m
  {
    if m >= |group| then None
    else
      var hit := if group[m] == held then None else assert group[m] in group; SearchSlots(cfg, s, group, group[m], 0);
      if hit.Some? then hit else SearchMembers(cfg, s, held, group, m + 1)
  }

  /**
   * The partner loop finds the lowest partner index from `i` on that snaps, and misses exactly when
   * none does.
   */
  lemma {:induction false} SearchPartnersMeans(cfg: Config, s: seq<Piece>, group: seq<nat>, k: nat, side: Side, i: nat)
    ensures var r := SearchPartners(cfg, s, group, k, side, i);
            r.Some? ==>
              var q := r.value.partnerIndex;
              r.value.pieceIndex == k && r.value.slotName == side && i <= q &&
              Snaps(cfg, s, group, k, side, q) && r.value == ToSnap(cfg, s, k, side, q) &&
              forall p | i <= p < q :: !Snaps(cfg, s, group, k, side, p)
    ensures SearchPartners(cfg, s, group, k, side, i).None? <==>
              forall q | i <= q < |s| :: !Snaps(cfg, s, group, k, side, q)
    decreases |s| - i
  {
    if i < |s| && !Snaps(cfg, s, group, k, side, i) {
      SearchPartnersMeans(cfg, s, group, k, side, i + 1);
    }
  }

  /**
   * `r` is the first snap of piece `k` from the `t`-th side on: its side is the first of top, right,
   * bottom, left from there that snaps to any piece, and its partner is the lowest index that
   * snaps to that side.
   */
  predicate FirstOfPiece(cfg: Config, s: seq<Piece>, group: seq<nat>, k: nat, t: nat, r: Snap) {
    r.pieceIndex == k && Snaps(cfg, s, group, k, r.slotName, r.partnerIndex) &&
    r == ToSnap(cfg, s, k, r.slotName, r.partnerIndex) &&
    (exists u | t <= u < 4 :: r.slotName == Sides[u] &&
       forall v: nat, q: nat | t <= v < u && q < |s| :: !Snaps(cfg, s, group, k, Sides[v], q)) &&
    forall p: nat | p < r.partnerIndex :: !Snaps(cfg, s, group, k, r.slotName, p)
  }

  /**
   * The slot loop of piece `k` finds its first snapping side from the `t`-th on, with that side's
   * lowest snapping partner, and misses exactly when none snaps.
   */
  lemma {:induction false} SearchSlotsMeans(cfg: Config, s: seq<Piece>, group: seq<nat>, k: nat, t: nat)
    requires k < |s|
    ensures var r := SearchSlots(cfg, s, group, k, t);
            r.Some? ==> FirstOfPiece(cfg, s, group, k, t, r.value)
    ensures SearchSlots(cfg, s, group, k, t).None? <==>
              forall j: nat, q: nat | t <= j < 4 && q < |s| :: !Snaps(cfg, s, group, k, Sides[j], q)
    decreases 4 - t
  {
    if t < 4 {
      SearchPartnersMeans(cfg, s, group, k, Sides[t], 0);
      SearchSlotsMeans(cfg, s, group, k, t + 1);
      var r := SearchSlots(cfg, s, group, k, t);
      var hit := if GetSlot(s[k], Sides[t]).connected then None else SearchPartners(cfg, s, group, k, Sides[t], 0);
      if hit.None? {
        assert forall q: nat | q < |s| :: !Snaps(cfg, s, group, k, Sides[t], q);
        if r.Some? {
          var u :| t + 1 <= u < 4 && r.value.slotName == Sides[u] &&
                   forall v: nat, q: nat | t + 1 <= v < u && q < |s| :: !Snaps(cfg, s, group, k, Sides[v], q);
          assert r.value.slotName == Sides[u];
        }
      } else {
        assert r.value.slotName == Sides[t];
      }
    }
  }

  /**
   * The member loop reports, for the first member from the `m`-th entry on other than the held
   * piece that has a snapping slot, that member's first snap; it misses exactly when no such
   * member has a slot that snaps.
   */
  lemma {:induction false} SearchMembersMeans(cfg: Config, s: seq<Piece>, held: nat, group: seq<nat>, m: nat)
    requires InBoard(group, |s|)
    ensures var r := SearchMembers(cfg, s, held, group, m);
            r.Some? ==>
              r.value.pieceIndex in group[m..] && r.value.pieceIndex != held &&
              Snaps(cfg, s, group, r.value.pieceIndex, r.value.slotName, r.value.partnerIndex) &&
              r.value == ToSnap(cfg, s, r.value.pieceIndex, r.value.slotName, r.value.partnerIndex)
    ensures var r := SearchMembers(cfg, s, held, group, m);
            r.Some? ==> exists j | m <= j < |group| ::
              group[j] != held && FirstOfPiece(cfg, s, group, group[j], 0, r.value) &&
              forall i: nat, u: nat, q: nat | m <= i < j && group[i] != held && u < 4 && q < |s| ::
                !Snaps(cfg, s, group, group[i], Sides[u], q)
    ensures SearchMembers(cfg, s, held, group, m).None? <==>
              forall j: nat, t: nat, q: nat | m <= j < |group| && group[j] != held && t < 4 && q < |s| ::
                !Snaps(cfg, s, group, group[j], Sides[t], q)
    decreases |group| - m
  {
    if m < |group| {
      assert group[m] in group;
      if group[m] != held {
        SearchSlotsMeans(cfg, s, group, group[m], 0);
      }
      SearchMembersMeans(cfg, s, held, group, m + 1);
      assert group[m..] == [group[m]] + group[m + 1..];
      var r := SearchMembers(cfg, s, held, group, m);
      if r.Some? && (group[m] == held || SearchSlots(cfg, s, group, group[m], 0).None?) {
        var j :| m + 1 <= j < |group| && group[j] != held && FirstOfPiece(cfg, s, group, group[j], 0, r.value) &&
                 forall i: nat, u: nat, q: nat | m + 1 <= i < j && group[i] != held && u < 4 && q < |s| ::
                   !Snaps(cfg, s, group, group[i], Sides[u], q);
        assert forall i: nat, u: nat, q: nat | m <= i < j && group[i] != held && u < 4 && q < |s| ::
                 !Snaps(cfg, s, group, group[i], Sides[u], q);
      }
    }
  }

  /** Every side is one of top, right, bottom, left. */
  lemma SideIndex(side: Side) returns (t: nat)
    ensures t < 4 && Sides[t] == side
  {
    t := match side case Top => 0 case Right => 1 case Bottom => 2 case Left => 3;
  }

  /**
   * `checkIfPieceSnaps(pieces, held, droppedGroup)` as a specification: the held piece's slots
   * are tried first, then those of the other members in group order, each slot against every
   * piece of the board; the first snap found is reported with its correction.
   */
  function FirstSnap(cfg: Config, s: seq<Piece>, held: nat, group: seq<nat>): (r: Option<Snap>)
    requires held < |s| && InBoard(group, |s|)
    ensures r.Some? ==> r.value.pieceIndex < |s| && r.value.partnerIndex < |s|
  {
    SearchSlotsMeans(cfg, s, group, held, 0);
    SearchMembersMeans(cfg, s, held, group, 0);
    var hit := SearchSlots(cfg, s, group, held, 0);
    if hit.Some? then hit else SearchMembers(cfg, s, held, group, 0)
  }

  /**
   * The search reports a snapping slot of the held piece or of a group member, with its
   * correction: the held piece's first snap when it has one, otherwise the first snap of the
   * first other member in group order that has one. It reports nothing exactly when no such slot
   * snaps to any piece.
   */
  lemma FirstSnapMeans(cfg: Config, s: seq<Piece>, held: nat, group: seq<nat>)
    requires held < |s| && InBoard(group, |s|)
    ensures var r := FirstSnap(cfg, s, held, group);
            r.Some? ==>
              var k, side, q := r.value.pieceIndex, r.value.slotName, r.value.partnerIndex;
              (k == held || k in group) && Snaps(cfg, s, group, k, side, q) && r.value == ToSnap(cfg, s, k, side, q)
    ensures var r := FirstSnap(cfg, s, held, group);
            r.Some? ==>
              FirstOfPiece(cfg, s, group, held, 0, r.value) ||
              ((forall u: nat, q: nat | u < 4 && q < |s| :: !Snaps(cfg, s, group, held, Sides[u], q)) &&
               exists j | 0 <= j < |group| ::
                 group[j] != held && FirstOfPiece(cfg, s, group, group[j], 0, r.value) &&
                 forall i: nat, u: nat, q: nat | i < j && group[i] != held && u < 4 && q < |s| ::
                   !Snaps(cfg, s, group, group[i], Sides[u], q))
    ensures FirstSnap(cfg, s, held, group).None? <==>
              forall k: nat, side: Side, q: nat | (k == held || k in group) && q < |s| :: !Snaps(cfg, s, group, k, side, q)
  {
    SearchSlotsMeans(cfg, s, group, held, 0);
    SearchMembersMeans(cfg, s, held, group, 0);
    assert group[0..] == group;
    if FirstSnap(cfg, s, held, group).None? {
      forall k: nat, side: Side, q: nat | (k == held || k in group) && q < |s|
        ensures !Snaps(cfg, s, group, k, side, q)
      {
        var t := SideIndex(side);
        if k != held {
          var j :| 0 <= j < |group| && group[j] == k;
          assert !Snaps(cfg, s, group, group[j], Sides[t], q);
        } else {
          assert !Snaps(cfg, s, group, held, Sides[t], q);
        }
      }
    }
  }

  /** The held piece has priority: when one of its slots snaps, the snap reported is one of its own. */
  lemma HeldPieceFirst(cfg: Config, s: seq<Piece>, held: nat, group: seq<nat>, side: Side, q: nat)
    requires held < |s| && InBoard(group, |s|) && q < |s| && Snaps(cfg, s, group, held, side, q)
    ensures FirstSnap(cfg, s, held, group).Some? && FirstSnap(cfg, s, held, group).value.pieceIndex == held
  {
    SearchSlotsMeans(cfg, s, group, held, 0);
    var t := SideIndex(side);
    assert Snaps(cfg, s, group, held, Sides[t], q);
  }

  /**
   * The slot and partner loops of `checkIfPieceSnaps` for one piece `k`: the first of its slots
   * that snaps, with the first partner it snaps to.
   */
  method ScanPiece(cfg: Config, pieces: seq<Piece>, k: nat, group: seq<nat>) returns (hit: Option<Snap>)
    requires k < |pieces|
    ensures hit == SearchSlots(cfg, pieces, group, k, 0)
  {
    var t := 0;
    while t < 4
      invariant 0 <= t <= 4
      invariant SearchSlots(cfg, pieces, group, k, 0) == SearchSlots(cfg, pieces, group, k, t)
    {
      var side := Sides[t];
      var slot := GetSlot(pieces[k], side);
      if !slot.connected {
        var i := 0;
        while i < |pieces|
          invariant 0 <= i <= |pieces|
          invariant SearchPartners(cfg, pieces, group, k, side, 0) == SearchPartners(cfg, pieces, group, k, side, i)
        {
          if i !in group && GridAdjacent(pieces[k], side, pieces[i]) {
            var e := ErrorBetween(cfg, pieces[k].positionX, pieces[k].positionZ, side, pieces[i].positionX, pieces[i].positionZ);
            if e.errorMagnitude < cfg.snapThreshold {
              return Some(Snap(k, side, i, e.deltaX, e.deltaZ));
            }
          }
          i := i + 1;
        }
      }
      t := t + 1;
    }
    return None;
  }

  /**
   * `checkIfPieceSnaps(pieces, held, droppedGroup)`: the search reads the board and changes
   * nothing; its answer is `FirstSnap`.
   */
  method CheckIfPieceSnaps(cfg: Config, pieces: seq<Piece>, held: nat, group: seq<nat>) returns (snap: Option<Snap>)
    requires held < |pieces| && InBoard(group, |pieces|)
    ensures snap == FirstSnap(cfg, pieces, held, group)
  {
    snap := ScanPiece(cfg, pieces, held, group);
    if snap.Some? {
      return;
    }
    var m := 0;
    while m < |group|
      invariant 0 <= m <= |group|
      invariant snap.None? && SearchMembers(cfg, pieces, held, group, 0) == SearchMembers(cfg, pieces, held, group, m)
    {
      var k := group[m];
      if k != held {
        assert k in group;
        snap := ScanPiece(cfg, pieces, k, group);
        if snap.Some? {
          return;
        }
      }
      m := m + 1;
    }
  }

  /**
   * While the cascade runs, the board `cur` lies between the board `s` it started from and the
   * cascade `f`: only flags differ, every flag of `s` is still set and every set flag is one of `f`.
   */
  ghost predicate Within(cur: seq<Piece>, s: seq<Piece>, f: seq<Piece>) {
    |cur| == |s| && |f| == |s| &&
    forall k | 0 <= k < |cur| ::
      SameButFlags(cur[k], s[k]) &&
      forall side :: (GetSlot(s[k], side).connected ==> GetSlot(cur[k], side).connected) &&
                     (GetSlot(cur[k], side).connected ==> GetSlot(f[k], side).connected)
  }

  /** Slot `side` of piece `k` already carries its final flag. */
  ghost predicate Settled(cur: seq<Piece>, f: seq<Piece>, k: nat, side: Side)
    requires k < |cur| && k < |f|
  {
    GetSlot(f[k], side).connected ==> GetSlot(cur[k], side).connected
  }

  /** No flag of `a` is cleared in `b`. */
  ghost predicate Grows(a: seq<Piece>, b: seq<Piece>) {
    |a| == |b| && forall k, side | 0 <= k < |a| :: GetSlot(a[k], side).connected ==> GetSlot(b[k], side).connected
  }

  lemma GrowsTransitive(a: seq<Piece>, b: seq<Piece>, c: seq<Piece>)
    requires Grows(a, b) && Grows(b, c)
    ensures Grows(a, c)
  {
  }

  /** Marking a slot whose final flag is set keeps the board between `s` and `f`. */
  lemma MarkWithin(cur: seq<Piece>, s: seq<Piece>, f: seq<Piece>, k: nat, side: Side)
    requires Within(cur, s, f) && k < |cur| && GetSlot(f[k], side).connected
    ensures var c := cur[k := MarkConnected(cur[k], side)];
            Within(c, s, f) && Grows(cur, c) && GetSlot(c[k], side).connected
  {
    var c := cur[k := MarkConnected(cur[k], side)];
    forall j | 0 <= j < |c|
      ensures SameButFlags(c[j], s[j])
      ensures forall t :: (GetSlot(s[j], t).connected ==> GetSlot(c[j], t).connected) &&
                          (GetSlot(c[j], t).connected ==> GetSlot(f[j], t).connected)
    {
    }
  }

  /** A seam between two group members is closed on both of its sides by the cascade. */
  lemma SeamClosesBothSides(cfg: Config, s: seq<Piece>, group: seq<nat>, cur: seq<Piece>, k: nat, side: Side, q: nat)
    requires Within(cur, s, Cascaded(cfg, s, group)) && k < |cur| && q < |cur| && k in group && q in group
    requires GridAdjacent(cur[k], side, cur[q])
    requires ErrorBetween(cfg, cur[k].positionX, cur[k].positionZ, side, cur[q].positionX, cur[q].positionZ).errorMagnitude < cfg.connectionThreshold
    ensures GetSlot(Cascaded(cfg, s, group)[k], side).connected
    ensures GetSlot(Cascaded(cfg, s, group)[q], Opposite(side)).connected
  {
    assert SameButFlags(cur[k], s[k]) && SameButFlags(cur[q], s[q]);
    assert Seam(cfg, s, group, k, side, q);
    SeamSymmetric(cfg, s, group, k, side, q);
    SeamWithAnyMeans(cfg, s, group, k, side, group);
    SeamWithAnyMeans(cfg, s, group, q, Opposite(side), group);
    CascadedSlot(cfg, s, group, k, side);
    CascadedSlot(cfg, s, group, q, Opposite(side));
  }

  /** Closing a seam and its mirror keeps the board between `s` and its cascade. */
  lemma CloseSeam(cfg: Config, s: seq<Piece>, group: seq<nat>, cur: seq<Piece>, k: nat, side: Side, q: nat)
    requires Within(cur, s, Cascaded(cfg, s, group)) && k < |cur| && q < |cur| && k in group && q in group
    requires GridAdjacent(cur[k], side, cur[q])
    requires ErrorBetween(cfg, cur[k].positionX, cur[k].positionZ, side, cur[q].positionX, cur[q].positionZ).errorMagnitude < cfg.connectionThreshold
    ensures var c1 := cur[k := MarkConnected(cur[k], side)];
            var c2 := c1[q := MarkConnected(c1[q], Opposite(side))];
            Within(c2, s, Cascaded(cfg, s, group)) && Grows(cur, c2) && GetSlot(c2[k], side).connected
  {
    var f := Cascaded(cfg, s, group);
    SeamClosesBothSides(cfg, s, group, cur, k, side, q);
    var c1 := cur[k := MarkConnected(cur[k], side)];
    MarkWithin(cur, s, f, k, side);
    MarkWithin(c1, s, f, q, Opposite(side));
    var c2 := c1[q := MarkConnected(c1[q], Opposite(side))];
    GrowsTransitive(cur, c1, c2);
  }

  /**
   * The partner loop of `checkIfPieceConnects` for slot `side` of member `k`: every group member
   * across that side within the connection threshold closes the seam on both sides.
   */
  method ConnectPartners(cfg: Config, pieces: array<Piece>, group: seq<nat>, k: nat, side: Side, ghost s: seq<Piece>)
    requires k < pieces.Length && k in group && InBoard(group, pieces.Length)
    requires Within(pieces[..], s, Cascaded(cfg, s, group))
    modifies pieces
    ensures Within(pieces[..], s, Cascaded(cfg, s, group)) && Grows(old(pieces[..]), pieces[..])
    ensures Settled(pieces[..], Cascaded(cfg, s, group), k, side)
  {
    ghost var f := Cascaded(cfg, s, group);
    ghost var start := pieces[..];
    var u := 0;
    while u < |group|
      invariant 0 <= u <= |group|
      invariant Within(pieces[..], s, f) && Grows(start, pieces[..])
      invariant forall v | 0 <= v < u :: Seam(cfg, s, group, k, side, group[v]) ==> GetSlot(pieces[k], side).connected
    {
      var q := group[u];
      assert q in group;
      ghost var before := pieces[..];
      assert SameButFlags(before[k], s[k]) && SameButFlags(before[q], s[q]);
      if q != k && GridAdjacent(pieces[k], side, pieces[q]) {
        var e := ErrorBetween(cfg, pieces[k].positionX, pieces[k].positionZ, side, pieces[q].positionX, pieces[q].positionZ);
        if e.errorMagnitude < cfg.connectionThreshold {
          CloseSeam(cfg, s, group, before, k, side, q);
          pieces[k] := MarkConnected(pieces[k], side);
          pieces[q] := MarkConnected(pieces[q], Opposite(side));
          assert pieces[..] == before[k := MarkConnected(before[k], side)][q := MarkConnected(before[k := MarkConnected(before[k], side)][q], Opposite(side))];
        }
      }
      u := u + 1;
    }
    CascadedSlot(cfg, s, group, k, side);
    SeamWithAnyMeans(cfg, s, group, k, side, group);
    if GetSlot(f[k], side).connected && !GetSlot(s[k], side).connected {
      var q :| q in group && Seam(cfg, s, group, k, side, q);
      var v :| 0 <= v < |group| && group[v] == q;
    }
  }

  /** Once every slot of every group member is settled, the board is the cascade. */
  lemma CascadeComplete(cfg: Config, s: seq<Piece>, group: seq<nat>, cur: seq<Piece>)
    requires Within(cur, s, Cascaded(cfg, s, group))
    requires forall k: nat, side | k in group && k < |cur| :: Settled(cur, Cascaded(cfg, s, group), k, side)
    ensures cur == Cascaded(cfg, s, group)
  {
    var f := Cascaded(cfg, s, group);
    forall k | 0 <= k < |cur|
      ensures cur[k] == f[k]
    {
      forall side
        ensures GetSlot(cur[k], side) == GetSlot(f[k], side)
      {
        CascadedSlot(cfg, s, group, k, side);
        if k !in group {
          CascadeOutsideGroup(cfg, s, group, k);
        } else {
          assert Settled(cur, f, k, side);
        }
      }
      CascadedSlot(cfg, s, group, k, Top);
      PieceFromSlots(cur[k], f[k]);
    }
  }

  /**
   * `checkIfPieceConnects(pieces, group)`: every slot of every member, in group order, is checked
   * against every other member; the final board is the cascade of the board it started from.
   */
  method CheckIfPieceConnects(cfg: Config, pieces: array<Piece>, group: seq<nat>)
    requires InBoard(group, pieces.Length)
    modifies pieces
    ensures pieces[..] == Cascaded(cfg, old(pieces[..]), group)
  {
    ghost var s := pieces[..];
    ghost var f := Cascaded(cfg, s, group);
    forall k | 0 <= k < |s|
      ensures forall side :: GetSlot(s[k], side).connected ==> GetSlot(f[k], side).connected
    {
      forall side
        ensures GetSlot(s[k], side).connected ==> GetSlot(f[k], side).connected
      {
        CascadedSlot(cfg, s, group, k, side);
      }
    }
    var m := 0;
    while m < |group|
      invariant 0 <= m <= |group|
      invariant Within(pieces[..], s, f)
      invariant forall k: nat, side | k in group[..m] && k < |s| :: Settled(pieces[..], f, k, side)
    {
      var k := group[m];
      assert k in group;
      var t := 0;
      while t < 4
        invariant 0 <= t <= 4
        invariant Within(pieces[..], s, f)
        invariant forall k: nat, side | k in group[..m] && k < |s| :: Settled(pieces[..], f, k, side)
        invariant forall u | 0 <= u < t :: Settled(pieces[..], f, k, Sides[u])
      {
        var side := Sides[t];
        if !GetSlot(pieces[k], side).connected {
          ghost var before := pieces[..];
          ConnectPartners(cfg, pieces, group, k, side, s);
          forall k': nat, side' | k' < |s| && Settled(before, f, k', side')
            ensures Settled(pieces[..], f, k', side')
          {
            assert GetSlot(before[k'], side').connected ==> GetSlot(pieces[..][k'], side').connected;
          }
        }
        t := t + 1;
      }
      forall side
        ensures Settled(pieces[..], f, k, side)
      {
        assert side == Sides[0] || side == Sides[1] || side == Sides[2] || side == Sides[3];
      }
      assert group[..m + 1] == group[..m] + [k];
      m := m + 1;
    }
    assert group[..m] == group;
    CascadeComplete(cfg, s, group, pieces[..]);
  }

  /**
   * `mergeGroups(pieces, group1, group2)`: the concatenation becomes the member list of every
   * piece it lists, and is returned.
   */
  method MergeGroups(pieces: array<Piece>, group1: seq<nat>, group2: seq<nat>) returns (merged: seq<nat>)
    requires InBoard(group1, pieces.Length) && InBoard(group2, pieces.Length)
    modifies pieces
    ensures merged == group1 + group2
    ensures pieces[..] == Merged(old(pieces[..]), merged)
  {
    merged := group1 + group2;
    ghost var s := pieces[..];
    var n := 0;
    while n < |merged|
      invariant 0 <= n <= |merged|
      invariant forall k | 0 <= k < pieces.Length :: pieces[k] == if k in merged[..n] then s[k].(connectedPieces := merged) else s[k]
    {
      var k := merged[n];
      assert k in group1 || k in group2;
      assert merged[..n + 1] == merged[..n] + [k];
      pieces[k] := pieces[k].(connectedPieces := merged);
      n := n + 1;
    }
    assert merged[..n] == merged;
  }

  /** The pair's facing slots marked connected: slot `slotName` of the dropped piece and the opposite slot of its partner. */
  function MarkPair(b: seq<Piece>, snap: Snap): (r: seq<Piece>)
    requires snap.pieceIndex < |b| && snap.partnerIndex < |b|
    ensures |r| == |b|
  {
    var marked := b[snap.pieceIndex := MarkConnected(b[snap.pieceIndex], snap.slotName)];
    marked[snap.partnerIndex := MarkConnected(marked[snap.partnerIndex], Opposite(snap.slotName))]
  }

  /** The dropped group followed by the partner's group. */
  function MergedGroup(s: seq<Piece>, group: seq<nat>, snap: Snap): seq<nat>
    requires snap.partnerIndex < |s|
  {
    group + s[snap.partnerIndex].connectedPieces
  }

  /** The board with the dropped group moved by the snap's correction. */
  function Aligned(s: seq<Piece>, group: seq<nat>, snap: Snap): (r: seq<Piece>)
    ensures |r| == |s|
  {
    Moved(s, group, -snap.deltaX, -snap.deltaZ)
  }

  /** The board after a snap, before the cascade: the dropped group aligned, the groups merged, the pair marked. */
  function Paired(s: seq<Piece>, group: seq<nat>, snap: Snap): (r: seq<Piece>)
    requires snap.pieceIndex < |s| && snap.partnerIndex < |s|
    ensures |r| == |s|
  {
    MarkPair(Merged(Aligned(s, group, snap), MergedGroup(s, group, snap)), snap)
  }

  lemma PairedStages(s: seq<Piece>, group: seq<nat>, snap: Snap, moved: seq<Piece>, joined: seq<Piece>)
    requires snap.pieceIndex < |s| && snap.partnerIndex < |s|
    requires moved == Aligned(s, group, snap)
    requires joined == Merged(moved, MergedGroup(s, group, snap))
    ensures Paired(s, group, snap) == MarkPair(joined, snap)
  {
  }

  /** The board after a snap: aligned, merged, the pair's slots marked, and the cascade run. */
  function AfterSnap(cfg: Config, s: seq<Piece>, group: seq<nat>, snap: Snap): seq<Piece>
    requires snap.pieceIndex < |s| && snap.partnerIndex < |s|
  {
    Cascaded(cfg, Paired(s, group, snap), MergedGroup(s, group, snap))
  }

  /** Marking the pair's slots sets exactly flags: everything else of every piece stays. */
  lemma MarkPairAt(b: seq<Piece>, snap: Snap, k: nat)
    requires snap.pieceIndex < |b| && snap.partnerIndex < |b| && k < |b|
    ensures SameButFlags(MarkPair(b, snap)[k], b[k])
    ensures forall side :: GetSlot(b[k], side).connected ==> GetSlot(MarkPair(b, snap)[k], side).connected
    ensures GetSlot(MarkPair(b, snap)[snap.pieceIndex], snap.slotName).connected
    ensures GetSlot(MarkPair(b, snap)[snap.partnerIndex], Opposite(snap.slotName)).connected
  {
  }

  /** Piece `k` once the dropped group has moved and the two groups are merged. */
  lemma JoinedAt(s: seq<Piece>, group: seq<nat>, snap: Snap, k: nat)
    requires snap.partnerIndex < |s| && NoDuplicates(group) && k < |s|
    ensures var moved, m := Aligned(s, group, snap), MergedGroup(s, group, snap);
            moved[k] == (if k in group then Shift(s[k], -snap.deltaX, -snap.deltaZ) else s[k]) &&
            Merged(moved, m)[k] == if k in m then moved[k].(connectedPieces := m) else moved[k]
  {
    MovedThenMergedAt(s, group, -snap.deltaX, -snap.deltaZ, MergedGroup(s, group, snap), k);
  }

  /** Piece `k` before the cascade: moved with the dropped group, regrouped if merged, no flag cleared. */
  lemma PairedAt(s: seq<Piece>, group: seq<nat>, snap: Snap, k: nat)
    requires snap.pieceIndex < |s| && snap.partnerIndex < |s| && NoDuplicates(group) && k < |s|
    ensures var r, m := Paired(s, group, snap)[k], MergedGroup(s, group, snap);
            r.gridRow == s[k].gridRow && r.gridCol == s[k].gridCol &&
            r.positionY == s[k].positionY && r.heldBy == s[k].heldBy &&
            r.positionX == (if k in group then s[k].positionX - snap.deltaX else s[k].positionX) &&
            r.positionZ == (if k in group then s[k].positionZ - snap.deltaZ else s[k].positionZ) &&
            r.connectedPieces == (if k in m then m else s[k].connectedPieces) &&
            forall side :: GetSlot(r, side).tab == GetSlot(s[k], side).tab &&
                           (GetSlot(s[k], side).connected ==> GetSlot(r, side).connected)
  {
    var joined := Merged(Aligned(s, group, snap), MergedGroup(s, group, snap));
    JoinedAt(s, group, snap, k);
    MarkPairAt(joined, snap, k);
  }

  /**
   * Piece `k` after a snap: it moved by the correction exactly when it belongs to the dropped
   * group, it carries the merged list exactly when it belongs to it, its tab types are kept and
   * no flag of it was cleared.
   */
  lemma AfterSnapAt(cfg: Config, s: seq<Piece>, group: seq<nat>, snap: Snap, k: nat)
    requires snap.pieceIndex < |s| && snap.partnerIndex < |s| && NoDuplicates(group) && k < |s|
    ensures var r, m := AfterSnap(cfg, s, group, snap)[k], MergedGroup(s, group, snap);
            r.gridRow == s[k].gridRow && r.gridCol == s[k].gridCol &&
            r.positionY == s[k].positionY && r.heldBy == s[k].heldBy &&
            r.positionX == (if k in group then s[k].positionX - snap.deltaX else s[k].positionX) &&
            r.positionZ == (if k in group then s[k].positionZ - snap.deltaZ else s[k].positionZ) &&
            r.connectedPieces == (if k in m then m else s[k].connectedPieces) &&
            forall side :: GetSlot(r, side).tab == GetSlot(s[k], side).tab &&
                           (GetSlot(s[k], side).connected ==> GetSlot(r, side).connected)
  {
    var p, m := Paired(s, group, snap), MergedGroup(s, group, snap);
    PairedAt(s, group, snap, k);
    forall side
      ensures GetSlot(Cascaded(cfg, p, m)[k], side).tab == GetSlot(p[k], side).tab
      ensures GetSlot(p[k], side).connected ==> GetSlot(Cascaded(cfg, p, m)[k], side).connected
    {
      CascadedSlot(cfg, p, m, k, side);
    }
    CascadedSlot(cfg, p, m, k, Top);
  }

  /** After a snap both facing slots of the pair are connected; the cascade never clears them. */
  lemma AfterSnapJoinsPair(cfg: Config, s: seq<Piece>, group: seq<nat>, snap: Snap)
    requires snap.pieceIndex < |s| && snap.partnerIndex < |s|
    ensures GetSlot(AfterSnap(cfg, s, group, snap)[snap.pieceIndex], snap.slotName).connected
    ensures GetSlot(AfterSnap(cfg, s, group, snap)[snap.partnerIndex], Opposite(snap.slotName)).connected
  {
    var joined := Merged(Aligned(s, group, snap), MergedGroup(s, group, snap));
    MarkPairAt(joined, snap, snap.pieceIndex);
    CascadedSlot(cfg, Paired(s, group, snap), MergedGroup(s, group, snap), snap.pieceIndex, snap.slotName);
    CascadedSlot(cfg, Paired(s, group, snap), MergedGroup(s, group, snap), snap.partnerIndex, Opposite(snap.slotName));
  }

  /**
   * A snap found by the search seats the pair: once the dropped group (which holds the snapping
   * piece and not its partner) has moved by the correction, their positional error is zero.
   */
  lemma AfterSnapSeatsPair(cfg: Config, s: seq<Piece>, held: nat, group: seq<nat>)
    requires held < |s| && InBoard(group, |s|) && NoDuplicates(group) && held in group
    requires FirstSnap(cfg, s, held, group).Some?
    ensures var snap := FirstSnap(cfg, s, held, group).value;
            PieceError(cfg, AfterSnap(cfg, s, group, snap), snap.pieceIndex, snap.slotName, snap.partnerIndex).errorMagnitude == 0.0
  {
    var snap := FirstSnap(cfg, s, held, group).value;
    var k, side, q := snap.pieceIndex, snap.slotName, snap.partnerIndex;
    FirstSnapMeans(cfg, s, held, group);
    AfterSnapAt(cfg, s, group, snap, k);
    AfterSnapAt(cfg, s, group, snap, q);
    CorrectionSeats(cfg, s[k].positionX, s[k].positionZ, side, s[q].positionX, s[q].positionZ);
  }

  /** The two boards hold the same groups. */
  predicate SameGroups(a: seq<Piece>, b: seq<Piece>) {
    |a| == |b| && forall k | 0 <= k < |a| :: a[k].connectedPieces == b[k].connectedPieces
  }

  lemma SameGroupsConsistent(a: seq<Piece>, b: seq<Piece>)
    requires SameGroups(a, b) && GroupsConsistent(a) && IndicesInRange(a)
    ensures GroupsConsistent(b) && IndicesInRange(b)
  {
    forall k | 0 <= k < |b|
      ensures k in b[k].connectedPieces && NoDuplicates(b[k].connectedPieces)
      ensures forall j | j in b[k].connectedPieces :: j < |b| && b[j].connectedPieces == b[k].connectedPieces
    {
      assert b[k].connectedPieces == a[k].connectedPieces;
    }
  }

  /**
   * When the dropped group is the held piece's group, a snap keeps the groups a partition: the
   * partner's group is disjoint from the dropped one, and every member of either ends up holding
   * the same duplicate-free merged list.
   */
  lemma AfterSnapKeepsGroups(cfg: Config, s: seq<Piece>, held: nat, group: seq<nat>)
    requires held < |s| && GroupsConsistent(s) && IndicesInRange(s) && group == s[held].connectedPieces
    requires InBoard(group, |s|) && FirstSnap(cfg, s, held, group).Some?
    ensures GroupsConsistent(AfterSnap(cfg, s, group, FirstSnap(cfg, s, held, group).value))
    ensures IndicesInRange(AfterSnap(cfg, s, group, FirstSnap(cfg, s, held, group).value))
  {
    var snap := FirstSnap(cfg, s, held, group).value;
    FirstSnapMeans(cfg, s, held, group);
    var q := snap.partnerIndex;
    MergeKeepsGroupsConsistent(s, held, q);
    var m := MergedGroup(s, group, snap);
    var r := AfterSnap(cfg, s, group, snap);
    forall k | 0 <= k < |s|
      ensures Merged(s, m)[k].connectedPieces == r[k].connectedPieces
    {
      AfterSnapAt(cfg, s, group, snap, k);
    }
    SameGroupsConsistent(Merged(s, m), r);
  }

  /**
   * The middle of `handleSnapping` once a snap is found: align the dropped group with the partner,
   * merge the two groups and mark the pair's facing slots connected.
   */
  method JoinPair(pieces: array<Piece>, group: seq<nat>, snap: Snap) returns (merged: seq<nat>)
    requires InBoard(group, pieces.Length) && IndicesInRange(pieces[..])
    requires snap.pieceIndex < pieces.Length && snap.partnerIndex < pieces.Length
    modifies pieces
    ensures merged == MergedGroup(old(pieces[..]), group, snap) && InBoard(merged, pieces.Length)
    ensures pieces[..] == Paired(old(pieces[..]), group, snap)
  {
    ghost var s := pieces[..];
    MoveGroup(pieces, group, -snap.deltaX, -snap.deltaZ);
    ghost var moved := pieces[..];
    assert moved == Aligned(s, group, snap);
    MovedKeepsAllButPositions(s, group, -snap.deltaX, -snap.deltaZ, snap.partnerIndex);
    var partnerGroup := pieces[snap.partnerIndex].connectedPieces;
    assert partnerGroup == s[snap.partnerIndex].connectedPieces;
    merged := MergeGroups(pieces, group, partnerGroup);
    ghost var joined := pieces[..];
    pieces[snap.pieceIndex] := MarkConnected(pieces[snap.pieceIndex], snap.slotName);
    ghost var marked := pieces[..];
    assert marked == joined[snap.pieceIndex := MarkConnected(joined[snap.pieceIndex], snap.slotName)];
    pieces[snap.partnerIndex] := MarkConnected(pieces[snap.partnerIndex], Opposite(snap.slotName));
    assert pieces[..] == marked[snap.partnerIndex := MarkConnected(marked[snap.partnerIndex], Opposite(snap.slotName))];
    PairedStages(s, group, snap, moved, joined);
  }

  /**
   * `handleSnapping(pieces, held, droppedGroup)`: without a snap nothing changes and the answer
   * is false; with one the board becomes `AfterSnap` and the answer is true.
   */
  method HandleSnapping(cfg: Config, pieces: array<Piece>, held: nat, group: seq<nat>) returns (snapped: bool)
    requires held < pieces.Length && InBoard(group, pieces.Length) && IndicesInRange(pieces[..])
    modifies pieces
    ensures snapped <==> FirstSnap(cfg, old(pieces[..]), held, group).Some?
    ensures !snapped ==> pieces[..] == old(pieces[..])
    ensures snapped ==> pieces[..] == AfterSnap(cfg, old(pieces[..]), group, FirstSnap(cfg, old(pieces[..]), held, group).value)
  {
    ghost var s := pieces[..];
    var snap := CheckIfPieceSnaps(cfg, pieces[..], held, group);
    if snap.None? {
      return false;
    }
    var hit := snap.value;
    assert pieces[..] == s;
    var merged := JoinPair(pieces, group, hit);
    CheckIfPieceConnects(cfg, pieces, merged);
    return true;
  }
}
