/**
 * The client's snapping engine (client/src/gameplay.js): the same drop handling as the server's
 * snapping.js, played on the meshes of the local scene. A slot knows its partner mesh directly
 * (set when the board is spawned), so no grid lookup is needed; group membership is identity of
 * meshes, here identity of indices. The meshes are an array indexed by board position, updated
 * in place.
 */
module ClientGameplay {
  import opened Wrappers
  import opened Grid
  import opened Geometry
  import opened ClientMesh
  import Board
  import Snapping
  import ClientPuzzle

  /** Every partner a slot points at is a mesh of the board. */
  predicate PartnersInRange(s: seq<Mesh>) {
    forall k, side | 0 <= k < |s| && SlotOf(s[k], side).partnerPiece.Some? :: SlotOf(s[k], side).partnerPiece.value < |s|
  }

  /** Every group lists meshes of the board only. */
  predicate GroupsInRange(s: seq<Mesh>) {
    forall k, j | 0 <= k < |s| && j in s[k].connectedGroup :: j < |s|
  }

  /** Partners point at each other: the mesh across side `side` of `k` has `k` across the opposite side. */
  predicate PartnersMutual(s: seq<Mesh>) {
    forall k, side | 0 <= k < |s| && SlotOf(s[k], side).partnerPiece.Some? ::
      var l := SlotOf(s[k], side).partnerPiece.value;
      l < |s| && SlotOf(s[l], Opposite(side)).partnerPiece == Some(k)
  }

  /**
   * Groups partition the board: each mesh is in its own group, a group lists no mesh twice, and
   * every member of a group holds the very same member list.
   */
  predicate GroupsConsistent(s: seq<Mesh>) {
    forall k | 0 <= k < |s| ::
      k in s[k].connectedGroup && Board.NoDuplicates(s[k].connectedGroup) &&
      forall j | j in s[k].connectedGroup :: j < |s| && s[j].connectedGroup == s[k].connectedGroup
  }

  /** `returnPositionalErrorAndSomeOtherStuff(mesh k, side, mesh l)`. */
  function MeshError(cfg: Config, s: seq<Mesh>, k: nat, side: Side, l: nat): PositionalError
    requires k < |s| && l < |s|
  {
    ErrorBetween(cfg, s[k].x, s[k].z, side, s[l].x, s[l].z)
  }

  // ---------------------------------------------------------------------------------------------
  // moveGroup

  function Shift(m: Mesh, dx: real, dz: real): Mesh {
    m.(x := m.x + dx, z := m.z + dz)
  }

  /**
   * The board after `moveGroup(group, dx, dz)`: the listed meshes move one listing after the other.
   * This is the same recursion as `Board.Moved` on purpose: the client has its own `moveGroup`
   * over three.js meshes, whose fields differ from the server's pieces.
   */
  function Moved(s: seq<Mesh>, group: seq<nat>, dx: real, dz: real): (r: seq<Mesh>)
    ensures |r| == |s|
  {
    if group == [] then s
    else
      var before, k := Moved(s, group[..|group| - 1], dx, dz), group[|group| - 1];
      if k < |before| then before[k := Shift(before[k], dx, dz)] else before
  }

  /** A group without duplicates moves rigidly: each member by exactly (dx, dz), every other mesh not at all. */
  lemma {:induction false} MovedRigid(s: seq<Mesh>, group: seq<nat>, dx: real, dz: real, k: nat)
    requires Board.NoDuplicates(group) && k < |s|
    ensures Moved(s, group, dx, dz)[k] == if k in group then Shift(s[k], dx, dz) else s[k]
  {
    if group != [] {
      var init, last := group[..|group| - 1], group[|group| - 1];
      assert group == init + [last];
      assert last !in init;
      MovedRigid(s, init, dx, dz, k);
    }
  }

  /** Moving a group changes nothing but positions on the table plane. */
  lemma {:induction false} MovedKeepsAllButPositions(s: seq<Mesh>, group: seq<nat>, dx: real, dz: real, k: nat)
    requires k < |s|
    ensures var m := Moved(s, group, dx, dz)[k];
            m == s[k].(x := m.x, z := m.z)
  {
    if group != [] {
      MovedKeepsAllButPositions(s, group[..|group| - 1], dx, dz, k);
    }
  }

  /** Two meshes moved together keep their positional error. */
  lemma MovedKeepsErrorWithinGroup(cfg: Config, s: seq<Mesh>, group: seq<nat>, dx: real, dz: real, k: nat, side: Side, l: nat)
    requires Board.NoDuplicates(group) && k < |s| && l < |s|
    requires k in group <==> l in group
    ensures MeshError(cfg, Moved(s, group, dx, dz), k, side, l) == MeshError(cfg, s, k, side, l)
  {
    MovedRigid(s, group, dx, dz, k);
    MovedRigid(s, group, dx, dz, l);
    if k in group {
      ErrorTranslationInvariant(cfg, s[k].x, s[k].z, side, s[l].x, s[l].z, dx, dz);
    }
  }

  /** `moveGroup(group, dx, dz)`: every listed mesh moves by (dx, dz) on the table plane. */
  method MoveGroup(meshes: array<Mesh>, group: seq<nat>, dx: real, dz: real)
    requires Snapping.InBoard(group, meshes.Length)
    modifies meshes
    ensures meshes[..] == Moved(old(meshes[..]), group, dx, dz)
  {
    ghost var s := meshes[..];
    var n := 0;
    while n < |group|
      invariant 0 <= n <= |group|
      invariant meshes[..] == Moved(s, group[..n], dx, dz)
    {
      var k := group[n];
      assert k in group;
      assert group[..n + 1][..n] == group[..n];
      meshes[k] := Shift(meshes[k], dx, dz);
      n := n + 1;
    }
    assert group[..|group|] == group;
  }

  // ---------------------------------------------------------------------------------------------
  // checkIfPieceSnaps

  /**
   * Slot `side` of mesh `k` snaps: it is free, it has a partner, the partner lies outside the
   * dropped group, and the positional error is below the snap threshold.
   */
  predicate SnapsAt(cfg: Config, s: seq<Mesh>, group: seq<nat>, k: nat, side: Side) {
    k < |s| && !SlotOf(s[k], side).isConnected && SlotOf(s[k], side).partnerPiece.Some? &&
    var l := SlotOf(s[k], side).partnerPiece.value;
    l < |s| && l !in group && MeshError(cfg, s, k, side, l).errorMagnitude < cfg.snapThreshold
  }

  /** The report for slot `side` of mesh `k` against mesh `l`: the correction is the error's delta. */
  function ToSnap(cfg: Config, s: seq<Mesh>, k: nat, side: Side, l: nat): Snapping.Snap
    requires k < |s| && l < |s|
  {
    var e := MeshError(cfg, s, k, side, l);
    Snapping.Snap(k, side, l, e.deltaX, e.deltaZ)
  }

  /** The slot loop for mesh `k`, from the `t`-th side of top, right, bottom, left on. */
  function SearchSides(cfg: Config, s: seq<Mesh>, group: seq<nat>, k: nat, t: nat): Option<Snapping.Snap>
    requires k < |s|
    decreases 4 - t
  {
    if t >= 4 then None
    else if SnapsAt(cfg, s, group, k, Sides[t]) then
      Some(ToSnap(cfg, s, k, Sides[t], SlotOf(s[k], Sides[t]).partnerPiece.value))
    else SearchSides(cfg, s, group, k, t + 1)
  }

  /** The loop over the dropped group from its `m`-th entry on, skipping the held mesh. */
  function SearchMembers(cfg: Config, s: seq<Mesh>, held: nat, group: seq<nat>, m: nat): Option<Snapping.Snap>
    requires Snapping.InBoard(group, |s|)
    decreases |group| - m
  {
    if m >= |group| then None
    else
      var hit := if group[m] == held then None else assert group[m] in group; SearchSides(cfg, s, group, group[m], 0);
      if hit.Some? then hit else SearchMembers(cfg, s, held, group, m + 1)
  }

  /**
   * `r` is the first snap of mesh `k` from the `t`-th side on: its side is the first of top, right,
   * bottom, left from there that snaps, against that slot's partner.
   */
  predicate FirstOfMesh(cfg: Config, s: seq<Mesh>, group: seq<nat>, k: nat, t: nat, r: Snapping.Snap) {
    r.pieceIndex == k && SnapsAt(cfg, s, group, k, r.slotName) &&
    SlotOf(s[k], r.slotName).partnerPiece == Some(r.partnerIndex) &&
    r == ToSnap(cfg, s, k, r.slotName, r.partnerIndex) &&
    exists u | t <= u < 4 :: r.slotName == Sides[u] && forall v | t <= v < u :: !SnapsAt(cfg, s, group, k, Sides[v])
  }

  /** The slot loop finds the first snapping side from `t` on, and misses exactly when none snaps. */
  lemma {:induction false} SearchSidesMeans(cfg: Config, s: seq<Mesh>, group: seq<nat>, k: nat, t: nat)
    requires k < |s|
    decreases 4 - t
    ensures var r := SearchSides(cfg, s, group, k, t);
            (r.Some? ==> FirstOfMesh(cfg, s, group, k, t, r.value)) &&
            (r.None? <==> forall u | t <= u < 4 :: !SnapsAt(cfg, s, group, k, Sides[u]))
  {
    if t < 4 && !SnapsAt(cfg, s, group, k, Sides[t]) {
      SearchSidesMeans(cfg, s, group, k, t + 1);
    }
  }

  /**
   * The member loop reports, for the first member from the `m`-th entry on other than the held
   * mesh that has a snapping slot, that member's first snap; it misses exactly when no such member
   * has a snapping slot.
   */
  lemma {:induction false} SearchMembersMeans(cfg: Config, s: seq<Mesh>, held: nat, group: seq<nat>, m: nat)
    requires Snapping.InBoard(group, |s|)
    decreases |group| - m
    ensures var r := SearchMembers(cfg, s, held, group, m);
            r.Some? ==>
              r.value.pieceIndex in group[m..] && r.value.pieceIndex != held &&
              SnapsAt(cfg, s, group, r.value.pieceIndex, r.value.slotName) &&
              SlotOf(s[r.value.pieceIndex], r.value.slotName).partnerPiece == Some(r.value.partnerIndex) &&
              r.value == ToSnap(cfg, s, r.value.pieceIndex, r.value.slotName, r.value.partnerIndex)
    ensures var r := SearchMembers(cfg, s, held, group, m);
            r.Some? ==> exists j | m <= j < |group| ::
              group[j] != held && FirstOfMesh(cfg, s, group, group[j], 0, r.value) &&
              forall i: nat, u: nat | m <= i < j && group[i] != held && u < 4 :: !SnapsAt(cfg, s, group, group[i], Sides[u])
    ensures SearchMembers(cfg, s, held, group, m).None? <==>
              forall j: nat, t: nat | m <= j < |group| && group[j] != held && t < 4 :: !SnapsAt(cfg, s, group, group[j], Sides[t])
  {
    if m < |group| {
      assert group[m] in group;
      if group[m] != held {
        SearchSidesMeans(cfg, s, group, group[m], 0);
      }
      SearchMembersMeans(cfg, s, held, group, m + 1);
      assert group[m..] == [group[m]] + group[m + 1..];
      var r := SearchMembers(cfg, s, held, group, m);
      if r.Some? && (group[m] == held || SearchSides(cfg, s, group, group[m], 0).None?) {
        var j :| m + 1 <= j < |group| && group[j] != held && FirstOfMesh(cfg, s, group, group[j], 0, r.value) &&
                 forall i: nat, u: nat | m + 1 <= i < j && group[i] != held && u < 4 :: !SnapsAt(cfg, s, group, group[i], Sides[u]);
        assert forall i: nat, u: nat | m <= i < j && group[i] != held && u < 4 :: !SnapsAt(cfg, s, group, group[i], Sides[u]);
      }
    }
  }

  /**
   * `checkIfPieceSnaps(mesh, droppedGroup)` as a specification: the held mesh's slots are tried
   * first, then those of the other members in group order; the first snap found is reported with
   * its correction.
   */
  function FirstSnap(cfg: Config, s: seq<Mesh>, held: nat, group: seq<nat>): (r: Option<Snapping.Snap>)
    requires held < |s| && Snapping.InBoard(group, |s|)
    ensures r.Some? ==> r.value.pieceIndex < |s| && r.value.partnerIndex < |s|
  {
    SearchSidesMeans(cfg, s, group, held, 0);
    SearchMembersMeans(cfg, s, held, group, 0);
    var hit := SearchSides(cfg, s, group, held, 0);
    if hit.Some? then hit else SearchMembers(cfg, s, held, group, 0)
  }

  /**
   * The search reports a snapping slot of the held mesh or of a group member, against that slot's
   * partner and with the correction: the held mesh's first snap when it has one, otherwise the
   * first snap of the first other member in group order that has one. It reports nothing exactly
   * when no such slot snaps.
   */
  lemma FirstSnapMeans(cfg: Config, s: seq<Mesh>, held: nat, group: seq<nat>)
    requires held < |s| && Snapping.InBoard(group, |s|)
    ensures var r := FirstSnap(cfg, s, held, group);
            r.Some? ==>
              var k, side, l := r.value.pieceIndex, r.value.slotName, r.value.partnerIndex;
              (k == held || k in group) && SnapsAt(cfg, s, group, k, side) &&
              SlotOf(s[k], side).partnerPiece == Some(l) && l !in group && r.value == ToSnap(cfg, s, k, side, l)
    ensures var r := FirstSnap(cfg, s, held, group);
            r.Some? ==>
              FirstOfMesh(cfg, s, group, held, 0, r.value) ||
              ((forall u: nat | u < 4 :: !SnapsAt(cfg, s, group, held, Sides[u])) &&
               exists j | 0 <= j < |group| ::
                 group[j] != held && FirstOfMesh(cfg, s, group, group[j], 0, r.value) &&
                 forall i: nat, u: nat | i < j && group[i] != held && u < 4 :: !SnapsAt(cfg, s, group, group[i], Sides[u]))
    ensures FirstSnap(cfg, s, held, group).None? <==>
              forall k: nat, side: Side | k == held || k in group :: !SnapsAt(cfg, s, group, k, side)
  {
    SearchSidesMeans(cfg, s, group, held, 0);
    SearchMembersMeans(cfg, s, held, group, 0);
    assert group[0..] == group;
    if FirstSnap(cfg, s, held, group).None? {
      forall k: nat, side: Side | k == held || k in group
        ensures !SnapsAt(cfg, s, group, k, side)
      {
        var t := Snapping.SideIndex(side);
        if k != held {
          var j :| 0 <= j < |group| && group[j] == k;
          assert !SnapsAt(cfg, s, group, group[j], Sides[t]);
        } else {
          assert !SnapsAt(cfg, s, group, held, Sides[t]);
        }
      }
    }
  }

  /** The held mesh has priority: when one of its slots snaps, the snap reported is its first such slot. */
  lemma HeldMeshFirst(cfg: Config, s: seq<Mesh>, held: nat, group: seq<nat>, side: Side)
    requires held < |s| && Snapping.InBoard(group, |s|) && SnapsAt(cfg, s, group, held, side)
    ensures FirstSnap(cfg, s, held, group).Some? && FirstSnap(cfg, s, held, group).value.pieceIndex == held
  {
    SearchSidesMeans(cfg, s, group, held, 0);
    var t := Snapping.SideIndex(side);
    assert SnapsAt(cfg, s, group, held, Sides[t]);
  }

  /** The slot loop of `checkIfPieceSnaps` for one mesh `k`: its first snapping slot. */
  method ScanMesh(cfg: Config, meshes: seq<Mesh>, k: nat, group: seq<nat>) returns (hit: Option<Snapping.Snap>)
    requires k < |meshes| && PartnersInRange(meshes)
    ensures hit == SearchSides(cfg, meshes, group, k, 0)
  {
    var t := 0;
    while t < 4
      invariant 0 <= t <= 4
      invariant SearchSides(cfg, meshes, group, k, 0) == SearchSides(cfg, meshes, group, k, t)
    {
      var side := Sides[t];
      var slot := SlotOf(meshes[k], side);
      if !slot.isConnected && slot.partnerPiece.Some? {
        var partner := slot.partnerPiece.value;
        if partner !in group {
          var e := ErrorBetween(cfg, meshes[k].x, meshes[k].z, side, meshes[partner].x, meshes[partner].z);
          if e.errorMagnitude < cfg.snapThreshold {
            return Some(Snapping.Snap(k, side, partner, e.deltaX, e.deltaZ));
          }
        }
      }
      t := t + 1;
    }
    return None;
  }

  /**
   * `checkIfPieceSnaps(mesh, droppedGroup)`: the search reads the meshes and changes nothing; its
   * answer is `FirstSnap`.
   */
  method CheckIfPieceSnaps(cfg: Config, meshes: seq<Mesh>, held: nat, group: seq<nat>) returns (snap: Option<Snapping.Snap>)
    requires held < |meshes| && Snapping.InBoard(group, |meshes|) && PartnersInRange(meshes)
    ensures snap == FirstSnap(cfg, meshes, held, group)
  {
    snap := ScanMesh(cfg, meshes, held, group);
    if snap.Some? {
      return;
    }
    var m := 0;
    while m < |group|
      invariant 0 <= m <= |group|
      invariant snap.None? && SearchMembers(cfg, meshes, held, group, 0) == SearchMembers(cfg, meshes, held, group, m)
    {
      var k := group[m];
      if k != held {
        assert k in group;
        snap := ScanMesh(cfg, meshes, k, group);
        if snap.Some? {
          return;
        }
      }
      m := m + 1;
    }
  }

  // ---------------------------------------------------------------------------------------------
  // checkIfPieceConnects

  /**
   * Slot `side` of group member `k` faces a seam: its partner is in the group and the positional
   * error is below the connection threshold.
   */
  predicate Seam(cfg: Config, s: seq<Mesh>, group: seq<nat>, k: nat, side: Side) {
    k < |s| && k in group && SlotOf(s[k], side).partnerPiece.Some? &&
    var l := SlotOf(s[k], side).partnerPiece.value;
    l < |s| && l in group && MeshError(cfg, s, k, side, l).errorMagnitude < cfg.connectionThreshold
  }

  /** Slot `side` of mesh `k` is the far side of a seam: the facing slot of that seam's partner. */
  ghost predicate Mirror(cfg: Config, s: seq<Mesh>, group: seq<nat>, k: nat, side: Side) {
    exists j: nat, t: Side | j < |s| ::
      Seam(cfg, s, group, j, t) && SlotOf(s[j], t).partnerPiece == Some(k) && Opposite(t) == side
  }

  /** Every slot flag set in `a` is set in `b`. */
  ghost predicate Grows(a: seq<Mesh>, b: seq<Mesh>) {
    |a| == |b| && forall k, side | 0 <= k < |a| :: SlotOf(a[k], side).isConnected ==> SlotOf(b[k], side).isConnected
  }

  lemma GrowsTransitive(a: seq<Mesh>, b: seq<Mesh>, c: seq<Mesh>)
    requires Grows(a, b) && Grows(b, c)
    ensures Grows(a, c)
  {
  }

  /**
   * The cascade so far, started from `s`, has produced `cur`: only flags differ, no flag was
   * cleared, and every newly set flag is a seam or the far side of one.
   */
  ghost predicate Justified(cfg: Config, s: seq<Mesh>, group: seq<nat>, cur: seq<Mesh>) {
    |cur| == |s| &&
    forall k | 0 <= k < |s| ::
      SameButFlags(cur[k], s[k]) &&
      forall side :: (SlotOf(s[k], side).isConnected ==> SlotOf(cur[k], side).isConnected) &&
                     (SlotOf(cur[k], side).isConnected && !SlotOf(s[k], side).isConnected ==>
                        Seam(cfg, s, group, k, side) || Mirror(cfg, s, group, k, side))
  }

  /** Flags do not enter the seam test. */
  lemma SeamIgnoresFlags(cfg: Config, s: seq<Mesh>, group: seq<nat>, cur: seq<Mesh>, k: nat, side: Side)
    requires Justified(cfg, s, group, cur) && k < |s|
    ensures SlotOf(cur[k], side).partnerPiece == SlotOf(s[k], side).partnerPiece
    ensures Seam(cfg, cur, group, k, side) == Seam(cfg, s, group, k, side)
  {
    assert SameButFlags(cur[k], s[k]);
    var p := SlotOf(s[k], side).partnerPiece;
    if p.Some? && p.value < |s| {
      assert SameButFlags(cur[p.value], s[p.value]);
    }
  }

  /** Marking a slot that is a seam or the far side of one keeps the cascade justified. */
  lemma MarkJustified(cfg: Config, s: seq<Mesh>, group: seq<nat>, cur: seq<Mesh>, k: nat, side: Side)
    requires Justified(cfg, s, group, cur) && k < |s|
    requires Seam(cfg, s, group, k, side) || Mirror(cfg, s, group, k, side)
    ensures var c := cur[k := MarkConnected(cur[k], side)];
            Justified(cfg, s, group, c) && Grows(cur, c) && SlotOf(c[k], side).isConnected
  {
    var c := cur[k := MarkConnected(cur[k], side)];
    forall j | 0 <= j < |s|
      ensures SameButFlags(c[j], s[j])
      ensures forall t :: (SlotOf(s[j], t).isConnected ==> SlotOf(c[j], t).isConnected) &&
                          (SlotOf(c[j], t).isConnected && !SlotOf(s[j], t).isConnected ==>
                             Seam(cfg, s, group, j, t) || Mirror(cfg, s, group, j, t))
    {
    }
  }

  /** Closing a seam marks its slot and the facing slot of its partner. */
  lemma CloseSeam(cfg: Config, s: seq<Mesh>, group: seq<nat>, cur: seq<Mesh>, k: nat, side: Side)
    requires Justified(cfg, s, group, cur) && Seam(cfg, s, group, k, side)
    ensures var l := SlotOf(s[k], side).partnerPiece.value;
            var c1 := cur[k := MarkConnected(cur[k], side)];
            var c2 := c1[l := MarkConnected(c1[l], Opposite(side))];
            Justified(cfg, s, group, c2) && Grows(cur, c2) && SlotOf(c2[k], side).isConnected
  {
    var l := SlotOf(s[k], side).partnerPiece.value;
    var c1 := cur[k := MarkConnected(cur[k], side)];
    MarkJustified(cfg, s, group, cur, k, side);
    assert Mirror(cfg, s, group, l, Opposite(side));
    MarkJustified(cfg, s, group, c1, l, Opposite(side));
    GrowsTransitive(cur, c1, c1[l := MarkConnected(c1[l], Opposite(side))]);
  }

  /**
   * The body of the slot loop of `checkIfPieceConnects` for slot `side` of member `k`: a free slot
   * whose partner is in the group within the connection threshold is marked, with the partner's
   * facing slot.
   */
  method ConnectSlot(cfg: Config, meshes: array<Mesh>, group: seq<nat>, k: nat, side: Side, ghost s: seq<Mesh>)
    requires k < meshes.Length && k in group && PartnersInRange(s) && Justified(cfg, s, group, meshes[..])
    modifies meshes
    ensures Justified(cfg, s, group, meshes[..]) && Grows(old(meshes[..]), meshes[..])
    ensures Seam(cfg, s, group, k, side) ==> SlotOf(meshes[k], side).isConnected
  {
    ghost var before := meshes[..];
    SeamIgnoresFlags(cfg, s, group, before, k, side);
    var slot := SlotOf(meshes[k], side);
    if slot.isConnected || slot.partnerPiece.None? {
      return;
    }
    var partner := slot.partnerPiece.value;
    if partner !in group {
      return;
    }
    var e := ErrorBetween(cfg, meshes[k].x, meshes[k].z, side, meshes[partner].x, meshes[partner].z);
    if e.errorMagnitude < cfg.connectionThreshold {
      assert Seam(cfg, before, group, k, side);
      CloseSeam(cfg, s, group, before, k, side);
      meshes[k] := MarkConnected(meshes[k], side);
      ghost var marked := meshes[..];
      assert marked == before[k := MarkConnected(before[k], side)];
      meshes[partner] := MarkConnected(meshes[partner], Opposite(side));
      assert meshes[..] == marked[partner := MarkConnected(marked[partner], Opposite(side))];
    }
  }

  /** The cascade in closed form: a slot ends up connected when it was, or when it faces a seam. */
  function Settle(cfg: Config, s: seq<Mesh>, group: seq<nat>, k: nat, side: Side): MeshSlot
    requires k < |s|
  {
    var slot := SlotOf(s[k], side);
    slot.(isConnected := slot.isConnected || Seam(cfg, s, group, k, side))
  }

  /** The board once every seam of the group is closed. */
  function Cascaded(cfg: Config, s: seq<Mesh>, group: seq<nat>): (r: seq<Mesh>)
    ensures |r| == |s|
  {
    seq(|s|, k requires 0 <= k < |s| =>
      s[k].(top := Settle(cfg, s, group, k, Top), right := Settle(cfg, s, group, k, Right),
            bottom := Settle(cfg, s, group, k, Bottom), left := Settle(cfg, s, group, k, Left)))
  }

  lemma CascadedAt(cfg: Config, s: seq<Mesh>, group: seq<nat>, k: nat)
    requires k < |s|
    ensures SameButSlots(Cascaded(cfg, s, group)[k], s[k])
    ensures forall side :: SlotOf(Cascaded(cfg, s, group)[k], side) == Settle(cfg, s, group, k, side)
  {
  }

  /** With mutual partners the far side of a seam is a seam itself: the error looks the same from both sides. */
  lemma MirrorIsSeam(cfg: Config, s: seq<Mesh>, group: seq<nat>, k: nat, side: Side)
    requires PartnersMutual(s) && Mirror(cfg, s, group, k, side)
    ensures Seam(cfg, s, group, k, side)
  {
    var j: nat, t: Side :| j < |s| && Seam(cfg, s, group, j, t) && SlotOf(s[j], t).partnerPiece == Some(k) && Opposite(t) == side;
    assert SlotOf(s[k], Opposite(t)).partnerPiece == Some(j);
    ErrorSymmetric(cfg, s[j].x, s[j].z, t, s[k].x, s[k].z);
  }

  /**
   * With mutual partners a justified cascade that closed every seam is the closed form: the
   * order in which members and slots are visited does not matter.
   */
  lemma CascadeIsClosedForm(cfg: Config, s: seq<Mesh>, group: seq<nat>, r: seq<Mesh>)
    requires PartnersMutual(s) && Justified(cfg, s, group, r)
    requires forall k: nat, side | k < |s| && Seam(cfg, s, group, k, side) :: SlotOf(r[k], side).isConnected
    ensures r == Cascaded(cfg, s, group)
  {
    var f := Cascaded(cfg, s, group);
    forall k | 0 <= k < |s|
      ensures r[k] == f[k]
    {
      CascadedAt(cfg, s, group, k);
      forall side
        ensures SlotOf(r[k], side) == SlotOf(f[k], side)
      {
        if Mirror(cfg, s, group, k, side) {
          MirrorIsSeam(cfg, s, group, k, side);
        }
      }
      MeshFromSlots(r[k], f[k]);
    }
  }

  /**
   * `checkIfPieceConnects(group)`: every free slot of every member whose partner is in the group
   * within the connection threshold is marked, together with the partner's facing slot. Only
   * flags change and none is cleared; with mutual partners the result is the closed form.
   */
  method CheckIfPieceConnects(cfg: Config, meshes: array<Mesh>, group: seq<nat>)
    requires Snapping.InBoard(group, meshes.Length) && PartnersInRange(meshes[..])
    modifies meshes
    ensures Justified(cfg, old(meshes[..]), group, meshes[..])
    ensures forall k: nat, side | k < meshes.Length && Seam(cfg, old(meshes[..]), group, k, side) ::
              SlotOf(meshes[k], side).isConnected
    ensures PartnersMutual(old(meshes[..])) ==> meshes[..] == Cascaded(cfg, old(meshes[..]), group)
  {
    ghost var s := meshes[..];
    var m := 0;
    while m < |group|
      invariant 0 <= m <= |group|
      invariant Justified(cfg, s, group, meshes[..])
      invariant forall k: nat, side | k in group[..m] && k < |s| && Seam(cfg, s, group, k, side) ::
                  SlotOf(meshes[k], side).isConnected
    {
      var k := group[m];
      assert k in group;
      var t := 0;
      while t < 4
        invariant 0 <= t <= 4
        invariant Justified(cfg, s, group, meshes[..])
        invariant forall k: nat, side | k in group[..m] && k < |s| && Seam(cfg, s, group, k, side) ::
                    SlotOf(meshes[k], side).isConnected
        invariant forall u | 0 <= u < t :: Seam(cfg, s, group, k, Sides[u]) ==> SlotOf(meshes[k], Sides[u]).isConnected
      {
        ConnectSlot(cfg, meshes, group, k, Sides[t], s);
        t := t + 1;
      }
      forall side | Seam(cfg, s, group, k, side)
        ensures SlotOf(meshes[k], side).isConnected
      {
        var u := Snapping.SideIndex(side);
      }
      assert group[..m + 1] == group[..m] + [k];
      m := m + 1;
    }
    assert group[..m] == group;
    if PartnersMutual(s) {
      CascadeIsClosedForm(cfg, s, group, meshes[..]);
    }
  }

  // ---------------------------------------------------------------------------------------------
  // mergeGroups and handleSnapping

  /** The board after `mergeGroups` produced `merged`: every listed mesh holds the merged list. */
  function Merged(s: seq<Mesh>, merged: seq<nat>): (r: seq<Mesh>)
    ensures |r| == |s|
  {
    seq(|s|, k requires 0 <= k < |s| => if k in merged then s[k].(connectedGroup := merged) else s[k])
  }

  /** `mergeGroups(group1, group2)`: the two lists concatenated, handed to every mesh in either. */
  method MergeGroups(meshes: array<Mesh>, group1: seq<nat>, group2: seq<nat>) returns (merged: seq<nat>)
    requires Snapping.InBoard(group1, meshes.Length) && Snapping.InBoard(group2, meshes.Length)
    modifies meshes
    ensures merged == group1 + group2
    ensures meshes[..] == Merged(old(meshes[..]), merged)
  {
    merged := group1 + group2;
    ghost var s := meshes[..];
    var n := 0;
    while n < |merged|
      invariant 0 <= n <= |merged|
      invariant forall k | 0 <= k < meshes.Length :: meshes[k] == if k in merged[..n] then s[k].(connectedGroup := merged) else s[k]
    {
      var k := merged[n];
      assert k in group1 || k in group2;
      assert merged[..n + 1] == merged[..n] + [k];
      meshes[k] := meshes[k].(connectedGroup := merged);
      n := n + 1;
    }
    assert merged[..n] == merged;
  }

  lemma GroupsDisjoint(s: seq<Mesh>, a: nat, b: nat)
    requires GroupsConsistent(s) && a < |s| && b < |s|
    requires b !in s[a].connectedGroup
    ensures forall j :: j in s[a].connectedGroup ==> j !in s[b].connectedGroup
  {
  }

  /**
   * Merging the groups of two meshes from different groups keeps the groups a partition: the
   * merged list holds no duplicates and every mesh of either former group now carries it.
   */
  lemma MergeKeepsGroupsConsistent(s: seq<Mesh>, a: nat, b: nat)
    requires GroupsConsistent(s) && a < |s| && b < |s|
    requires b !in s[a].connectedGroup
    ensures var m := s[a].connectedGroup + s[b].connectedGroup;
            Board.NoDuplicates(m) && GroupsConsistent(Merged(s, m))
  {
    var A, B := s[a].connectedGroup, s[b].connectedGroup;
    var m := A + B;
    GroupsDisjoint(s, a, b);
    Board.ConcatNoDuplicates(A, B);
    var r := Merged(s, m);
    forall k | 0 <= k < |r|
      ensures k in r[k].connectedGroup && Board.NoDuplicates(r[k].connectedGroup)
      ensures forall j | j in r[k].connectedGroup :: j < |r| && r[j].connectedGroup == r[k].connectedGroup
    {
      if k !in m {
        var C := s[k].connectedGroup;
        assert forall j :: j in C ==> j !in m;
      }
    }
  }

  /** The dropped group followed by the partner's group. */
  function MergedGroup(s: seq<Mesh>, group: seq<nat>, snap: Snapping.Snap): seq<nat>
    requires snap.partnerIndex < |s|
  {
    group + s[snap.partnerIndex].connectedGroup
  }

  /** The pair's facing slots marked connected. */
  function MarkPair(b: seq<Mesh>, snap: Snapping.Snap): (r: seq<Mesh>)
    requires snap.pieceIndex < |b| && snap.partnerIndex < |b|
    ensures |r| == |b|
  {
    var marked := b[snap.pieceIndex := MarkConnected(b[snap.pieceIndex], snap.slotName)];
    marked[snap.partnerIndex := MarkConnected(marked[snap.partnerIndex], Opposite(snap.slotName))]
  }

  /** The board after a snap, before the cascade: the dropped group aligned, the groups merged, the pair marked. */
  function Paired(s: seq<Mesh>, group: seq<nat>, snap: Snapping.Snap): (r: seq<Mesh>)
    requires snap.pieceIndex < |s| && snap.partnerIndex < |s|
    ensures |r| == |s|
  {
    MarkPair(Merged(Moved(s, group, -snap.deltaX, -snap.deltaZ), MergedGroup(s, group, snap)), snap)
  }

  /** Mesh `k` once the dropped group has moved by the correction and the two groups are merged. */
  function Joined(s: seq<Mesh>, group: seq<nat>, snap: Snapping.Snap, k: nat): (r: Mesh)
    requires k < |s| && snap.partnerIndex < |s|
    ensures r.x == (if k in group then s[k].x - snap.deltaX else s[k].x)
    ensures r.z == (if k in group then s[k].z - snap.deltaZ else s[k].z)
    ensures r.connectedGroup == (if k in MergedGroup(s, group, snap) then MergedGroup(s, group, snap) else s[k].connectedGroup)
    ensures r == s[k].(x := r.x, z := r.z, connectedGroup := r.connectedGroup)
  {
    var moved := if k in group then Shift(s[k], -snap.deltaX, -snap.deltaZ) else s[k];
    var m := MergedGroup(s, group, snap);
    if k in m then moved.(connectedGroup := m) else moved
  }

  /**
   * Mesh `k` before the cascade: moved by the correction exactly when in the dropped group,
   * carrying the merged list exactly when in it, with its partners kept and no flag cleared.
   */
  lemma PairedAt(s: seq<Mesh>, group: seq<nat>, snap: Snapping.Snap, k: nat)
    requires snap.pieceIndex < |s| && snap.partnerIndex < |s| && Board.NoDuplicates(group) && k < |s|
    ensures SameButFlags(Paired(s, group, snap)[k], Joined(s, group, snap, k))
    ensures forall side :: SlotOf(s[k], side).isConnected ==> SlotOf(Paired(s, group, snap)[k], side).isConnected
  {
    var moved, m := Moved(s, group, -snap.deltaX, -snap.deltaZ), MergedGroup(s, group, snap);
    var joined := Merged(moved, m);
    MovedRigid(s, group, -snap.deltaX, -snap.deltaZ, k);
    assert joined[k] == if k in m then moved[k].(connectedGroup := m) else moved[k];
    assert joined[k] == Joined(s, group, snap, k);
    MarkPairAt(joined, snap, k);
  }

  /** Marking the pair's slots sets flags only. */
  lemma MarkPairAt(b: seq<Mesh>, snap: Snapping.Snap, k: nat)
    requires snap.pieceIndex < |b| && snap.partnerIndex < |b| && k < |b|
    ensures SameButFlags(MarkPair(b, snap)[k], b[k])
    ensures forall side :: SlotOf(b[k], side).isConnected ==> SlotOf(MarkPair(b, snap)[k], side).isConnected
  {
  }

  /** Aligning, merging and marking keep every partner pointer. */
  lemma PairedKeepsPartners(s: seq<Mesh>, group: seq<nat>, snap: Snapping.Snap)
    requires snap.pieceIndex < |s| && snap.partnerIndex < |s| && Board.NoDuplicates(group)
    ensures PartnersInRange(s) ==> PartnersInRange(Paired(s, group, snap))
    ensures PartnersMutual(s) ==> PartnersMutual(Paired(s, group, snap))
  {
    var p := Paired(s, group, snap);
    forall k, side | 0 <= k < |s|
      ensures SlotOf(p[k], side).partnerPiece == SlotOf(s[k], side).partnerPiece
    {
      PairedAt(s, group, snap, k);
    }
  }

  /**
   * The middle of `handleSnapping` once a snap is found: align the dropped group with the partner,
   * merge the two groups and mark the pair's facing slots connected.
   */
  method JoinPair(meshes: array<Mesh>, group: seq<nat>, snap: Snapping.Snap) returns (merged: seq<nat>)
    requires Snapping.InBoard(group, meshes.Length) && GroupsInRange(meshes[..])
    requires snap.pieceIndex < meshes.Length && snap.partnerIndex < meshes.Length
    modifies meshes
    ensures merged == MergedGroup(old(meshes[..]), group, snap) && Snapping.InBoard(merged, meshes.Length)
    ensures meshes[..] == Paired(old(meshes[..]), group, snap)
  {
    ghost var s := meshes[..];
    MoveGroup(meshes, group, -snap.deltaX, -snap.deltaZ);
    ghost var moved := meshes[..];
    MovedKeepsAllButPositions(s, group, -snap.deltaX, -snap.deltaZ, snap.partnerIndex);
    var partnerGroup := meshes[snap.partnerIndex].connectedGroup;
    assert partnerGroup == s[snap.partnerIndex].connectedGroup;
    merged := MergeGroups(meshes, group, partnerGroup);
    ghost var joined := meshes[..];
    meshes[snap.pieceIndex] := MarkConnected(meshes[snap.pieceIndex], snap.slotName);
    ghost var marked := meshes[..];
    assert marked == joined[snap.pieceIndex := MarkConnected(joined[snap.pieceIndex], snap.slotName)];
    meshes[snap.partnerIndex] := MarkConnected(meshes[snap.partnerIndex], Opposite(snap.slotName));
    assert meshes[..] == marked[snap.partnerIndex := MarkConnected(marked[snap.partnerIndex], Opposite(snap.slotName))];
  }

  /**
   * `handleSnapping(heldPiece, droppedGroup)`: without a snap nothing changes and the answer is
   * false. With one, the dropped group moves by the correction, merges with the partner's group,
   * the pair's facing slots are marked and the cascade runs over the merged group; with mutual
   * partners the result is the closed-form cascade.
   */
  method HandleSnapping(cfg: Config, meshes: array<Mesh>, held: nat, group: seq<nat>) returns (snapped: bool)
    requires held < meshes.Length && Snapping.InBoard(group, meshes.Length)
    requires PartnersInRange(meshes[..]) && GroupsInRange(meshes[..]) && Board.NoDuplicates(group)
    modifies meshes
    ensures snapped <==> FirstSnap(cfg, old(meshes[..]), held, group).Some?
    ensures !snapped ==> meshes[..] == old(meshes[..])
    ensures snapped ==>
              var s := old(meshes[..]);
              var snap := FirstSnap(cfg, s, held, group).value;
              var p, m := Paired(s, group, snap), MergedGroup(s, group, snap);
              Justified(cfg, p, m, meshes[..]) &&
              (forall k: nat, side | k < |s| && Seam(cfg, p, m, k, side) :: SlotOf(meshes[k], side).isConnected) &&
              (PartnersMutual(s) ==> meshes[..] == Cascaded(cfg, p, m))
  {
    ghost var s := meshes[..];
    var snap := CheckIfPieceSnaps(cfg, meshes[..], held, group);
    if snap.None? {
      return false;
    }
    var hit := snap.value;
    assert meshes[..] == s;
    var merged := JoinPair(meshes, group, hit);
    PairedKeepsPartners(s, group, hit);
    CheckIfPieceConnects(cfg, meshes, merged);
    return true;
  }

  /**
   * A snap found by the search, once handled, seats the pair: when the dropped group holds the
   * held mesh, the snapping mesh has moved by the correction and its partner has not, so their
   * positional error is zero; both facing slots are connected.
   */
  lemma SnapSeatsPair(cfg: Config, s: seq<Mesh>, held: nat, group: seq<nat>, r: seq<Mesh>)
    requires held < |s| && Snapping.InBoard(group, |s|) && Board.NoDuplicates(group) && held in group
    requires FirstSnap(cfg, s, held, group).Some?
    requires var snap := FirstSnap(cfg, s, held, group).value;
             Justified(cfg, Paired(s, group, snap), MergedGroup(s, group, snap), r)
    ensures var snap := FirstSnap(cfg, s, held, group).value;
            var k, side, l := snap.pieceIndex, snap.slotName, snap.partnerIndex;
            MeshError(cfg, r, k, side, l).errorMagnitude == 0.0 &&
            SlotOf(r[k], side).isConnected && SlotOf(r[l], Opposite(side)).isConnected
  {
    var snap := FirstSnap(cfg, s, held, group).value;
    var k, side, l := snap.pieceIndex, snap.slotName, snap.partnerIndex;
    var p := Paired(s, group, snap);
    FirstSnapMeans(cfg, s, held, group);
    PairedAt(s, group, snap, k);
    PairedAt(s, group, snap, l);
    assert SameButFlags(r[k], p[k]) && SameButFlags(r[l], p[l]);
    CorrectionSeats(cfg, s[k].x, s[k].z, side, s[l].x, s[l].z);
  }

  /**
   * When the dropped group is the held mesh's group, a handled snap keeps the groups a partition:
   * every member of either former group ends up holding the same duplicate-free merged list.
   */
  lemma SnapKeepsGroups(cfg: Config, s: seq<Mesh>, held: nat, r: seq<Mesh>)
    requires held < |s| && GroupsConsistent(s)
    requires FirstSnap(cfg, s, held, s[held].connectedGroup).Some?
    requires var group := s[held].connectedGroup;
             var snap := FirstSnap(cfg, s, held, group).value;
             Justified(cfg, Paired(s, group, snap), MergedGroup(s, group, snap), r)
    ensures GroupsConsistent(r)
  {
    var group := s[held].connectedGroup;
    var snap := FirstSnap(cfg, s, held, group).value;
    FirstSnapMeans(cfg, s, held, group);
    var l := snap.partnerIndex;
    MergeKeepsGroupsConsistent(s, held, l);
    var m := MergedGroup(s, group, snap);
    var p := Paired(s, group, snap);
    forall k | 0 <= k < |s|
      ensures r[k].connectedGroup == Merged(s, m)[k].connectedGroup
    {
      PairedAt(s, group, snap, k);
      assert SameButFlags(r[k], p[k]);
    }
    assert GroupsConsistent(Merged(s, m));
  }

  // ---------------------------------------------------------------------------------------------
  // The board the game starts from

  /** Index `k` of a rows x cols board lies in cell (k / cols, k % cols). */
  lemma CellOfIndex(k: int, rows: nat, cols: int)
    requires 0 <= k < rows * cols
    ensures 0 < cols && 0 <= k / cols < rows && 0 <= k % cols < cols && PieceIndex(k / cols, k % cols, cols) == k
  {
    if cols <= 0 {
      NonNegativeProduct(rows, -cols);
      assert false;
    }
    if k / cols >= rows {
      NonNegativeProduct(k / cols - rows, cols);
      assert false;
    }
  }

  /** The meshes of a rectangular grid in row-major order: the scene's meshes by board position. */
  function Flatten(grid: ClientPuzzle.MeshGrid, cols: nat): (r: seq<Mesh>)
    requires ClientPuzzle.Rectangular(grid, cols)
    ensures |r| == |grid| * cols
  {
    seq(|grid| * cols, k requires 0 <= k < |grid| * cols => CellOfIndex(k, |grid|, cols); grid[k / cols][k % cols])
  }

  /** Cell (i, j) of the grid is mesh number `PieceIndex(i, j, cols)` of the flattened board. */
  lemma FlattenAt(grid: ClientPuzzle.MeshGrid, cols: nat, i: int, j: int)
    requires ClientPuzzle.Rectangular(grid, cols) && 0 <= i < |grid| && 0 <= j < cols
    ensures 0 <= PieceIndex(i, j, cols) < |Flatten(grid, cols)| && Flatten(grid, cols)[PieceIndex(i, j, cols)] == grid[i][j]
  {
    PieceIndexInRange(i, j, |grid|, cols);
    PieceIndexInverse(i, j, cols);
  }

  /**
   * After `generatePieces` and `spawnPuzzle` every slot of the board points at a mesh of the
   * board, and partners point at each other.
   */
  lemma SpawnedPartnersMutual(grid: ClientPuzzle.MeshGrid, linked: ClientPuzzle.MeshGrid, rows: nat, cols: nat,
                              w: real, h: real, meshMap: seq<string>)
    requires ClientPuzzle.Generated(grid, rows, cols, w, h, meshMap)
    requires |linked| == rows && ClientPuzzle.Rectangular(linked, cols)
    requires forall i, j | 0 <= i < rows && 0 <= j < cols :: linked[i][j] == ClientPuzzle.Linked(grid[i][j], i, j, rows, cols)
    ensures PartnersInRange(Flatten(linked, cols)) && PartnersMutual(Flatten(linked, cols))
  {
    var s := Flatten(linked, cols);
    forall k, side | 0 <= k < |s| && SlotOf(s[k], side).partnerPiece.Some?
      ensures SlotOf(s[k], side).partnerPiece.value < |s|
      ensures SlotOf(s[SlotOf(s[k], side).partnerPiece.value], Opposite(side)).partnerPiece == Some(k)
    {
      CellOfIndex(k, rows, cols);
      var i, j := k / cols, k % cols;
      ClientPuzzle.SpawnedBoard(grid, linked, rows, cols, w, h, meshMap, i, j, side);
      var n := Neighbour(i, j, side);
      FlattenAt(linked, cols, n.0, n.1);
      ClientPuzzle.SpawnedBoard(grid, linked, rows, cols, w, h, meshMap, n.0, n.1, Opposite(side));
      ClientPuzzle.PartnerIndexMutual(i, j, n.0, n.1, side, rows, cols);
    }
  }

  /** After `generatePieces` every mesh is a group of its own, and `spawnPuzzle` keeps it so. */
  lemma SpawnedGroupsConsistent(grid: ClientPuzzle.MeshGrid, linked: ClientPuzzle.MeshGrid, rows: nat, cols: nat,
                                w: real, h: real, meshMap: seq<string>)
    requires ClientPuzzle.Generated(grid, rows, cols, w, h, meshMap)
    requires |linked| == rows && ClientPuzzle.Rectangular(linked, cols)
    requires forall i, j | 0 <= i < rows && 0 <= j < cols :: linked[i][j] == ClientPuzzle.Linked(grid[i][j], i, j, rows, cols)
    ensures forall k | 0 <= k < |Flatten(linked, cols)| :: Flatten(linked, cols)[k].connectedGroup == [k]
    ensures GroupsInRange(Flatten(linked, cols)) && GroupsConsistent(Flatten(linked, cols))
  {
    var s := Flatten(linked, cols);
    forall k | 0 <= k < |s|
      ensures s[k].connectedGroup == [k]
    {
      SpawnedGroupAt(grid, linked, rows, cols, w, h, meshMap, k);
    }
  }

  lemma SpawnedGroupAt(grid: ClientPuzzle.MeshGrid, linked: ClientPuzzle.MeshGrid, rows: nat, cols: nat,
                       w: real, h: real, meshMap: seq<string>, k: nat)
    requires ClientPuzzle.Generated(grid, rows, cols, w, h, meshMap)
    requires |linked| == rows && ClientPuzzle.Rectangular(linked, cols)
    requires forall i, j | 0 <= i < rows && 0 <= j < cols :: linked[i][j] == ClientPuzzle.Linked(grid[i][j], i, j, rows, cols)
    requires k < |Flatten(linked, cols)|
    ensures Flatten(linked, cols)[k].connectedGroup == [k]
  {
    CellOfIndex(k, rows, cols);
    var i, j := k / cols, k % cols;
    ClientPuzzle.GeneratedGroup(grid, rows, cols, w, h, meshMap, i, j);
    ClientPuzzle.SpawnedBoard(grid, linked, rows, cols, w, h, meshMap, i, j, Top);
  }
}
