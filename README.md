# Networked jigsaw puzzle: board generation, snapping and the room

This project models the core of a multiplayer jigsaw puzzle. The model covers both sides of the game.

On the server, a Colyseus room keeps the authoritative board:
- It generates the board once, at creation.
- It accepts pick-up, drag and drop requests from sessions.
- On every drop it runs the snapping engine.

On the client, a three.js scene keeps its own board of meshes. It generates the board, links neighbouring meshes when it spawns the puzzle, and runs its own snapping engine.

## How the model is built

- **Pieces and meshes are identified by their row-major index.** Every object reference of the source becomes an index into the board. This covers a group's member list, a slot's `partnerPiece`, and the piece a snap report names. A board is a `seq` of datatype values, or an `array` where the source updates the board in place.
- **Numbers.**
  - Positions and sizes are `real`.
  - Tab types are integers on the server.
  - On the client, tab types are characters of the piece type name. The client compares them with numbers under JavaScript's rules: a digit is its value, white space is 0, and anything else is NaN. NaN fails every comparison.
- **Configuration.** The configuration object (piece size, aspect-ratio scales, thresholds) is a `Config` parameter. The room's constructor stores the scales it computes in that parameter.
- **Randomness.** `getRandomInt(0, n)` becomes an oracle parameter `pick(row, col, n)`. The only thing assumed of it is that its result is below `n`.
- **Module layout:**
  - `Grid`: `server/src/rooms/utils.js`.
  - `Geometry`: the positional-error function, which all three snapping engines share.
  - `Schema`: the synchronised state.
  - `Catalogue` and `PuzzleGeneration`: `puzzleGeneration.js`, including the order in which `Object.entries` visits the lookup object.
  - `Board`: specification functions shared by the two server engines.
  - `Snapping`: `snapping.js`, the engine the room calls.
  - `GameLogic`: `gameLogic.js`, the second server engine.
  - `Room`: `PuzzleRoom.js`.
  - `ClientUtils`, `ClientMesh`, `ClientPuzzle` and `ClientGameplay`: the client.

## What the proofs establish

- **Generation.**
  - The server's `generatePuzzlePieces` fails exactly on a board that is one piece wide or one piece high.
  - Otherwise it produces a row-major board. On that board:
    - facing sides interlock;
    - exactly the border sides are flat and pre-connected;
    - every piece sits alone in its group;
    - every piece is seated against its neighbours.
  - On the client:
    - instance names are unique;
    - the generated meshes interlock when every loaded mesh name is a piece signature;
    - after spawning, partners are mutual and exactly the border slots start connected.
- **Snap search.**
  - The search returns the first snapping slot in the source's scan order, and returns nothing exactly when no slot snaps.
  - The held piece has priority in `snapping.js` and on the client, but not in `gameLogic.js`.
- **Connection cascade.**
  - It only sets flags, and every flag it sets is justified.
  - It has a closed form that does not depend on the visiting order:
    - in `snapping.js`, always;
    - in `gameLogic.js`, on a row-major board;
    - on the client, when partners are mutual.
  - On a row-major board the two server engines agree on each slot's snap test and on the cascade. They report the same snap when the dropped group starts with the held piece. Otherwise they can pick different snaps, because `gameLogic.js` gives the held piece no priority.
- **A handled snap.**
  - It seats the pair exactly.
  - It connects both facing slots.
  - It keeps the groups a partition.
- **The room.**
  - A free piece goes to the first session that asks for it.
  - Drags move the holder's group rigidly and never open a seam.
  - A drop releases the piece and keeps the board's invariant.
  - `onLeave` as written strands the pieces a leaving session holds (see Findings).

## Model

| member | source | states |
|---|---|---|
| Grid.OppositeTabAgrees | server/src/rooms/utils.js:5-8 | the integer `OppositeTab` used by the model is `getOpposite` on numbers, for every integer: innie 0 and outtie 1 swap, flat 2 and every other number stay |
| Grid.OppositeOnSideNames | server/src/rooms/utils.js:10-13 | on slot names `getOpposite` is the side across (top/bottom, left/right), never the same side, and an involution |
| Grid.OppositeFixesOtherValues | server/src/rooms/utils.js:15 | any value other than the three tab numbers and four side names is returned unchanged |
| Grid.OppositeInvolution | server/src/rooms/utils.js:5-16 | `Grid.GetOpposite`, the switch of `getOpposite` over numbers and strings, undoes itself: `getOpposite(getOpposite(v)) == v` for every value |
| Grid.PieceIndexInverse | server/src/rooms/utils.js:18-20 | `Grid.PieceIndex`, that is `getPieceIndex` = row * cols + col, is inverted on an in-range column by `/ cols` and `% cols` |
| Grid.PieceIndexInRange | server/src/rooms/utils.js:18-20 | a cell of a rows x cols grid has an index in [0, rows * cols) |
| Grid.PieceIndexInjective | server/src/rooms/utils.js:18-20 | distinct cells of the grid have distinct indices |
| Grid.GetPiece | server/src/rooms/utils.js:22-25 | `getPiece` returns an element exactly when row and column are non-negative and the row-major index lies inside the list, and that element is the one at the index; otherwise null |
| Grid.GetPieceWrapsPastRowEnd | server/src/rooms/utils.js:22-25 | `getPiece` does not check the column bound: column `cols` of a row is column 0 of the next row |
| Grid.PartnerIndex | server/src/rooms/utils.js:27-51 | the partner cell exists exactly when the neighbouring cell is on the grid |
| Grid.GetPartnerFindsNeighbour | server/src/rooms/utils.js:27-51 | `Grid.GetPartner` (`getPartner`) on a complete board returns null exactly for an off-grid neighbour, otherwise the element at the neighbour's index |
| Grid.PartnerOfPartner | server/src/rooms/utils.js:27-51 | partners are mutual: the partner's partner across the opposite side is the piece itself |
| Geometry.ErrorBetween | server/src/rooms/snapping.js:12-45 | the error magnitude is the larger absolute axis error, never negative, and zero exactly when the partner sits at the expected offset for that side |
| Geometry.CorrectionSeats | server/src/rooms/snapping.js:40-44 | moving the piece by the negated deltas, as the drop handler does at snapping.js:243, brings the error to zero |
| Geometry.ErrorTranslationInvariant | server/src/rooms/snapping.js:12-45 | moving both pieces by the same amount leaves the whole error report unchanged |
| Geometry.ErrorSymmetric | server/src/rooms/snapping.js:12-45 | seen from the partner across the opposite side, the magnitude is the same and the correction is negated |
| Geometry.CellCentresAreSeated | server/src/rooms/puzzleGeneration.js:156-167 | pieces laid out at their cell centres have zero error against every grid neighbour |
| Schema.WithSlot | server/src/rooms/schema/Schema.js:13-26 | replacing one slot changes that slot only |
| Schema.MarkConnected | server/src/rooms/gameLogic.js:48-60 | `Schema.GetSlot` (`getSlot`) picks the slot a side names; setting that slot's `connected` flag keeps its tab type and changes nothing else |
| Schema.PieceFromSlots | server/src/rooms/schema/Schema.js:13-26 | two pieces that agree outside their slots and on all four slots are equal |
| Schema.GridAdjacentSymmetric | server/src/rooms/snapping.js:64-89 | the adjacency test across a side holds exactly when it holds back across the opposite side |
| Board.MovedRigid | server/src/rooms/snapping.js:4-10 | `Board.Moved`, the value form of `moveGroup`, moves each member of a duplicate-free group by exactly (dx, dz) and every other piece not at all (gameLogic.js:4-10 is the same loop) |
| Board.MovedKeepsAllButPositions | server/src/rooms/snapping.js:4-10 | `moveGroup` changes nothing but positionX and positionZ |
| Board.MovedKeepsErrorWithinGroup | server/src/rooms/snapping.js:4-10 | two pieces that move together keep their positional error |
| Board.MovedThenMergedAt | server/src/rooms/snapping.js:243-248 | `Board.Merged` assigns the merged list to exactly the listed pieces; after moving the dropped group and merging, a piece is shifted exactly when in the group and regrouped exactly when in the merged list |
| Board.GroupsDisjoint | server/src/rooms/snapping.js:245-248 | on a partitioned board, a piece outside a group has a group disjoint from it |
| Board.MergeKeepsGroupsConsistent | server/src/rooms/snapping.js:229-237 | `mergeGroups` of two different groups yields a duplicate-free list, and the board stays partitioned into groups with indices in range |
| Board.SeamWithAnyMeans | server/src/rooms/snapping.js:185-224 | `Board.Seam` (both pieces in the group, grid-adjacent, error below `connectionThreshold`); the partner loop finds a seam exactly when some group member closes one with the slot |
| Board.SeamSymmetric | server/src/rooms/snapping.js:185-224 | a seam seen from the partner across the opposite side is a seam too |
| Board.CascadedSlot | server/src/rooms/snapping.js:174-227 | `Board.Cascaded`, the closed form of the cascade: after it a slot is connected exactly when it was or faces a seam of the group; only flags change |
| Board.CascadeOutsideGroup | server/src/rooms/snapping.js:174-227 | pieces outside the group are untouched by the cascade |
| Catalogue.ParseDigit | server/src/rooms/puzzleGeneration.js:78 | `parseInt` of one character yields a number exactly for a digit, at most 9 |
| Catalogue.SlotsOf | server/src/rooms/puzzleGeneration.js:75-80 | the slot list of a type name has one parsed digit per character |
| Catalogue.CatalogueSize | server/src/rooms/puzzleGeneration.js:4-73 | `Catalogue.PieceTypes`, the `PIECE_TYPES` literal, lists 64 piece types |
| Catalogue.CatalogueSignatures | server/src/rooms/puzzleGeneration.js:4-73 | every listed type is four tab digits in {0, 1, 2}, never flat on two opposite sides |
| Catalogue.CatalogueComplete | server/src/rooms/puzzleGeneration.js:4-73 | every such signature is listed: the catalogue is exhaustive |
| Catalogue.SignatureSlots | server/src/rooms/puzzleGeneration.js:75-80 | a signature's parsed slots are its four tab types, never two opposite flats |
| Catalogue.SignatureFromSlots | server/src/rooms/puzzleGeneration.js:75-80 | the name spelled from four tab types parses back to those tab types |
| Catalogue.CatalogueDistinct | server/src/rooms/puzzleGeneration.js:4-80 | no type is listed twice, so the lookup object has one entry per type |
| Catalogue.SortByValue | server/src/rooms/puzzleGeneration.js:121 | sorting array-index keys by value permutes them |
| Catalogue.SortIsSorted | server/src/rooms/puzzleGeneration.js:121 | the sorted keys are in ascending numeric order and are still array-index keys |
| Catalogue.PropertyOrderIsPermutation | server/src/rooms/puzzleGeneration.js:121 | `Catalogue.PropertyOrder`, the `Object.entries` visiting order, visits every inserted key exactly as often as it was inserted: array-index keys first, ascending, then the rest |
| Catalogue.PropertyOrderKeepsKeys | server/src/rooms/puzzleGeneration.js:121 | enumeration visits exactly the inserted keys, as many as were inserted |
| Catalogue.PieceTypeMapHoldsCatalogue | server/src/rooms/puzzleGeneration.js:75-80 | `Catalogue.PieceTypeMapKeys`, the lookup object's keys in visiting order, are exactly the 64 catalogue types |
| Catalogue.FilterFitting | server/src/rooms/puzzleGeneration.js:121-131 | the filter keeps exactly the visited types that pass all four range checks, and is empty exactly when none passes |
| Catalogue.SignatureFits | server/src/rooms/puzzleGeneration.js:121-131 | for a signature the range checks compare its parsed tab types against the ranges |
| PuzzleGeneration.Constraints | server/src/rooms/puzzleGeneration.js:85-119 | the constraint list has one range per side |
| PuzzleGeneration.GetValidPieceTypes | server/src/rooms/puzzleGeneration.js:82-134 | the valid types are exactly the catalogue types passing the cell's constraints; empty exactly when none passes |
| PuzzleGeneration.ConstraintsWhileFilling | server/src/rooms/puzzleGeneration.js:85-119 | while filling in row-major order: top and left are flat on the border and pinned opposite the placed neighbour inside it; right and bottom are flat on the border and innie-or-outtie inside it |
| PuzzleGeneration.SpelledSignatureInCatalogue | server/src/rooms/puzzleGeneration.js:149-150 | a piece whose slots spell a signature has a catalogue type |
| PuzzleGeneration.MarkBordersEffect | server/src/rooms/puzzleGeneration.js:194-203 | the border pass sets flags only, and exactly on the border sides |
| PuzzleGeneration.PlacedPieceSides | server/src/rooms/puzzleGeneration.js:141-192 | a placed piece faces an interior neighbour to its right or below with an innie or an outtie |
| PuzzleGeneration.PlacedNeighboursNotFlat | server/src/rooms/puzzleGeneration.js:97-119 | the placed top and left neighbours of an interior cell face it with an innie or an outtie |
| PuzzleGeneration.CandidateExists | server/src/rooms/puzzleGeneration.js:144-149 | on a board at least 2 x 2, every cell has a candidate while filling |
| PuzzleGeneration.NoCandidateOnALine | server/src/rooms/puzzleGeneration.js:144-150 | on a board one piece wide or high the first cell has no candidate |
| PuzzleGeneration.GeneratePuzzlePieces | server/src/rooms/puzzleGeneration.js:136-206 | fails, at cell (0, 0), exactly on a board one piece wide or high; otherwise returns a board: row-major, interlocking, flat and connected exactly on the border, each piece alone and centred in its cell |
| PuzzleGeneration.FillRow | server/src/rooms/puzzleGeneration.js:141-192 | filling one row fails exactly at the first cell of a one-wide or one-high board, and otherwise extends the first pass by a full row |
| PuzzleGeneration.CandidatesWhileFilling | server/src/rooms/puzzleGeneration.js:144-148 | while filling, a cell has no candidate exactly when the board is one piece wide or high |
| PuzzleGeneration.FillStep | server/src/rooms/puzzleGeneration.js:149-190 | placing a candidate extends the grid, the list and the first-pass invariant by one cell |
| PuzzleGeneration.NewPieceAsGenerated | server/src/rooms/puzzleGeneration.js:149-187 | `PuzzleGeneration.NewPiece`, the piece object literal, turns a candidate into a centred, free, singleton, unconnected piece whose top and left complement the placed neighbours |
| PuzzleGeneration.ExtendComplementary | server/src/rooms/puzzleGeneration.js:189-190 | appending such a piece keeps facing sides complementary |
| PuzzleGeneration.ExtendGridMatches | server/src/rooms/puzzleGeneration.js:189-190 | appending to the grid row and to the list keeps them matched cell by cell |
| PuzzleGeneration.PlaceNext | server/src/rooms/puzzleGeneration.js:152-190 | placing a piece as generated keeps the first-pass invariant |
| PuzzleGeneration.ConnectBorders | server/src/rooms/puzzleGeneration.js:194-203 | the second pass turns the first pass into the generated board, changing flags only |
| PuzzleGeneration.FinishGeneration | server/src/rooms/puzzleGeneration.js:194-205 | the board with the border flags set satisfies `PuzzleGeneration.Generated`: one piece per cell in its own cell, centred, flat and connected exactly on the border, facing sides complementary |
| PuzzleGeneration.GeneratedBoardIsConsistent | server/src/rooms/puzzleGeneration.js:170-171 | a generated board is row-major, each piece its own group `[k]`, nobody holding anything |
| PuzzleGeneration.GeneratedFacingSides | server/src/rooms/puzzleGeneration.js:97-119 | grid neighbours on a generated board face each other with an innie and an outtie |
| PuzzleGeneration.GeneratedPiecesSeated | server/src/rooms/puzzleGeneration.js:156-167 | grid neighbours on a generated board have zero positional error |
| Snapping.MoveGroup | server/src/rooms/snapping.js:4-10 | the array after the loop is `Moved` of the array before |
| Snapping.SearchPartnersMeans | server/src/rooms/snapping.js:57-106 | with `Snapping.Snaps` (free slot, partner outside the group and grid-adjacent, error below `snapThreshold`): the partner loop reports the lowest partner index that snaps, with its correction, and misses exactly when none snaps |
| Snapping.SearchSlotsMeans | server/src/rooms/snapping.js:51-107 | the slot loop reports the piece's first snapping side in top, right, bottom, left order, against that side's lowest snapping partner, and misses exactly when no side snaps to any piece |
| Snapping.SearchMembersMeans | server/src/rooms/snapping.js:110-169 | the member loop skips the held piece and reports the first snap of the first other member in group order that has one; it misses exactly when none has one |
| Snapping.FirstSnap | server/src/rooms/snapping.js:47-172 | a reported snap names pieces of the board |
| Snapping.FirstSnapMeans | server/src/rooms/snapping.js:47-172 | the report is the held piece's first snap when it has one, otherwise the first snap of the first other member in group order, with its correction; null exactly when no such slot snaps |
| Snapping.HeldPieceFirst | server/src/rooms/snapping.js:50-107 | when a slot of the held piece snaps, the report is about the held piece |
| Snapping.ScanPiece | server/src/rooms/snapping.js:51-107 | the slot and partner loops for one piece compute the slot search |
| Snapping.CheckIfPieceSnaps | server/src/rooms/snapping.js:47-172 | `checkIfPieceSnaps` returns `FirstSnap` |
| Snapping.MarkWithin | server/src/rooms/snapping.js:218-222 | marking a slot whose final flag is set keeps the board between the start and the cascade |
| Snapping.SeamClosesBothSides | server/src/rooms/snapping.js:185-224 | a seam between two members is connected on both sides in the cascade |
| Snapping.CloseSeam | server/src/rooms/snapping.js:218-223 | closing a seam and its mirror keeps the board between the start and the cascade, clearing no flag |
| Snapping.ConnectPartners | server/src/rooms/snapping.js:185-224 | the partner loop settles the slot's final flag and clears none |
| Snapping.CascadeComplete | server/src/rooms/snapping.js:174-227 | once every member slot is settled the board is the cascade |
| Snapping.CheckIfPieceConnects | server/src/rooms/snapping.js:174-227 | the board after `checkIfPieceConnects` is `Cascaded` of the board before, whatever the visiting order |
| Snapping.MergeGroups | server/src/rooms/snapping.js:229-237 | returns `group1 + group2` and gives it to every listed piece |
| Snapping.MarkPairAt | server/src/rooms/snapping.js:250-256 | marking the pair sets the two facing flags and changes nothing else |
| Snapping.JoinedAt | server/src/rooms/snapping.js:243-248 | after aligning and merging, a piece is shifted exactly when in the dropped group, regrouped exactly when in the merged list |
| Snapping.PairedAt | server/src/rooms/snapping.js:242-256 | before the cascade a piece keeps cell, height, holder and tab types, moved and regrouped as above, no flag cleared |
| Snapping.AfterSnapAt | server/src/rooms/snapping.js:239-264 | the same holds after the cascade |
| Snapping.AfterSnapJoinsPair | server/src/rooms/snapping.js:250-258 | after a snap both facing slots of the pair are connected |
| Snapping.AfterSnapSeatsPair | server/src/rooms/snapping.js:240-243 | after a snap found by the search, with the held piece in its group, the pair's positional error is zero |
| Snapping.AfterSnapKeepsGroups | server/src/rooms/snapping.js:245-248 | when the dropped group is the held piece's group, a snap keeps the groups a partition with indices in range |
| Snapping.JoinPair | server/src/rooms/snapping.js:243-256 | aligning, merging and marking produce `Snapping.Paired` (the aligned board with the merged group assigned and the pair's facing flags set) and return the merged list |
| Snapping.HandleSnapping | server/src/rooms/snapping.js:239-264 | answers true exactly when the search finds a snap; without one nothing changes; with one the board becomes `Snapping.AfterSnap`, the aligned, merged, marked and cascaded board |
| GameLogic.PartnerOf | server/src/rooms/gameLogic.js:74-77 | `getPartner` as an index: it names a piece of the board on the neighbouring grid cell |
| GameLogic.SearchSidesMeans | server/src/rooms/gameLogic.js:69-91 | with `GameLogic.SnapsVia` (free slot, `getPartner` finds a piece outside the group, error below `snapThreshold`): the slot loop reports the first snapping side in top, right, bottom, left order, and misses exactly when none snaps |
| GameLogic.SearchGroupMeans | server/src/rooms/gameLogic.js:66-92 | the member loop reports the first member with a snapping slot, and misses exactly when none has one |
| GameLogic.FirstSnap | server/src/rooms/gameLogic.js:62-95 | a reported snap names pieces of the board |
| GameLogic.FirstSnapMeans | server/src/rooms/gameLogic.js:62-95 | the report is the first snapping slot in group order and then side order, with no priority for the held piece; null exactly when none snaps |
| GameLogic.RowMajorPartner | server/src/rooms/gameLogic.js:74-78 | on a row-major board `getPartner` finds exactly the grid-adjacent piece, and the recomputed index is its own |
| GameLogic.SnapsAgreeOnRowMajor | server/src/rooms/gameLogic.js:62-95 | on a row-major board a slot snaps here exactly when it snaps in `snapping.js` |
| GameLogic.SidesAgreeOnRowMajor | server/src/rooms/gameLogic.js:69-91 | on a row-major board the slot loop for a piece reports exactly what the slot and partner loops of `snapping.js` report for it |
| GameLogic.MembersAgreeOnRowMajor | server/src/rooms/gameLogic.js:66-92 | on a row-major board, when the held piece has no snapping slot, the member loop (which does not skip the held piece) reports what the `snapping.js` member loop (which does) reports |
| GameLogic.EnginesAgreeWhenHeldLeads | server/src/rooms/gameLogic.js:62-95 | on a row-major board whose dropped group starts with the held piece, both server engines report the same snap |
| GameLogic.CheckIfPieceSnaps | server/src/rooms/gameLogic.js:62-95 | `checkIfPieceSnaps` returns `FirstSnap` |
| GameLogic.SeamViaIgnoresFlags | server/src/rooms/gameLogic.js:107-113 | flags do not affect the partner lookup or the seam test |
| GameLogic.MarkJustified | server/src/rooms/gameLogic.js:117-120 | marking a seam or its far side keeps the cascade justified and clears no flag |
| GameLogic.CloseSeamVia | server/src/rooms/gameLogic.js:117-120 | closing a seam marks it and its partner's facing slot, keeping the cascade justified |
| GameLogic.CascadeAgreesOnRowMajor | server/src/rooms/gameLogic.js:97-123 | on a row-major board a justified cascade that closed every seam equals the `snapping.js` cascade |
| GameLogic.SeamMeansClosed | server/src/rooms/gameLogic.js:109-117 | on a row-major board the seams `GameLogic.SeamVia` finds through `getPartner` are the seams of `snapping.js` |
| GameLogic.ConnectSlot | server/src/rooms/gameLogic.js:105-120 | the slot body keeps the cascade justified, clears no flag, and connects the slot when it is a seam |
| GameLogic.CheckIfPieceConnects | server/src/rooms/gameLogic.js:97-123 | only justified flags are set and none cleared, every seam ends connected, and on a row-major board the result is `Cascaded` |
| GameLogic.PairedKeepsRowMajor | server/src/rooms/gameLogic.js:144-152 | aligning, merging and marking keep a board row-major |
| GameLogic.HandleSnapping | server/src/rooms/gameLogic.js:136-160 | answers true exactly when the held piece's group has a snap; without one nothing changes; with one the cascade over the merged group is justified and complete. On a row-major board the result is `Snapping.AfterSnap` applied to this engine's own snap, and that snap is the `snapping.js` one when the group starts with the held piece |
| Room.ScalesKeepAspect | server/src/rooms/PuzzleRoom.js:25-27 | `Room.ScaleX` and `Room.ScaleZ`, the aspect-ratio scales `onCreate` stores, are both at least 1 and their ratio is the image's aspect ratio |
| Room.TranslatedRigid | server/src/rooms/PuzzleRoom.js:59-64 | the move loop moves each member of a duplicate-free group by (dx, dy, dz) and nothing else |
| Room.TranslatedKeepsAllButPositions | server/src/rooms/PuzzleRoom.js:59-64 | the move loop changes positions only |
| Room.PickedUp | server/src/rooms/PuzzleRoom.js:39-47 | a pick-up changes holders only |
| Room.DragKeepsGroups | server/src/rooms/PuzzleRoom.js:49-66 | a drag keeps groups, cells, holders and slots, and keeps the groups a partition |
| Room.PickUpFirstWins | server/src/rooms/PuzzleRoom.js:41-46 | a free piece goes to the first session that asks; a second request leaves it there |
| Room.PickUpHoldsOnlyRequested | server/src/rooms/PuzzleRoom.js:43-44 | a pick-up changes no piece but the requested one |
| Room.NonHolderChangesNothing | server/src/rooms/PuzzleRoom.js:39-93 | drag and drop from a non-holder, and pick-up of a held or missing piece, change nothing |
| Room.DragLandsOnTarget | server/src/rooms/PuzzleRoom.js:53-64 | `Room.Dragged`, the board a drag request leaves: the dragged piece lands on the target, its group moves rigidly with it, every other piece stays |
| Room.DragKeepsSeams | server/src/rooms/PuzzleRoom.js:53-64 | a drag keeps the positional error between pieces of the dragged group |
| Room.SnapKeepsBoard | server/src/rooms/PuzzleRoom.js:85-86 | the snap keeps holders and cells, clears no flag and keeps the groups a partition |
| Room.SettledReleases | server/src/rooms/PuzzleRoom.js:85-88 | snapping and releasing frees the piece, keeps other holders and cells, clears no flag, keeps the partition |
| Room.DropReleases | server/src/rooms/PuzzleRoom.js:68-93 | `Room.Dropped`, the board a drop request leaves: a drop by the holder frees the piece, keeps other holders and cells, clears no flag and keeps the groups a partition |
| Room.PickUpKeepsHoldersPresent | server/src/rooms/PuzzleRoom.js:43-44 | a pick-up by a present session keeps every holder present |
| Room.LeaveStrandsHeldPieces | server/src/rooms/PuzzleRoom.js:105-109 | after `onLeave` as written, the piece held by the leaver has an absent holder, and no other session can pick it up, drag it or drop it |
| Room.Released | server/src/rooms/PuzzleRoom.js:105-109 | releasing a session's pieces changes holders only |
| Room.ReleaseKeepsHoldersPresent | server/src/rooms/PuzzleRoom.js:105-109 | releasing on leave keeps every holder present, leaves nothing held by the leaver and touches no other piece |
| Room.TranslateGroup | server/src/rooms/PuzzleRoom.js:59-64 | the array after the loop is `Translated` of the array before |
| Room.CreateBoard | server/src/rooms/PuzzleRoom.js:29-35 | the created array is a generated 10 x 10 row-major, partitioned board |
| Room.GeneratedIsValid | server/src/rooms/PuzzleRoom.js:29-35 | the generated board satisfies `Room.PuzzleRoom.Valid`, the room's invariant: row-major, with the groups a partition of the board |
| Room.PuzzleRoom.constructor | server/src/rooms/PuzzleRoom.js:13-37 | `onCreate` stores the aspect scales, generates a 10 x 10 board with them and starts with no players |
| Room.PuzzleRoom.PickUpRequest | server/src/rooms/PuzzleRoom.js:39-47 | the board becomes `PickedUp` and keeps the invariant |
| Room.PuzzleRoom.DragToRequest | server/src/rooms/PuzzleRoom.js:49-66 | the board becomes `Dragged` and keeps the invariant |
| Room.PuzzleRoom.DropRequest | server/src/rooms/PuzzleRoom.js:68-93 | the board becomes `Dropped` and keeps the invariant |
| Room.PuzzleRoom.OnJoin | server/src/rooms/PuzzleRoom.js:96-103 | the session's player is added with its cursor at the origin |
| Room.PuzzleRoom.OnLeave | server/src/rooms/PuzzleRoom.js:105-109 | as written: the player is removed and nothing else changes |
| Room.PuzzleRoom.OnLeaveReleasing | server/src/rooms/PuzzleRoom.js:105-109 | as intended: the player is removed and its pieces released, keeping the invariant |
| ClientUtils.GetOpposite | client/src/utils.js:6-15 | keeps one-character strings one character long, and changes a string exactly when it is 0, 1 or a side name |
| ClientUtils.OppositeOfInnieOrOuttie | client/src/utils.js:7-8 | an innie or outtie character maps to the other one, never to flat |
| ClientUtils.OppositeOnSideNames | client/src/utils.js:10-13 | on side names it is the side across |
| ClientUtils.OppositeFixesOtherStrings | client/src/utils.js:14 | every other string comes back unchanged |
| ClientUtils.OppositeInvolution | client/src/utils.js:6-15 | it undoes itself on every string |
| ClientUtils.OppositeAgreesOnTabTypes | client/src/utils.js:7-9 | on tab characters it agrees with the server's numeric version: "0" and "1" swap and "2" stays |
| ClientUtils.OppositeAgreesOnOtherStrings | client/src/utils.js:10-14 | on every other string it agrees with the server's version |
| ClientMesh.WithSlot | client/src/puzzle.js:104-109 | replacing one slot changes that slot only |
| ClientMesh.MarkConnected | client/src/gameplay.js:123-124 | marking sets that slot's flag and keeps its tab type and partner |
| ClientMesh.MeshFromSlots | client/src/puzzle.js:100-110 | meshes agreeing outside and on all four slots are equal |
| ClientPuzzle.Constraints | client/src/puzzle.js:8-42 | the constraint list has one range per side |
| ClientPuzzle.FilterFitting | client/src/puzzle.js:44-54 | keeps exactly the visited names passing all four checks, never more names than visited; empty exactly when none passes |
| ClientPuzzle.ValidPieceTypes | client/src/puzzle.js:6-57 | the valid names are exactly the loaded names passing the cell's constraints; empty exactly when none passes |
| ClientPuzzle.UnpinnedSides | client/src/puzzle.js:8-18 | an unpinned side is flat on the border and innie-or-outtie inside it, each border test on its own |
| ClientPuzzle.InnieOrOuttieNeverFlat | client/src/puzzle.js:46-51 | an interior unpinned side never accepts the flat character |
| ClientPuzzle.FlatAcceptsOnlyFlat | client/src/puzzle.js:46-51 | `ClientPuzzle.SlotNumber` (`parseInt` of a type name's character) must be the flat digit on a border side: only that digit is accepted |
| ClientPuzzle.NonDigitPasses | client/src/puzzle.js:47-48 | `ClientPuzzle.CharNumber`, JavaScript's number for one character, is NaN for a non-digit, non-space character, which passes every check |
| ClientPuzzle.PinnedFacesOpposite | client/src/puzzle.js:20-42 | `ClientPuzzle.Required`, the number `getOpposite` gives for the neighbour's facing character, is the only digit a pinned side accepts |
| ClientPuzzle.Decimal | client/src/puzzle.js:97 | a number's decimal text is digits only, one digit exactly below 10 |
| ClientPuzzle.DecimalInjective | client/src/puzzle.js:97 | different numbers have different decimal texts |
| ClientPuzzle.InstanceNameInjective | client/src/puzzle.js:97 | `ClientPuzzle.InstanceName`, the mesh name `${type}_${n}`, determines its piece type and instance number |
| ClientPuzzle.NoUnderscoreAfterSeparator | client/src/puzzle.js:97 | the instance number holds no underscore |
| ClientPuzzle.GeneratedGroup | client/src/puzzle.js:99-103 | every generated mesh (`ClientPuzzle.NewMesh`, the mesh and its `userData`) is a group of its own |
| ClientPuzzle.GeneratePieces | client/src/puzzle.js:81-131 | on success the grid is as generated: each cell a candidate numbered by its type's count; a failure names the first cell without a candidate and the grid filled up to it |
| ClientPuzzle.StartRow | client/src/puzzle.js:86 | opening a row keeps every cell and the counters' history |
| ClientPuzzle.FillRow | client/src/puzzle.js:87-127 | filling a row either stops at a cell without candidates or completes the row, keeping the counters equal to the counts of types placed |
| ClientPuzzle.PlaceCell | client/src/puzzle.js:88-125 | placing the picked candidate keeps the grid as generated and extends the counters' history by its type |
| ClientPuzzle.HistoryGrows | client/src/puzzle.js:95-96 | a cell's history and its own type are a prefix of every later cell's history |
| ClientPuzzle.NamesOrdered | client/src/puzzle.js:95-97 | a later mesh never has the name of an earlier one |
| ClientPuzzle.NamesUnique | client/src/puzzle.js:95-97 | the per-type counters make every mesh name unique |
| ClientPuzzle.PrefixNeighbours | client/src/puzzle.js:20-42 | when a cell was filled only its top and left neighbours existed |
| ClientPuzzle.GeneratedSignature | client/src/puzzle.js:101-109 | with signature names loaded, each mesh's type is a signature, with its cell and slot characters recorded |
| ClientPuzzle.CellSides | client/src/puzzle.js:88-89 | a cell's type is flat exactly towards the right and bottom border, flat on the top and left border, and opposite to the placed top and left neighbours |
| ClientPuzzle.GeneratedInterlocks | client/src/puzzle.js:85-128 | with signature names loaded, meshes are flat exactly on the border and neighbours face each other with opposite tab types |
| ClientPuzzle.BorderFlat | client/src/puzzle.js:15-18 | a generated mesh is flat exactly on its border sides |
| ClientPuzzle.RightFacesLeft | client/src/puzzle.js:38-42 | horizontal neighbours face each other with opposite tab types |
| ClientPuzzle.BottomFacesTop | client/src/puzzle.js:20-24 | vertical neighbours face each other with opposite tab types |
| ClientPuzzle.MeshAt | client/src/puzzle.js:148-151 | `grid[r]?.[c]` finds a mesh exactly on the grid, the one at its row-major index |
| ClientPuzzle.Linked | client/src/puzzle.js:148-156 | a linked mesh keeps everything outside its slots, and each slot gets its neighbour, connected when there is none |
| ClientPuzzle.SpawnPuzzle | client/src/puzzle.js:133-159 | every cell of the returned grid is its mesh linked to its neighbours |
| ClientPuzzle.LinkCell | client/src/puzzle.js:145-156 | the loop body links one mesh |
| ClientPuzzle.PartnerIndexMutual | client/src/puzzle.js:148-151 | a cell lies across a side exactly when the other lies back across the opposite side |
| ClientPuzzle.PartnersMutual | client/src/puzzle.js:148-151 | a linked slot points at a mesh exactly when that mesh's opposite slot points back |
| ClientPuzzle.PreConnected | client/src/puzzle.js:153-156 | a linked slot is connected exactly when it was or no mesh lies across it |
| ClientPuzzle.SpawnedBoard | client/src/puzzle.js:143-158 | after spawning, each slot points at the mesh across it and is connected exactly on the border |
| ClientGameplay.MovedRigid | client/src/gameplay.js:17-23 | `ClientGameplay.Moved`, the value form of the client's `moveGroup`, moves a duplicate-free group rigidly and nothing else |
| ClientGameplay.MovedKeepsAllButPositions | client/src/gameplay.js:17-23 | moving changes x and z only |
| ClientGameplay.MovedKeepsErrorWithinGroup | client/src/gameplay.js:17-23 | meshes moved together keep their positional error |
| ClientGameplay.MoveGroup | client/src/gameplay.js:17-23 | the array after the loop is `Moved` of the array before |
| ClientGameplay.SearchSidesMeans | client/src/gameplay.js:63-83 | the slot loop reports the first snapping side, against that slot's partner, and misses exactly when none snaps |
| ClientGameplay.SearchMembersMeans | client/src/gameplay.js:84-107 | the member loop skips the held mesh and reports the first snap of the first other member in group order that has one; it misses exactly when none has one |
| ClientGameplay.FirstSnap | client/src/gameplay.js:61-108 | a reported snap names meshes of the board |
| ClientGameplay.FirstSnapMeans | client/src/gameplay.js:61-108 | the report is the held mesh's first snap when it has one, otherwise the first snap of the first other member in group order, against its partner outside the group, with its correction; nothing exactly when no such slot snaps |
| ClientGameplay.HeldMeshFirst | client/src/gameplay.js:63-83 | when a slot of the held mesh snaps, the report is about the held mesh |
| ClientGameplay.ScanMesh | client/src/gameplay.js:63-83 | the slot loop for one mesh computes the side search |
| ClientGameplay.CheckIfPieceSnaps | client/src/gameplay.js:61-108 | `checkIfPieceSnaps` returns `FirstSnap` |
| ClientGameplay.SeamIgnoresFlags | client/src/gameplay.js:114-122 | flags do not affect partners or the seam test |
| ClientGameplay.MarkJustified | client/src/gameplay.js:123-124 | marking a seam or its far side keeps the cascade justified |
| ClientGameplay.CloseSeam | client/src/gameplay.js:122-125 | closing a seam marks it and its partner's facing slot, keeping the cascade justified |
| ClientGameplay.ConnectSlot | client/src/gameplay.js:113-126 | the slot body keeps the cascade justified and connects the slot when it is a seam |
| ClientGameplay.CascadedAt | client/src/gameplay.js:110-128 | `ClientGameplay.Cascaded`, the closed form: a mesh keeps everything but its slots, and each slot is connected when it was or faces a seam |
| ClientGameplay.MirrorIsSeam | client/src/gameplay.js:124 | with mutual partners the far side of a seam is a seam |
| ClientGameplay.CascadeIsClosedForm | client/src/gameplay.js:110-128 | with mutual partners a justified cascade that closed every seam is the closed form |
| ClientGameplay.CheckIfPieceConnects | client/src/gameplay.js:110-128 | only justified flags are set and none cleared, every seam ends connected, and with mutual partners the result is the closed form |
| ClientGameplay.MergeGroups | client/src/gameplay.js:130-139 | returns `group1 + group2` and gives it to every listed mesh |
| ClientGameplay.GroupsDisjoint | client/src/gameplay.js:148 | the partner's group is disjoint from a group it is not in |
| ClientGameplay.MergeKeepsGroupsConsistent | client/src/gameplay.js:130-139 | merging two different groups yields a duplicate-free list and keeps the partition |
| ClientGameplay.Joined | client/src/gameplay.js:146-148 | a mesh after aligning and merging is moved exactly when in the dropped group and regrouped exactly when in the merged list |
| ClientGameplay.PairedAt | client/src/gameplay.js:145-151 | before the cascade a mesh is as `Joined` up to flags, and no flag is cleared |
| ClientGameplay.MarkPairAt | client/src/gameplay.js:150-151 | marking the pair sets flags only |
| ClientGameplay.PairedKeepsPartners | client/src/gameplay.js:145-151 | aligning, merging and marking keep partners in range and mutual |
| ClientGameplay.JoinPair | client/src/gameplay.js:146-151 | aligning, merging and marking produce `ClientGameplay.Paired` (the aligned board with the merged group assigned and the pair's facing flags set) and return the merged list |
| ClientGameplay.HandleSnapping | client/src/gameplay.js:141-157 | snaps exactly when the search finds a snap; without one nothing changes; with one the cascade over the merged group is justified and complete, and with mutual partners is the closed form |
| ClientGameplay.SnapSeatsPair | client/src/gameplay.js:143-153 | a handled snap, with the held mesh in its group, leaves the pair at zero error with both facing slots connected |
| ClientGameplay.SnapKeepsGroups | client/src/gameplay.js:146-153 | when the dropped group is the held mesh's group, a handled snap keeps the groups a partition |
| ClientGameplay.SpawnedPartnersMutual | client/src/puzzle.js:148-151 | after generating and spawning, every partner is a mesh of the board, and partners are mutual |
| ClientGameplay.SpawnedGroupsConsistent | client/src/puzzle.js:99-103 | after generating and spawning, each mesh is its own group and the groups partition the board |

## Left out

- The server's and the client's configuration modules are not part of this model. Their values enter as the `Config` parameter.
- Randomness: `getRandomInt` (server/src/rooms/utils.js:1-3, client/src/utils.js:2-4) is replaced by the oracle `pick`. Uniformity of the choice is not modelled.
- Floating point: positions and sizes are reals, so rounding in the error computation and in the accumulated moves is not modelled.
- The image read in `onCreate` (PuzzleRoom.js:16-24) is replaced by the image's aspect ratio.
- `onCreate` also sets `imageUrl`, which is not modelled.
- Console logging is left out everywhere.
- `onDispose` and `maxClients` are left out.
- Colyseus state synchronisation to clients is left out. Each room handler is modelled as one atomic step, as the single-threaded room runs it.
- The client's scene and rendering are left out:
  - the mesh geometry clone;
  - `updatePieceBasedOnTexture` (client/src/puzzle.js:59-79);
  - `mesh.scale.y *= 2`;
  - `scene.add`, which is why `spawnPuzzle` takes no scene.
- The snap sound (client/src/gameplay.js:154-155) and everything in client/src/gameplay.js after line 157 (pointer events, drag and hover) are left out.
- The loader (client/src/loader.js) is not part of this model. The names of the loaded meshes, in `Object.entries(meshMap)` order, are a parameter.
- Strings are sequences of characters, not UTF-16 code units.
- ClientGameplay: meshes are identified by their index, not by object identity.
  - The source's references stay valid by construction. The model states that validity as the requires `PartnersInRange`/`GroupsInRange`, and states that the dropped group lists no mesh twice as the requires `Board.NoDuplicates(group)` of `ClientGameplay.HandleSnapping`. `SpawnedPartnersMutual` and `SpawnedGroupsConsistent` prove these hold for a freshly spawned board, and `SnapKeepsGroups` proves a snap keeps every group duplicate-free.
  - The shared group array that `mergeGroups` hands to every member is modelled as a value, so aliasing between members is not captured.
- ClientGameplay.HandleSnapping: the source returns nothing. The model also returns whether a snap happened.
- ClientPuzzle.SpawnPuzzle: the source mutates the meshes shared with the scene. The model returns the linked grid.
  - It requires a non-empty rectangular grid. On other grids the source fails while reading `grid[0].length` or an undefined mesh.
- ClientPuzzle.GeneratePieces: where the source crashes at a cell without candidates, the model returns a failure naming that cell.
  - The source's crash happens when it reads the geometry of `meshMap[undefined]`.
  - The per-type counter object is a map; inherited property names are not modelled.
- PuzzleGeneration.GeneratePuzzlePieces: where the source logs an error and then crashes, the model returns a failure.
  - The crash is a `split` on an undefined type at cell (0, 0), and happens exactly on a board one piece wide or high.
  - A board without candidates is meant to be a fatal generation error; the model makes it an explicit result.
- The candidate order follows the code: JavaScript visits the integer-like type names first, ascending, then the rest in insertion order. It is not the catalogue order.
- GameLogic.CheckIfPieceConnects and GameLogic.HandleSnapping: the closed-form result is stated only for a row-major board. On other boards the contract states the justified-and-complete bounds instead.
  - The unused `heldPiece` parameter of `checkIfPieceSnaps` (gameLogic.js:62) is dropped.
- Several source loop nests are split into helper methods so that each proof stays small:
  - PuzzleGeneration.FillRow and PuzzleGeneration.ConnectBorders;
  - Snapping.ScanPiece, Snapping.ConnectPartners and Snapping.JoinPair;
  - GameLogic.ConnectSlot;
  - ClientPuzzle.FillRow and ClientPuzzle.LinkCell;
  - ClientGameplay.ScanMesh, ClientGameplay.ConnectSlot and ClientGameplay.JoinPair;
  - Room.TranslateGroup and Room.CreateBoard.

  Each helper computes exactly what the lines it replaces compute.

## Findings

| source | as written | input that shows it | evidently intended | confidence | as-written member | corrected member |
|---|---|---|---|---|---|---|
| server/src/rooms/PuzzleRoom.js:105-109 | `onLeave` removes the player, but every piece it holds keeps `heldBy` set to the departed session | a session holds piece 0 and leaves. Piece 0 then has a holder outside the room, and every pick-up, drag or drop of it by another session is ignored (`Room.LeaveStrandsHeldPieces`) | leaving releases every piece the session holds | not executed | Room.PuzzleRoom.OnLeave | Room.PuzzleRoom.OnLeaveReleasing |
