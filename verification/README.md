# DragAndDropSwiftUI drop layout, modelled in Dafny

This project models the drop layout of DragAndDropSwiftUI. The board is a tiling tree. A `DropLayout` has a split direction (horizontal or vertical) and an ordered list of `Item`s. Each item is either a content tile or a container that wraps a nested `DropLayout`.

Two algorithms edit the tree:

- `remove` deletes every item that carries an identity. It then heals the tree bottom-up:
  - a container left empty is dropped;
  - a container left with one item is replaced by that item;
  - a container that keeps two or more items gets a fresh identity;
  - a layout left wrapping a single container takes over that container's direction and items.
- The drop helpers of `DragAndDropView` (`updateLayout`, `insertItem`, `add`, `findIndexForInsertion`, `findItem`, `shouldEnter`, `getPreferredDirection`) put a dragged tile back at a point:
  - at the current level, by inserting it at the nearest cell boundary or wrapping the whole level;
  - or, one level down, by splitting the tile under the point or descending into the container under the point.

Modules, one per concern:

| file | module | contents |
|---|---|---|
| geometry.dfy | Geometry | points, sizes and rectangles over exact reals (CGFloat); half-open `contains`; `insetBy`; the three real-to-integer conversions; equal-cell arithmetic |
| layout.dfy | Layout | `Item`, `DropLayout`, the source's `==`, `isItemContains`, `cellWidth`, `cellHeight`, `position`; reference notions used in the properties (leaves, identities, settledness, erasure of container identities) |
| remove.dfy | Removal | `remove` and its healing steps, with their properties |
| drop.dfy | Drop | `getPreferredDirection`, `findIndexForInsertion`, `shouldEnter`, `findItem` and the side-by-side placement rule |
| edits.dfy | Edits | how splicing one item into a sequence, or replacing one, interacts with leaves, identities, settledness and removal |
| update.dfy | Insertion | `add`, `insertItem`, `updateLayout` |
| moves.dfy | Moves | whole-drop properties: drop-then-remove round trip, moving a tile permutes the tiles, identities stay unique |
| side_placement.dfy | SidePlacement | the side-selection defect, as written and corrected |
| scenarios.dfy | Scenarios | small worked drops |

How Swift's operations are modelled:

- Swift's `inout` mutators become pure functions that return the new layout.
- Each `UUID()` becomes `newId`, an identity the caller supplies. One value serves a whole call.
- "Same shape" means equal once every container identity is erased (`Layout.Erase`). `remove` hands out fresh container identities, so this is the equality the round trips are stated in.
- The side-by-side placement takes a `SideRule`:
  - `HalfSize` is the comparison the code makes.
  - `Midpoint` is the corrected one (see Findings).
  - Every operation and property is stated and proved for both rules.
- The re-graft of a layout left wrapping a single container runs at every level of `remove`, not only at the root, because `remove` recurses through itself.

## Model

| member | source | states |
|---|---|---|
| Layout.LayoutEqIsEquivalence | Source/DropLayoutModel.swift:4-6 | item equality (identity and selection only), lifted item-wise to layouts with their direction, is reflexive, symmetric and transitive |
| Layout.ItemEqIgnoresItemType | Source/DropLayoutModel.swift:4-6 | a content tile and a container with the same identity and selection compare equal, and so do one-item layouts holding them, although the items differ |
| Layout.IsItemContains | Source/DropLayoutModel.swift:34-44 | as written, for a content argument (or an empty container), the search is true exactly when some direct child carries the argument's identity |
| Layout.IsItemContainsMissesNestedItems | Source/DropLayoutModel.swift:34-44 | a tile nested one container down is not found by the search as written, though it is in the tree |
| Layout.IsItemContainsAgreesOnFlatLayouts | Source/DropLayoutModel.swift:34-44 | on a layout of content tiles only, the search as written and the deep search agree |
| Layout.ContainsIdIffPresent | Source/DropLayoutModel.swift:34-44 | the intended deep search finds an identity exactly when a leaf or a container anywhere in the tree carries it |
| Layout.Position | Source/DropLayoutModel.swift:46-55 | the drawing position of item i is the centre of the i-th equal strip of the frame along the layout's direction |
| Drop.PositionFindsItsCell | Source/DropLayoutModel.swift:46-55 | the position of item i lies inside a frame of positive size, and `findItem` at that point returns index i |
| Layout.CellWidth | Source/DropLayoutModel.swift:57-63 | side by side, the cell width times the item count is the frame width; stacked, each cell has the full width; either way it is the width of a strip |
| Layout.CellHeight | Source/DropLayoutModel.swift:65-71 | stacked, the cell height times the item count is the frame height; side by side, each cell has the full height; either way it is the height of a strip |
| Removal.Remove | Source/DropLayoutModel.swift:73-99 | the result is settled (no container below the root has fewer than two items), the root does not wrap a single container, its leaves are exactly the old leaves not under an item with the identity, and no item anywhere carries the identity |
| Removal.RemoveItem | Source/DropLayoutModel.swift:76-93 | one child becomes at most one settled child whose leaves are the child's kept leaves: a child with the identity vanishes, a healed container with one item is replaced by it |
| Removal.Regraft | Source/DropLayoutModel.swift:95-98 | taking over a lone container child keeps the leaves, makes a settled sequence a settled, non-wrapping root and introduces no identity |
| Removal.RemoveAbsentKeepsShape | Source/DropLayoutModel.swift:73-99 | removing an identity no item carries from a settled tree gives back the same shape and the same leaves |
| Removal.RemoveAbsentChangesContainerIds | Source/DropLayoutModel.swift:89-91 | yet such a removal is not a no-op under the source's `==`, because a surviving container gets a fresh identity |
| Removal.RemoveIsIdempotent | Source/DropLayoutModel.swift:73-99 | removing an identity twice gives the shape of removing it once |
| Removal.RemoveFiltersLeaves | Source/DropLayoutModel.swift:74-94 | when no container carries the identity, the surviving leaves are the old leaves with that identity filtered out, in order |
| Removal.RemoveKeepsLeafIdsUnique | Source/DropLayoutModel.swift:73-99 | removal keeps leaf identities distinct and only loses identities, the removed one among them |
| Removal.RemoveCollapseExample | Source/DropLayoutModel.swift:83-88 | removing B from [A, column(B, C)] replaces the column by C, giving [A, C] |
| Drop.GetPreferredDirection | Source/Views/DragAndDropView.swift:206-212 | horizontal exactly when the point is within the rectangle's width and outside its top and bottom fifths; vertical otherwise |
| Scenarios.PreferredDirectionExample | Source/Views/DragAndDropView.swift:206-212 | in a 300 x 200 rectangle, (150, 20) prefers vertical and (150, 100) horizontal |
| Drop.FindIndexForInsertion | Source/Views/DragAndDropView.swift:162-168 | for a point of the container the slot is a valid insertion index in [0, count], 0 for an empty layout, and within half a cell of the point's fractional cell offset |
| Drop.FindIndexForInsertionIsNearest | Source/Views/DragAndDropView.swift:162-168 | no cell boundary is closer to the point's fractional offset than the chosen slot |
| Drop.FindIndexForInsertionHalfCell | Source/Views/DragAndDropView.swift:162-168 | in units, the point lies within half a cell of the chosen boundary |
| Drop.ShouldEnter | Source/Views/DragAndDropView.swift:194-203 | true exactly when the point is outside the container shrunk by 16 on every side or within a tenth of a cell of some cell boundary 0..count |
| Scenarios.ShouldEnterNearBoundaryExample | Source/Views/DragAndDropView.swift:194-203 | a row of two in 200 x 100: points 2 units either side of the middle boundary join, the middle of the first cell does not |
| Drop.FindItem | Source/Views/DragAndDropView.swift:170-192 | for a point of the container the hit index is in [0, count), the hit item is the child at that index, and the hit rectangle is that child's strip and contains the point |
| Drop.FindItemCellIsUnique | Source/Views/DragAndDropView.swift:170-192 | the strips partition the container: the hit strip is the only one containing the point |
| Geometry.TruncIsFloorWhenNonNegative | Source/Views/DragAndDropView.swift:184 | truncation (vertical `findItem`) and rounding down (horizontal) agree on non-negative offsets |
| Geometry.RoundIsNearest | Source/Views/DragAndDropView.swift:167 | rounding half away from zero gives an integer no farther from the real than any other |
| Drop.PlaceBeside | Source/Views/DragAndDropView.swift:110-122 | the pair holds the existing tile and the dragged one, and the dragged one is second exactly when the side rule says so |
| Insertion.Add | Source/Views/DragAndDropView.swift:134-158 | the result takes the preferred direction and contains the tile. Its leaves are the old leaves with the tile's spliced in once. It adds at most one container identity and keeps settledness. When wrapping, there are two items, the old layout wrapped whole and the tile, on the side the rule picks. Otherwise the tile sits at the nearest slot, the children before it keep their places, those after it move up by one, and the length grows by one |
| Insertion.InsertItem | Source/Views/DragAndDropView.swift:102-132 | near a cell boundary, or with fewer than two items, the result is `add` at this level. Otherwise only the child `findItem` hits changes and direction and length are kept: a hit content tile is replaced in place by a fresh container (`newId`, unselected) holding the tile and the dragged tile side by side in the preferred direction; a hit container keeps its identity and selection, and its layout becomes `insertItem` of that layout within the hit strip. The hit child gains the tile's leaves once, and so does the whole layout. Every container identity is kept and at most `newId` is added. Settledness is preserved. An empty layout becomes just the tile, and a non-empty one has at least two items |
| Insertion.UpdateLayout | Source/Views/DragAndDropView.swift:89-100 | outside the container the result is the removal of the tile's identity. Inside, it is `insertItem` on the removal, or, when the removal leaves nothing, the tile alone under the removal's direction. So the tile's leaves are spliced once into the surviving leaves, and the tile is present exactly when the point is inside. Settledness and a non-wrapping root are kept |
| Moves.AddThenRemove | Source/Views/DragAndDropView.swift:134-158 | adding a new tile to a settled layout of two or more items, then removing it, gives back the layout's shape |
| Moves.InsertThenRemove | Source/Views/DragAndDropView.swift:102-132 | the same round trip through `insertItem`, at every depth of descent |
| Moves.UpdateThenRemove | Source/Views/DragAndDropView.swift:89-100 | dropping a new tile with `updateLayout` and removing it again gives back the board's shape |
| Moves.UpdateLayoutMovesTile | Source/Views/DragAndDropView.swift:89-100 | dragging a tile of the board to a point of the board replaces the board's copy of the tile by the dragged copy (which may differ in selection) and keeps every other tile exactly once |
| Moves.UpdateLayoutOutsideDeletes | Source/Views/DragAndDropView.swift:89-92 | dragging a tile off the board deletes exactly the board's copy of that tile |
| Moves.UpdateLayoutKeepsLeafIdsUnique | Source/Views/DragAndDropView.swift:89-100 | a drop keeps leaf identities distinct, brings in no identity but the tile's, and the tile's is present exactly when the point is inside |
| SidePlacement.SideRulesAgreeAtAxisZero | Source/Views/DragAndDropView.swift:110-122 | the side comparison as written and the corrected one agree at every point exactly when the rectangle starts at 0 along the compared axis, as the root board does |
| SidePlacement.MidpointPicksNearerHalf | Source/Views/DragAndDropView.swift:110-122 | with the corrected rule the dragged tile goes first exactly when the point is in the first half of the rectangle, or on the centre line |
| SidePlacement.HalfSizeMisplacesTile | Source/Views/DragAndDropView.swift:110-122 | in the cell (160, 0, 160, 320) a point at x = 200 is in the left half, yet the rule as written puts the tile on the right |
| SidePlacement.DropBesideExample | Source/Views/DragAndDropView.swift:102-132 | dropping C at (200, 160) on [A, B] gives [A, (B, C)] as written and [A, (C, B)] with the corrected rule |

## Left out

- The SwiftUI views, state, gestures, overlay and animation (`DragAndDropView` outside its static helpers, `DropLayoutView`, `Main`): these are rendering and input plumbing, not layout logic.
- The `onChange` jitter filter and `CGPoint.distance`: they only decide whether a drag update is forwarded at all. They use square roots over floating point.
- `Container.swift`: every line of it is commented out.
- The `Examples` fixtures: worked boards of the same kind appear in `Scenarios` and `SidePlacement`.
- `Item.containerLayout` is a plain accessor. The datatype's `layout` destructor plays its part.
- Randomness: every `UUID()` of one call becomes the single caller-supplied `newId`. Properties that need it to be fresh require `newId` to differ from the dragged tile's identity.
- The colour payload is an uninterpreted `nat`.
- Floating point: CGFloat is modelled as exact reals, so no rounding error. The one IEEE effect the code relies on is kept: with no items the cell size is +infinity and the fractional index is 0. `Int()` of a non-finite or out-of-range value is not modelled. `findItem` is only called with a point inside a non-empty container, so it never sees such a value.
- `remove`: the `removeAll` filter and the healing loop are modelled as one left-to-right pass. They are equivalent because a filtered-out item is never healed.
- Layout.IsItemContains: excludes a container argument whose own layout is non-empty. With such an argument the source calls itself on that same layout with the same argument, so it does not terminate unless the layout searched is empty, or its first item, or the first item of the argument's own layout, carries the argument's identity.
- Drop.ShouldEnter: the nearness to a cell boundary is stated in cell units, as the code computes it. Drop.FindIndexForInsertionHalfCell gives the unit form of the nearest-slot property.
- Moves.UpdateThenRemove: stated for settled boards of two or more items. With fewer items, `add` adopts the preferred direction, so removing the tile again can give a layout of the other direction.
- Moves.AddThenRemove: same restriction as UpdateThenRemove.
- Moves.InsertThenRemove: same restriction as UpdateThenRemove.
- Drop.FindItem: requires the point inside the container. The code does not clamp the index it computes, so a point outside the rectangle would index out of range. Every call in the code passes a point inside: `updateLayout` checks it at the root, and each descent passes the hit strip, which contains the point.

## Findings

| source | as written | input that shows it | evidently intended | confidence | as-written member | corrected member |
|---|---|---|---|---|---|---|
| Source/Views/DragAndDropView.swift:110-122 | the dragged tile goes after the split tile when `rect.width / 2.0 < position.x` (or `rect.height / 2 < position.y`). This compares the point with half the rectangle's size, not with its midpoint. Lines 139-151 of `add` do the same with the container rectangle, which is a sub-rectangle whenever `insertItem` has descended | B's cell (160, 0, 160, 320) on the 320 x 320 board [A, B], point (200, 160): the point is in the cell's left half, but C is placed to the right of B | compare with `rect.midX` / `rect.midY` | not executed; high, the two agree exactly when the rectangle starts at 0 along the compared axis, e.g. the root board | SidePlacement.HalfSizeMisplacesTile | SidePlacement.MidpointPicksNearerHalf |
| Source/DropLayoutModel.swift:34-44 | the nested branch tests the argument's `itemType` instead of the visited child's, so the search never descends into container children | [A, group(B, C)] searched for B: false, though B is on the board | recurse into each container child's layout | not executed; high | Layout.IsItemContainsMissesNestedItems | Layout.ContainsIdIffPresent |

The corrected side rule is `Drop.SideRule.Midpoint`. It is threaded through `Insertion.Add`, `Insertion.InsertItem` and `Insertion.UpdateLayout`, and every property of those operations is proved for it; `SidePlacement.DropBesideExample` shows the whole drop under both rules. The deep search `Layout.ContainsId` is the one the rest of the model uses.
