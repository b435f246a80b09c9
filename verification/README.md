# Drag-and-drop geometry and stores

A Dafny model of the pure core of a pointer-driven drag-and-drop engine for a kanban board. The model has three parts:

- `numbers.dfy` (module `Numbers`): the pieces of JavaScript's `number` that the geometry needs. These are `Math.min`, `Math.max`, and a division that yields NaN or an infinity when the divisor is zero.
- `stores.dfy` (module `Stores`): the record types the engine exchanges (`Rect`, `Item`, `HoverResult`, `DropTarget`, `DragTarget`). It also holds the five-valued dragging phase, the initial contents of the process-wide stores, and the drop-target id generator `createDropTargetId().next`.
- `utilities.dfy` (module `Utilities`): the rectangle functions `overlap`, `percentOverlap`, `computeMidpoint`, `stripPadding` and `pixelStringToNumber`.

Coordinates are exact `real`s. The JavaScript `number` is modelled as a datatype with finite, infinite and NaN values in two places only: the quotient in `percentOverlap`, and a zone's `capacity`, which may be `Infinity`. Because of this, `PercentOverlap` is total. A zero width leaves an intersection of length 0, so the division is 0 / 0 and gives NaN. A negative width gives 0.

`Number.parseFloat` is a foreign call. It is a function-valued parameter `parseFloat: string -> real`, and no property of it is assumed. An element's inline padding is four strings, `InlinePadding(paddingTop, paddingLeft, paddingRight, paddingBottom)`, which are the four style reads `stripPadding` makes. A browser element is an opaque handle `ElementRef`.

The id generator is a value `IdCounter(count)`. `Next` returns the id and the advanced counter. `Issue(c, k)` is `k` successive calls of `Next`.

**Rectangles whose edges exactly meet overlap.** `overlap` (utilities.ts:16-19) treats two rectangles as apart only when one lies strictly (`<`) beyond the other (`TouchingEdgesOverlap`). `TouchingEdgesScoreZero` shows that such a pair still scores 0 on the touching axis in `PercentOverlap`.

## Model

| member | source | states |
|---|---|---|
| Numbers.Divide | front/src/components/drag_drop/utilities.ts:28 | A non-zero divisor gives the finite quotient q with q·d = n. A zero divisor gives +Infinity for a positive dividend, -Infinity for a negative one, and NaN exactly for 0/0. |
| Numbers.DivideUnitInterval | front/src/components/drag_drop/utilities.ts:28 | Take a positive divisor and a dividend in [0, d]. The quotient lies in [0, 1]. It is 1 exactly when n = d and 0 exactly when n = 0. |
| Stores.ParsePhase | front/src/components/drag_drop/stores.ts:31 | Reading a phase literal gives the phase of that name. A string that names no phase gives None. |
| Stores.PhasesAreExactlyFive | front/src/components/drag_drop/stores.ts:31 | The phase union has exactly the five values none, picking-up, dragging, returning and dropping. Their literals are distinct, and each reads back to its own phase. |
| Stores.ParsePlacement | front/src/components/drag_drop/stores.ts:10 | Reading a placement literal gives the placement of that name. Any other string gives None. |
| Stores.PlacementsAreExactlyTwo | front/src/components/drag_drop/stores.ts:10 | A placement is exactly 'before' or 'after'. The two literals are distinct and each reads back to its own placement. |
| Stores.InitialState | front/src/components/drag_drop/stores.ts:30-33 | The stores start with no drop targets, phase 'none', no drag target, and the id counter at 0. |
| Stores.Next | front/src/components/drag_drop/stores.ts:39-46 | next() returns the counter's value before the update and leaves the counter one higher. |
| Stores.Issue | front/src/components/drag_drop/stores.ts:35-46 | k successive next() calls from counter c return exactly the ids c, c+1, …, c+k-1 in order, and leave the counter at c+k. |
| Stores.FirstIdIsZero | front/src/components/drag_drop/stores.ts:36-45 | The first id handed out by the freshly created generator is 0. |
| Stores.IssueFromStart | front/src/components/drag_drop/stores.ts:35-46 | After n calls on the fresh generator the counter equals n, and the call at position i (counting from 0) returned i. |
| Stores.IssuedIdsStrictlyIncrease | front/src/components/drag_drop/stores.ts:39-46 | Ids returned by successive calls strictly increase, so they are pairwise distinct. |
| Stores.NoIdReissued | front/src/components/drag_drop/stores.ts:39-46 | Issuing k ids and then m more is the same as issuing k+m. Every id of the later batch exceeds every id of the earlier one, so no id is ever handed out twice. |
| Numbers.Min | front/src/components/drag_drop/utilities.ts:24-26 | Math.min returns one of its two arguments, and that argument is no larger than either. |
| Numbers.Max | front/src/components/drag_drop/utilities.ts:25-28 | Math.max returns one of its two arguments, and that argument is no smaller than either. |
| Utilities.Overlap | front/src/components/drag_drop/utilities.ts:15-20 | overlap holds exactly when the closed horizontal extents of the two rectangles meet and so do their closed vertical extents. Rectangles of non-negative width where one's right edge is the other's left edge overlap whenever their vertical extents meet. |
| Utilities.OverlapIffCommonPoint | front/src/components/drag_drop/utilities.ts:15-20 | Take two rectangles with non-negative width and height. overlap holds exactly when some point lies in both closed boxes. |
| Utilities.OverlapSymmetric | front/src/components/drag_drop/utilities.ts:15-20 | overlap(a, b) equals overlap(b, a). |
| Utilities.OverlapReflexive | front/src/components/drag_drop/utilities.ts:15-20 | Every rectangle with non-negative width and height overlaps itself. |
| Utilities.TouchingEdgesOverlap | front/src/components/drag_drop/utilities.ts:16-19 | Take two rectangles where a's right edge equals b's left edge and their vertical extents intersect. They overlap in both argument orders, because separation uses strict <. |
| Utilities.SeparatedDoNotOverlap | front/src/components/drag_drop/utilities.ts:16-19 | A rectangle strictly left of or strictly above another overlaps it in neither argument order. |
| Utilities.OverlapTranslationInvariant | front/src/components/drag_drop/utilities.ts:15-20 | Moving both rectangles by the same offset does not change whether they overlap. |
| Utilities.PercentOverlap | front/src/components/drag_drop/utilities.ts:23-29 | If rect1's width is positive, overlapX is finite and in [0, 1]. If its height is positive, overlapY is finite and in [0, 1]. A zero width or height gives NaN on that axis (0 / 0), and a negative one gives 0. |
| Utilities.PercentOverlapZeroIffApartOnAxis | front/src/components/drag_drop/utilities.ts:23-28 | For positive widths, overlapX is 0 exactly when one rectangle lies at or beyond the other's horizontal edge. For positive heights, the same holds for overlapY and the vertical edges. |
| Utilities.PercentOverlapSelf | front/src/components/drag_drop/utilities.ts:23-29 | A rectangle with positive width and height covers itself fully: {overlapX: 1, overlapY: 1}. |
| Utilities.PercentOverlapFullIffCovered | front/src/components/drag_drop/utilities.ts:23-29 | For positive extents, overlapX is 1 exactly when rect2 spans rect1's whole horizontal extent. The same holds for overlapY and the vertical extent. |
| Utilities.PercentOverlapPositiveImpliesOverlap | front/src/components/drag_drop/utilities.ts:15-29 | Take rect1 with positive extents. If the two rectangles do not overlap, at least one fraction is 0. If both fractions are positive, the rectangles overlap. |
| Utilities.TouchingEdgesScoreZero | front/src/components/drag_drop/utilities.ts:16-28 | Boxes that only touch along a vertical edge overlap, yet their horizontal fraction is 0. |
| Utilities.PercentOverlapNotSymmetric | front/src/components/drag_drop/utilities.ts:28 | The fraction is measured against rect1 only. A unit square inside a 2×2 square scores (1, 1); the 2×2 square against the unit square scores (0.5, 0.5). |
| Utilities.PercentOverlapTranslationInvariant | front/src/components/drag_drop/utilities.ts:23-29 | Moving both rectangles by the same offset leaves both fractions unchanged. |
| Utilities.ComputeMidpoint | front/src/components/drag_drop/utilities.ts:31-33 | The midpoint is equally far from the left and right edges, and from the top and bottom edges. It lies inside any rectangle with non-negative width and height. |
| Utilities.MidpointUnique | front/src/components/drag_drop/utilities.ts:31-33 | Any point equally far from opposite edges on both axes is the computed midpoint. |
| Utilities.MidpointTranslates | front/src/components/drag_drop/utilities.ts:31-33 | Translating a rectangle by (dx, dy) translates its midpoint by (dx, dy). |
| Utilities.ClampIndex | front/src/components/drag_drop/utilities.ts:44 | A substring index is clamped into [0, n]: it is kept when it is in range, becomes 0 when negative, and becomes n when past the end. |
| Utilities.Substring | front/src/components/drag_drop/utilities.ts:44 | substring with in-range, ordered indices is the slice between them. With a negative end it is the prefix up to the clamped start. It is always a contiguous slice of the string. |
| Utilities.SubstringSwapsReversedIndices | front/src/components/drag_drop/utilities.ts:44 | substring(s, a, b) equals substring(s, b, a). |
| Utilities.PixelStringToNumber | front/src/components/drag_drop/utilities.ts:43-44 | An empty string reads as 0. A string of two or more characters reads as parseFloat of the string without its last two characters. A one-character string reads as parseFloat(""), because substring clamps the negative end index to 0. |
| Utilities.PixelStringRoundTrip | front/src/components/drag_drop/utilities.ts:43-44 | For any digits that parseFloat reads as v, the string digits + "px" reads back as v. |
| Utilities.OtherUnitsAreCutByTwo | front/src/components/drag_drop/utilities.ts:43-44 | The last two characters are dropped whatever the unit. "12em" reads as parseFloat("12"), and "10%" reads as parseFloat("1"). |
| Utilities.StripPadding | front/src/components/drag_drop/utilities.ts:35-41 | The content box's left and top edges move in by the left and top paddings. Its right and bottom edges move in by the right and bottom paddings. |
| Utilities.StripEmptyPaddingIsIdentity | front/src/components/drag_drop/utilities.ts:35-44 | With all four inline paddings empty, the rectangle comes back unchanged. |
| Utilities.StripPaddingStaysInside | front/src/components/drag_drop/utilities.ts:35-41 | Take non-negative paddings that fit within the width and height. The result has non-negative size, and every point of it lies inside the original rectangle. |
| Utilities.StripPaddingCommutesWithTranslate | front/src/components/drag_drop/utilities.ts:35-41 | Stripping padding and then translating gives the same box as translating and then stripping. |
| Utilities.StripBalancedPaddingKeepsMidpoint | front/src/components/drag_drop/utilities.ts:31-41 | Equal left/right and top/bottom paddings leave the midpoint unchanged. |

## Left out

- `makeDraggableElement` (utilities.ts:3-13): it clones a browser element and sets its styles, and has no logical content to state.
- `Number.parseFloat`: a foreign call, taken as an arbitrary `parseFloat` parameter. Its NaN result for strings without a leading number is not modelled, because padding values are reals here.
- IEEE floating point: coordinates are exact reals, so rounding is not modelled. NaN and the infinities are modelled only where the division in `percentOverlap` produces them and for a zone's capacity.
- Svelte `writable`/`subscribe`/`update` reactivity: each store is modelled by the value it holds (`DragDropState`), and the id store by `IdCounter`. Subscription and change notification are not modelled.
- The function-typed fields of `DropTarget` (`dropCallback`, `hoverCallback`, `enterDropZone`, `leaveDropZone`, `hasItem`, `getEventHandlers`) and the `DragEventHandlers` type: these are opaque callbacks and are omitted. `HTMLDivElement` fields are the opaque `ElementRef`.
- Drop-zone hover resolution, capacity filtering, phase transitions, placement and auto-scroll live outside utilities.ts and stores.ts and are not modelled. stores.ts declares only the phase type.
- Stores.Next: the counter is an unbounded integer. In JavaScript the store holds a double, and from 2^53 on `n + 1` (stores.ts:43) rounds back to `n`, so `next()` would return the same id forever. `Issue`, `IssuedIdsStrictlyIncrease` and `NoIdReissued` therefore describe the program only for fewer than 2^53 calls.
- Utilities.PixelStringToNumber: lengths and `Substring` count Unicode scalar values, while JavaScript's `length` and `substring` (utilities.ts:44) count UTF-16 code units. A string holding a character outside the Basic Multilingual Plane is therefore cut differently. Inline CSS padding strings are ASCII, where the two counts agree.
- front/src/services/apollo.ts, front/src/services/Apollo.ts, front/postcss.config.js and front/src/components/kanban/CardData.ts: network client setup, build configuration and a data type with no behaviour. They are not part of this model.
