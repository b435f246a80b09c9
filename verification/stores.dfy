/**
  The shared state of the drag-and-drop engine: the record types every
  component exchanges, the three process-wide stores with their initial
  values, and the generator that hands out drop-target ids.

  Each reactive store is modelled by the value it holds; subscription and
  change notification are not modelled. Browser elements are opaque handles,
  and the callback fields of a drop target are not carried.
 */
module Stores {
  import opened Numbers

  /** An optional value: TypeScript's `T | undefined` and optional fields `key?: T`. */
  datatype Option<T> = None | Some(value: T)

  /** An axis-aligned box in viewport coordinates. */
  datatype Rect = Rect(x: real, y: real, width: real, height: real)

  /** A draggable unit, identified by a string id. */
  datatype Item = Item(id: string)

  /** An opaque handle to a browser element (an `HTMLDivElement` in stores.ts). */
  datatype ElementRef = ElementRef(handle: nat)

  /** Where the dragged item lands relative to the item it hovers over. */
  datatype Placement = Before | After

  /** The answer to "if the item were dropped now, where would it land". */
  datatype HoverResult = HoverResult(index: int, item: Item, element: ElementRef, placement: Placement)

  /** A registered container that can receive dragged items. */
  datatype DropTarget = DropTarget(
    id: int,
    key: Option<string>,
    capacity: Number,
    disabled: bool,
    rect: Rect,
    dropElement: ElementRef)

  /** The item currently being dragged. */
  datatype DragTarget = DragTarget(
    key: Option<string>,
    item: Item,
    controllingDropZoneId: int,
    sourceRect: Rect,
    dragElement: ElementRef,
    cachedRect: Rect)

  /** The dragging phase; `Inactive` is stores.ts's `'none'`. */
  datatype Phase = Inactive | PickingUp | Dragging | Returning | Dropping

  /** The string literal stores.ts uses for each phase. */
  function PhaseName(p: Phase): string
  {
    match p
    case Inactive => "none"
    case PickingUp => "picking-up"
    case Dragging => "dragging"
    case Returning => "returning"
    case Dropping => "dropping"
  }

  /** The literals of the phase union type, one per phase. */
  const PhaseNames: seq<string> := [PhaseName(Inactive), PhaseName(PickingUp), PhaseName(Dragging), PhaseName(Returning), PhaseName(Dropping)]

  /** Reads a phase literal; any other string is not a phase. */
  function ParsePhase(s: string): (r: Option<Phase>)
    ensures r.Some? ==> PhaseName(r.value) == s
    ensures r.None? ==> forall p: Phase :: PhaseName(p) != s
  {
    if s == "none" then Some(Inactive)
    else if s == "picking-up" then Some(PickingUp)
    else if s == "dragging" then Some(Dragging)
    else if s == "returning" then Some(Returning)
    else if s == "dropping" then Some(Dropping)
    else None
  }

  /** The phase type has exactly five values, named by five distinct literals. */
  lemma PhasesAreExactlyFive()
    ensures forall s :: ParsePhase(s).Some? <==> s in PhaseNames
    ensures forall p: Phase :: PhaseName(p) in PhaseNames
    ensures forall p: Phase :: ParsePhase(PhaseName(p)) == Some(p)
    ensures forall i, j :: 0 <= i < j < |PhaseNames| ==> PhaseNames[i] != PhaseNames[j]
  {
  }

  /** The string literal stores.ts uses for each placement. */
  function PlacementName(p: Placement): string
  {
    match p
    case Before => "before"
    case After => "after"
  }

  /** Reads a placement literal; any other string is not a placement. */
  function ParsePlacement(s: string): (r: Option<Placement>)
    ensures r.Some? ==> PlacementName(r.value) == s
    ensures r.None? ==> forall p: Placement :: PlacementName(p) != s
  {
    if s == "before" then Some(Before)
    else if s == "after" then Some(After)
    else None
  }

  /** The placement type has exactly the two values `'before'` and `'after'`. */
  lemma PlacementsAreExactlyTwo()
    ensures forall s :: ParsePlacement(s).Some? <==> s == "before" || s == "after"
    ensures forall p: Placement :: ParsePlacement(PlacementName(p)) == Some(p)
    ensures PlacementName(Before) != PlacementName(After)
  {
  }

  /** The drop-target id generator: the number held by its store. */
  datatype IdCounter = IdCounter(count: nat)

  /** The contents of the process-wide stores. */
  datatype DragDropState = DragDropState(
    dropTargets: seq<DropTarget>,
    dragging: Phase,
    dragTarget: Option<DragTarget>,
    dropTargetId: IdCounter)

  /** The stores as the module creates them. */
  function InitialState(): (s: DragDropState)
    ensures |s.dropTargets| == 0
    ensures PhaseName(s.dragging) == "none"
    ensures s.dragTarget.None?
    ensures s.dropTargetId.count == 0
  {
    DragDropState([], Inactive, None, IdCounter(0))
  }

  /** `next()`: hands out the current value and leaves the counter one higher. */
  function Next(c: IdCounter): (r: (int, IdCounter))
    ensures r.0 == c.count
    ensures r.1.count == r.0 + 1
  {
    (c.count, IdCounter(c.count + 1))
  }

  /** The ids handed out by `k` successive calls of `next()`, and the counter afterwards. */
  function Issue(c: IdCounter, k: nat): (r: (seq<int>, IdCounter))
    ensures |r.0| == k
    ensures r.1.count == c.count + k
    ensures forall i :: 0 <= i < k ==> r.0[i] == c.count + i
    decreases k
  {
    if k == 0 then ([], c)
    else
      var (id, c1) := Next(c);
      var (rest, c2) := Issue(c1, k - 1);
      ([id] + rest, c2)
  }

  /** The first id the freshly created generator hands out is 0. */
  lemma FirstIdIsZero()
    ensures Next(InitialState().dropTargetId).0 == 0
    ensures Issue(InitialState().dropTargetId, 1).0 == [0]
  {
  }

  /** After n calls on the fresh generator the counter is n, and the call at position i (from 0) returned i. */
  lemma IssueFromStart(n: nat)
    ensures Issue(InitialState().dropTargetId, n).1.count == n
    ensures forall i :: 0 <= i < n ==> Issue(InitialState().dropTargetId, n).0[i] == i
  {
  }

  /** Ids handed out by successive calls strictly increase, so no two are equal. */
  lemma IssuedIdsStrictlyIncrease(c: IdCounter, k: nat)
    ensures forall i, j :: 0 <= i < j < k ==> Issue(c, k).0[i] < Issue(c, k).0[j]
    ensures forall i, j :: 0 <= i < k && 0 <= j < k && i != j ==> Issue(c, k).0[i] != Issue(c, k).0[j]
  {
  }

  /**
    Issuing k ids and then m more is the same as issuing k + m ids, and every
    id of the second batch exceeds every id of the first: no id is reissued.
   */
  lemma NoIdReissued(c: IdCounter, k: nat, m: nat)
    ensures Issue(c, k).0 + Issue(Issue(c, k).1, m).0 == Issue(c, k + m).0
    ensures Issue(Issue(c, k).1, m).1 == Issue(c, k + m).1
    ensures forall i, j :: 0 <= i < k && 0 <= j < m ==> Issue(c, k).0[i] < Issue(Issue(c, k).1, m).0[j]
  {
  }
}
