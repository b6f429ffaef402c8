/**
 * The puzzle container (client/src/entities/puzzle.ts): it owns the pieces,
 * keyed by uid, and the stacking order of its children, and turns pointer
 * events into single-piece and group drags and into hover highlights.
 */
module Puzzles {
  import opened Geometry
  import opened Seqs
  import opened Pieces
  import opened Selection

  /** What a pointer event was dispatched to: a puzzle piece, or anything else. */
  datatype Target = PieceTarget(piece: PuzzlePiece) | OtherTarget

  /** The primary mouse button, the only one that starts a drag. */
  const PRIMARY_BUTTON: int := 0

  /** `Map.get` on the pieces keyed by uid: the piece with that uid, or null. */
  function Lookup(pieces: seq<PuzzlePiece>, uid: nat): (r: PuzzlePiece?)
    ensures r != null ==> r in pieces && r.uid == uid
    ensures r == null ==> forall p | p in pieces :: p.uid != uid
  {
    if pieces == [] then null
    else if pieces[0].uid == uid then pieces[0]
    else Lookup(pieces[1..], uid)
  }

  /** No two pieces share a uid (and so no piece is listed twice). */
  predicate UidsDistinct(pieces: seq<PuzzlePiece>) {
    forall i, j :: 0 <= i < j < |pieces| ==> pieces[i].uid != pieces[j].uid
  }

  /** With distinct uids, looking a listed piece up by its uid finds that very piece. */
  lemma {:induction false} LookupFindsPiece(pieces: seq<PuzzlePiece>, k: nat)
    requires UidsDistinct(pieces) && k < |pieces|
    ensures Lookup(pieces, pieces[k].uid) == pieces[k]
  {
    if k > 0 {
      assert pieces[0].uid != pieces[k].uid;
      assert pieces[1..][k - 1] == pieces[k];
      LookupFindsPiece(pieces[1..], k - 1);
    }
  }

  /**
   * The order `startDragGroup` sorts the selected pieces into, comparing
   * their child indices: the topmost first.
   */
  function DepthOrder(children: seq<PuzzlePiece>, selected: seq<PuzzlePiece>): seq<PuzzlePiece> {
    Reverse(Keep(children, Elems(selected)))
  }

  /**
   * `DepthOrder` is what the sort produces: exactly the selected pieces,
   * each once, with child indices strictly decreasing along the sequence.
   */
  lemma DepthOrderSorts(children: seq<PuzzlePiece>, selected: seq<PuzzlePiece>)
    requires Distinct(children) && forall p | p in selected :: p in children
    ensures forall p | p in DepthOrder(children, selected) :: p in selected
    ensures forall p | p in selected :: p in DepthOrder(children, selected)
    ensures Distinct(DepthOrder(children, selected))
    ensures forall i, j :: 0 <= i < j < |DepthOrder(children, selected)| ==>
      IndexOf(children, DepthOrder(children, selected)[i]) > IndexOf(children, DepthOrder(children, selected)[j])
  {
    var chosen := Elems(selected);
    var kept := Keep(children, chosen);
    var r := Reverse(kept);
    KeepOrdered(children, chosen);
    KeepDistinct(children, chosen);
    ReverseMembers(kept);
    forall p | p in r ensures p in selected {
      assert p in kept;
    }
    forall i, j | 0 <= i < j < |r| ensures IndexOf(children, r[i]) > IndexOf(children, r[j]) {
      var i', j' := |kept| - 1 - j, |kept| - 1 - i;
      assert 0 <= i' < j' < |kept|;
      assert IndexOf(children, kept[i']) < IndexOf(children, kept[j']);
    }
  }

  /**
   * The stack after the first `n` pieces of `sorted` have been lifted: the
   * others in their original order, then the lifted ones, the first lifted
   * on top.
   */
  function Lifted<T(==)>(orig: seq<T>, sorted: seq<T>, n: nat): seq<T>
    requires n <= |sorted|
  {
    Drop(orig, Elems(sorted[..n])) + Reverse(sorted[..n])
  }

  /** Extending a prefix of `sorted` by one element, which it did not yet hold. */
  lemma PrefixStep<T>(sorted: seq<T>, n: nat)
    requires Distinct(sorted) && n < |sorted|
    ensures sorted[n] !in Elems(sorted[..n])
    ensures Elems(sorted[..n + 1]) == Elems(sorted[..n]) + {sorted[n]}
    ensures Reverse(sorted[..n + 1]) == [sorted[n]] + Reverse(sorted[..n])
  {
    assert sorted[..n + 1] == sorted[..n] + [sorted[n]];
    assert sorted[..n + 1][..n] == sorted[..n];
  }

  /** Before the first lift the stack is as it was; after the last, every piece of `sorted` is lifted. */
  lemma LiftedEnds<T>(orig: seq<T>, sorted: seq<T>)
    ensures Lifted(orig, sorted, 0) == orig
    ensures Lifted(orig, sorted, |sorted|) == Drop(orig, Elems(sorted)) + Reverse(sorted)
  {
    DropNothing(orig);
    assert Elems(sorted[..0]) == {};
    assert Reverse(sorted[..0]) == [];
    assert sorted[..|sorted|] == sorted;
  }

  /**
   * Lifting the next piece of `sorted` into the slot just below those
   * already lifted extends the lifted block by that piece.
   */
  lemma LiftNext<T>(orig: seq<T>, sorted: seq<T>, n: nat, stack: seq<T>)
    requires Distinct(orig) && Distinct(sorted) && forall p | p in sorted :: p in orig
    requires n < |sorted| && stack == Lifted(orig, sorted, n) && |stack| == |orig|
    ensures sorted[n] in stack && n < |stack|
    ensures SetChildIndex(stack, sorted[n], |stack| - 1 - n) == Lifted(orig, sorted, n + 1)
  {
    var lifted := Elems(sorted[..n]);
    var x := sorted[n];
    var top := Reverse(sorted[..n]);
    var below := Drop(orig, lifted);
    PrefixStep(sorted, n);
    assert stack == below + top && |top| == n;
    LiftStep(orig, lifted, top, x);
    ConcatAssoc(Drop(orig, lifted + {x}), [x], top);
  }

  /** One step of the lifting loop: `setChildIndex(sorted[index], totalPieces - index)`. */
  method LiftOne<T(==)>(ghost orig: seq<T>, sorted: seq<T>, totalPieces: int, index: nat, stack: seq<T>)
    returns (stack': seq<T>)
    requires Distinct(orig) && Distinct(sorted) && forall p | p in sorted :: p in orig
    requires index < |sorted| && stack == Lifted(orig, sorted, index)
    requires |stack| == |orig| && totalPieces == |orig| - 1
    ensures stack' == Lifted(orig, sorted, index + 1) && |stack'| == |orig|
  {
    LiftNext(orig, sorted, index, stack);
    stack' := SetChildIndex(stack, sorted[index], totalPieces - index);
  }

  /**
   * Once every piece of `sorted` is lifted, the stack holds the same pieces
   * as before, each once.
   */
  lemma LiftedPermutes<T>(orig: seq<T>, sorted: seq<T>)
    requires Distinct(orig) && Distinct(sorted) && forall p | p in sorted :: p in orig
    ensures Distinct(Drop(orig, Elems(sorted)) + Reverse(sorted))
    ensures forall p :: p in Drop(orig, Elems(sorted)) + Reverse(sorted) <==> p in orig
  {
    var below := Drop(orig, Elems(sorted));
    var r := Reverse(sorted);
    DropDistinct(orig, Elems(sorted));
    ReverseMembers(sorted);
    forall i, j | 0 <= i < j < |below + r| ensures (below + r)[i] != (below + r)[j] {
      if j >= |below| && i < |below| {
        assert (below + r)[j] in r;
      }
    }
  }

  /**
   * The second loop of `startDragGroup`: `setChildIndex(sorted[i], total - i)`
   * for each i, on the stack `children`. With `sorted` topmost first, the
   * lifted pieces end on top in the reverse of `sorted`, and the rest below
   * them in their order; the stack keeps its pieces, each once.
   */
  method LiftToTop<T(==)>(children: seq<T>, sorted: seq<T>) returns (stack: seq<T>)
    requires Distinct(children) && Distinct(sorted) && forall p | p in sorted :: p in children
    ensures stack == Drop(children, Elems(sorted)) + Reverse(sorted)
    ensures Distinct(stack) && |stack| == |children|
    ensures forall p :: p in stack <==> p in children
  {
    stack := children;
    var totalPieces := |stack| - 1;
    LiftedEnds(children, sorted);
    for index := 0 to |sorted|
      invariant stack == Lifted(children, sorted, index) && |stack| == |children|
    {
      stack := LiftOne(children, sorted, totalPieces, index, stack);
    }
    LiftedPermutes(children, sorted);
  }

  /**
   * Sorting the selected pieces topmost first and lifting them in that order
   * leaves the unselected pieces at the bottom and the selected ones above
   * them, each group in its previous order.
   */
  lemma LiftSorted(children: seq<PuzzlePiece>, selectedPieces: seq<PuzzlePiece>, selected: set<PuzzlePiece>)
    requires forall p :: p in selectedPieces <==> p in selected
    ensures Drop(children, Elems(DepthOrder(children, selectedPieces))) + Reverse(DepthOrder(children, selectedPieces))
         == Drop(children, selected) + Keep(children, selected)
  {
    assert Elems(selectedPieces) == selected;
    var sorted := Reverse(Keep(children, selected));
    ReverseReverse(Keep(children, selected));
    ReverseKeepMembers(children, selected);
    DropAgree(children, Elems(sorted), selected);
  }

  class Puzzle {
    /** The values of `_pieces`, in insertion order. */
    var pieces: seq<PuzzlePiece>
    /** The container's children, bottom first: the order they are drawn in. */
    var children: seq<PuzzlePiece>
    var dragPiece: PuzzlePiece?
    var isGroupDrag: bool
    /** How many times `handleDrag` is registered for the viewport's `pointermove`. */
    var moveListeners: nat
    const selectionBox: SelectionBox

    /**
     * Pieces are keyed by uid; the pieces are exactly the children, each
     * once; a piece being dragged is one of them.
     */
    predicate Valid()
      reads this
    {
      && UidsDistinct(pieces)
      && Distinct(children) && |children| == |pieces|
      && (forall p | p in children :: p in pieces)
      && (forall p | p in pieces :: p in children)
      && (dragPiece != null ==> dragPiece in pieces)
    }

    ghost function Pieces(): set<PuzzlePiece>
      reads this
    {
      set p | p in pieces
    }

    /** A new puzzle has no pieces, no children and no drag in progress. */
    constructor (selectionBox: SelectionBox)
      ensures Valid() && this.selectionBox == selectionBox
      ensures pieces == [] && children == [] && dragPiece == null && !isGroupDrag && moveListeners == 0
    {
      moveListeners := 0;
      pieces := [];
      children := [];
      dragPiece := null;
      isGroupDrag := false;
      this.selectionBox := selectionBox;
    }

    /**
     * `addChild(piece)` followed by `_pieces.set(piece.uid, piece)`: the new
     * piece goes on top of the stack and at the end of the map.
     */
    method AddPiece(piece: PuzzlePiece)
      requires Valid() && Lookup(pieces, piece.uid) == null
      modifies this
      ensures Valid()
      ensures pieces == old(pieces) + [piece] && children == old(children) + [piece]
      ensures dragPiece == old(dragPiece) && isGroupDrag == old(isGroupDrag) && moveListeners == old(moveListeners)
    {
      children := children + [piece];
      pieces := pieces + [piece];
    }

    /** `captureDragPiece`: the drag piece becomes the piece with the target's uid, or null. */
    method CaptureDragPiece(target: PuzzlePiece) returns (r: PuzzlePiece?)
      requires Valid()
      modifies this
      ensures Valid() && r == dragPiece
      ensures r != null <==> exists p | p in pieces :: p.uid == target.uid
      ensures r != null ==> r in pieces && r.uid == target.uid
      ensures pieces == old(pieces) && children == old(children) && isGroupDrag == old(isGroupDrag)
      ensures moveListeners == old(moveListeners)
    {
      dragPiece := Lookup(pieces, target.uid);
      r := dragPiece;
    }

    /** The first loop of `startDragSingle`: deselect every selected piece. */
    method DeselectAll()
      requires Valid()
      modifies Pieces()
      ensures forall p | p in pieces :: !p.isSelected && p.State() == old(p.State())
    {
      var i := 0;
      while i < |pieces|
        invariant 0 <= i <= |pieces|
        invariant forall p | p in pieces :: p.State() == old(p.State())
        invariant forall k | 0 <= k < i :: !pieces[k].isSelected
      {
        var piece := pieces[i];
        if piece.isSelected {
          piece.Deselect();
        }
        i := i + 1;
      }
    }

    /**
     * `startDragSingle`: deselect every piece, move the drag piece to the
     * top of the stack, and start dragging it alone.
     */
    method StartDragSingle(pointer: Vec)
      requires Valid() && dragPiece != null
      modifies this, Pieces()
      ensures Valid() && !isGroupDrag
      ensures pieces == old(pieces) && dragPiece == old(dragPiece) && moveListeners == old(moveListeners)
      ensures children == Remove(old(children), dragPiece as PuzzlePiece) + [dragPiece as PuzzlePiece]
      ensures forall p | p in pieces :: !p.isSelected
      ensures forall p | p in pieces && p != dragPiece :: p.State() == old(p.State())
      ensures dragPiece.State() == Started(old(dragPiece.State()), pointer)
    {
      DeselectAll();
      var top: PuzzlePiece := dragPiece;
      SetChildIndexMovesOnlyChild(children, top, |pieces| - 1);
      SetChildIndexTop(children, top);
      RemoveDistinct(children, top);
      children := SetChildIndex(children, top, |pieces| - 1);
      top.StartDrag(pointer);
      isGroupDrag := false;
    }

    /** The pieces whose selection flag is set. */
    ghost function Selected(): set<PuzzlePiece>
      reads this, Pieces()
    {
      set p | p in pieces && p.isSelected
    }

    /**
     * The first loop of `startDragGroup`: start dragging every selected
     * piece, and collect exactly the selected pieces.
     */
    method StartDragSelected(pointer: Vec) returns (selectedPieces: seq<PuzzlePiece>)
      requires Valid()
      modifies Pieces()
      ensures forall p | p in pieces :: p.isSelected == old(p.isSelected)
      ensures forall p | p in pieces :: p.State() ==
                if old(p.isSelected)
                then Started(old(p.State()), pointer)
                else old(p.State())
      ensures forall p :: p in selectedPieces <==> p in old(Selected())
    {
      ghost var selected := Selected();
      selectedPieces := [];
      var i := 0;
      while i < |pieces|
        invariant 0 <= i <= |pieces|
        invariant forall p | p in pieces :: p.isSelected == old(p.isSelected)
        invariant forall k | 0 <= k < i :: pieces[k].State() ==
                    if old(pieces[k].isSelected)
                    then Started(old(pieces[k].State()), pointer)
                    else old(pieces[k].State())
        invariant forall k | i <= k < |pieces| :: pieces[k].State() == old(pieces[k].State())
        invariant forall p | p in selectedPieces :: p in selected
        invariant forall k | 0 <= k < i && pieces[k] in selected :: pieces[k] in selectedPieces
      {
        var piece := pieces[i];
        if piece.isSelected {
          selectedPieces := selectedPieces + [piece];
          piece.StartDrag(pointer);
        }
        i := i + 1;
      }
    }

    /**
     * `startDragGroup`: start dragging every selected piece, then lift the
     * selected pieces, topmost first, into the top slots of the stack. The
     * selected pieces end on top in their previous relative order, with the
     * others below them in theirs.
     */
    method StartDragGroup(pointer: Vec)
      requires Valid()
      modifies this, Pieces()
      ensures Valid() && isGroupDrag
      ensures pieces == old(pieces) && dragPiece == old(dragPiece) && moveListeners == old(moveListeners)
      ensures children == Drop(old(children), old(Selected())) + Keep(old(children), old(Selected()))
      ensures forall p | p in pieces :: p.isSelected == old(p.isSelected)
      ensures forall p | p in pieces :: p.State() ==
                if old(p.isSelected)
                then Started(old(p.State()), pointer)
                else old(p.State())
    {
      ghost var selected := Selected();
      var selectedPieces := StartDragSelected(pointer);
      // The comparison sort on child indices, by its result.
      var sorted := DepthOrder(children, selectedPieces);
      DepthOrderSorts(children, selectedPieces);
      LiftSorted(children, selectedPieces, selected);
      children := LiftToTop(children, sorted);
      isGroupDrag := true;
    }

    /**
     * The choice in `handleDragStart`: a selected drag piece drags the whole
     * selection, an unselected one is dragged alone.
     */
    method StartDrag(pointer: Vec)
      requires Valid() && dragPiece != null
      modifies this, Pieces()
      ensures Valid() && pieces == old(pieces) && dragPiece == old(dragPiece) && moveListeners == old(moveListeners)
      ensures isGroupDrag == old(dragPiece.isSelected)
      ensures isGroupDrag ==>
        && children == Drop(old(children), old(Selected())) + Keep(old(children), old(Selected()))
        && forall p | p in pieces ::
             p.isSelected == old(p.isSelected)
             && p.State() == if old(p.isSelected) then Started(old(p.State()), pointer) else old(p.State())
      ensures !isGroupDrag ==>
        && children == Remove(old(children), dragPiece as PuzzlePiece) + [dragPiece as PuzzlePiece]
        && forall p | p in pieces ::
             !p.isSelected
             && p.State() == if p == dragPiece then Started(old(p.State()), pointer) else old(p.State())
    {
      if dragPiece.isSelected {
        StartDragGroup(pointer);
      } else {
        StartDragSingle(pointer);
      }
    }

    /**
     * `handleDragStart`: only a primary-button press on a piece this puzzle
     * holds starts a drag; it captures that piece (a press on an unknown
     * piece clears the drag piece instead), drags the whole selection when
     * the piece is selected and the piece alone otherwise, stops the event's
     * propagation, and registers `handleDrag` for pointer moves.
     */
    method HandleDragStart(button: int, target: Target, pointer: Vec) returns (stopped: bool)
      requires Valid()
      modifies this, Pieces()
      ensures Valid() && pieces == old(pieces)
      ensures stopped <==> button == PRIMARY_BUTTON && target.PieceTarget? && Lookup(pieces, target.piece.uid) != null
      ensures moveListeners == old(moveListeners) + (if stopped then 1 else 0)
      ensures !stopped ==>
        && dragPiece == (if button == PRIMARY_BUTTON && target.PieceTarget? then null else old(dragPiece))
        && children == old(children) && isGroupDrag == old(isGroupDrag)
        && forall p | p in pieces :: p.State() == old(p.State()) && p.isSelected == old(p.isSelected)
      ensures stopped ==>
        && dragPiece == Lookup(pieces, target.piece.uid)
        && isGroupDrag == (dragPiece in old(Selected()))
      ensures stopped && isGroupDrag ==>
        && children == Drop(old(children), old(Selected())) + Keep(old(children), old(Selected()))
        && forall p | p in pieces ::
             p.isSelected == old(p.isSelected)
             && p.State() == if old(p.isSelected) then Started(old(p.State()), pointer) else old(p.State())
      ensures stopped && !isGroupDrag ==>
        && children == Remove(old(children), dragPiece as PuzzlePiece) + [dragPiece as PuzzlePiece]
        && forall p | p in pieces ::
             !p.isSelected
             && p.State() == if p == dragPiece then Started(old(p.State()), pointer) else old(p.State())
    {
      if button != PRIMARY_BUTTON || !target.PieceTarget? {
        return false;
      }
      var captured := CaptureDragPiece(target.piece);
      if captured == null {
        return false;
      }
      assert Selected() == old(Selected());
      StartDrag(pointer);
      moveListeners := moveListeners + 1;
      stopped := true;
    }

    /** The loop of `handleDrag`: every selected piece follows the pointer. */
    method DragSelected(pointer: Vec)
      requires Valid()
      modifies Pieces()
      ensures forall p | p in pieces ::
        p.isSelected == old(p.isSelected)
        && p.State() == if p.isSelected then Moved(old(p.State()), pointer) else old(p.State())
    {
      var i := 0;
      while i < |pieces|
        invariant 0 <= i <= |pieces|
        invariant forall p | p in pieces :: p.isSelected == old(p.isSelected)
        invariant forall k | 0 <= k < i ::
          pieces[k].State() == if pieces[k].isSelected then Moved(old(pieces[k].State()), pointer) else old(pieces[k].State())
        invariant forall k | i <= k < |pieces| :: pieces[k].State() == old(pieces[k].State())
      {
        var piece := pieces[i];
        if piece.isSelected {
          piece.Drag(pointer);
        }
        i := i + 1;
      }
    }

    /**
     * `handleDrag`: with no drag piece nothing happens; otherwise every
     * selected piece follows the pointer and nothing else changes. A piece
     * dragged alone is not selected, so it does not follow.
     */
    method HandleDrag(pointer: Vec)
      requires Valid()
      modifies Pieces()
      ensures forall p | p in pieces ::
        p.isSelected == old(p.isSelected)
        && p.State() == if dragPiece != null && p.isSelected then Moved(old(p.State()), pointer) else old(p.State())
    {
      if dragPiece == null {
        return;
      }
      DragSelected(pointer);
    }

    /** The loop of `handleDragEnd`: every selected piece ends its drag. */
    method EndDragSelected()
      requires Valid()
      modifies Pieces()
      ensures forall p | p in pieces ::
        p.isSelected == old(p.isSelected)
        && p.State() == if p.isSelected then Ended(old(p.State()), p.zIndexOriginal) else old(p.State())
    {
      var i := 0;
      while i < |pieces|
        invariant 0 <= i <= |pieces|
        invariant forall p | p in pieces :: p.isSelected == old(p.isSelected)
        invariant forall k | 0 <= k < i ::
          pieces[k].State() ==
            if pieces[k].isSelected then Ended(old(pieces[k].State()), pieces[k].zIndexOriginal) else old(pieces[k].State())
        invariant forall k | i <= k < |pieces| :: pieces[k].State() == old(pieces[k].State())
      {
        var piece := pieces[i];
        if piece.isSelected {
          piece.EndDrag();
        }
        i := i + 1;
      }
    }

    /**
     * `handleDragEnd`: with no drag piece nothing happens. Otherwise the
     * event stops propagating, `handleDrag` is unregistered, every selected
     * piece ends its drag, the piece dragged alone is deselected, and the
     * drag piece is cleared; the stacking order stays as the drag left it.
     */
    method HandleDragEnd() returns (stopped: bool)
      requires Valid()
      modifies this, Pieces()
      ensures Valid() && stopped == (old(dragPiece) != null)
      ensures pieces == old(pieces) && children == old(children) && isGroupDrag == old(isGroupDrag)
      ensures dragPiece == (if stopped then null else old(dragPiece))
      ensures moveListeners == (if stopped then 0 else old(moveListeners))
      ensures forall p | p in pieces ::
        p.State() == if stopped && old(p.isSelected) then Ended(old(p.State()), p.zIndexOriginal) else old(p.State())
      ensures forall p | p in pieces ::
        p.isSelected == (old(p.isSelected) && !(stopped && !isGroupDrag && p == old(dragPiece)))
    {
      if dragPiece == null {
        return false;
      }
      stopped := true;
      moveListeners := 0;
      EndDragSelected();
      if !isGroupDrag {
        dragPiece.Deselect();
      }
      dragPiece := null;
    }

    /** `isHoverEventValid`: no drag in progress, no box selection active, and the target is a piece. */
    predicate IsHoverEventValid(target: Target)
      reads this, selectionBox
    {
      dragPiece == null && !selectionBox.isActive && target.PieceTarget?
    }

    /**
     * `handleHoverStart`: highlight the piece under the pointer, unless a
     * drag or a box selection is in progress; nothing else changes.
     */
    method HandleHoverStart(target: Target)
      modifies if target.PieceTarget? then {target.piece} else {}
      ensures target.PieceTarget? ==>
        && target.piece.isSelected == old(target.piece.isSelected)
        && target.piece.State() ==
             if old(IsHoverEventValid(target)) then old(target.piece.State()).(isHovered := true) else old(target.piece.State())
    {
      if IsHoverEventValid(target) {
        target.piece.StartHover();
      }
    }

    /**
     * `handleHoverEnd`: drop the highlight of the piece the pointer left,
     * unless a drag or a box selection is in progress; nothing else changes.
     */
    method HandleHoverEnd(target: Target)
      modifies if target.PieceTarget? then {target.piece} else {}
      ensures target.PieceTarget? ==>
        && target.piece.isSelected == old(target.piece.isSelected)
        && target.piece.State() ==
             if old(IsHoverEventValid(target)) then old(target.piece.State()).(isHovered := false) else old(target.piece.State())
    {
      if IsHoverEventValid(target) {
        target.piece.EndHover();
      }
    }
  }

  /**
   * A piece dragged alone, as the handlers are written: it is raised and
   * outlined, but since it is not selected it neither follows the pointer
   * nor ends its drag, so it stays where it was, at `Z_INDEX_TOP`, outlined.
   */
  method SingleDragScenario() returns (position: Vec, zIndex: int, outlined: bool)
    ensures position == Vec(0, 0) && zIndex == Z_INDEX_TOP && outlined
  {
    var uids := new UidSource();
    var piece := new PuzzlePiece(uids, 100, 100);
    var box := new SelectionBox();
    var puzzle := new Puzzle(box);
    puzzle.AddPiece(piece);
    LookupFindsPiece(puzzle.pieces, 0);
    var started := puzzle.HandleDragStart(PRIMARY_BUTTON, PieceTarget(piece), Vec(5, 5));
    puzzle.HandleDrag(Vec(50, 70));
    var ended := puzzle.HandleDragEnd();
    position, zIndex, outlined := piece.Position(), piece.zIndex, piece.outlined;
  }

  /**
   * A selected piece dragged as a group: it follows the pointer by exactly
   * the pointer's displacement, and ending the drag returns it to its
   * creation-time z-index without outline, still selected.
   */
  method GroupDragScenario() returns (position: Vec, zIndex: int, outlined: bool, selected: bool)
    ensures position == Vec(45, 65) && zIndex == 0 && !outlined && selected
  {
    var uids := new UidSource();
    var piece := new PuzzlePiece(uids, 100, 100);
    var box := new SelectionBox();
    var puzzle := new Puzzle(box);
    puzzle.AddPiece(piece);
    piece.Select();
    LookupFindsPiece(puzzle.pieces, 0);
    var started := puzzle.HandleDragStart(PRIMARY_BUTTON, PieceTarget(piece), Vec(5, 5));
    puzzle.HandleDrag(Vec(50, 70));
    var ended := puzzle.HandleDragEnd();
    position, zIndex, outlined, selected := piece.Position(), piece.zIndex, piece.outlined, piece.isSelected;
  }

  /**
   * Hovering during a drag: a piece highlighted before its drag keeps the
   * highlight when the pointer leaves it mid-drag, since the drag piece
   * blocks hover events; once the drag has ended, leaving it drops the
   * highlight.
   */
  method HoverDuringDragScenario() returns (before: bool, during: bool, after: bool)
    ensures before && during && !after
  {
    var uids := new UidSource();
    var piece := new PuzzlePiece(uids, 100, 100);
    var box := new SelectionBox();
    var puzzle := new Puzzle(box);
    puzzle.AddPiece(piece);
    LookupFindsPiece(puzzle.pieces, 0);
    puzzle.HandleHoverStart(PieceTarget(piece));
    before := piece.isHovered;
    var started := puzzle.HandleDragStart(PRIMARY_BUTTON, PieceTarget(piece), Vec(5, 5));
    assert puzzle.dragPiece == piece && piece.isHovered;
    puzzle.HandleHoverEnd(PieceTarget(piece));
    during := piece.isHovered;
    assert puzzle.Valid();
    var ended := puzzle.HandleDragEnd();
    assert puzzle.dragPiece == null;
    puzzle.HandleHoverEnd(PieceTarget(piece));
    after := piece.isHovered;
  }

  /**
   * Hovering during a box selection: the pointer entering a piece while
   * the box is active does not highlight it; after `endSelect` it does.
   */
  method HoverDuringSelectionScenario() returns (during: bool, after: bool)
    ensures !during && after
  {
    var uids := new UidSource();
    var piece := new PuzzlePiece(uids, 100, 100);
    var box := new SelectionBox();
    var puzzle := new Puzzle(box);
    puzzle.AddPiece(piece);
    var origin := new Point(0, 0);
    box.BeginSelect(origin, puzzle.pieces);
    puzzle.HandleHoverStart(PieceTarget(piece));
    during := piece.isHovered;
    box.EndSelect();
    puzzle.HandleHoverStart(PieceTarget(piece));
    after := piece.isHovered;
  }
}
