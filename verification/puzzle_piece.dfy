/**
 * A puzzle piece (client/src/entities/puzzle-piece.ts): a sprite with a
 * process-unique id, a z-index it returns to after a drag, and the grab
 * offset that makes it follow the pointer one to one. Coordinates are
 * integers, where "grab, then move to the grab point" is exactly a no-op.
 */
module Pieces {
  import opened Geometry

  /** The z-index a piece is raised to while it is dragged. */
  const Z_INDEX_TOP: int := 1000

  /** The offset from a piece's position to the pointer that grabbed it. */
  function GrabOffset(position: Vec, pointer: Vec): Vec {
    Sub(pointer, position)
  }

  /** Where a piece grabbed with `offset` goes when the pointer is at `pointer`. */
  function Follow(offset: Vec, pointer: Vec): Vec {
    Sub(pointer, offset)
  }

  /** Following the pointer to the point where it grabbed leaves the piece where it was. */
  lemma FollowGrabPoint(position: Vec, pointer: Vec)
    ensures Follow(GrabOffset(position, pointer), pointer) == position
  {
  }

  /** Two successive moves displace the piece by exactly the pointer's displacement. */
  lemma FollowDelta(offset: Vec, p: Vec, q: Vec)
    ensures Sub(Follow(offset, q), Follow(offset, p)) == Sub(q, p)
  {
  }

  /** `utils.uid`: a process-wide counter; each call returns one more than the last. */
  class UidSource {
    var last: nat

    constructor ()
      ensures last == 0
    {
      last := 0;
    }

    method Next() returns (uid: nat)
      modifies this
      ensures uid == old(last) + 1 && last == uid
    {
      last := last + 1;
      uid := last;
    }
  }

  /** Everything about a piece that its methods may change, apart from its selection flag. */
  datatype PieceState = PieceState(
    position: Vec,
    zIndex: int,
    dragPosition: Vec,
    outlined: bool,
    isHovered: bool)

  /** The state `startDrag` leaves: raised, outlined, grab offset recorded; not moved. */
  function Started(s: PieceState, pointer: Vec): (r: PieceState)
    ensures r.position == s.position && r.isHovered == s.isHovered
    ensures r.zIndex == Z_INDEX_TOP && r.outlined
  {
    s.(zIndex := Z_INDEX_TOP, outlined := true, dragPosition := GrabOffset(s.position, pointer))
  }

  /** The state `drag` leaves: moved to follow the pointer at the recorded offset. */
  function Moved(s: PieceState, pointer: Vec): (r: PieceState)
    ensures r.zIndex == s.zIndex && r.outlined == s.outlined && r.isHovered == s.isHovered
    ensures r.dragPosition == s.dragPosition
  {
    s.(position := Follow(s.dragPosition, pointer))
  }

  /**
   * The offset `startDrag` records brings the piece back to where it was
   * from the grabbing pointer, and after `drag` the piece sits at exactly
   * the recorded offset from the pointer.
   */
  lemma OffsetsAgree(s: PieceState, pointer: Vec)
    ensures Follow(Started(s, pointer).dragPosition, pointer) == s.position
    ensures GrabOffset(Moved(s, pointer).position, pointer) == s.dragPosition
  {
  }

  /** The state `endDrag` leaves: outline dropped, back at the z-index it was created with. */
  function Ended(s: PieceState, zIndexOriginal: int): (r: PieceState)
    ensures r.position == s.position && r.dragPosition == s.dragPosition && r.isHovered == s.isHovered
    ensures r.zIndex == zIndexOriginal && !r.outlined
  {
    s.(zIndex := zIndexOriginal, outlined := false)
  }

  /**
   * A drag that starts with the pointer at `grab` moves the piece by exactly
   * the pointer's displacement, however many moves come in between: only
   * the grab offset matters, and each move leaves it as it was.
   */
  lemma DragTracksPointer(s: PieceState, grab: Vec, p: Vec, q: Vec)
    ensures Moved(Started(s, grab), q).position == Vec(s.position.x + (q.x - grab.x), s.position.y + (q.y - grab.y))
    ensures Moved(Moved(Started(s, grab), p), q) == Moved(Started(s, grab), q)
    ensures Moved(Started(s, grab), grab) == Started(s, grab)
  {
    FollowGrabPoint(s.position, grab);
  }

  /**
   * Starting, moving and ending a drag leaves the piece where the pointer
   * took it, with the hover flag untouched and z-index and outline as
   * before the drag when it was at its creation z-index without outline.
   */
  lemma DragRoundTrip(s: PieceState, zIndexOriginal: int, grab: Vec, q: Vec)
    requires s.zIndex == zIndexOriginal && !s.outlined
    ensures Ended(Moved(Started(s, grab), q), zIndexOriginal).(dragPosition := s.dragPosition)
         == s.(position := Moved(Started(s, grab), q).position)
  {
  }

  class PuzzlePiece {
    const uid: nat
    /** The z-index the piece had when it was created. */
    const zIndexOriginal: int
    /** The texture's size; with `x` and `y` it gives the piece's bounds. */
    const width: nat
    const height: nat
    var x: int
    var y: int
    var zIndex: int
    /** The grab offset recorded by `startDrag`. */
    var dragPosition: Vec
    /** Whether `filters` holds the outline filter. */
    var outlined: bool
    /** The selection flag of the `Selectable` interface. */
    var isSelected: bool
    /** A hover flag of the model's own; the piece's source declares none. */
    var isHovered: bool

    /**
     * A new sprite sits at the origin with z-index 0; the piece takes a fresh
     * uid and remembers that z-index.
     */
    constructor (uids: UidSource, width: nat, height: nat)
      modifies uids
      ensures uid == uids.last && uid > old(uids.last)
      ensures zIndexOriginal == zIndex == 0
      ensures this.width == width && this.height == height
      ensures State() == PieceState(Vec(0, 0), 0, Vec(0, 0), false, false) && !isSelected
    {
      var id := uids.Next();
      uid := id;
      x, y := 0, 0;
      zIndex := 0;
      zIndexOriginal := 0;
      this.width, this.height := width, height;
      dragPosition := Vec(0, 0);
      outlined, isSelected, isHovered := false, false, false;
    }

    function Position(): Vec
      reads this
    {
      Vec(x, y)
    }

    function Bounds(): Rect
      reads this
    {
      Rect(x, y, width, height)
    }

    function State(): PieceState
      reads this
    {
      PieceState(Position(), zIndex, dragPosition, outlined, isHovered)
    }

    /** `startDrag`: raise to the top band, outline, and record the grab offset; the piece does not move. */
    method StartDrag(pointer: Vec)
      modifies this
      ensures State() == Started(old(State()), pointer)
      ensures isSelected == old(isSelected)
    {
      zIndex := Z_INDEX_TOP;
      outlined := true;
      dragPosition := Vec(pointer.x - x, pointer.y - y);
    }

    /** `drag`: follow the pointer at the recorded offset; nothing else changes. */
    method Drag(pointer: Vec)
      modifies this
      ensures State() == Moved(old(State()), pointer)
      ensures isSelected == old(isSelected)
    {
      x := pointer.x - dragPosition.x;
      y := pointer.y - dragPosition.y;
    }

    /** `endDrag`: drop the outline and return to the creation-time z-index; the piece does not move. */
    method EndDrag()
      modifies this
      ensures State() == Ended(old(State()), zIndexOriginal)
      ensures isSelected == old(isSelected)
    {
      outlined := false;
      zIndex := zIndexOriginal;
    }

    method Select()
      modifies this
      ensures isSelected && State() == old(State())
    {
      isSelected := true;
    }

    method Deselect()
      modifies this
      ensures !isSelected && State() == old(State())
    {
      isSelected := false;
    }

    /** `startHover`, called on a piece but declared nowhere: taken to set the hover flag only. */
    method StartHover()
      modifies this
      ensures State() == old(State()).(isHovered := true)
      ensures isSelected == old(isSelected)
    {
      isHovered := true;
    }

    /** `endHover`, called on a piece but declared nowhere: taken to clear the hover flag only. */
    method EndHover()
      modifies this
      ensures State() == old(State()).(isHovered := false)
      ensures isSelected == old(isSelected)
    {
      isHovered := false;
    }
  }
}
