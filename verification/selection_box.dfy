/**
 * The rectangular selection box (client/src/entities/selection-box.ts):
 * Idle until `beginSelect`, then every `select` re-spans the rectangle from
 * the origin to the cursor and re-decides every candidate's selection flag,
 * until `endSelect` returns it to Idle.
 */
module Selection {
  import opened Optional
  import opened Geometry
  import opened Pieces

  function Min(a: int, b: int): int {
    if a <= b then a else b
  }

  function Abs(a: int): int {
    if a < 0 then -a else a
  }

  /**
   * The rectangle `select` spans: top-left at the component-wise minimum,
   * size the absolute difference. Origin and cursor are its opposite
   * corners, and its size is never negative.
   */
  function Span(origin: Vec, cursor: Vec): (r: Rect)
    ensures r.width >= 0 && r.height >= 0
    ensures (r.x == origin.x && r.x + r.width == cursor.x) || (r.x == cursor.x && r.x + r.width == origin.x)
    ensures (r.y == origin.y && r.y + r.height == cursor.y) || (r.y == cursor.y && r.y + r.height == origin.y)
  {
    Rect(Min(origin.x, cursor.x), Min(origin.y, cursor.y), Abs(origin.x - cursor.x), Abs(origin.y - cursor.y))
  }

  /** The spanned rectangle does not depend on which corner the gesture started from. */
  lemma SpanSymmetric(a: Vec, b: Vec)
    ensures Span(a, b) == Span(b, a)
  {
  }

  /**
   * The test of `_selectItems`: the item starts inside the box, its right
   * edge lies strictly left of the box's right edge, and its bottom edge
   * lies on or above the box's bottom edge. An enclosed item is therefore
   * strictly narrower than the box and no taller than it.
   */
  predicate Encloses(box: Rect, item: Rect)
    ensures Encloses(box, item) ==> item.width < box.width && item.height <= box.height
  {
    && item.x >= box.x && item.x + item.width < box.x + box.width
    && item.y >= box.y && item.y + item.height <= box.y + box.height
  }

  /**
   * The edge policy is asymmetric: an item flush with the box's right edge
   * is left out, one flush with the bottom edge is taken in.
   */
  lemma EdgePolicy(box: Rect, item: Rect)
    requires item.x >= box.x && item.y >= box.y
    ensures item.x + item.width == box.x + box.width ==> !Encloses(box, item)
    ensures item.x + item.width < box.x + box.width && item.y + item.height == box.y + box.height ==>
      Encloses(box, item)
  {
  }

  /** A box of zero width encloses no item of non-negative width, whatever its height. */
  lemma ZeroWidthEnclosesNothing(box: Rect, item: Rect)
    requires box.width == 0 && item.width >= 0
    ensures !Encloses(box, item)
  {
  }

  /** The rectangles of the given pieces, in order. */
  function BoundsOf(items: seq<PuzzlePiece>): (r: seq<Rect>)
    reads items
    ensures |r| == |items| && forall k :: 0 <= k < |items| ==> r[k] == items[k].Bounds()
  {
    if items == [] then [] else [items[0].Bounds()] + BoundsOf(items[1..])
  }

  /** For each rectangle, whether the box encloses it. */
  function Hits(bounds: seq<Rect>, box: Rect): (r: seq<bool>)
    ensures |r| == |bounds| && forall k :: 0 <= k < |bounds| ==> r[k] == Encloses(box, bounds[k])
  {
    if bounds == [] then [] else [Encloses(box, bounds[0])] + Hits(bounds[1..], box)
  }

  /** Among the first `n` candidates, those flagged in `hits`, in candidate order. */
  function Chosen<T>(items: seq<T>, hits: seq<bool>, n: nat): seq<T>
    requires |hits| == |items| && n <= |items|
  {
    if n == 0 then []
    else Chosen(items, hits, n - 1) + (if hits[n - 1] then [items[n - 1]] else [])
  }

  /** The candidates whose rectangles (`bounds`, in candidate order) the box encloses, in candidate order. */
  function Enclosed(items: seq<PuzzlePiece>, bounds: seq<Rect>, box: Rect): (r: seq<PuzzlePiece>)
    requires |bounds| == |items|
  {
    Chosen(items, Hits(bounds, box), |items|)
  }

  /** A candidate is among the chosen exactly when one of its positions is flagged. */
  lemma {:induction false} ChosenMembers<T>(items: seq<T>, hits: seq<bool>, n: nat, x: T)
    requires |hits| == |items| && n <= |items|
    ensures x in Chosen(items, hits, n) <==> exists k :: 0 <= k < n && items[k] == x && hits[k]
  {
    if n > 0 {
      ChosenMembers(items, hits, n - 1, x);
    }
  }

  /**
   * When every listing of a piece carries the same rectangle, the piece is
   * among the enclosed exactly when the box encloses that rectangle.
   */
  lemma EnclosedMembers(items: seq<PuzzlePiece>, bounds: seq<Rect>, box: Rect, k: nat)
    requires |bounds| == |items| && k < |items|
    requires forall j | 0 <= j < |items| && items[j] == items[k] :: bounds[j] == bounds[k]
    ensures items[k] in Enclosed(items, bounds, box) <==> Encloses(box, bounds[k])
  {
    ChosenMembers(items, Hits(bounds, box), |items|, items[k]);
  }

  /**
   * The body of `_selectItems` for one item: select it when the box encloses
   * it, deselect it otherwise, and report which.
   */
  method SelectItem(item: PuzzlePiece, box: Rect) returns (enclosed: bool)
    modifies item
    ensures enclosed == Encloses(box, old(item.Bounds()))
    ensures item.isSelected == enclosed && item.State() == old(item.State())
  {
    enclosed := Encloses(box, item.Bounds());
    if enclosed {
      item.Select();
    } else {
      item.Deselect();
    }
  }

  /**
   * One iteration of `_selectItems`: decide candidate `i` with `SelectItem`
   * and append it to the selections when enclosed. The verdicts already
   * given to earlier candidates survive, because a piece listed twice gets
   * the same verdict each time.
   */
  method SelectItemAt(items: seq<PuzzlePiece>, box: Rect, ghost hits: seq<bool>, i: nat, selections: seq<PuzzlePiece>)
    returns (selections': seq<PuzzlePiece>)
    requires i < |items| == |hits|
    requires hits[i] == Encloses(box, items[i].Bounds())
    requires forall k | 0 <= k < i && items[k] == items[i] :: hits[k] == hits[i]
    requires forall k | 0 <= k < i :: items[k].isSelected == hits[k]
    requires selections == Chosen(items, hits, i)
    modifies items[i]
    ensures items[i].State() == old(items[i].State())
    ensures forall k | 0 <= k <= i :: items[k].isSelected == hits[k]
    ensures selections' == Chosen(items, hits, i + 1)
  {
    var item := items[i];
    var enclosed := SelectItem(item, box);
    selections' := selections;
    if enclosed {
      selections' := selections' + [item];
    }
    forall k | 0 <= k < i && items[k] != item
      ensures items[k].isSelected == hits[k]
    {
    }
  }

  /**
   * `_selectItems`: one pass over the candidates that selects each
   * enclosed item and deselects every other one. The box is the one
   * `select` has just spanned.
   */
  method SelectItems(items: seq<PuzzlePiece>, box: Rect) returns (selections: seq<PuzzlePiece>)
    modifies items
    ensures forall p | p in items :: p.State() == old(p.State()) && p.isSelected == Encloses(box, old(p.Bounds()))
    ensures selections == Enclosed(items, old(BoundsOf(items)), box)
  {
    ghost var bounds := BoundsOf(items);
    ghost var hits := Hits(bounds, box);
    selections := [];
    for i := 0 to |items|
      invariant forall k | 0 <= k < |items| :: items[k].State() == old(items[k].State())
      invariant forall k | 0 <= k < i :: items[k].isSelected == hits[k]
      invariant selections == Chosen(items, hits, i)
    {
      assert old(items[i].Bounds()) == bounds[i];
      selections := SelectItemAt(items, box, hits, i, selections);
    }
    forall p | p in items
      ensures p.State() == old(p.State()) && p.isSelected == Encloses(box, old(p.Bounds()))
    {
      var k :| 0 <= k < |items| && items[k] == p;
      assert p.isSelected == hits[k];
    }
  }

  datatype Size = Size(width: int, height: int)

  class SelectionBox {
    var isActive: bool
    /** The origin Point handed to `beginSelect`, shared with its caller. */
    var origin: Point
    var topLeft: Vec
    var size: Size
    var selectableItems: Option<seq<PuzzlePiece>>

    /** The candidate pieces, none before the first `beginSelect`. */
    function Candidates(): seq<PuzzlePiece>
      reads this
    {
      if selectableItems.Some? then selectableItems.value else []
    }

    /** The box as last spanned by `select`. */
    function Box(): Rect
      reads this
    {
      Rect(topLeft.x, topLeft.y, size.width, size.height)
    }

    /** A new box is inactive, has no candidates, and has zero size at the origin. */
    constructor ()
      ensures !isActive && fresh(origin) && origin.Value() == Vec(0, 0)
      ensures Box() == Rect(0, 0, 0, 0) && selectableItems == None
    {
      origin := new Point(0, 0);
      topLeft := Vec(0, 0);
      isActive := false;
      size := Size(0, 0);
      selectableItems := None;
    }

    /** `beginSelect`: activate, keep the caller's origin Point itself, and record the candidates. */
    method BeginSelect(origin: Point, items: seq<PuzzlePiece>)
      modifies this
      ensures isActive && this.origin == origin && selectableItems == Some(items)
      ensures Box() == old(Box())
    {
      isActive := true;
      this.origin := origin;
      selectableItems := Some(items);
    }

    /**
     * `select`: while inactive, returns nothing and changes nothing.
     * Otherwise spans the box from the origin to the cursor, then sets each
     * candidate's flag to whether the box encloses it (and changes nothing
     * else about it), returning exactly the enclosed candidates in order.
     */
    method Select(cursor: Vec) returns (selections: seq<PuzzlePiece>)
      modifies this, Candidates()
      ensures !old(isActive) ==>
        && selections == [] && unchanged(this)
        && forall p | p in Candidates() :: p.State() == old(p.State()) && p.isSelected == old(p.isSelected)
      ensures old(isActive) ==>
        && isActive && origin == old(origin) && selectableItems == old(selectableItems)
        && Box() == Span(origin.Value(), cursor)
        && (forall p | p in Candidates() :: p.State() == old(p.State()) && p.isSelected == Encloses(Box(), old(p.Bounds())))
        && selections == Enclosed(Candidates(), old(BoundsOf(Candidates())), Box())
    {
      if !isActive {
        return [];
      }
      size := Size(Abs(origin.x - cursor.x), Abs(origin.y - cursor.y));
      topLeft := Vec(Min(origin.x, cursor.x), Min(origin.y, cursor.y));
      if selectableItems.Some? {
        selections := SelectItems(selectableItems.value, Box());
      } else {
        selections := [];
      }
    }

    /**
     * `endSelect`: deactivate and zero the box. The origin is reset in
     * place, so the Point the caller passed to `beginSelect` becomes (0, 0)
     * too. No candidate's flag changes.
     */
    method EndSelect()
      modifies this, origin
      ensures !isActive && origin == old(origin) && origin.Value() == Vec(0, 0)
      ensures Box() == Rect(0, 0, 0, 0) && selectableItems == old(selectableItems)
    {
      isActive := false;
      origin.Set(0, 0);
      topLeft := Vec(0, 0);
      size := Size(0, 0);
    }
  }
}
