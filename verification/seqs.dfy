/**
 * Sequence operations behind the ordered collections of the core: the
 * insertion order of a JavaScript `Map` and the child list of a PixiJS
 * `Container`.
 */
module Seqs {

  predicate Distinct<T(==)>(s: seq<T>) {
    forall i, j :: 0 <= i < j < |s| ==> s[i] != s[j]
  }

  /** The members of `s`, as a set. */
  function Elems<T>(s: seq<T>): set<T> {
    set x | x in s
  }

  /** `s` without its first occurrence of `x` (`Map.delete`, `removeItems`). */
  function Remove<T(==)>(s: seq<T>, x: T): (r: seq<T>)
    ensures x in s ==> |r| == |s| - 1
    ensures x !in s ==> r == s
    ensures forall y :: y in r ==> y in s
    ensures forall y :: y in s && y != x ==> y in r
  {
    if s == [] then []
    else if s[0] == x then s[1..]
    else [s[0]] + Remove(s[1..], x)
  }

  /** The tail of a sequence without repetitions has none either, and lacks the head. */
  lemma DistinctTail<T>(s: seq<T>)
    requires Distinct(s) && s != []
    ensures Distinct(s[1..]) && s[0] !in s[1..]
  {
    forall i, j | 0 <= i < j < |s| - 1 ensures s[1..][i] != s[1..][j] {
      assert s[1..][i] == s[i + 1] && s[1..][j] == s[j + 1];
    }
    forall k | 0 <= k < |s| - 1 ensures s[1..][k] != s[0] {
      assert s[1..][k] == s[k + 1];
    }
  }

  /** Removing from a sequence without repetitions removes the element entirely. */
  lemma {:induction false} RemoveDistinct<T>(s: seq<T>, x: T)
    requires Distinct(s)
    ensures Distinct(Remove(s, x)) && x !in Remove(s, x)
  {
    if s == [] {
    } else if s[0] == x {
      DistinctTail(s);
    } else {
      DistinctTail(s);
      RemoveDistinct(s[1..], x);
      var r := Remove(s[1..], x);
      assert s[0] !in r;
      assert Remove(s, x) == [s[0]] + r;
      forall i, j | 0 <= i < j < |[s[0]] + r| ensures ([s[0]] + r)[i] != ([s[0]] + r)[j] {
        if i == 0 {
          assert ([s[0]] + r)[j] == r[j - 1];
        }
      }
    }
  }

  lemma {:induction false} RemoveInPrefix<T>(a: seq<T>, b: seq<T>, x: T)
    requires x in a
    ensures Remove(a + b, x) == Remove(a, x) + b
  {
    if a[0] == x {
      assert (a + b)[1..] == a[1..] + b;
    } else {
      RemoveInPrefix(a[1..], b, x);
      assert (a + b)[1..] == a[1..] + b;
    }
  }

  lemma {:induction false} RemoveInSuffix<T>(a: seq<T>, b: seq<T>, x: T)
    requires x !in a
    ensures Remove(a + b, x) == a + Remove(b, x)
  {
    if a == [] {
      assert a + b == b;
    } else {
      assert (a + b)[1..] == a[1..] + b;
      RemoveInSuffix(a[1..], b, x);
      assert a == [a[0]] + a[1..];
      ConcatAssoc([a[0]], a[1..], Remove(b, x));
    }
  }

  lemma ConcatAssoc<T>(a: seq<T>, b: seq<T>, c: seq<T>)
    ensures a + b + c == a + (b + c)
  {
  }

  /**
   * PixiJS `Container.setChildIndex`: take the child out of the list, then
   * insert it so that it ends up at `index`.
   */
  function SetChildIndex<T(==)>(children: seq<T>, child: T, index: int): (r: seq<T>)
    requires child in children
    requires 0 <= index < |children|
    ensures |r| == |children| && r[index] == child
  {
    var rest := Remove(children, child);
    rest[..index] + [child] + rest[index..]
  }

  /** Where each child sits after `SetChildIndex`: the moved child at `index`, the rest around it in order. */
  lemma SetChildIndexAt<T>(children: seq<T>, child: T, index: int)
    requires child in children
    requires 0 <= index < |children|
    ensures var rest := Remove(children, child);
      forall i | 0 <= i < |children| :: SetChildIndex(children, child, index)[i] ==
        if i < index then rest[i] else if i == index then child else rest[i - 1]
  {
    var rest := Remove(children, child);
    var r := rest[..index] + [child] + rest[index..];
    assert SetChildIndex(children, child, index) == r;
    forall i | 0 <= i < |children|
      ensures r[i] == if i < index then rest[i] else if i == index then child else rest[i - 1]
    {
      if i < index {
        assert r[i] == rest[..index][i];
      } else if i > index {
        assert r[i] == rest[index..][i - index - 1];
      }
    }
  }

  /** Moving a child of a list without repetitions leaves it without repetitions. */
  lemma SetChildIndexDistinct<T>(children: seq<T>, child: T, index: int)
    requires Distinct(children) && child in children
    requires 0 <= index < |children|
    ensures Distinct(SetChildIndex(children, child, index))
  {
    var rest := Remove(children, child);
    RemoveDistinct(children, child);
    SetChildIndexAt(children, child, index);
    var r := SetChildIndex(children, child, index);
    forall i, j | 0 <= i < j < |r| ensures r[i] != r[j] {
      var i' := if i < index then i else i - 1;
      var j' := if j < index then j else j - 1;
      if i == index {
        assert r[j] == rest[j'];
      } else if j == index {
        assert r[i] == rest[i'];
      } else {
        assert r[i] == rest[i'] && r[j] == rest[j'] && i' < j';
      }
    }
  }

  /** Taking the moved child out again gives the list without it, as before the move. */
  lemma SetChildIndexRemove<T>(children: seq<T>, child: T, index: int)
    requires Distinct(children) && child in children
    requires 0 <= index < |children|
    ensures Remove(SetChildIndex(children, child, index), child) == Remove(children, child)
  {
    var rest := Remove(children, child);
    RemoveDistinct(children, child);
    assert rest == rest[..index] + rest[index..];
    assert child !in rest[..index];
    RemoveInSuffix(rest[..index], [child] + rest[index..], child);
    ConcatAssoc(rest[..index], [child], rest[index..]);
  }

  /** Moving a child neither adds nor loses a child. */
  lemma SetChildIndexMembers<T>(children: seq<T>, child: T, index: int)
    requires child in children
    requires 0 <= index < |children|
    ensures forall y :: y in SetChildIndex(children, child, index) <==> y in children
  {
    var rest := Remove(children, child);
    var r := SetChildIndex(children, child, index);
    SetChildIndexAt(children, child, index);
    forall y | y in children ensures y in r {
      if y != child {
        var m :| 0 <= m < |rest| && rest[m] == y;
        if m < index {
          assert r[m] == y;
        } else {
          assert r[m + 1] == y;
        }
      }
    }
    forall y | y in r ensures y in children {
      var i :| 0 <= i < |r| && r[i] == y;
      if i != index {
        assert y in rest;
      }
    }
  }

  /**
   * Moving a child changes its own slot and nothing else: the other
   * children keep their relative order, and no child is duplicated or lost.
   */
  lemma SetChildIndexMovesOnlyChild<T>(children: seq<T>, child: T, index: int)
    requires Distinct(children) && child in children
    requires 0 <= index < |children|
    ensures Distinct(SetChildIndex(children, child, index))
    ensures Remove(SetChildIndex(children, child, index), child) == Remove(children, child)
    ensures forall y :: y in SetChildIndex(children, child, index) ==> y in children
    ensures forall y :: y in children ==> y in SetChildIndex(children, child, index)
  {
    SetChildIndexDistinct(children, child, index);
    SetChildIndexRemove(children, child, index);
    SetChildIndexMembers(children, child, index);
  }

  /** The elements of `s` that are in `keep`, in their order in `s`. */
  function Keep<T>(s: seq<T>, keep: set<T>): (r: seq<T>)
    ensures |r| <= |s|
    ensures forall y :: y in r ==> y in s && y in keep
    ensures forall y :: y in s && y in keep ==> y in r
  {
    if s == [] then []
    else (if s[0] in keep then [s[0]] else []) + Keep(s[1..], keep)
  }

  /** The elements of `s` that are not in `drop`, in their order in `s`. */
  function Drop<T>(s: seq<T>, drop: set<T>): (r: seq<T>)
    ensures |r| <= |s|
    ensures forall y :: y in r ==> y in s && y !in drop
    ensures forall y :: y in s && y !in drop ==> y in r
  {
    if s == [] then []
    else (if s[0] in drop then [] else [s[0]]) + Drop(s[1..], drop)
  }

  lemma {:induction false} KeepDistinct<T>(s: seq<T>, keep: set<T>)
    requires Distinct(s)
    ensures Distinct(Keep(s, keep))
  {
    if s != [] {
      DistinctTail(s);
      KeepDistinct(s[1..], keep);
    }
  }

  lemma {:induction false} DropDistinct<T>(s: seq<T>, drop: set<T>)
    requires Distinct(s)
    ensures Distinct(Drop(s, drop))
  {
    if s != [] {
      DistinctTail(s);
      DropDistinct(s[1..], drop);
    }
  }

  /** Dropping the same members of `s` gives the same sequence, whatever else the sets hold. */
  lemma {:induction false} DropAgree<T>(s: seq<T>, a: set<T>, b: set<T>)
    requires forall y :: y in s ==> (y in a <==> y in b)
    ensures Drop(s, a) == Drop(s, b)
  {
    if s != [] {
      DropAgree(s[1..], a, b);
    }
  }

  /** Dropping nothing keeps the whole sequence. */
  lemma {:induction false} DropNothing<T>(s: seq<T>)
    ensures Drop(s, {}) == s
  {
    if s != [] {
      DropNothing(s[1..]);
    }
  }

  /** Dropping one more member `x` of a sequence without repetitions is removing `x`. */
  lemma {:induction false} DropOneMore<T>(s: seq<T>, dropped: set<T>, x: T)
    requires Distinct(s) && x in s && x !in dropped
    ensures Remove(Drop(s, dropped), x) == Drop(s, dropped + {x})
  {
    DistinctTail(s);
    if s[0] == x {
      DropAgree(s[1..], dropped, dropped + {x});
    } else {
      DropOneMore(s[1..], dropped, x);
      if s[0] in dropped {
        assert Drop(s, dropped) == Drop(s[1..], dropped);
      } else {
        assert Drop(s, dropped) == [s[0]] + Drop(s[1..], dropped);
      }
    }
  }

  /**
   * One step of lifting a set of children to the top: when the children
   * not yet lifted sit below the lifted block `top` in their original order,
   * moving one more child `x` to the slot just below `top` keeps that shape.
   */
  lemma LiftStep<T>(orig: seq<T>, lifted: set<T>, top: seq<T>, x: T)
    requires Distinct(orig) && x in orig && x !in lifted
    ensures x in Drop(orig, lifted) + top
    ensures |Drop(orig, lifted)| >= 1
    ensures SetChildIndex(Drop(orig, lifted) + top, x, |Drop(orig, lifted)| - 1)
         == Drop(orig, lifted + {x}) + [x] + top
  {
    var below := Drop(orig, lifted);
    assert x in below;
    RemoveInPrefix(below, top, x);
    DropOneMore(orig, lifted, x);
    var rest := Remove(below + top, x);
    assert rest == Drop(orig, lifted + {x}) + top;
    var i := |below| - 1;
    assert rest[..i] == Drop(orig, lifted + {x});
    assert rest[i..] == top;
  }

  /** `s` back to front. */
  function Reverse<T>(s: seq<T>): (r: seq<T>)
    ensures |r| == |s|
    ensures forall i :: 0 <= i < |s| ==> r[i] == s[|s| - 1 - i]
  {
    if s == [] then [] else [s[|s| - 1]] + Reverse(s[..|s| - 1])
  }

  /** Reversing twice gives the sequence back. */
  lemma ReverseReverse<T>(s: seq<T>)
    ensures Reverse(Reverse(s)) == s
  {
    var r := Reverse(Reverse(s));
    assert |r| == |s|;
    forall i | 0 <= i < |s| ensures r[i] == s[i] {
      assert r[i] == Reverse(s)[|s| - 1 - i];
    }
  }

  /** The position of the first occurrence of `x` in `s` (`getChildIndex`). */
  function IndexOf<T(==)>(s: seq<T>, x: T): (i: nat)
    requires x in s
    ensures i < |s| && s[i] == x && x !in s[..i]
  {
    if s[0] == x then 0 else 1 + IndexOf(s[1..], x)
  }

  lemma IndexOfTail<T>(s: seq<T>, y: T)
    requires |s| > 0 && y in s[1..] && y != s[0]
    ensures IndexOf(s, y) == 1 + IndexOf(s[1..], y)
  {
  }

  /** `Keep` preserves order, one pair at a time. */
  lemma {:induction false} KeepOrderedPair<T>(s: seq<T>, keep: set<T>, i: nat, j: nat)
    requires Distinct(s) && i < j < |Keep(s, keep)|
    ensures IndexOf(s, Keep(s, keep)[i]) < IndexOf(s, Keep(s, keep)[j])
  {
    var k := Keep(s, keep);
    var t := Keep(s[1..], keep);
    DistinctTail(s);
    if s[0] in keep {
      assert k == [s[0]] + t;
      assert k[j] == t[j - 1] && k[j] in s[1..];
      IndexOfTail(s, k[j]);
      if i > 0 {
        assert k[i] == t[i - 1];
        KeepOrderedPair(s[1..], keep, i - 1, j - 1);
        IndexOfTail(s, k[i]);
        assert IndexOf(s, k[i]) < IndexOf(s, k[j]);
      } else {
        assert IndexOf(s, k[i]) < IndexOf(s, k[j]);
      }
    } else {
      assert k == t;
      assert k[i] in s[1..] && k[j] in s[1..];
      KeepOrderedPair(s[1..], keep, i, j);
      IndexOfTail(s, k[i]);
      IndexOfTail(s, k[j]);
      assert IndexOf(s, k[i]) < IndexOf(s, k[j]);
    }
  }

  /** `Keep` preserves order: its elements sit at increasing positions of `s`. */
  lemma KeepOrdered<T>(s: seq<T>, keep: set<T>)
    requires Distinct(s)
    ensures forall i, j :: 0 <= i < j < |Keep(s, keep)| ==> IndexOf(s, Keep(s, keep)[i]) < IndexOf(s, Keep(s, keep)[j])
  {
    forall i, j | 0 <= i < j < |Keep(s, keep)|
      ensures IndexOf(s, Keep(s, keep)[i]) < IndexOf(s, Keep(s, keep)[j])
    {
      KeepOrderedPair(s, keep, i, j);
    }
  }

  /** Reversing keeps the members, and keeps them free of repetitions. */
  lemma ReverseMembers<T>(s: seq<T>)
    ensures forall y :: y in Reverse(s) <==> y in s
    ensures Distinct(s) ==> Distinct(Reverse(s))
  {
    var r := Reverse(s);
    forall y | y in r ensures y in s {
      var i :| 0 <= i < |r| && r[i] == y;
      assert s[|s| - 1 - i] == y;
    }
    forall y | y in s ensures y in r {
      var i :| 0 <= i < |s| && s[i] == y;
      assert r[|s| - 1 - i] == y;
    }
    if Distinct(s) {
      forall i, j | 0 <= i < j < |r| ensures r[i] != r[j] {
        assert r[i] == s[|s| - 1 - i] && r[j] == s[|s| - 1 - j];
      }
    }
  }

  /** Among the members of `s`, those kept and then reversed are exactly those in `keep`. */
  lemma ReverseKeepMembers<T>(s: seq<T>, keep: set<T>)
    ensures forall y | y in s :: y in Elems(Reverse(Keep(s, keep))) <==> y in keep
  {
    var kept := Keep(s, keep);
    ReverseMembers(kept);
    forall y | y in s
      ensures y in Elems(Reverse(kept)) <==> y in keep
    {
      assert y in Reverse(kept) <==> y in kept;
    }
  }

  /** Moving a child to the last slot is taking it out and appending it. */
  lemma SetChildIndexTop<T>(children: seq<T>, child: T)
    requires child in children
    ensures SetChildIndex(children, child, |children| - 1) == Remove(children, child) + [child]
  {
    var rest := Remove(children, child);
    assert rest[..|children| - 1] == rest;
    assert rest[|children| - 1..] == [];
  }
}
