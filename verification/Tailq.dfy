/**
 The doubly linked tail queue of src/collection.h, on the segments it links in the TCP code.

 An element's tqe_prev and a head's tqh_last are addresses of next pointers, either that in an
 element or the one in a head. `Loc` is such an address.
 */
module Tailq {
  import opened Bytes

  class Segment {
    const size: nat
    const seqno: U32    // in the header kept with the segment
    var next: Segment?
    var prev: Loc

    constructor (size: nat, seqno: U32)
      ensures this.size == size && this.seqno == seqno
    {
      this.size := size;
      this.seqno := seqno;
      next := null;
      prev := Nowhere;
    }
  }

  datatype Loc = Nowhere | InHead(h: SegmentList) | InElem(e: Segment)

  /** The link fields of one element. */
  datatype Link = Link(next: Segment?, prev: Loc)

  type Links = map<Segment, Link>

  ghost function Snap(e: seq<Segment>): Links
    reads e
  {
    map x | x in e :: Link(x.next, x.prev)
  }

  ghost predicate Distinct(s: seq<Segment>)
  {
    forall i, j :: 0 <= i < j < |s| ==> s[i] != s[j]
  }

  function Without<T>(s: seq<T>, k: nat): seq<T>
    requires k < |s|
  {
    s[..k] + s[k + 1..]
  }

  function At(s: seq<Segment>, i: int): Segment?
  {
    if 0 <= i < |s| then s[i] else null
  }

  /** Where the pointer to the element at `i` of a list is kept. */
  function Before(h: SegmentList, s: seq<Segment>, i: int): Loc
  {
    if 1 <= i <= |s| then InElem(s[i - 1]) else InHead(h)
  }

  ghost predicate Linked(h: SegmentList, m: Links, e: seq<Segment>, i: int)
    requires 0 <= i < |e|
  {
    e[i] in m && m[e[i]].next == At(e, i + 1) && m[e[i]].prev == Before(h, e, i)
  }

  /** The links spell out `e` in both directions. */
  ghost predicate Chain(h: SegmentList, first: Segment?, last: Loc, m: Links, e: seq<Segment>)
  {
    && Distinct(e)
    && first == At(e, 0)
    && last == Before(h, e, |e|)
    && forall i :: 0 <= i < |e| ==> Linked(h, m, e, i)
  }

  /** The links after `*loc = v`. */
  function Assigned(m: Links, loc: Loc, v: Segment?): Links
  {
    if loc.InElem? && loc.e in m then m[loc.e := m[loc.e].(next := v)] else m
  }

  function AssignedFirst(first: Segment?, loc: Loc, v: Segment?): Segment?
  {
    if loc.InHead? then v else first
  }

  lemma {:induction false} DistinctMore(e: seq<Segment>, x: Segment)
    requires Distinct(e) && x !in e
    ensures Distinct(e + [x])
  {
  }

  lemma {:induction false} AppendChain(h: SegmentList, first: Segment?, last: Loc, m: Links, e: seq<Segment>,
      x: Segment)
    requires Chain(h, first, last, m, e) && x !in e
    ensures Chain(h, AssignedFirst(first, last, x), InElem(x), Assigned(m[x := Link(null, last)], last, x), e + [x])
  {
    var m', e' := Assigned(m[x := Link(null, last)], last, x), e + [x];
    DistinctMore(e, x);
    forall i | 0 <= i < |e'|
      ensures Linked(h, m', e', i)
    {
      if i < |e| {
        assert Linked(h, m, e, i) && e[i] != x;
        if i < |e| - 1 {
          assert e[i] != e[|e| - 1];
        }
      } else {
        assert |e| > 0 ==> e[|e| - 1] in e;
      }
    }
  }

  /** The links after an element with the links `was` has been cut out. */
  function CutLinks(m: Links, was: Link): Links
  {
    var m1 := if was.next != null && was.next in m then m[was.next := m[was.next].(prev := was.prev)] else m;
    Assigned(m1, was.prev, was.next)
  }

  lemma {:induction false} DistinctLess(e: seq<Segment>, k: nat)
    requires Distinct(e) && k < |e|
    ensures Distinct(Without(e, k)) && e[k] !in Without(e, k)
  {
    var e' := Without(e, k);
    forall i | 0 <= i < |e'|
      ensures e'[i] == e[if i < k then i else i + 1] && e'[i] != e[k]
    {
    }
  }

  lemma {:induction false} CutFields(h: SegmentList, m: Links, e: seq<Segment>, k: nat, i: nat)
    requires Distinct(e) && k < |e| && i < |e| && i != k && e[k] in m
    requires forall j :: 0 <= j < |e| ==> Linked(h, m, e, j)
    ensures var m' := CutLinks(m, m[e[k]]);
            && e[i] in m'
            && m'[e[i]].next == (if i + 1 == k then At(e, k + 1) else At(e, i + 1))
            && m'[e[i]].prev == (if i == k + 1 then Before(h, e, k) else Before(h, e, i))
  {
    assert Linked(h, m, e, k) && Linked(h, m, e, i);
    assert k + 1 < |e| ==> Linked(h, m, e, k + 1);
    assert k > 0 ==> Linked(h, m, e, k - 1);
  }

  lemma {:induction false} CutChain(h: SegmentList, first: Segment?, last: Loc, m: Links, e: seq<Segment>, k: nat)
    requires Chain(h, first, last, m, e) && k < |e|
    ensures e[k] in m
    ensures var was := m[e[k]];
            Chain(h, AssignedFirst(first, was.prev, was.next), if was.next == null then was.prev else last,
                  CutLinks(m, was), Without(e, k))
  {
    assert Linked(h, m, e, k);
    var m', e' := CutLinks(m, m[e[k]]), Without(e, k);
    DistinctLess(e, k);
    forall i | 0 <= i < |e'|
      ensures Linked(h, m', e', i)
    {
      CutFields(h, m, e, k, if i < k then i else i + 1);
    }
  }

  lemma {:induction false} SameChain(h: SegmentList, first: Segment?, last: Loc, m: Links, m': Links, e: seq<Segment>)
    requires Chain(h, first, last, m, e) && forall x :: x in e && x in m ==> x in m' && m'[x] == m[x]
    ensures Chain(h, first, last, m', e)
  {
    forall i | 0 <= i < |e|
      ensures Linked(h, m', e, i)
    {
      assert Linked(h, m, e, i) && e[i] in e;
    }
  }

  /** The links after the first element has been given to another head. */
  function Rehead(m: Links, first: Segment?, h: SegmentList): Links
  {
    if first != null && first in m then m[first := m[first].(prev := InHead(h))] else m
  }

  lemma {:induction false} ReheadChain(h: SegmentList, h': SegmentList, first: Segment?, last: Loc, m: Links,
      e: seq<Segment>)
    requires Chain(h, first, last, m, e)
    ensures Chain(h', first, if first == null then InHead(h') else last, Rehead(m, first, h'), e)
  {
    var m' := Rehead(m, first, h');
    forall i | 0 <= i < |e|
      ensures Linked(h', m', e, i)
    {
      assert Linked(h, m, e, i) && Linked(h, m, e, 0);
      assert i > 0 ==> e[i] != e[0];
    }
  }

  class SegmentList {
    var first: Segment?
    var last: Loc
    ghost var elems: seq<Segment>

    ghost predicate Valid()
      reads this, elems
    {
      Chain(this, first, last, Snap(elems), elems) == true
    }

    constructor ()
      ensures Valid() && elems == []
    {
      first := null;
      last := InHead(this);
      elems := [];
    }

    /** `*loc = v`, for a pointer of this list or of one of the elements `e`. */
    method Assign(loc: Loc, v: Segment?, ghost e: seq<Segment>)
      requires loc == InHead(this) || (loc.InElem? && loc.e in e)
      modifies this`first, e
      ensures first == AssignedFirst(old(first), loc, v) && Snap(e) == Assigned(old(Snap(e)), loc, v)
    {
      match loc {
        case InElem(x) => x.next := v;
        case InHead(h) => first := v;
      }
    }

    method InsertTail(elm: Segment)
      requires Valid() && elm !in elems
      modifies this, elems, elm
      ensures Valid() && elems == old(elems) + [elm]
    {
      ghost var m, e := Snap(elems), elems;
      AppendChain(this, first, last, m, e, elm);
      elm.next := null;
      elm.prev := last;
      ghost var all := e + [elm];
      assert Snap(all) == m[elm := Link(null, last)];
      LastInside(e, elm);
      Assign(last, elm, all);
      last := InElem(elm);
      elems := all;
    }

    lemma {:induction false} LastInside(e: seq<Segment>, x: Segment)
      requires last == Before(this, e, |e|)
      ensures last == InHead(this) || (last.InElem? && last.e in e + [x])
    {
    }

    method Unlink(elm: Segment, ghost e: seq<Segment>)
      requires elm in e && (elm.next != null ==> elm.next in e && elm.next != elm)
      requires elm.prev == InHead(this) || (elm.prev.InElem? && elm.prev.e in e && elm.prev.e != elm)
      modifies this`first, this`last, e
      ensures Snap(e) == CutLinks(old(Snap(e)), old(Snap(e)[elm]))
      ensures first == AssignedFirst(old(first), old(elm.prev), old(elm.next))
      ensures last == if old(elm.next) == null then old(elm.prev) else old(last)
    {
      ghost var m, was := Snap(e), Snap(e)[elm];
      if elm.next != null {
        elm.next.prev := elm.prev;
      } else {
        last := elm.prev;
      }
      assert Snap(e) == if was.next != null && was.next in m then m[was.next := m[was.next].(prev := was.prev)] else m;
      Assign(elm.prev, elm.next, e);
    }

    lemma {:induction false} Neighbours(m: Links, e: seq<Segment>, k: nat)
      requires Chain(this, first, last, m, e) && k < |e|
      ensures e[k] in m && e[k] in e && (m[e[k]].next != null ==> m[e[k]].next in e && m[e[k]].next != e[k])
      ensures var p := m[e[k]].prev; p == InHead(this) || (p.InElem? && p.e in e && p.e != e[k])
    {
      assert Linked(this, m, e, k);
      assert k + 1 < |e| ==> e[k + 1] in e;
      assert k > 0 ==> e[k - 1] in e;
    }

    method Remove(elm: Segment, ghost k: nat)
      requires Valid() && k < |elems| && elems[k] == elm
      modifies this, elems
      ensures Valid() && elems == Without(old(elems), k)
    {
      ghost var m, e := Snap(elems), elems;
      CutChain(this, first, last, m, e, k);
      Neighbours(m, e, k);
      Unlink(elm, e);
      elems := Without(e, k);
      SameChain(this, first, last, Snap(e), Snap(elems), elems);
    }

    /** Gives the elements of the head `h`, whose fields have been copied here, to this head. */
    method Adopt(ghost h: SegmentList, ghost e: seq<Segment>)
      requires Chain(h, first, last, Snap(e), e) == true
      modifies this`last, e
      ensures Chain(this, first, last, Snap(e), e) == true
    {
      ghost var m := Snap(e);
      ReheadChain(h, this, first, last, m, e);
      if first != null {
        assert first == e[0];
        first.prev := InHead(this);
      } else {
        last := InHead(this);
      }
      assert Snap(e) == Rehead(m, first, this);
    }

    ghost method Hold(e: seq<Segment>)
      requires Chain(this, first, last, Snap(e), e) == true
      modifies this`elems
      ensures Valid() && elems == e
    {
      elems := e;
    }

    method Exchange(other: SegmentList)
      requires this != other
      modifies this`first, this`last, other`first, other`last
      ensures first == old(other.first) && last == old(other.last)
      ensures other.first == old(first) && other.last == old(last)
    {
      var swapFirst := first;
      var swapLast := last;
      first := other.first;
      last := other.last;
      other.first := swapFirst;
      other.last := swapLast;
    }

    method Swap(other: SegmentList)
      requires this != other && Valid() && other.Valid() && (forall x :: x in elems ==> x !in other.elems)
      modifies this, other, elems, other.elems
      ensures Valid() && other.Valid() && elems == old(other.elems) && other.elems == old(elems)
    {
      ghost var e1, e2, m1 := elems, other.elems, Snap(elems);
      Exchange(other);
      Adopt(other, e2);
      assert Snap(e1) == m1;
      ghost var m2 := Snap(e2);
      other.Adopt(this, e1);
      assert Snap(e2) == m2;
      Hold(e2);
      other.Hold(e1);
    }
  }
}
