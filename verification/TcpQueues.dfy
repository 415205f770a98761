/**
 The segment queues of a TCP connection: segments wait in one list until they are sent and in the
 other until they are acknowledged, and a retransmission puts all of them back to be sent.
 */
module TcpQueues {
  import opened Bytes
  import opened Tailq
  import opened TcpWindow

  // ---------- subsequences ----------

  function Front<T>(s: seq<T>): seq<T>
    requires s != []
  {
    s[..|s| - 1]
  }

  function End<T>(s: seq<T>): T
    requires s != []
  {
    s[|s| - 1]
  }

  /** `a` is `b` with some elements left out. */
  ghost predicate Sub(a: seq<Segment>, b: seq<Segment>)
    decreases b
  {
    if b == [] then a == [] else Sub(a, Front(b)) || (a != [] && End(a) == End(b) && Sub(Front(a), Front(b)))
  }

  lemma {:induction false} SubEmpty(b: seq<Segment>)
    ensures Sub([], b)
    decreases b
  {
    if b == [] {
    } else {
      SubEmpty(Front(b));
    }
  }

  lemma {:induction false} SubAppend(a: seq<Segment>, b: seq<Segment>, x: Segment)
    requires Sub(a, b)
    ensures Sub(a + [x], b + [x]) && Sub(a, b + [x])
  {
    assert Front(a + [x]) == a && Front(b + [x]) == b;
  }

  lemma {:induction false} SubTrans(a: seq<Segment>, b: seq<Segment>, c: seq<Segment>)
    requires Sub(a, b) && Sub(b, c)
    ensures Sub(a, c)
    decreases |b| + |c|
  {
    if c == [] {
    } else {
      if Sub(b, Front(c)) {
        SubTrans(a, b, Front(c));
      } else if Sub(a, Front(b)) {
        SubTrans(a, Front(b), Front(c));
      } else {
        SubTrans(Front(a), Front(b), Front(c));
      }
    }
  }

  lemma {:induction false} SubBefore(a: seq<Segment>, b: seq<Segment>, t: seq<Segment>)
    requires Sub(a, b)
    ensures Sub(a + t, b + t)
    decreases t
  {
    if t == [] {
      assert a + t == a && b + t == b;
    } else {
      SubBefore(a, b, Front(t));
      SubAppend(a + Front(t), b + Front(t), End(t));
      assert (a + Front(t)) + [End(t)] == a + t && (b + Front(t)) + [End(t)] == b + t;
    }
  }

  lemma {:induction false} SubMembers(a: seq<Segment>, b: seq<Segment>, x: Segment)
    requires Sub(a, b) && x in a
    ensures x in b
    decreases b
  {
    if b == [] {
    } else {
      if Sub(a, Front(b)) {
        SubMembers(a, Front(b), x);
      } else if x != End(a) {
        SubMembers(Front(a), Front(b), x);
      }
    }
  }

  lemma {:induction false} SubRefl(a: seq<Segment>)
    ensures Sub(a, a)
    decreases a
  {
    if a == [] {
    } else {
      SubRefl(Front(a));
    }
  }

  /** Losing one segment keeps the order of the others. */
  lemma {:induction false} LostOne(u: seq<Segment>, e: seq<Segment>, k: nat, all: seq<Segment>)
    requires k < |e| && Sub(u + e, all)
    ensures Sub((u + e[..k]) + e[k + 1..], all) == true
  {
    var a := u + e[..k];
    SubRefl(a);
    SubAppend(a, a, e[k]);
    SubBefore(a, a + [e[k]], e[k + 1..]);
    assert (a + [e[k]]) + e[k + 1..] == u + e;
    SubTrans(a + e[k + 1..], u + e, all);
  }

  /** What acknowledging up to `una` leaves of a list. */
  function Kept(e: seq<Segment>, una: U32): seq<Segment>
  {
    if e == [] then [] else Kept(Front(e), una) + if End(e).seqno < una then [] else [End(e)]
  }

  /** Exactly the segments whose header has the number `una` or a later one. */
  lemma {:induction false} KeptExactly(e: seq<Segment>, una: U32, x: Segment)
    ensures x in Kept(e, una) <==> x in e && x.seqno >= una
    decreases e
  {
    if e == [] {
    } else {
      KeptExactly(Front(e), una, x);
      assert e == Front(e) + [End(e)];
    }
  }

  /** What tcp_ack_segments leaves of the list `e` when `una` was acknowledged before. */
  function Released(e: seq<Segment>, una: U32, ack: U32): seq<Segment>
  {
    if ack <= una then e else Kept(e, ack)
  }

  /** The headers kept with segments have sequence number 0. */
  predicate Unnumbered(e: seq<Segment>)
  {
    forall i :: 0 <= i < |e| ==> e[i].seqno == 0
  }

  lemma {:induction false} SubUnnumbered(a: seq<Segment>, b: seq<Segment>)
    requires Sub(a, b) && Unnumbered(b)
    ensures Unnumbered(a) == true
  {
    forall i | 0 <= i < |a|
      ensures a[i].seqno == 0
    {
      SubMembers(a, b, a[i]);
    }
  }

  lemma {:induction false} KeptSub(e: seq<Segment>, una: U32)
    ensures Sub(Kept(e, una), e)
    decreases e
  {
    if e == [] {
    } else {
      KeptSub(Front(e), una);
      assert Kept(Front(e), una) + [] == Kept(Front(e), una);
      SubAppend(Kept(Front(e), una), Front(e), End(e));
      assert Front(e) + [End(e)] == e;
    }
  }

  // ---------- sequence ranges ----------

  function Total(e: seq<Segment>): nat
  {
    if e == [] then 0 else Total(Front(e)) + End(e).size
  }

  /** A segment on the wire, with the number of its first byte. */
  datatype Sent = Sent(seqno: U32, seg: Segment)

  /** The segments `e` go out in order, in ranges that follow on each other from `from`. */
  predicate Consecutive(wire: seq<Sent>, e: seq<Segment>, from: U32)
  {
    && |wire| == |e|
    && (forall i :: 0 <= i < |e| ==> wire[i].seg == e[i])
    && (wire != [] ==> wire[0].seqno == from)
    && (forall i {:trigger wire[i]} :: 0 < i < |e| ==> wire[i].seqno == Plus(wire[i - 1].seqno, wire[i - 1].seg.size))
  }

  function Following(wire: seq<Sent>, from: U32): U32
  {
    if wire == [] then from else Plus(wire[|wire| - 1].seqno, wire[|wire| - 1].seg.size)
  }

  lemma {:induction false} OneMore(wire: seq<Sent>, e: seq<Segment>, from: U32, k: nat)
    requires k < |e| && Consecutive(wire, e[..k], from)
    ensures var w := wire + [Sent(Following(wire, from), e[k])];
            Consecutive(w, e[..k + 1], from) == true && Following(w, from) == Plus(Following(wire, from), e[k].size)
  {
  }

  class Queues {
    const unsent: SegmentList
    const unacked: SegmentList
    var sendNext: U32
    var sendUna: U32
    var sendMax: U32
    var rexmt: int
    var retranCount: nat
    var locked: bool       // the mutex
    ghost var submitted: seq<Segment>

    ghost predicate Lists()
      reads unsent, unacked, unsent.elems, unacked.elems
    {
      && unsent != unacked && unsent.Valid() == true && unacked.Valid() == true
      && (forall x :: x in unacked.elems ==> x !in unsent.elems)
    }

    /** What still has to get through, in the order it will. */
    ghost function Pending(): seq<Segment>
      reads unsent, unacked
    {
      unacked.elems + unsent.elems
    }

    ghost predicate Valid()
      reads this`submitted, unsent, unacked, unsent.elems, unacked.elems
    {
      Lists() && Distinct(submitted) == true && Sub(Pending(), submitted) == true && Unnumbered(submitted) == true
    }

    ghost function Numbers(): Send
      reads this
    {
      Send(sendNext, sendUna, sendMax)
    }

    /** tcp_connection_init. */
    constructor (iss: U32)
      ensures Valid() && Pending() == [] && submitted == [] && Numbers() == Send(iss, iss, iss) && !locked
    {
      unsent := new SegmentList();
      unacked := new SegmentList();
      sendNext, sendUna, sendMax := iss, iss, iss;
      rexmt, retranCount, locked := 0, 0, false;
      submitted := [];
    }

    /** nstack_tcp_send puts a new segment, whose header gets no sequence number, at the end of the unsent list. */
    method Submit(size: nat) returns (seg: Segment)
      requires Valid() && !locked
      modifies this`submitted, unsent, unsent.elems
      ensures Valid() && fresh(seg) && seg.size == size && seg.seqno == 0
      ensures submitted == old(submitted) + [seg] && Pending() == old(Pending()) + [seg]
      ensures unacked.elems == old(unacked.elems)
    {
      seg := new Segment(size, 0);
      Append(seg);
    }

    method Append(seg: Segment)
      requires Valid() && seg !in submitted && seg.seqno == 0
      modifies this`submitted, unsent, unsent.elems, seg
      ensures Valid() && submitted == old(submitted) + [seg] && Pending() == old(Pending()) + [seg]
      ensures unacked.elems == old(unacked.elems)
    {
      ghost var p, all := Pending(), submitted;
      Outside(seg);
      SubAppend(p, all, seg);
      DistinctMore(all, seg);
      ghost var m := Snap(unacked.elems);
      unsent.InsertTail(seg);
      submitted := all + [seg];
      assert Pending() == p + [seg];
      assert Snap(unacked.elems) == m;
    }

    lemma {:induction false} Outside(seg: Segment)
      requires Sub(Pending(), submitted) && seg !in submitted
      ensures seg !in unsent.elems && seg !in unacked.elems
    {
      if seg in Pending() {
        SubMembers(Pending(), submitted, seg);
      }
    }

    /** What a FOREACH loop reads at the element `k` of a list. */
    lemma {:induction false} Walk(l: SegmentList, k: nat)
      requires l.Valid()
      ensures l.first == At(l.elems, 0)
      ensures k < |l.elems| ==> l.elems[k].next == At(l.elems, k + 1)
    {
      if k < |l.elems| {
        assert Linked(l, Snap(l.elems), l.elems, k);
      }
    }

    /** `segs` are the segments in the lists, and possibly others. */
    ghost predicate Within(segs: set<Segment>)
      reads unsent, unacked
    {
      AllIn(unsent.elems, segs) && AllIn(unacked.elems, segs)
    }

    ghost predicate AllIn(e: seq<Segment>, segs: set<Segment>)
    {
      forall x :: x in e ==> x in segs
    }

    lemma {:induction false} Apart(e: seq<Segment>, f: seq<Segment>, segs: set<Segment>)
      requires e != [] && (forall x :: x in f ==> x !in e) && (forall x :: x in e[1..] ==> x in e)
      requires AllIn(e, segs) && e[0] !in e[1..]
      ensures forall x :: x in f ==> x !in e[1..]
      ensures e[0] !in f && AllIn(e[1..], segs)
    {
    }

    method TakeFirst(seg: Segment, ghost segs: set<Segment>)
      requires Lists() && unsent.elems != [] && seg == unsent.elems[0] && Within(segs)
      modifies unsent, segs
      ensures Lists() && unsent.elems == old(unsent.elems)[1..] && unacked.elems == old(unacked.elems)
      ensures seg !in unsent.elems && seg !in unacked.elems && Within(segs)
    {
      ghost var m, e, f := Snap(unacked.elems), unsent.elems, unacked.elems;
      RestOf(unsent);
      Apart(e, f, segs);
      unsent.Remove(seg, 0);
      assert Snap(unacked.elems) == m;
    }

    lemma {:induction false} RestOf(l: SegmentList)
      requires l.Valid() && l.elems != []
      ensures Without(l.elems, 0) == l.elems[1..] && l.elems[0] !in l.elems[1..]
      ensures forall x :: x in l.elems[1..] ==> x in l.elems
    {
      DistinctLess(l.elems, 0);
    }

    method Await(seg: Segment, ghost segs: set<Segment>)
      requires Lists() && seg !in unsent.elems && seg !in unacked.elems && Within(segs) && seg in segs
      modifies unacked, segs
      ensures Lists() && unsent.elems == old(unsent.elems) && unacked.elems == old(unacked.elems) + [seg]
      ensures Within(segs)
    {
      ghost var m := Snap(unsent.elems);
      unacked.InsertTail(seg);
      assert Snap(unsent.elems) == m;
    }

    /** A FOREACH_SAFE loop over the unsent list `e` has moved its first `k` segments behind those in `u`. */
    ghost predicate Moving(e: seq<Segment>, u: seq<Segment>, k: int, seg: Segment?, segs: set<Segment>)
      reads unsent, unacked, unsent.elems, unacked.elems
    {
      && 0 <= k <= |e| && Lists() && Within(segs)
      && unacked.elems == u + e[..k] && unsent.elems == e[k..] && seg == At(e, k)
    }

    /** As before, but the segment `k` has been taken out and is in neither list. */
    ghost predicate Between(e: seq<Segment>, u: seq<Segment>, k: int, segs: set<Segment>)
      reads unsent, unacked, unsent.elems, unacked.elems
    {
      && 0 <= k < |e| && Lists() && Within(segs)
      && unacked.elems == u + e[..k] && unsent.elems == e[k + 1..]
    }

    method TakeNext(seg: Segment, ghost e: seq<Segment>, ghost u: seq<Segment>, ghost k: int, ghost segs: set<Segment>)
      returns (next: Segment?)
      requires Moving(e, u, k, seg, segs) == true
      modifies unsent, segs
      ensures 0 <= k < |e| && seg == e[k] && next == At(e, k + 1) && Between(e, u, k, segs) == true
      ensures seg !in unsent.elems && seg !in unacked.elems && seg in segs
    {
      Walk(unsent, 0);
      next := seg.next;
      TakeFirst(seg, segs);
    }

    method AwaitNext(seg: Segment, ghost e: seq<Segment>, ghost u: seq<Segment>, ghost k: int, ghost segs: set<Segment>)
      requires Between(e, u, k, segs) == true && 0 <= k < |e| && seg == e[k]
      requires seg !in unsent.elems && seg !in unacked.elems && seg in segs
      modifies unacked, segs
      ensures Moving(e, u, k + 1, At(e, k + 1), segs) == true
    {
      assert (u + e[..k]) + [seg] == u + e[..k + 1];
      Await(seg, segs);
    }

    lemma {:induction false} MovingStart(segs: set<Segment>)
      requires Lists() && Within(segs)
      ensures Moving(unsent.elems, unacked.elems, 0, unsent.first, segs) == true
    {
      Walk(unsent, 0);
      assert unacked.elems + unsent.elems[..0] == unacked.elems;
    }

    lemma {:induction false} MovingEnd(e: seq<Segment>, u: seq<Segment>, segs: set<Segment>)
      requires Moving(e, u, |e|, null, segs) == true
      ensures Lists() == true && Within(segs) == true && unsent.elems == [] && unacked.elems == u + e
    {
      assert e[..|e|] == e;
    }

    // ---------- sending ----------

    /** The first `n` answers of ip_send are good. */
    predicate Good(ok: nat -> bool, n: int)
    {
      forall i: nat :: i < n ==> ok(i)
    }

    /** What has gone out of `e` from the number `from` on, with the numbers after it; send_max was `top`. */
    ghost predicate Numbered(wire: seq<Sent>, e: seq<Segment>, from: U32, top: U32)
      reads this`sendNext, this`sendMax
    {
      && |wire| <= |e| && Consecutive(wire, e[..|wire|], from)
      && sendNext == Following(wire, from) && sendMax == if wire == [] then top else sendNext
    }

    lemma {:induction false} GoodMore(ok: nat -> bool, n: nat)
      requires Good(ok, n) && ok(n)
      ensures Good(ok, n + 1) == true
    {
    }

    ghost predicate AllSent(e: seq<Segment>, u: seq<Segment>)
      reads unsent, unacked
    {
      unsent.elems == [] && unacked.elems == u + e
    }

    /** The segment `k` of `e` is in neither list; those before it wait to be acknowledged, those after are unsent. */
    ghost predicate Lost(e: seq<Segment>, u: seq<Segment>, k: int)
      reads unsent, unacked
    {
      0 <= k < |e| && unacked.elems == u + e[..k] && unsent.elems == e[k + 1..]
    }

    /**
     tcp_send_segments, where `ok` tells which calls of ip_send succeed. The first one that fails ends it: that
     segment is lost, and the mutex stays locked.
     */
    method SendSegments(ok: nat -> bool) returns (r: int, wire: seq<Sent>)
      requires Valid() && !locked
      modifies this`sendNext, this`sendMax, this`locked, unsent, unacked, unsent.elems, unacked.elems
      ensures Valid() && Numbered(wire, old(unsent.elems), old(sendNext), old(sendMax)) == true
      ensures (r == 0 || r == -1) && (locked <==> r == -1)
      ensures r == 0 ==> |wire| == |old(unsent.elems)| && Good(ok, |wire|) == true
      ensures r == 0 ==> AllSent(old(unsent.elems), old(unacked.elems)) == true
      ensures r == -1 ==> |wire| > 0 && Good(ok, |wire| - 1) == true && !ok(|wire| - 1)
      ensures r == -1 ==> Lost(old(unsent.elems), old(unacked.elems), |wire| - 1) == true
    {
      r, wire := SendLocked(ok, unsent.elems, unacked.elems);
    }

    method SendLocked(ok: nat -> bool, ghost e: seq<Segment>, ghost u: seq<Segment>) returns (r: int, wire: seq<Sent>)
      requires Valid() && !locked && e == unsent.elems && u == unacked.elems
      modifies this`sendNext, this`sendMax, this`locked, unsent, unacked, unsent.elems, unacked.elems
      ensures Valid() && Numbered(wire, e, old(sendNext), old(sendMax)) == true
      ensures (r == 0 || r == -1) && (locked <==> r == -1)
      ensures r == 0 ==> |wire| == |e| && Good(ok, |wire|) == true && AllSent(e, u) == true
      ensures r == -1 ==> |wire| > 0 && Good(ok, |wire| - 1) == true && !ok(|wire| - 1)
      ensures r == -1 ==> Lost(e, u, |wire| - 1) == true
    {
      ghost var segs := set x | x in Pending();
      locked := true;
      MovingStart(segs);
      r, wire := SendAll(ok, e, u, segs);
      if r == 0 {
        MovingEnd(e, u, segs);
        assert (u + e) + [] == u + e;
        locked := false;
      } else {
        LostOne(u, e, |wire| - 1, submitted);
      }
    }

    method Emit(seg: Segment, sent: seq<Sent>, ghost e: seq<Segment>, ghost from: U32, ghost top: U32)
      returns (wire: seq<Sent>)
      requires Numbered(sent, e, from, top) && |sent| < |e| && seg == e[|sent|]
      modifies this`sendNext, this`sendMax
      ensures |wire| == |sent| + 1 && Numbered(wire, e, from, top) == true
    {
      OneMore(sent, e, from, |sent|);
      wire := sent + [Sent(sendNext, seg)];
      sendNext := Plus(sendNext, seg.size);
      sendMax := sendNext;
    }

    /** One round of the loop. */
    method SendNext(seg: Segment, sent: seq<Sent>, ok: bool, ghost e: seq<Segment>, ghost u: seq<Segment>,
        ghost from: U32, ghost top: U32, ghost segs: set<Segment>)
      returns (next: Segment?, wire: seq<Sent>)
      requires Moving(e, u, |sent|, seg, segs) == true && Numbered(sent, e, from, top) == true
      modifies this`sendNext, this`sendMax, unsent, unacked, segs
      ensures |wire| == |sent| + 1 <= |e| && Numbered(wire, e, from, top) == true && next == At(e, |wire|)
      ensures ok ==> Moving(e, u, |wire|, next, segs) == true
      ensures !ok ==> Between(e, u, |sent|, segs) == true
    {
      next := TakeNext(seg, e, u, |sent|, segs);
      wire := Emit(seg, sent, e, from, top);
      if ok {
        AwaitNext(seg, e, u, |sent|, segs);
      }
    }

    method SendAll(ok: nat -> bool, ghost e: seq<Segment>, ghost u: seq<Segment>, ghost segs: set<Segment>)
      returns (r: int, wire: seq<Sent>)
      requires Moving(e, u, 0, unsent.first, segs) == true
      modifies this`sendNext, this`sendMax, unsent, unacked, segs
      ensures Numbered(wire, e, old(sendNext), old(sendMax)) == true
      ensures r == 0 ==> |wire| == |e| && Good(ok, |e|) == true && Moving(e, u, |e|, null, segs) == true
      ensures r != 0 ==> r == -1 && |wire| > 0 && Good(ok, |wire| - 1) == true && !ok(|wire| - 1)
      ensures r != 0 ==> Between(e, u, |wire| - 1, segs) == true
    {
      ghost var from, top := sendNext, sendMax;
      wire := [];
      var seg := unsent.first;
      while seg != null
        invariant |wire| <= |e| && Moving(e, u, |wire|, seg, segs) == true && seg == At(e, |wire|)
        invariant Numbered(wire, e, from, top) == true && Good(ok, |wire|) == true
        decreases |e| - |wire|
      {
        var good := ok(|wire|);
        seg, wire := SendNext(seg, wire, good, e, u, from, top, segs);
        if !good {
          return -1, wire;
        }
        GoodMore(ok, |wire| - 1);
      }
      return 0, wire;
    }

    // ---------- retransmission ----------

    method MoveAll(ghost e: seq<Segment>, ghost u: seq<Segment>, ghost segs: set<Segment>)
      requires Moving(e, u, 0, unsent.first, segs) == true
      modifies unsent, unacked, segs
      ensures Moving(e, u, |e|, null, segs) == true
    {
      ghost var k := 0;
      var seg := unsent.first;
      while seg != null
        invariant Moving(e, u, k, seg, segs) == true && 0 <= k <= |e| && seg == At(e, k)
        decreases |e| - k
      {
        var tmp := TakeNext(seg, e, u, k, segs);
        AwaitNext(seg, e, u, k, segs);
        seg := tmp;
        k := k + 1;
      }
    }

    /** tcp_rexmt_prepare: everything outstanding is to be sent again, in the same order. */
    method RexmtPrepare()
      requires Valid() && !locked
      modifies unsent, unacked, unsent.elems, unacked.elems
      ensures Valid() && Pending() == old(Pending()) && unacked.elems == []
    {
      ghost var e, u, segs := unsent.elems, unacked.elems, set x | x in Pending();
      MovingStart(segs);
      MoveAll(e, u, segs);
      MovingEnd(e, u, segs);
      SwapLists(segs);
      assert [] + (u + e) == u + e;
    }

    method SwapLists(ghost segs: set<Segment>)
      requires Lists() == true && Within(segs) == true
      modifies unsent, unacked, segs
      ensures Lists() == true && unsent.elems == old(unacked.elems) && unacked.elems == old(unsent.elems)
    {
      unsent.Swap(unacked);
    }

    /** tcp_rexmt_commit, which ignores whether the sending succeeds. */
    method RexmtCommit(ok: nat -> bool) returns (wire: seq<Sent>)
      requires Valid() && !locked
      modifies this`retranCount, this`sendNext, this`sendMax, this`locked, unsent, unacked, unsent.elems, unacked.elems
      ensures Valid() && retranCount == old(retranCount) + 1
      ensures Numbered(wire, old(unsent.elems), old(sendNext), old(sendMax)) == true
      ensures !locked ==> |wire| == |old(unsent.elems)| && AllSent(old(unsent.elems), old(unacked.elems)) == true
      ensures locked ==> |wire| > 0 && !ok(|wire| - 1)
      ensures locked ==> Lost(old(unsent.elems), old(unacked.elems), |wire| - 1) == true
    {
      retranCount := retranCount + 1;
      var r;
      r, wire := SendSegments(ok);
    }

    // ---------- acknowledgement ----------

    /** A FOREACH_SAFE loop over the unacknowledged list `e` has dealt with its first `k` segments. */
    ghost predicate Releasing(e: seq<Segment>, una: U32, k: int, seg: Segment?, segs: set<Segment>)
      reads unsent, unacked, unsent.elems, unacked.elems
    {
      && 0 <= k <= |e| && Lists() && AllIn(unacked.elems, segs)
      && unacked.elems == Kept(e[..k], una) + e[k..] && seg == At(e, k)
    }

    lemma {:induction false} KeptMore(e: seq<Segment>, una: U32, k: nat)
      requires k < |e|
      ensures Kept(e[..k + 1], una) == Kept(e[..k], una) + if e[k].seqno < una then [] else [e[k]]
      ensures e[k..] == [e[k]] + e[k + 1..]
    {
      assert Front(e[..k + 1]) == e[..k];
    }

    lemma {:induction false} Place(e: seq<Segment>, una: U32, k: nat)
      requires k < |e|
      ensures var l, i := Kept(e[..k], una) + e[k..], |Kept(e[..k], una)|;
              && i < |l| && l[i] == e[k] && At(l, i + 1) == At(e, k + 1)
              && Without(l, i) == Kept(e[..k], una) + e[k + 1..]
              && (forall x :: x in Without(l, i) ==> x in l)
    {
    }

    method Release(seg: Segment, ghost i: nat, ghost segs: set<Segment>)
      requires Lists() && AllIn(unacked.elems, segs) && i < |unacked.elems| && unacked.elems[i] == seg
      modifies unacked, segs
      ensures Lists() && AllIn(unacked.elems, segs) && unsent.elems == old(unsent.elems)
      ensures unacked.elems == Without(old(unacked.elems), i)
    {
      ghost var m := Snap(unsent.elems);
      unacked.Remove(seg, i);
      assert Snap(unsent.elems) == m;
    }

    /** The lists after the segment `k` of `e` has been looked at. */
    lemma {:induction false} StepOver(e: seq<Segment>, una: U32, k: nat, l: seq<Segment>)
      requires k < |e| && l == Kept(e[..k], una) + e[k..]
      ensures var i := |Kept(e[..k], una)|;
              && i < |l| && l[i] == e[k] && At(l, i + 1) == At(e, k + 1) && (forall x :: x in Without(l, i) ==> x in l)
              && (if e[k].seqno < una then Without(l, i) else l) == Kept(e[..k + 1], una) + e[k + 1..]
    {
      Place(e, una, k);
      KeptMore(e, una, k);
    }

    method ReleaseNext(seg: Segment, una: U32, ghost e: seq<Segment>, ghost k: int, ghost segs: set<Segment>)
      returns (next: Segment?)
      requires Releasing(e, una, k, seg, segs) == true
      modifies unacked, segs
      ensures 0 <= k < |e| && Releasing(e, una, k + 1, next, segs) == true && unsent.elems == old(unsent.elems)
    {
      ghost var i := |Kept(e[..k], una)|;
      StepOver(e, una, k, unacked.elems);
      Walk(unacked, i);
      next := seg.next;
      if seg.seqno < una {
        Release(seg, i, segs);
      }
    }

    method ReleaseAll(una: U32, ghost e: seq<Segment>, ghost segs: set<Segment>)
      requires Releasing(e, una, 0, unacked.first, segs) == true
      modifies unacked, segs
      ensures Releasing(e, una, |e|, null, segs) == true && unsent.elems == old(unsent.elems)
    {
      ghost var k := 0;
      var seg := unacked.first;
      while seg != null
        invariant Releasing(e, una, k, seg, segs) == true && 0 <= k <= |e| && seg == At(e, k)
        invariant unsent.elems == old(unsent.elems)
        decreases |e| - k
      {
        seg := ReleaseNext(seg, una, e, k, segs);
        k := k + 1;
      }
    }

    lemma {:induction false} ReleasingStart(una: U32, segs: set<Segment>)
      requires Lists() && AllIn(unacked.elems, segs)
      ensures Releasing(unacked.elems, una, 0, unacked.first, segs) == true
    {
      Walk(unacked, 0);
      assert Kept(unacked.elems[..0], una) + unacked.elems[0..] == unacked.elems;
    }

    lemma {:induction false} ReleasingEnd(e: seq<Segment>, una: U32, segs: set<Segment>)
      requires Releasing(e, una, |e|, null, segs) == true
      ensures Lists() && unacked.elems == Kept(e, una)
    {
      assert e[..|e|] == e && Kept(e, una) + [] == Kept(e, una);
    }

    /** What is left after a release is still in the order of submission. */
    lemma {:induction false} ReleaseKeepsOrder(e: seq<Segment>, una: U32, t: seq<Segment>, all: seq<Segment>)
      requires Sub(e + t, all)
      ensures Sub(Kept(e, una) + t, all) == true
    {
      KeptSub(e, una);
      SubBefore(Kept(e, una), e, t);
      SubTrans(Kept(e, una) + t, e + t, all);
    }

    lemma {:induction false} WaitingUnnumbered()
      requires Valid()
      ensures Unnumbered(unacked.elems) == true
    {
      SubUnnumbered(Pending(), submitted);
      assert forall i :: 0 <= i < |unacked.elems| ==> unacked.elems[i] == Pending()[i];
    }

    /** tcp_ack_segments. */
    method AckSegments(ack: U32, est: int)
      requires Valid() && !locked
      modifies this`sendUna, this`sendNext, this`rexmt, unacked, unacked.elems
      ensures Valid() && Numbers() == AckSend(old(Numbers()), ack) && unsent.elems == old(unsent.elems)
      ensures unacked.elems == Released(old(unacked.elems), old(sendUna), ack)
      ensures ack > old(sendUna) ==> unacked.elems == []
      ensures rexmt == if ack <= old(sendUna) then old(rexmt) else if ack == sendMax then 0 else est
    {
      if ack > sendUna {
        WaitingUnnumbered();
        AnyAckReleasesAll(unacked.elems, ack);
        sendUna := ack;
        Drop(sendUna);
        Rearm(est);
      }
    }

    method Rearm(est: int)
      modifies this`sendNext, this`rexmt
      ensures sendNext == if sendUna == sendMax then old(sendNext) else sendUna
      ensures rexmt == if sendUna == sendMax then 0 else est
    {
      if sendUna == sendMax {
        rexmt := 0;
      } else {
        sendNext := sendUna;
        rexmt := est;
      }
    }

    method Drop(una: U32)
      requires Valid()
      modifies unacked, unacked.elems
      ensures Valid() && unsent.elems == old(unsent.elems) && unacked.elems == Kept(old(unacked.elems), una)
    {
      ghost var e, segs := unacked.elems, set x | x in unacked.elems;
      ReleaseKeepsOrder(e, una, unsent.elems, submitted);
      ReleasingStart(una, segs);
      ReleaseAll(una, e, segs);
      ReleasingEnd(e, una, segs);
    }
  }

  // ---------- what an acknowledgement releases ----------

  lemma {:induction false} AnyAckReleasesAll(e: seq<Segment>, una: U32)
    requires una > 0 && Unnumbered(e)
    ensures Kept(e, una) == []
    decreases e
  {
    if e == [] {
    } else {
      AnyAckReleasesAll(Front(e), una);
    }
  }

  /** The segments of which not every byte is among the first `n` that the list sent. */
  function NotCovered(e: seq<Segment>, n: nat): seq<Segment>
  {
    if e == [] then [] else NotCovered(Front(e), n) + if Total(e) > n then [End(e)] else []
  }

  lemma {:induction false} CoversAll(e: seq<Segment>, n: nat)
    ensures NotCovered(e, n) == [] <==> e == [] || n >= Total(e)
    decreases e
  {
    if e == [] {
    } else {
      CoversAll(Front(e), n);
    }
  }

  lemma {:induction false} CoversNone(e: seq<Segment>, n: nat)
    ensures |NotCovered(e, n)| <= |e| && (NotCovered(e, n) == e <==> e == [] || n < e[0].size)
    ensures e != [] ==> e[0].size <= Total(e)
    decreases e
  {
    if e == [] {
    } else {
      var f := Front(e);
      CoversNone(f, n);
      assert e == f + [End(e)] && (f == [] ==> Total(e) == e[0].size);
      if Total(e) > n {
        assert NotCovered(e, n) == e <==> NotCovered(f, n) == f by {
          assert (NotCovered(f, n) + [End(e)])[..|NotCovered(f, n)|] == NotCovered(f, n) && e[..|f|] == f;
        }
      } else {
        assert |NotCovered(e, n)| < |e|;
      }
    }
  }

  /** The place of a segment in what was sent is the number of bytes before it. */
  lemma {:induction false} RangeOf(wire: seq<Sent>, e: seq<Segment>, from: U32, i: nat)
    requires Consecutive(wire, e, from) && i < |e|
    ensures wire[i].seqno == Plus(from, Total(e[..i]))
    decreases i
  {
    if i == 0 {
      assert Total(e[..0]) == 0;
    } else {
      RangeOf(wire, e, from, i - 1);
      assert Front(e[..i]) == e[..i - 1] && End(e[..i]) == e[i - 1] == wire[i - 1].seg;
      PlusPlus(from, Total(e[..i - 1]), e[i - 1].size);
      assert wire[i].seqno == Plus(wire[i - 1].seqno, wire[i - 1].seg.size);
    }
  }

  /**
   An acknowledgement of the first `n` bytes that a list of segments sent leaves exactly those that it does not
   cover iff the list is empty, or it is taken and covers all of them, or it is not taken and covers none.
   */
  lemma {:induction false} ReleaseExactly(wire: seq<Sent>, e: seq<Segment>, from: U32, una: U32, n: nat)
    requires Unnumbered(e) && Consecutive(wire, e, from)
    ensures var ack := Plus(from, n);
            Released(e, una, ack) == NotCovered(e, n) <==>
              e == [] || if ack > una then n >= Total(e) else n < e[0].size
    ensures forall i :: 0 <= i < |e| ==> wire[i].seqno == Plus(from, Total(e[..i]))
  {
    forall i | 0 <= i < |e|
      ensures wire[i].seqno == Plus(from, Total(e[..i]))
    {
      RangeOf(wire, e, from, i);
    }
    var ack := Plus(from, n);
    if ack > una {
      AnyAckReleasesAll(e, ack);
      CoversAll(e, n);
    } else {
      CoversNone(e, n);
    }
  }

  /** Two segments of 1000 bytes, sent from number 1 on: the acknowledgement of the first releases both. */
  lemma {:induction false} FirstAckReleasesBoth(x: Segment, y: Segment)
    requires x.size == y.size == 1000 && x.seqno == y.seqno == 0
    ensures Consecutive([Sent(1, x), Sent(1001, y)], [x, y], 1)
    ensures Released([x, y], 1, 1001) == [] && NotCovered([x, y], 1000) == [y]
  {
    assert Front([x, y]) == [x] && End([x, y]) == y && Front([x]) == [] && End([x]) == x;
    AnyAckReleasesAll([x, y], 1001);
    assert Total([]) == 0 && Total([x]) == 1000 && Total([x, y]) == 2000;
    assert NotCovered([x], 1000) == NotCovered([], 1000) == [];
  }
}
