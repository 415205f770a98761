/**
 The queue of deferred transmissions of src/ip_defer.c: packets wait in a ring of slots until the
 handler gets them out with ip_send of src/ip.c, and the handler gives up on a packet after a few tries.

 What ip_send finds out from the routing table, the ARP cache and the device is an arbitrary `Net`.
 */
module DeferQueue {
  import opened Bytes

  const SLOTS: nat := 20
  const DATA_MAX := 65515

  const EALREADY := 114
  const ENOBUFS := 105
  const EMSGSIZE := 90
  const EHOSTUNREACH := 113
  const ETHER_DATA_LEN := 1500
  const ETHER_HEADER_LEN := 14
  const ETHER_FCS_LEN := 4
  const ETHER_MINLEN := 60
  const ETHER_MAXLEN := 1514
  const IP_HEADER_LEN := 20

  datatype Packet = Packet(dst: U32, proto: Byte, data: seq<Byte>)

  datatype Entry = Entry(tries: nat, pkt: Packet)

  /**
   What one call of ip_send meets: whether there is a route, whether the hardware address is known, the
   errno of the ARP cache if not; then errno when the packet is made, and what sendto or ip_send_fragments answers,
   an errno negated on failure.
   */
  datatype Net = Net(routed: bool, resolved: bool, arpErrno: int, errno: int, sent: int)

  /** The answer of ip_send, and errno after it. */
  datatype Reply = Reply(ret: int, errno: int)

  /** What ip_defer_push answers about `size` bytes when `n` packets are waiting. */
  function PushAnswer(inhibit: bool, n: nat, size: nat): int
  {
    if inhibit then -EALREADY else if n == SLOTS - 1 then -ENOBUFS else if size > DATA_MAX then -EMSGSIZE else 0
  }

  /** The length of the Ethernet frame for `n` bytes. */
  function FrameSize(n: nat): nat
  {
    ETHER_HEADER_LEN + (if n > ETHER_MINLEN - ETHER_FCS_LEN then n else ETHER_MINLEN - ETHER_FCS_LEN) + ETHER_FCS_LEN
  }

  /** ether_send of `n` bytes: a frame that is too long is refused, and errno stays what it was. */
  function EtherSent(n: nat, errno: int, sent: int): Reply
  {
    if FrameSize(n) > ETHER_MAXLEN + ETHER_FCS_LEN then Reply(-EMSGSIZE, errno)
    else Reply(sent, if sent < 0 then -sent else errno)
  }

  function Replied(net: Net, size: nat, push: int): Reply
  {
    if !net.routed then Reply(-1, EHOSTUNREACH)
    else if !net.resolved then
      if net.arpErrno != EHOSTUNREACH || push == 0 || push == -EALREADY then Reply(0, net.arpErrno)
      else Reply(-1, -push)
    else if size <= ETHER_DATA_LEN then EtherSent(IP_HEADER_LEN + size, net.errno, net.sent)
    else if net.sent < 0 then Reply(-1, -net.sent)
    else Reply(net.sent, net.errno)
  }

  /** The handler comes back to the packet later. */
  predicate Retries(net: Net, size: nat)
  {
    var reply := Replied(net, size, -EALREADY);
    reply.ret == -1 && reply.errno == EHOSTUNREACH
  }

  // ---------- the queue as a value ----------

  /** The queue after a call of the handler whose attempts are answered from the `k`-th answer on. */
  function Handled(q: seq<Entry>, ans: nat -> Net, k: nat): (r: seq<Entry>)
    ensures |r| <= |q|
    decreases |q|
  {
    if q == [] then []
    else if q[0].tries > 3 then Handled(q[1..], ans, k)
    else if Retries(ans(k), |q[0].pkt.data|) then [q[0].(tries := q[0].tries + 2)] + q[1..]
    else Handled(q[1..], ans, k + 1)
  }

  /** The numbers of those packets that the call hands to ip_send, when the first in the queue has number `id`. */
  function Attempts(q: seq<Entry>, id: nat, ans: nat -> Net, k: nat): seq<nat>
    decreases |q|
  {
    if q == [] then []
    else if q[0].tries > 3 then Attempts(q[1..], id + 1, ans, k)
    else if Retries(ans(k), |q[0].pkt.data|) then [id]
    else [id] + Attempts(q[1..], id + 1, ans, k + 1)
  }

  /** One round of the handler's loop makes `r` of `q`. */
  predicate RoundOf(q: seq<Entry>, net: Net, stop: bool, sent: bool, r: seq<Entry>)
  {
    if q == [] then stop && !sent && r == []
    else if q[0].tries > 3 then !stop && !sent && r == q[1..]
    else if Retries(net, |q[0].pkt.data|) then stop && sent && r == [q[0].(tries := q[0].tries + 2)] + q[1..]
    else !stop && sent && r == q[1..]
  }

  /** The call that began with `q0` goes on with `q` as a call does that begins with it. */
  predicate GoesOn(q0: seq<Entry>, id: nat, ans: nat -> Net, q: seq<Entry>, at: nat, k: nat, tried: seq<nat>)
  {
    Handled(q, ans, k) == Handled(q0, ans, 0) && tried + Attempts(q, at, ans, k) == Attempts(q0, id, ans, 0)
  }

  predicate Ends(q0: seq<Entry>, id: nat, ans: nat -> Net, q: seq<Entry>, tried: seq<nat>)
  {
    q == Handled(q0, ans, 0) && tried == Attempts(q0, id, ans, 0)
  }

  lemma {:induction false} RoundGoesOn(q0: seq<Entry>, id: nat, ans: nat -> Net, q: seq<Entry>, at: nat, k: nat,
      tried: seq<nat>, stop: bool, sent: bool, r: seq<Entry>)
    requires GoesOn(q0, id, ans, q, at, k, tried) && RoundOf(q, ans(k), stop, sent, r)
    ensures var k', tried' := if sent then k + 1 else k, if sent then tried + [at] else tried;
            if stop then Ends(q0, id, ans, r, tried') == true
            else |r| < |q| && GoesOn(q0, id, ans, r, at + 1, k', tried') == true
  {
    if sent && !stop {
      assert tried + ([at] + Attempts(r, at + 1, ans, k + 1)) == (tried + [at]) + Attempts(r, at + 1, ans, k + 1);
    }
  }

  // ---------- the ring ----------

  class Ring {
    const slots: array<Entry>
    var rd: nat
    var wr: nat
    var inhibit: bool
    ghost var entries: seq<Entry>

    ghost predicate Valid()
      reads this, slots
    {
      && slots.Length == SLOTS && rd < SLOTS && |entries| < SLOTS
      && wr == Wrap(rd + |entries|)
      && forall i :: 0 <= i < |entries| ==> slots[Wrap(rd + i)] == entries[i]
    }

    static function Wrap(i: nat): (r: nat)
      requires i < 2 * SLOTS
      ensures r < SLOTS
    {
      if i < SLOTS then i else i - SLOTS
    }

    constructor ()
      ensures Valid() && entries == [] && !inhibit && fresh(slots)
    {
      slots := new Entry[SLOTS](_ => Entry(0, Packet(0, 0, [])));
      rd, wr, inhibit := 0, 0, false;
      entries := [];
    }

    lemma {:induction false} WrapIsMod(i: nat)
      requires i < 2 * SLOTS
      ensures i % SLOTS == Wrap(i)
    {
    }

    /** ip_defer_push. */
    method Push(pkt: Packet) returns (r: int)
      requires Valid()
      modifies this, slots
      ensures Valid() && inhibit == old(inhibit)
      ensures r == PushAnswer(inhibit, |old(entries)|, |pkt.data|)
      ensures entries == if r == 0 then old(entries) + [Entry(0, pkt)] else old(entries)
    {
      WrapIsMod(wr + 1);
      var next := (wr + 1) % SLOTS;
      if inhibit {
        return -EALREADY;
      }
      if next == rd {
        return -ENOBUFS;
      }
      if |pkt.data| > DATA_MAX {
        return -EMSGSIZE;
      }
      slots[wr] := Entry(0, pkt);
      wr := next;
      entries := entries + [Entry(0, pkt)];
      return 0;
    }

    /** ip_defer_drop. */
    method Drop()
      requires Valid()
      modifies this`rd, this`entries
      ensures Valid() && entries == if old(entries) == [] then [] else old(entries)[1..]
    {
      WrapIsMod(rd + 1);
      if rd == wr {
        return;
      }
      rd := (rd + 1) % SLOTS;
      entries := entries[1..];
    }

    /** ip_send, but for what goes to the device. A packet waits exactly when its hardware address is asked for. */
    method IpSend(pkt: Packet, net: Net) returns (reply: Reply)
      requires Valid()
      modifies this, slots
      ensures Valid() && inhibit == old(inhibit)
      ensures reply == Replied(net, |pkt.data|, PushAnswer(inhibit, |old(entries)|, |pkt.data|))
      ensures entries == if net.routed && !net.resolved && net.arpErrno == EHOSTUNREACH &&
                            PushAnswer(inhibit, |old(entries)|, |pkt.data|) == 0
                         then old(entries) + [Entry(0, pkt)] else old(entries)
    {
      if !net.routed {
        return Reply(-1, EHOSTUNREACH);
      }
      if !net.resolved {
        var retval, errno := 0, net.arpErrno;
        if errno == EHOSTUNREACH {
          retval := Push(pkt);
          if retval == 0 || retval == -EALREADY {
            retval := 0;
          } else {
            errno := -retval;
            retval := -1;
          }
        }
        return Reply(retval, errno);
      }
      if |pkt.data| <= ETHER_DATA_LEN {
        return EtherSent(IP_HEADER_LEN + |pkt.data|, net.errno, net.sent);
      }
      var retval, errno := net.sent, net.errno;
      if retval < 0 {
        errno := -retval;
        retval := -1;
      }
      return Reply(retval, errno);
    }

    /** The try counter of the first packet. */
    method SetTries(n: nat)
      requires Valid() && entries != []
      modifies this`entries, slots
      ensures Valid() && entries == [old(entries)[0].(tries := n)] + old(entries)[1..]
    {
      slots[rd] := slots[rd].(tries := n);
      entries := [entries[0].(tries := n)] + entries[1..];
    }

    /** One round of the handler's loop. */
    method Round(net: Net) returns (stop: bool, sent: bool)
      requires Valid() && inhibit
      modifies this, slots
      ensures Valid() && inhibit
      ensures RoundOf(old(entries), net, stop, sent, entries)
    {
      if rd == wr {
        return true, false;
      }
      var tries := slots[rd].tries;
      SetTries(tries + 1);
      if tries > 3 {
        Drop();
        return false, false;
      }
      var reply := IpSend(slots[rd].pkt, net);
      if reply.ret == -1 && reply.errno == EHOSTUNREACH {
        SetTries(tries + 2);
        return true, true;
      }
      Drop();
      return false, true;
    }

    /** ip_defer_handler. While it runs, pushes are refused, so that ip_send leaves the queue alone. */
    method Handle(ans: nat -> Net, ghost id: nat) returns (ghost tried: seq<nat>)
      requires Valid()
      modifies this, slots
      ensures Valid() && !inhibit && entries == Handled(old(entries), ans, 0)
      ensures tried == Attempts(old(entries), id, ans, 0)
    {
      inhibit := true;
      var k, stop := 0, false;
      tried := [];
      ghost var at, q0 := id, entries;
      assert [] + Attempts(q0, id, ans, 0) == Attempts(q0, id, ans, 0);
      while !stop
        invariant Valid() == true && inhibit
        invariant stop ==> Ends(q0, id, ans, entries, tried) == true
        invariant !stop ==> GoesOn(q0, id, ans, entries, at, k, tried) == true
        decreases !stop, |entries|
      {
        ghost var q := entries;
        var sent;
        stop, sent := Round(ans(k));
        RoundGoesOn(q0, id, ans, q, at, k, tried, stop, sent, entries);
        if sent {
          tried := tried + [at];
          k := k + 1;
        }
        at := at + 1;
      }
      inhibit := false;
    }
  }

  // ---------- whole runs ----------

  /** The queue, the number of packets that have left it, and the numbers of those handed to ip_send so far. */
  datatype State = State(q: seq<Entry>, gone: nat, tried: seq<nat>)

  /** Packets handed to ip_defer_push, and calls of the handler with anything that ip_send can meet. */
  datatype Run = Begin | Pushed(run: Run, pkt: Packet) | Served(run: Run, ans: nat -> Net)

  function After(run: Run): State
  {
    match run
    case Begin => State([], 0, [])
    case Pushed(r, pkt) =>
      var s := After(r);
      if PushAnswer(false, |s.q|, |pkt.data|) == 0 then s.(q := s.q + [Entry(0, pkt)]) else s
    case Served(r, ans) =>
      var s := After(r);
      State(Handled(s.q, ans, 0), s.gone + |s.q| - |Handled(s.q, ans, 0)|, s.tried + Attempts(s.q, s.gone, ans, 0))
  }

  function Count(s: seq<nat>, x: nat): nat
  {
    if s == [] then 0 else (if s[0] == x then 1 else 0) + Count(s[1..], x)
  }

  lemma {:induction false} CountAdd(s: seq<nat>, t: seq<nat>, x: nat)
    ensures Count(s + t, x) == Count(s, x) + Count(t, x)
    decreases s
  {
    if s == [] {
      assert s + t == t;
    } else {
      assert (s + t)[1..] == s[1..] + t;
      CountAdd(s[1..], t, x);
    }
  }

  /** How often a call tries packet `x`, when `j` of `q`, numbered from `id` on, leave the queue. */
  function Asked(q: seq<Entry>, id: nat, j: nat, x: nat): nat
  {
    if id <= x < id + j && x - id < |q| then (if q[x - id].tries > 3 then 0 else 1)
    else if x == id + j && j < |q| then 1 else 0
  }

  /**
   A call of the handler takes packets from the front only. If it leaves any, it tried the first of
   them once and raised its counter, and did not touch those behind.
   */
  lemma {:induction false} CallEffect(q: seq<Entry>, id: nat, ans: nat -> Net, k: nat, x: nat)
    ensures var r := Handled(q, ans, k);
            var j := |q| - |r|;
            && (r != [] ==> q[j].tries <= 3 && r == [q[j].(tries := q[j].tries + 2)] + q[j + 1..])
            && Count(Attempts(q, id, ans, k), x) == Asked(q, id, j, x)
    decreases |q|
  {
    if q == [] {
    } else {
      var next := if q[0].tries > 3 then k else k + 1;
      CallEffect(q[1..], id + 1, ans, next, x);
      var a := Attempts(q[1..], id + 1, ans, next);
      CountAdd([id], a, x);
      assert Count([id], x) == if x == id then 1 else 0;
      assert q[0].tries > 3 || !Retries(ans(k), |q[0].pkt.data|) ==>
          forall i :: 0 <= i < |q| - 1 ==> q[1..][i] == q[i + 1];
    }
  }

  /** Only the first packet has been tried, at most twice, and its counter says how often. */
  predicate Fresh(q: seq<Entry>)
  {
    && (forall i :: 0 < i < |q| ==> q[i].tries == 0)
    && (q != [] ==> q[0].tries == 0 || q[0].tries == 2 || q[0].tries == 4)
  }

  function Share(s: State, x: nat): nat
  {
    if x == s.gone && s.q != [] then s.q[0].tries / 2 else 0
  }

  ghost predicate Inv(s: State)
  {
    && |s.q| < SLOTS && Fresh(s.q)
    && forall x: nat :: if x < s.gone then Count(s.tried, x) <= 2 else Count(s.tried, x) == Share(s, x)
  }

  lemma {:induction false} ServedFresh(q: seq<Entry>, ans: nat -> Net)
    requires Fresh(q)
    ensures Fresh(Handled(q, ans, 0)) && Work(Handled(q, ans, 0)) <= (if Work(q) == 0 then 0 else Work(q) - 1)
    ensures Work(q) == 0 ==> Handled(q, ans, 0) == []
  {
    CallEffect(q, 0, ans, 0, 0);
  }

  /** How many more calls can end early. */
  function Work(q: seq<Entry>): int
  {
    if q == [] then 0 else 2 * |q| - q[0].tries / 2
  }

  lemma {:induction false} ServedInv(s: State, ans: nat -> Net, x: nat)
    requires Inv(s)
    ensures var r := Handled(s.q, ans, 0);
            var s' := State(r, s.gone + |s.q| - |r|, s.tried + Attempts(s.q, s.gone, ans, 0));
            if x < s'.gone then Count(s'.tried, x) <= 2 else Count(s'.tried, x) == Share(s', x)
  {
    CallEffect(s.q, s.gone, ans, 0, x);
    CountAdd(s.tried, Attempts(s.q, s.gone, ans, 0), x);
  }

  /**
   In every run the queue holds at most 19 packets, only the first of them can have been tried, its
   counter is 0, 2 or 4, and no packet is ever tried more than twice.
   */
  lemma {:induction false} RunInv(run: Run)
    ensures Inv(After(run))
  {
    match run
    case Begin =>
    case Pushed(r, pkt) =>
      RunInv(r);
      var s, s' := After(r), After(run);
      forall x: nat
        ensures if x < s'.gone then Count(s'.tried, x) <= 2 else Count(s'.tried, x) == Share(s', x)
      {
      }
    case Served(r, ans) =>
      RunInv(r);
      ServedFresh(After(r).q, ans);
      forall x: nat
        ensures var s' := After(run);
                if x < s'.gone then Count(s'.tried, x) <= 2 else Count(s'.tried, x) == Share(s', x)
      {
        ServedInv(After(r), ans, x);
      }
  }

  /** The packets that ip_defer_push has accepted, in order. */
  function Accepted(run: Run): seq<Packet>
  {
    match run
    case Begin => []
    case Pushed(r, pkt) =>
      if PushAnswer(false, |After(r).q|, |pkt.data|) == 0 then Accepted(r) + [pkt] else Accepted(r)
    case Served(r, _) => Accepted(r)
  }

  lemma {:induction false} StaysAsWas(q: seq<Entry>, ans: nat -> Net, i: nat)
    requires i < |Handled(q, ans, 0)|
    ensures Handled(q, ans, 0)[i].pkt == q[|q| - |Handled(q, ans, 0)| + i].pkt
  {
    CallEffect(q, 0, ans, 0, 0);
  }

  /** First in, first out, over every run: those waiting are the accepted packets from the first not gone on. */
  lemma {:induction false} KeepsOrder(run: Run)
    ensures var s, a := After(run), Accepted(run);
            s.gone + |s.q| == |a| && forall i :: 0 <= i < |s.q| ==> s.q[i].pkt == a[s.gone + i]
  {
    match run
    case Begin =>
    case Pushed(r, pkt) =>
      KeepsOrder(r);
    case Served(r, ans) =>
      KeepsOrder(r);
      var q := After(r).q;
      forall i | 0 <= i < |Handled(q, ans, 0)|
        ensures Handled(q, ans, 0)[i].pkt == q[|q| - |Handled(q, ans, 0)| + i].pkt
      {
        StaysAsWas(q, ans, i);
      }
  }

  // ---------- how many are taken ----------

  function PushAll(pkts: seq<Packet>): Run
  {
    if pkts == [] then Begin else Pushed(PushAll(pkts[..|pkts| - 1]), pkts[|pkts| - 1])
  }

  /** Exactly what is refused, and how: anything while the handler runs, a twentieth packet, one that is too long. */
  lemma {:induction false} RefusedExactly(inhibit: bool, n: nat, size: nat)
    requires n <= 19
    ensures PushAnswer(inhibit, n, size) == 0 <==> !inhibit && n < 19 && size <= 65515
    ensures PushAnswer(inhibit, n, size) == -EALREADY <==> inhibit
    ensures PushAnswer(inhibit, n, size) == -ENOBUFS <==> !inhibit && n == 19
  {
  }

  /** Of any packets that fit, the queue takes the first nineteen. */
  lemma {:induction false} TakesNineteen(pkts: seq<Packet>)
    requires forall i :: 0 <= i < |pkts| ==> |pkts[i].data| <= 65515
    ensures Accepted(PushAll(pkts)) == if |pkts| <= 19 then pkts else pkts[..19]
    ensures |After(PushAll(pkts)).q| == if |pkts| <= 19 then |pkts| else 19
  {
    if pkts == [] {
    } else {
      var early := pkts[..|pkts| - 1];
      TakesNineteen(early);
      assert pkts == early + [pkts[|pkts| - 1]];
      if |pkts| > 19 {
        assert early[..19] == pkts[..19];
      }
    }
  }

  /** A packet that cannot be reached is tried in two calls and dropped untried in the third. */
  lemma {:induction false} ThreeCalls(pkt: Packet, calls: seq<nat -> Net>)
    requires |calls| == 3 && Unreachable(calls[0](0), |pkt.data|) && Unreachable(calls[1](0), |pkt.data|)
    ensures Handled([Entry(0, pkt)], calls[0], 0) == [Entry(2, pkt)]
    ensures Handled([Entry(2, pkt)], calls[1], 0) == [Entry(4, pkt)]
    ensures Handled([Entry(4, pkt)], calls[2], 0) == [] && Attempts([Entry(4, pkt)], 0, calls[2], 0) == []
  {
  }

  // ---------- no packet stays for ever ----------

  /** The queue after calls of the handler with no push in between. */
  function ServedAll(q: seq<Entry>, calls: seq<nat -> Net>): seq<Entry>
    decreases |calls|
  {
    if calls == [] then q else ServedAll(Handled(q, calls[0], 0), calls[1..])
  }

  lemma {:induction false} WorkRunsOut(q: seq<Entry>, calls: seq<nat -> Net>)
    requires Fresh(q) && |calls| > Work(q)
    ensures ServedAll(q, calls) == []
    decreases |calls|
  {
    ServedFresh(q, calls[0]);
    var r := Handled(q, calls[0], 0);
    if r == [] {
      EmptyStays(calls[1..]);
    } else {
      WorkRunsOut(r, calls[1..]);
    }
  }

  lemma {:induction false} EmptyStays(calls: seq<nat -> Net>)
    ensures ServedAll([], calls) == []
    decreases |calls|
  {
    if calls == [] {
    } else {
      EmptyStays(calls[1..]);
    }
  }

  /** Whatever ip_send answers, `n` waiting packets are gone after at most 2n + 1 calls of the handler. */
  lemma {:induction false} QueueDrains(run: Run, calls: seq<nat -> Net>)
    requires |calls| >= 2 * |After(run).q| + 1
    ensures ServedAll(After(run).q, calls) == []
  {
    RunInv(run);
    WorkRunsOut(After(run).q, calls);
  }

  // ---------- when the handler comes back ----------

  /** There is no route, or the packet is cut into fragments and the device says that the host is unreachable. */
  predicate Unreachable(net: Net, size: nat)
  {
    !net.routed || (net.resolved && size > ETHER_DATA_LEN && net.sent == -EHOSTUNREACH)
  }

  /** How many of the first `i` packets are handed to ip_send if the call gets past them. */
  function Tried(q: seq<Entry>, i: nat): nat
    requires i <= |q|
    decreases i
  {
    if i == 0 then 0 else (if q[0].tries > 3 then 0 else 1) + Tried(q[1..], i - 1)
  }

  predicate Halts(q: seq<Entry>, ans: nat -> Net, k: nat, i: nat)
    requires i < |q|
  {
    q[i].tries <= 3 && Unreachable(ans(k + Tried(q, i)), |q[i].pkt.data|)
  }

  lemma {:induction false} HaltsLater(q: seq<Entry>, ans: nat -> Net, k: nat, i: nat)
    requires 0 < i < |q|
    ensures Halts(q, ans, k, i) <==> Halts(q[1..], ans, if q[0].tries > 3 then k else k + 1, i - 1)
  {
  }

  /**
   Exactly which packets a call of the handler leaves: those from the first on that is not over its tries
   and is answered that the host is unreachable. In particular none stays for want of a hardware address.
   */
  lemma {:induction false} StaysExactly(q: seq<Entry>, ans: nat -> Net, k: nat, j: nat)
    requires j <= |q|
    ensures |Handled(q, ans, k)| == |q| - j <==>
            (forall i :: 0 <= i < j ==> !Halts(q, ans, k, i)) && (j < |q| ==> Halts(q, ans, k, j))
    decreases |q|
  {
    if q == [] {
    } else if Halts(q, ans, k, 0) {
    } else if j > 0 {
      var next := if q[0].tries > 3 then k else k + 1;
      StaysExactly(q[1..], ans, next, j - 1);
      forall i | 0 < i < |q|
        ensures Halts(q, ans, k, i) <==> Halts(q[1..], ans, next, i - 1)
      {
        HaltsLater(q, ans, k, i);
      }
      assert forall i :: 0 <= i < j - 1 ==> (Halts(q[1..], ans, next, i) <==> Halts(q, ans, k, i + 1));
    }
  }

  /**
   While the handler runs pushes are refused with -EALREADY, which ip_send takes for success: a packet whose
   hardware address is not known yet leaves the queue and never reaches the device.
   */
  lemma {:induction false} UnresolvedIsLost(q: seq<Entry>, ans: nat -> Net)
    requires q != [] && q[0].tries <= 3 && ans(0).routed && !ans(0).resolved
    ensures Replied(ans(0), |q[0].pkt.data|, PushAnswer(true, |q|, |q[0].pkt.data|)).ret == 0
    ensures Handled(q, ans, 0) == Handled(q[1..], ans, 1)
  {
  }

  /** Longer than a frame takes, but not so long that it is cut. */
  predicate Between(size: nat)
  {
    ETHER_DATA_LEN - IP_HEADER_LEN < size <= ETHER_DATA_LEN
  }

  /**
   Exactly the packets of 1481 to 1500 bytes are neither cut into fragments nor taken by ether_send, which answers
   -EMSGSIZE before it looks at the device and leaves errno alone: with such a size the answer of the device does not
   matter, and with any other one it is passed on when it is good.
   */
  lemma {:induction false} UnsentExactly(net: Net, size: nat, push: int)
    requires net.routed && net.resolved
    ensures Between(size) ==> Replied(net, size, push) == Reply(-EMSGSIZE, net.errno)
    ensures net.sent >= 0 ==> (Replied(net, size, push) == Reply(net.sent, net.errno) <==> !Between(size))
  {
    assert FrameSize(IP_HEADER_LEN + size) > ETHER_MAXLEN + ETHER_FCS_LEN <==> size > ETHER_DATA_LEN - IP_HEADER_LEN;
  }

  /** The handler drops such a packet, though there is a route, an address and a device that would take fragments. */
  lemma {:induction false} UnsentIsLost(q: seq<Entry>, ans: nat -> Net)
    requires q != [] && q[0].tries <= 3 && ans(0).routed && ans(0).resolved
    requires Between(|q[0].pkt.data|)
    ensures Handled(q, ans, 0) == Handled(q[1..], ans, 1)
  {
    UnsentExactly(ans(0), |q[0].pkt.data|, -EALREADY);
  }

  /** The address is not known, and the packet that should wait for it is refused. */
  predicate DeferFails(net: Net, push: int)
  {
    !net.resolved && net.arpErrno == EHOSTUNREACH && push != 0 && push != -EALREADY
  }

  /**
   Exactly when ip_send fails: there is no route, the packet cannot wait for the address, its size lies between the
   limits, or the device fails. What it answers then, and the errno it leaves.
   */
  lemma {:induction false} FailsExactly(net: Net, size: nat, push: int)
    ensures Replied(net, size, push).ret < 0 <==>
            !net.routed || DeferFails(net, push) || (net.resolved && (Between(size) || net.sent < 0))
    ensures var r := Replied(net, size, push);
            && (!net.routed ==> r == Reply(-1, EHOSTUNREACH))
            && (net.routed && DeferFails(net, push) ==> r == Reply(-1, -push))
            && (net.routed && net.resolved && Between(size) ==> r == Reply(-EMSGSIZE, net.errno))
            && (net.routed && net.resolved && !Between(size) && net.sent < 0 ==>
                  r == Reply(if size > 1500 then -1 else net.sent, -net.sent))
            && (r.ret >= 0 ==> r.ret == if net.resolved then net.sent else 0)
  {
    if net.resolved {
      UnsentExactly(net.(routed := true), size, push);
    }
    assert FrameSize(IP_HEADER_LEN + size) > ETHER_MAXLEN + ETHER_FCS_LEN <==> size > ETHER_DATA_LEN - IP_HEADER_LEN;
  }
}
