/**
 One TCP connection: the state machine that answers segments, and the byte stream it hands to the
 socket. A segment comes with the position of its first byte in the peer's stream; the code sees
 only that position modulo 2^32.
 */
module TcpFsm {
  import opened Bytes
  import opened RttEstimator
  import opened TcpQueues
  import opened TcpWindow

  datatype Phase =
    | Closed | Listen | SynRcvd | SynSent | Established | FinWait1 | FinWait2 | CloseWait | Closing | LastAck | TimeWait

  /** The value of the state in enum tcp_state. */
  function Rank(p: Phase): nat
  {
    match p
    case Closed => 0
    case Listen => 1
    case SynRcvd => 2
    case SynSent => 3
    case Established => 4
    case FinWait1 => 5
    case FinWait2 => 6
    case CloseWait => 7
    case Closing => 8
    case LastAck => 9
    case TimeWait => 10
  }

  datatype Flags = Flags(doff: nat, ack: bool, psh: bool, rst: bool, syn: bool, fin: bool)

  datatype Header = Header(seqno: U32, ackNum: U32, flags: Flags, win: U16)

  const EINVAL := 22
  const EBADMSG := 74

  function HdrSize(f: Flags): int
  {
    if f.doff < 5 || f.doff > 15 then -EINVAL else 4 * f.doff
  }

  datatype Conn = Conn(
    phase: Phase, recvNext: U32, recvWnd: U16, send: Send,
    rtt: int, rttSeq: U32, est: Rtt, rexmt: int, keep: int, log: seq<Byte>)

  // ---------- what a segment does to the connection ----------

  function Timed(c: Conn, h: Header): Conn
  {
    if c.rtt != 0 && h.ackNum > c.rttSeq then c.(est := Update(c.est, c.rtt), rtt := 0) else c
  }

  function Acked(c: Conn, ack: U32): Conn
  {
    if ack <= c.send.una then c
    else c.(send := AckSend(c.send, ack), rexmt := if ack == c.send.max then 0 else c.est.est)
  }

  /** A segment that carries the next bytes of the stream. */
  predicate InSequence(c: Conn, h: Header)
  {
    h.flags.ack && h.flags.psh && h.seqno == c.recvNext && h.ackNum == c.send.next
  }

  function SynSentStep(c: Conn, h: Header): Conn
  {
    if h.flags.syn || h.flags.ack then
      c.(phase := Established, recvNext := Plus(h.seqno, 1), recvWnd := h.win, keep := 0, rexmt := 1)
    else c
  }

  function ListenStep(c: Conn, h: Header, bound: bool, iss: U32): Conn
  {
    if h.flags.syn then
      c.(phase := if bound then SynRcvd else Closed,
         recvNext := Plus(h.seqno, 1), send := c.send.(next := Plus(iss, 1)))
    else c
  }

  function SynRcvdStep(c: Conn, h: Header): Conn
  {
    if h.flags.rst && h.seqno == c.recvNext && h.ackNum == c.send.next then c.(phase := Listen)
    else if h.flags.ack && h.seqno == c.recvNext && h.ackNum == c.send.next then c.(phase := Established, keep := 0)
    else c.(recvNext := h.seqno, send := c.send.(next := Plus(c.send.next, 1)))
  }

  function EstablishedStep(c: Conn, h: Header, data: seq<Byte>): Conn
  {
    DataStep(Acked(c, h.ackNum), h, data)
  }

  function DataStep(a: Conn, h: Header, data: seq<Byte>): Conn
  {
    if InSequence(a, h) then a.(recvNext := Plus(h.seqno, |data|), log := a.log + data)
    else if h.flags.fin then
      a.(phase := LastAck, recvNext := Plus(h.seqno, 1), send := a.send.(next := Plus(a.send.next, 1)))
    else a
  }

  function Step(c: Conn, h: Header, data: seq<Byte>, bound: bool, iss: U32): Conn
  {
    PhaseStep(Timed(c, h), h, data, bound, iss)
  }

  function PhaseStep(c: Conn, h: Header, data: seq<Byte>, bound: bool, iss: U32): Conn
  {
    match c.phase
    case SynSent => SynSentStep(c, h)
    case Listen => ListenStep(c, h, bound, iss)
    case SynRcvd => SynRcvdStep(c, h)
    case Established => EstablishedStep(c, h, data)
    case LastAck => if h.flags.ack then c.(phase := Closed) else c
    case _ => c
  }

  /** tcp_input drops these before the state machine sees them. */
  predicate Dropped(c: Conn, h: Header)
  {
    (h.flags.syn && Rank(c.phase) >= Rank(Established)) || HdrSize(h.flags) < 0
  }

  function Taken(c: Conn, h: Header, data: seq<Byte>, bound: bool, iss: U32): Conn
  {
    if Dropped(c, h) then c else Step(c, h, data, bound, iss)
  }

  /** An established connection takes the segment for the next bytes of the stream. */
  predicate TakenAsData(c: Conn, h: Header)
  {
    c.phase == Established && InSequence(Acked(Timed(c, h), h.ackNum), h)
  }

  // ---------- what is sent back ----------

  /** The header of the segment that answers `h` at once, if there is one. */
  function Answer(c: Conn, h: Header, data: seq<Byte>, bound: bool, iss: U32): Option<Header>
  {
    match c.phase
    case SynSent => if h.flags.syn || h.flags.ack then Some(AnswerInSynSent(c, h)) else None
    case Listen => if h.flags.syn then Some(AnswerInListen(h, bound, iss)) else None
    case SynRcvd => if SynRcvdStep(c, h).phase.SynRcvd? then Some(AnswerInSynRcvd(c, h)) else None
    case Established => AnswerInEstablished(Acked(c, h.ackNum), h, data)
    case _ => None
  }

  function AnswerInSynSent(c: Conn, h: Header): Header
  {
    h.(flags := Flags(5, true, false, false, false, false), ackNum := Plus(h.seqno, 1), seqno := c.send.next)
  }

  function AnswerInListen(h: Header, bound: bool, iss: U32): Header
  {
    var flags := if bound then h.flags else h.flags.(syn := false, rst := true);
    h.(flags := flags.(ack := true), ackNum := Plus(h.seqno, 1), seqno := iss)
  }

  function AnswerInSynRcvd(c: Conn, h: Header): Header
  {
    h.(flags := h.flags.(ack := false), ackNum := h.seqno, seqno := c.send.next)
  }

  function AnswerInEstablished(c: Conn, h: Header, data: seq<Byte>): Option<Header>
  {
    if InSequence(c, h) then
      Some(h.(flags := h.flags.(psh := false), ackNum := Plus(h.seqno, |data|), seqno := c.send.next))
    else if h.flags.fin then
      Some(h.(flags := h.flags.(ack := true), ackNum := Plus(h.seqno, 1), seqno := c.send.next))
    else None
  }

  /** What tcp_input answers: nothing to what it drops. */
  function Replied(c: Conn, h: Header, data: seq<Byte>, bound: bool, iss: U32): Option<Header>
  {
    if Dropped(c, h) then None else Answer(Timed(c, h), h, data, bound, iss)
  }

  /** What a step answers: its result is the size of `h`, which is sent back, exactly when there is an answer. */
  ghost predicate Answers(answer: Option<Header>, retval: int, h: Header)
  {
    (retval > 0 <==> answer.Some?) && (answer.Some? ==> h == answer.value && retval == HdrSize(h.flags))
  }

  // ---------- the control block ----------

  class Tcb {
    const queues: Queues   // the segment lists, with the sequence numbers of the sender and the retransmission timer
    var phase: Phase
    var recvNext: U32
    var recvWnd: U16
    var rtt: int
    var rttSeq: U32
    var est: Rtt
    var keep: int
    var log: seq<Byte>     // what nstack_sock_dgram_input has been given

    ghost function Value(): Conn
      reads this, queues
    {
      Conn(phase, recvNext, recvWnd, queues.Numbers(), rtt, rttSeq, est, queues.rexmt, keep, log)
    }

    ghost predicate Valid()
      reads this, queues, queues.unsent, queues.unacked, queues.unsent.elems, queues.unacked.elems
    {
      queues.Valid() == true && !queues.locked
    }

    /** tcp_new_connection as tcp_input uses it. */
    constructor ()
      ensures Valid() && phase == Listen && log == [] && queues.Pending() == [] && Value().send == Send(0, 0, 0)
    {
      queues := new Queues(0);
      phase, recvNext, recvWnd, log := Listen, 0, 0, [];
      rtt, rttSeq, est, keep := 0, 0, Rtt(0, 0, 0), 0;
    }

    // The cases of tcp_fsm. Each turns the segment's header into that of the reply; a positive
    // result is the size of a reply.

    /** Any SYN or ACK answers; the branch for a lone SYN behind this one is never taken. */
    method InSynSent(h0: Header) returns (retval: int, h: Header)
      requires phase == SynSent && HdrSize(h0.flags) > 0
      modifies this, queues`rexmt
      ensures Value() == SynSentStep(old(Value()), h0) && retval >= 0
      ensures Answers(if h0.flags.syn || h0.flags.ack then Some(AnswerInSynSent(old(Value()), h0)) else None, retval, h)
    {
      h := h0;
      if h.flags.syn || h.flags.ack {
        h := h.(flags := Flags(5, true, false, false, false, false), ackNum := Plus(h.seqno, 1));
        h := h.(seqno := queues.sendNext);
        recvNext := h.ackNum;
        recvWnd := h.win;
        keep := 0;
        phase := Established;
        queues.rexmt := 1;
        return HdrSize(h.flags), h;
      }
      return 0, h;
    }

    method InListen(h0: Header, bound: bool, iss: U32) returns (retval: int, h: Header)
      requires phase == Listen && HdrSize(h0.flags) > 0
      modifies this, queues`sendNext
      ensures Value() == ListenStep(old(Value()), h0, bound, iss) && retval >= 0
      ensures Answers(if h0.flags.syn then Some(AnswerInListen(h0, bound, iss)) else None, retval, h)
    {
      h := h0;
      if h.flags.syn {
        if !bound {
          h := h.(flags := h.flags.(syn := false, rst := true));
        }
        h := h.(flags := h.flags.(ack := true), ackNum := Plus(h.seqno, 1));
        h := h.(seqno := iss);
        phase := if bound then SynRcvd else Closed;
        recvNext := h.ackNum;
        queues.sendNext := Plus(h.seqno, 1);
        return HdrSize(h.flags), h;
      }
      return 0, h;
    }

    method InSynRcvd(h0: Header) returns (retval: int, h: Header)
      requires phase == SynRcvd && HdrSize(h0.flags) > 0
      modifies this, queues`sendNext
      ensures Value() == SynRcvdStep(old(Value()), h0) && retval >= 0
      ensures Answers(if phase.SynRcvd? then Some(AnswerInSynRcvd(old(Value()), h0)) else None, retval, h)
    {
      h := h0;
      if h.flags.rst && h.seqno == recvNext && h.ackNum == queues.sendNext {
        phase := Listen;
        return 0, h;
      }
      if h.flags.ack && h.seqno == recvNext && h.ackNum == queues.sendNext {
        keep := 0;
        phase := Established;
        return 0, h;
      }
      h := h.(flags := h.flags.(ack := false), ackNum := h.seqno);
      h := h.(seqno := queues.sendNext);
      recvNext := h.ackNum;
      queues.sendNext := Plus(h.seqno, 1);
      return HdrSize(h.flags), h;
    }

    /** The step of ESTABLISHED after the acknowledgement; `short` tells that the header claims more than there is. */
    method InData(h0: Header, data: seq<Byte>, short: bool) returns (ok: bool, retval: int, h: Header)
      requires phase == Established && HdrSize(h0.flags) > 0
      modifies this, queues`sendNext
      ensures ok <==> !(short && InSequence(old(Value()), h0))
      ensures Value() == (if ok then DataStep(old(Value()), h0, data) else old(Value())) && retval >= 0
      ensures ok ==> Answers(AnswerInEstablished(old(Value()), h0, data), retval, h)
      ensures !ok ==> retval == 0
    {
      h := h0;
      if h.flags.ack && h.flags.psh && h.seqno == recvNext && h.ackNum == queues.sendNext {
        if short {
          return false, 0, h;
        }
        h := h.(flags := h.flags.(psh := false), ackNum := Plus(h.seqno, |data|));
        h := h.(seqno := queues.sendNext);
        recvNext := h.ackNum;
        queues.sendNext := h.seqno;
        log := log + data;
        return true, HdrSize(h.flags), h;
      }
      if h.flags.fin {
        h := h.(flags := h.flags.(ack := true), ackNum := Plus(h.seqno, 1));
        h := h.(seqno := queues.sendNext);
        phase := LastAck;
        recvNext := h.ackNum;
        queues.sendNext := Plus(h.seqno, 1);
        return true, HdrSize(h.flags), h;
      }
      return true, 0, h;
    }

    method InEstablished(h0: Header, data: seq<Byte>, short: bool) returns (ok: bool, retval: int, h: Header)
      requires Valid() && phase == Established && HdrSize(h0.flags) > 0
      modifies this, queues`sendUna, queues`sendNext, queues`rexmt, queues.unacked, queues.unacked.elems
      ensures ok <==> !(short && InSequence(Acked(old(Value()), h0.ackNum), h0))
      ensures Valid() && retval >= 0
      ensures Value() == if ok then EstablishedStep(old(Value()), h0, data) else Acked(old(Value()), h0.ackNum)
      ensures queues.unsent.elems == old(queues.unsent.elems)
      ensures queues.unacked.elems == Released(old(queues.unacked.elems), old(queues.sendUna), h0.ackNum)
      ensures ok ==> Answers(AnswerInEstablished(Acked(old(Value()), h0.ackNum), h0, data), retval, h)
      ensures !ok ==> retval == 0
    {
      queues.AckSegments(h0.ackNum, est.est);
      assert Value() == Acked(old(Value()), h0.ackNum);
      ok, retval, h := InData(h0, data, short);
    }

    method Fsm(h0: Header, data: seq<Byte>, short: bool, bound: bool, iss: U32)
      returns (ok: bool, retval: int, h: Header)
      requires Valid() && HdrSize(h0.flags) > 0
      modifies this, queues`sendUna, queues`sendNext, queues`rexmt, queues.unacked, queues.unacked.elems
      ensures ok <==> !(short && TakenAsData(old(Value()), h0))
      ensures Valid() && (ok ==> Value() == Step(old(Value()), h0, data, bound, iss))
      ensures !ok ==> Value() == Acked(Timed(old(Value()), h0), h0.ackNum)
      ensures queues.unsent.elems == old(queues.unsent.elems)
      ensures queues.unacked.elems == if old(phase) == Established
                                      then Released(old(queues.unacked.elems), old(queues.sendUna), h0.ackNum)
                                      else old(queues.unacked.elems)
      ensures ok ==> Answers(Answer(Timed(old(Value()), h0), h0, data, bound, iss), retval, h)
      ensures !ok ==> retval == 0
      ensures retval < 0 <==> old(phase) == TimeWait
    {
      if rtt != 0 && h0.ackNum > rttSeq {
        est := Update(est, rtt);
        rtt := 0;
      }
      assert Value() == Timed(old(Value()), h0);
      ok, retval, h := Switch(h0, data, short, bound, iss);
    }

    method Switch(h0: Header, data: seq<Byte>, short: bool, bound: bool, iss: U32)
      returns (ok: bool, retval: int, h: Header)
      requires Valid() && HdrSize(h0.flags) > 0
      modifies this, queues`sendUna, queues`sendNext, queues`rexmt, queues.unacked, queues.unacked.elems
      ensures ok <==> !(short && old(phase) == Established && InSequence(Acked(old(Value()), h0.ackNum), h0))
      ensures Valid() && (ok ==> Value() == PhaseStep(old(Value()), h0, data, bound, iss))
      ensures !ok ==> Value() == Acked(old(Value()), h0.ackNum)
      ensures queues.unsent.elems == old(queues.unsent.elems)
      ensures queues.unacked.elems == if old(phase) == Established
                                      then Released(old(queues.unacked.elems), old(queues.sendUna), h0.ackNum)
                                      else old(queues.unacked.elems)
      ensures ok ==> Answers(Answer(old(Value()), h0, data, bound, iss), retval, h)
      ensures !ok ==> retval == 0
      ensures retval < 0 <==> old(phase) == TimeWait
    {
      ok := true;
      match phase {
        case SynSent =>
          retval, h := InSynSent(h0);
        case Listen =>
          retval, h := InListen(h0, bound, iss);
        case SynRcvd =>
          retval, h := InSynRcvd(h0);
        case Established =>
          ok, retval, h := InEstablished(h0, data, short);
        case LastAck =>
          if h0.flags.ack {
            phase := Closed;
          }
          return true, 0, h0;
        case TimeWait =>
          return true, -EINVAL, h0;
        case _ =>
          return true, 0, h0;
      }
    }

    /**
     tcp_input for a segment of this connection, `size` bytes long with its header. The size may be less than the
     header says; only where such a segment is taken as data does that matter, and it is not `ok`: the code then
     takes the negative difference for the length of the data.
     */
    method Input(h0: Header, data: seq<Byte>, size: nat, bound: bool, iss: U32)
      returns (ok: bool, retval: int, h: Header)
      requires Valid() && (20 <= HdrSize(h0.flags) <= size ==> size == HdrSize(h0.flags) + |data|)
      modifies this, queues`sendUna, queues`sendNext, queues`rexmt, queues.unacked, queues.unacked.elems
      ensures !ok <==> 20 <= size < HdrSize(h0.flags) && !Dropped(old(Value()), h0) && TakenAsData(old(Value()), h0)
      ensures !ok ==> Value() == Acked(Timed(old(Value()), h0), h0.ackNum)
      ensures Valid() && (ok && size >= 20 ==> Value() == Taken(old(Value()), h0, data, bound, iss))
      ensures size < 20 ==> Value() == old(Value()) && retval == -EBADMSG
      ensures size >= 20 && Dropped(old(Value()), h0) ==> retval == -EINVAL && h == h0
      ensures retval < 0 <==> size < 20 || Dropped(old(Value()), h0) || old(phase) == TimeWait
      ensures queues.unsent.elems == old(queues.unsent.elems)
      ensures queues.unacked.elems == if old(phase) == Established && size >= 20 && !Dropped(old(Value()), h0)
                                      then Released(old(queues.unacked.elems), old(queues.sendUna), h0.ackNum)
                                      else old(queues.unacked.elems)
      ensures ok && size >= 20 ==> Answers(Replied(old(Value()), h0, data, bound, iss), retval, h)
      ensures !ok ==> retval == 0
    {
      if size < 20 {
        return true, -EBADMSG, h0;
      }
      if (h0.flags.syn && Rank(phase) >= Rank(Established)) || HdrSize(h0.flags) < 0 {
        return true, -EINVAL, h0;
      }
      ok, retval, h := Fsm(h0, data, size < HdrSize(h0.flags), bound, iss);
    }
  }

  // ---------- runs ----------

  /** The bytes `a` to `a + n` of a stream. */
  function Slice(st: nat -> Byte, a: nat, n: nat): (r: seq<Byte>)
    ensures |r| == n
    decreases n
  {
    if n == 0 then [] else Slice(st, a, n - 1) + [st(a + n - 1)]
  }

  lemma {:induction false} SliceAppend(st: nat -> Byte, a: nat, m: nat, n: nat)
    ensures Slice(st, a, m) + Slice(st, a + m, n) == Slice(st, a, m + n)
    decreases n
  {
    if n == 0 {
    } else {
      SliceAppend(st, a, m, n - 1);
    }
  }

  /** The sequence number of the byte at position `p`, when that at position 0 is `base`. The SYN is at -1. */
  function SeqOf(base: U32, p: int): U32
  {
    (base + p) % TWO32
  }

  lemma {:induction false} SeqPlus(base: U32, p: int, n: int)
    ensures Plus(SeqOf(base, p), n) == SeqOf(base, p + n)
  {
    var q := (base + p) / TWO32;
    ModIs(base + p + n, SeqOf(base, p) + n, q);
  }

  /** Positions less than 2^32 apart have different sequence numbers. */
  lemma {:induction false} SeqApart(base: U32, p: int, q: int)
    requires p - TWO32 < q < p + TWO32
    ensures SeqOf(base, p) == SeqOf(base, q) <==> p == q
  {
  }

  /** A segment with the position of its data, and what the environment answers while it is handled. */
  datatype Arrival = Arrival(pos: int, h: Header, data: seq<Byte>, bound: bool, iss: U32)

  predicate OfStream(st: nat -> Byte, base: U32, a: Arrival)
  {
    && a.pos >= -1 && a.h.seqno == SeqOf(base, a.pos)
    && (a.data != [] ==> a.pos >= 0 && a.data == Slice(st, a.pos, |a.data|))
  }

  /** Between arrivals the sending side and the timers may change their own fields at will. */
  datatype Run =
    | Begin(c: Conn)
    | Then(run: Run, a: Arrival)
    | Local(run: Run, send: Send, rtt: int, rttSeq: U32, est: Rtt, rexmt: int, keep: int)

  function After(run: Run): Conn
  {
    match run
    case Begin(c) => c
    case Then(r, a) => Handled(After(r), a)
    case Local(r, send, rtt, rttSeq, est, rexmt, keep) =>
      After(r).(send := send, rtt := rtt, rttSeq := rttSeq, est := est, rexmt := rexmt, keep := keep)
  }

  function Handled(c: Conn, a: Arrival): Conn
  {
    Taken(c, a.h, a.data, a.bound, a.iss)
  }

  /** Where a segment takes a connection that stood at `at` in the peer's stream. */
  function NextPosition(c: Conn, at: int, a: Arrival): int
  {
    if Dropped(c, a.h) then at
    else match c.phase
         case SynSent => if a.h.flags.syn || a.h.flags.ack then a.pos + 1 else at
         case Listen => if a.h.flags.syn then a.pos + 1 else at
         case SynRcvd => if Handled(c, a).phase.SynRcvd? then a.pos else at
         case Established =>
           if InSequence(Acked(Timed(c, a.h), a.h.ackNum), a.h) then a.pos + |a.data|
           else if a.h.flags.fin then a.pos + 1 else at
         case _ => at
  }

  function NextOrigin(c: Conn, at: int, origin: int, a: Arrival): int
  {
    if Handled(c, a).phase.Established? && !c.phase.Established? then NextPosition(c, at, a) else origin
  }

  /** Where the connection stands in the peer's stream: recv_next without the wrap-around. */
  function Position(run: Run): int
  {
    match run
    case Begin(c) => 0
    case Then(r, a) => NextPosition(After(r), Position(r), a)
    case Local(r, _, _, _, _, _, _) => Position(r)
  }

  /** The position at which the connection was established. */
  function Origin(run: Run): int
  {
    match run
    case Begin(c) => 0
    case Then(r, a) => NextOrigin(After(r), Position(r), Origin(r), a)
    case Local(r, _, _, _, _, _, _) => Origin(r)
  }

  predicate Opening(p: Phase)
  {
    p.Listen? || p.SynSent? || p.SynRcvd?
  }

  /**
   A run from a passive or an active open. Segments may be lost, repeated and reordered, but once
   the connection is established none strays 2^32 bytes or more from what it expects.
   */
  predicate FromStream(st: nat -> Byte, base: U32, run: Run)
  {
    match run
    case Begin(c) => (c.phase.Listen? || c.phase.SynSent?) && c.log == []
    case Then(r, a) =>
      && FromStream(st, base, r) && OfStream(st, base, a)
      && (After(r).phase.Established? ==> Near(Position(r), a))
    case Local(r, _, _, _, _, _, _) => FromStream(st, base, r)
  }

  predicate Delivers(st: nat -> Byte, base: U32, c: Conn, at: int, origin: int)
  {
    && (c.phase.SynRcvd? || c.phase.Established? ==> c.recvNext == SeqOf(base, at) && at >= -1)
    && (Opening(c.phase) ==> c.log == [])
    && (c.phase.Established? ==> at == origin + |c.log|)
    && (c.log != [] ==> origin >= 0 && c.log == Slice(st, origin, |c.log|))
    && (c.phase in {Closed, Listen, SynRcvd, SynSent, Established, LastAck})
  }

  predicate Near(at: int, a: Arrival)
  {
    at - TWO32 < a.pos < at + TWO32
  }

  lemma {:induction false} MoreBytes(st: nat -> Byte, log: seq<Byte>, origin: int, pos: int, data: seq<Byte>)
    requires log != [] ==> origin >= 0 && log == Slice(st, origin, |log|)
    requires data != [] ==> pos >= 0 && data == Slice(st, pos, |data|)
    requires pos == origin + |log|
    ensures log + data != [] ==> origin >= 0 && log + data == Slice(st, origin, |log + data|)
  {
    if data == [] {
      assert log + data == log;
    } else if log == [] {
      assert log + data == data;
    } else {
      SliceAppend(st, origin, |log|, |data|);
    }
  }

  lemma {:induction false} EstablishedEffect(c: Conn, a: Arrival)
    requires c.phase.Established? && !Dropped(c, a.h)
    ensures var c', next := Handled(c, a), InSequence(Acked(Timed(c, a.h), a.h.ackNum), a.h);
            && (next ==> c'.phase.Established? && c'.recvNext == Plus(a.h.seqno, |a.data|) && c'.log == c.log + a.data)
            && (next ==> a.h.seqno == c.recvNext)
            && (!next ==> c'.log == c.log && (c'.phase.LastAck? <==> a.h.flags.fin))
            && (!next && !a.h.flags.fin ==> c'.phase.Established? && c'.recvNext == c.recvNext)
  {
  }

  lemma {:induction false} EstablishedDelivers(st: nat -> Byte, base: U32, c: Conn, at: int, origin: int, a: Arrival)
    requires Delivers(st, base, c, at, origin) && c.phase.Established? && OfStream(st, base, a) && Near(at, a)
    requires !Dropped(c, a.h)
    ensures Delivers(st, base, Handled(c, a), NextPosition(c, at, a), origin)
  {
    EstablishedEffect(c, a);
    if InSequence(Acked(Timed(c, a.h), a.h.ackNum), a.h) {
      SeqApart(base, a.pos, at);
      SeqPlus(base, a.pos, |a.data|);
      MoreBytes(st, c.log, origin, at, a.data);
    }
  }

  lemma {:induction false} OpeningDelivers(st: nat -> Byte, base: U32, c: Conn, at: int, origin: int, a: Arrival)
    requires Delivers(st, base, c, at, origin) && Opening(c.phase) && OfStream(st, base, a) && !Dropped(c, a.h)
    ensures Delivers(st, base, Handled(c, a), NextPosition(c, at, a), NextOrigin(c, at, origin, a))
  {
    SeqPlus(base, a.pos, 1);
  }

  lemma {:induction false} DeliverStep(st: nat -> Byte, base: U32, c: Conn, at: int, origin: int, a: Arrival)
    requires Delivers(st, base, c, at, origin) && OfStream(st, base, a)
    requires c.phase.Established? ==> Near(at, a)
    ensures Delivers(st, base, Handled(c, a), NextPosition(c, at, a), NextOrigin(c, at, origin, a)) == true
  {
    if !Dropped(c, a.h) {
      if c.phase.Established? {
        EstablishedDelivers(st, base, c, at, origin, a);
      } else if Opening(c.phase) {
        OpeningDelivers(st, base, c, at, origin, a);
      }
    }
  }

  /**
   In-order delivery. In every run, what the socket has been given is a stretch of the peer's
   stream without gap or repetition, from the position at which the connection was established;
   and as long as it is established, recv_next is the sequence number of the end of that stretch.
   */
  lemma {:induction false} InOrderDelivery(st: nat -> Byte, base: U32, run: Run)
    requires FromStream(st, base, run)
    ensures Delivers(st, base, After(run), Position(run), Origin(run))
  {
    match run
    case Begin(c) =>
    case Then(r, a) =>
      InOrderDelivery(st, base, r);
      DeliverStep(st, base, After(r), Position(r), Origin(r), a);
    case Local(r, _, _, _, _, _, _) =>
      InOrderDelivery(st, base, r);
  }

  lemma {:induction false} AcceptedStep(st: nat -> Byte, base: U32, c: Conn, at: int, origin: int, a: Arrival)
    requires Delivers(st, base, c, at, origin) && OfStream(st, base, a) && a.data != []
    requires c.phase.Established? ==> Near(at, a)
    ensures Handled(c, a).log != c.log <==>
            && c.phase.Established? && !Dropped(c, a.h) && a.pos == at
            && a.h.flags.ack && a.h.flags.psh && a.h.ackNum == AckSend(c.send, a.h.ackNum).next
    ensures Handled(c, a).log != c.log ==> Handled(c, a).log == c.log + a.data
  {
    if c.phase.Established? {
      SeqApart(base, a.pos, at);
      assert |c.log + a.data| != |c.log|;
    }
  }

  /** A segment adds to the stream exactly when it is the next one in order and acknowledges what was sent. */
  lemma {:induction false} AcceptedExactly(st: nat -> Byte, base: U32, run: Run, a: Arrival)
    requires FromStream(st, base, Then(run, a)) && a.data != []
    ensures var c := After(run);
            After(Then(run, a)).log != c.log <==>
            && c.phase.Established? && !Dropped(c, a.h) && a.pos == Position(run)
            && a.h.flags.ack && a.h.flags.psh && a.h.ackNum == AckSend(c.send, a.h.ackNum).next
    ensures After(Then(run, a)).log != After(run).log ==> After(Then(run, a)).log == After(run).log + a.data
  {
    InOrderDelivery(st, base, run);
    AcceptedStep(st, base, After(run), Position(run), Origin(run), a);
  }

  /** Once send_next lies behind send_una, data that acknowledges all that was sent is refused. */
  lemma {:induction false} OvertakenRefuses(c: Conn, a: Arrival)
    requires c.phase.Established? && c.send.next < c.send.una == c.send.max && a.h.ackNum == c.send.max
    ensures Handled(c, a).log == c.log && Handled(c, a).send.una == c.send.una
    ensures Handled(c, a).phase.Established? ==> Handled(c, a).send == c.send && Handled(c, a).recvNext == c.recvNext
  {
  }

  // ---------- the states ----------

  /** The states and the moves between them. */
  predicate Moves(p: Phase, q: Phase)
  {
    p == q || match p
              case Listen => q.SynRcvd? || q.Closed?
              case SynSent => q.Established?
              case SynRcvd => q.Listen? || q.Established?
              case Established => q.LastAck?
              case LastAck => q.Closed?
              case _ => false
  }

  lemma {:induction false} StepMoves(c: Conn, a: Arrival)
    ensures Moves(c.phase, Taken(c, a.h, a.data, a.bound, a.iss).phase)
  {
  }

  /** Where a run from `p` can be. */
  predicate Reaches(p: Phase, q: Phase)
  {
    match p
    case Listen => q in {Closed, Listen, SynRcvd, Established, LastAck}
    case SynRcvd => q in {Closed, Listen, SynRcvd, Established, LastAck}
    case SynSent => q in {Closed, SynSent, Established, LastAck}
    case Established => q in {Closed, Established, LastAck}
    case LastAck => q in {Closed, LastAck}
    case _ => q == p
  }

  /**
   An active open never waits in SYN_RCVD, an established connection never opens again, and no run
   gets to FIN_WAIT, CLOSE_WAIT, CLOSING or TIME_WAIT.
   */
  lemma {:induction false} ReachableStates(run: Run, c: Conn)
    requires c == First(run)
    ensures Reaches(c.phase, After(run).phase)
  {
    match run
    case Begin(_) =>
    case Then(r, a) =>
      ReachableStates(r, c);
      StepMoves(After(r), a);
    case Local(r, _, _, _, _, _, _) =>
      ReachableStates(r, c);
  }

  function First(run: Run): Conn
  {
    match run
    case Begin(c) => c
    case Then(r, a) => First(r)
    case Local(r, _, _, _, _, _, _) => First(r)
  }

  // ---------- where delivery starts ----------

  /** An active open takes any segment with ACK for the answer to its SYN: the byte after it comes first. */
  lemma {:induction false} StrayAckEstablishes(st: nat -> Byte, base: U32, c: Conn)
    requires c.phase == SynSent && c.log == []
    ensures var a := Arrival(7, Header(SeqOf(base, 7), 0, Flags(5, true, false, false, false, false), 0), [], true, 0);
            var run := Then(Begin(c), a);
            FromStream(st, base, run) && After(run).phase == Established && Origin(run) == 8
  {
  }

  /** `later` goes on from `run`. */
  predicate Extends(later: Run, run: Run)
  {
    later == run || match later
                    case Begin(_) => false
                    case Then(r, _) => Extends(r, run)
                    case Local(r, _, _, _, _, _, _) => Extends(r, run)
  }

  /** A connection is established once. */
  lemma {:induction false} OriginStays(run: Run, later: Run)
    requires Extends(later, run) && After(run).phase.Established?
    ensures Origin(later) == Origin(run) && After(later).phase in {Established, LastAck, Closed}
  {
    if later == run {
    } else {
      OriginStays(run, later.run);
      if later.Then? {
        StepMoves(After(later.run), later.a);
      }
    }
  }

  /**
   After an active open everything the socket is ever given follows the segment that established the
   connection, whatever it was; it starts at the first byte iff that segment had the number of the SYN.
   */
  lemma {:induction false} ActiveOrigin(st: nat -> Byte, base: U32, run: Run, a: Arrival, later: Run)
    requires FromStream(st, base, later) && Extends(later, Then(run, a))
    requires After(run).phase == SynSent && After(Then(run, a)).phase == Established
    ensures a.pos >= -1 && (After(later).log != [] ==> After(later).log == Slice(st, a.pos + 1, |After(later).log|))
    ensures Origin(later) == 0 <==> a.pos == -1
  {
    EarlierFromStream(st, base, Then(run, a), later);
    OriginStays(Then(run, a), later);
    InOrderDelivery(st, base, later);
  }

  lemma {:induction false} EarlierFromStream(st: nat -> Byte, base: U32, run: Run, later: Run)
    requires FromStream(st, base, later) && Extends(later, run)
    ensures FromStream(st, base, run)
  {
    if later == run {
    } else {
      EarlierFromStream(st, base, run, later.run);
    }
  }

  // ---------- where delivery ends ----------

  /** After a FIN nothing is added. */
  lemma {:induction false} LogStays(run: Run, later: Run)
    requires Extends(later, run) && After(run).phase in {LastAck, Closed}
    ensures After(later).log == After(run).log && Origin(later) == Origin(run)
    ensures After(later).phase in {LastAck, Closed}
  {
    if later == run {
    } else {
      LogStays(run, later.run);
    }
  }

  /** `log` is all of the stream between two positions. */
  predicate AllBetween(st: nat -> Byte, from: int, to: int, log: seq<Byte>)
  {
    to == from + |log| && (log != [] ==> from >= 0 && log == Slice(st, from, |log|))
  }

  /**
   Any FIN closes that is not on data in sequence, wherever it stands. What the socket has been given then, and ever
   after, is everything before the FIN iff the connection stood at the FIN when it came.
   */
  lemma {:induction false} FinExactly(st: nat -> Byte, base: U32, run: Run, a: Arrival, later: Run)
    requires FromStream(st, base, later) && Extends(later, Then(run, a)) && After(run).phase == Established
    ensures After(Then(run, a)).phase == LastAck <==>
            a.h.flags.fin && !Dropped(After(run), a.h) && !TakenAsData(After(run), a.h)
    ensures After(Then(run, a)).phase == LastAck ==>
              (AllBetween(st, Origin(later), a.pos + |a.data|, After(later).log) <==>
               Position(run) == a.pos + |a.data|)
  {
    EarlierFromStream(st, base, Then(run, a), later);
    InOrderDelivery(st, base, run);
    if !Dropped(After(run), a.h) {
      EstablishedEffect(After(run), a);
    }
    if After(Then(run, a)).phase == LastAck {
      LogStays(Then(run, a), later);
    }
  }

  /** A FIN that overtakes the `n` bytes before it: they are never delivered. */
  lemma {:induction false} FinOvertakes(st: nat -> Byte, base: U32, run: Run, n: int)
    requires FromStream(st, base, run) && After(run).phase == Established && 0 < n < TWO32
    ensures var p := Position(run) + n;
            var a := Arrival(p, Header(SeqOf(base, p), 0, Flags(5, true, false, false, false, true), 0), [], true, 0);
            && FromStream(st, base, Then(run, a)) && After(Then(run, a)).phase == LastAck
            && AllBetween(st, Origin(run), p - n, After(Then(run, a)).log)
  {
    InOrderDelivery(st, base, run);
  }

  // ---------- segments that come between SYN and acknowledgement ----------

  function Follow(run: Run, strays: seq<Arrival>): Run
    decreases |strays|
  {
    if strays == [] then run else Then(Follow(run, strays[..|strays| - 1]), strays[|strays| - 1])
  }

  /** The connection takes all of these and waits on in SYN_RCVD. */
  predicate AllStray(run: Run, strays: seq<Arrival>)
    decreases |strays|
  {
    strays == [] ||
    (var before, a := Follow(run, strays[..|strays| - 1]), strays[|strays| - 1];
     AllStray(run, strays[..|strays| - 1]) && !Dropped(After(before), a.h) && After(Then(before, a)).phase == SynRcvd)
  }

  lemma {:induction false} StrayMoves(c: Conn, at: int, a: Arrival)
    requires c.phase == SynRcvd && !Dropped(c, a.h) && Handled(c, a).phase == SynRcvd
    ensures Handled(c, a).recvNext == a.h.seqno && Handled(c, a).send.next == Plus(c.send.next, 1)
    ensures NextPosition(c, at, a) == a.pos
  {
  }

  /** Each one sets recv_next to its own number and moves send_next on. */
  lemma {:induction false} StraysMove(run: Run, strays: seq<Arrival>)
    requires After(run).phase == SynRcvd && AllStray(run, strays)
    ensures var c, c' := After(run), After(Follow(run, strays));
            && c'.phase == SynRcvd && c'.send.next == Plus(c.send.next, |strays|)
            && c'.recvNext == (if strays == [] then c.recvNext else strays[|strays| - 1].h.seqno)
            && Position(Follow(run, strays)) == if strays == [] then Position(run) else strays[|strays| - 1].pos
    decreases |strays|
  {
    if strays == [] {
    } else {
      var before := Follow(run, strays[..|strays| - 1]);
      StraysMove(run, strays[..|strays| - 1]);
      StrayMoves(After(before), Position(before), strays[|strays| - 1]);
      PlusPlus(After(run).send.next, |strays| - 1, 1);
    }
  }

  lemma {:induction false} SameAfterTurns(x: U32, n: nat)
    ensures Plus(x, n) == x <==> n % TWO32 == 0
  {
    var q := (x + n) / TWO32;
    if Plus(x, n) == x {
      assert n == q * TWO32;
    }
    if n % TWO32 == 0 {
      ModIs(x + n, x, n / TWO32);
    }
  }

  /** The peer's SYN, and its acknowledgement of the SYN that was sent back. */
  predicate Handshake(base: U32, syn: Arrival, ack: Arrival)
  {
    && syn.h.flags.syn && syn.bound && syn.pos == -1 && syn.h.seqno == SeqOf(base, -1) && HdrSize(syn.h.flags) > 0
    && ack.h.flags.ack && !ack.h.flags.rst && ack.pos == 0 && ack.h.seqno == SeqOf(base, 0)
    && ack.h.ackNum == Plus(syn.iss, 1) && HdrSize(ack.h.flags) > 0
  }

  /**
   A passive open: the peer's acknowledgement establishes the connection iff no segment came between, or their
   number is a multiple of 2^32 and the last had the number of the first byte. Delivery starts there.
   */
  lemma {:induction false} PassiveExactly(base: U32, c: Conn, syn: Arrival, strays: seq<Arrival>, ack: Arrival)
    requires c.phase == Listen && Handshake(base, syn, ack) && AllStray(Then(Begin(c), syn), strays)
    ensures var run := Then(Follow(Then(Begin(c), syn), strays), ack);
            && (After(run).phase == Established <==>
                  |strays| % TWO32 == 0 && (strays == [] || strays[|strays| - 1].h.seqno == SeqOf(base, 0)))
            && (After(run).phase == Established ==> Origin(run) == if strays == [] then 0 else strays[|strays| - 1].pos)
  {
    var start := Then(Begin(c), syn);
    SeqPlus(base, -1, 1);
    StraysMove(start, strays);
    SameAfterTurns(Plus(syn.iss, 1), |strays|);
  }

  /** The SYN a second time is such a segment: after it the acknowledgement does not establish the connection. */
  lemma {:induction false} RepeatedSyn(base: U32, c: Conn, syn: Arrival, ack: Arrival)
    requires c.phase == Listen && Handshake(base, syn, ack) && !syn.h.flags.ack && !syn.h.flags.rst
    ensures After(Then(Then(Then(Begin(c), syn), syn), ack)).phase == SynRcvd
  {
    var start := Then(Begin(c), syn);
    assert [syn][..0] == [] && AllStray(start, []) && Follow(start, []) == start;
    assert After(start).phase == SynRcvd && After(Then(start, syn)).phase == SynRcvd;
    assert Follow(start, [syn]) == Then(start, syn) && AllStray(start, [syn]);
    PassiveExactly(base, c, syn, [syn], ack);
  }
}
