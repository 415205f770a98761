/**
 What two ends make of each other: the answers of a connection, given to the connection at the other end.
 */
module TcpTalk {
  import opened Bytes
  import opened RttEstimator
  import opened TcpWindow
  import opened TcpFsm

  // ---------- when there is an answer, and what it carries ----------

  /** The segment is for this connection the one that ends SYN_RCVD. */
  predicate EndsSynRcvd(c: Conn, h: Header)
  {
    (h.flags.rst || h.flags.ack) && h.seqno == c.recvNext && h.ackNum == c.send.next
  }

  /** Exactly which segments are answered. */
  lemma {:induction false} AnsweredExactly(c: Conn, h: Header, data: seq<Byte>, bound: bool, iss: U32)
    ensures Replied(c, h, data, bound, iss).Some? <==>
            && !Dropped(c, h)
            && (|| (c.phase == SynSent && (h.flags.syn || h.flags.ack))
                || (c.phase == Listen && h.flags.syn)
                || (c.phase == SynRcvd && !EndsSynRcvd(c, h))
                || (c.phase == Established && (TakenAsData(c, h) || h.flags.fin)))
  {
  }

  /** The answer acknowledges what is expected next and has the number that send_next stood for, or moved on from. */
  lemma {:induction false} AnswerNumbers(c: Conn, h: Header, data: seq<Byte>, bound: bool, iss: U32)
    requires Replied(c, h, data, bound, iss).Some?
    ensures var a, c' := Replied(c, h, data, bound, iss).value, Taken(c, h, data, bound, iss);
            && a.ackNum == c'.recvNext && a.win == h.win && HdrSize(a.flags) == 4 * a.flags.doff >= 20
            && (c.phase == SynSent || TakenAsData(c, h) ==> a.seqno == c'.send.next)
            && (c.phase != SynSent && !TakenAsData(c, h) ==> Plus(a.seqno, 1) == c'.send.next)
            && (c.phase == Listen ==> a.seqno == iss)
  {
    PlusOne(c.send.next);
  }

  lemma {:induction false} PlusOne(x: U32)
    ensures Plus(x, 1) == if x == TWO32 - 1 then 0 else x + 1
  {
  }

  /** ACK is set but in SYN_RCVD; a SYN is answered with SYN by a bound port, with RST by another; data without PSH. */
  lemma {:induction false} AnswerFlags(c: Conn, h: Header, data: seq<Byte>, bound: bool, iss: U32)
    requires Replied(c, h, data, bound, iss).Some?
    ensures var f := Replied(c, h, data, bound, iss).value.flags;
            && (f.ack <==> c.phase != SynRcvd)
            && (c.phase == Listen ==> f.syn == bound && f.rst == (!bound || h.flags.rst) && f.fin == h.flags.fin)
            && (c.phase == SynSent ==> f == Flags(5, true, false, false, false, false))
            && (c.phase == SynRcvd ==> f == h.flags.(ack := false))
            && (TakenAsData(c, h) ==> f == h.flags.(psh := false))
            && (c.phase == Established && !TakenAsData(c, h) ==> f.fin && f == h.flags.(ack := true))
  {
  }

  // ---------- the handshake ----------

  /** Each end expects next what the other one sends next. */
  predicate InStep(a: Conn, b: Conn)
  {
    a.phase == Established && b.phase == Established && a.recvNext == b.send.next && b.recvNext == a.send.next
  }

  /** A SYN with the number `isn`, from a connection that has sent it. */
  predicate Opens(client: Conn, syn: Header, isn: U32)
  {
    && client.phase == SynSent && client.send.next == Plus(isn, 1)
    && syn.seqno == isn && syn.flags.syn && HdrSize(syn.flags) > 0
  }

  lemma {:induction false} FirstAnswer(client: Conn, server: Conn, syn: Header, isn: U32, iss: U32, bound: bool)
    requires Opens(client, syn, isn) && server.phase == Listen
    ensures Replied(server, syn, [], bound, iss).Some?
    ensures var r, s := Replied(server, syn, [], bound, iss).value, Taken(server, syn, [], bound, iss);
            && r.seqno == iss && r.ackNum == client.send.next == s.recvNext && r.flags.ack && HdrSize(r.flags) > 0
            && s.phase == (if bound then SynRcvd else Closed) && s.send.next == Plus(iss, 1) && s.log == server.log
  {
  }

  lemma {:induction false} SecondAnswer(client: Conn, r: Header, iss: U32)
    requires client.phase == SynSent && r.seqno == iss && r.flags.ack && HdrSize(r.flags) > 0
    ensures Replied(client, r, [], true, 0).Some?
    ensures var q, c := Replied(client, r, [], true, 0).value, Taken(client, r, [], true, 0);
            && q.seqno == client.send.next && q.ackNum == Plus(iss, 1)
            && q.flags == Flags(5, true, false, false, false, false)
            && c.phase == Established && c.recvNext == Plus(iss, 1) && c.send == client.send && c.log == client.log
  {
  }

  /** The three segments of the handshake, each made by one end and given to the other. */
  lemma {:induction false} Handshake(client: Conn, server: Conn, syn: Header, isn: U32, iss: U32)
    requires Opens(client, syn, isn) && server.phase == Listen
    ensures Replied(server, syn, [], true, iss).Some?
    ensures var r, s := Replied(server, syn, [], true, iss).value, Taken(server, syn, [], true, iss);
            && Replied(client, r, [], true, 0).Some?
            && var q, c := Replied(client, r, [], true, 0).value, Taken(client, r, [], true, 0);
               && Replied(s, q, [], true, 0) == None
               && InStep(c, Taken(s, q, [], true, 0)) && Taken(s, q, [], true, 0).log == server.log
               && c.log == client.log
  {
    FirstAnswer(client, server, syn, isn, iss, true);
    var r, s := Replied(server, syn, [], true, iss).value, Taken(server, syn, [], true, iss);
    SecondAnswer(client, r, iss);
    var q, c := Replied(client, r, [], true, 0).value, Taken(client, r, [], true, 0);
    assert Rank(s.phase) < Rank(Established);
    assert Taken(s, q, [], true, 0).phase == Established;
  }

  /** The answer of a port that is not bound carries RST and ACK, and the client takes it for success all the same. */
  lemma {:induction false} RefusedEstablishes(client: Conn, server: Conn, syn: Header, isn: U32, iss: U32, bound: bool)
    requires Opens(client, syn, isn) && server.phase == Listen
    ensures Replied(server, syn, [], bound, iss).Some?
    ensures var r := Replied(server, syn, [], bound, iss).value;
            && (!bound ==> r.flags.rst && !r.flags.syn)
            && Taken(client, r, [], true, 0).phase == Established
            && (Taken(server, syn, [], bound, iss).phase == SynRcvd <==> bound)
  {
    FirstAnswer(client, server, syn, isn, iss, bound);
    SecondAnswer(client, Replied(server, syn, [], bound, iss).value, iss);
  }

  // ---------- data ----------

  /** The header that tcp_send_segments makes for the next segment. */
  function DataHeader(a: Conn): Header
  {
    Header(a.send.next, a.recvNext, Flags(5, true, true, false, false, false), 502)
  }

  /** The sender when it has sent `n` more bytes. */
  function Sending(a: Conn, n: nat): Conn
  {
    a.(send := a.send.(next := Plus(a.send.next, n), max := Plus(a.send.next, n)))
  }

  lemma {:induction false} SameNext(s: Send)
    ensures AckSend(s, s.next).next == s.next
  {
  }

  /** Data from an end in step is delivered whole, and the answer acknowledges all of it. */
  lemma {:induction false} Passed(a: Conn, b: Conn, data: seq<Byte>)
    requires InStep(a, b)
    ensures var b', r := Taken(b, DataHeader(a), data, true, 0), Replied(b, DataHeader(a), data, true, 0);
            && b'.log == b.log + data && InStep(Sending(a, |data|), b') == true
            && r == Some(Header(a.recvNext, Sending(a, |data|).send.next,
                                Flags(5, true, false, false, false, false), 502))
  {
    SameNext(b.send);
    assert TakenAsData(b, DataHeader(a));
  }

  /** The sender learns that all has arrived, stops its timer and stays in step. */
  lemma {:induction false} Acknowledged(a: Conn, b: Conn, win: U16)
    requires InStep(a, b) && a.send.una < a.send.next == a.send.max
    ensures var r := Header(a.recvNext, a.send.max, Flags(5, true, false, false, false, false), win);
            var a' := Taken(a, r, [], true, 0);
            && a'.send == a.send.(una := a.send.max) && a'.rexmt == 0 && a'.log == a.log && InStep(a', b)
            && Replied(a, r, [], true, 0) == None
  {
  }

  function Flat(chunks: seq<seq<Byte>>): seq<Byte>
  {
    if chunks == [] then [] else Flat(chunks[..|chunks| - 1]) + chunks[|chunks| - 1]
  }

  /** Both ends after the chunks have been sent and have arrived, one after the other. */
  function Talked(a: Conn, b: Conn, chunks: seq<seq<Byte>>): (Conn, Conn)
  {
    if chunks == [] then (a, b)
    else
      var (c, d) := Talked(a, b, chunks[..|chunks| - 1]);
      var data := chunks[|chunks| - 1];
      (Sending(c, |data|), Taken(d, DataHeader(c), data, true, 0))
  }

  /** Whatever is sent in order arrives, all of it. */
  lemma {:induction false} AllArrives(a: Conn, b: Conn, chunks: seq<seq<Byte>>)
    requires InStep(a, b)
    ensures var (c, d) := Talked(a, b, chunks); InStep(c, d) && d.log == b.log + Flat(chunks)
  {
    if chunks == [] {
    } else {
      AllArrives(a, b, chunks[..|chunks| - 1]);
      var (c, d) := Talked(a, b, chunks[..|chunks| - 1]);
      Passed(c, d, chunks[|chunks| - 1]);
    }
  }

  // ---------- the end ----------

  /** In LAST_ACK exactly an acknowledgement closes; nothing is delivered or answered any more. */
  lemma {:induction false} ClosedExactly(c: Conn, h: Header, data: seq<Byte>, bound: bool, iss: U32)
    requires c.phase == LastAck
    ensures Taken(c, h, data, bound, iss).phase == Closed <==> h.flags.ack && !Dropped(c, h)
    ensures Taken(c, h, data, bound, iss).log == c.log && Replied(c, h, data, bound, iss) == None
  {
  }

  /** In SYN_RCVD exactly a RST with both numbers right makes the connection listen again. */
  lemma {:induction false} ResetExactly(c: Conn, h: Header, data: seq<Byte>, bound: bool, iss: U32)
    requires c.phase == SynRcvd
    ensures Taken(c, h, data, bound, iss).phase == Listen <==>
            h.flags.rst && h.seqno == c.recvNext && h.ackNum == c.send.next && HdrSize(h.flags) > 0
  {
  }

  /** Exactly what tcp_input refuses to look at. */
  lemma {:induction false} DroppedExactly(c: Conn, h: Header)
    ensures Dropped(c, h) <==>
            || !(5 <= h.flags.doff <= 15)
            || (h.flags.syn && c.phase !in {Closed, Listen, SynRcvd, SynSent})
    ensures Dropped(c, h) ==> forall data, bound, iss :: Taken(c, h, data, bound, iss) == c
  {
  }

  /** The FIN behind the last byte, and the acknowledgement that follows it. */
  function FinHeader(a: Conn): Header
  {
    Header(a.send.next, a.recvNext, Flags(5, true, false, false, false, true), 502)
  }

  lemma {:induction false} Closes(a: Conn, b: Conn, ack: Header)
    requires InStep(a, b) && ack.flags.ack && !ack.flags.syn && HdrSize(ack.flags) > 0
    ensures var b', r := Taken(b, FinHeader(a), [], true, 0), Replied(b, FinHeader(a), [], true, 0);
            && b'.phase == LastAck && b'.log == b.log && r.Some? && r.value.ackNum == Plus(a.send.next, 1)
            && r.value.flags.fin && r.value.flags.ack && Plus(r.value.seqno, 1) == b'.send.next
            && Taken(b', ack, [], true, 0).phase == Closed && Taken(b', ack, [], true, 0).log == b.log
  {
    SameNext(b.send);
  }

  /**
   The whole life of a passively opened connection: handshake, any data in order, FIN and the last acknowledgement
   take it from LISTEN to CLOSED, and the socket has been given exactly the data.
   */
  lemma {:induction false} WholeLife(client: Conn, server: Conn, syn: Header, isn: U32, iss: U32,
      chunks: seq<seq<Byte>>, ack: Header)
    requires Opens(client, syn, isn) && server.phase == Listen && server.log == []
    requires ack.flags.ack && !ack.flags.syn && HdrSize(ack.flags) > 0
    ensures Replied(server, syn, [], true, iss).Some?
    ensures var r, s := Replied(server, syn, [], true, iss).value, Taken(server, syn, [], true, iss);
            && Replied(client, r, [], true, 0).Some?
            && var q, c := Replied(client, r, [], true, 0).value, Taken(client, r, [], true, 0);
               var (a, b) := Talked(c, Taken(s, q, [], true, 0), chunks);
               var end := Taken(Taken(b, FinHeader(a), [], true, 0), ack, [], true, 0);
               end.phase == Closed && end.log == Flat(chunks)
  {
    Handshake(client, server, syn, isn, iss);
    var r, s := Replied(server, syn, [], true, iss).value, Taken(server, syn, [], true, iss);
    var q, c := Replied(client, r, [], true, 0).value, Taken(client, r, [], true, 0);
    var t := Taken(s, q, [], true, 0);
    AllArrives(c, t, chunks);
    var (a, b) := Talked(c, t, chunks);
    Closes(a, b, ack);
    assert [] + Flat(chunks) == Flat(chunks);
  }

  // ---------- timers and samples ----------

  /** A connection that becomes established has no timer for its opening any more. */
  lemma {:induction false} OpeningTimers(c: Conn, h: Header, data: seq<Byte>, bound: bool, iss: U32)
    requires c.phase != Established && Taken(c, h, data, bound, iss).phase == Established
    ensures Taken(c, h, data, bound, iss).keep == 0
    ensures c.phase == SynSent ==>
              Taken(c, h, data, bound, iss).rexmt == 1 && Taken(c, h, data, bound, iss).recvWnd == h.win
  {
  }

  /** An acknowledgement that moves on stops the retransmission timer exactly if it covers all that was sent. */
  lemma {:induction false} AckTimer(c: Conn, ack: U32)
    requires c.est.est != 0
    ensures ack > c.send.una ==>
              && (Acked(c, ack).rexmt == 0 <==> Acked(c, ack).send.una == c.send.max)
              && (Acked(c, ack).rexmt != 0 ==> Acked(c, ack).rexmt == c.est.est)
    ensures ack <= c.send.una ==> Acked(c, ack) == c
  {
  }

  function HandledAll(c: Conn, arrivals: seq<Arrival>): Conn
  {
    if arrivals == [] then c else Handled(HandledAll(c, arrivals[..|arrivals| - 1]), arrivals[|arrivals| - 1])
  }

  /** One of the segments that are looked at acknowledges the byte that is being timed. */
  predicate Measured(c: Conn, arrivals: seq<Arrival>)
  {
    arrivals != [] &&
    var early, a := arrivals[..|arrivals| - 1], arrivals[|arrivals| - 1];
    Measured(c, early) || (!Dropped(HandledAll(c, early), a.h) && a.h.ackNum > c.rttSeq)
  }

  lemma {:induction false} SampleStep(c: Conn, a: Arrival)
    ensures var c', hit := Handled(c, a), !Dropped(c, a.h) && a.h.ackNum > c.rttSeq;
            && c'.rttSeq == c.rttSeq
            && (hit && c.rtt != 0 ==> c'.est == Update(c.est, c.rtt) && c'.rtt == 0)
            && (!(hit && c.rtt != 0) ==> c'.est == c.est && c'.rtt == c.rtt)
  {
  }

  /** A measured round trip goes into the estimate once, with the first segment that acknowledges the timed byte. */
  lemma {:induction false} SampledOnce(c: Conn, arrivals: seq<Arrival>)
    ensures var c', sampled := HandledAll(c, arrivals), c.rtt != 0 && Measured(c, arrivals);
            && c'.rttSeq == c.rttSeq
            && c'.est == (if sampled then Update(c.est, c.rtt) else c.est)
            && c'.rtt == (if sampled then 0 else c.rtt)
  {
    if arrivals == [] {
    } else {
      var early, a := arrivals[..|arrivals| - 1], arrivals[|arrivals| - 1];
      SampledOnce(c, early);
      SampleStep(HandledAll(c, early), a);
    }
  }
}
