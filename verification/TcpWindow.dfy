/**
 The sequence numbers of the sending side: the next one to use, the oldest that is not acknowledged,
 and the highest that was sent.
 */
module TcpWindow {
  import opened Bytes

  const TWO32 := 0x1_0000_0000

  /** Sequence numbers count modulo 2^32. */
  function Plus(x: U32, n: int): U32
  {
    (x + n) % TWO32
  }

  lemma {:induction false} ModIs(x: int, y: int, q: int)
    requires x == y + q * TWO32
    ensures x % TWO32 == y % TWO32
  {
  }

  lemma {:induction false} PlusPlus(x: U32, m: int, n: int)
    ensures Plus(Plus(x, m), n) == Plus(x, m + n)
  {
    ModIs(x + m + n, Plus(x, m) + n, (x + m) / TWO32);
  }

  datatype Send = Send(next: U32, una: U32, max: U32)

  /** The sequence numbers after tcp_ack_segments. */
  function AckSend(s: Send, ack: U32): Send
  {
    if ack <= s.una then s else if ack == s.max then s.(una := ack) else s.(una := ack, next := ack)
  }

  /** The numbers are in order: nothing is to be sent that has been acknowledged, or that was never sent. */
  predicate InWindow(s: Send)
  {
    s.una <= s.next <= s.max
  }

  /**
   An acknowledgement keeps that order iff it is of nothing new, or of a part of what is outstanding, or of all of it
   when send_next was not set back. One of numbers that were never sent is taken, and breaks it.
   */
  lemma {:induction false} WindowKeptExactly(s: Send, ack: U32)
    requires InWindow(s)
    ensures InWindow(AckSend(s, ack)) <==> ack <= s.una || ack < s.max || (ack == s.max && s.next == s.max)
  {
  }

  /** Two acknowledgements in a row, of a part and of the rest, leave send_next behind send_una. */
  lemma {:induction false} SecondAckOvertakes(s: Send, part: U32)
    requires InWindow(s) && s.una < part < s.max
    ensures var t := AckSend(AckSend(s, part), s.max);
            InWindow(AckSend(s, part)) && t.next == part && t.una == s.max && !InWindow(t)
  {
  }

  // ---------- wrap-around ----------

  /** The comparison is of plain numbers: an acknowledgement of the next `n` counts iff they do not wrap around. */
  lemma {:induction false} TakenExactly(s: Send, n: int)
    requires 0 < n < TWO32
    ensures s.una + n < TWO32 ==> AckSend(s, Plus(s.una, n)).una == Plus(s.una, n)
    ensures s.una + n >= TWO32 ==> AckSend(s, Plus(s.una, n)) == s && Plus(s.una, n) != s.una
  {
    if s.una + n >= TWO32 {
      ModIs(s.una + n, s.una + n - TWO32, 1);
    }
  }

  function AckAll(s: Send, acks: seq<U32>): Send
  {
    if acks == [] then s else AckSend(AckAll(s, acks[..|acks| - 1]), acks[|acks| - 1])
  }

  /** `m` is the greatest of `x` and the numbers in `acks`. */
  predicate IsGreatest(m: U32, x: U32, acks: seq<U32>)
  {
    x <= m && (m == x || m in acks) && forall i :: 0 <= i < |acks| ==> acks[i] <= m
  }

  /** Whatever acknowledgements come, send_una is the greatest number among them, wrapped around or not. */
  lemma {:induction false} GreatestCounts(s: Send, acks: seq<U32>)
    ensures IsGreatest(AckAll(s, acks).una, s.una, acks)
  {
    if acks == [] {
    } else {
      GreatestCounts(s, acks[..|acks| - 1]);
    }
  }

  /** So while the numbers sent after the wrap-around are acknowledged, in any order, nothing ever changes. */
  lemma {:induction false} WrappedStalls(s: Send, acks: seq<U32>)
    requires forall i :: 0 <= i < |acks| ==> acks[i] <= s.una
    ensures AckAll(s, acks) == s
  {
    if acks == [] {
    } else {
      WrappedStalls(s, acks[..|acks| - 1]);
    }
  }

  /** 32 bytes sent across the wrap-around, and the acknowledgement of all of them. */
  lemma {:induction false} AckAcrossWrap()
    ensures var s := Send(0x10, 0xFFFF_FFF0, 0x10); Plus(s.una, 32) == s.max && AckSend(s, s.max) == s
  {
  }
}
