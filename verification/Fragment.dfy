/**
 Cutting an IP datagram into fragments, in place.
 */
module Fragment {
  import opened Bytes
  import opened IpHeader

  const ETHER_DATA_LEN := 1500

  /** `(plen + 7) & ~7`. */
  function OffRound(plen: nat): nat
  {
    (plen + 7) / 8 * 8
  }

  function NextSize(bytes: nat, hlen: nat, mtu: nat): nat
    requires hlen + 8 <= mtu
  {
    var max := OffRound(mtu - hlen - 8);
    if bytes < max then bytes else max
  }

  /** The size of every fragment but the last. */
  function MaxFrag(hlen: nat): (f: nat)
    requires hlen <= 60
    ensures 0 < f && f % 8 == 0 && hlen + f <= ETHER_DATA_LEN
  {
    OffRound(ETHER_DATA_LEN - hlen - 8)
  }

  /** That is the only multiple of 8 that leaves 1 to 8 bytes of an Ethernet frame of 1500 unused. */
  lemma {:induction false} MaxFragExactly(hlen: nat, f: nat)
    requires hlen <= 60
    ensures f == MaxFrag(hlen) <==> f % 8 == 0 && 1492 <= hlen + f < 1500
  {
  }

  // ---------- the cut ----------

  datatype Frag = Frag(off: nat, len: nat, more: bool)

  /** How `total` bytes from `off` on are cut into pieces of `f` bytes. */
  function Cut(total: nat, f: nat, off: nat): (r: seq<Frag>)
    requires off <= total && 0 < f
    ensures r != []
    decreases total - off
  {
    if total - off <= f then [Frag(off, total - off, false)]
    else [Frag(off, f, true)] + Cut(total, f, off + f)
  }

  /** The pieces lie end to end, all but the last of full size and marked as followed by more. */
  ghost predicate Tiles(fs: seq<Frag>, total: nat, f: nat, off: nat)
  {
    && fs != [] && fs[0].off == off
    && (forall k :: 0 <= k < |fs| ==> fs[k].off % 8 == 0 && fs[k].len <= f && off <= fs[k].off)
    && (forall k :: 0 <= k < |fs| - 1 ==> fs[k].len == f && fs[k].more && fs[k].off + f == fs[k + 1].off)
    && (var z := fs[|fs| - 1]; !z.more && z.off + z.len == total && (off < total ==> 0 < z.len))
  }

  lemma {:induction false} TilesCons(rest: seq<Frag>, total: nat, f: nat, off: nat)
    requires Tiles(rest, total, f, off + f) && off + f < total && off % 8 == 0
    ensures Tiles([Frag(off, f, true)] + rest, total, f, off)
  {
    var fs := [Frag(off, f, true)] + rest;
    assert forall k :: 1 <= k < |fs| ==> fs[k] == rest[k - 1];
    assert fs[|fs| - 1] == rest[|rest| - 1];
    forall k | 0 <= k < |fs| - 1
      ensures fs[k].len == f && fs[k].more && fs[k].off + f == fs[k + 1].off
    {
      assert k > 0 ==> fs[k] == rest[k - 1] && fs[k + 1] == rest[k];
    }
  }

  lemma {:induction false} CutTiles(total: nat, f: nat, off: nat)
    requires off <= total && 0 < f && f % 8 == 0 && off % 8 == 0
    ensures Tiles(Cut(total, f, off), total, f, off)
    decreases total - off
  {
    if total - off > f {
      CutTiles(total, f, off + f);
      TilesCons(Cut(total, f, off + f), total, f, off);
    }
  }

  /** The offsets grow from piece to piece. */
  lemma {:induction false} TilesGrow(fs: seq<Frag>, total: nat, f: nat, off: nat, j: nat, k: nat)
    requires Tiles(fs, total, f, off) && 0 < f && j < k < |fs|
    ensures fs[j].off + fs[j].len <= fs[k].off
  {
    if j < k - 1 {
      TilesGrow(fs, total, f, off, j, k - 1);
    }
  }

  /** Every piece ends inside the payload. */
  lemma {:induction false} TilesInside(fs: seq<Frag>, total: nat, f: nat, off: nat, k: nat)
    requires Tiles(fs, total, f, off) && 0 < f && k < |fs|
    ensures fs[k].off + fs[k].len <= total
  {
    if k < |fs| - 1 {
      TilesGrow(fs, total, f, off, k, |fs| - 1);
    }
  }

  // ---------- the frames ----------

  /** The frame that carries one piece of `data`. */
  function Frame(h: IpHdr, opts: seq<Byte>, data: seq<Byte>, fr: Frag): (r: seq<Byte>)
    requires fr.off + fr.len <= |data| <= IP_MAX_BYTES && Hlen(h) + fr.len <= IP_MAX_BYTES
  {
    Wire(FragHdr(h, fr), opts) + data[fr.off..fr.off + fr.len]
  }

  function FragHdr(h: IpHdr, fr: Frag): IpHdr
    requires fr.off <= IP_MAX_BYTES && Hlen(h) + fr.len <= IP_MAX_BYTES
  {
    h.(len := Hlen(h) + fr.len, foff := (if fr.more then FLAG_MF else 0) + fr.off / 8)
  }

  /** `frame` carries the piece `fr`. */
  ghost predicate Carries(frame: seq<Byte>, h: IpHdr, opts: seq<Byte>, data: seq<Byte>, fr: Frag)
  {
    fr.off + fr.len <= |data| <= IP_MAX_BYTES && Hlen(h) + fr.len <= ETHER_DATA_LEN && frame == Frame(h, opts, data, fr)
  }

  // ---------- ip_send_fragments ----------

  function SumTo(answers: nat -> int, n: nat): int
  {
    if n == 0 then 0 else SumTo(answers, n - 1) + answers(n - 1)
  }

  /** `sent` are the frames of the first pieces of `fs`, in order. */
  ghost predicate Sent(sent: seq<seq<Byte>>, h: IpHdr, opts: seq<Byte>, data: seq<Byte>, fs: seq<Frag>)
  {
    |sent| <= |fs| && forall k :: 0 <= k < |sent| ==> Carries(sent[k], h, opts, data, fs[k])
  }

  /** How many of `total` frames go out when the k-th ether_send answers `answers(k)`, and what is returned. */
  ghost predicate Outcome(total: nat, answers: nat -> int, n: nat, ret: int)
  {
    && 0 < n <= total
    && (forall k :: 0 <= k < n - 1 ==> answers(k) >= 0)
    && (answers(n - 1) >= 0 ==> n == total && ret == SumTo(answers, n))
    && (answers(n - 1) < 0 ==> ret == answers(n - 1))
  }

  function Moved(b: seq<Byte>, dst: nat, src: nat, n: nat): seq<Byte>
    requires dst <= src && src + n <= |b|
  {
    b[..dst] + b[src..src + n] + b[dst + n..]
  }

  method Memmove(buf: array<Byte>, dst: nat, src: nat, n: nat)
    requires dst <= src && src + n <= buf.Length
    modifies buf
    ensures buf[..] == Moved(old(buf[..]), dst, src, n)
  {
    var moved := buf[src..src + n];
    forall k | 0 <= k < n {
      buf[dst + k] := moved[k];
    }
  }

  /** What the buffer holds between two iterations: options in place, and everything from `off` on still unsent. */
  ghost predicate Unsent(b: seq<Byte>, h: IpHdr, opts: seq<Byte>, data: seq<Byte>, off: nat)
  {
    && 20 <= Hlen(h) && |opts| == Hlen(h) - 20 && off <= |data| && |b| == Hlen(h) + |data|
    && b[20..Hlen(h)] == opts && b[Hlen(h) + off..] == data[off..]
  }

  /** The buffer after the header `w` has been written and `len` bytes at `off` moved up behind it. */
  function Staged(b: seq<Byte>, w: seq<Byte>, off: nat, len: nat): seq<Byte>
    requires |b| >= |w| + off + len
  {
    Moved(w + b[|w|..], |w|, |w| + off, len)
  }

  lemma {:induction false} StagedBytes(b: seq<Byte>, w: seq<Byte>, data: seq<Byte>, off: nat, len: nat)
    requires 20 <= |w| && |b| == |w| + |data| && off + len <= |data| && b[|w| + off..] == data[off..]
    requires off == 0 || len <= off
    ensures var b' := Staged(b, w, off, len);
            && |b'| == |b| && b'[..|w| + len] == w + data[off..off + len] && b'[20..|w|] == w[20..]
            && b'[|w| + off + len..] == data[off + len..]
  {
    var b1, b' := w + b[|w|..], Staged(b, w, off, len);
    assert b1[|w| + off..|w| + off + len] == b[|w| + off..][..len] == data[off..off + len];
    assert b1[..|w|] == w;
    assert b' == w + data[off..off + len] + b[|w| + len..];
    assert data[off + len..] == data[off..][len..];
    assert b[|w| + off + len..] == b[|w| + off..][len..];
    assert b'[|w| + off + len..] == b[|w| + off + len..];
  }

  method WriteHeader(payload: array<Byte>, g: IpHdr, ghost w: seq<Byte>)
    requires 20 <= Hlen(g) <= payload.Length && w == Wire(g, payload[20..Hlen(g)])
    modifies payload
    ensures |w| == Hlen(g) && payload[..] == w + old(payload[..])[|w|..]
  {
    ghost var b := payload[..];
    assert payload[Hlen(g)..] == b[Hlen(g)..];
    Hton(g, payload);
  }

  /** Writes the header `g` and moves the `n` bytes at `off` up behind it. */
  method Stage(payload: array<Byte>, g: IpHdr, off: nat, n: nat, ghost w: seq<Byte>)
    requires 20 <= Hlen(g) && Hlen(g) + off + n <= payload.Length && w == Wire(g, payload[20..Hlen(g)])
    modifies payload
    ensures |w| == Hlen(g) && payload[..] == Staged(old(payload[..]), w, off, n)
  {
    WriteHeader(payload, g, w);
    Memmove(payload, Hlen(g), Hlen(g) + off, n);
  }

  method SendOne(payload: array<Byte>, h: IpHdr, fr: Frag, ghost opts: seq<Byte>,
      ghost data: seq<Byte>) returns (frame: seq<Byte>)
    requires Unsent(payload[..], h, opts, data, fr.off) && fr.off + fr.len <= |data| && payload.Length <= IP_MAX_BYTES
    requires (fr.off == 0 || fr.len <= fr.off) && Hlen(h) + fr.len <= ETHER_DATA_LEN
    modifies payload
    ensures Carries(frame, h, opts, data, fr) && Unsent(payload[..], h, opts, data, fr.off + fr.len)
  {
    ghost var b, w := payload[..], Wire(FragHdr(h, fr), opts);
    var n := Hlen(h) + fr.len;
    assert payload[20..Hlen(h)] == b[20..Hlen(h)];
    StagedBytes(b, w, data, fr.off, fr.len);
    assert w[20..] == opts;
    Stage(payload, FragHdr(h, fr), fr.off, fr.len, w);
    frame := payload[..n];
    assert frame == payload[..][..n];
  }

  lemma {:induction false} SentSnoc(sent: seq<seq<Byte>>, h: IpHdr, opts: seq<Byte>, data: seq<Byte>, fs: seq<Frag>,
      frame: seq<Byte>)
    requires Sent(sent, h, opts, data, fs) && |sent| < |fs| && Carries(frame, h, opts, data, fs[|sent|])
    ensures Sent(sent + [frame], h, opts, data, fs)
  {
    var s := sent + [frame];
    forall k | 0 <= k < |s|
      ensures Carries(s[k], h, opts, data, fs[k])
    {
      assert s[k] == if k < |sent| then sent[k] else frame;
    }
  }

  lemma {:induction false} NextCut(total: nat, hlen: nat, off: nat, fr: Frag)
    requires off <= total <= IP_MAX_BYTES && 20 <= hlen <= 60
    requires fr == (var n := NextSize(total - off, hlen, ETHER_DATA_LEN); Frag(off, n, n < total - off))
    ensures fr.len <= MaxFrag(hlen) && (fr.more ==> fr.len == MaxFrag(hlen))
    ensures Cut(total, MaxFrag(hlen), off) == [fr] + (if fr.more then Cut(total, MaxFrag(hlen), off + fr.len) else [])
  {
  }

  lemma {:induction false} CutSuffix(fs: seq<Frag>, k: nat, fr: Frag, rest: seq<Frag>)
    requires k <= |fs| && fs[k..] == [fr] + rest
    ensures k < |fs| && fs[k] == fr && fs[k + 1..] == rest
  {
    assert fs[k] == fs[k..][0];
    assert fs[k + 1..] == fs[k..][1..];
  }

  /** Before a round of the loop: the frames so far, and the buffer with the pieces still to come. */
  ghost predicate Ready(b: seq<Byte>, h: IpHdr, opts: seq<Byte>, data: seq<Byte>, fs: seq<Frag>,
      sent: seq<seq<Byte>>, off: nat)
  {
    && Unsent(b, h, opts, data, off) == true && (off == 0 || MaxFrag(Hlen(h)) <= off)
    && Sent(sent, h, opts, data, fs) == true
    && |sent| <= |fs| && fs[|sent|..] == Cut(|data|, MaxFrag(Hlen(h)), off)
  }

  /** One round: the next piece is cut off, staged and handed out. */
  method SendNext(payload: array<Byte>, h: IpHdr, bytes: nat, offset: nat, ghost opts: seq<Byte>,
      ghost data: seq<Byte>, ghost fs: seq<Frag>, ghost sent: seq<seq<Byte>>)
    returns (plen: nat, frame: seq<Byte>)
    requires Ready(payload[..], h, opts, data, fs, sent, offset) && offset + bytes == |data| &&
        payload.Length <= IP_MAX_BYTES
    modifies payload
    ensures plen <= bytes && (bytes > 0 ==> plen > 0) && |sent| < |fs| &&
        Sent(sent + [frame], h, opts, data, fs) == true
    ensures plen < bytes ==> Ready(payload[..], h, opts, data, fs, sent + [frame], offset + plen)
    ensures plen == bytes ==> |sent| + 1 == |fs|
  {
    var hlen := Hlen(h);
    plen := NextSize(bytes, hlen, ETHER_DATA_LEN);
    var fr := Frag(offset, plen, bytes - plen != 0);
    ghost var rest := if fr.more then Cut(|data|, MaxFrag(hlen), offset + plen) else [];
    NextCut(|data|, hlen, offset, fr);
    CutSuffix(fs, |sent|, fr, rest);
    frame := SendOne(payload, h, fr, opts, data);
    SentSnoc(sent, h, opts, data, fs, frame);
  }

  ghost predicate Answered(answers: nat -> int, n: nat, ret: int)
  {
    (forall k :: 0 <= k < n ==> answers(k) >= 0) && ret == SumTo(answers, n)
  }

  method SendFragments(payload: array<Byte>, answers: nat -> int) returns (sent: seq<seq<Byte>>, ret: int)
    requires 20 <= payload.Length <= IP_MAX_BYTES && 20 <= Hlen(Parse(payload[..20])) <= payload.Length
    modifies payload
    ensures var h := Parse(old(payload[..20]));
            var fs := Cut(payload.Length - Hlen(h), MaxFrag(Hlen(h)), 0);
            && Sent(sent, h, old(payload[20..Hlen(h)]), old(payload[Hlen(h)..]), fs)
            && Outcome(|fs|, answers, |sent|, ret)
  {
    var h := Parse(payload[..20]);
    var hlen := Hlen(h);
    ghost var opts, data := payload[20..hlen], payload[hlen..];
    ghost var fs := Cut(|data|, MaxFrag(hlen), 0);
    var bytes, offset := payload.Length - hlen, 0;
    var again := true;
    sent, ret := [], 0;
    while again
      invariant 0 <= offset && 0 <= bytes && offset + bytes == |data|
      invariant again ==> Ready(payload[..], h, opts, data, fs, sent, offset) == true
      invariant !again ==> Sent(sent, h, opts, data, fs) == true && 0 < |sent| == |fs|
      invariant Answered(answers, |sent|, ret) == true
      decreases bytes, again
    {
      var plen, frame := SendNext(payload, h, bytes, offset, opts, data, fs, sent);
      bytes := bytes - plen;
      var eret := answers(|sent|);
      sent := sent + [frame];
      if eret < 0 {
        return sent, eret;
      }
      ret := ret + eret;
      offset := offset + plen;
      again := bytes > 0;
    }
  }
}
