/**
 The TCP header between host form and wire form, with its options turned and its checksum filled in.
 */
module TcpHeader {
  import opened Bytes
  import opened Checksum
  import opened TcpOptions

  datatype TcpHdr = TcpHdr(sport: U16, dport: U16, seqno: U32, ackNum: U32, flags: U16, win: U16, csum: U16, urg: U16)

  /** The bytes in front of the checksum. */
  function Lead(h: TcpHdr): (r: seq<Byte>)
    ensures |r| == 16
  {
    Be16(h.sport) + Be16(h.dport) + Be32(h.seqno) + Be32(h.ackNum) + Be16(h.flags) + Be16(h.win)
  }

  /** The 20 fixed bytes, with checksum field `c`, which is stored in host order. */
  function Layout(h: TcpHdr, c: U16): (r: seq<Byte>)
    ensures |r| == 20
  {
    Lead(h) + Le16(c) + Be16(h.urg)
  }

  /** The segment with its fields and its checksum, in front of the bytes `tail`. */
  function Summed(h: TcpHdr, tail: seq<Byte>, src: U32, dst: U32): seq<Byte>
  {
    Layout(h, Csum(TcpPseudo(src, dst, 20 + |tail|) + (Layout(h, 0) + tail))) + tail
  }

  /** A segment on the wire from `src` to `dst`. */
  function Wire(h: TcpHdr, opts: seq<Byte>, data: seq<Byte>, src: U32, dst: U32): seq<Byte>
    requires WellFormed(opts)
  {
    Summed(h, Turned(opts) + data, src, dst)
  }

  /** tcp_ntoh, which leaves the checksum field as it is. */
  function Parse(b: seq<Byte>): TcpHdr
    requires |b| >= 20
  {
    TcpHdr(FromBe16(b, 0), FromBe16(b, 2), FromBe32(b, 4), FromBe32(b, 8), FromBe16(b, 12), FromBe16(b, 14),
           Word(b[16], b[17]), FromBe16(b, 18))
  }

  lemma {:induction false} Regroup(p: seq<Byte>, l: seq<Byte>, c: seq<Byte>, u: seq<Byte>, t: seq<Byte>)
    ensures p + ((l + c + u) + t) == (p + l) + c + (u + t)
  {
  }

  /** A segment written by tcp_hton sums to zero with its pseudo-header. */
  lemma {:induction false} WireVerifies(h: TcpHdr, opts: seq<Byte>, data: seq<Byte>, src: U32, dst: U32)
    requires WellFormed(opts)
    ensures var w := Wire(h, opts, data, src, dst); Csum(TcpPseudo(src, dst, |w|) + w) == 0
  {
    var tail := Turned(opts) + data;
    var p := TcpPseudo(src, dst, 20 + |tail|);
    var c := Csum(p + (Layout(h, 0) + tail));
    Regroup(p, Lead(h), Le16(0), Be16(h.urg), tail);
    Regroup(p, Lead(h), Le16(c), Be16(h.urg), tail);
    StoredChecksumVerifies(p + Lead(h), Be16(h.urg) + tail);
  }

  lemma {:induction false} LeadParts(h: TcpHdr, b: seq<Byte>)
    requires |b| >= 16 && b[..16] == Lead(h)
    ensures b[0..2] == Be16(h.sport) && b[2..4] == Be16(h.dport) && b[4..8] == Be32(h.seqno) &&
        b[8..12] == Be32(h.ackNum)
    ensures b[12..14] == Be16(h.flags) && b[14..16] == Be16(h.win)
  {
    var l := Lead(h);
    assert b[0..2] == l[0..2] && b[2..4] == l[2..4] && b[4..8] == l[4..8] && b[8..12] == l[8..12];
    assert b[12..14] == l[12..14] && b[14..16] == l[14..16];
  }

  lemma {:induction false} ParseLayout(h: TcpHdr, c: U16, rest: seq<Byte>)
    ensures Parse(Layout(h, c) + rest) == h.(csum := c)
  {
    var b := Layout(h, c) + rest;
    assert b[..16] == Lead(h) && b[16..18] == Le16(c) && b[18..20] == Be16(h.urg);
    LeadParts(h, b);
    Be16At(h.sport, b, 0);
    Be16At(h.dport, b, 2);
    Be32At(h.seqno, b, 4);
    Be32At(h.ackNum, b, 8);
    Be16At(h.flags, b, 12);
    Be16At(h.win, b, 14);
    Be16At(h.urg, b, 18);
    assert b[16] == b[16..18][0] && b[17] == b[16..18][1];
  }

  lemma {:induction false} WireParts(h: TcpHdr, opts: seq<Byte>, data: seq<Byte>, src: U32, dst: U32) returns (c: U16)
    requires WellFormed(opts)
    ensures Wire(h, opts, data, src, dst) == Layout(h, c) + (Turned(opts) + data)
  {
    var tail := Turned(opts) + data;
    c := Csum(TcpPseudo(src, dst, 20 + |tail|) + (Layout(h, 0) + tail));
  }

  /** tcp_ntoh gives back the header that tcp_hton was given, with the checksum that was filled in. */
  lemma {:induction false} RoundTrip(h: TcpHdr, opts: seq<Byte>, data: seq<Byte>, src: U32, dst: U32)
    requires WellFormed(opts)
    ensures var w := Wire(h, opts, data, src, dst); |w| == 20 + |opts| + |data| && Parse(w) == h.(csum := Parse(w).csum)
  {
    var c := WireParts(h, opts, data, src, dst);
    ParseLayout(h, c, Turned(opts) + data);
  }

  lemma {:induction false} Slices(w: seq<Byte>, l: seq<Byte>, o: seq<Byte>, d: seq<Byte>)
    requires w == l + (o + d)
    ensures w[|l|..|l| + |o|] == o && w[|l| + |o|..] == d
  {
  }

  /** The options and the data on the wire are those tcp_hton was given, the options turned. */
  lemma {:induction false} WireTail(h: TcpHdr, opts: seq<Byte>, data: seq<Byte>, src: U32, dst: U32)
    requires WellFormed(opts)
    ensures var w := Wire(h, opts, data, src, dst);
            |w| == 20 + |opts| + |data| && w[20..20 + |opts|] == Turned(opts) && w[20 + |opts|..] == data
    ensures WellFormed(Turned(opts)) && Turned(Turned(opts)) == opts
  {
    var c := WireParts(h, opts, data, src, dst);
    Slices(Wire(h, opts, data, src, dst), Layout(h, c), Turned(opts), data);
    TurnedTwice(opts, 0);
  }

  /** tcp_opt_size, where a data offset below 5 gives a negative size, which makes an empty area. */
  function OptSize(h: TcpHdr): nat
  {
    if h.flags / 0x1000 < 5 then 0 else h.flags / 0x1000 * 4 - 20
  }

  /**
   Where the fields are on the wire: the header of section 3.1 of RFC 793. The data offset tells where the options
   end that the walk turns, unless it is too small for a header.
   */
  lemma {:induction false} OnWire(h: TcpHdr, opts: seq<Byte>, data: seq<Byte>, src: U32, dst: U32)
    requires WellFormed(opts)
    ensures var w := Wire(h, opts, data, src, dst);
            && |w| >= 20 && FromBe16(w, 0) == h.sport && FromBe16(w, 2) == h.dport
            && FromBe32(w, 4) == h.seqno && FromBe32(w, 8) == h.ackNum && FromBe16(w, 12) == h.flags
            && FromBe16(w, 14) == h.win && FromBe16(w, 18) == h.urg
            && 20 + OptSize(h) == if w[12] / 16 < 5 then 20 else 4 * (w[12] / 16)
  {
    var c := WireParts(h, opts, data, src, dst);
    var w := Wire(h, opts, data, src, dst);
    ParseLayout(h, c, Turned(opts) + data);
    HighNibble(w, h.flags);
  }

  lemma {:induction false} HighNibble(w: seq<Byte>, flags: U16)
    requires |w| >= 20 && FromBe16(w, 12) == flags
    ensures w[12] / 16 == flags / 0x1000
  {
  }

  lemma {:induction false} Patch(h: TcpHdr, c0: U16, c: U16, tail: seq<Byte>)
    ensures var b := Layout(h, c0) + tail; b[..16] + Le16(c) + b[18..] == Layout(h, c) + tail
  {
  }

  method SetChecksum(h: TcpHdr, c0: U16, c: U16, buf: array<Byte>, ghost tail: seq<Byte>)
    requires buf[..] == Layout(h, c0) + tail
    modifies buf
    ensures buf[..] == Layout(h, c) + tail
  {
    assert buf.Length == |buf[..]|;
    Patch(h, c0, c, tail);
    assert buf[..16] == buf[..][..16] && buf[18..] == buf[..][18..];
    Store(buf, 16, Le16(c));
  }

  method WriteFields(h: TcpHdr, buf: array<Byte>)
    requires 20 <= buf.Length
    modifies buf
    ensures buf[..] == Layout(h, 0) + old(buf[20..])
  {
    Store(buf, 0, Be16(h.sport) + Be16(h.dport) + Be32(h.seqno));
    Store(buf, 8, Be32(h.ackNum) + Be16(h.flags) + Be16(h.win));
    Store(buf, 16, Le16(0) + Be16(h.urg));
  }

  lemma {:induction false} Bounds(l: seq<Byte>, tail: seq<Byte>, x: seq<Byte>)
    ensures var b := l + (tail + x); b[..|l| + |tail|] == l + tail && b == (l + tail) + x
  {
  }

  method Fill(h: TcpHdr, buf: array<Byte>, bsize: nat, src: U32, dst: U32, ghost tail: seq<Byte>, ghost x: seq<Byte>)
    requires buf.Length >= 20 && buf[20..] == tail + x && bsize == 20 + |tail|
    modifies buf
    ensures buf[..] == Summed(h, tail, src, dst) + x
  {
    WriteFields(h, buf);
    Bounds(Layout(h, 0), tail, x);
    assert buf.Length == |buf[..]|;
    var c := TcpChecksum(src, dst, buf[..][..bsize]);
    SetChecksum(h, 0, c, buf, tail + x);
    Bounds(Layout(h, c), tail, x);
  }

  lemma {:induction false} AreaSlices(p: seq<Byte>, o: seq<Byte>, t: seq<Byte>, x: seq<Byte>, bsize: nat)
    requires |o| == |t| && |p| + |o| <= bsize <= |p| + |o| + |x|
    ensures var b, w := p + o + x, p + t + x;
            w[|p|..bsize] == t + b[|p| + |o|..bsize] && w[bsize..] == b[bsize..]
  {
  }

  /** A well-formed area in front of the data makes the segment on the wire. */
  lemma {:induction false} WellFormedWire(h: TcpHdr, b: seq<Byte>, n: nat, bsize: nat, src: U32, dst: U32, w: seq<Byte>)
    requires 20 + n <= bsize <= |b| && WellFormed(b[20..20 + n]) && Turns(b, 20 + n, 20, w) == true && |w| == |b|
    ensures Summed(h, w[20..bsize], src, dst) + w[bsize..] ==
            Wire(h, b[20..20 + n], b[20 + n..bsize], src, dst) + b[bsize..]
  {
    var p, o, x := b[..20], b[20..20 + n], b[20 + n..];
    assert b == p + o + x;
    WalkTurns(p, o, x);
    assert w == p + Turned(o) + x;
    AreaSlices(p, o, Turned(o), x, bsize);
  }

  /** The walk and the writes, which is all that tcp_hton does. */
  method TurnAndFill(h: TcpHdr, buf: array<Byte>, bsize: nat, src: U32, dst: U32, ghost w: seq<Byte>)
    requires 20 <= bsize <= buf.Length && 20 + OptSize(h) <= buf.Length && |w| == buf.Length
    requires Turns(buf[..], 20 + OptSize(h), 20, w)
    modifies buf
    ensures buf[..] == Summed(h, w[20..bsize], src, dst) + w[bsize..]
  {
    TurnOptions(buf, 20, OptSize(h));
    assert buf[..] == w && buf[20..] == w[20..bsize] + w[bsize..];
    Fill(h, buf, bsize, src, dst, w[20..bsize], w[bsize..]);
  }

  /**
   tcp_hton with the header `h` in the buffer it is to be written to: the options behind it are turned where they
   are, wherever the walk gets through, and the checksum covers the first `bsize` bytes. With well-formed options in
   front of the data this is the segment on the wire.
   */
  method Hton(h: TcpHdr, buf: array<Byte>, bsize: nat, src: U32, dst: U32)
    requires 20 <= bsize <= buf.Length && 20 + OptSize(h) <= buf.Length && Passable(buf[..], 20 + OptSize(h), 20)
    modifies buf
    ensures var w := Walk(old(buf[..]), 20 + OptSize(h), 20);
            buf[..] == Summed(h, w[20..bsize], src, dst) + w[bsize..]
    ensures 20 + OptSize(h) <= bsize && WellFormed(old(buf[..])[20..20 + OptSize(h)]) ==>
              var b := old(buf[..]);
              var opts, data := b[20..20 + OptSize(h)], b[20 + OptSize(h)..bsize];
              buf[..] == Wire(h, opts, data, src, dst) + b[bsize..]
  {
    ghost var b, n := buf[..], OptSize(h);
    ghost var w := Walk(b, 20 + n, 20);
    assert Turns(b, 20 + n, 20, w);
    TurnAndFill(h, buf, bsize, src, dst, w);
    if 20 + n <= bsize && WellFormed(b[20..20 + n]) {
      WellFormedWire(h, b, n, bsize, src, dst, w);
    }
  }
}
