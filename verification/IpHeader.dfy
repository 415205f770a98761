/**
 The IPv4 header between host form and wire form.
 */
module IpHeader {
  import opened Bytes
  import opened Checksum

  const FLAG_MF := 0x2000
  const IP_MAX_BYTES := 65535

  datatype IpHdr = IpHdr(vhl: Byte, tos: Byte, len: U16, id: U16, foff: U16, ttl: Byte, proto: Byte, csum: U16,
      src: U32, dst: U32)

  function Hlen(h: IpHdr): (r: nat)
    ensures r <= 60
  {
    h.vhl % 16 * 4
  }

  /** The 20 fixed bytes, with checksum field `c`; the checksum is stored in host order. */
  function Layout(h: IpHdr, c: U16): (r: seq<Byte>)
    ensures |r| == 20
  {
    Front(h) + Le16(c) + Be32(h.src) + Be32(h.dst)
  }

  function Front(h: IpHdr): (r: seq<Byte>)
    ensures |r| == 10
  {
    [h.vhl, h.tos] + Be16(h.len) + Be16(h.id) + Be16(h.foff) + [h.ttl, h.proto]
  }

  /** The header on the wire, with the option bytes `opts` behind it and the checksum filled in. */
  function Wire(h: IpHdr, opts: seq<Byte>): (r: seq<Byte>)
    ensures |r| == 20 + |opts|
  {
    Layout(h, Csum(Layout(h, 0) + opts)) + opts
  }

  /** ip_ntoh. */
  function Parse(b: seq<Byte>): IpHdr
    requires |b| >= 20
  {
    IpHdr(b[0], b[1], FromBe16(b, 2), FromBe16(b, 4), FromBe16(b, 6), b[8], b[9], Word(b[10], b[11]), FromBe32(b,
        12), FromBe32(b, 16))
  }

  lemma {:induction false} WireVerifies(h: IpHdr, opts: seq<Byte>)
    ensures Csum(Wire(h, opts)) == 0
  {
    var a, b := Front(h), Be32(h.src) + Be32(h.dst) + opts;
    assert Layout(h, 0) + opts == a + Le16(0) + b;
    var c := Csum(Layout(h, 0) + opts);
    assert Wire(h, opts) == a + Le16(c) + b;
    StoredChecksumVerifies(a, b);
  }

  lemma {:induction false} ParseLayout(h: IpHdr, c: U16, rest: seq<Byte>)
    ensures Parse(Layout(h, c) + rest) == h.(csum := c)
  {
    var b := Layout(h, c) + rest;
    assert b[..10] == Front(h) && b[10..12] == Le16(c) && b[12..16] == Be32(h.src) && b[16..20] == Be32(h.dst);
    ParseFront(h, b);
    assert b[10] == b[10..12][0] && b[11] == b[10..12][1];
    Be32At(h.src, b, 12);
    Be32At(h.dst, b, 16);
  }

  lemma {:induction false} ParseFront(h: IpHdr, b: seq<Byte>)
    requires |b| >= 10 && b[..10] == Front(h)
    ensures b[0] == h.vhl && b[1] == h.tos && FromBe16(b, 2) == h.len && FromBe16(b, 4) == h.id &&
        FromBe16(b, 6) == h.foff
    ensures b[8] == h.ttl && b[9] == h.proto
  {
    var f := Front(h);
    assert forall i :: 0 <= i < 10 ==> b[i] == b[..10][i] == f[i];
    assert f[2..4] == Be16(h.len) && f[4..6] == Be16(h.id) && f[6..8] == Be16(h.foff);
    assert f[2] == f[2..4][0] && f[3] == f[2..4][1] && f[4] == f[4..6][0] && f[5] == f[4..6][1] &&
        f[6] == f[6..8][0] && f[7] == f[6..8][1];
  }

  /** Parsing what was written gives the header back, with the checksum that was filled in. */
  lemma {:induction false} RoundTrip(h: IpHdr, opts: seq<Byte>, rest: seq<Byte>)
    ensures var g := Parse(Wire(h, opts) + rest); g == h.(csum := g.csum)
  {
    var c := Csum(Layout(h, 0) + opts);
    assert Wire(h, opts) + rest == Layout(h, c) + (opts + rest);
    ParseLayout(h, c, opts + rest);
  }

  /** Where the fields are on the wire: the header of section 3.1 of RFC 791. */
  lemma {:induction false} OnWire(h: IpHdr, opts: seq<Byte>)
    ensures var w := Wire(h, opts);
            && w[0] == h.vhl && w[1] == h.tos && FromBe16(w, 2) == h.len && FromBe16(w, 4) == h.id
            && FromBe16(w, 6) == h.foff && w[8] == h.ttl && w[9] == h.proto
            && FromBe32(w, 12) == h.src && FromBe32(w, 16) == h.dst && w[20..] == opts
            && Hlen(h) == 4 * (w[0] % 16)
  {
    var c := Csum(Layout(h, 0) + opts);
    ParseLayout(h, c, opts);
  }

  // ---------- ip_hton in place ----------

  /** Writes the header `host` over the first 20 bytes of `buf`; the option bytes behind it stay and are summed. */
  method Hton(host: IpHdr, buf: array<Byte>)
    requires 20 <= Hlen(host) <= buf.Length
    modifies buf
    ensures buf[..] == Wire(host, old(buf[20..Hlen(host)])) + old(buf[Hlen(host)..])
  {
    var hlen := Hlen(host);
    ghost var opts, rest := buf[20..hlen], buf[hlen..];
    assert buf[20..] == opts + rest;
    WriteFields(host, buf);
    SetChecksum(host, host.csum, 0, buf, opts + rest);
    SplitHeader(Layout(host, 0), opts, rest, hlen);
    var c := IpChecksum(buf[..hlen]);
    SetChecksum(host, 0, c, buf, opts + rest);
    SplitHeader(Layout(host, c), opts, rest, hlen);
  }

  lemma {:induction false} SplitHeader(l: seq<Byte>, opts: seq<Byte>, rest: seq<Byte>, hlen: nat)
    requires hlen == |l| + |opts|
    ensures (l + (opts + rest))[..hlen] == l + opts && l + (opts + rest) == (l + opts) + rest
  {
  }

  lemma {:induction false} PatchChecksum(h: IpHdr, c0: U16, c: U16, tail: seq<Byte>)
    ensures var b := Layout(h, c0) + tail; b[..10] + Le16(c) + b[12..] == Layout(h, c) + tail
  {
  }

  method SetChecksum(h: IpHdr, c0: U16, c: U16, buf: array<Byte>, ghost tail: seq<Byte>)
    requires buf[..] == Layout(h, c0) + tail
    modifies buf
    ensures buf[..] == Layout(h, c) + tail
  {
    assert buf.Length == |buf[..]|;
    PatchChecksum(h, c0, c, tail);
    assert buf[..10] == buf[..][..10] && buf[12..] == buf[..][12..];
    Store(buf, 10, Le16(c));
  }

  method WriteFields(host: IpHdr, buf: array<Byte>)
    requires 20 <= buf.Length
    modifies buf
    ensures buf[..] == Layout(host, host.csum) + old(buf[20..])
  {
    Store(buf, 0, [host.vhl, host.tos] + Be16(host.len) + Be16(host.id) + Be16(host.foff));
    Store(buf, 8, [host.ttl, host.proto] + Le16(host.csum));
    Store(buf, 12, Be32(host.src) + Be32(host.dst));
  }
}
