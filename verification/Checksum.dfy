/**
 The Internet checksum: summed eagerly with end-around carry, with a pseudo-header in front, and lazily folded.
 */
module Checksum {
  import opened Bytes

  // ---------- what is summed ----------

  /** The sum of the 16-bit words as a little-endian host loads them; an odd last byte counts as a word. */
  function WordSum(d: seq<Byte>): nat
  {
    if |d| == 0 then 0
    else if |d| == 1 then d[0]
    else Word(d[0], d[1]) + WordSum(d[2..])
  }

  /** The representative of `n` modulo 0xffff that one's-complement addition reaches: never 0. */
  function Ones(n: nat): (r: U16)
    ensures 1 <= r
  {
    (n + 0xfffe) % 0xffff + 1
  }

  lemma {:induction false} OnesIs(n: nat, r: int, k: int)
    requires 1 <= r <= 0xffff && n == r + 0xffff * k
    ensures Ones(n) == r
  {
  }

  lemma {:induction false} OnesQuotient(n: nat) returns (k: int)
    ensures n == Ones(n) + 0xffff * k
  {
    k := (n + 0xfffe) / 0xffff - 1;
  }

  /** The Internet checksum of `d`: the complement of its one's-complement sum (RFC 1071). */
  function Csum(d: seq<Byte>): U16
  {
    0xffff - Ones(WordSum(d))
  }

  // ---------- sums of sequences ----------

  lemma {:induction false} SumConcat(a: seq<Byte>, b: seq<Byte>)
    requires |a| % 2 == 0
    ensures WordSum(a + b) == WordSum(a) + WordSum(b)
  {
    if |a| == 0 {
      assert a + b == b;
    } else {
      assert (a + b)[2..] == a[2..] + b;
      SumConcat(a[2..], b);
    }
  }

  lemma {:induction false} SumPair(lo: Byte, hi: Byte)
    ensures WordSum([lo, hi]) == Word(lo, hi)
  {
    assert [lo, hi][2..] == [];
  }

  lemma {:induction false} SumSnoc(d: seq<Byte>, i: nat)
    requires i % 2 == 0 && i + 1 < |d|
    ensures WordSum(d[..i + 2]) == WordSum(d[..i]) + Word(d[i], d[i + 1])
  {
    assert d[..i + 2] == d[..i] + [d[i], d[i + 1]];
    SumConcat(d[..i], [d[i], d[i + 1]]);
    SumPair(d[i], d[i + 1]);
  }

  lemma {:induction false} SumSnocOdd(d: seq<Byte>)
    requires |d| % 2 == 1
    ensures WordSum(d) == WordSum(d[..|d| - 1]) + d[|d| - 1]
  {
    var n := |d| - 1;
    assert d == d[..n] + [d[n]];
    SumConcat(d[..n], [d[n]]);
  }

  // ---------- ip_checksum ----------

  /** One eager addition with end-around carry, as all the eager loops do it. */
  function AddWord(acc: U16, word: U16): (r: U16)
    requires 1 <= acc
    ensures 1 <= r && (r == acc + word || r == acc + word - 0xffff)
  {
    if acc + word > 0xffff then acc + word - 0xffff else acc + word
  }

  /** The eager sum of a buffer, continued from `acc0`. */
  method AddBuffer(acc0: U16, d: seq<Byte>) returns (acc: U16)
    requires 1 <= acc0
    ensures 1 <= acc && acc == Ones(acc0 + WordSum(d))
  {
    acc := acc0;
    ghost var k := 0;
    var i := 0;
    while i + 1 < |d|
      invariant 0 <= i <= |d| && i % 2 == 0
      invariant 1 <= acc && acc0 + WordSum(d[..i]) == acc + 0xffff * k
    {
      var word := Word(d[i], d[i + 1]);
      SumSnoc(d, i);
      if acc + word > 0xffff {
        k := k + 1;
      }
      acc := AddWord(acc, word);
      i := i + 2;
    }
    if |d| % 2 == 1 {
      var word := d[|d| - 1];
      SumSnocOdd(d);
      if acc + word > 0xffff {
        k := k + 1;
      }
      acc := AddWord(acc, word);
    } else {
      assert d[..i] == d;
    }
    OnesIs(acc0 + WordSum(d), acc, k);
  }

  lemma {:induction false} OnesFrom(n: nat, acc: U16, m: nat)
    requires acc == Ones(n)
    ensures Ones(acc + m) == Ones(n + m)
  {
    var k := OnesQuotient(n);
    var j := OnesQuotient(acc + m);
    OnesIs(n + m, Ones(acc + m), j + k);
  }

  method IpChecksum(d: seq<Byte>) returns (r: U16)
    ensures r == Csum(d)
  {
    OnesFrom(0, 0xffff, WordSum(d));
    var acc := AddBuffer(0xffff, d);
    r := 0xffff - acc;
  }

  lemma {:induction false} BeSum(x: U16)
    ensures WordSum(Be16(x)) == Swap16(x)
  {
    SumPair(x / 0x100, x % 0x100);
    SwapStored(x);
  }

  lemma {:induction false} LeSum(x: U32)
    ensures WordSum(Le32(x)) == x % 0x1_0000 + x / 0x1_0000
  {
    SumConcat(Le16(x % 0x1_0000), Le16(x / 0x1_0000));
    SumPair(x % 0x1_0000 % 0x100, x % 0x1_0000 / 0x100);
    SumPair(x / 0x1_0000 % 0x100, x / 0x1_0000 / 0x100);
  }

  lemma {:induction false} Be32Sum(x: U32)
    ensures WordSum(Be32(x)) == Swap16(x / 0x1_0000) + Swap16(x % 0x1_0000)
  {
    SumConcat(Be16(x / 0x1_0000), Be16(x % 0x1_0000));
    BeSum(x / 0x1_0000);
    BeSum(x % 0x1_0000);
  }

  // ---------- tcp_checksum ----------

  /** The 12 bytes summed in front of a TCP segment. The length is stored through a 16-bit htons. */
  function TcpPseudo(src: U32, dst: U32, len: nat): (r: seq<Byte>)
    ensures |r| == 12
  {
    Be32(src) + Be32(dst) + [0, 6] + Be16(len % 0x1_0000)
  }

  /** The sum of the pseudo-header in plain numbers: both addresses, protocol 6 and the length, as words on the wire. */
  function TcpPseudoNumber(src: U32, dst: U32, len: nat): nat
  {
    Swap16(src / 0x1_0000) + Swap16(src % 0x1_0000) + Swap16(dst / 0x1_0000) + Swap16(dst % 0x1_0000) +
    Swap16(6) + Swap16(len % 0x1_0000)
  }

  lemma {:induction false} TcpPseudoSum(src: U32, dst: U32, len: nat)
    ensures WordSum(TcpPseudo(src, dst, len)) == TcpPseudoNumber(src, dst, len)
  {
    Be32Sum(src);
    Be32Sum(dst);
    BeSum(6);
    BeSum(len % 0x1_0000);
    assert Be16(6) == [0, 6];
    SumConcat(Be32(src), Be32(dst));
    SumConcat(Be32(src) + Be32(dst), Be16(6));
    SumConcat(Be32(src) + Be32(dst) + Be16(6), Be16(len % 0x1_0000));
  }

  /** `r` is the complement of the one's-complement sum of pseudo-header and segment, in plain numbers. */
  predicate IsTcpSum(src: U32, dst: U32, segment: seq<Byte>, r: U16)
  {
    r == 0xffff - Ones(TcpPseudoNumber(src, dst, |segment|) + WordSum(segment))
  }

  lemma {:induction false} TcpSum(src: U32, dst: U32, segment: seq<Byte>)
    ensures IsTcpSum(src, dst, segment, Csum(TcpPseudo(src, dst, |segment|) + segment)) == true
  {
    TcpPseudoSum(src, dst, |segment|);
    SumConcat(TcpPseudo(src, dst, |segment|), segment);
  }

  method TcpChecksum(src: U32, dst: U32, segment: seq<Byte>) returns (r: U16)
    ensures r == Csum(TcpPseudo(src, dst, |segment|) + segment)
    ensures IsTcpSum(src, dst, segment, r) == true
  {
    var pseudo := TcpPseudo(src, dst, |segment|);
    var acc := AddBuffer(0xffff, pseudo);
    OnesFrom(0, 0xffff, WordSum(pseudo));
    OnesFrom(WordSum(pseudo), acc, WordSum(segment));
    SumConcat(pseudo, segment);
    acc := AddBuffer(acc, segment);
    r := 0xffff - acc;
    TcpSum(src, dst, segment);
  }

  lemma {:induction false} ZerosSum(d: seq<Byte>)
    requires forall i :: 0 <= i < |d| ==> d[i] == 0
    ensures WordSum(d) == 0
  {
    if |d| < 2 {
    } else {
      ZerosSum(d[2..]);
    }
  }

  lemma {:induction false} SmallSwap(x: U16)
    requires x < 0x100
    ensures Swap16(x) == 0x100 * x
  {
  }

  lemma {:induction false} NumberOfZeros(src: U32, dst: U32, len: nat)
    requires src == 0 && dst == 0 && len == 20
    ensures TcpPseudoNumber(src, dst, len) == 0x1A00
  {
    SmallSwap(src / 0x1_0000);
    SmallSwap(src % 0x1_0000);
    SmallSwap(6);
    SmallSwap(len % 0x1_0000);
  }

  lemma {:induction false} SumIs(n: nat, r: U16)
    requires r == 0xffff - Ones(n) && n == 0x1A00
    ensures r == 0xE5FF
  {
  }

  /** An empty header between addresses 0. */
  lemma {:induction false} TcpOfZeros(src: U32, dst: U32, segment: seq<Byte>, r: U16)
    requires src == 0 && dst == 0 && |segment| == 20 && forall i :: 0 <= i < |segment| ==> segment[i] == 0
    requires IsTcpSum(src, dst, segment, r)
    ensures r == 0xE5FF
  {
    ZerosSum(segment);
    NumberOfZeros(src, dst, |segment|);
    SumIs(TcpPseudoNumber(src, dst, |segment|) + WordSum(segment), r);
  }

  // ---------- udp_checksum ----------

  /** The bytes udp_checksum adds after the datagram: both addresses in host order, then protocol and length. */
  function UdpPseudo(src: U32, dst: U32, len: nat): (r: seq<Byte>)
    ensures |r| == 12
  {
    Le32(src) + Le32(dst) + Be16(17) + Be16(len % 0x1_0000)
  }

  lemma {:induction false} UdpPseudoSum(src: U32, dst: U32, len: nat)
    ensures WordSum(UdpPseudo(src, dst, len)) ==
            src % 0x1_0000 + src / 0x1_0000 + dst % 0x1_0000 + dst / 0x1_0000 + Swap16(17) + Swap16(len % 0x1_0000)
  {
    LeSum(src);
    LeSum(dst);
    BeSum(17);
    BeSum(len % 0x1_0000);
    SumConcat(Le32(src), Le32(dst));
    SumConcat(Le32(src) + Le32(dst), Be16(17));
    SumConcat(Le32(src) + Le32(dst) + Be16(17), Be16(len % 0x1_0000));
  }

  function Fold(sum: nat): nat
  {
    sum % 0x1_0000 + sum / 0x1_0000
  }

  lemma {:induction false} FoldDrops(sum: nat)
    ensures sum == Fold(sum) + 0xffff * (sum / 0x1_0000)
    ensures 0 < sum ==> 0 < Fold(sum)
    ensures sum >= 0x1_0000 ==> Fold(sum) < sum
    ensures sum < 0x1_0000_0000 ==> Fold(sum) < 0x2_0000
  {
  }

  /** The 32-bit running sum: it is folded whenever bit 31 is set, so no addition wraps. */
  method AddLazily(d: seq<Byte>) returns (sum: U32, ghost k: nat)
    ensures sum < 0x8000_0100 && WordSum(d) == sum + 0xffff * k && (sum == 0 ==> k == 0)
  {
    sum, k := 0, 0;
    var i := 0;
    while |d| - i > 1
      invariant 0 <= i <= |d| && i % 2 == 0
      invariant sum < 0x8000_0000 && WordSum(d[..i]) == sum + 0xffff * k && (sum == 0 ==> k == 0)
    {
      SumSnoc(d, i);
      sum := sum + Word(d[i], d[i + 1]);
      if sum >= 0x8000_0000 {
        FoldDrops(sum);
        k := k + sum / 0x1_0000;
        sum := Fold(sum);
      }
      i := i + 2;
    }
    if (|d| - i) % 2 == 1 {
      SumSnocOdd(d);
      sum := sum + d[i];
    } else {
      assert d[..i] == d;
    }
  }

  /** The carries are added until none is left. */
  method FoldAll(sum0: U32) returns (sum: U16)
    requires 0 < sum0
    ensures sum == Ones(sum0)
  {
    var s := sum0;
    ghost var k := 0;
    while s / 0x1_0000 != 0
      invariant 0 < s && sum0 == s + 0xffff * k
      decreases s
    {
      FoldDrops(s);
      k := k + s / 0x1_0000;
      s := Fold(s);
    }
    OnesIs(sum0, s, k);
    sum := s;
  }

  method UdpChecksum(d: seq<Byte>, src: U32, dst: U32) returns (r: U16)
    ensures r == Csum(UdpPseudo(src, dst, |d|) + d)
    ensures r == 0xffff - Ones(WordSum(d) + src % 0x1_0000 + src / 0x1_0000 + dst % 0x1_0000 + dst / 0x1_0000 +
                               Swap16(17) + Swap16(|d| % 0x1_0000))
  {
    ghost var p := UdpPseudo(src, dst, |d|);
    UdpPseudoSum(src, dst, |d|);
    SumConcat(p, d);
    var sum: U32;
    ghost var k;
    sum, k := AddLazily(d);
    sum := sum + src % 0x1_0000;
    sum := sum + src / 0x1_0000;
    sum := sum + dst % 0x1_0000;
    sum := sum + dst / 0x1_0000;
    sum := sum + Swap16(17);
    sum := sum + Swap16(|d| % 0x1_0000);
    ghost var j := OnesQuotient(sum);
    OnesIs(WordSum(p + d), Ones(sum), j + k);
    sum := FoldAll(sum);
    r := 0xffff - sum;
  }

  // ---------- algebra ----------

  lemma {:induction false} SumStored(a: seq<Byte>, c: U16, b: seq<Byte>)
    requires |a| % 2 == 0
    ensures WordSum(a + Le16(c) + b) == WordSum(a) + c + WordSum(b)
  {
    SumPair(c % 0x100, c / 0x100);
    SumConcat(a, Le16(c));
    SumConcat(a + Le16(c), b);
  }

  lemma {:induction false} ComplementCancels(n: nat, c: U16)
    ensures Ones(n + c) == 0xffff <==> c == 0xffff - Ones(n) || (c == 0xffff && Ones(n) == 0xffff)
  {
    var k := OnesQuotient(n);
    var j := OnesQuotient(n + c);
    var r := Ones(n) + c;
    if r == 0xffff {
      OnesIs(n + c, 0xffff, k);
    } else if r == 0x1_fffe {
      OnesIs(n + c, 0xffff, k + 1);
    }
  }

  /** Storing the checksum in a zeroed word of the summed data makes the data sum to zero. */
  lemma {:induction false} StoredChecksumVerifies(a: seq<Byte>, b: seq<Byte>)
    requires |a| % 2 == 0
    ensures Csum(a + Le16(Csum(a + Le16(0) + b)) + b) == 0
  {
    SumStored(a, 0, b);
    SumStored(a, Csum(a + Le16(0) + b), b);
    ComplementCancels(WordSum(a) + WordSum(b), Csum(a + Le16(0) + b));
  }

  /** Only the stored checksum makes the data verify, or all ones where the checksum is zero. */
  lemma {:induction false} OnlyChecksumVerifies(a: seq<Byte>, b: seq<Byte>, c: U16)
    requires |a| % 2 == 0 && Csum(a + Le16(c) + b) == 0
    ensures var x := Csum(a + Le16(0) + b); c == x || (c == 0xffff && x == 0)
  {
    SumStored(a, 0, b);
    SumStored(a, c, b);
    ComplementCancels(WordSum(a) + WordSum(b), c);
  }

  lemma {:induction false} OddTailIsPadding(d: seq<Byte>)
    requires |d| % 2 == 1
    ensures Csum(d + [0]) == Csum(d)
  {
    var n := |d| - 1;
    SumSnocOdd(d);
    assert d + [0] == d[..n] + [d[n], 0];
    SumConcat(d[..n], [d[n], 0]);
    SumPair(d[n], 0);
  }

  /** The bytes of every word exchanged. */
  function SwapWords(d: seq<Byte>): seq<Byte>
    requires |d| % 2 == 0
  {
    if |d| == 0 then [] else [d[1], d[0]] + SwapWords(d[2..])
  }

  /** What swapping takes off: each high byte moves down by a factor of 0x10000, which is 1 modulo 0xffff. */
  function HighSum(d: seq<Byte>): nat
    requires |d| % 2 == 0
  {
    if |d| == 0 then 0 else d[1] + HighSum(d[2..])
  }

  lemma {:induction false} SwapSum(d: seq<Byte>)
    requires |d| % 2 == 0
    ensures WordSum(SwapWords(d)) == 0x100 * WordSum(d) - 0xffff * HighSum(d)
  {
    if |d| == 0 {
    } else {
      SwapSum(d[2..]);
      SumConcat([d[1], d[0]], SwapWords(d[2..]));
      SumPair(d[1], d[0]);
    }
  }

  /** Byte order independence: swapping the bytes of all words swaps the bytes of the checksum. */
  lemma {:induction false} ByteOrder(d: seq<Byte>)
    requires |d| % 2 == 0
    ensures Csum(SwapWords(d)) == Swap16(Csum(d))
  {
    SwapSum(d);
    var n, x := WordSum(d), Ones(WordSum(d));
    var k := OnesQuotient(n);
    assert Swap16(x) == 0x100 * x - 0xffff * (x / 0x100);
    OnesIs(WordSum(SwapWords(d)), Swap16(x), 0x100 * k + x / 0x100 - HighSum(d));
    SwapComplement(x);
  }

  lemma {:induction false} SwapComplement(x: U16)
    ensures Swap16(0xffff - x) == 0xffff - Swap16(x)
  {
  }
}
