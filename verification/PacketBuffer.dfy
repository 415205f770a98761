/**
 One reassembly buffer in memory: the block flags are bits of 32-bit words, set one at a time.
 */
module PacketBuffer {
  import opened Bytes
  import opened IpHeader
  import opened Reassembly

  const FRAG_MAP_SIZE := FRAG_MAX / 32

  /** FRAG_MAP_BI: the bit of block `i` in its word. */
  function Bi(i: nat): bv5
  {
    (i % 32) as bv5
  }

  predicate TstAt(words: seq<bv32>, k: nat, b: bv5)
    requires k < |words|
  {
    words[k] & (1 << b) != 0
  }

  function SetAt(words: seq<bv32>, k: nat, b: bv5): (r: seq<bv32>)
    requires k < |words|
    ensures |r| == |words|
  {
    words[k := words[k] | (1 << b)]
  }

  predicate Tst(words: seq<bv32>, i: nat)
    requires i / 32 < |words|
  {
    TstAt(words, i / 32, Bi(i))
  }

  function Set(words: seq<bv32>, i: nat): (r: seq<bv32>)
    requires i / 32 < |words|
    ensures |r| == |words|
  {
    SetAt(words, i / 32, Bi(i))
  }

  lemma {:induction false} Bv5RoundTrip(k: nat)
    requires k < 32
    ensures (k as bv5) as int == k
  {
  }

  /** Word and bit together tell blocks apart. */
  lemma {:induction false} BlockAddress(i: nat, j: nat)
    ensures i == j <==> i / 32 == j / 32 && Bi(i) == Bi(j)
  {
    Bv5RoundTrip(i % 32);
    Bv5RoundTrip(j % 32);
  }

  lemma {:induction false} WordSetTst(w: bv32, a: bv5, b: bv5)
    ensures (w | (1 << a)) & (1 << b) != 0 <==> a == b || w & (1 << b) != 0
  {
  }

  lemma {:induction false} SetTstAt(words: seq<bv32>, k: nat, a: bv5, l: nat, b: bv5)
    requires k < |words| && l < |words|
    ensures TstAt(SetAt(words, k, a), l, b) <==> (k == l && a == b) || TstAt(words, l, b)
  {
    WordSetTst(words[k], a, b);
  }

  /** Setting one flag sets that flag only. */
  lemma {:induction false} SetTst(words: seq<bv32>, i: nat, j: nat)
    requires i / 32 < |words| && j / 32 < |words|
    ensures Tst(Set(words, i), j) <==> i == j || Tst(words, j)
  {
    BlockAddress(i, j);
    SetTstAt(words, i / 32, Bi(i), j / 32, Bi(j));
  }

  function Flags(words: seq<bv32>): (r: seq<bool>)
    requires |words| == FRAG_MAP_SIZE
    ensures |r| == FRAG_MAX
    ensures forall i :: 0 <= i < FRAG_MAX ==> r[i] == Tst(words, i)
  {
    seq(FRAG_MAX, i requires 0 <= i < FRAG_MAX => Tst(words, i))
  }

  lemma {:induction false} SetFlags(words: seq<bv32>, i: nat)
    requires |words| == FRAG_MAP_SIZE && i < FRAG_MAX
    ensures Flags(Set(words, i)) == SetRange(Flags(words), i, i + 1)
  {
    forall j | 0 <= j < FRAG_MAX
      ensures Flags(Set(words, i))[j] == SetRange(Flags(words), i, i + 1)[j]
    {
      SetTst(words, i, j);
    }
  }

  lemma {:induction false} SetRangeSnoc(bits: seq<bool>, lo: nat, i: nat)
    requires lo <= i
    ensures SetRange(SetRange(bits, lo, i), i, i + 1) == SetRange(bits, lo, i + 1)
  {
  }

  class PacketBuf {
    var len: U16
    const fragmap: array<bv32>
    const payload: array<Byte>

    ghost predicate Valid()
    {
      fragmap.Length == FRAG_MAP_SIZE && payload.Length == IP_MAX_BYTES
    }

    ghost function Contents(): (b: Buf)
      requires Valid()
      reads this, fragmap, payload
      ensures Sized(b)
    {
      Buf(Flags(fragmap[..]), payload[..], len)
    }

    constructor ()
      ensures Valid() && fresh(fragmap) && fresh(payload)
    {
      len := 0;
      fragmap := new bv32[FRAG_MAP_SIZE];
      payload := new Byte[IP_MAX_BYTES];
    }

    /** fragmap_init and the reset of the length. The byte count given to memset covers the first 64 words only. */
    method Init()
      requires Valid()
      modifies this, fragmap
      ensures Fresh(Contents()) && Contents().payload == old(Contents().payload)
      ensures forall i :: CLEARED <= i < FRAG_MAX ==> Contents().bits[i] == old(Contents().bits[i])
    {
      ghost var before := fragmap[..];
      forall k | 0 <= k < FRAG_MAP_SIZE / 4 {
        fragmap[k] := 0;
      }
      len := 0;
      ghost var words := fragmap[..];
      assert forall i :: CLEARED <= i < FRAG_MAX ==> words[i / 32] == before[i / 32];
    }

    /** The block flags of one fragment, set one by one. */
    method SetBlocks(lo: nat, n: nat)
      requires Valid() && lo + n <= FRAG_MAX
      modifies fragmap
      ensures Flags(fragmap[..]) == SetRange(old(Flags(fragmap[..])), lo, lo + n)
    {
      ghost var bits := Flags(fragmap[..]);
      assert SetRange(bits, lo, lo) == bits;
      var i := lo;
      while i < lo + n
        invariant lo <= i <= lo + n && Flags(fragmap[..]) == SetRange(bits, lo, i)
      {
        SetFlags(fragmap[..], i);
        SetRangeSnoc(bits, lo, i);
        ghost var words := fragmap[..];
        fragmap[i / 32] := fragmap[i / 32] | (1 << Bi(i));
        assert fragmap[..] == Set(words, i);
        i := i + 1;
      }
    }

    method AllSet(n: nat) returns (t: bool)
      requires Valid() && n <= FRAG_MAX
      ensures t <==> forall i :: 0 <= i < n ==> Flags(fragmap[..])[i]
    {
      t := true;
      var i := 0;
      while i < n
        invariant 0 <= i <= n && (t <==> forall j :: 0 <= j < i ==> Flags(fragmap[..])[j])
      {
        assert Flags(fragmap[..])[i] == Tst(fragmap[..], i);
        t := t && fragmap[i / 32] & (1 << Bi(i)) != 0;
        i := i + 1;
      }
    }

    method Copy(off: nat, rx: seq<Byte>)
      requires Valid() && off + |rx| <= IP_MAX_BYTES
      modifies payload
      ensures payload[..] == Overwrite(old(payload[..]), off, rx)
    {
      forall k | 0 <= k < |rx| {
        payload[off + k] := rx[k];
      }
    }

    /**
     ip_fragment_input on its buffer, up to the completion test. `rx` are the bytes behind the header, if the
     header leaves any. There is no answer exactly when the writes do not stay inside the buffer.
     */
    method Input(h: IpHdr, rx: seq<Byte>) returns (complete: Option<bool>)
      requires Valid() && (Hlen(h) <= h.len ==> |rx| == h.len - Hlen(h))
      modifies this, fragmap, payload
      ensures (complete.Some? <==> Inside(h)) && (complete.Some? <==> WritesInside(h))
      ensures complete.None? ==> Contents() == old(Contents())
      ensures complete.Some? ==>
                && Contents() == Receive(old(Contents()), h.foff % FLAG_MF * 8, rx, h.foff / FLAG_MF % 2 == 1)
                && complete.value == Complete(Contents())
    {
      InsideExactly(h);
      if !Inside(h) {
        return None;
      }
      var done := StoreFragment(h, rx);
      return Some(done);
    }

    method StoreFragment(h: IpHdr, rx: seq<Byte>) returns (complete: bool)
      requires Valid() && Inside(h) && |rx| == h.len - Hlen(h)
      modifies this, fragmap, payload
      ensures Contents() == Receive(old(Contents()), h.foff % FLAG_MF * 8, rx, h.foff / FLAG_MF % 2 == 1)
      ensures complete <==> Complete(Contents())
    {
      var off := h.foff % FLAG_MF * 8;
      Copy(off, rx);
      SetBlocks(off / 8, (h.len - Hlen(h) + 7) / 8);
      if off == 0 {
        len := 0;
      } else if h.foff / FLAG_MF % 2 == 0 {
        len := h.len - Hlen(h) + off;
      }
      complete := false;
      if len != 0 {
        complete := AllSet((len + 7) / 8);
      }
    }
  }

  // ---------- fragments that do not fit ----------

  predicate InPayload(k: nat)
  {
    k < IP_MAX_BYTES
  }

  predicate InMap(i: nat)
  {
    i < FRAG_MAX
  }

  const SIZE_T := 0x1_0000_0000_0000_0000

  /** The byte count given to memcpy, a difference of size_t. */
  function CopySize(h: IpHdr): nat
  {
    (h.len - Hlen(h)) % SIZE_T
  }

  /** The number of flags that the loop sets, rounded up in size_t as well. */
  function BlockCount(h: IpHdr): nat
  {
    (h.len - Hlen(h) + 7) % SIZE_T / 8
  }

  /** The bytes of a fragment go into `payload` and its flags into `fragmap`. */
  predicate WritesInside(h: IpHdr)
  {
    var off := h.foff % FLAG_MF * 8;
    && (forall k: nat :: off <= k < off + CopySize(h) ==> InPayload(k))
    && forall i: nat :: off / 8 <= i < off / 8 + BlockCount(h) ==> InMap(i)
  }

  lemma {:induction false} Sizes(h: IpHdr)
    ensures Hlen(h) <= h.len ==> CopySize(h) == h.len - Hlen(h) && BlockCount(h) == (h.len - Hlen(h) + 7) / 8
    ensures Hlen(h) > h.len ==> CopySize(h) == SIZE_T + h.len - Hlen(h) && CopySize(h) >= SIZE_T - 60
  {
  }

  /**
   For every header: the check of the offset never fails, and both writes stay inside exactly when the header is
   no longer than the packet and the last byte lies inside.
   */
  lemma {:induction false} InsideExactly(h: IpHdr)
    ensures h.foff % FLAG_MF * 8 <= IP_MAX_BYTES && (WritesInside(h) <==> Inside(h))
  {
    Sizes(h);
    var off := h.foff % FLAG_MF * 8;
    if off + CopySize(h) > IP_MAX_BYTES {
      assert !InPayload(off + CopySize(h) - 1);
    }
  }

  /** A last fragment of 1472 bytes at the greatest offset passes all checks and does not fit. */
  lemma {:induction false} LastOffsetOverruns(h: IpHdr)
    requires h.vhl == 0x45 && h.len == 1492 && h.foff == 8191
    ensures h.foff % FLAG_MF * 8 == 65528 <= IP_MAX_BYTES && !WritesInside(h)
  {
    InsideExactly(h);
  }

  /** A frame of 46 bytes that says its header has 60: it passes all checks and is not stored inside either. */
  lemma {:induction false} LongHeaderOverruns(id: Byte)
    ensures var frame: seq<Byte> := [0x4F, 0, 0, 46, 0, id, 0x20, 0] + seq(38, _ => 0);
            Proper(frame) && IsFragment(frame) && Hlen(Parse(frame)) == 60 && !WritesInside(Parse(frame))
  {
    var frame: seq<Byte> := [0x4F, 0, 0, 46, 0, id, 0x20, 0] + seq(38, _ => 0);
    InsideExactly(Parse(frame));
  }
}
