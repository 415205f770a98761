/**
 Putting fragments back together: what one buffer holds after any sequence of arrivals.
 */
module Reassembly {
  import opened Bytes
  import opened IpHeader
  import opened Fragment

  const FRAG_MAX := 8192
  /** fragmap_init clears FRAG_MAP_SIZE bytes, not words: the flags of the first 2048 blocks. */
  const CLEARED := 2048

  /** A reassembly buffer: one flag per block of 8 bytes, the payload, and the length once it is known (0 before). */
  datatype Buf = Buf(bits: seq<bool>, payload: seq<Byte>, len: U16)

  predicate Sized(b: Buf)
  {
    |b.bits| == FRAG_MAX && |b.payload| == IP_MAX_BYTES
  }

  function SetRange(bits: seq<bool>, lo: nat, hi: nat): (r: seq<bool>)
    ensures |r| == |bits|
    ensures forall i :: 0 <= i < |bits| ==> r[i] == (bits[i] || lo <= i < hi)
  {
    seq(|bits|, i requires 0 <= i < |bits| => bits[i] || lo <= i < hi)
  }

  function Overwrite(p: seq<Byte>, off: nat, data: seq<Byte>): (r: seq<Byte>)
    requires off + |data| <= |p|
    ensures |r| == |p|
    ensures forall i :: 0 <= i < |p| ==> r[i] == if off <= i < off + |data| then data[i - off] else p[i]
  {
    p[..off] + data + p[off + |data|..]
  }

  /** One fragment arrives. */
  function Receive(b: Buf, off: nat, data: seq<Byte>, more: bool): (r: Buf)
    requires Sized(b) && off + |data| <= IP_MAX_BYTES
    ensures Sized(r)
  {
    Buf(SetRange(b.bits, off / 8, off / 8 + (|data| + 7) / 8),
        Overwrite(b.payload, off, data),
        if off == 0 then 0 else if !more then |data| + off else b.len)
  }

  /** The completion test: the length is known and every block up to it is flagged. */
  predicate Complete(b: Buf)
    requires Sized(b)
  {
    b.len != 0 && forall i :: 0 <= i < (b.len + 7) / 8 ==> b.bits[i]
  }

  /** A buffer as get_packet_buffer hands it out: beyond the cleared flags, anything may be left over. */
  predicate Fresh(b: Buf)
  {
    Sized(b) && b.len == 0 && forall i :: 0 <= i < CLEARED ==> !b.bits[i]
  }

  // ---------- arrivals in any order, with repetitions ----------

  /** The pieces that have arrived, latest last. */
  datatype Arrivals = Nothing | Then(earlier: Arrivals, fr: Frag)

  predicate Has(run: Arrivals, fr: Frag)
  {
    run.Then? && (run.fr == fr || Has(run.earlier, fr))
  }

  function Slice(data: seq<Byte>, fr: Frag): seq<Byte>
    requires fr.off + fr.len <= |data|
  {
    data[fr.off..fr.off + fr.len]
  }

  /** `fs` cut `data`, into at least two pieces. */
  ghost predicate Pieces(fs: seq<Frag>, data: seq<Byte>, f: nat)
  {
    && 0 < f && f % 8 == 0 && |data| <= IP_MAX_BYTES && |fs| >= 2 && Tiles(fs, |data|, f, 0)
  }

  predicate From(run: Arrivals, fs: seq<Frag>)
  {
    run.Then? ==> run.fr in fs && From(run.earlier, fs)
  }

  predicate Within(run: Arrivals, data: seq<Byte>)
  {
    run.Then? ==> run.fr.off + run.fr.len <= |data| <= IP_MAX_BYTES && Within(run.earlier, data)
  }

  /** The buffer `b` after the pieces of `data` have arrived. */
  function After(b: Buf, data: seq<Byte>, run: Arrivals): (r: Buf)
    requires Sized(b) && Within(run, data)
    ensures Sized(r)
  {
    match run
    case Nothing => b
    case Then(earlier, fr) => Receive(After(b, data, earlier), fr.off, Slice(data, fr), fr.more)
  }

  /** A final piece has arrived, and no first piece since. */
  predicate LengthKnown(run: Arrivals)
  {
    run.Then? && run.fr.off != 0 && (!run.fr.more || LengthKnown(run.earlier))
  }

  predicate Covers(fr: Frag, i: nat)
  {
    fr.off / 8 <= i < fr.off / 8 + (fr.len + 7) / 8
  }

  predicate Flagged(run: Arrivals, i: nat)
  {
    run.Then? && (Covers(run.fr, i) || Flagged(run.earlier, i))
  }

  predicate Filled(run: Arrivals, p: nat)
  {
    run.Then? && (run.fr.off <= p < run.fr.off + run.fr.len || Filled(run.earlier, p))
  }

  lemma {:induction false} AfterBits(b: Buf, data: seq<Byte>, run: Arrivals, i: nat)
    requires Sized(b) && Within(run, data) && i < FRAG_MAX
    ensures After(b, data, run).bits[i] <==> b.bits[i] || Flagged(run, i)
  {
    if run.Nothing? {
    } else {
      AfterBits(b, data, run.earlier, i);
    }
  }

  lemma {:induction false} AfterByte(b: Buf, data: seq<Byte>, run: Arrivals, p: nat)
    requires Sized(b) && Within(run, data) && p < IP_MAX_BYTES
    ensures Filled(run, p) ==> p < |data| && After(b, data, run).payload[p] == data[p]
    ensures !Filled(run, p) ==> After(b, data, run).payload[p] == b.payload[p]
  {
    if run.Nothing? {
    } else {
      AfterByte(b, data, run.earlier, p);
    }
  }

  lemma {:induction false} FromWithin(run: Arrivals, fs: seq<Frag>, data: seq<Byte>, f: nat)
    requires Pieces(fs, data, f) && From(run, fs)
    ensures Within(run, data)
  {
    if run.Nothing? {
    } else {
      FromWithin(run.earlier, fs, data, f);
      var k :| 0 <= k < |fs| && fs[k] == run.fr;
      TilesInside(fs, |data|, f, 0, k);
    }
  }

  /** Only the last piece is final and only the first has offset 0. */
  lemma {:induction false} PieceEnds(fs: seq<Frag>, data: seq<Byte>, f: nat, k: nat)
    requires Pieces(fs, data, f) && k < |fs|
    ensures fs[k].off == 0 <==> k == 0
    ensures fs[k].more <==> k < |fs| - 1
    ensures 0 < fs[k].len && fs[k].off + fs[k].len <= |data|
    ensures !fs[k].more ==> fs[k].off + fs[k].len == |data|
  {
    TilesInside(fs, |data|, f, 0, k);
    if k > 0 {
      TilesGrow(fs, |data|, f, 0, 0, k);
    }
  }

  lemma {:induction false} AfterLength(b: Buf, data: seq<Byte>, fs: seq<Frag>, run: Arrivals, f: nat)
    requires Sized(b) && b.len == 0 && Pieces(fs, data, f) && From(run, fs) && Within(run, data)
    ensures After(b, data, run).len == if LengthKnown(run) then |data| else 0
  {
    if run.Nothing? {
    } else {
      AfterLength(b, data, fs, run.earlier, f);
      var k :| 0 <= k < |fs| && fs[k] == run.fr;
      PieceEnds(fs, data, f, k);
    }
  }

  // ---------- which piece holds a block or a byte ----------

  lemma {:induction false} HolderOfBlock(fs: seq<Frag>, data: seq<Byte>, f: nat, i: nat, k: nat) returns (j: nat)
    requires Pieces(fs, data, f) && i < (|data| + 7) / 8 && k < |fs| && fs[k].off / 8 <= i
    ensures k <= j < |fs| && Covers(fs[j], i)
    decreases |fs| - k
  {
    if k + 1 < |fs| && fs[k + 1].off / 8 <= i {
      j := HolderOfBlock(fs, data, f, i, k + 1);
    } else {
      j := k;
    }
  }

  lemma {:induction false} HolderOfByte(fs: seq<Frag>, data: seq<Byte>, f: nat, p: nat, k: nat) returns (j: nat)
    requires Pieces(fs, data, f) && p < |data| && k < |fs| && fs[k].off <= p
    ensures k <= j < |fs| && fs[j].off <= p < fs[j].off + fs[j].len
    decreases |fs| - k
  {
    if k + 1 < |fs| && fs[k + 1].off <= p {
      j := HolderOfByte(fs, data, f, p, k + 1);
    } else {
      j := k;
    }
  }

  /** No two pieces share a block or a byte. */
  lemma {:induction false} OneHolder(fs: seq<Frag>, data: seq<Byte>, f: nat, j: nat, k: nat, i: nat)
    requires Pieces(fs, data, f) && j < |fs| && k < |fs|
    ensures Covers(fs[j], i) && Covers(fs[k], i) ==> j == k
    ensures fs[j].off <= i < fs[j].off + fs[j].len && fs[k].off <= i < fs[k].off + fs[k].len ==> j == k
  {
    if j < k {
      TilesGrow(fs, |data|, f, 0, j, k);
    } else if k < j {
      TilesGrow(fs, |data|, f, 0, k, j);
    }
  }

  lemma {:induction false} FlaggedHas(fs: seq<Frag>, data: seq<Byte>, f: nat, run: Arrivals, k: nat, i: nat)
    requires Pieces(fs, data, f) && From(run, fs) && k < |fs| && Covers(fs[k], i)
    ensures Flagged(run, i) <==> Has(run, fs[k])
  {
    if run.Nothing? {
    } else {
      FlaggedHas(fs, data, f, run.earlier, k, i);
      var j :| 0 <= j < |fs| && fs[j] == run.fr;
      OneHolder(fs, data, f, j, k, i);
    }
  }

  lemma {:induction false} FilledHas(fs: seq<Frag>, data: seq<Byte>, f: nat, run: Arrivals, k: nat, p: nat)
    requires Pieces(fs, data, f) && From(run, fs) && k < |fs| && fs[k].off <= p < fs[k].off + fs[k].len
    ensures Filled(run, p) <==> Has(run, fs[k])
  {
    if run.Nothing? {
    } else {
      FilledHas(fs, data, f, run.earlier, k, p);
      var j :| 0 <= j < |fs| && fs[j] == run.fr;
      OneHolder(fs, data, f, j, k, p);
    }
  }

  // ---------- completion ----------

  /** Every piece but the last starts where the flags have been cleared. */
  ghost predicate Clearable(fs: seq<Frag>)
  {
    forall k :: 0 <= k < |fs| - 1 ==> fs[k].off < 8 * CLEARED
  }

  ghost predicate AllArrived(run: Arrivals, fs: seq<Frag>)
  {
    forall k :: 0 <= k < |fs| ==> Has(run, fs[k])
  }

  /** Once everything has arrived and the length is known, the test succeeds, whatever the buffer held before. */
  lemma {:induction false} ArrivedCompletes(b: Buf, data: seq<Byte>, fs: seq<Frag>, f: nat, run: Arrivals)
    requires Fresh(b) && Pieces(fs, data, f) && From(run, fs) && Within(run, data)
    requires AllArrived(run, fs) && LengthKnown(run)
    ensures Complete(After(b, data, run))
  {
    AfterLength(b, data, fs, run, f);
    forall i: nat | i < (|data| + 7) / 8
      ensures After(b, data, run).bits[i]
    {
      var k := HolderOfBlock(fs, data, f, i, 0);
      FlaggedHas(fs, data, f, run, k, i);
      AfterBits(b, data, run, i);
    }
  }

  lemma {:induction false} LengthKnownHas(data: seq<Byte>, fs: seq<Frag>, f: nat, run: Arrivals)
    requires Pieces(fs, data, f) && From(run, fs) && LengthKnown(run)
    ensures Has(run, fs[|fs| - 1])
  {
    var k :| 0 <= k < |fs| && fs[k] == run.fr;
    PieceEnds(fs, data, f, k);
    if run.fr.more {
      LengthKnownHas(data, fs, f, run.earlier);
    }
  }

  /** The test succeeds only when everything has arrived, as long as every piece but the last has a cleared flag. */
  lemma {:induction false} CompleteHas(b: Buf, data: seq<Byte>, fs: seq<Frag>, f: nat, run: Arrivals, k: nat)
    requires Fresh(b) && Pieces(fs, data, f) && From(run, fs) && Within(run, data)
    requires Complete(After(b, data, run)) && k < |fs| && (k < |fs| - 1 ==> fs[k].off < 8 * CLEARED)
    ensures LengthKnown(run) && Has(run, fs[k])
  {
    AfterLength(b, data, fs, run, f);
    if k == |fs| - 1 {
      LengthKnownHas(data, fs, f, run);
    } else {
      var i := fs[k].off / 8;
      PieceEnds(fs, data, f, k);
      AfterBits(b, data, run, i);
      FlaggedHas(fs, data, f, run, k, i);
    }
  }

  lemma {:induction false} ArrivedPayload(b: Buf, data: seq<Byte>, fs: seq<Frag>, f: nat, run: Arrivals)
    requires Sized(b) && Pieces(fs, data, f) && From(run, fs) && Within(run, data) && AllArrived(run, fs)
    ensures After(b, data, run).payload[..|data|] == data
  {
    forall p: nat | p < |data|
      ensures After(b, data, run).payload[p] == data[p]
    {
      var k := HolderOfByte(fs, data, f, p, 0);
      FilledHas(fs, data, f, run, k, p);
      AfterByte(b, data, run, p);
    }
  }

  /**
   Reassembly undoes fragmentation, for any order and repetition of arrivals and any leftovers in the buffer:
   the test succeeds exactly when every piece has arrived and a final one since the latest first one, and the
   payload is then the original.
   */
  lemma {:induction false} Completion(b: Buf, data: seq<Byte>, fs: seq<Frag>, f: nat, run: Arrivals)
    requires Fresh(b) && Pieces(fs, data, f) && From(run, fs) && Within(run, data) && Clearable(fs)
    ensures Complete(After(b, data, run)) <==> AllArrived(run, fs) && LengthKnown(run)
    ensures Complete(After(b, data, run)) ==> Holds(After(b, data, run), data)
  {
    if Complete(After(b, data, run)) {
      forall k | 0 <= k < |fs|
        ensures Has(run, fs[k])
      {
        CompleteHas(b, data, fs, f, run, k);
      }
      CompleteHas(b, data, fs, f, run, 0);
      AfterLength(b, data, fs, run, f);
      ArrivedPayload(b, data, fs, f, run);
    }
    if AllArrived(run, fs) && LengthKnown(run) {
      ArrivedCompletes(b, data, fs, f, run);
    }
  }

  predicate Holds(b: Buf, data: seq<Byte>)
    requires Sized(b)
  {
    b.len == |data| <= |b.payload| && b.payload[..b.len] == data
  }

  // ---------- exactly when ----------

  /** Whatever a buffer was used for before, a successful test means that it holds `data`. */
  ghost predicate Reassembles(data: seq<Byte>, fs: seq<Frag>)
  {
    forall b: Buf, run: Arrivals ::
      Fresh(b) && From(run, fs) && Within(run, data) && Complete(After(b, data, run)) ==>
        Holds(After(b, data, run), data)
  }

  /** All pieces below `n` in order, but not piece `skip`. */
  function AllBut(fs: seq<Frag>, n: nat, skip: nat): Arrivals
    requires n <= |fs|
  {
    if n == 0 then Nothing
    else if n - 1 == skip then AllBut(fs, n - 1, skip)
    else Then(AllBut(fs, n - 1, skip), fs[n - 1])
  }

  lemma {:induction false} AllButHas(fs: seq<Frag>, data: seq<Byte>, f: nat, n: nat, skip: nat, k: nat)
    requires Pieces(fs, data, f) && n <= |fs| && k < |fs|
    ensures From(AllBut(fs, n, skip), fs)
    ensures Has(AllBut(fs, n, skip), fs[k]) <==> k < n && k != skip
  {
    if n == 0 {
    } else {
      AllButHas(fs, data, f, n - 1, skip, k);
      PieceEnds(fs, data, f, k);
      OneHolder(fs, data, f, n - 1, k, fs[k].off);
    }
  }

  /** The flags of piece `k` are left over, and the byte where it starts is not that of `data`. */
  ghost predicate Misleading(b: Buf, data: seq<Byte>, fs: seq<Frag>, k: nat)
    requires Sized(b) && k < |fs| && fs[k].off < |data| <= IP_MAX_BYTES
  {
    (forall i: nat :: i < FRAG_MAX && Covers(fs[k], i) ==> b.bits[i]) && b.payload[fs[k].off] != data[fs[k].off]
  }

  /** On top of such leftovers the test succeeds without the piece, and the payload is wrong. */
  lemma {:induction false} Misleads(b: Buf, data: seq<Byte>, fs: seq<Frag>, f: nat, k: nat)
    requires Fresh(b) && Pieces(fs, data, f) && k < |fs| - 1 && fs[k].off < |data| && Misleading(b, data, fs, k)
    ensures From(AllBut(fs, |fs|, k), fs) && Within(AllBut(fs, |fs|, k), data)
    ensures var r := After(b, data, AllBut(fs, |fs|, k));
            Complete(r) && r.len == |data| && r.payload[..|data|] != data
  {
    var p, run := fs[k].off, AllBut(fs, |fs|, k);
    PieceEnds(fs, data, f, k);
    AllButHas(fs, data, f, |fs|, k, k);
    FromWithin(run, fs, data, f);
    var r := After(b, data, run);
    PieceEnds(fs, data, f, |fs| - 1);
    AfterLength(b, data, fs, run, f);
    forall i: nat | i < (|data| + 7) / 8
      ensures r.bits[i]
    {
      AfterBits(b, data, run, i);
      var j := HolderOfBlock(fs, data, f, i, 0);
      AllButHas(fs, data, f, |fs|, k, j);
      FlaggedHas(fs, data, f, run, j, i);
    }
    FilledHas(fs, data, f, run, k, p);
    AfterByte(b, data, run, p);
    assert r.payload[..|data|][p] == r.payload[p];
  }

  /** A buffer whose leftovers flag every block that is not cleared, and that holds a wrong byte at `p`. */
  function Leftovers(data: seq<Byte>, p: nat): (b: Buf)
    requires p < |data|
    ensures Fresh(b)
  {
    Buf(seq(FRAG_MAX, i => i >= CLEARED), seq(IP_MAX_BYTES, i => if i == p && data[p] == 0 then 1 else 0), 0)
  }

  /** A piece in the middle that starts beyond the cleared flags can be missed. */
  lemma {:induction false} LeftoversMislead(data: seq<Byte>, fs: seq<Frag>, f: nat, k: nat)
    requires Pieces(fs, data, f) && k < |fs| - 1 && fs[k].off >= 8 * CLEARED
    ensures !Reassembles(data, fs)
  {
    PieceEnds(fs, data, f, k);
    Misleads(Leftovers(data, fs[k].off), data, fs, f, k);
  }

  /** Reassembly can be trusted if and only if every piece but the last starts below byte 16384. */
  lemma {:induction false} ReassemblesExactly(data: seq<Byte>, fs: seq<Frag>, f: nat)
    requires Pieces(fs, data, f)
    ensures Reassembles(data, fs) <==> Clearable(fs)
  {
    if Clearable(fs) {
      forall b: Buf, run: Arrivals | Fresh(b) && From(run, fs) && Within(run, data) && Complete(After(b, data, run))
        ensures Holds(After(b, data, run), data)
      {
        Completion(b, data, fs, f, run);
      }
    } else {
      var k :| 0 <= k < |fs| - 1 && fs[k].off >= 8 * CLEARED;
      LeftoversMislead(data, fs, f, k);
    }
  }

  /** The first multiple of `f`, counted from `off`, that lies beyond the cleared flags. */
  function FirstBeyond(f: nat, off: nat): (r: nat)
    requires 0 < f
    ensures off <= r && 8 * CLEARED <= r
    decreases 8 * CLEARED - off
  {
    if off >= 8 * CLEARED then off else FirstBeyond(f, off + f)
  }

  lemma {:induction false} ClearableCons(fr: Frag, rest: seq<Frag>)
    requires rest != []
    ensures Clearable([fr] + rest) <==> fr.off < 8 * CLEARED && Clearable(rest)
  {
    var fs := [fr] + rest;
    if Clearable(fs) {
      assert fs[0] == fr;
      forall k | 0 <= k < |rest| - 1
        ensures rest[k].off < 8 * CLEARED
      {
        assert fs[k + 1] == rest[k];
      }
    }
  }

  /** The condition as a length that the sender knows beforehand. */
  lemma {:induction false} ClearableLength(total: nat, f: nat, off: nat)
    requires off <= total && 0 < f
    ensures Clearable(Cut(total, f, off)) <==> total <= FirstBeyond(f, off) + f
    decreases total - off
  {
    var fs := Cut(total, f, off);
    if total - off > f {
      ClearableLength(total, f, off + f);
      ClearableCons(Frag(off, f, true), Cut(total, f, off + f));
    }
  }

  /** With a header of 20 bytes, that is 19136 bytes of payload. */
  lemma {:induction false} ClearableDefault(total: nat)
    ensures Clearable(Cut(total, MaxFrag(20), 0)) <==> total <= 19136
  {
    var f := MaxFrag(20);
    assert f == 1472;
    assert FirstBeyond(f, 16192) == 17664;
    assert FirstBeyond(f, 11776) == FirstBeyond(f, 13248) == FirstBeyond(f, 14720) == FirstBeyond(f, 16192);
    assert FirstBeyond(f, 5888) == FirstBeyond(f, 7360) == FirstBeyond(f, 8832) == FirstBeyond(f,
        10304) == FirstBeyond(f, 11776);
    assert FirstBeyond(f, 0) == FirstBeyond(f, 1472) == FirstBeyond(f, 2944) == FirstBeyond(f,
        4416) == FirstBeyond(f, 5888);
    ClearableLength(total, f, 0);
  }

  // ---------- frames on the wire ----------

  /** What ip_input checks of a frame that has the fixed part of a header, its version aside. */
  predicate Proper(frame: seq<Byte>)
  {
    && |frame| >= 20
    && var h := Parse(frame);
    20 <= Hlen(h) && h.len == |frame|
  }

  /** The header, with its options, is no longer than the packet, and the data end inside the longest datagram. */
  predicate Inside(h: IpHdr)
  {
    Hlen(h) <= h.len && h.foff % FLAG_MF * 8 + h.len - Hlen(h) <= IP_MAX_BYTES
  }

  predicate Fits(frame: seq<Byte>)
    requires Proper(frame)
  {
    Inside(Parse(frame))
  }

  predicate Acceptable(frame: seq<Byte>)
  {
    Proper(frame) && Fits(frame)
  }

  predicate IsFragment(frame: seq<Byte>)
    requires |frame| >= 20
  {
    var h := Parse(frame);
    h.foff / FLAG_MF % 2 == 1 || h.foff % FLAG_MF != 0
  }

  /** ip_ntoh followed by ip_fragment_input. */
  function ReceiveFrame(b: Buf, frame: seq<Byte>): (r: Buf)
    requires Sized(b) && Acceptable(frame)
    ensures Sized(r)
  {
    var h := Parse(frame);
    Receive(b, h.foff % FLAG_MF * 8, frame[Hlen(h)..], h.foff / FLAG_MF % 2 == 1)
  }

  lemma {:induction false} FoffFields(units: nat, more: bool)
    requires units < FLAG_MF
    ensures var foff := (if more then FLAG_MF else 0) + units;
            foff % FLAG_MF == units && (foff / FLAG_MF % 2 == 1 <==> more)
  {
  }

  lemma {:induction false} FragHdrParses(h: IpHdr, opts: seq<Byte>, fr: Frag, x: seq<Byte>)
    requires fr.off <= IP_MAX_BYTES && Hlen(h) + fr.len <= IP_MAX_BYTES && fr.off % 8 == 0
    ensures var g := Parse(Wire(FragHdr(h, fr), opts) + x);
            && Hlen(g) == Hlen(h) && g.len == Hlen(h) + fr.len
            && g.foff % FLAG_MF * 8 == fr.off && (g.foff / FLAG_MF % 2 == 1 <==> fr.more)
  {
    RoundTrip(FragHdr(h, fr), opts, x);
    FoffFields(fr.off / 8, fr.more);
  }

  lemma {:induction false} FrameArrives(b: Buf, h: IpHdr, opts: seq<Byte>, data: seq<Byte>, fr: Frag)
    requires Sized(b) && fr.off + fr.len <= |data| <= IP_MAX_BYTES && Hlen(h) + fr.len <= IP_MAX_BYTES
    requires 20 <= Hlen(h) && |opts| == Hlen(h) - 20 && fr.off % 8 == 0
    ensures var frame := Frame(h, opts, data, fr);
            && Acceptable(frame) && (fr.more || fr.off > 0 ==> IsFragment(frame))
            && ReceiveFrame(b, frame) == Receive(b, fr.off, Slice(data, fr), fr.more)
  {
    var w, x := Wire(FragHdr(h, fr), opts), Slice(data, fr);
    FragHdrParses(h, opts, fr, x);
    assert |w| == Hlen(h) && (w + x)[|w|..] == x;
  }

  /** The buffer `b` after the frames of the pieces have come in. */
  function Delivered(b: Buf, h: IpHdr, opts: seq<Byte>, data: seq<Byte>, run: Arrivals): (r: Buf)
    requires Sized(b) && Within(run, data) && Deliverable(h, opts, data, run)
    ensures Sized(r)
  {
    match run
    case Nothing => b
    case Then(earlier, fr) => ReceiveFrame(Delivered(b, h, opts, data, earlier), Frame(h, opts, data, fr))
  }

  predicate Deliverable(h: IpHdr, opts: seq<Byte>, data: seq<Byte>, run: Arrivals)
    requires Within(run, data)
  {
    run.Then? ==>
      && Hlen(h) + run.fr.len <= IP_MAX_BYTES && Acceptable(Frame(h, opts, data, run.fr))
      && Deliverable(h, opts, data, run.earlier)
  }

  lemma {:induction false} DeliveredIsAfter(b: Buf, h: IpHdr, opts: seq<Byte>, data: seq<Byte>, fs: seq<Frag>,
      run: Arrivals)
    requires Sized(b) && Pieces(fs, data, MaxFrag(Hlen(h))) && From(run, fs) && Within(run, data)
    requires 20 <= Hlen(h) && |opts| == Hlen(h) - 20
    ensures Deliverable(h, opts, data, run) && Delivered(b, h, opts, data, run) == After(b, data, run)
  {
    if run.Nothing? {
    } else {
      DeliveredIsAfter(b, h, opts, data, fs, run.earlier);
      var k :| 0 <= k < |fs| && fs[k] == run.fr;
      FrameArrives(Delivered(b, h, opts, data, run.earlier), h, opts, data, run.fr);
    }
  }

  /** From payload to frames to payload. */
  lemma {:induction false} EndToEnd(b: Buf, h: IpHdr, opts: seq<Byte>, data: seq<Byte>, run: Arrivals)
    requires Fresh(b) && 20 <= Hlen(h) && |opts| == Hlen(h) - 20 && |data| <= IP_MAX_BYTES
    requires var f := MaxFrag(Hlen(h)); f < |data| <= FirstBeyond(f, 0) + f && From(run, Cut(|data|, f, 0))
    ensures Within(run, data) && Deliverable(h, opts, data, run)
    ensures var r, fs := Delivered(b, h, opts, data, run), Cut(|data|, MaxFrag(Hlen(h)), 0);
            && (Complete(r) <==> AllArrived(run, fs) && LengthKnown(run))
            && (Complete(r) ==> Holds(r, data))
  {
    var f := MaxFrag(Hlen(h));
    var fs := Cut(|data|, f, 0);
    CutTiles(|data|, f, 0);
    assert |fs| >= 2;
    FromWithin(run, fs, data, f);
    DeliveredIsAfter(b, h, opts, data, fs, run);
    ClearableLength(|data|, f, 0);
    Completion(b, data, fs, f, run);
  }
}
