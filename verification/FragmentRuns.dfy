/**
 Whole runs of the table of reassembly buffers: exactly when a datagram is handed up, and exactly which
 datagrams are handed up as they were sent.
 */
module FragmentRuns {
  import opened Bytes
  import opened IpHeader
  import opened Fragment
  import opened FragmentIndex
  import opened Reassembly
  import opened FragmentTable

  // ---------- what an event does to the buffer of one datagram ----------

  function Blank(): (b: Buf)
    ensures Fresh(b)
  {
    Buf(seq(FRAG_MAX, i => false), seq(IP_MAX_BYTES, i => 0), 0)
  }

  /** The piece that a frame carries. */
  function FragOf(frame: seq<Byte>): Frag
    requires Acceptable(frame)
  {
    var h := Parse(frame);
    Frag(h.foff % FLAG_MF * 8, h.len - Hlen(h), h.foff / FLAG_MF % 2 == 1)
  }

  /** The event is a frame of the datagram under `k`. */
  predicate IsOwn(k: Key, ev: Event)
    requires Ok(ev)
  {
    ev.Frame? && KeyOf(Parse(ev.bytes)) == k
  }

  lemma {:induction false} CarriesFrag(d: Datagram, frame: seq<Byte>, fr: Frag)
    requires Cuttable(d) && fr in PiecesOf(d) && Carries(frame, d.hdr, d.opts, d.data, fr)
    ensures Acceptable(frame) && FragOf(frame) == fr && KeyOf(Parse(frame)) == KeyOf(d.hdr)
  {
    CuttablePieces(d);
    var k :| 0 <= k < |PiecesOf(d)| && PiecesOf(d)[k] == fr;
    FrameArrives(Blank(), d.hdr, d.opts, d.data, fr);
    FragHdrParses(d.hdr, d.opts, fr, Slice(d.data, fr));
    RoundTrip(FragHdr(d.hdr, fr), d.opts, Slice(d.data, fr));
  }

  /** The frame of the `n`-th piece. */
  function PieceFrame(d: Datagram, n: nat): Event
    requires Cuttable(d) && n < |PiecesOf(d)|
  {
    CuttablePieces(d);
    PieceEnds(PiecesOf(d), d.data, MaxFrag(Hlen(d.hdr)), n);
    Event.Frame(Fragment.Frame(d.hdr, d.opts, d.data, PiecesOf(d)[n]), Blank())
  }

  /** The event is the `n`-th piece of `d` coming in. */
  ghost predicate OfPiece(d: Datagram, n: nat, ev: Event)
  {
    && n < |PiecesOf(d)| && ev.Frame? && Ok(ev)
    && Carries(ev.bytes, d.hdr, d.opts, d.data, PiecesOf(d)[n]) == true
  }

  lemma {:induction false} PieceFrameOk(d: Datagram, n: nat, orig: Key -> Datagram)
    requires Cuttable(d) && n < |PiecesOf(d)| && orig(KeyOf(d.hdr)) == d
    ensures OfPiece(d, n, PieceFrame(d, n)) == true && Ok(PieceFrame(d, n)) && Genuine(orig, PieceFrame(d, n)) == true
  {
    CuttablePieces(d);
    var fr, bytes := PiecesOf(d)[n], PieceFrame(d, n).bytes;
    PieceEnds(PiecesOf(d), d.data, MaxFrag(Hlen(d.hdr)), n);
    assert fr in PiecesOf(d) && fr.len <= MaxFrag(Hlen(d.hdr));
    assert Carries(bytes, d.hdr, d.opts, d.data, fr);
    CarriesFrag(d, bytes, fr);
  }

  /** A genuine frame under `k` carries a piece of the datagram under `k`. */
  lemma {:induction false} OwnPiece(orig: Key -> Datagram, k: Key, ev: Event)
    requires Pure(orig) && Ok(ev) && Genuine(orig, ev) && IsOwn(k, ev)
    ensures var d := orig(k);
            FragOf(ev.bytes) in PiecesOf(d) && Carries(ev.bytes, d.hdr, d.opts, d.data, FragOf(ev.bytes))
  {
    var l, fr :| fr in PiecesOf(orig(l)) && Carries(ev.bytes, orig(l).hdr, orig(l).opts, orig(l).data, fr);
    assert KeyOf(orig(l).hdr) == l && Cuttable(orig(l));
    CarriesFrag(orig(l), ev.bytes, fr);
  }

  /** No buffer but the `i`-th is held under `k`. */
  predicate Only(t: Table, k: Key, i: nat)
  {
    forall j :: 0 <= j < |t| && j != i && t[j].reserved ==> t[j].key != k
  }

  /** `k` gets the `i`-th buffer as `s`, which holds the arrivals `run` of the pieces of `d` on top of `b0`. */
  ghost predicate Found(t: Table, k: Key, i: nat, s: Slot, d: Datagram, b0: Buf, run: Arrivals)
  {
    && Shape(t) && Only(t, k, i) && GetBuffer(t, k) == Some((i, s)) && Sized(b0)
    && From(run, PiecesOf(d)) && Within(run, d.data) && s.buf == After(b0, d.data, run)
  }

  /** A buffer that is reserved under `k`, and the only one, is found. */
  lemma {:induction false} HeldIsFound(t: Table, k: Key, i: nat)
    requires Shape(t) && Only(t, k, i) && i < |t| && t[i].reserved && t[i].key == k
    ensures GetBuffer(t, k) == Some((i, t[i]))
  {
  }

  /** The event leaves the arrivals `run` in the buffer, or hands it up if that makes it complete. */
  ghost predicate Results(t: Table, ev: Event, k: Key, i: nat, s: Slot, d: Datagram, b0: Buf, run: Arrivals)
    requires Shape(t) && Ok(ev)
  {
    && Sized(b0) && Within(run, d.data) && i < |t|
    && var b, r := After(b0, d.data, run), Step(t, ev);
       && (Complete(b) ==> r.1 == [Output(k, b.payload[..b.len])])
       && (!Complete(b) ==> r == (t[i := s.(buf := b)], []) && Found(r.0, k, i, s.(buf := b), d, b0, run) == true)
  }

  /** A frame of its own is added to the buffer, or completes the datagram. */
  lemma {:induction false} OwnFrame(t: Table, k: Key, i: nat, s: Slot, d: Datagram, b0: Buf, run: Arrivals, ev: Event,
      fr: Frag)
    requires Found(t, k, i, s, d, b0, run) && Cuttable(d) && KeyOf(d.hdr) == k && ev.Frame? && Sized(ev.left)
    requires fr in PiecesOf(d) && Carries(ev.bytes, d.hdr, d.opts, d.data, fr)
    ensures Shape(t) && Ok(ev) && Results(t, ev, k, i, s, d, b0, Then(run, fr)) == true
    ensures From(Then(run, fr), PiecesOf(d)) && Within(Then(run, fr), d.data)
  {
    CarriesFrag(d, ev.bytes, fr);
    CuttablePieces(d);
    var n :| 0 <= n < |PiecesOf(d)| && PiecesOf(d)[n] == fr;
    FrameArrives(s.buf, d.hdr, d.opts, d.data, fr);
    var b := After(b0, d.data, Then(run, fr));
    assert Step(t, ev) == Stored(t, i, s, b, ev.left);
    if !Complete(b) {
      HeldIsFound(t[i := s.(buf := b)], k, i);
    }
  }

  /** The slot that the event makes of one that it does not concern. */
  function Aged(s: Slot, ev: Event): Slot
  {
    if ev.Tick? then s.(timer := s.timer - ev.delta) else s
  }

  /** Other events leave a held buffer alone while there is time. */
  lemma {:induction false} OtherEvent(t: Table, k: Key, i: nat, ev: Event)
    requires Shape(t) && Only(t, k, i) && i < |t| && t[i].reserved && t[i].key == k && Ok(ev) && !IsOwn(k, ev)
    requires ev.Tick? ==> t[i].timer - ev.delta > 0
    ensures var r := Step(t, ev);
            && Only(r.0, k, i) && r.0[i] == Aged(t[i], ev) && GetBuffer(r.0, k) == Some((i, Aged(t[i], ev)))
            && forall o :: o in r.1 ==> o.key != k
  {
    var r := Step(t, ev);
    if ev.Frame? {
      var g := GetBuffer(t, KeyOf(Parse(ev.bytes)));
      if g.Some? {
        assert g.value.0 != i;
      }
    }
    HeldIsFound(r.0, k, i);
  }

  // ---------- when a datagram is handed up ----------

  /** The pieces that have arrived, with the one that an event brings. */
  function Joined(run: Arrivals, k: Key, ev: Event): Arrivals
    requires Ok(ev)
  {
    if IsOwn(k, ev) then Then(run, FragOf(ev.bytes)) else run
  }

  /** Every piece has arrived, and a final one since the latest first one. */
  ghost predicate Done(run: Arrivals, d: Datagram)
  {
    AllArrived(run, PiecesOf(d)) && LengthKnown(run)
  }

  /** That is so now, or after some of the events. */
  ghost predicate DoneDuring(run: Arrivals, d: Datagram, evs: seq<Event>)
    requires AllOk(evs)
    decreases |evs|
  {
    Done(run, d) || (evs != [] && DoneDuring(Joined(run, KeyOf(d.hdr), evs[0]), d, evs[1..]))
  }

  /** A timer that stands at `timer` does not run out during the events. */
  predicate InTime(timer: int, evs: seq<Event>)
    decreases |evs|
  {
    evs == [] ||
    var rest := if evs[0].Tick? then timer - evs[0].delta else timer;
    rest > 0 && InTime(rest, evs[1..])
  }

  ghost predicate AllGenuine(orig: Key -> Datagram, evs: seq<Event>)
  {
    forall i :: 0 <= i < |evs| ==> Genuine(orig, evs[i])
  }

  lemma {:induction false} DoneIsComplete(d: Datagram, b0: Buf, run: Arrivals)
    requires Fresh(b0) && Cuttable(d) && Short(d) && From(run, PiecesOf(d)) && Within(run, d.data)
    ensures Complete(After(b0, d.data, run)) <==> Done(run, d)
    ensures Complete(After(b0, d.data, run)) ==> Holds(After(b0, d.data, run), d.data)
  {
    CuttablePieces(d);
    Completion(b0, d.data, PiecesOf(d), MaxFrag(Hlen(d.hdr)), run);
  }

  /** The datagram under `k` is short, the buffer that it gets was fresh, and there is time for the events. */
  ghost predicate UnderWay(orig: Key -> Datagram, t: Table, evs: seq<Event>, k: Key, i: nat, s: Slot, b0: Buf,
      run: Arrivals)
  {
    && Pure(orig) == true && Short(orig(k)) && AllOk(evs) && AllGenuine(orig, evs) && InTime(s.timer, evs)
    && Found(t, k, i, s, orig(k), b0, run) == true && Fresh(b0) && !Done(run, orig(k))
  }

  lemma {:induction false} OwnNext(orig: Key -> Datagram, t: Table, evs: seq<Event>, k: Key, i: nat, s: Slot, b0: Buf,
      run: Arrivals) returns (s': Slot, run': Arrivals)
    requires UnderWay(orig, t, evs, k, i, s, b0, run) && evs != [] && IsOwn(k, evs[0])
    ensures KeyOf(orig(k).hdr) == k && run' == Joined(run, k, evs[0])
    ensures Done(run', orig(k)) ==> Step(t, evs[0]).1 == [Output(k, orig(k).data)]
    ensures !Done(run', orig(k)) ==>
              && Step(t, evs[0]).1 == [] && UnderWay(orig, Step(t, evs[0]).0, evs[1..], k, i, s', b0, run') == true
              && Step(t, evs[0]).0[i] == s'
  {
    var d := orig(k);
    assert KeyOf(d.hdr) == k && Cuttable(d) && Genuine(orig, evs[0]);
    OwnPiece(orig, k, evs[0]);
    var fr := FragOf(evs[0].bytes);
    run' := Then(run, fr);
    OwnFrame(t, k, i, s, d, b0, run, evs[0], fr);
    DoneIsComplete(d, b0, run');
    s' := s.(buf := After(b0, d.data, run'));
  }

  lemma {:induction false} OtherNext(orig: Key -> Datagram, t: Table, evs: seq<Event>, k: Key, i: nat, s: Slot, b0: Buf,
      run: Arrivals)
    requires UnderWay(orig, t, evs, k, i, s, b0, run) && evs != [] && !IsOwn(k, evs[0]) && t[i] == s
    ensures KeyOf(orig(k).hdr) == k && forall o :: o in Step(t, evs[0]).1 ==> o.key != k
    ensures UnderWay(orig, Step(t, evs[0]).0, evs[1..], k, i, Aged(s, evs[0]), b0, run) == true
    ensures Step(t, evs[0]).0[i] == Aged(s, evs[0])
  {
    assert KeyOf(orig(k).hdr) == k;
    OtherEvent(t, k, i, evs[0]);
  }

  lemma {:induction false} HeldUntil(orig: Key -> Datagram, t: Table, evs: seq<Event>, k: Key, i: nat, s: Slot, b0: Buf,
      run: Arrivals)
    requires UnderWay(orig, t, evs, k, i, s, b0, run) == true && (t[i] == s || (evs != [] && IsOwn(k, evs[0])))
    ensures Output(k, orig(k).data) in Outputs(t, evs) <==> DoneDuring(run, orig(k), evs)
    decreases |evs|
  {
    if evs == [] {
    } else if IsOwn(k, evs[0]) {
      var s', run' := OwnNext(orig, t, evs, k, i, s, b0, run);
      if !Done(run', orig(k)) {
        HeldUntil(orig, Step(t, evs[0]).0, evs[1..], k, i, s', b0, run');
      }
    } else {
      OtherNext(orig, t, evs, k, i, s, b0, run);
      HeldUntil(orig, Step(t, evs[0]).0, evs[1..], k, i, Aged(s, evs[0]), b0, run);
    }
  }

  lemma {:induction false} FreeIsFound(t: Table, k: Key, i: nat, d: Datagram) returns (s: Slot)
    requires Shape(t) && FreeFor(t, k, i)
    ensures s.timer == FRAGMENT_TLB && Fresh(s.buf) && Found(t, k, i, s, d, s.buf, Nothing) == true
  {
    s := Slot(true, FRAGMENT_TLB, k, Cleared(t[i].buf));
    assert GetBuffer(t, k) == Some((i, s));
    assert After(s.buf, d.data, Nothing) == s.buf;
  }

  lemma {:induction false} NothingDone(d: Datagram)
    requires Cuttable(d)
    ensures Done(Nothing, d) == false
  {
    assert !Has(Nothing, PiecesOf(d)[0]);
  }

  /**
   A short datagram whose first frame finds a free buffer is handed up, before its timer runs out and whatever else
   goes on, iff at some moment every piece has arrived and a final one since the latest first one.
   */
  lemma {:induction false} HandedUpExactly(orig: Key -> Datagram, t: Table, evs: seq<Event>, k: Key, i: nat)
    requires Pure(orig) && Shape(t) && AllOk(evs) && AllGenuine(orig, evs) && Short(orig(k))
    requires FreeFor(t, k, i) && evs != [] && IsOwn(k, evs[0]) && InTime(15, evs)
    ensures Output(k, orig(k).data) in Outputs(t, evs) <==> DoneDuring(Nothing, orig(k), evs)
  {
    assert Cuttable(orig(k));
    NothingDone(orig(k));
    var s := FreeIsFound(t, k, i, orig(k));
    HeldUntil(orig, t, evs, k, i, s, s.buf, Nothing);
  }

  /** The pieces that have arrived after all of the events. */
  function Gathered(run: Arrivals, k: Key, evs: seq<Event>): Arrivals
    requires AllOk(evs)
    decreases |evs|
  {
    if evs == [] then run else Gathered(Joined(run, k, evs[0]), k, evs[1..])
  }

  /** Some moment: after the first `n` events. */
  lemma {:induction false} DoneAtSome(run: Arrivals, d: Datagram, evs: seq<Event>)
    requires AllOk(evs)
    ensures DoneDuring(run, d, evs) <==>
            exists n :: 0 <= n <= |evs| && Done(Gathered(run, KeyOf(d.hdr), evs[..n]), d)
    decreases |evs|
  {
    var k := KeyOf(d.hdr);
    assert evs[..0] == [];
    if evs != [] {
      var run', rest := Joined(run, k, evs[0]), evs[1..];
      DoneAtSome(run', d, rest);
      forall n | 0 < n <= |evs|
        ensures Gathered(run, k, evs[..n]) == Gathered(run', k, rest[..n - 1])
      {
        assert evs[..n][1..] == rest[..n - 1];
      }
      if DoneDuring(run', d, rest) {
        var m :| 0 <= m <= |rest| && Done(Gathered(run', k, rest[..m]), d);
        assert Gathered(run, k, evs[..m + 1]) == Gathered(run', k, rest[..m]);
      }
    }
  }

  /** The event brings the piece `fr` of the datagram under `k`. */
  predicate Brings(k: Key, fr: Frag, ev: Event)
  {
    Ok(ev) && IsOwn(k, ev) && FragOf(ev.bytes) == fr
  }

  lemma {:induction false} ReversedRun(d: Datagram)
    requires Cuttable(d) && |PiecesOf(d)| == 2
    ensures var one := Then(Nothing, PiecesOf(d)[1]);
            var two := Then(one, PiecesOf(d)[0]);
            && AllArrived(two, PiecesOf(d)) == true
            && Done(Nothing, d) == false && Done(one, d) == false && Done(two, d) == false
  {
    var fs := PiecesOf(d);
    CuttablePieces(d);
    PieceEnds(fs, d.data, MaxFrag(Hlen(d.hdr)), 0);
    PieceEnds(fs, d.data, MaxFrag(Hlen(d.hdr)), 1);
    var one := Then(Nothing, fs[1]);
    assert !Has(Nothing, fs[0]) && !Has(one, fs[0]);
    assert Has(one, fs[1]);
  }

  lemma {:induction false} ReversedPair(d: Datagram, x: Event, y: Event)
    requires Cuttable(d) && |PiecesOf(d)| == 2
    requires Brings(KeyOf(d.hdr), PiecesOf(d)[1], x) && Brings(KeyOf(d.hdr), PiecesOf(d)[0], y)
    ensures AllOk([x, y]) && AllArrived(Gathered(Nothing, KeyOf(d.hdr), [x, y]), PiecesOf(d)) == true
    ensures DoneDuring(Nothing, d, [x, y]) == false
  {
    ReversedRun(d);
    var one := Joined(Nothing, KeyOf(d.hdr), x);
    var two := Joined(one, KeyOf(d.hdr), y);
    assert [x, y][1..] == [y] && [y][1..] == [];
    assert Gathered(one, KeyOf(d.hdr), [y]) == two;
    assert DoneDuring(one, d, [y]) == DoneDuring(two, d, []);
  }

  /** Two frames in the wrong order: all of the datagram has arrived, and it is not handed up. */
  lemma {:induction false} LastThenFirst(orig: Key -> Datagram, t: Table, k: Key, i: nat, x: Event, y: Event)
    requires Pure(orig) && Shape(t) && Short(orig(k)) && |PiecesOf(orig(k))| == 2 && FreeFor(t, k, i)
    requires Brings(k, PiecesOf(orig(k))[1], x) && Brings(k, PiecesOf(orig(k))[0], y)
    requires Genuine(orig, x) == true && Genuine(orig, y) == true
    ensures AllOk([x, y]) && AllArrived(Gathered(Nothing, k, [x, y]), PiecesOf(orig(k))) == true
    ensures Output(k, orig(k).data) !in Outputs(t, [x, y])
  {
    assert Cuttable(orig(k)) && KeyOf(orig(k).hdr) == k;
    ReversedPair(orig(k), x, y);
    assert AllGenuine(orig, [x, y]) && [x, y][1..] == [y] && [y][1..] == [];
    HandedUpExactly(orig, t, [x, y], k, i);
  }

  // ---------- what leftovers do ----------

  /** The buffers before anything has come in. */
  function Empty(): (t: Table)
    ensures Shape(t) && forall i :: 0 <= i < |t| ==> !t[i].reserved
  {
    seq(NUM_BUFFERS, i => Slot(false, 0, Key(0, 0, 0, 0), Blank()))
  }

  function Flipped(data: seq<Byte>): (r: seq<Byte>)
    ensures |r| == |data| && forall i :: 0 <= i < |data| ==> r[i] != data[i]
  {
    seq(|data|, i requires 0 <= i < |data| => 255 - data[i])
  }

  /** Another datagram, under `k`, that is cut in the same way but has no byte in common with `d`. */
  function Alien(d: Datagram, k: Key): Datagram
  {
    Datagram(d.hdr.(src := k.src, dst := k.dst, proto := k.proto, id := k.id), d.opts, Flipped(d.data))
  }

  /** `d`, and aliens under all other keys. */
  function Peers(d: Datagram): Key -> Datagram
  {
    k => if k == KeyOf(d.hdr) then d else Alien(d, k)
  }

  lemma {:induction false} PeersPure(d: Datagram)
    requires Cuttable(d)
    ensures Pure(Peers(d)) && Peers(d)(KeyOf(d.hdr)) == d
  {
  }

  /** The frames from the `n`-th piece on, but not that of piece `skip`. */
  function FramesFrom(d: Datagram, n: nat, skip: nat): seq<Event>
    requires Cuttable(d) && n <= |PiecesOf(d)|
    decreases |PiecesOf(d)| - n
  {
    if n == |PiecesOf(d)| then []
    else if n == skip then FramesFrom(d, n + 1, skip)
    else [PieceFrame(d, n)] + FramesFrom(d, n + 1, skip)
  }

  lemma {:induction false} FramesNext(d: Datagram, n: nat, skip: nat)
    requires Cuttable(d) && n < |PiecesOf(d)|
    ensures FramesFrom(d, |PiecesOf(d)|, skip) == []
    ensures FramesFrom(d, n, skip) == (if n == skip then [] else [PieceFrame(d, n)]) + FramesFrom(d, n + 1, skip)
  {
  }

  ghost predicate AllFine(orig: Key -> Datagram, evs: seq<Event>)
  {
    AllOk(evs) && AllGenuine(orig, evs)
  }

  lemma {:induction false} OneMoreFine(orig: Key -> Datagram, ev: Event, evs: seq<Event>)
    requires Ok(ev) && Genuine(orig, ev) == true && AllFine(orig, evs)
    ensures AllFine(orig, [ev] + evs) == true
  {
    var all := [ev] + evs;
    forall i | 0 <= i < |all|
      ensures Ok(all[i]) && Genuine(orig, all[i])
    {
      if i > 0 {
        assert all[i] == evs[i - 1];
      }
    }
  }

  lemma {:induction false} FramesFromFine(d: Datagram, n: nat, skip: nat, orig: Key -> Datagram)
    requires Cuttable(d) && n <= |PiecesOf(d)| && orig(KeyOf(d.hdr)) == d
    ensures AllFine(orig, FramesFrom(d, n, skip)) == true
    decreases |PiecesOf(d)| - n
  {
    if n == |PiecesOf(d)| {
    } else {
      FramesFromFine(d, n + 1, skip, orig);
      PieceFrameOk(d, n, orig);
      OneMoreFine(orig, PieceFrame(d, n), FramesFrom(d, n + 1, skip));
    }
  }

  /** Before the last piece the length is not known. */
  lemma {:induction false} NotKnownYet(d: Datagram, n: nat, skip: nat)
    requires Cuttable(d) && n < |PiecesOf(d)|
    ensures !LengthKnown(AllBut(PiecesOf(d), n, skip))
  {
    if n == 0 {
    } else {
      NotKnownYet(d, n - 1, skip);
      CuttablePieces(d);
      PieceEnds(PiecesOf(d), d.data, MaxFrag(Hlen(d.hdr)), n - 1);
    }
  }

  /** Before the last piece the test fails, whatever the buffer held. */
  lemma {:induction false} NotCompleteYet(d: Datagram, b0: Buf, n: nat, skip: nat)
    requires Fresh(b0) && Cuttable(d) && n < |PiecesOf(d)|
    ensures From(AllBut(PiecesOf(d), n, skip), PiecesOf(d)) && Within(AllBut(PiecesOf(d), n, skip), d.data)
    ensures !Complete(After(b0, d.data, AllBut(PiecesOf(d), n, skip)))
  {
    var fs, f := PiecesOf(d), MaxFrag(Hlen(d.hdr));
    CuttablePieces(d);
    AllButHas(fs, d.data, f, n, skip, 0);
    FromWithin(AllBut(fs, n, skip), fs, d.data, f);
    NotKnownYet(d, n, skip);
    AfterLength(b0, d.data, fs, AllBut(fs, n, skip), f);
  }

  /** Leftovers that stand for piece `skip` of `d`. */
  ghost predicate Leads(d: Datagram, b0: Buf, skip: nat)
  {
    && Cuttable(d) && skip < |PiecesOf(d)| - 1 && Fresh(b0)
    && PiecesOf(d)[skip].off < |d.data| && Misleading(b0, d.data, PiecesOf(d), skip)
  }

  /** The buffer found for `d` has such leftovers, and all pieces before the `n`-th but this one. */
  ghost predicate Astray(d: Datagram, t: Table, i: nat, s: Slot, b0: Buf, n: nat, skip: nat)
  {
    && n < |PiecesOf(d)| && Leads(d, b0, skip) == true
    && Found(t, KeyOf(d.hdr), i, s, d, b0, AllBut(PiecesOf(d), n, skip)) == true
  }

  lemma {:induction false} PieceResults(d: Datagram, t: Table, i: nat, s: Slot, b0: Buf, n: nat, skip: nat, ev: Event)
    requires Astray(d, t, i, s, b0, n, skip) && OfPiece(d, n, ev) && n != skip
    ensures Ok(ev) && Shape(t) && Results(t, ev, KeyOf(d.hdr), i, s, d, b0, AllBut(PiecesOf(d), n + 1, skip)) == true
  {
    OwnFrame(t, KeyOf(d.hdr), i, s, d, b0, AllBut(PiecesOf(d), n, skip), ev, PiecesOf(d)[n]);
  }

  lemma {:induction false} OutputsLater(t: Table, ev: Event, evs: seq<Event>, o: Output)
    requires Shape(t) && Ok(ev) && AllOk(evs)
    ensures AllOk([ev] + evs)
    ensures o in Outputs(t, [ev] + evs) <==> o in Step(t, ev).1 || o in Outputs(Step(t, ev).0, evs)
  {
    assert ([ev] + evs)[1..] == evs;
  }

  /** During these events `o` is handed up under the key of `d`, and is not `d`. */
  ghost predicate HandsUpWrong(t: Table, evs: seq<Event>, d: Datagram, o: Output)
  {
    Shape(t) && AllOk(evs) && o in Outputs(t, evs) && o.key == KeyOf(d.hdr) && o.payload != d.data
  }

  ghost predicate Leaves(t: Table, ev: Event, t': Table)
  {
    Shape(t) && Ok(ev) && t' == Step(t, ev).0
  }

  lemma {:induction false} WrongLater(t: Table, ev: Event, t': Table, evs: seq<Event>, d: Datagram, o: Output)
    requires Leaves(t, ev, t') && HandsUpWrong(t', evs, d, o)
    ensures HandsUpWrong(t, [ev] + evs, d, o) == true
  {
    OutputsLater(t, ev, evs, o);
  }

  lemma {:induction false} WrongNow(t: Table, ev: Event, d: Datagram, o: Output)
    requires Shape(t) && Ok(ev) && o in Step(t, ev).1 && o.key == KeyOf(d.hdr) && o.payload != d.data
    ensures HandsUpWrong(t, [ev] + [], d, o) == true
  {
    OutputsLater(t, ev, [], o);
  }

  /** The test succeeds on top of `b0`, and the payload is not that of `d`. */
  ghost predicate Wrong(d: Datagram, b0: Buf, run: Arrivals)
  {
    && Sized(b0) && Within(run, d.data)
    && var b := After(b0, d.data, run); Complete(b) && b.payload[..b.len] != d.data
  }

  lemma {:induction false} WrongAtLast(d: Datagram, b0: Buf, skip: nat)
    requires Leads(d, b0, skip)
    ensures Wrong(d, b0, AllBut(PiecesOf(d), |PiecesOf(d)|, skip)) == true
  {
    CuttablePieces(d);
    Misleads(b0, d.data, PiecesOf(d), MaxFrag(Hlen(d.hdr)), skip);
  }

  lemma {:induction false} WrongResult(t: Table, ev: Event, k: Key, i: nat, s: Slot, d: Datagram, b0: Buf,
      run: Arrivals)
    returns (o: Output)
    requires Shape(t) && Ok(ev) && Results(t, ev, k, i, s, d, b0, run) && Wrong(d, b0, run)
    requires KeyOf(d.hdr) == k
    ensures HandsUpWrong(t, [ev] + [], d, o) == true
  {
    var b := After(b0, d.data, run);
    o := Output(k, b.payload[..b.len]);
    WrongNow(t, ev, d, o);
  }

  lemma {:induction false} LastMisleads(d: Datagram, t: Table, i: nat, s: Slot, b0: Buf, n: nat, skip: nat, ev: Event)
    returns (o: Output)
    requires Astray(d, t, i, s, b0, n, skip) == true && OfPiece(d, n, ev) == true && n == |PiecesOf(d)| - 1 && n != skip
    ensures HandsUpWrong(t, [ev] + [], d, o) == true
  {
    PieceResults(d, t, i, s, b0, n, skip, ev);
    WrongAtLast(d, b0, skip);
    o := WrongResult(t, ev, KeyOf(d.hdr), i, s, d, b0, AllBut(PiecesOf(d), n + 1, skip));
  }

  lemma {:induction false} NotYetResult(t: Table, ev: Event, k: Key, i: nat, s: Slot, d: Datagram, b0: Buf,
      run: Arrivals)
    returns (s': Slot)
    requires Shape(t) && Ok(ev) && Results(t, ev, k, i, s, d, b0, run) && !Complete(After(b0, d.data, run))
    ensures Found(Step(t, ev).0, k, i, s', d, b0, run) == true
  {
    s' := s.(buf := After(b0, d.data, run));
  }

  lemma {:induction false} NotDoneYet(d: Datagram, b0: Buf, n: nat, skip: nat)
    requires Leads(d, b0, skip) && n < |PiecesOf(d)|
    ensures Sized(b0) && Within(AllBut(PiecesOf(d), n, skip), d.data)
    ensures Complete(After(b0, d.data, AllBut(PiecesOf(d), n, skip))) == false
  {
    NotCompleteYet(d, b0, n, skip);
  }

  lemma {:induction false} NextAstray(d: Datagram, t: Table, i: nat, s: Slot, b0: Buf, n: nat, skip: nat, ev: Event)
    returns (t': Table, s': Slot)
    requires Astray(d, t, i, s, b0, n, skip) == true && OfPiece(d, n, ev) == true && n + 1 < |PiecesOf(d)| && n != skip
    ensures Leaves(t, ev, t') == true && Astray(d, t', i, s', b0, n + 1, skip) == true
  {
    PieceResults(d, t, i, s, b0, n, skip, ev);
    NotDoneYet(d, b0, n + 1, skip);
    t' := Step(t, ev).0;
    s' := NotYetResult(t, ev, KeyOf(d.hdr), i, s, d, b0, AllBut(PiecesOf(d), n + 1, skip));
  }

  lemma {:induction false} SkipAstray(d: Datagram, t: Table, i: nat, s: Slot, b0: Buf, skip: nat)
    requires Astray(d, t, i, s, b0, skip, skip)
    ensures Astray(d, t, i, s, b0, skip + 1, skip) == true
  {
  }

  /** These are the frames from the `n`-th on. */
  ghost predicate Remain(d: Datagram, n: nat, skip: nat, evs: seq<Event>)
  {
    Cuttable(d) && n <= |PiecesOf(d)| && evs == FramesFrom(d, n, skip)
  }

  lemma {:induction false} OneMisleads(d: Datagram, t: Table, i: nat, s: Slot, b0: Buf, n: nat, skip: nat,
      evs: seq<Event>) returns (o: Output)
    requires Remain(d, n, skip, evs) && n == |PiecesOf(d)| - 1 && Astray(d, t, i, s, b0, n, skip) == true && n != skip
    ensures HandsUpWrong(t, evs, d, o) == true
  {
    PieceFrameOk(d, n, Peers(d));
    o := LastMisleads(d, t, i, s, b0, n, skip, PieceFrame(d, n));
    FramesNext(d, n, skip);
  }

  /** The frame of the `n`-th piece leaves the table astray. */
  lemma {:induction false} StillAstray(d: Datagram, t: Table, i: nat, s: Slot, b0: Buf, n: nat, skip: nat,
      evs: seq<Event>) returns (ev: Event, t': Table, s': Slot, rest: seq<Event>)
    requires Remain(d, n, skip, evs) && n + 1 < |PiecesOf(d)| && Astray(d, t, i, s, b0, n, skip) == true && n != skip
    ensures Astray(d, t', i, s', b0, n + 1, skip) == true && Leaves(t, ev, t') == true
    ensures Remain(d, n + 1, skip, rest) == true && evs == [ev] + rest
  {
    ev, rest := PieceFrame(d, n), FramesFrom(d, n + 1, skip);
    PieceFrameOk(d, n, Peers(d));
    t', s' := NextAstray(d, t, i, s, b0, n, skip, ev);
    FramesNext(d, n, skip);
  }

  lemma {:induction false} SkipRemain(d: Datagram, skip: nat, evs: seq<Event>)
    requires Remain(d, skip, skip, evs) && skip < |PiecesOf(d)|
    ensures Remain(d, skip + 1, skip, evs) == true
  {
    FramesNext(d, skip, skip);
  }

  /** The remaining frames hand up a wrong datagram. */
  lemma {:induction false} RestMisleads(d: Datagram, t: Table, i: nat, s: Slot, b0: Buf, n: nat, skip: nat,
      evs: seq<Event>) returns (o: Output)
    requires n < |PiecesOf(d)| && skip < |PiecesOf(d)| - 1
    requires Astray(d, t, i, s, b0, n, skip) == true && Remain(d, n, skip, evs) == true
    ensures HandsUpWrong(t, evs, d, o) == true
    decreases |PiecesOf(d)| - n
  {
    if n == skip {
      SkipAstray(d, t, i, s, b0, skip);
      SkipRemain(d, skip, evs);
      o := RestMisleads(d, t, i, s, b0, n + 1, skip, evs);
    } else if n == |PiecesOf(d)| - 1 {
      o := OneMisleads(d, t, i, s, b0, n, skip, evs);
    } else {
      var ev, t', s', rest := StillAstray(d, t, i, s, b0, n, skip, evs);
      o := RestMisleads(d, t', i, s', b0, n + 1, skip, rest);
      WrongLater(t, ev, t', rest, d, o);
    }
  }

  // ---------- a run that leaves them ----------

  /** The buffer after the alien's piece, that is without the flags that are cleared. */
  lemma {:induction false} AlienLeads(d: Datagram, k: Key, skip: nat)
    requires Cuttable(d) && skip < |PiecesOf(d)| - 1 && PiecesOf(d)[skip].off >= 8 * CLEARED
    ensures var fr, data := PiecesOf(d)[skip], Flipped(d.data);
            && Within(Then(Nothing, fr), data)
            && var b := After(Cleared(Blank()), data, Then(Nothing, fr));
               !Complete(b) && Leads(d, Cleared(b), skip) == true
  {
    var fs, f, data := PiecesOf(d), MaxFrag(Hlen(d.hdr)), Flipped(d.data);
    CuttablePieces(d);
    PieceEnds(fs, d.data, f, skip);
    var fr := fs[skip];
    var b := After(Cleared(Blank()), data, Then(Nothing, fr));
    assert After(Cleared(Blank()), data, Nothing) == Cleared(Blank());
    assert b == Receive(Cleared(Blank()), fr.off, Slice(data, fr), true);
    forall i: nat | i < FRAG_MAX && Covers(fr, i)
      ensures Cleared(b).bits[i]
    {
    }
    assert b.payload[fr.off] == Slice(data, fr)[0] == data[fr.off];
  }

  /** The alien's piece comes in, and the first buffer is given to it. */
  lemma {:induction false} AlienComes(a: Datagram, n: nat, ev: Event) returns (s: Slot)
    requires Cuttable(a) && OfPiece(a, n, ev) == true && Within(Then(Nothing, PiecesOf(a)[n]), a.data)
    requires !Complete(After(Cleared(Blank()), a.data, Then(Nothing, PiecesOf(a)[n])))
    ensures s == Slot(true, FRAGMENT_TLB, KeyOf(a.hdr), After(Cleared(Blank()), a.data, Then(Nothing, PiecesOf(a)[n])))
    ensures Ok(ev) && Step(Empty(), ev) == (Empty()[0 := s], [])
  {
    var k, b0 := KeyOf(a.hdr), Cleared(Blank());
    var s0 := Slot(true, FRAGMENT_TLB, k, b0);
    assert GetBuffer(Empty(), k) == Some((0, s0));
    OwnFrame(Empty(), k, 0, s0, a, b0, Nothing, ev, PiecesOf(a)[n]);
    s := s0.(buf := After(b0, a.data, Then(Nothing, PiecesOf(a)[n])));
  }

  /** Time runs out for it, and the next datagram gets the same buffer. */
  lemma {:induction false} Reused(t: Table, s: Slot, d: Datagram, skip: nat) returns (s': Slot)
    requires t == Empty()[0 := s] && s.timer == FRAGMENT_TLB && Sized(s.buf) && Leads(d, Cleared(s.buf), skip) == true
    ensures Shape(t) && Astray(d, Age(t, FRAGMENT_TLB), 0, s', Cleared(s.buf), 0, skip) == true
  {
    var k := KeyOf(d.hdr);
    s' := Slot(true, FRAGMENT_TLB, k, Cleared(s.buf));
    assert GetBuffer(Age(t, FRAGMENT_TLB), k) == Some((0, s'));
    assert After(Cleared(s.buf), d.data, Nothing) == Cleared(s.buf);
  }

  function OtherKey(k: Key): (r: Key)
    ensures r != k
  {
    k.(id := (k.id + 1) % 0x1_0000)
  }

  /** A piece of another datagram, enough time, and all pieces of `d` but that one. */
  function Misuse(d: Datagram, skip: nat): seq<Event>
    requires Cuttable(d) && skip < |PiecesOf(d)|
  {
    [PieceFrame(Alien(d, OtherKey(KeyOf(d.hdr))), skip)] + ([Tick(FRAGMENT_TLB)] + FramesFrom(d, 0, skip))
  }

  lemma {:induction false} AlienCut(d: Datagram, k: Key)
    requires Cuttable(d)
    ensures Cuttable(Alien(d, k)) && PiecesOf(Alien(d, k)) == PiecesOf(d) && KeyOf(Alien(d, k).hdr) == k
    ensures Alien(d, k).data == Flipped(d.data)
  {
  }

  lemma {:induction false} MisuseOk(d: Datagram, skip: nat)
    requires Cuttable(d) && skip < |PiecesOf(d)|
    ensures AllFine(Peers(d), Misuse(d, skip)) == true
  {
    var k, rest := OtherKey(KeyOf(d.hdr)), FramesFrom(d, 0, skip);
    AlienCut(d, k);
    PieceFrameOk(Alien(d, k), skip, Peers(d));
    FramesFromFine(d, 0, skip, Peers(d));
    OneMoreFine(Peers(d), Tick(FRAGMENT_TLB), rest);
    OneMoreFine(Peers(d), PieceFrame(Alien(d, k), skip), [Tick(FRAGMENT_TLB)] + rest);
  }

  /** Every datagram that is too long can be handed up wrongly: a run from the start that does so. */
  lemma {:induction false} MisuseMisleads(d: Datagram, skip: nat) returns (o: Output)
    requires Cuttable(d) && skip < |PiecesOf(d)| - 1 && PiecesOf(d)[skip].off >= 8 * CLEARED
    ensures HandsUpWrong(Empty(), Misuse(d, skip), d, o)
  {
    var k := OtherKey(KeyOf(d.hdr));
    var a := Alien(d, k);
    AlienCut(d, k);
    var ev, tick, rest := PieceFrame(a, skip), Tick(FRAGMENT_TLB), FramesFrom(d, 0, skip);
    PieceFrameOk(a, skip, Peers(d));
    AlienLeads(d, k, skip);
    var s := AlienComes(a, skip, ev);
    var t := Empty()[0 := s];
    var s' := Reused(t, s, d, skip);
    o := RestMisleads(d, Age(t, FRAGMENT_TLB), 0, s', Cleared(s.buf), 0, skip, rest);
    WrongLater(t, tick, Age(t, FRAGMENT_TLB), rest, d, o);
    WrongLater(Empty(), ev, t, [tick] + rest, d, o);
  }

  /** In every run in which `d` is what is sent under its key, it is handed up as it was sent, if at all. */
  ghost predicate Trusted(d: Datagram)
  {
    forall orig: Key -> Datagram, t: Table, evs: seq<Event>, o: Output ::
      && Pure(orig) && orig(KeyOf(d.hdr)) == d && Shape(t) && (forall i :: 0 <= i < |t| ==> !t[i].reserved)
      && AllOk(evs) && AllGenuine(orig, evs) && o in Outputs(t, evs) && o.key == KeyOf(d.hdr) ==>
        o.payload == d.data
  }

  /** Over all runs from the start, exactly the short datagrams are always handed up as they were sent. */
  lemma {:induction false} TrustedExactly(d: Datagram)
    requires Cuttable(d)
    ensures Trusted(d) <==> Short(d)
  {
    if Short(d) {
      forall orig: Key -> Datagram, t: Table, evs: seq<Event>, o: Output |
        && Pure(orig) && orig(KeyOf(d.hdr)) == d && Shape(t) && (forall i :: 0 <= i < |t| ==> !t[i].reserved)
        && AllOk(evs) && AllGenuine(orig, evs) && o in Outputs(t, evs) && o.key == KeyOf(d.hdr)
        ensures o.payload == d.data
      {
        StartInv(orig, t);
        HandedUpAsSent(orig, t, evs, o);
      }
    } else {
      CuttablePieces(d);
      var skip :| 0 <= skip < |PiecesOf(d)| - 1 && PiecesOf(d)[skip].off >= 8 * CLEARED;
      PeersPure(d);
      MisuseOk(d, skip);
      var o := MisuseMisleads(d, skip);
    }
  }
}
