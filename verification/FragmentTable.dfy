/**
 The table of reassembly buffers: which buffer a fragment goes to, reuse and time-outs, and what comes out
 over whole runs of interleaved datagrams.
 */
module FragmentTable {
  import opened Bytes
  import opened IpHeader
  import opened Fragment
  import opened FragmentIndex
  import opened Reassembly

  const NUM_BUFFERS := 4
  const FRAGMENT_TLB := 15

  function KeyOf(h: IpHdr): Key
  {
    Key(h.src, h.dst, h.proto, h.id)
  }

  /** An unreserved slot keeps whatever it was last used for. */
  datatype Slot = Slot(reserved: bool, timer: int, key: Key, buf: Buf)

  type Table = seq<Slot>

  predicate Shape(t: Table)
  {
    |t| == NUM_BUFFERS && forall i :: 0 <= i < |t| ==> Sized(t[i].buf)
  }

  /** The buffers in the tree are the reserved ones, under distinct keys. */
  predicate Distinct(t: Table)
  {
    forall i, j :: 0 <= i < j < |t| && t[i].reserved && t[j].reserved ==> t[i].key != t[j].key
  }

  function Lookup(t: Table, k: Key, n: nat): (r: Option<nat>)
    requires n <= |t|
    ensures r.Some? ==> n <= r.value < |t| && t[r.value].reserved && t[r.value].key == k
    ensures r.None? ==> forall i :: n <= i < |t| ==> !(t[i].reserved && t[i].key == k)
    decreases |t| - n
  {
    if n == |t| then None
    else if t[n].reserved && t[n].key == k then Some(n)
    else Lookup(t, k, n + 1)
  }

  function FirstFree(t: Table, n: nat): (r: Option<nat>)
    requires n <= |t|
    ensures r.Some? ==> n <= r.value < |t| && !t[r.value].reserved && forall i :: n <= i < r.value ==> t[i].reserved
    ensures r.None? ==> forall i :: n <= i < |t| ==> t[i].reserved
    decreases |t| - n
  {
    if n == |t| then None else if !t[n].reserved then Some(n) else FirstFree(t, n + 1)
  }

  /** A buffer handed out anew: the cleared flags, everything else left over. */
  function Cleared(b: Buf): (r: Buf)
    requires Sized(b)
    ensures Fresh(r)
  {
    b.(bits := seq(FRAG_MAX, i requires 0 <= i < FRAG_MAX => i >= CLEARED && b.bits[i]), len := 0)
  }

  /** The `i`-th buffer is the first that is free, and no buffer is held under the key. */
  predicate FreeFor(t: Table, k: Key, i: nat)
  {
    && i < |t| && !t[i].reserved && (forall j :: 0 <= j < i ==> t[j].reserved)
    && forall j :: 0 <= j < |t| && t[j].reserved ==> t[j].key != k
  }

  /** get_packet_buffer: the buffer of this key, or else the first free one with its flags cleared, or none. */
  function GetBuffer(t: Table, k: Key): (r: Option<(nat, Slot)>)
    requires Shape(t)
    ensures r.Some? ==> r.value.0 < |t| && Sized(r.value.1.buf) && r.value.1.reserved && r.value.1.key == k
    ensures r.Some? ==> var (i, s) := r.value;
                        (t[i].reserved && s == t[i]) || (FreeFor(t, k, i) && s.timer == FRAGMENT_TLB && Fresh(s.buf))
  {
    match Lookup(t, k, 0)
    case Some(i) => Some((i, t[i]))
    case None =>
      match FirstFree(t, 0)
      case Some(i) => Some((i, Slot(true, FRAGMENT_TLB, k, Cleared(t[i].buf))))
      case None => None
  }

  /** What happens to the table: a frame comes in, or time passes. `left` is what the hand-off leaves in the buffer. */
  datatype Event = Frame(bytes: seq<Byte>, left: Buf) | Tick(delta: int)

  predicate Ok(ev: Event)
  {
    ev.Frame? ==> Acceptable(ev.bytes) && Sized(ev.left)
  }

  /** A datagram handed up. */
  datatype Output = Output(key: Key, payload: seq<Byte>)

  /** The buffer `i` with its new contents; a complete one is handed up and released. */
  function Stored(t: Table, i: nat, s: Slot, b: Buf, left: Buf): (Table, seq<Output>)
    requires Shape(t) && i < |t| && Sized(b)
  {
    if Complete(b) then (t[i := s.(reserved := false, buf := left)], [Output(s.key, b.payload[..b.len])])
    else (t[i := s.(buf := b)], [])
  }

  /** A frame under the key `k` comes in. */
  function InputAs(t: Table, k: Key, frame: seq<Byte>, left: Buf): (r: (Table, seq<Output>))
    requires Shape(t) && Acceptable(frame) && Sized(left)
    ensures Shape(r.0)
  {
    match GetBuffer(t, k)
    case None => (t, [])
    case Some((i, s)) =>
      Stored(t, i, s, ReceiveFrame(s.buf, frame), left)
  }

  function Input(t: Table, frame: seq<Byte>, left: Buf): (r: (Table, seq<Output>))
    requires Shape(t) && Acceptable(frame) && Sized(left)
    ensures Shape(r.0)
  {
    InputAs(t, KeyOf(Parse(frame)), frame, left)
  }

  function AgeSlot(s: Slot, delta: int): Slot
  {
    if !s.reserved then s
    else if s.timer - delta <= 0 then s.(reserved := false, timer := s.timer - delta)
    else s.(timer := s.timer - delta)
  }

  function Age(t: Table, delta: int): (r: Table)
    requires Shape(t)
    ensures Shape(r)
  {
    seq(|t|, i requires 0 <= i < |t| => AgeSlot(t[i], delta))
  }

  function Step(t: Table, ev: Event): (r: (Table, seq<Output>))
    requires Shape(t) && Ok(ev)
    ensures Shape(r.0)
  {
    match ev
    case Frame(bytes, left) => Input(t, bytes, left)
    case Tick(delta) => (Age(t, delta), [])
  }

  predicate AllOk(evs: seq<Event>)
  {
    forall i :: 0 <= i < |evs| ==> Ok(evs[i])
  }

  /** Everything handed up during a run. */
  function Outputs(t: Table, evs: seq<Event>): seq<Output>
    requires Shape(t) && AllOk(evs)
    decreases |evs|
  {
    if evs == [] then []
    else var r := Step(t, evs[0]); r.1 + Outputs(r.0, evs[1..])
  }

  // ---------- datagrams in flight ----------

  datatype Datagram = Datagram(hdr: IpHdr, opts: seq<Byte>, data: seq<Byte>)

  /** A datagram that ip_send_fragments cuts into at least two frames. */
  predicate Cuttable(d: Datagram)
  {
    && 20 <= Hlen(d.hdr) && |d.opts| == Hlen(d.hdr) - 20
    && MaxFrag(Hlen(d.hdr)) < |d.data| <= IP_MAX_BYTES
  }

  /** It is short enough for the cleared flags. */
  ghost predicate Short(d: Datagram)
  {
    var f := MaxFrag(Hlen(d.hdr));
    |d.data| <= FirstBeyond(f, 0) + f
  }

  function PiecesOf(d: Datagram): seq<Frag>
  {
    Cut(|d.data|, MaxFrag(Hlen(d.hdr)), 0)
  }

  /** Under every key there is one datagram to be had. */
  ghost predicate Pure(orig: Key -> Datagram)
  {
    forall k :: KeyOf(orig(k).hdr) == k && Cuttable(orig(k))
  }

  /** What is handed up is what was sent, if that was short. */
  ghost predicate AsSent(orig: Key -> Datagram, o: Output)
  {
    Short(orig(o.key)) ==> o.payload == orig(o.key).data
  }

  /** Every frame that comes in is one of the frames of the datagram its key stands for. */
  ghost predicate Genuine(orig: Key -> Datagram, ev: Event)
  {
    ev.Frame? ==>
      exists k, fr :: fr in PiecesOf(orig(k)) && Carries(ev.bytes, orig(k).hdr, orig(k).opts, orig(k).data, fr)
  }

  /** A buffer in use holds some arrivals of its datagram on top of leftovers. */
  ghost predicate Filling(d: Datagram, b: Buf)
  {
    exists b0, run :: Fresh(b0) && From(run, PiecesOf(d)) && Within(run, d.data) && b == After(b0, d.data, run)
  }

  ghost predicate Inv(orig: Key -> Datagram, t: Table)
  {
    && Shape(t) && Distinct(t)
    && forall i :: 0 <= i < |t| && t[i].reserved ==> Filling(orig(t[i].key), t[i].buf)
  }

  lemma {:induction false} CuttablePieces(d: Datagram)
    requires Cuttable(d)
    ensures Pieces(PiecesOf(d), d.data, MaxFrag(Hlen(d.hdr))) && (Short(d) <==> Clearable(PiecesOf(d)))
  {
    var f := MaxFrag(Hlen(d.hdr));
    CutTiles(|d.data|, f, 0);
    ClearableLength(|d.data|, f, 0);
  }

  lemma {:induction false} FreshFilling(d: Datagram, b: Buf)
    requires Fresh(b)
    ensures Filling(d, b)
  {
    assert After(b, d.data, Nothing) == b;
    assert From(Nothing, PiecesOf(d)) && Within(Nothing, d.data);
  }

  /** One more frame of the same datagram. */
  lemma {:induction false} FillingStep(d: Datagram, b: Buf, frame: seq<Byte>, fr: Frag)
    requires Cuttable(d) && Filling(d, b) && fr in PiecesOf(d) && Carries(frame, d.hdr, d.opts, d.data, fr)
    ensures Acceptable(frame) && Sized(b) && Filling(d, ReceiveFrame(b, frame))
    ensures Short(d) && Complete(ReceiveFrame(b, frame)) ==> Holds(ReceiveFrame(b, frame), d.data)
  {
    CuttablePieces(d);
    var fs, f := PiecesOf(d), MaxFrag(Hlen(d.hdr));
    var b0, run :| Fresh(b0) && From(run, fs) && Within(run, d.data) && b == After(b0, d.data, run);
    var run' := Then(run, fr);
    var k :| 0 <= k < |fs| && fs[k] == fr;
    FrameArrives(b, d.hdr, d.opts, d.data, fr);
    assert From(run', fs) && Within(run', d.data);
    assert After(b0, d.data, run') == ReceiveFrame(b, frame);
    if Short(d) {
      Completion(b0, d.data, fs, f, run');
    }
  }

  lemma {:induction false} GenuineKey(orig: Key -> Datagram, bytes: seq<Byte>, k: Key, fr: Frag)
    requires Pure(orig) && fr in PiecesOf(orig(k)) && Carries(bytes, orig(k).hdr, orig(k).opts, orig(k).data, fr)
    ensures |bytes| >= 20 && KeyOf(Parse(bytes)) == k
  {
    var d := orig(k);
    assert KeyOf(d.hdr) == k && Cuttable(d);
    RoundTrip(FragHdr(d.hdr, fr), d.opts, Slice(d.data, fr));
  }

  lemma {:induction false} InputInv(orig: Key -> Datagram, t: Table, ev: Event)
    requires Pure(orig) && Inv(orig, t) && ev.Frame? && Ok(ev) && Genuine(orig, ev)
    ensures Inv(orig, Input(t, ev.bytes, ev.left).0)
    ensures forall o :: o in Input(t, ev.bytes, ev.left).1 ==> AsSent(orig, o)
  {
    var k, fr :| fr in PiecesOf(orig(k)) && Carries(ev.bytes, orig(k).hdr, orig(k).opts, orig(k).data, fr);
    GenuineKey(orig, ev.bytes, k, fr);
    assert Cuttable(orig(k));
    var g := GetBuffer(t, k);
    if g.Some? {
      var (i, s) := g.value;
      GotBuffer(orig, t, k);
      FillingStep(orig(k), s.buf, ev.bytes, fr);
      StoredInv(orig, t, i, s, ReceiveFrame(s.buf, ev.bytes), ev.left);
    }
  }

  lemma {:induction false} StoredInv(orig: Key -> Datagram, t: Table, i: nat, s: Slot, b: Buf, left: Buf)
    requires Inv(orig, t) && i < |t| && Sized(b) && Sized(left) && Filling(orig(s.key), b)
    requires forall j :: 0 <= j < |t| && j != i && t[j].reserved ==> t[j].key != s.key
    requires Short(orig(s.key)) && Complete(b) ==> Holds(b, orig(s.key).data)
    ensures Inv(orig, Stored(t, i, s, b, left).0)
    ensures forall o :: o in Stored(t, i, s, b, left).1 ==> AsSent(orig, o)
  {
    PutInv(orig, t, i, if Complete(b) then s.(reserved := false, buf := left) else s.(buf := b));
  }

  /** The buffer found or taken for `k` is the only one under that key, and holds only arrivals of its datagram. */
  lemma {:induction false} GotBuffer(orig: Key -> Datagram, t: Table, k: Key)
    requires Inv(orig, t) && GetBuffer(t, k).Some?
    ensures var (i, s) := GetBuffer(t, k).value;
            && Filling(orig(k), s.buf)
            && forall j :: 0 <= j < |t| && j != i && t[j].reserved ==> t[j].key != k
  {
    var (i, s) := GetBuffer(t, k).value;
    if Lookup(t, k, 0).None? {
      FreshFilling(orig(k), s.buf);
    }
  }

  lemma {:induction false} PutInv(orig: Key -> Datagram, t: Table, i: nat, s: Slot)
    requires Inv(orig, t) && i < |t| && Sized(s.buf)
    requires s.reserved ==> Filling(orig(s.key), s.buf)
    requires s.reserved ==> forall j :: 0 <= j < |t| && j != i && t[j].reserved ==> t[j].key != s.key
    ensures Inv(orig, t[i := s])
  {
  }

  lemma {:induction false} StepInv(orig: Key -> Datagram, t: Table, ev: Event)
    requires Pure(orig) && Inv(orig, t) && Ok(ev) && Genuine(orig, ev)
    ensures Inv(orig, Step(t, ev).0)
    ensures forall o :: o in Step(t, ev).1 ==> AsSent(orig, o)
  {
    if ev.Frame? {
      InputInv(orig, t, ev);
    }
  }

  /**
   Over every run (any interleaving of datagrams under distinct keys, any loss, repetition, reordering, time-outs and
   reuse of buffers), what is handed up under the key of a short datagram is that datagram.
   */
  lemma {:induction false} HandedUpAsSent(orig: Key -> Datagram, t: Table, evs: seq<Event>, o: Output)
    requires Pure(orig) && Inv(orig, t) && AllOk(evs) && (forall i :: 0 <= i < |evs| ==> Genuine(orig, evs[i]))
    requires o in Outputs(t, evs) && Short(orig(o.key))
    ensures o.payload == orig(o.key).data
    decreases |evs|
  {
    StepInv(orig, t, evs[0]);
    if o !in Step(t, evs[0]).1 {
      HandedUpAsSent(orig, Step(t, evs[0]).0, evs[1..], o);
    }
  }

  /** A datagram that is handed up leaves its buffer: no buffer is held under its key any more. */
  lemma {:induction false} HandedUpFrees(t: Table, ev: Event, o: Output, j: nat)
    requires Shape(t) && Distinct(t) && Ok(ev) && o in Step(t, ev).1 && j < |t|
    ensures !(Step(t, ev).0[j].reserved && Step(t, ev).0[j].key == o.key)
  {
    var k := KeyOf(Parse(ev.bytes));
    var (i, s) := GetBuffer(t, k).value;
    assert o.key == k && Step(t, ev).0 == t[i := s.(reserved := false, buf := ev.left)];
  }

  /** The table as the program starts with it. */
  lemma {:induction false} StartInv(orig: Key -> Datagram, t: Table)
    requires Shape(t) && forall i :: 0 <= i < |t| ==> !t[i].reserved
    ensures Inv(orig, t)
  {
  }

  /** A fragment is turned away only when all four buffers are held by other datagrams. */
  lemma {:induction false} TurnedAway(t: Table, k: Key)
    requires Shape(t)
    ensures |t| == 4 && (GetBuffer(t, k).None? <==> forall i :: 0 <= i < |t| ==> t[i].reserved && t[i].key != k)
  {
  }
}
