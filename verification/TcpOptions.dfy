/**
 The walk over TCP options that turns their numbers between host and network order, in place.
 On a little-endian host htons and ntohs reverse two bytes, htonl and ntohl four.
 */
module TcpOptions {
  import opened Bytes

  predicate Known(kind: Byte)
  {
    kind == 2 || kind == 3 || kind == 4 || kind == 5 || kind == 8
  }

  function Min(x: nat, y: nat): nat
  {
    if x < y then x else y
  }

  /** The bytes that an option of this kind has behind its kind and length. */
  function Need(kind: Byte): nat
  {
    if kind == 2 then 4 else if kind == 8 then 10 else 1
  }

  predicate Ended(o: seq<Byte>)
  {
    |o| == 0 || o[0] == 0
  }

  /** The kind at the front is known and its length covers the numbers the walk turns. */
  predicate Sound(o: seq<Byte>)
    requires !Ended(o)
  {
    o[0] == 1 ||
    (|o| >= 2 && Known(o[0]) && o[1] >= Need(o[0]) && (Need(o[0]) > 1 ==> |o| >= Need(o[0])))
  }

  /** How far the walk moves on from the front. */
  function Jump(o: seq<Byte>): (n: nat)
    requires !Ended(o) && Sound(o)
    ensures 1 <= n <= |o| && n >= Need(o[0])
  {
    if o[0] == 1 then 1 else Min(o[1], |o|)
  }

  /** Every option up to the first end-of-options byte is sound. */
  predicate WellFormed(o: seq<Byte>)
    decreases |o|
  {
    Ended(o) || (Sound(o) && WellFormed(o[Jump(o)..]))
  }

  function Swap2(o: seq<Byte>, i: nat): (r: seq<Byte>)
    requires i + 2 <= |o|
    ensures |r| == |o|
  {
    o[i := o[i + 1]][i + 1 := o[i]]
  }

  function Swap4(o: seq<Byte>, i: nat): (r: seq<Byte>)
    requires i + 4 <= |o|
    ensures |r| == |o|
  {
    o[i := o[i + 3]][i + 1 := o[i + 2]][i + 2 := o[i + 1]][i + 3 := o[i]]
  }

  /** The numbers of one option turned. */
  function Turn(o: seq<Byte>): (r: seq<Byte>)
    requires |o| > 0 && |o| >= Need(o[0])
    ensures |r| == |o| && r[0] == o[0] && (|o| > 1 && Need(o[0]) > 1 ==> r[1] == o[1])
  {
    if o[0] == 2 then Swap2(o, 2) else if o[0] == 8 then Swap4(Swap4(o, 2), 6) else o
  }

  lemma {:induction false} TurnTwice(o: seq<Byte>)
    requires |o| > 0 && |o| >= Need(o[0])
    ensures Turn(Turn(o)) == o
  {
  }

  /** The option area after the walk. */
  function Turned(o: seq<Byte>): (r: seq<Byte>)
    requires WellFormed(o)
    ensures |r| == |o|
    decreases |o|
  {
    if Ended(o) then o else Turn(o[..Jump(o)]) + Turned(o[Jump(o)..])
  }

  /** Where the walk stops to look at a kind, counted from `at`. */
  function Stops(o: seq<Byte>, at: nat): seq<nat>
    requires WellFormed(o)
    decreases |o|
  {
    if |o| == 0 then [] else if o[0] == 0 then [at] else [at] + Stops(o[Jump(o)..], at + Jump(o))
  }

  /** The walk never changes the kind or the length it is looking at. */
  lemma {:induction false} TurnedHead(o: seq<Byte>)
    requires WellFormed(o) && |o| > 0
    ensures Turned(o)[0] == o[0]
    ensures Known(o[0]) ==> |o| >= 2 && Turned(o)[1] == o[1]
    decreases |o|
  {
    if Known(o[0]) && o[1] == 1 {
      TurnedHead(o[1..]);
    }
  }

  lemma {:induction false} SameJump(o: seq<Byte>)
    requires WellFormed(o) && !Ended(o)
    ensures !Ended(Turned(o)) && Sound(Turned(o)) && Jump(Turned(o)) == Jump(o)
  {
    TurnedHead(o);
  }

  lemma {:induction false} Unfold(o: seq<Byte>, h: seq<Byte>, r: seq<Byte>, at: nat)
    requires o == h + r && !Ended(o) && Sound(o) && |h| == Jump(o) && WellFormed(r)
    ensures WellFormed(o) && Turned(o) == Turn(h) + Turned(r) && Stops(o, at) == [at] + Stops(r, at + |h|)
  {
    assert o[..|h|] == h && o[|h|..] == r;
  }

  /** The walk over a turned area stops at the same places and turns it back. */
  predicate TurnsBack(o: seq<Byte>, at: nat)
  {
    && WellFormed(o) && WellFormed(Turned(o))
    && Turned(Turned(o)) == o && Stops(Turned(o), at) == Stops(o, at)
  }

  /** One option `h` in front of an area `r`. */
  predicate Heads(h: seq<Byte>, r: seq<Byte>)
  {
    !Ended(h + r) && Sound(h + r) && |h| == Jump(h + r) && WellFormed(r)
  }

  lemma {:induction false} UnfoldHeads(h: seq<Byte>, r: seq<Byte>, at: nat)
    requires Heads(h, r)
    ensures WellFormed(h + r) && Turned(h + r) == Turn(h) + Turned(r) && Stops(h + r, at) == [at] + Stops(r, at + |h|)
  {
    Unfold(h + r, h, r, at);
  }

  lemma {:induction false} HeadsTurned(h: seq<Byte>, r: seq<Byte>) returns (t: seq<Byte>)
    requires Heads(h, r) == true && WellFormed(Turned(r))
    ensures t == Turn(h) && h == Turn(t) && |t| == |h| && Heads(t, Turned(r)) == true
  {
    UnfoldHeads(h, r, 0);
    SameJump(h + r);
    TurnTwice(h);
    t := Turn(h);
  }

  /** The turned option `t` of `h`, and what the walks make of the areas that they head. */
  lemma {:induction false} BothWays(h: seq<Byte>, r: seq<Byte>, at: nat) returns (t: seq<Byte>)
    requires Heads(h, r) == true && TurnsBack(r, at + |h|) == true && WellFormed(r) && WellFormed(Turned(r))
    ensures |t| == |h| && WellFormed(h + r) && Turned(h + r) == t + Turned(r)
    ensures WellFormed(t + Turned(r)) && Turned(t + Turned(r)) == h + Turned(Turned(r))
    ensures Stops(h + r, at) == [at] + Stops(r, at + |h|)
    ensures Stops(t + Turned(r), at) == [at] + Stops(Turned(r), at + |h|)
  {
    t := HeadsTurned(h, r);
    UnfoldHeads(h, r, at);
    UnfoldHeads(t, Turned(r), at);
  }

  lemma {:induction false} TurnsBackStep(h: seq<Byte>, r: seq<Byte>, at: nat)
    requires Heads(h, r) == true && TurnsBack(r, at + |h|)
    ensures TurnsBack(h + r, at) == true
  {
    var t := BothWays(h, r, at);
  }

  lemma {:induction false} Split(o: seq<Byte>) returns (h: seq<Byte>, r: seq<Byte>)
    requires WellFormed(o) && !Ended(o)
    ensures o == h + r && |h| > 0 && WellFormed(r) && Heads(h, r) == true
  {
    h, r := o[..Jump(o)], o[Jump(o)..];
    assert o == h + r;
  }

  /** Host to network and network to host undo each other. */
  lemma {:induction false} TurnedTwice(o: seq<Byte>, at: nat)
    requires WellFormed(o)
    ensures TurnsBack(o, at) == true
    decreases |o|
  {
    if Ended(o) {
    } else {
      var h, r := Split(o);
      TurnedTwice(r, at + |h|);
      TurnsBackStep(h, r, at);
    }
  }

  lemma {:induction false} StopsFrom(o: seq<Byte>, at: nat, p: nat)
    requires WellFormed(o) && p in Stops(o, at)
    ensures at <= p < at + |o|
    ensures p != at ==> !Ended(o) && p in Stops(o[Jump(o)..], at + Jump(o)) && p >= at + Jump(o)
    decreases |o|
  {
    if !Ended(o) && p != at {
      StopsFrom(o[Jump(o)..], at + Jump(o), p);
    }
  }

  /** Neither the kind at `k` nor, for a known kind, the length behind it differs in `t`. */
  predicate SameOption(o: seq<Byte>, t: seq<Byte>, k: int)
  {
    && 0 <= k < |o| == |t| && t[k] == o[k]
    && (Known(o[k]) ==> k + 1 < |o| && t[k + 1] == o[k + 1])
  }

  lemma {:induction false} SameBehind(h: seq<Byte>, t: seq<Byte>, o: seq<Byte>, u: seq<Byte>, k: int)
    requires |h| == |t| && SameOption(o, u, k)
    ensures SameOption(h + o, t + u, |h| + k) == true
  {
    assert (h + o)[|h| + k] == o[k] && (t + u)[|h| + k] == u[k];
    if k + 1 < |o| {
      assert (h + o)[|h| + k + 1] == o[k + 1] && (t + u)[|h| + k + 1] == u[k + 1];
    }
  }

  /** No kind or length byte that the walk looks at is touched. */
  lemma {:induction false} KindsUntouched(o: seq<Byte>, at: nat, p: nat)
    requires WellFormed(o) && p in Stops(o, at)
    ensures SameOption(o, Turned(o), p - at) == true
    decreases |o|
  {
    StopsFrom(o, at, p);
    if p == at {
      TurnedHead(o);
    } else {
      var h, r := o[..Jump(o)], o[Jump(o)..];
      assert o == h + r;
      KindsUntouched(r, at + |h|, p);
      UnfoldHeads(h, r, at);
      SameBehind(h, Turn(h), r, Turned(r), p - at - |h|);
    }
  }

  // ---------- what the walk turns ----------

  /** The numbers of the option at `k`: those of host order in `o` are those of network order in `t`. */
  predicate NumbersTurned(o: seq<Byte>, t: seq<Byte>, k: int)
  {
    && 0 <= k < |o| == |t|
    && (o[k] == 2 ==> k + 4 <= |o| && FromBe16(t, k + 2) == FromLe16(o, k + 2))
    && (o[k] == 8 ==> k + 10 <= |o| && FromBe32(t, k + 2) == FromLe32(o, k + 2))
    && (o[k] == 8 ==> FromBe32(t, k + 6) == FromLe32(o, k + 6))
  }

  lemma {:induction false} HeadTurned(h: seq<Byte>, r: seq<Byte>, u: seq<Byte>)
    requires |h| > 0 && |h| >= Need(h[0]) && |r| == |u|
    ensures NumbersTurned(h + r, Turn(h) + u, 0) == true
  {
    var o, t := h + r, Turn(h) + u;
    if h[0] == 2 {
      assert t[2] == h[3] && t[3] == h[2];
    } else if h[0] == 8 {
      assert t[2] == h[5] && t[3] == h[4] && t[4] == h[3] && t[5] == h[2];
      assert t[6] == h[9] && t[7] == h[8] && t[8] == h[7] && t[9] == h[6];
    }
  }

  lemma {:induction false} SameBehind16(x: seq<Byte>, b: seq<Byte>, i: nat)
    requires i + 2 <= |b|
    ensures FromBe16(x + b, |x| + i) == FromBe16(b, i) && FromLe16(x + b, |x| + i) == FromLe16(b, i)
  {
    var y, n := x + b, |x| + i;
    assert y[n] == b[i] && y[n + 1] == b[i + 1];
  }

  lemma {:induction false} SameBehind32(x: seq<Byte>, b: seq<Byte>, i: nat)
    requires i + 4 <= |b|
    ensures FromBe32(x + b, |x| + i) == FromBe32(b, i) && FromLe32(x + b, |x| + i) == FromLe32(b, i)
  {
    SameBehind16(x, b, i);
    SameBehind16(x, b, i + 2);
  }

  lemma {:induction false} NumbersBehind(h: seq<Byte>, t: seq<Byte>, o: seq<Byte>, u: seq<Byte>, k: int)
    requires |h| == |t| && NumbersTurned(o, u, k)
    ensures NumbersTurned(h + o, t + u, |h| + k) == true
  {
    assert (h + o)[|h| + k] == o[k];
    if o[k] == 2 {
      SameBehind16(h, o, k + 2);
      SameBehind16(t, u, k + 2);
    } else if o[k] == 8 {
      SameBehind32(h, o, k + 2);
      SameBehind32(t, u, k + 2);
      SameBehind32(h, o, k + 6);
      SameBehind32(t, u, k + 6);
    }
  }

  /** An area taken apart into its options, up to its end or an end-of-options byte. */
  datatype Area = Tail(o: seq<Byte>) | Opt(h: seq<Byte>, rest: Area)

  predicate Whole(a: Area)
  {
    match a
    case Tail(o) => Ended(o)
    case Opt(h, rest) => |h| > 0 && |h| >= Need(h[0]) && Whole(rest)
  }

  function Flat(a: Area): seq<Byte>
  {
    match a
    case Tail(o) => o
    case Opt(h, rest) => h + Flat(rest)
  }

  function FlatTurned(a: Area): (r: seq<Byte>)
    requires Whole(a)
    ensures |r| == |Flat(a)|
  {
    match a
    case Tail(o) => o
    case Opt(h, rest) => Turn(h) + FlatTurned(rest)
  }

  /** The walk comes to an option at `k`. */
  predicate Comes(a: Area, k: int)
  {
    match a
    case Tail(o) => o != [] && k == 0
    case Opt(h, rest) => k == 0 || (k >= |h| && Comes(rest, k - |h|))
  }

  function AreaStops(a: Area, at: nat): seq<nat>
  {
    match a
    case Tail(o) => if o == [] then [] else [at]
    case Opt(h, rest) => [at] + AreaStops(rest, at + |h|)
  }

  lemma {:induction false} StopComes(a: Area, at: nat, p: nat)
    ensures p in AreaStops(a, at) <==> p >= at && Comes(a, p - at)
  {
    match a
    case Tail(o) =>
    case Opt(h, rest) =>
      StopComes(rest, at + |h|, p);
  }

  /** `a` is `o` taken apart: turned, its parts are what the walk makes of `o`, and the walk stops where they begin. */
  predicate PartsOf(a: Area, o: seq<Byte>, t: seq<Byte>, at: nat, stops: seq<nat>)
  {
    Whole(a) && Flat(a) == o && FlatTurned(a) == t && AreaStops(a, at) == stops
  }

  lemma {:induction false} OneMore(h: seq<Byte>, x: seq<Byte>, rest: Area, r: seq<Byte>, u: seq<Byte>, at: nat,
      stops: seq<nat>)
    requires PartsOf(rest, r, u, at + |h|, stops) && |h| > 0 && |h| >= Need(h[0]) && x == Turn(h)
    ensures PartsOf(Opt(h, rest), h + r, x + u, at, [at] + stops) == true
  {
  }

  lemma {:induction false} Parts(o: seq<Byte>, at: nat) returns (a: Area)
    requires WellFormed(o)
    ensures PartsOf(a, o, Turned(o), at, Stops(o, at)) == true
    decreases |o|
  {
    if Ended(o) {
      a := Tail(o);
    } else {
      var h, r := Split(o);
      UnfoldHeads(h, r, at);
      var rest := Parts(r, at + |h|);
      OneMore(h, Turn(h), rest, r, Turned(r), at, Stops(r, at + |h|));
      a := Opt(h, rest);
    }
  }

  lemma {:induction false} NumbersAt(a: Area, k: int)
    requires Whole(a) && Comes(a, k)
    ensures NumbersTurned(Flat(a), FlatTurned(a), k) == true
  {
    match a
    case Tail(o) =>
    case Opt(h, rest) =>
      if k == 0 {
        HeadTurned(h, Flat(rest), FlatTurned(rest));
      } else {
        NumbersAt(rest, k - |h|);
        NumbersBehind(h, Turn(h), Flat(rest), FlatTurned(rest), k - |h|);
      }
  }

  lemma {:induction false} NumbersOf(a: Area, o: seq<Byte>, t: seq<Byte>, at: nat, stops: seq<nat>, p: nat)
    requires PartsOf(a, o, t, at, stops) && p in stops
    ensures NumbersTurned(o, t, p - at) == true
  {
    StopComes(a, at, p);
    NumbersAt(a, p - at);
  }

  /** At every option the walk comes to, the segment size or the two time stamps go from host to network order. */
  lemma {:induction false} TurnsNumbers(o: seq<Byte>, at: nat, p: nat)
    requires WellFormed(o) && p in Stops(o, at)
    ensures NumbersTurned(o, Turned(o), p - at) == true
  {
    var a := Parts(o, at);
    NumbersOf(a, o, Turned(o), at, Stops(o, at), p);
  }

  /** Position `q` lies in a number of the option at `k`. */
  predicate InNumber(o: seq<Byte>, k: int, q: int)
  {
    0 <= k < |o| && ((o[k] == 2 && k + 2 <= q < k + 4) || (o[k] == 8 && k + 2 <= q < k + 10))
  }

  lemma {:induction false} HeadDiffers(h: seq<Byte>, r: seq<Byte>, q: nat)
    requires |h| > 0 && |h| >= Need(h[0]) && q < |h| && Turn(h)[q] != h[q]
    ensures InNumber(h + r, 0, q) == true
  {
  }

  lemma {:induction false} InNumberBehind(h: seq<Byte>, r: seq<Byte>, k: int, q: int)
    requires InNumber(r, k, q)
    ensures InNumber(h + r, |h| + k, |h| + q) == true
  {
    assert (h + r)[|h| + k] == r[k];
  }

  lemma {:induction false} DiffersAt(a: Area, q: nat) returns (k: nat)
    requires Whole(a) && q < |Flat(a)| && FlatTurned(a)[q] != Flat(a)[q]
    ensures Comes(a, k) && InNumber(Flat(a), k, q) == true
  {
    var h, rest := a.h, a.rest;
    if q < |h| {
      HeadDiffers(h, Flat(rest), q);
      k := 0;
    } else {
      k := DiffersAt(rest, q - |h|);
      InNumberBehind(h, Flat(rest), k, q - |h|);
      k := |h| + k;
    }
  }

  lemma {:induction false} DifferenceOf(a: Area, o: seq<Byte>, t: seq<Byte>, at: nat, stops: seq<nat>, q: nat)
    returns (p: nat)
    requires PartsOf(a, o, t, at, stops) && q < |o| == |t| && t[q] != o[q]
    ensures p in stops && InNumber(o, p - at, q) == true
  {
    var k := DiffersAt(a, q);
    p := at + k;
    StopComes(a, at, p);
  }

  /** A byte that differs after the walk is in a number of an option that the walk comes to. */
  lemma {:induction false} TurnsNothingElse(o: seq<Byte>, at: nat, q: nat) returns (p: nat)
    requires WellFormed(o) && q < |o| && Turned(o)[q] != o[q]
    ensures p in Stops(o, at) && InNumber(o, p - at, q) == true
  {
    var a := Parts(o, at);
    p := DifferenceOf(a, o, Turned(o), at, Stops(o, at), q);
  }

  /** The option that tcp_send_syn writes: a segment size of 1460. */
  lemma {:induction false} SegmentSizeTurned()
    ensures WellFormed([2, 4, 0xB4, 0x05]) && Turned([2, 4, 0xB4, 0x05]) == [2, 4, 0x05, 0xB4]
  {
    var o := [2, 4, 0xB4, 0x05];
    assert o[..4] == o && o[4..] == [];
  }

  // ---------- the walk over memory ----------

  /** The bytes that a round touches at an option of this kind. */
  function Span(kind: Byte): nat
  {
    if kind == 2 then 4 else if kind == 8 then 10 else if Known(kind) then 2 else 1
  }

  /** The area goes up to `end`. The loop leaves at its end and at an end-of-options byte. */
  predicate Stopped(m: seq<Byte>, end: nat, i: nat)
    requires end <= |m|
  {
    i >= end || m[i] == 0
  }

  /** A round at `i` stays in memory, of which there may be more behind the area. */
  predicate Inside(m: seq<Byte>, i: nat)
    requires i < |m|
  {
    i + Span(m[i]) <= |m|
  }

  /** The memory after a round at `i`. */
  function TurnedAt(m: seq<Byte>, i: nat): (r: seq<Byte>)
    requires i < |m| && Inside(m, i)
    ensures |r| == |m| && r[i] == m[i] && (i + 1 < |m| ==> r[i + 1] == m[i + 1])
  {
    if m[i] == 2 then Swap2(m, i + 2) else if m[i] == 8 then Swap4(Swap4(m, i + 2), i + 6) else m
  }

  /** How far a round at `i` moves on. */
  function Pace(m: seq<Byte>, i: nat): nat
    requires i < |m| && Inside(m, i)
  {
    if m[i] == 1 then 1 else if Known(m[i]) then m[i + 1] else 0
  }

  /** Memory and position after `n` rounds, or after fewer if the loop leaves or a round would go out of memory. */
  function Run(m: seq<Byte>, end: nat, i: nat, n: nat): (r: (seq<Byte>, nat))
    requires end <= |m|
    ensures |r.0| == |m|
    decreases n
  {
    if n == 0 || Stopped(m, end, i) || !Inside(m, i) then (m, i)
    else Run(TurnedAt(m, i), end, i + Pace(m, i), n - 1)
  }

  ghost predicate Ends(m: seq<Byte>, end: nat, i: nat)
    requires end <= |m|
  {
    exists n: nat :: Stopped(Run(m, end, i, n).0, end, Run(m, end, i, n).1)
  }

  /** At `i` is an option that does not let the walk on: its kind is unknown or its length is zero. */
  predicate Stuck(m: seq<Byte>, i: nat)
    requires i < |m|
  {
    m[i] != 0 && m[i] != 1 && (!Known(m[i]) || (i + 1 < |m| && m[i + 1] == 0))
  }

  /** After `n` rounds the walk is at such an option, or at one that goes out of memory. */
  predicate Held(m: seq<Byte>, end: nat, i: nat, n: nat)
    requires end <= |m|
  {
    var (m', j) := Run(m, end, i, n);
    !Stopped(m', end, j) && (Stuck(m', j) || !Inside(m', j))
  }

  ghost predicate StuckAfter(m: seq<Byte>, end: nat, i: nat, n: nat)
    requires end <= |m|
  {
    var (m', j) := Run(m, end, i, n);
    !Stopped(m', end, j) && Stuck(m', j)
  }

  /** Every option that the walk gets to is in memory and lets it on. */
  predicate Passable(m: seq<Byte>, end: nat, i: nat)
    requires end <= |m|
    decreases end - i
  {
    Stopped(m, end, i) ||
    (Inside(m, i) && !Stuck(m, i) && Passable(TurnedAt(m, i), end, i + Pace(m, i)))
  }

  lemma {:induction false} PassableEnds(m: seq<Byte>, end: nat, i: nat) returns (n: nat)
    requires end <= |m| && Passable(m, end, i)
    ensures Stopped(Run(m, end, i, n).0, end, Run(m, end, i, n).1) && n <= if i < end then end - i else 0
    decreases end - i
  {
    if Stopped(m, end, i) {
      n := 0;
    } else {
      n := PassableEnds(TurnedAt(m, i), end, i + Pace(m, i));
      n := n + 1;
    }
  }

  lemma {:induction false} NeverStops(m: seq<Byte>, end: nat, i: nat, n: nat)
    requires end <= |m| && !Passable(m, end, i)
    ensures !Stopped(Run(m, end, i, n).0, end, Run(m, end, i, n).1)
    decreases n
  {
    if n == 0 || !Inside(m, i) {
    } else {
      if Stuck(m, i) {
        assert Stuck(TurnedAt(m, i), i) && Pace(m, i) == 0;
      }
      NeverStops(TurnedAt(m, i), end, i + Pace(m, i), n - 1);
    }
  }

  lemma {:induction false} HeldSoon(m: seq<Byte>, end: nat, i: nat) returns (n: nat)
    requires end <= |m| && !Passable(m, end, i)
    ensures Held(m, end, i, n) && n <= end - i
    decreases end - i
  {
    if !Inside(m, i) || Stuck(m, i) {
      n := 0;
    } else {
      n := HeldSoon(TurnedAt(m, i), end, i + Pace(m, i));
      n := n + 1;
    }
  }

  lemma {:induction false} RunStep(m: seq<Byte>, end: nat, i: nat, n: nat)
    requires end <= |m| && n > 0 && !Stopped(m, end, i) && Inside(m, i)
    ensures Run(m, end, i, n) == Run(TurnedAt(m, i), end, i + Pace(m, i), n - 1)
  {
  }

  lemma {:induction false} RunOn(m: seq<Byte>, end: nat, i: nat, n: nat, k: nat)
    requires end <= |m|
    ensures var (m', j) := Run(m, end, i, n); Run(m, end, i, n + k) == Run(m', end, j, k)
    decreases n
  {
    if n == 0 || Stopped(m, end, i) || !Inside(m, i) {
    } else {
      var t, j := TurnedAt(m, i), i + Pace(m, i);
      RunOn(t, end, j, n - 1, k);
      RunStep(m, end, i, n + k);
      RunStep(m, end, i, n);
      assert n + k - 1 == n - 1 + k;
    }
  }

  lemma {:induction false} HeldHere(m: seq<Byte>, end: nat, i: nat, k: nat)
    requires end <= |m| && !Stopped(m, end, i) && (Stuck(m, i) || !Inside(m, i))
    ensures var (m', j) := Run(m, end, i, k);
            j == i && !Stopped(m', end, j) && (Stuck(m', j) || !Inside(m', j))
    decreases k
  {
    if k == 0 || !Inside(m, i) {
    } else {
      assert Pace(m, i) == 0;
      HeldHere(TurnedAt(m, i), end, i, k - 1);
    }
  }

  /** Once held, the walk stays where it is. */
  lemma {:induction false} HeldForever(m: seq<Byte>, end: nat, i: nat, n: nat, k: nat)
    requires end <= |m| && Held(m, end, i, n)
    ensures Held(m, end, i, n + k) && Run(m, end, i, n + k).1 == Run(m, end, i, n).1
  {
    var (m', j) := Run(m, end, i, n);
    RunOn(m, end, i, n, k);
    HeldHere(m', end, j, k);
  }

  /**
   For every area, whatever is behind it in memory: the walk ends if and only if it never comes to an
   option of unknown kind or zero length, or to one that goes out of memory. As many rounds as the area has
   bytes decide it. With nine bytes behind the area nothing goes out of memory.
   */
  lemma {:induction false} EndsExactly(m: seq<Byte>, end: nat, i: nat)
    requires end <= |m|
    ensures Ends(m, end, i) <==> Passable(m, end, i)
    ensures Ends(m, end, i) <==> forall n: nat :: !Held(m, end, i, n)
    ensures !Ends(m, end, i) ==> i < end && forall n: nat :: n >= end - i ==> Held(m, end, i, n)
    ensures end + 9 <= |m| ==> (Ends(m, end, i) <==> forall n: nat :: !StuckAfter(m, end, i, n))
  {
    if Passable(m, end, i) {
      var n := PassableEnds(m, end, i);
      forall k: nat
        ensures !Held(m, end, i, k) && !StuckAfter(m, end, i, k)
      {
        EndedIsFree(m, end, i, k);
      }
    } else {
      forall n: nat
        ensures !Stopped(Run(m, end, i, n).0, end, Run(m, end, i, n).1)
      {
        NeverStops(m, end, i, n);
      }
      var h := HeldSoon(m, end, i);
      forall n: nat | n >= end - i
        ensures Held(m, end, i, n)
      {
        HeldForever(m, end, i, h, n - h);
      }
      assert end + 9 <= |m| ==> StuckAfter(m, end, i, h);
    }
  }

  lemma {:induction false} EndedIsFree(m: seq<Byte>, end: nat, i: nat, n: nat)
    requires end <= |m| && Passable(m, end, i)
    ensures !Held(m, end, i, n)
    decreases n
  {
    if n == 0 || Stopped(m, end, i) {
    } else {
      EndedIsFree(TurnedAt(m, i), end, i + Pace(m, i), n - 1);
    }
  }

  /** An area of four bytes with an option of kind 254, as RFC 4727 gives it for experiments: the walk hangs. */
  lemma {:induction false} ExperimentHangs(behind: seq<Byte>)
    ensures !Ends([254, 4, 0, 0] + behind, 4, 0)
  {
    var m: seq<Byte> := [254, 4, 0, 0] + behind;
    EndsExactly(m, 4, 0);
    assert Held(m, 4, 0, 0);
  }

  /** The memory after the walk. */
  function Walk(m: seq<Byte>, end: nat, i: nat): (r: seq<Byte>)
    requires end <= |m| && Passable(m, end, i)
    ensures |r| == |m|
    decreases end - i
  {
    if Stopped(m, end, i) then m else Walk(TurnedAt(m, i), end, i + Pace(m, i))
  }

  lemma {:induction false} TurnedThere(p: seq<Byte>, h: seq<Byte>, r: seq<Byte>, x: seq<Byte>)
    requires |h| > 0 && |h| >= Need(h[0]) && (Known(h[0]) ==> |h| + |r| + |x| >= 2)
    ensures var m := p + (h + r) + x;
            Inside(m, |p|) && TurnedAt(m, |p|) == (p + Turn(h)) + r + x
  {
  }

  /** The walk from `i` ends with the memory `t`. */
  predicate Turns(m: seq<Byte>, end: nat, i: nat, t: seq<Byte>)
  {
    end <= |m| && Passable(m, end, i) && Walk(m, end, i) == t
  }

  lemma {:induction false} WalkOn(m: seq<Byte>, m': seq<Byte>, end: nat, i: nat, j: nat, t: seq<Byte>)
    requires end <= |m| && !Stopped(m, end, i) && Inside(m, i) && !Stuck(m, i) && j == Min(i + Pace(m, i), end)
    requires m' == TurnedAt(m, i) && Turns(m', end, j, t)
    ensures Turns(m, end, i, t) == true
  {
    var k := i + Pace(m, i);
    if k > end {
      assert Stopped(m', end, k) && Stopped(m', end, j);
    }
    assert Passable(m', end, k) && Walk(m', end, k) == t;
  }

  lemma {:induction false} FirstOption(p: seq<Byte>, o: seq<Byte>, x: seq<Byte>)
    requires !Ended(o) && Sound(o)
    ensures var m, n, end := p + o + x, Jump(o), |p| + |o|;
            && !Stopped(m, end, |p|) && Inside(m, |p|) && !Stuck(m, |p|) && |p| + n == Min(|p| + Pace(m, |p|), end)
            && TurnedAt(m, |p|) == (p + Turn(o[..n])) + o[n..] + x
  {
    var m, n := p + o + x, Jump(o);
    assert m[|p|] == o[0] && (|o| > 1 ==> m[|p| + 1] == o[1]);
    assert o == o[..n] + o[n..];
    TurnedThere(p, o[..n], o[n..], x);
  }

  lemma {:induction false} Regroup(p: seq<Byte>, h: seq<Byte>, t: seq<Byte>, x: seq<Byte>)
    ensures (p + h) + t + x == p + (h + t) + x
  {
  }

  lemma {:induction false} WalkPast(p: seq<Byte>, o: seq<Byte>, x: seq<Byte>, h: seq<Byte>, r: seq<Byte>, t: seq<Byte>)
    requires !Ended(o) && Sound(o) && h == Turn(o[..Jump(o)]) && r == o[Jump(o)..]
    requires Turns((p + h) + r + x, |p| + |o|, |p| + |h|, (p + h) + t + x) == true
    ensures Turns(p + o + x, |p| + |o|, |p|, p + (h + t) + x) == true
  {
    FirstOption(p, o, x);
    Regroup(p, h, t, x);
    WalkOn(p + o + x, (p + h) + r + x, |p| + |o|, |p|, |p| + |h|, p + (h + t) + x);
  }

  /** A well-formed area is passable wherever it lies in memory, and the walk changes nothing around it. */
  lemma {:induction false} WalkTurns(p: seq<Byte>, o: seq<Byte>, x: seq<Byte>)
    requires WellFormed(o)
    ensures Turns(p + o + x, |p| + |o|, |p|, p + Turned(o) + x) == true
    decreases |o|
  {
    if Ended(o) {
      assert Stopped(p + o + x, |p| + |o|, |p|);
    } else {
      var h, r := Turn(o[..Jump(o)]), o[Jump(o)..];
      WalkTurns(p + h, r, x);
      assert |p + h| == |p| + |h| && |h| + |r| == |o|;
      WalkPast(p, o, x, h, r, Turned(r));
    }
  }

  // ---------- the loop ----------

  /** Turns the numbers of the option at `i`. */
  method TurnAt(a: array<Byte>, i: nat)
    requires i < a.Length && Inside(a[..], i)
    modifies a
    ensures a[..] == TurnedAt(old(a[..]), i)
  {
    if a[i] == 2 {
      a[i + 2], a[i + 3] := a[i + 3], a[i + 2];
    } else if a[i] == 8 {
      a[i + 2], a[i + 3], a[i + 4], a[i + 5] := a[i + 5], a[i + 4], a[i + 3], a[i + 2];
      a[i + 6], a[i + 7], a[i + 8], a[i + 9] := a[i + 9], a[i + 8], a[i + 7], a[i + 6];
    }
  }

  /** One round of the loop. */
  method Round(a: array<Byte>, end: nat, i: nat, ghost t: seq<Byte>) returns (j: nat)
    requires i < end <= a.Length && a[i] != 0 && Turns(a[..], end, i, t)
    modifies a
    ensures j > i && Turns(a[..], end, j, t) == true
  {
    if a[i] == 1 {
      return i + 1;
    }
    var length := a[i + 1];
    TurnAt(a, i);
    j := i + length;
  }

  /** The loop of tcp_hton_opt, which is also that of tcp_ntoh_opt, over the area of `len` bytes at `at`. */
  method TurnOptions(a: array<Byte>, at: nat, len: nat)
    requires at + len <= a.Length && Passable(a[..], at + len, at)
    modifies a
    ensures a[..] == Walk(old(a[..]), at + len, at)
  {
    ghost var t := Walk(a[..], at + len, at);
    var i := at;
    while i < at + len
      invariant at <= i && Turns(a[..], at + len, i, t) == true
      decreases at + len - i
    {
      if a[i] == 0 {
        break;
      }
      i := Round(a, at + len, i, t);
    }
    assert Stopped(a[..], at + len, i);
  }
}
