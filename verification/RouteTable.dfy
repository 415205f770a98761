/**
 The routing table of src/ip_route.c: a fixed array of entries, of which the used ones are in two
 red-black trees, by network and by interface address, and the unused ones on a free list.

 An entry's two sets of tree links are the nodes `rlink` and `slink`. A node's key is fixed, so
 writing a new route into an entry, which the code does while the entry is in neither tree, gives
 it new nodes.
 */
module RouteTable {
  import opened Bytes
  import opened RbShape
  import opened RbOrder
  import opened RbTree
  import opened RouteOrder
  import opened RouteIndex
  import opened RouteMask

  const SIZE: nat := 5

  datatype Route = Route(network: U32, netmask: U32, gw: U32, iface: U32, handle: int)

  const BLANK := Route(0, 0, 0, 0, 0)

  // ---------- the table as a value ----------

  /** The entries with their links, the free list, and the nodes in the two trees. */
  datatype Rib = Rib(
    rib: seq<Route>, rlink: seq<Node>, slink: seq<Node>, free: seq<nat>, nets: set<Node>, srcs: set<Node>)

  predicate Sized(v: Rib)
  {
    |v.rib| == |v.rlink| == |v.slink| == SIZE
  }

  predicate Named(v: Rib)
    requires Sized(v)
  {
    forall e :: 0 <= e < SIZE ==> v.rlink[e].item == e && v.slink[e].item == e
  }

  /** Every node in the network tree is the link of the entry it names, under that entry's network. */
  ghost predicate ByNetwork(v: Rib)
    requires Sized(v)
  {
    forall n :: n in v.nets ==> n.item < SIZE && v.rlink[n.item] == n && n.key == v.rib[n.item].network
  }

  ghost predicate ByIface(v: Rib)
    requires Sized(v)
  {
    forall n :: n in v.srcs ==> n.item < SIZE && v.slink[n.item] == n && n.key == v.rib[n.item].iface
  }

  /** Both trees hold the same entries. */
  ghost predicate Agree(v: Rib)
  {
    Sized(v) && forall e: nat :: e < SIZE ==> (v.rlink[e] in v.nets <==> v.slink[e] in v.srcs)
  }

  /** What is in the interface tree is in the other one, and that tree knows the interface of every route. */
  ghost predicate Covered(v: Rib)
    requires Sized(v)
  {
    forall e: nat :: e < SIZE ==>
      && (v.slink[e] in v.srcs ==> v.rlink[e] in v.nets)
      && (v.rlink[e] in v.nets ==> v.rib[e].iface in KeySet(v.srcs))
  }

  /** No entry is on the free list twice, and it has exactly the entries that are neither in use nor in hand. */
  ghost predicate Partition(v: Rib, hand: set<nat>)
    requires Sized(v)
  {
    && (forall i, j :: 0 <= i < j < |v.free| ==> v.free[i] != v.free[j])
    && (forall i :: 0 <= i < |v.free| ==> v.free[i] < SIZE)
    && (forall e: nat :: e < SIZE ==> (e in v.free <==> v.rlink[e] !in v.nets && e !in hand))
  }

  /** All but the agreement of the trees. `hand` has the entry that is being moved, if any. */
  ghost predicate Core(v: Rib, hand: set<nat>)
  {
    && Sized(v) && Named(v) == true && ByNetwork(v) == true && ByIface(v) == true
    && Covered(v) == true && Partition(v, hand) == true
    && (forall e :: e in hand ==> e < SIZE && v.rlink[e] !in v.nets && v.slink[e] !in v.srcs)
  }

  ghost predicate Ok(v: Rib, hand: set<nat>)
  {
    Core(v, hand) && Agree(v) == true
  }

  /** The routes in the table. */
  ghost function Stored(v: Rib): set<Route>
  {
    set n | n in v.nets && n.item < |v.rib| :: v.rib[n.item]
  }

  /** The routes to other networks. */
  ghost function Others(rs: set<Route>, network: int): set<Route>
  {
    set r | r in rs && r.network != network
  }

  function Unlinked(v: Rib, e: nat): Rib
    requires Sized(v) && e < SIZE
  {
    v.(nets := v.nets - {v.rlink[e]}, srcs := v.srcs - {v.slink[e]})
  }

  function Written(v: Rib, e: nat, r: Route, rn: Node, sn: Node): Rib
    requires Sized(v) && e < SIZE
  {
    v.(rib := v.rib[e := r], rlink := v.rlink[e := rn], slink := v.slink[e := sn])
  }

  /** `e` in the network tree, and in the other one too unless an entry has that interface already. */
  ghost function Linked(v: Rib, e: nat): Rib
    requires Sized(v) && e < SIZE
  {
    v.(nets := v.nets + {v.rlink[e]},
       srcs := if v.rib[e].iface in KeySet(v.srcs) then v.srcs else v.srcs + {v.slink[e]})
  }

  lemma {:induction false} UnlinkOk(v: Rib, e: nat)
    requires Ok(v, {}) && e < SIZE && v.rlink[e] in v.nets
    ensures Ok(Unlinked(v, e), {e})
  {
  }

  lemma {:induction false} WriteOk(v: Rib, e: nat, r: Route, rn: Node, sn: Node)
    requires Ok(v, {e}) && rn !in v.nets && sn !in v.srcs && rn.item == e && sn.item == e
    ensures Ok(Written(v, e, r, rn, sn), {e}) && Stored(Written(v, e, r, rn, sn)) == Stored(v)
  {
  }

  /** Linking keeps everything but the agreement of the trees, and that iff no entry has the interface already. */
  lemma {:induction false} LinkOk(v: Rib, e: nat)
    requires Ok(v, {e}) && e < SIZE && v.rlink[e].key == v.rib[e].network && v.slink[e].key == v.rib[e].iface
    ensures Core(Linked(v, e), {}) && Stored(Linked(v, e)) == Stored(v) + {v.rib[e]}
    ensures Agree(Linked(v, e)) <==> v.rib[e].iface !in KeySet(v.srcs)
  {
  }

  lemma {:induction false} AllocOk(v: Rib)
    requires Ok(v, {}) && v.free != []
    ensures var u := v.(free := v.free[1..]); Ok(u, {v.free[0]}) && Stored(u) == Stored(v)
  {
    assert forall x :: x in v.free <==> x == v.free[0] || x in v.free[1..];
  }

  lemma {:induction false} FreeOk(v: Rib, e: nat)
    requires Ok(v, {e})
    ensures var u := v.(free := [e] + v.free); Ok(u, {}) && Stored(u) == Stored(v)
  {
  }

  /** The routes `rs` leave room for one more network and interface in the order of the trees. */
  ghost predicate Orderable(rs: set<Route>, route: Route)
  {
    && Near((set r | r in rs :: r.network) + {route.network})
    && Near((set r | r in rs :: r.iface) + {route.iface})
  }

  ghost predicate NewNetwork(rs: set<Route>, route: Route)
  {
    forall r :: r in rs ==> r.network != route.network
  }

  ghost predicate NewIface(rs: set<Route>, route: Route)
  {
    forall r :: r in rs ==> r.iface != route.iface
  }

  lemma {:induction false} OthersNew(rs: set<Route>, route: Route)
    ensures NewNetwork(Others(rs, route.network), route) == true
    ensures !Exact(rs, route.network) ==> Others(rs, route.network) == rs
  {
  }

  lemma {:induction false} NetKeys(v: Rib, hand: set<nat>)
    requires Core(v, hand)
    ensures KeySet(v.nets) == set r | r in Stored(v) :: r.network
  {
    forall n | n in v.nets
      ensures v.rib[n.item] in Stored(v) && n.key == v.rib[n.item].network
    {
    }
  }

  lemma {:induction false} SrcKeys(v: Rib, hand: set<nat>)
    requires Core(v, hand)
    ensures KeySet(v.srcs) == set r | r in Stored(v) :: r.iface
  {
    forall n | n in v.srcs
      ensures v.rib[n.item] in Stored(v) && n.key == v.rib[n.item].iface
    {
      assert v.rlink[n.item] in v.nets;
    }
    forall r | r in Stored(v)
      ensures r.iface in KeySet(v.srcs)
    {
      var n :| n in v.nets && n.item < |v.rib| && v.rib[n.item] == r;
      assert v.rlink[n.item] in v.nets;
    }
  }

  /** Networks are different in a tree, so cutting out the entry of one leaves the routes to the others. */
  lemma {:induction false} CutStored(v: Rib, e: nat)
    requires Ok(v, {}) && e < SIZE && v.rlink[e] in v.nets
    requires forall m, n :: m in v.nets && n in v.nets && m.key == n.key ==> m == n
    ensures Stored(Unlinked(v, e)) == Others(Stored(v), v.rib[e].network)
  {
    var u := Unlinked(v, e);
    forall r | r in Others(Stored(v), v.rib[e].network)
      ensures r in Stored(u)
    {
      var n :| n in v.nets && n.item < |v.rib| && v.rib[n.item] == r;
      assert n in u.nets;
    }
    forall r | r in Stored(u)
      ensures r in Others(Stored(v), v.rib[e].network)
    {
      var n :| n in u.nets && n.item < |v.rib| && v.rib[n.item] == r;
      assert n.key != v.rlink[e].key;
    }
  }

  // ---------- choosing a route ----------

  /** The address lies in the route's network. */
  predicate Matches(r: Route, addr: U32)
  {
    r.network == And(addr, r.netmask)
  }

  ghost predicate Exact(rs: set<Route>, addr: U32)
  {
    exists r :: r in rs && r.network == addr
  }

  ghost predicate Masked(rs: set<Route>, addr: U32)
  {
    exists r :: r in rs && Matches(r, addr)
  }

  /** No route is exact, matches by its mask, or is for network 0. */
  ghost predicate Unroutable(rs: set<Route>, addr: U32)
  {
    !Exact(rs, addr) && !Masked(rs, addr) && !Exact(rs, 0)
  }

  /** A match that comes before every other one. */
  ghost predicate FirstOf(rs: set<Route>, addr: U32, r: Route)
  {
    r in rs && Matches(r, addr) && forall s :: s in rs && s != r && Matches(s, addr) ==> Diff(r.network, s.network) < 0
  }

  /** An exact entry, or else the first match in the order of networks, or else the entry for network 0. */
  ghost predicate Chosen(rs: set<Route>, addr: U32, r: Route)
  {
    && r in rs
    && (Exact(rs, addr) ==> r.network == addr)
    && (!Exact(rs, addr) && Masked(rs, addr) ==> FirstOf(rs, addr, r))
    && (!Exact(rs, addr) && !Masked(rs, addr) ==> r.network == 0)
  }

  /** The answer is none exactly when nothing fits, and otherwise the chosen route. */
  ghost predicate Decides(rs: set<Route>, addr: U32, r: Option<Route>)
  {
    r.None? == Unroutable(rs, addr) && (r.Some? ==> Chosen(rs, addr, r.value))
  }

  lemma {:induction false} ExactDecides(rs: set<Route>, addr: U32, r: Route)
    requires r in rs && r.network == addr
    ensures Decides(rs, addr, Some(r)) == true
  {
  }

  lemma {:induction false} MaskDecides(rs: set<Route>, addr: U32, r: Route)
    requires !Exact(rs, addr) && FirstOf(rs, addr, r) == true
    ensures Decides(rs, addr, Some(r)) == true
  {
  }

  lemma {:induction false} ZeroDecides(rs: set<Route>, addr: U32, r: Option<Route>)
    requires !Exact(rs, addr) && !Masked(rs, addr) && r.Some? == Exact(rs, 0)
    requires r.Some? ==> r.value in rs && r.value.network == 0
    ensures Decides(rs, addr, r) == true
  {
  }

  lemma {:induction false} InitOk(v: Rib)
    requires Sized(v) && Named(v) && v.nets == {} && v.srcs == {}
    requires |v.free| == SIZE && forall k :: 0 <= k < SIZE ==> v.free[k] == SIZE - 1 - k
    ensures Ok(v, {}) && Stored(v) == {}
  {
    forall e: nat | e < SIZE
      ensures e in v.free
    {
      assert v.free[SIZE - 1 - e] == e;
    }
  }

  /** The array of entries with its free list. */
  class Entries {
    const rib: array<Route>
    const rlink: array<Node>
    const slink: array<Node>
    var free: seq<nat>

    ghost function With(nets: set<Node>, srcs: set<Node>): Rib
      reads this, rib, rlink, slink
    {
      Rib(rib[..], rlink[..], slink[..], free, nets, srcs)
    }

    /** The loop of ip_route_init puts every entry on the free list. */
    constructor ()
      ensures fresh(rib) && fresh(rlink) && fresh(slink) && rlink != slink && |free| == SIZE
      ensures Ok(With({}, {}), {}) && Stored(With({}, {})) == {}
    {
      var blank := new Node(0, 0);
      rib := new Route[SIZE](_ => BLANK);
      rlink := new Node[SIZE](_ => blank);
      slink := new Node[SIZE](_ => blank);
      free := [];
      new;
      var i := 0;
      while i < SIZE
        invariant i <= SIZE && |free| == i
        invariant forall k :: 0 <= k < i ==> free[k] == i - 1 - k && rlink[k].item == k && slink[k].item == k
      {
        rlink[i] := new Node(0, i);
        slink[i] := new Node(0, i);
        free := [i] + free;
        i := i + 1;
      }
      InitOk(With({}, {}));
    }

    /** A new route in the entry `e`, which is in neither tree. */
    method Write(e: nat, route: Route)
      requires rib.Length == SIZE && rlink.Length == SIZE && slink.Length == SIZE && rlink != slink && e < SIZE
      modifies rib, rlink, slink
      ensures rib[..] == old(rib[..])[e := route]
      ensures rlink[..] == old(rlink[..])[e := rlink[e]] && slink[..] == old(slink[..])[e := slink[e]]
      ensures fresh(rlink[e]) && fresh(slink[e]) && rlink[e] != slink[e]
      ensures rlink[e].key == route.network && slink[e].key == route.iface && rlink[e].item == e && slink[e].item == e
    {
      rib[e] := route;
      rlink[e] := new Node(route.network, e);
      slink[e] := new Node(route.iface, e);
    }
  }

  /** The tree by network and the tree by interface address, which share nothing. */
  class Indices {
    const net: Index
    const src: Index

    ghost predicate Valid()
      reads net.head, src.head, net.head.nodes, src.head.nodes
    {
      && net.head != src.head && net.head.nodes !! src.head.nodes
      && net.Valid() == true && src.Valid() == true
    }

    ghost function Nets(): set<Node>
      reads net.head
    {
      net.head.nodes
    }

    ghost function Srcs(): set<Node>
      reads src.head
    {
      src.head.nodes
    }

    constructor ()
      ensures Valid() && Nets() == {} && Srcs() == {} && fresh(net.head) && fresh(src.head)
    {
      net := new Index();
      src := new Index();
    }

    method LinkNet(n: Node)
      requires Valid() && n !in Nets() + Srcs() && 0 <= n.key < FULL
      requires n.key !in KeySet(Nets()) && Near(KeySet(Nets()) + {n.key}) == true
      modifies net.head, Nets(), n
      ensures Valid() && Nets() == old(Nets()) + {n}
    {
      var r := net.Insert(n);
    }

    /** A second entry with the same interface address is refused. */
    method LinkSrc(n: Node) returns (r: Node?)
      requires Valid() && n !in Nets() + Srcs() && 0 <= n.key < FULL
      requires Near(KeySet(Srcs()) + {n.key}) == true
      modifies src.head, Srcs(), n
      ensures Valid() && (r == null <==> n.key !in old(KeySet(Srcs())))
      ensures r == null ==> Srcs() == old(Srcs()) + {n}
      ensures r != null ==> Srcs() == old(Srcs())
    {
      r := src.Insert(n);
      net.Untouched();
    }

    /** ip_route_tree_insert. */
    method Link(rn: Node, sn: Node)
      requires Valid() && rn !in Nets() + Srcs() && sn !in Nets() + Srcs() && rn != sn
      requires 0 <= rn.key < FULL && rn.key !in KeySet(Nets()) && Near(KeySet(Nets()) + {rn.key}) == true
      requires 0 <= sn.key < FULL && Near(KeySet(Srcs()) + {sn.key}) == true
      modifies net.head, src.head, Nets(), Srcs(), rn, sn
      ensures Valid() && Nets() == old(Nets()) + {rn}
      ensures Srcs() == if sn.key in old(KeySet(Srcs())) then old(Srcs()) else old(Srcs()) + {sn}
    {
      LinkNet(rn);
      var r := LinkSrc(sn);
    }

    /** ip_route_tree_remove. */
    method Unlink(rn: Node, sn: Node)
      requires Valid() && rn in Nets() && sn in Srcs()
      modifies net.head, src.head, Nets(), Srcs()
      ensures Valid() && Nets() == old(Nets()) - {rn} && Srcs() == old(Srcs()) - {sn}
    {
      net.Remove(rn);
      src.Remove(sn);
    }
  }

  // ---------- the table ----------

  lemma {:induction false} ListedEntries(v: Rib, e: seq<Node>)
    requires Core(v, {}) && Lists(e, v.nets)
    ensures NameEntries(e, |v.rib|) == true
  {
  }

  predicate NameEntries(e: seq<Node>, n: nat)
  {
    forall i :: 0 <= i < |e| ==> e[i].item < n
  }

  /** None of the first `k` nodes names an entry whose network has the address. */
  predicate PassedOver(rib: seq<Route>, e: seq<Node>, k: nat, addr: U32)
  {
    forall i :: 0 <= i < k && i < |e| && e[i].item < |rib| ==> !Matches(rib[e[i].item], addr)
  }

  /** The first match in a walk of the network tree is the least one. */
  lemma {:induction false} FirstInOrder(v: Rib, e: seq<Node>, k: nat, addr: U32)
    requires Core(v, {}) == true && Sorted(Diff, e) == true && Lists(e, v.nets) == true
    requires k < |e| && PassedOver(v.rib, e, k, addr) == true && e[k].item < |v.rib| && Matches(v.rib[e[k].item], addr)
    ensures e[k] in v.nets && FirstOf(Stored(v), addr, v.rib[e[k].item]) == true
  {
    assert e[k] in e;
    forall r | r in Stored(v) && r != v.rib[e[k].item] && Matches(r, addr)
      ensures Diff(v.rib[e[k].item].network, r.network) < 0
    {
      var n :| n in v.nets && n.item < |v.rib| && v.rib[n.item] == r;
      var j :| 0 <= j < |e| && e[j] == n;
    }
  }

  lemma {:induction false} NoMatch(v: Rib, e: seq<Node>, addr: U32)
    requires Lists(e, v.nets) == true && PassedOver(v.rib, e, |e|, addr) == true
    ensures !Masked(Stored(v), addr)
  {
    forall r | r in Stored(v)
      ensures !Matches(r, addr)
    {
      var n :| n in v.nets && n.item < |v.rib| && v.rib[n.item] == r;
      var j :| 0 <= j < |e| && e[j] == n;
    }
  }

  lemma {:induction false} NamesOne(e: seq<Node>, n: nat, k: nat)
    requires NameEntries(e, n) && k < |e|
    ensures e[k].item < n
  {
  }

  lemma {:induction false} PassNext(rib: seq<Route>, e: seq<Node>, k: nat, addr: U32)
    requires PassedOver(rib, e, k, addr) && k < |e| && e[k].item < |rib| && !Matches(rib[e[k].item], addr)
    ensures PassedOver(rib, e, k + 1, addr) == true
  {
  }

  /** The walk stands before the `k`-th node. */
  ghost predicate Before(e: seq<Node>, k: nat, r: Node?)
  {
    k <= |e| && r == First(e[k..])
  }

  method Step(head: Head, n: Node, ghost e: seq<Node>, ghost k: nat) returns (r: Node?)
    requires head.Linked() == true && e == Elems(head.tree) && Before(e, k, n)
    ensures k < |e| && e[k] == n && Before(e, k + 1, r) == true
  {
    FirstHere(head.tree, k, n);
    r := head.Next(n);
    NextIndex(head.tree, k, n, r);
  }

  /** The RB_FOREACH loop: the first node of the tree whose entry's network has the address. */
  method FirstMatch(head: Head, rib: array<Route>, addr: U32, ghost routes: seq<Route>, ghost e: seq<Node>)
    returns (r: Node?, ghost k: nat)
    requires head.Linked() == true && e == Elems(head.tree) && NameEntries(e, |routes|) == true
    requires rib[..] == routes
    ensures r != null ==> k < |e| && e[k] == r && r.item < |routes| && Matches(routes[r.item], addr)
    ensures r == null ==> k == |e|
    ensures PassedOver(routes, e, k, addr) == true
  {
    k := 0;
    r := head.MinMax(-1);
    while r != null
      invariant head.Linked() == true && e == Elems(head.tree) && rib[..] == routes
      invariant Before(e, k, r) == true && PassedOver(routes, e, k, addr) == true
      decreases |e| - k
    {
      FirstHere(head.tree, k, r);
      NamesOne(e, |routes|, k);
      if Matches(rib[r.item], addr) {
        return;
      }
      PassNext(routes, e, k, addr);
      r := Step(head, r, e, k);
      k := k + 1;
    }
  }

  class Table {
    const es: Entries
    const ix: Indices

    ghost function Value(): Rib
      reads es, es.rib, es.rlink, es.slink, ix.net.head, ix.src.head
    {
      es.With(ix.Nets(), ix.Srcs())
    }

    /** Sound, but for the entries in `hand`. */
    ghost predicate Holds(hand: set<nat>)
      reads es, es.rib, es.rlink, es.slink, ix.net.head, ix.src.head, ix.Nets(), ix.Srcs()
    {
      es.rlink != es.slink && ix.Valid() == true && Core(Value(), hand) == true
    }

    ghost predicate Sound()
      reads es, es.rib, es.rlink, es.slink, ix.net.head, ix.src.head, ix.Nets(), ix.Srcs()
    {
      Holds({})
    }

    /** The trees also hold the same entries, as the operations that change the table need it. */
    ghost predicate Valid()
      reads es, es.rib, es.rlink, es.slink, ix.net.head, ix.src.head, ix.Nets(), ix.Srcs()
    {
      Sound() && Agree(Value()) == true
    }

    /** ip_route_init. */
    constructor ()
      ensures Valid() && Stored(Value()) == {} && |es.free| == 5
      ensures fresh(es) && fresh(es.rib) && fresh(es.rlink) && fresh(es.slink)
      ensures fresh(ix.net.head) && fresh(ix.src.head)
    {
      es := new Entries();
      ix := new Indices();
    }

    /** The entry in hand has links that fit its route. */
    ghost predicate Ready(e: nat)
      reads es, es.rib, es.rlink, es.slink, ix.net.head, ix.src.head, ix.Nets(), ix.Srcs()
    {
      && e < SIZE && Sized(Value()) && Holds({e}) == true && Agree(Value()) == true
      && es.rlink[e].key == es.rib[e].network && es.slink[e].key == es.rib[e].iface
      && es.rlink[e] != es.slink[e] && es.rlink[e] !in ix.Srcs() && es.slink[e] !in ix.Nets()
    }

    method Store(e: nat, route: Route, ghost rs: set<Route>)
      requires Holds({e}) == true && Agree(Value()) == true && Stored(Value()) == rs
      modifies es.rib, es.rlink, es.slink
      ensures Ready(e) == true && es.rib[e] == route && fresh(es.rlink[e]) && fresh(es.slink[e])
      ensures Stored(Value()) == rs && es.free == old(es.free)
    {
      ghost var v := Value();
      es.Write(e, route);
      ghost var rn, sn := es.rlink[e], es.slink[e];
      assert Value() == Written(v, e, route, rn, sn);
      WriteOk(v, e, route, rn, sn);
    }

    /** ip_route_tree_insert on the entry in hand. */
    method Enter(e: nat, ghost route: Route, ghost rs: set<Route>)
      requires Ready(e) == true && es.rib[e] == route && Stored(Value()) == rs
      requires Orderable(rs, route) == true && NewNetwork(rs, route) == true
      modifies ix.net.head, ix.src.head, ix.Nets(), ix.Srcs(), es.rlink[e], es.slink[e]
      ensures Sound() == true && Stored(Value()) == rs + {route} && es.free == old(es.free)
      ensures Agree(Value()) == NewIface(rs, route)
    {
      ghost var v := Value();
      NetKeys(v, {e});
      SrcKeys(v, {e});
      ix.Link(es.rlink[e], es.slink[e]);
      assert Value() == Linked(v, e);
      LinkOk(v, e);
    }

    /** Takes the entry `e`, which is in hand, into the trees with a new route. */
    method Put(e: nat, route: Route, ghost rs: set<Route>)
      requires Holds({e}) == true && Agree(Value()) == true && Stored(Value()) == rs
      requires Orderable(rs, route) == true && NewNetwork(rs, route) == true
      modifies es.rib, es.rlink, es.slink, ix.net.head, ix.src.head, ix.Nets(), ix.Srcs()
      ensures Sound() == true && Stored(Value()) == rs + {route} && es.free == old(es.free)
      ensures Agree(Value()) == NewIface(rs, route)
    {
      Store(e, route, rs);
      Enter(e, route, rs);
    }

    /** The entry is in the network tree. */
    ghost predicate Holding(e: nat)
      reads es.rib, es.rlink, ix.net.head
    {
      e < SIZE == es.rib.Length == es.rlink.Length && es.rlink[e] in ix.Nets()
    }

    lemma {:induction false} Leaving(e: nat, v: Rib)
      requires Valid() && Holding(e) && v == Value()
      ensures Sized(v) && v.slink[e] in v.srcs && Core(Unlinked(v, e), {e}) == true && Agree(Unlinked(v, e)) == true
      ensures Stored(Unlinked(v, e)) == Others(Stored(v), v.rib[e].network)
    {
      forall m, n | m in v.nets && n in v.nets && m.key == n.key
        ensures m == n
      {
        ix.net.Unique(m, n);
      }
      UnlinkOk(v, e);
      CutStored(v, e);
    }

    /** ip_route_tree_remove: puts the entry into hand. */
    method TakeOut(e: nat, ghost network: U32, ghost rs: set<Route>)
      requires Valid() == true && Holding(e) && es.rib[e].network == network && Stored(Value()) == rs
      modifies ix.net.head, ix.src.head, ix.Nets(), ix.Srcs()
      ensures Holds({e}) == true && Agree(Value()) == true && Stored(Value()) == Others(rs, network)
      ensures ix.Nets() <= old(ix.Nets()) && ix.Srcs() <= old(ix.Srcs()) && es.free == old(es.free)
    {
      ghost var v := Value();
      Leaving(e, v);
      ix.Unlink(es.rlink[e], es.slink[e]);
      assert Value() == Unlinked(v, e);
    }

    /** ip_route_entry_alloc on a list that is not empty. */
    method Alloc(ghost rs: set<Route>) returns (e: nat)
      requires Valid() == true && Stored(Value()) == rs && es.free != []
      modifies es
      ensures Holds({e}) == true && Agree(Value()) == true && Stored(Value()) == rs && es.free == old(es.free)[1..]
    {
      ghost var v := Value();
      AllocOk(v);
      e := es.free[0];
      es.free := es.free[1..];
      assert Value() == v.(free := v.free[1..]);
    }

    /** ip_route_add, which needs a free entry. */
    method Add(route: Route, ghost rs: set<Route>) returns (r: int)
      requires Valid() == true && Stored(Value()) == rs && es.free != []
      requires Orderable(rs, route) == true && NewNetwork(rs, route) == true
      modifies es, es.rib, es.rlink, es.slink, ix.net.head, ix.src.head, ix.Nets(), ix.Srcs()
      ensures r == 0 && Sound() == true && Stored(Value()) == rs + {route} && es.free == old(es.free)[1..]
      ensures Agree(Value()) == NewIface(rs, route)
    {
      var e := Alloc(rs);
      Put(e, route, rs);
      return 0;
    }

    /** RB_FIND in the network tree. */
    method FindEntry(network: U32, ghost rs: set<Route>) returns (e: Option<nat>)
      requires Sound() == true && Stored(Value()) == rs
      ensures e.Some? == Exact(rs, network)
      ensures e.Some? ==> Holding(e.value) && es.rib[e.value].network == network && es.rib[e.value] in rs
    {
      NetKeys(Value(), {});
      var n := ix.net.Find(network);
      if n == null {
        return None;
      }
      assert n in Value().nets;
      return Some(n.item);
    }

    /** The search at the start of an operation that changes the table. */
    method Seek(network: U32, ghost rs: set<Route>) returns (e: Option<nat>)
      requires Valid() == true && Stored(Value()) == rs
      ensures Valid() == true && Value() == old(Value()) && e.Some? == Exact(rs, network)
      ensures e.Some? ==> Holding(e.value) && es.rib[e.value].network == network
    {
      e := FindEntry(network, rs);
    }

    /** The branch of ip_route_update that finds an entry. */
    method Replace(e: nat, route: Route, ghost rs: set<Route>, ghost others: set<Route>)
      requires Valid() == true && Holding(e) && es.rib[e].network == route.network && Stored(Value()) == rs
      requires others == Others(rs, route.network)
      requires Orderable(others, route) == true && NewNetwork(others, route) == true
      modifies es.rib, es.rlink, es.slink, ix.net.head, ix.src.head, ix.Nets(), ix.Srcs()
      ensures Sound() == true && Stored(Value()) == others + {route} && es.free == old(es.free)
      ensures Agree(Value()) == NewIface(others, route)
    {
      TakeOut(e, route.network, rs);
      Put(e, route, others);
    }

    method Renew(route: Route, ghost rs: set<Route>, ghost others: set<Route>) returns (r: Option<int>)
      requires Valid() == true && Stored(Value()) == rs && others == Others(rs, route.network)
      requires Orderable(others, route) == true && NewNetwork(others, route) == true
      requires !Exact(rs, route.network) ==> others == rs
      modifies es, es.rib, es.rlink, es.slink, ix.net.head, ix.src.head, ix.Nets(), ix.Srcs()
      ensures r == if old(es.free) == [] && !Exact(rs, route.network) then None else Some(0)
      ensures r.None? ==> Value() == old(Value()) && Valid() == true
      ensures r.Some? ==> Valid() == NewIface(others, route) && Sound() == true && Stored(Value()) == others + {route}
      ensures r.Some? ==> es.free == if Exact(rs, route.network) then old(es.free) else old(es.free)[1..]
    {
      var entry := Seek(route.network, rs);
      if entry.Some? {
        Replace(entry.value, route, rs, others);
        return Some(0);
      }
      if es.free == [] {
        return None;
      }
      var status := Add(route, others);
      return Some(status);
    }

    /**
     ip_route_update: afterwards the route is the one for its network, and the others are as before. The
     trees still hold the same entries exactly when no other route has the interface. There is no answer
     exactly when a new network meets an empty free list, where the allocation follows a null pointer.
     */
    method Update(route: Route) returns (r: Option<int>)
      requires Valid() && Orderable(Others(Stored(Value()), route.network), route)
      modifies es, es.rib, es.rlink, es.slink, ix.net.head, ix.src.head, ix.Nets(), ix.Srcs()
      ensures r == if old(es.free) == [] && !Exact(old(Stored(Value())), route.network) then None else Some(0)
      ensures r.None? ==> Value() == old(Value()) && Valid() == true
      ensures r.Some? ==> Valid() == NewIface(Others(old(Stored(Value())), route.network), route) && Sound() == true
      ensures r.Some? ==> Stored(Value()) == Others(old(Stored(Value())), route.network) + {route}
      ensures r.Some? ==>
                es.free == if Exact(old(Stored(Value())), route.network) then old(es.free) else old(es.free)[1..]
    {
      OthersNew(Stored(Value()), route);
      r := Renew(route, Stored(Value()), Others(Stored(Value()), route.network));
    }

    /** ip_route_entry_free. */
    method Free(e: nat, ghost rs: set<Route>)
      requires Holds({e}) == true && Agree(Value()) == true && Stored(Value()) == rs
      modifies es
      ensures Valid() == true && Stored(Value()) == rs && es.free == [e] + old(es.free)
    {
      ghost var v := Value();
      FreeOk(v, e);
      es.free := [e] + es.free;
      assert Value() == v.(free := [e] + v.free);
    }

    /** Blanks the entry in hand and puts it back on the free list. */
    method Release(e: nat, ghost rs: set<Route>)
      requires Holds({e}) == true && Agree(Value()) == true && Stored(Value()) == rs
      modifies es, es.rib, es.rlink, es.slink
      ensures Valid() == true && Stored(Value()) == rs && Freed(old(es.free)) == true
    {
      Store(e, BLANK, rs);
      Free(e, rs);
    }

    /** A blank entry has come to the front of the free list. */
    ghost predicate Freed(was: seq<nat>)
      reads es, es.rib
    {
      es.free != [] && es.free[1..] == was && es.free[0] < es.rib.Length && es.rib[es.free[0]] == BLANK
    }

    method Drop(route: Route, ghost rs: set<Route>, ghost others: set<Route>) returns (r: int)
      requires Valid() == true && Stored(Value()) == rs && others == Others(rs, route.network)
      requires !Exact(rs, route.network) ==> others == rs
      modifies es, es.rib, es.rlink, es.slink, ix.net.head, ix.src.head, ix.Nets(), ix.Srcs()
      ensures Valid() == true && Stored(Value()) == others && r == if Exact(rs, route.network) then 0 else -1
      ensures r == 0 ==> Freed(old(es.free)) == true
      ensures r != 0 ==> Value() == old(Value())
    {
      var entry := Seek(route.network, rs);
      if entry.None? {
        return -1;
      }
      TakeOut(entry.value, route.network, rs);
      Release(entry.value, others);
      return 0;
    }

    /** ip_route_remove. */
    method Remove(route: Route) returns (r: int)
      requires Valid()
      modifies es, es.rib, es.rlink, es.slink, ix.net.head, ix.src.head, ix.Nets(), ix.Srcs()
      ensures Valid() == true && Stored(Value()) == Others(old(Stored(Value())), route.network)
      ensures r == if Exact(old(Stored(Value())), route.network) then 0 else -1
      ensures r == 0 ==> Freed(old(es.free)) == true
      ensures r != 0 ==> Value() == old(Value())
    {
      OthersNew(Stored(Value()), route);
      r := Drop(route, Stored(Value()), Others(Stored(Value()), route.network));
    }

    method Walk(addr: U32, ghost rs: set<Route>) returns (e: Option<nat>)
      requires Sound() == true && Stored(Value()) == rs
      ensures e.Some? == Masked(rs, addr)
      ensures e.Some? ==> Holding(e.value) && FirstOf(rs, addr, es.rib[e.value]) == true
    {
      ghost var v, nodes := Value(), Elems(ix.net.head.tree);
      ix.net.Listing(nodes);
      ListedEntries(v, nodes);
      var r;
      ghost var k;
      r, k := FirstMatch(ix.net.head, es.rib, addr, v.rib, nodes);
      if r == null {
        NoMatch(v, nodes, addr);
        return None;
      }
      FirstInOrder(v, nodes, k, addr);
      return Some(r.item);
    }

    method RouteTo(network: U32, ghost rs: set<Route>) returns (r: Option<Route>)
      requires Sound() == true && Stored(Value()) == rs
      ensures Sound() == true && Stored(Value()) == rs
      ensures r.Some? == Exact(rs, network) && (r.Some? ==> r.value in rs && r.value.network == network)
    {
      r := Fetch(network, rs);
    }

    /** The route of the entry that the search finds. */
    method Fetch(network: U32, ghost rs: set<Route>) returns (r: Option<Route>)
      requires Sound() == true && Stored(Value()) == rs
      ensures r.Some? == Exact(rs, network) && (r.Some? ==> r.value in rs && r.value.network == network)
    {
      var entry := FindEntry(network, rs);
      if entry.None? {
        return None;
      }
      r := Some(es.rib[entry.value]);
    }

    /** The route of the entry that the walk stops at. */
    method Stop(addr: U32, ghost rs: set<Route>) returns (r: Option<Route>)
      requires Sound() == true && Stored(Value()) == rs
      ensures r.Some? == Masked(rs, addr) && (r.Some? ==> FirstOf(rs, addr, r.value) == true)
    {
      var entry := Walk(addr, rs);
      if entry.None? {
        return None;
      }
      r := Some(es.rib[entry.value]);
    }

    method RouteByMask(addr: U32, ghost rs: set<Route>) returns (r: Option<Route>)
      requires Sound() == true && Stored(Value()) == rs
      ensures Sound() == true && Stored(Value()) == rs
      ensures r.Some? == Masked(rs, addr) && (r.Some? ==> FirstOf(rs, addr, r.value) == true)
    {
      r := Stop(addr, rs);
    }

    /** The three stages in order. */
    method Choose(addr: U32, ghost rs: set<Route>) returns (r: Option<Route>)
      requires Sound() == true && Stored(Value()) == rs
      ensures Decides(rs, addr, r) == true
    {
      r := RouteTo(addr, rs);
      if r.Some? {
        ExactDecides(rs, addr, r.value);
        return;
      }
      r := RouteByMask(addr, rs);
      if r.Some? {
        MaskDecides(rs, addr, r.value);
        return;
      }
      r := RouteTo(0, rs);
      ZeroDecides(rs, addr, r);
    }

    /** ip_route_find_by_network. */
    method FindByNetwork(addr: U32) returns (r: Option<Route>)
      requires Sound()
      ensures Decides(Stored(Value()), addr, r)
    {
      r := Choose(addr, Stored(Value()));
    }

    /** ip_route_find_by_iface: finds a route of the interface exactly when there is one. */
    method FindByIface(addr: U32) returns (r: Option<Route>)
      requires Sound()
      ensures r.Some? ==> r.value in Stored(Value()) && r.value.iface == addr
      ensures r.None? ==> forall s :: s in Stored(Value()) ==> s.iface != addr
    {
      SrcKeys(Value(), {});
      var n := ix.src.Find(addr);
      if n == null {
        return None;
      }
      assert n in Value().srcs && es.rlink[n.item] in Value().nets;
      return Some(es.rib[n.item]);
    }
  }

  // ---------- the default gateway ----------

  /** Networks below 128.0.0.0 come after network 0, those above come before it. */
  lemma {:induction false} AgainstZero(n: U32)
    ensures 0 < n < HALF ==> Diff(0, n) < 0 && Diff(n, 0) > 0
    ensures n > HALF ==> Diff(0, n) > 0 && Diff(n, 0) < 0
    ensures n == HALF ==> Diff(0, n) < 0 && Diff(n, 0) < 0
  {
  }

  lemma {:induction false} OrderedAgainstZero(ks: set<int>, n: U32)
    requires OrderOn(Diff, ks) && 0 in ks && n in ks && n != 0
    ensures Diff(0, n) < 0 <==> n < HALF
    ensures Diff(n, 0) < 0 <==> n >= HALF
  {
    AgainstZero(n);
  }

  /** Another route than `d` matches the address. */
  ghost predicate Rival(rs: set<Route>, addr: U32, d: Route, s: Route)
  {
    s in rs && s != d && Matches(s, addr)
  }

  /**
   The route for network 0 is meant for addresses that no other route matches. It is chosen over another
   match exactly when its own mask matches too and all other matches have networks below 128.0.0.0.
   */
  lemma {:induction false} DefaultShadows(rs: set<Route>, addr: U32, d: Route, r: Route, other: Route)
    requires Chosen(rs, addr, r) && !Exact(rs, addr) && OrderOn(Diff, set s | s in rs :: s.network)
    requires d in rs && d.network == 0 && (forall s :: s in rs && s.network == 0 ==> s == d)
    requires Rival(rs, addr, d, other)
    ensures r == d <==> Matches(d, addr) && forall s :: Rival(rs, addr, d, s) ==> s.network < HALF
  {
    var ks := set s | s in rs :: s.network;
    assert Masked(rs, addr) && d.network in ks;
    forall s | Rival(rs, addr, d, s)
      ensures Diff(0, s.network) < 0 <==> s.network < HALF
      ensures Diff(s.network, 0) < 0 <==> s.network >= HALF
    {
      assert s.network in ks;
      OrderedAgainstZero(ks, s.network);
    }
    if r != d {
      assert Rival(rs, addr, d, r);
    }
  }

  lemma {:induction false} MaskTen(addr: U32, eight: U32, none: U32)
    requires addr == 0x0A01_0203 && eight == 0xFF00_0000 && none == 0
    ensures And(addr, eight) == 0x0A00_0000 && And(addr, none) == 0
  {
    Powers();
    assert IsMask(eight, 8) && IsMask(none, 0);
    InNetwork(0x0A00_0000, eight, 8, addr);
    InNetwork(0, none, 0, addr);
  }

  /** With a default gateway in the table, 10.1.2.3 does not get the route for 10.0.0.0/8. */
  lemma {:induction false} DefaultBeatsNetwork(d: Route, s: Route, r: Route)
    requires d.network == 0 && d.netmask == 0 && s.network == 0x0A00_0000 && s.netmask == 0xFF00_0000
    requires Chosen({d, s}, 0x0A01_0203, r)
    ensures Matches(s, 0x0A01_0203) && r == d
  {
    MaskTen(0x0A01_0203, s.netmask, d.netmask);
    AgainstZero(0x0A00_0000);
    assert d in {d, s} && s in {d, s};
    assert Masked({d, s}, 0x0A01_0203);
  }
}
