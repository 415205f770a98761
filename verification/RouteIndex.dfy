/**
 A red-black tree of addresses, as the routing table has two of them: the tree of RbTree with the
 subtracting comparator. Its keys are kept on half of the circle, where the comparator is an order.
 */
module RouteIndex {
  import opened Bytes
  import opened RbShape
  import opened RbOrder
  import opened RbTree
  import opened RouteOrder

  /** A stored address compares equal to itself. */
  lemma {:induction false} StoredIsFound(s: seq<Node>, addr: int)
    requires Missing(Diff, s, addr) && 0 <= addr < FULL
    ensures addr !in Keys(s)
  {
    DiffZero(addr, addr);
  }

  /** An address that is not stored compares equal to none that is. */
  lemma {:induction false} ForeignIsMissing(s: seq<Node>, addr: U32)
    requires Addresses(Keys(s)) && addr !in Keys(s)
    ensures Missing(Diff, s, addr)
  {
    forall x | x in s
      ensures Diff(addr, x.key) != 0
    {
      assert x.key in Keys(s);
      DiffZero(addr, x.key);
    }
  }

  class Index {
    const head: Head

    ghost predicate Valid()
      reads head, head.nodes
    {
      && head.cmp == Diff && head.Valid() == true
      && Addresses(KeySet(head.nodes)) == true && Near(KeySet(head.nodes)) == true
    }

    constructor ()
      ensures Valid() && head.nodes == {} && fresh(head)
    {
      head := new Head(Diff);
      new;
      assert KeySet(head.nodes) == {};
      assert OnArc(KeySet(head.nodes), 0);
    }

    lemma {:induction false} Stored()
      requires Valid()
      ensures Keys(Elems(head.tree)) == KeySet(head.nodes) && Lists(Elems(head.tree), head.nodes)
    {
      SameNodes(head.tree);
    }

    /** What a walk visits. */
    lemma {:induction false} Listing(e: seq<Node>)
      requires Valid() && e == Elems(head.tree)
      ensures Sorted(Diff, e) == true && head.Linked() == true && Lists(e, head.nodes) == true
    {
      Stored();
    }

    /** No address is in the tree twice. */
    lemma {:induction false} Unique(m: Node, n: Node)
      requires Valid() && m in head.nodes && n in head.nodes && m.key == n.key
      ensures m == n
    {
      Stored();
      var e := Elems(head.tree);
      var i, j :| 0 <= i < |e| && 0 <= j < |e| && e[i] == m && e[j] == n;
      assert m.key in Keys(e);
      DiffZero(m.key, n.key);
    }

    /** Nothing outside the tree matters to it. */
    twostate lemma {:induction false} Untouched()
      requires old(Valid()) && unchanged(head) && unchanged(old(head.nodes))
      ensures Valid() == true
    {
    }

    /** What the answer of a search says about the stored addresses. */
    lemma {:induction false} Decided(e: seq<Node>, key: int, r: Node?)
      requires Addresses(Keys(e)) && 0 <= key < FULL
      requires r == null ==> Missing(Diff, e, key)
      requires r != null ==> r in e && Diff(key, r.key) == 0
      ensures r == null <==> key !in Keys(e)
      ensures r != null ==> r.key == key
    {
      if r == null {
        StoredIsFound(e, key);
      } else {
        assert r.key in Keys(e);
        DiffZero(key, r.key);
      }
    }

    method TryFind(addr: int, ghost e: seq<Node>) returns (r: Node?)
      requires head.cmp == Diff && head.Valid() && e == Elems(head.tree) && OrderOn(Diff, Keys(e)) == true
      requires addr !in Keys(e) ==> Missing(Diff, e, addr) == true
      ensures r != null ==> r in e && Diff(addr, r.key) == 0
      ensures r == null ==> Missing(Diff, e, addr) == true
    {
      r := head.Find(addr);
    }

    /** RB_FIND: right for every probe address, whether or not the comparator orders it with the stored ones. */
    method Find(addr: U32) returns (r: Node?)
      requires Valid()
      ensures r != null ==> r in head.nodes && r.key == addr
      ensures r == null <==> addr !in KeySet(head.nodes)
    {
      Stored();
      ghost var e := Elems(head.tree);
      OrderExactly(Keys(e));
      if addr !in Keys(e) {
        ForeignIsMissing(e, addr);
      }
      r := TryFind(addr, e);
      Decided(e, addr, r);
    }

    method TryInsert(n: Node, ghost e: seq<Node>) returns (r: Node?)
      requires head.cmp == Diff && head.Valid() && e == Elems(head.tree) && OrderOn(Diff, Keys(e) + {n.key}) == true
      modifies head, head.nodes, n
      ensures head.Valid() == true
      ensures r == null ==> head.nodes == old(head.nodes) + {n} && Missing(Diff, e, n.key) == true
      ensures r != null ==> head.nodes == old(head.nodes) && r in e && Diff(n.key, r.key) == 0
    {
      r := head.Insert(n);
    }

    /** RB_INSERT: refused exactly when the address is already stored. */
    method Insert(n: Node) returns (r: Node?)
      requires Valid() && 0 <= n.key < FULL && Near(KeySet(head.nodes) + {n.key}) == true
      modifies head, head.nodes, n
      ensures Valid()
      ensures r == null <==> n.key !in old(KeySet(head.nodes))
      ensures r == null ==> head.nodes == old(head.nodes) + {n}
      ensures r != null ==> head.nodes == old(head.nodes)
    {
      Stored();
      ghost var e, s := Elems(head.tree), head.nodes;
      KeysGrow(s, n);
      OrderExactly(Keys(e) + {n.key});
      r := TryInsert(n, e);
      Decided(e, n.key, r);
    }

    lemma {:induction false} KeysGrow(s: set<Node>, n: Node)
      requires Addresses(KeySet(s)) && 0 <= n.key < FULL
      ensures KeySet(s + {n}) == KeySet(s) + {n.key} && Addresses(KeySet(s + {n})) == true
    {
    }

    /** RB_REMOVE. */
    method Remove(n: Node)
      requires Valid() && n in head.nodes
      modifies head, head.nodes
      ensures Valid() && head.nodes == old(head.nodes) - {n}
    {
      ghost var ks := KeySet(head.nodes);
      var r := head.Remove(n);
      assert KeySet(head.nodes) <= ks;
      ghost var m :| OnArc(ks, m);
      assert OnArc(KeySet(head.nodes), m);
    }
  }
}
