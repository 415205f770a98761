/**
 Splay trees: every operation first brings the sought key, or a neighbour of it, to the root.

 The methods carry ghost arguments: the set `s` of nodes, the split of the tree around the search,
 and the in-order sequence `e`, which no splay step may change. Of the nodes' link fields only
 `left` and `right` are used.
 */
module SplayTree {
  import opened RbShape
  import opened RbOrder
  import opened SplayShape
  import opened SplayCost

  lemma {:induction false} AroundRoot(cmp: Compare, key: int, e: seq<Node>, lo: Spine, t: Bst, hi: Spine)
    requires t.Fork? && e == Whole(true, hi, t, lo) && Sorted(cmp, e) == true && OrderOn(cmp, Keys(e) + {key}) == true
    ensures t.node in e
    ensures cmp(key, t.node.key) < 0 ==> AllAbove(cmp, key, ([t.node] + InOrder(t.right)) + Along(false, hi)) == true
    ensures cmp(key, t.node.key) > 0 ==> AllBelow(cmp, Along(true, lo) + (InOrder(t.left) + [t.node]), key) == true
    ensures cmp(key, t.node.key) == 0 ==> AllBelow(cmp, Along(true, lo) + InOrder(t.left), key) == true
    ensures cmp(key, t.node.key) == 0 ==> AllAbove(cmp, key, InOrder(t.right) + Along(false, hi)) == true
  {
    var p, a, n, b, q := Along(true, lo), InOrder(t.left), t.node, InOrder(t.right), Along(false, hi);
    RootSplit(lo, t, hi);
    Assoc([n], b, q);
    Assoc(p, a, [n]);
    AroundNode(cmp, key, e, p + a, n, b + q);
  }

  lemma {:induction false} Assoc(a: seq<Node>, b: seq<Node>, c: seq<Node>)
    ensures (a + b) + c == a + (b + c)
  {
  }

  lemma {:induction false} RootSplit(lo: Spine, t: Bst, hi: Spine)
    requires t.Fork?
    ensures Whole(true, hi, t, lo) ==
            (Along(true, lo) + InOrder(t.left)) + [t.node] + (InOrder(t.right) + Along(false, hi))
  {
    RegroupAll(Along(true, lo), InOrder(t.left), [t.node], InOrder(t.right), Along(false, hi));
  }

  lemma {:induction false} AroundNode(cmp: Compare, key: int, e: seq<Node>, a: seq<Node>, n: Node, b: seq<Node>)
    requires e == a + [n] + b && Sorted(cmp, e) == true && OrderOn(cmp, Keys(e) + {key}) == true
    ensures n in e
    ensures cmp(key, n.key) < 0 ==> AllAbove(cmp, key, [n] + b) == true
    ensures cmp(key, n.key) > 0 ==> AllBelow(cmp, a + [n], key) == true
    ensures cmp(key, n.key) == 0 ==> AllBelow(cmp, a, key) == true && AllAbove(cmp, key, b) == true
  {
    SplitSorted(cmp, key, e, a, n, b);
    if cmp(key, n.key) == 0 {
      HitSplits(cmp, key, e, a, n, b);
    }
  }

  lemma {:induction false} HitSplits(cmp: Compare, key: int, e: seq<Node>, a: seq<Node>, n: Node, b: seq<Node>)
    requires e == a + [n] + b && Sorted(cmp, e) && OrderOn(cmp, Keys(e) + {key}) && cmp(key, n.key) == 0
    ensures AllBelow(cmp, a, key) && AllAbove(cmp, key, b)
  {
    SplitAt(a, n, b);
    assert n.key in Keys(e) && e[..|a|] == a && e[|a| + 1..] == b;
    HitBelow(cmp, key, e, a, n);
    HitAbove(cmp, key, e, |a|, n, b);
  }

  lemma {:induction false} HitBelow(cmp: Compare, key: int, e: seq<Node>, a: seq<Node>, n: Node)
    requires |a| < |e| && e[..|a|] == a && e[|a|] == n && Sorted(cmp, e) && key == n.key
    ensures AllBelow(cmp, a, key)
  {
    forall x | x in a
      ensures cmp(x.key, key) < 0
    {
      var i :| 0 <= i < |a| && a[i] == x;
      assert e[i] == x;
    }
  }

  lemma {:induction false} HitAbove(cmp: Compare, key: int, e: seq<Node>, k: int, n: Node, b: seq<Node>)
    requires 0 <= k < |e| && e[k + 1..] == b && e[k] == n && Sorted(cmp, e) && key == n.key
    ensures AllAbove(cmp, key, b)
  {
    forall x | x in b
      ensures cmp(key, x.key) < 0
    {
      var i :| 0 <= i < |b| && b[i] == x;
      assert e[k + 1 + i] == x;
    }
  }

  lemma {:induction false} Foremost(a: seq<Node>, b: seq<Node>)
    requires b != []
    ensures b[0] in b && b[0] in a + b && b[0].key in Keys(a + b)
  {
    assert (a + b)[|a|] == b[0];
  }

  /** No node is on both sides of a key. */
  lemma {:induction false} BothSides(cmp: Compare, key: int, e: seq<Node>, a: seq<Node>, b: seq<Node>)
    requires e == a + b && AllBelow(cmp, e, key) && AllAbove(cmp, key, b) && OrderOn(cmp, Keys(e) + {key})
    ensures b == []
  {
    if b != [] {
      Foremost(a, b);
      assert false;
    }
  }

  lemma {:induction false} SortedPart(cmp: Compare, a: seq<Node>, b: seq<Node>)
    requires Sorted(cmp, a + b)
    ensures Sorted(cmp, a)
  {
    assert forall i :: 0 <= i < |a| ==> a[i] == (a + b)[i];
  }

  lemma {:induction false} AddBefore(cmp: Compare, l: seq<Node>, n: Node, r: seq<Node>, x: Node)
    requires Sorted(cmp, l + [n] + r) && AllBelow(cmp, l, x.key) && AllAbove(cmp, x.key, r) && cmp(x.key, n.key) < 0
    ensures AddsOne(l + [n] + r, x, l + [x] + ([n] + r)) && Sorted(cmp, l + [x] + ([n] + r))
  {
    assert l + [n] + r == l + ([n] + r);
    assert AllAbove(cmp, x.key, [n] + r);
    AddsOneAt(l, x, [n] + r);
    SortedAdd(cmp, l, x, [n] + r);
  }

  lemma {:induction false} AddAfter(cmp: Compare, l: seq<Node>, n: Node, r: seq<Node>, x: Node)
    requires Sorted(cmp, l + [n] + r) && AllBelow(cmp, l, x.key) && AllAbove(cmp, x.key, r) && cmp(n.key, x.key) < 0
    ensures AddsOne(l + [n] + r, x, (l + [n]) + [x] + r) && Sorted(cmp, (l + [n]) + [x] + r)
  {
    assert AllBelow(cmp, l + [n], x.key);
    AddsOneAt(l + [n], x, r);
    SortedAdd(cmp, l + [n], x, r);
  }

  class Head {
    const cmp: Compare
    var root: Node?
    ghost var tree: Bst
    ghost var nodes: set<Node>

    ghost predicate Valid()
      reads this, nodes
    {
      Holds(nodes, tree, InOrder(tree)) && Sorted(cmp, InOrder(tree)) == true
    }

    /** The links below `root` spell out `t`. */
    ghost predicate Holds(s: set<Node>, t: Bst, e: seq<Node>)
      reads this, s
    {
      s == Members(t) && e == InOrder(t) && Unshared(t) == true && Spells(Snap(s), t, root) == true
    }

    constructor (cmp: Compare)
      ensures Valid() && this.cmp == cmp && tree == Tip && nodes == {}
    {
      this.cmp := cmp;
      root := null;
      tree := Tip;
      nodes := {};
    }

    /** A splay in progress: `t` is left to search, `lo` and `hi` hang off the dummy `d`. */
    ghost predicate Mid(s: set<Node>, d: Node, lo: Spine, t: Bst, hi: Spine, e: seq<Node>)
      reads this, s
    {
      && s == {d} + Members(t) + MembersS(lo) + MembersS(hi)
      && e == Whole(true, hi, t, lo)
      && t.Fork? && root == t.node
      && Split(Snap(s), d, root, true, hi, t, lo) == true
    }

    /** The search for `key` can go on in any part of `e`. */
    ghost predicate Ordered(key: int, e: seq<Node>)
    {
      Sorted(cmp, e) && OrderOn(cmp, Keys(e) + {key})
    }

    lemma {:induction false} Look(s: set<Node>, d: Node, lo: Spine, t: Bst, hi: Spine, e: seq<Node>)
      requires Mid(s, d, lo, t, hi, e)
      ensures root in s && Tail(lo, d) in s && Tail(hi, d) in s && d in s
      ensures root.left == TopOf(t.left) && root.right == TopOf(t.right)
      ensures t.left.Fork? ==> t.left.node in s && t.left.node != root
      ensures t.right.Fork? ==> t.right.node in s && t.right.node != root
      ensures Tail(lo, d) != root && Tail(hi, d) != root && d != root
    {
      RootLinks(Snap(s), t, root);
    }

    // ---------- the steps ----------

    method RotateRight(tmp: Node, ghost s: set<Node>)
      requires root != null && root in s && tmp in s && root.left == tmp && tmp != root
      modifies this`root, s
      ensures root == tmp && Snap(s) == TurnCells(old(Snap(s)), true, old(root), tmp)
    {
      root.left := tmp.right;
      tmp.right := root;
      root := tmp;
    }

    method RotateLeft(tmp: Node, ghost s: set<Node>)
      requires root != null && root in s && tmp in s && root.right == tmp && tmp != root
      modifies this`root, s
      ensures root == tmp && Snap(s) == TurnCells(old(Snap(s)), false, old(root), tmp)
    {
      root.right := tmp.left;
      tmp.left := root;
      root := tmp;
    }

    method LinkLeft(tmp: Node, ghost s: set<Node>) returns (end: Node)
      requires root != null && root in s && tmp in s && tmp != root
      modifies this`root, s
      ensures end == old(root) && root == old(root.left) && Snap(s) == LinkCells(old(Snap(s)), true, tmp, end)
    {
      tmp.left := root;
      end := root;
      root := root.left;
    }

    method LinkRight(tmp: Node, ghost s: set<Node>) returns (end: Node)
      requires root != null && root in s && tmp in s && tmp != root
      modifies this`root, s
      ensures end == old(root) && root == old(root.right) && Snap(s) == LinkCells(old(Snap(s)), false, tmp, end)
    {
      tmp.right := root;
      end := root;
      root := root.right;
    }

    method RotateRightAt(tmp: Node, ghost s: set<Node>, ghost d: Node, ghost lo: Spine, ghost t: Bst, ghost hi: Spine,
                         ghost e: seq<Node>) returns (ghost t': Bst)
      requires Mid(s, d, lo, t, hi, e) && t.left.Fork? && tmp == t.left.node
      modifies this`root, s
      ensures Mid(s, d, lo, t', hi, e) && t' == Fork(t.left.left, t.left.node, Fork(t.left.right, t.node, t.right))
    {
      ghost var m := Snap(s);
      t' := Fork(t.left.left, t.left.node, Fork(t.left.right, t.node, t.right));
      Look(s, d, lo, t, hi, e);
      RotateRight(tmp, s);
      RotateSplit(m, d, true, hi, t.left.left, tmp, t.left.right, t.node, t.right, lo);
      RotateWhole(true, hi, t.left.left, tmp, t.left.right, t.node, t.right, lo);
      RotateMembers(true, t.left.left, tmp, t.left.right, t.node, t.right);
    }

    method LinkLeftAt(right: Node, ghost s: set<Node>, ghost d: Node, ghost lo: Spine, ghost t: Bst, ghost hi: Spine,
                      ghost e: seq<Node>) returns (end: Node)
      requires Mid(s, d, lo, t, hi, e) && t.left.Fork? && right == Tail(hi, d)
      modifies this`root, s
      ensures Mid(s, d, lo, t.left, More(hi, t.node, t.right), e) && end == t.node
    {
      ghost var m := Snap(s);
      Look(s, d, lo, t, hi, e);
      end := LinkLeft(right, s);
      LinkSplit(m, d, true, hi, t.left, t.node, t.right, lo);
      LinkMembers(true, hi, t.left, t.node, t.right);
      LinkWhole(true, hi, t.left, t.node, t.right, lo);
    }

    method RotateLeftAt(tmp: Node, ghost s: set<Node>, ghost d: Node, ghost lo: Spine, ghost t: Bst, ghost hi: Spine,
                        ghost e: seq<Node>) returns (ghost t': Bst)
      requires Mid(s, d, lo, t, hi, e) && t.right.Fork? && tmp == t.right.node
      modifies this`root, s
      ensures Mid(s, d, lo, t', hi, e) && t' == Fork(Fork(t.left, t.node, t.right.left), t.right.node, t.right.right)
    {
      ghost var m := Snap(s);
      t' := Fork(Fork(t.left, t.node, t.right.left), t.right.node, t.right.right);
      Look(s, d, lo, t, hi, e);
      Mirror(m, d, root, lo, t, hi);
      RotateLeft(tmp, s);
      Mirror(Snap(s), d, root, lo, t', hi);
      RotateSplit(m, d, false, lo, t.right.right, tmp, t.right.left, t.node, t.left, hi);
      RotateWhole(false, lo, t.right.right, tmp, t.right.left, t.node, t.left, hi);
      RotateMembers(false, t.right.right, tmp, t.right.left, t.node, t.left);
    }

    method LinkRightAt(left: Node, ghost s: set<Node>, ghost d: Node, ghost lo: Spine, ghost t: Bst, ghost hi: Spine,
                       ghost e: seq<Node>) returns (end: Node)
      requires Mid(s, d, lo, t, hi, e) && t.right.Fork? && left == Tail(lo, d)
      modifies this`root, s
      ensures Mid(s, d, More(lo, t.node, t.left), t.right, hi, e) && end == t.node
    {
      ghost var m := Snap(s);
      Look(s, d, lo, t, hi, e);
      Mirror(m, d, root, lo, t, hi);
      end := LinkRight(left, s);
      Mirror(Snap(s), d, root, More(lo, t.node, t.left), t.right, hi);
      LinkSplit(m, d, false, lo, t.right, t.node, t.left, hi);
      LinkMembers(false, lo, t.right, t.node, t.left);
      LinkWhole(false, lo, t.right, t.node, t.left, hi);
    }

    /** One round of the loop when the key comes before the root. */
    method GoLeft(key: int, right: Node, ghost s: set<Node>, ghost d: Node, ghost lo: Spine, ghost t: Bst,
                  ghost hi: Spine, ghost e: seq<Node>)
      returns (stop: bool, end: Node, ghost t': Bst, ghost hi': Spine)
      requires Mid(s, d, lo, t, hi, e) && right == Tail(hi, d) && Ordered(key, e) == true && cmp(key, t.node.key) < 0
      modifies this`root, s
      ensures Mid(s, d, lo, t', hi', e) && end == Tail(hi', d)
      ensures stop ==> t'.left.Tip? && hi' == hi && cmp(key, t'.node.key) < 0
      ensures !stop ==> Size(t') < Size(t) && AllAbove(cmp, key, Along(false, hi'))
      ensures Rounded(cmp, key, lo, t, hi, stop, lo, t', hi') == true
    {
      Look(s, d, lo, t, hi, e);
      LeftRound(cmp, key, lo, t, hi);
      t', hi', end := t, hi, right;
      var tmp := root.left;
      if tmp == null {
        return true, end, t', hi';
      }
      if cmp(key, tmp.key) < 0 {
        t' := RotateRightAt(tmp, s, d, lo, t, hi, e);
        Look(s, d, lo, t', hi, e);
        if root.left == null {
          return true, end, t', hi';
        }
      }
      AroundRoot(cmp, key, e, lo, t', hi);
      end := LinkLeftAt(right, s, d, lo, t', hi, e);
      hi' := More(hi, t'.node, t'.right);
      t' := t'.left;
      stop := false;
    }

    /** One round of the loop when the key comes after the root. */
    method GoRight(key: int, left: Node, ghost s: set<Node>, ghost d: Node, ghost lo: Spine, ghost t: Bst,
                   ghost hi: Spine, ghost e: seq<Node>)
      returns (stop: bool, end: Node, ghost t': Bst, ghost lo': Spine)
      requires Mid(s, d, lo, t, hi, e) && left == Tail(lo, d) && Ordered(key, e) == true && cmp(key, t.node.key) > 0
      modifies this`root, s
      ensures Mid(s, d, lo', t', hi, e) && end == Tail(lo', d)
      ensures stop ==> t'.right.Tip? && lo' == lo && cmp(key, t'.node.key) > 0
      ensures !stop ==> Size(t') < Size(t) && AllBelow(cmp, Along(true, lo'), key)
      ensures Rounded(cmp, key, lo, t, hi, stop, lo', t', hi) == true
    {
      Look(s, d, lo, t, hi, e);
      RightRound(cmp, key, lo, t, hi);
      t', lo', end := t, lo, left;
      var tmp := root.right;
      if tmp == null {
        return true, end, t', lo';
      }
      if cmp(key, tmp.key) > 0 {
        t' := RotateLeftAt(tmp, s, d, lo, t, hi, e);
        Look(s, d, lo, t', hi, e);
        if root.right == null {
          return true, end, t', lo';
        }
      }
      AroundRoot(cmp, key, e, lo, t', hi);
      end := LinkRightAt(left, s, d, lo, t', hi, e);
      lo' := More(lo, t'.node, t'.left);
      t' := t'.right;
      stop := false;
    }

    method CloseEnds(left: Node, right: Node, ghost s: set<Node>)
      requires root != null && {root, left, right} <= s && left != root && right != root
      modifies s
      ensures Snap(s) == ClosedCells(old(Snap(s)), root, left, right)
    {
      left.right := root.left;
      right.left := root.right;
    }

    method AssembleRaw(node: Node, left: Node, right: Node, ghost s: set<Node>)
      requires root != null && {node, root, left, right} <= s && left != root && right != root && node != root
      modifies s
      ensures Snap(s) == AssembleCells(old(Snap(s)), node, root, left, right)
    {
      CloseEnds(left, right, s);
      ghost var m := Snap(s);
      root.left := node.right;
      root.right := node.left;
      assert Snap(s) == m[root := m[root].(left := m[node].right, right := m[node].left)];
    }

    method Assemble(node: Node, left: Node, right: Node, ghost s: set<Node>, ghost lo: Spine, ghost t: Bst,
                    ghost hi: Spine, ghost e: seq<Node>) returns (ghost t': Bst)
      requires Mid(s, node, lo, t, hi, e) && left == Tail(lo, node) && right == Tail(hi, node)
      modifies s
      ensures Holds(s - {node}, t', e) && t' == Assembled(lo, t, hi)
      ensures InOrder(t'.left) == Along(true, lo) + InOrder(t.left)
      ensures InOrder(t'.right) == InOrder(t.right) + Along(false, hi)
    {
      ghost var m := Snap(s);
      Look(s, node, lo, t, hi, e);
      AssembleRaw(node, left, right, s);
      t' := Assembled(lo, t, hi);
      AssembleInOrder(lo, t, hi);
      AssembleParts(m, node, lo, t, hi, s);
      Drop(s, t', node);
    }

    /** The dummy is no part of the tree. */
    lemma {:induction false} Drop(s: set<Node>, t: Bst, d: Node)
      requires Spells(Snap(s), t, root) && Members(t) == s - {d}
      ensures Spells(Snap(s - {d}), t, root) == true
    {
      SpellsFrame(Snap(s), Snap(s - {d}), t, root);
    }

    /** The whole tree as a splay that has not begun. */
    lemma {:induction false} Begin(s: set<Node>, t: Bst, e: seq<Node>, d: Node)
      requires Holds(s, t, e) && t.Fork? && d !in s
      ensures Mid(s + {d}, d, None, t, None, e)
    {
      RootLinks(Snap(s), t, root);
      SpellsFrame(Snap(s), Snap(s + {d}), t, root);
      assert Whole(true, None, t, None) == InOrder(t);
    }

    /**
     The splay itself, on a tree that need not be the whole one: the in-order sequence stays, and
     all nodes before the new root have smaller keys, all after it have greater ones.
     */
    method SplayAt(key: int, ghost s: set<Node>, ghost t: Bst, ghost e: seq<Node>)
      returns (ghost t': Bst, ghost rounds: nat)
      requires Holds(s, t, e) && t.Fork? && Ordered(key, e) == true
      modifies this`root, s
      ensures Holds(s, t', e) && t'.Fork? && Splays(cmp, key, t, t', rounds) == true
      ensures AllBelow(cmp, InOrder(t'.left), key) && AllAbove(cmp, key, InOrder(t'.right))
    {
      var node := new Node(0, 0);
      node.left, node.right := null, null;
      ghost var all := s + {node};
      Begin(s, t, e, node);
      WayStarts(cmp, key, t);
      var left, right := node, node;
      ghost var lo, hi, u := None, None, t;
      rounds := 0;
      while cmp(key, root.key) != 0
        invariant Mid(all, node, lo, u, hi, e) && left == Tail(lo, node) && right == Tail(hi, node)
        invariant AllBelow(cmp, Along(true, lo), key) && AllAbove(cmp, key, Along(false, hi))
        invariant OnWay(cmp, key, t, lo, u, hi, rounds) == true
        decreases Size(u)
      {
        var stop;
        ghost var lo0, u0, hi0 := lo, u, hi;
        if cmp(key, root.key) < 0 {
          stop, right, u, hi := GoLeft(key, right, all, node, lo, u, hi, e);
        } else {
          stop, left, u, lo := GoRight(key, left, all, node, lo, u, hi, e);
        }
        WayGoes(cmp, key, t, lo0, u0, hi0, rounds, stop, lo, u, hi);
        rounds := rounds + 1;
        if stop {
          break;
        }
      }
      if cmp(key, root.key) == 0 {
        WayHits(cmp, key, t, lo, u, hi, rounds);
      }
      AroundRoot(cmp, key, e, lo, u, hi);
      t' := Assemble(node, left, right, all, lo, u, hi, e);
      assert all - {node} == s;
    }

    // ---------- the operations ----------

    ghost method Reshape(u: Bst, e: seq<Node>)
      requires Holds(nodes, u, e) && Sorted(cmp, e) == true
      modifies this`tree
      ensures Valid() && tree == u && InOrder(tree) == e
    {
      tree := u;
    }

    /** Moves the node with the key, or a neighbour of it, to the root. */
    method Splay(key: int) returns (ghost rounds: nat)
      requires Valid() && root != null && OrderOn(cmp, Keys(InOrder(tree)) + {key})
      modifies this`root, this`tree, nodes
      ensures Valid() && InOrder(tree) == old(InOrder(tree)) && tree.Fork? && root == tree.node
      ensures Splays(cmp, key, old(tree), tree, rounds) == true
      ensures AllBelow(cmp, InOrder(tree.left), key) && AllAbove(cmp, key, InOrder(tree.right))
    {
      ghost var t, e := tree, InOrder(tree);
      RootLinks(Snap(nodes), t, root);
      ghost var u;
      u, rounds := SplayAt(key, nodes, t, e);
      RootLinks(Snap(nodes), u, root);
      Reshape(u, e);
    }

    /** The root is the node with the key exactly when there is one. */
    lemma {:induction false} RootDecides(key: int)
      requires tree.Fork? && OrderOn(cmp, Keys(InOrder(tree)) + {key})
      requires AllBelow(cmp, InOrder(tree.left), key) && AllAbove(cmp, key, InOrder(tree.right))
      ensures tree.node in InOrder(tree)
      ensures cmp(key, tree.node.key) != 0 ==> Missing(cmp, InOrder(tree), key)
    {
      var l, r := InOrder(tree.left), InOrder(tree.right);
      assert tree.node in InOrder(tree);
      forall x | x in InOrder(tree) && x != tree.node
        ensures cmp(key, x.key) != 0
      {
        assert x.key in Keys(InOrder(tree)) && (x in l || x in r);
      }
    }

    method Find(key: int) returns (r: Node?, ghost rounds: nat)
      requires Valid() && OrderOn(cmp, Keys(InOrder(tree)) + {key})
      modifies this`root, this`tree, nodes
      ensures Valid() && InOrder(tree) == old(InOrder(tree))
      ensures Does(cmp, Access(key), old(tree), tree, rounds) == true
      ensures r == null <==> Missing(cmp, InOrder(tree), key)
      ensures r != null ==> r in InOrder(tree) && cmp(key, r.key) == 0 && root == r
    {
      RootLinks(Snap(nodes), tree, root);
      if root == null {
        return null, 0;
      }
      rounds := Splay(key);
      SplayDoes(cmp, key, old(tree), tree, rounds);
      RootDecides(key);
      r := if cmp(key, root.key) == 0 then root else null;
    }

    lemma {:induction false} CrownSorted(left: bool, a: Bst, n: Node, b: Bst, x: Node)
      requires var t := Join(left, a, n, b);
               && Sorted(cmp, InOrder(t)) && AllBelow(cmp, InOrder(t.left), x.key) &&
                   AllAbove(cmp, x.key, InOrder(t.right))
      requires if left then cmp(x.key, n.key) < 0 else cmp(n.key, x.key) < 0
      ensures var t, t' := Join(left, a, n, b), Join(left, a, x, Join(left, Tip, n, b));
              AddsOne(InOrder(t), x, InOrder(t')) == true && Sorted(cmp, InOrder(t')) == true
    {
      CrownInOrder(left, a, n, b, x);
      if left {
        AddBefore(cmp, InOrder(a), n, InOrder(b), x);
      } else {
        AddAfter(cmp, InOrder(b), n, InOrder(a), x);
      }
    }

    method Crown(elm: Node, ghost s: set<Node>)
      requires root != null && root in s && elm !in s
      modifies this`root, s, elm
      ensures root == elm && IsCrown(old(Snap(s)), Snap(s + {elm}), cmp(elm.key, old(root).key) < 0, old(root), elm)
    {
      if cmp(elm.key, root.key) < 0 {
        elm.left := root.left;
        elm.right := root;
        root.left := null;
      } else {
        elm.right := root.right;
        elm.left := root;
        root.right := null;
      }
      root := elm;
    }

    method CrownAt(elm: Node, ghost s: set<Node>, ghost left: bool, ghost a: Bst, ghost b: Bst, ghost e: seq<Node>)
      requires root != null && Holds(s, Join(left, a, root, b), e) && elm !in s && left == (cmp(elm.key, root.key) < 0)
      modifies this`root, s, elm
      ensures root == elm
      ensures var t := Join(left, a, elm, Join(left, Tip, old(root), b)); Holds(s + {elm}, t, InOrder(t))
    {
      ghost var m, n := Snap(s), root;
      RootLinks(m, Join(left, a, n, b), n);
      Crown(elm, s);
      CrownSpells(m, Snap(s + {elm}), left, a, n, b, elm);
    }

    lemma {:induction false} Reversed(key: int, t: Bst)
      requires t.Fork? && OrderOn(cmp, Keys(InOrder(t)) + {key})
      ensures cmp(key, t.node.key) > 0 ==> cmp(t.node.key, key) < 0
    {
      assert t.node in InOrder(t) && t.node.key in Keys(InOrder(t));
    }

    lemma {:induction false} CrownedOrder(t: Bst, x: Node)
      requires t.Fork? && Ordered(x.key, InOrder(t)) && cmp(x.key, t.node.key) != 0
      requires AllBelow(cmp, InOrder(t.left), x.key) && AllAbove(cmp, x.key, InOrder(t.right))
      ensures AddsOne(InOrder(t), x, InOrder(Crowned(cmp, t, x))) == true
      ensures Sorted(cmp, InOrder(Crowned(cmp, t, x))) == true
    {
      Reversed(x.key, t);
      if cmp(x.key, t.node.key) < 0 {
        CrownSorted(true, t.left, t.node, t.right, x);
      } else {
        CrownSorted(false, t.right, t.node, t.left, x);
      }
    }

    /** Puts `elm` above a root that has just been splayed and does not have its key. */
    method InsertAbove(elm: Node)
      requires Holds(nodes, tree, InOrder(tree)) && tree.Fork? && root == tree.node && elm !in nodes
      requires cmp(elm.key, tree.node.key) != 0
      modifies this`root, this`tree, this`nodes, nodes, elm
      ensures Holds(nodes, tree, InOrder(tree)) && tree == Crowned(cmp, old(tree), elm)
      ensures nodes == old(nodes) + {elm} && root == elm
    {
      ghost var left, t := cmp(elm.key, root.key) < 0, tree;
      ghost var a, b := if left then t.left else t.right, if left then t.right else t.left;
      assert t == Join(left, a, root, b);
      CrownAt(elm, nodes, left, a, b, InOrder(t));
      nodes, tree := nodes + {elm}, Crowned(cmp, t, elm);
    }

    method InsertFirst(elm: Node)
      requires Valid() && tree.Tip?
      modifies this`root, this`tree, this`nodes, elm
      ensures Valid() && AddsOne(old(InOrder(tree)), elm, InOrder(tree)) && tree == Fork(Tip, elm, Tip)
      ensures nodes == old(nodes) + {elm} && root == elm
    {
      elm.left, elm.right := null, null;
      root := elm;
      tree := Fork(Tip, elm, Tip);
      nodes := {elm};
      AddsOneAt([], elm, []);
    }

    method Insert(elm: Node) returns (r: Node?, ghost rounds: nat)
      requires Valid() && OrderOn(cmp, Keys(InOrder(tree)) + {elm.key})
      modifies this`root, this`tree, this`nodes, nodes, elm
      ensures Valid()
      ensures r != null ==> r in old(InOrder(tree)) && cmp(elm.key, r.key) == 0 && InOrder(tree) == old(InOrder(tree))
      ensures r == null ==> Missing(cmp, old(InOrder(tree)), elm.key)
      ensures r == null ==> AddsOne(old(InOrder(tree)), elm, InOrder(tree)) && nodes == old(nodes) + {elm}
      ensures r == null ==> root == elm
      ensures Does(cmp, Enter(elm), old(tree), tree, rounds) == true
    {
      RootLinks(Snap(nodes), tree, root);
      if root == null {
        InsertFirst(elm);
        EmptyDoes(cmp, elm.key, elm);
        return null, 0;
      }
      rounds := Splay(elm.key);
      CrownDoes(cmp, old(tree), tree, elm, rounds);
      RootDecides(elm.key);
      if cmp(elm.key, root.key) == 0 {
        return root, rounds;
      }
      MissingSelf(cmp, InOrder(tree), elm);
      InOrderMembers(tree, elm);
      CrownedOrder(tree, elm);
      InsertAbove(elm);
      r := null;
    }

    // ---------- removal ----------

    lemma {:induction false} NothingAbove(key: int, l: seq<Node>, t: Bst)
      requires t.Fork? && InOrder(t) == l && AllBelow(cmp, l, key) && AllAbove(cmp, key, InOrder(t.right))
      requires OrderOn(cmp, Keys(l) + {key})
      ensures t.right.Tip? && l == InOrder(t.left) + [t.node]
    {
      var r := InOrder(t.right);
      assert l == InOrder(t.left) + [t.node] + r;
      BothSides(cmp, key, l, InOrder(t.left) + [t.node], r);
      InOrderEmpty(t.right);
    }

    /** The two subtrees below `n`, apart from each other. */
    ghost predicate Parts(n: Node, l: Bst, ls: set<Node>, r: Bst, rs: set<Node>)
      reads n, ls, rs
    {
      && ls == Members(l) && rs == Members(r) && ls !! rs
      && Unshared(l) == true && Spells(Snap(ls), l, n.left) == true
      && Unshared(r) == true && Spells(Snap(rs), r, n.right) == true
    }

    lemma {:induction false} CutOut(s: set<Node>, t: Bst)
      requires t.Fork? && Holds(s, t, InOrder(t))
      ensures root == t.node && Parts(root, t.left, Members(t.left), t.right, Members(t.right)) == true
      ensures s - {t.node} == Members(t.left) + Members(t.right)
    {
      RootLinks(Snap(s), t, root);
      SpellsFrame(Snap(s), Snap(Members(t.left)), t.left, t.node.left);
      SpellsFrame(Snap(s), Snap(Members(t.right)), t.right, t.node.right);
    }

    method Rejoin(tmp: Node?, ghost ls: set<Node>, ghost u: Bst, ghost r: Bst, ghost rs: set<Node>, ghost e: seq<Node>)
      requires u.Fork? && u.right.Tip? && Holds(ls, u, e) && ls !! rs
      requires rs == Members(r) && Unshared(r) == true && Spells(Snap(rs), r, tmp) == true
      modifies ls
      ensures var t' := Fork(u.left, u.node, r); Holds(ls + rs, t', InOrder(t'))
    {
      RootLinks(Snap(ls), u, root);
      ghost var m := Snap(ls);
      root.right := tmp;
      RejoinSpells(m, Snap(rs), Snap(ls + rs), u, r, tmp);
    }

    /** Splays the left subtree for a key above all of it, which leaves its root without a right child. */
    method SplayLeft(key: int, ghost s: set<Node>, ghost t: Bst) returns (ghost u: Bst, ghost rounds: nat)
      requires t.Fork? && Holds(s, t, InOrder(t)) && Ordered(key, InOrder(t)) == true
      requires AllBelow(cmp, InOrder(t), key) == true
      modifies this`root, s
      ensures Holds(s, u, InOrder(t)) && u.Fork? && u.right.Tip? && InOrder(t) == InOrder(u.left) + [u.node]
      ensures Splays(cmp, key, t, u, rounds) == true
    {
      u, rounds := SplayAt(key, s, t, InOrder(t));
      NothingAbove(key, InOrder(t), u);
    }

    /** Removes a root whose left subtree `l` is not empty. */
    method Merge(key: int, ghost l: Bst, ghost ls: set<Node>, ghost r: Bst, ghost rs: set<Node>)
      returns (ghost t': Bst, ghost rounds: nat)
      requires root != null && l.Fork? && Parts(root, l, ls, r, rs) == true && cmp(key, root.key) == 0
      requires Ordered(key, InOrder(l)) == true && AllBelow(cmp, InOrder(l), key) == true
      modifies this`root, ls
      ensures Holds(ls + rs, t', InOrder(l) + InOrder(r))
      ensures Cuts(cmp, key, Fork(l, old(root), r), t', rounds) == true
    {
      ghost var n := root;
      var tmp := root.right;
      root := root.left;
      ghost var u;
      u, rounds := SplayLeft(key, ls, l);
      Rejoin(tmp, ls, u, r, rs, InOrder(l));
      t' := Fork(u.left, u.node, r);
      RightCuts(cmp, key, l, n, r, u, rounds);
    }

    lemma {:induction false} OrderedPart(key: int, e: seq<Node>, a: seq<Node>, b: seq<Node>)
      requires e == a + b && Ordered(key, e)
      ensures Ordered(key, a) == true
    {
      SortedPart(cmp, a, b);
      assert Keys(a) + {key} <= Keys(e) + {key};
      OrderSub(cmp, Keys(a) + {key}, Keys(e) + {key});
    }

    lemma {:induction false} PartsTop(n: Node, l: Bst, ls: set<Node>, r: Bst, rs: set<Node>)
      requires Parts(n, l, ls, r, rs)
      ensures n.left == TopOf(l) && n.right == TopOf(r)
    {
    }

    /** Cuts out the root, which has just been splayed and has the key. */
    method CutRoot(key: int, ghost l: Bst, ghost ls: set<Node>, ghost r: Bst, ghost rs: set<Node>)
      returns (ghost t': Bst, ghost rounds: nat)
      requires root != null && Parts(root, l, ls, r, rs) == true && cmp(key, root.key) == 0
      requires Ordered(key, InOrder(l)) == true && AllBelow(cmp, InOrder(l), key) == true
      modifies this`root, ls
      ensures Holds(ls + rs, t', InOrder(l) + InOrder(r))
      ensures Cuts(cmp, key, Fork(l, old(root), r), t', rounds) == true
    {
      PartsTop(root, l, ls, r, rs);
      if root.left == null {
        root := root.right;
        t', rounds := r, 0;
        assert InOrder(l) + InOrder(r) == InOrder(r) && ls + rs == rs;
      } else {
        t', rounds := Merge(key, l, ls, r, rs);
      }
    }

    lemma {:induction false} RootDrops(t: Bst)
      requires t.Fork? && Sorted(cmp, InOrder(t)) == true
      ensures DropsOne(InOrder(t), t.node, InOrder(t.left) + InOrder(t.right)) == true
      ensures Sorted(cmp, InOrder(t.left) + InOrder(t.right)) == true
    {
      DropsOneAt(InOrder(t.left), t.node, InOrder(t.right));
      SortedDrop(cmp, InOrder(t.left), t.node, InOrder(t.right));
    }

    lemma {:induction false} OrderedLeft(key: int, t: Bst)
      requires t.Fork? && Ordered(key, InOrder(t)) == true
      ensures Ordered(key, InOrder(t.left)) == true
    {
      assert InOrder(t) == InOrder(t.left) + ([t.node] + InOrder(t.right));
      OrderedPart(key, InOrder(t), InOrder(t.left), [t.node] + InOrder(t.right));
    }

    method CutTree(key: int, ghost s: set<Node>, ghost t: Bst) returns (ghost t': Bst, ghost rounds: nat)
      requires t.Fork? && Holds(s, t, InOrder(t)) && Ordered(key, InOrder(t)) == true && cmp(key, t.node.key) == 0
      requires AllBelow(cmp, InOrder(t.left), key) == true
      modifies this`root, s
      ensures Holds(s - {t.node}, t', InOrder(t.left) + InOrder(t.right)) && Cuts(cmp, key, t, t', rounds) == true
    {
      CutOut(s, t);
      OrderedLeft(key, t);
      t', rounds := CutRoot(key, t.left, Members(t.left), t.right, Members(t.right));
    }

    ghost method Keep(s: set<Node>, t: Bst, e: seq<Node>)
      requires Holds(s, t, e) && Sorted(cmp, e) == true
      modifies this`tree, this`nodes
      ensures Valid() && tree == t && nodes == s && InOrder(tree) == e
    {
      tree, nodes := t, s;
    }

    method RemoveRoot(key: int) returns (ghost rounds: nat)
      requires Valid() && tree.Fork? && Ordered(key, InOrder(tree)) == true && cmp(key, tree.node.key) == 0
      requires AllBelow(cmp, InOrder(tree.left), key) == true
      modifies this`root, this`tree, this`nodes, nodes
      ensures Valid() && nodes == old(nodes) - {old(tree).node}
      ensures DropsOne(old(InOrder(tree)), old(tree).node, InOrder(tree))
      ensures Cuts(cmp, key, old(tree), tree, rounds) == true
    {
      ghost var t, rest := tree, nodes - {tree.node};
      RootDrops(t);
      ghost var t';
      t', rounds := CutTree(key, nodes, t);
      Keep(rest, t', InOrder(t.left) + InOrder(t.right));
    }

    /** Completes a removal: the splay of `t` took `n` rounds and has brought the key to the root. */
    method RemoveSplayed(key: int, ghost t: Bst, ghost n: nat) returns (ghost rounds: nat)
      requires Valid() && tree.Fork? && Ordered(key, InOrder(tree)) == true && cmp(key, tree.node.key) == 0
      requires AllBelow(cmp, InOrder(tree.left), key) == true && Splays(cmp, key, t, tree, n) == true
      modifies this`root, this`tree, this`nodes, nodes
      ensures Valid() && nodes == old(nodes) - {old(tree).node}
      ensures DropsOne(old(InOrder(tree)), old(tree).node, InOrder(tree))
      ensures Does(cmp, Delete(key), t, tree, rounds) == true
    {
      ghost var u := tree;
      ghost var more := RemoveRoot(key);
      CutDoes(cmp, key, t, u, n, tree, more);
      rounds := n + more;
    }

    method RemoveEqual(elm: Node) returns (r: Node?, ghost was: Node?, ghost rounds: nat)
      requires Valid() && OrderOn(cmp, Keys(InOrder(tree)) + {elm.key})
      modifies this`root, this`tree, this`nodes, nodes
      ensures Valid() && r == if was == null then null else elm
      ensures was == null <==> Missing(cmp, old(InOrder(tree)), elm.key)
      ensures was == null ==> InOrder(tree) == old(InOrder(tree)) && nodes == old(nodes)
      ensures was != null ==> was in old(InOrder(tree)) && cmp(elm.key, was.key) == 0
      ensures was != null ==> DropsOne(old(InOrder(tree)), was, InOrder(tree)) && nodes == old(nodes) - {was}
      ensures Does(cmp, Delete(elm.key), old(tree), tree, rounds) == true
    {
      RootLinks(Snap(nodes), tree, root);
      if root == null {
        EmptyDoes(cmp, elm.key, elm);
        return null, null, 0;
      }
      ghost var t := tree;
      rounds := Splay(elm.key);
      RootDecides(elm.key);
      if cmp(elm.key, root.key) == 0 {
        was := root;
        rounds := RemoveSplayed(elm.key, t, rounds);
        return elm, was, rounds;
      }
      SplayDoes(cmp, elm.key, t, tree, rounds);
      return null, null, rounds;
    }

    /** In a sorted sequence the node with the key of `elm` is `elm` itself exactly when that is there. */
    lemma {:induction false} OnlyItself(e: seq<Node>, elm: Node, was: Node)
      requires Sorted(cmp, e) && OrderOn(cmp, Keys(e) + {elm.key}) && was in e && cmp(elm.key, was.key) == 0
      ensures was == elm <==> elm in e
    {
      assert was.key in Keys(e) + {elm.key} && elm.key in Keys(e) + {elm.key};
      if elm in e {
        var i, j :| 0 <= i < |e| && 0 <= j < |e| && e[i] == was && e[j] == elm;
        assert elm.key == was.key;
      }
    }

    /**
     Answers its argument when a node `was` with that key was in the tree. That is the node it took out iff the
     argument was itself in the tree.
     */
    method Remove(elm: Node) returns (r: Node?, ghost was: Node?, ghost rounds: nat)
      requires Valid() && OrderOn(cmp, Keys(InOrder(tree)) + {elm.key})
      modifies this`root, this`tree, this`nodes, nodes
      ensures Valid() && r == if was == null then null else elm
      ensures was == null <==> Missing(cmp, old(InOrder(tree)), elm.key)
      ensures was == null ==> InOrder(tree) == old(InOrder(tree)) && nodes == old(nodes)
      ensures was != null ==> was in old(InOrder(tree)) && cmp(elm.key, was.key) == 0
      ensures was != null ==> DropsOne(old(InOrder(tree)), was, InOrder(tree)) && nodes == old(nodes) - {was}
      ensures was != null ==> (r == was <==> elm in old(nodes))
      ensures Does(cmp, Delete(elm.key), old(tree), tree, rounds) == true
    {
      ghost var e, t := InOrder(tree), tree;
      InOrderMembers(t, elm);
      r, was, rounds := RemoveEqual(elm);
      if was != null {
        OnlyItself(e, elm, was);
      }
    }

    // ---------- the least and the greatest node ----------

    /** One round of the loop on the way to the least node. */
    method GoLeast(ghost comp: int, right: Node, ghost s: set<Node>, ghost d: Node, ghost t: Bst, ghost hi: Spine,
                   ghost e: seq<Node>)
      returns (stop: bool, end: Node, ghost t': Bst, ghost hi': Spine)
      requires Mid(s, d, None, t, hi, e) && right == Tail(hi, d) && comp < 0
      modifies this`root, s
      ensures Mid(s, d, None, t', hi', e) && end == Tail(hi', d)
      ensures stop ==> t'.left.Tip?
      ensures !stop ==> Size(t') < Size(t)
      ensures Rounded(Toward(comp), 0, None, t, hi, stop, None, t', hi') == true
    {
      Look(s, d, None, t, hi, e);
      LeftRound(Toward(comp), 0, None, t, hi);
      t', hi', end := t, hi, right;
      var tmp := root.left;
      if tmp == null {
        return true, end, t', hi';
      }
      t' := RotateRightAt(tmp, s, d, None, t, hi, e);
      Look(s, d, None, t', hi, e);
      if root.left == null {
        return true, end, t', hi';
      }
      end := LinkLeftAt(right, s, d, None, t', hi, e);
      hi' := More(hi, t'.node, t'.right);
      t' := t'.left;
      stop := false;
    }

    /** One round of the loop on the way to the greatest node. */
    method GoGreatest(ghost comp: int, left: Node, ghost s: set<Node>, ghost d: Node, ghost lo: Spine, ghost t: Bst,
                      ghost e: seq<Node>)
      returns (stop: bool, end: Node, ghost t': Bst, ghost lo': Spine)
      requires Mid(s, d, lo, t, None, e) && left == Tail(lo, d) && comp > 0
      modifies this`root, s
      ensures Mid(s, d, lo', t', None, e) && end == Tail(lo', d)
      ensures stop ==> t'.right.Tip?
      ensures !stop ==> Size(t') < Size(t)
      ensures Rounded(Toward(comp), 0, lo, t, None, stop, lo', t', None) == true
    {
      Look(s, d, lo, t, None, e);
      RightRound(Toward(comp), 0, lo, t, None);
      t', lo', end := t, lo, left;
      var tmp := root.right;
      if tmp == null {
        return true, end, t', lo';
      }
      t' := RotateLeftAt(tmp, s, d, lo, t, None, e);
      Look(s, d, lo, t', None, e);
      if root.right == null {
        return true, end, t', lo';
      }
      end := LinkRightAt(left, s, d, lo, t', None, e);
      lo' := More(lo, t'.node, t'.left);
      t' := t'.right;
      stop := false;
    }

    method MinMaxAt(comp: int, ghost s: set<Node>, ghost t: Bst, ghost e: seq<Node>)
      returns (ghost t': Bst, ghost rounds: nat)
      requires Holds(s, t, e) && t.Fork? && comp != 0
      modifies this`root, s
      ensures Holds(s, t', e) && t'.Fork? && if comp < 0 then t'.left.Tip? else t'.right.Tip?
      ensures Splays(Toward(comp), 0, t, t', rounds) == true
    {
      var node := new Node(0, 0);
      node.left, node.right := null, null;
      ghost var all := s + {node};
      Begin(s, t, e, node);
      WayStarts(Toward(comp), 0, t);
      var left, right := node, node;
      ghost var lo, hi, u := None, None, t;
      rounds := 0;
      while true
        invariant Mid(all, node, lo, u, hi, e) && left == Tail(lo, node) && right == Tail(hi, node)
        invariant if comp < 0 then lo.None? else hi.None?
        invariant OnWay(Toward(comp), 0, t, lo, u, hi, rounds) == true
        decreases Size(u)
      {
        var stop;
        ghost var lo0, u0, hi0 := lo, u, hi;
        if comp < 0 {
          stop, right, u, hi := GoLeast(comp, right, all, node, u, hi, e);
        } else {
          stop, left, u, lo := GoGreatest(comp, left, all, node, lo, u, e);
        }
        WayGoes(Toward(comp), 0, t, lo0, u0, hi0, rounds, stop, lo, u, hi);
        rounds := rounds + 1;
        if stop {
          break;
        }
      }
      t' := Assemble(node, left, right, all, lo, u, hi, e);
      InOrderEmpty(t'.left);
      InOrderEmpty(t'.right);
      assert all - {node} == s;
    }

    /** Brings the least (`comp` negative) or the greatest node to the root. */
    method MinMax(comp: int) returns (r: Node?, ghost rounds: nat)
      requires Valid() && comp != 0
      modifies this`root, this`tree, nodes
      ensures Valid() && InOrder(tree) == old(InOrder(tree)) && r == root
      ensures Does(cmp, Extreme(comp), old(tree), tree, rounds) == true
      ensures r == if comp < 0 then First(InOrder(tree)) else Last(InOrder(tree))
    {
      ghost var t, e := tree, InOrder(tree);
      RootLinks(Snap(nodes), t, root);
      if root == null {
        return null, 0;
      }
      ghost var u;
      u, rounds := MinMaxAt(comp, nodes, t, e);
      RootLinks(Snap(nodes), u, root);
      ExtremeDoes(cmp, comp, t, u, rounds);
      Reshape(u, e);
      r := root;
    }

    // ---------- traversal ----------

    /** The leftmost node below `elm`. */
    method Leftmost(elm: Node, ghost t: Bst) returns (r: Node)
      requires t.Fork? && t.node == elm && Members(t) <= nodes && Spells(Snap(nodes), t, elm)
      ensures r == First(InOrder(t))
    {
      r := elm;
      ghost var u := t;
      while r.left != null
        invariant u.Fork? && u.node == r && Members(u) <= nodes && Spells(Snap(nodes), u, r)
        invariant First(InOrder(u)) == First(InOrder(t))
        decreases Size(u)
      {
        r := r.left;
        u := u.left;
        InOrderEmpty(u);
      }
    }

    /** Brings `elm` itself to the root. */
    method SplayTo(elm: Node)
      requires Valid() && elm in nodes && OrderOn(cmp, Keys(InOrder(tree))) == true
      modifies this`root, this`tree, nodes
      ensures Valid() && InOrder(tree) == old(InOrder(tree)) && tree.Fork? && tree.node == elm
    {
      InOrderMembers(tree, elm);
      RootLinks(Snap(nodes), tree, root);
      assert Keys(InOrder(tree)) + {elm.key} == Keys(InOrder(tree));
      ghost var rounds := Splay(elm.key);
      HitIsRoot(elm, InOrder(tree));
    }

    lemma {:induction false} HitIsRoot(elm: Node, e: seq<Node>)
      requires tree.Fork? && e == InOrder(tree) && elm in e && Sorted(cmp, e) && OrderOn(cmp, Keys(e))
      requires AllBelow(cmp, InOrder(tree.left), elm.key) && AllAbove(cmp, elm.key, InOrder(tree.right))
      ensures tree.node == elm
    {
      assert elm.key in Keys(e);
      assert cmp(elm.key, elm.key) == 0;
      assert elm !in InOrder(tree.left) && elm !in InOrder(tree.right);
    }

    /** The node after the root. */
    method Follow(elm: Node) returns (r: Node?)
      requires Holds(nodes, tree, InOrder(tree)) && tree.Fork? && tree.node == elm
      ensures r == First(InOrder(tree.right))
    {
      RootLinks(Snap(nodes), tree, root);
      if elm.right != null {
        r := Leftmost(elm.right, tree.right);
      } else {
        r := null;
      }
    }

    /** The node after `elm`. Splaying brings `elm` to the root on the way. */
    method Next(elm: Node) returns (r: Node?)
      requires Valid() && elm in nodes && OrderOn(cmp, Keys(InOrder(tree)))
      modifies this`root, this`tree, nodes
      ensures Valid() && InOrder(tree) == old(InOrder(tree))
      ensures FollowedBy(InOrder(tree), elm, r)
    {
      SplayTo(elm);
      RootFollowed(tree);
      r := Follow(elm);
    }

    lemma {:induction false} RootFollowed(t: Bst)
      requires t.Fork?
      ensures FollowedBy(InOrder(t), t.node, First(InOrder(t.right)))
    {
      var e, k := InOrder(t), |InOrder(t.left)|;
      assert e[k] == t.node && e[k + 1..] == InOrder(t.right);
    }

    /** The traversal has met the first `k` nodes of `e` and stands at `x`. */
    ghost predicate Reached(e: seq<Node>, k: int, x: Node?)
      reads this, nodes
    {
      && Valid() && InOrder(tree) == e && OrderOn(cmp, Keys(e)) == true
      && 0 <= k <= |e| && x == First(e[k..])
    }

    method Advance(x: Node, ghost e: seq<Node>, ghost k: int) returns (x': Node?)
      requires Reached(e, k, x) == true
      modifies this`root, this`tree, nodes
      ensures 0 <= k < |e| && e[..k] + [x] == e[..k + 1] && Reached(e, k + 1, x') == true
    {
      Here(e, k, x);
      Reflexive(e, x);
      PrefixGrows(e, k, x);
      x' := Next(x);
      NextHere(e, k, x, x');
    }

    lemma {:induction false} AtEnd(e: seq<Node>, k: int)
      requires Reached(e, k, null) == true
      ensures k == |e| && InOrder(tree) == e && Valid()
    {
    }

    method Start(ghost e: seq<Node>) returns (x: Node?)
      requires Valid() && e == InOrder(tree) && OrderOn(cmp, Keys(e)) == true
      modifies this`root, this`tree, nodes
      ensures Reached(e, 0, x) == true
    {
      ghost var rounds;
      x, rounds := MinMax(-1);
      assert e[0..] == e;
    }

    /** The rest of the loop, from the first node on. */
    method VisitFrom(first: Node?, ghost e: seq<Node>) returns (visited: seq<Node>)
      requires Reached(e, 0, first) == true
      modifies this`root, this`tree, nodes
      ensures Reached(e, |visited|, null) == true && |visited| <= |e| && visited == e[..|visited|]
    {
      visited := [];
      var x := first;
      while x != null
        invariant Reached(e, |visited|, x) == true && |visited| <= |e| && visited == e[..|visited|]
        decreases |e| - |visited|
      {
        var n: Node := x;
        x := Advance(n, e, |visited|);
        visited := visited + [n];
      }
    }

    /** The SPLAY_FOREACH loop, collecting the nodes it meets: every node once, in order. */
    method ForEach() returns (visited: seq<Node>)
      requires Valid() && OrderOn(cmp, Keys(InOrder(tree)))
      modifies this`root, this`tree, nodes
      ensures Valid() && visited == InOrder(tree) == old(InOrder(tree))
    {
      ghost var e := InOrder(tree);
      var x := Start(e);
      visited := VisitFrom(x, e);
      AtEnd(e, |visited|);
    }

    lemma {:induction false} Here(e: seq<Node>, k: int, n: Node)
      requires 0 <= k <= |e| && First(e[k..]) == n && e == InOrder(tree)
      ensures k < |e| && e[k] == n && n in e && n in Members(tree)
    {
      assert e[k] in e;
      InOrderMembers(tree, n);
    }

    lemma {:induction false} NextHere(e: seq<Node>, k: int, n: Node, r: Node?)
      requires 0 <= k < |e| && e[k] == n && Sorted(cmp, e) && cmp(n.key, n.key) == 0 && FollowedBy(e, n, r)
      ensures r == First(e[k + 1..])
    {
      var i :| 0 <= i < |e| && e[i] == n && r == First(e[i + 1..]);
      assert !(i < k) && !(k < i);
    }

    lemma {:induction false} Reflexive(e: seq<Node>, n: Node)
      requires n in e && OrderOn(cmp, Keys(e))
      ensures cmp(n.key, n.key) == 0
    {
      assert n.key in Keys(e);
    }

    lemma {:induction false} PrefixGrows(e: seq<Node>, k: int, n: Node)
      requires 0 <= k < |e| && e[k] == n
      ensures e[..k] + [n] == e[..k + 1]
    {
    }

    /** A call with a node that was never in the tree but has the key of one: that one goes, the other is answered. */
    method RemoveByCopy(stored: Node, copy: Node) returns (r: Node?)
      requires Valid() && stored in nodes && copy !in nodes && copy.key == stored.key
      requires OrderOn(cmp, Keys(InOrder(tree)))
      modifies this`root, this`tree, this`nodes, nodes
      ensures Valid() && r == copy && nodes == old(nodes) - {stored}
    {
      ghost var e := InOrder(tree);
      InOrderMembers(tree, stored);
      assert stored.key in Keys(e) && Keys(e) + {copy.key} == Keys(e);
      ghost var was, rounds;
      r, was, rounds := RemoveEqual(copy);
      KeyTells(e, stored, was);
    }

    lemma {:induction false} KeyTells(e: seq<Node>, stored: Node, was: Node?)
      requires Sorted(cmp, e) && OrderOn(cmp, Keys(e)) && stored in e
      requires was == null <==> Missing(cmp, e, stored.key)
      requires was != null ==> was in e && cmp(stored.key, was.key) == 0
      ensures was == stored
    {
      assert stored.key in Keys(e);
      if was != null {
        assert Keys(e) + {stored.key} == Keys(e);
        OnlyItself(e, stored, was);
      }
    }
  }
}
