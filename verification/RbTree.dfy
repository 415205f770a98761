/**
 Red-black trees over nodes that are linked to their children and to their parent.

 The methods carry ghost arguments: the set `s` of nodes, the focus `t` in its context `c`, and the
 in-order sequence `e` of the whole tree, which no rebalancing step may change.
 */
module RbTree {
  import opened RbShape
  import opened RbBalance
  import opened RbOrder

  class Head {
    const cmp: Compare
    var root: Node?
    ghost var tree: Tree
    ghost var nodes: set<Node>

    ghost predicate Valid()
      reads this, nodes
    {
      Linked() && Sorted(cmp, Elems(tree)) == true
    }

    /** A red-black tree in its nodes' links, whatever the keys. */
    ghost predicate Linked()
      reads this, nodes
    {
      Done(nodes, tree, Elems(tree))
    }

    /** The documented bound for every tree the code can build: the height is at most 2 lg(n+1). */
    lemma {:induction false} HeightInNodes()
      requires Linked()
      ensures Pow2((Height(tree) + 1) / 2) <= |nodes| + 1
    {
      HeightBound(tree);
      SizeIsNodes(tree);
    }

    constructor (cmp: Compare)
      ensures Valid() && this.cmp == cmp && tree == Nil && nodes == {}
    {
      this.cmp := cmp;
      root := null;
      tree := Nil;
      nodes := {};
    }

    // ---------- what the links spell out ----------
    // Comparing a predicate with `true` keeps the verifier from taking it apart at every check.

    ghost predicate At(s: set<Node>, c: Ctx, t: Tree, e: seq<Node>)
      reads this, s
    {
      s == NodesZ(c, t) && e == ElemsZ(c, t) && RepZ(Snap(s), root, c, t) == true
    }

    ghost predicate Done(s: set<Node>, t: Tree, e: seq<Node>)
      reads this, s
    {
      At(s, Top, t, e) && RedBlack(t) == true
    }

    ghost predicate InsAt(s: set<Node>, c: Ctx, t: Tree, e: seq<Node>, top: int)
      reads this, s
    {
      At(s, c, t, e) && t.T? && InsInv(c, t, top) == true
    }

    ghost predicate RemAt(s: set<Node>, c: Ctx, t: Tree, e: seq<Node>, top: int)
      reads this, s
    {
      At(s, c, t, e) && RemInv(c, t, top) == true
    }

    lemma {:induction false} Up(s: set<Node>, c: Ctx, t: Tree, e: seq<Node>)
      requires c.In?
      ensures At(s, c, t, e) <==> At(s, c.up, Mk(c.isLeft, t, c.node, c.red, c.sib), e)
    {
      ZipUp(Snap(s), root, c, t);
    }

    /** The same node seen from its other child. */
    lemma {:induction false} Across(s: set<Node>, c: Ctx, t: Tree, e: seq<Node>)
      requires c.In?
      ensures At(s, c, t, e) <==> At(s, In(c.up, !c.isLeft, c.node, c.red, t), c.sib, e)
    {
      Up(s, c, t, e);
      Up(s, In(c.up, !c.isLeft, c.node, c.red, t), c.sib, e);
    }

    lemma {:induction false} All(s: set<Node>, c: Ctx, t: Tree, e: seq<Node>)
      ensures At(s, c, t, e) <==> At(s, Top, Plug(c, t), e)
    {
      ZipPlug(Snap(s), root, c, t);
      assert ElemsZ(Top, Plug(c, t)) == Elems(Plug(c, t));
    }

    /** The link fields around a focus, as the code reads them. */
    lemma {:induction false} Read(s: set<Node>, c: Ctx, t: Tree, e: seq<Node>)
      requires At(s, c, t, e)
      ensures t.T? ==> t.node in s && t.node.left == Root(t.left) && t.node.right == Root(t.right)
      ensures t.T? ==> t.node.parent == Above(c) && t.node.red == t.red
      ensures c.Top? ==> root == Root(t)
      ensures c.In? ==> c.node in s && c.node.parent == Above(c.up) && c.node.red == c.red
      ensures c.In? ==> Root(t) == (if c.isLeft then c.node.left else c.node.right)
      ensures c.In? ==> Root(c.sib) == (if c.isLeft then c.node.right else c.node.left)
      ensures c.In? && t.T? ==> Root(c.sib) != t.node
    {
      Look(Snap(s), root, c, t);
    }

    // ---------- colour and rotation at a focus ----------

    method SetColor(n: Node, red: bool, ghost s: set<Node>, ghost c: Ctx, ghost t: Tree, ghost e: seq<Node>)
      requires t.T? && t.node == n && At(s, c, t, e)
      modifies s
      ensures At(s, c, Paint(t, red), e)
    {
      ghost var m := Snap(s);
      PaintElems(c, t, red);
      PaintRep(m, root, c, t, red);
      assert n in s;
      n.red := red;
      assert Snap(s) == PaintCell(m, n, red);
    }

    method RotateLeft(x: Node, ghost s: set<Node>)
      requires x in s && CanRotate(true, Snap(s), x)
      modifies this`root, s
      ensures IsRotation(true, old(Snap(s)), Snap(s), x)
      ensures root == if old(x.parent) == null then old(x.right) else old(root)
    {
      var tmp := x.right;
      x.right := tmp.left;
      if x.right != null {
        tmp.left.parent := x;
      }
      tmp.parent := x.parent;
      if tmp.parent != null {
        if x == x.parent.left {
          x.parent.left := tmp;
        } else {
          x.parent.right := tmp;
        }
      } else {
        root := tmp;
      }
      tmp.left := x;
      x.parent := tmp;
    }

    method RotateRight(x: Node, ghost s: set<Node>)
      requires x in s && CanRotate(false, Snap(s), x)
      modifies this`root, s
      ensures IsRotation(false, old(Snap(s)), Snap(s), x)
      ensures root == if old(x.parent) == null then old(x.left) else old(root)
    {
      var tmp := x.left;
      x.left := tmp.right;
      if x.left != null {
        tmp.right.parent := x;
      }
      tmp.parent := x.parent;
      if tmp.parent != null {
        if x == x.parent.left {
          x.parent.left := tmp;
        } else {
          x.parent.right := tmp;
        }
      } else {
        root := tmp;
      }
      tmp.right := x;
      x.parent := tmp;
    }

    method Rotate(b: bool, x: Node, ghost s: set<Node>, ghost c: Ctx, ghost a: Tree, ghost xr: bool, ghost u: Tree,
        ghost y: Node, ghost yr: bool, ghost v: Tree, ghost e: seq<Node>)
      requires At(s, c, Unrotated(b, a, x, xr, u, y, yr, v), e)
      modifies this`root, s
      ensures At(s, c, Rotated(b, a, x, xr, u, y, yr, v), e)
    {
      ghost var m, r := Snap(s), root;
      RotatePossible(b, m, root, c, a, x, xr, u, y, yr, v);
      RotateElems(b, c, a, x, xr, u, y, yr, v);
      if b {
        RotateLeft(x, s);
      } else {
        RotateRight(x, s);
      }
      RotateRep(b, m, Snap(s), r, c, a, x, xr, u, y, yr, v);
    }

    // ---------- insertion ----------

    /** Parent and uncle turn black, the grandparent red and becomes the focus. */
    method RecolourUncle(parent: Node, gparent: Node, uncle: Node, ghost s: set<Node>, ghost c: Ctx, ghost t: Tree,
        ghost e: seq<Node>, ghost top: int)
      returns (ghost t': Tree)
      requires InsAt(s, c, t, e, top) && RedC(c) && c.up.In? && IsRed(c.up.sib)
      requires parent == c.node && gparent == c.up.node && uncle == c.up.sib.node
      modifies s
      ensures InsAt(s, c.up.up, t', e, top) && t'.node == gparent
    {
      ghost var g := c.up;
      ghost var p := Mk(c.isLeft, t, c.node, true, c.sib);
      InsRecolour(c, t, top);
      Up(s, c, t, e);
      Across(s, g, p, e);
      SetColor(uncle, false, s, In(g.up, !g.isLeft, g.node, g.red, p), g.sib, e);
      ghost var u := Paint(g.sib, false);
      Across(s, In(g.up, !g.isLeft, g.node, g.red, p), u, e);
      SetColor(parent, false, s, g.(sib := u), p, e);
      Up(s, g.(sib := u), Paint(p, false), e);
      SetColor(gparent, true, s, g.up, Mk(g.isLeft, Paint(p, false), g.node, g.red, u), e);
      t' := Mk(g.isLeft, Paint(p, false), g.node, true, u);
    }

    /** An inner grandchild is rotated outwards over its parent. */
    method RotateInner(b: bool, parent: Node, ghost s: set<Node>, ghost c: Ctx, ghost near: Tree, ghost n: Node,
        ghost far: Tree, ghost e: seq<Node>, ghost top: int)
      requires InsAt(s, c, Mk(b, near, n, true, far), e, top) && RedC(c) && c.up.In? && c.isLeft == !b &&
          parent == c.node
      modifies this`root, s
      ensures InsAt(s, In(c.up, b, n, true, far), Mk(b, c.sib, c.node, true, near), e, top)
    {
      ghost var t := Mk(b, near, n, true, far);
      InsInner(c, t, top, b, near, n, far);
      Up(s, c, t, e);
      Rotate(b, parent, s, c.up, c.sib, true, near, n, true, far, e);
      Up(s, In(c.up, b, n, true, far), Mk(b, c.sib, c.node, true, near), e);
    }

    /** The parent turns black, the grandparent red and is rotated down over its other child. */
    method RotateOuter(b: bool, parent: Node, gparent: Node, ghost s: set<Node>, ghost c: Ctx, ghost t: Tree,
        ghost e: seq<Node>, ghost top: int)
      requires InsAt(s, c, t, e, top) && RedC(c) && c.up.In? && c.isLeft == c.up.isLeft == b && !IsRed(c.up.sib)
      requires parent == c.node && gparent == c.up.node
      modifies this`root, s
      ensures InsAt(s, In(c.up.up, b, c.node, false, Mk(b, c.sib, c.up.node, true, c.up.sib)), t, e, top)
    {
      ghost var g := c.up;
      ghost var p := Mk(b, t, c.node, true, c.sib);
      InsOuter(c, t, top);
      Up(s, c, t, e);
      SetColor(parent, false, s, g, p, e);
      Up(s, g, Paint(p, false), e);
      SetColor(gparent, true, s, g.up, Mk(b, Paint(p, false), g.node, g.red, g.sib), e);
      Rotate(!b, gparent, s, g.up, g.sib, true, c.sib, c.node, false, t, e);
      Up(s, In(g.up, b, c.node, false, Mk(b, c.sib, g.node, true, g.sib)), t, e);
    }

    /** Below a red parent there is a grandparent, and its links show on which side the parent hangs. */
    lemma {:induction false} SeeGrandparent(s: set<Node>, c: Ctx, t: Tree, e: seq<Node>, top: int)
      requires InsAt(s, c, t, e, top) && RedC(c)
      ensures c.up.In? && c.up.node in s && c.node in s && c.node.parent == c.up.node
      ensures c.node == c.up.node.left <==> c.up.isLeft
      ensures Root(c.up.sib) == if c.up.isLeft then c.up.node.right else c.up.node.left
      ensures c.up.sib.T? ==> c.up.sib.node in s && c.up.sib.node.red == c.up.sib.red
      ensures c.isLeft ==> c.node.left == t.node && c.node.right != t.node
      ensures !c.isLeft ==> c.node.right == t.node && c.node.left != t.node
    {
      InsGrandparent(c, t, top);
      var p := Mk(c.isLeft, t, c.node, c.red, c.sib);
      Read(s, c, t, e);
      Up(s, c, t, e);
      Read(s, c.up, p, e);
      Across(s, c.up, p, e);
      Read(s, In(c.up.up, !c.up.isLeft, c.up.node, c.up.red, p), c.up.sib, e);
    }

    /** One iteration whose parent is the left child of the grandparent. */
    method InsertFixLeft(elm: Node, parent: Node, gparent: Node, ghost s: set<Node>, ghost c: Ctx, ghost t: Tree,
        ghost e: seq<Node>, ghost top: int)
      returns (elm': Node, ghost c': Ctx, ghost t': Tree)
      requires InsAt(s, c, t, e, top) && RedC(c) && c.up.In? && c.up.isLeft == true
      requires elm == t.node && parent == c.node && gparent == c.up.node
      modifies this`root, s
      ensures InsAt(s, c', t', e, top) && elm' == t'.node && Depth(c') < Depth(c)
    {
      SeeGrandparent(s, c, t, e, top);
      elm', c', t' := elm, c, t;
      var tmp := gparent.right;
      if tmp != null && tmp.red {
        t' := RecolourUncle(parent, gparent, tmp, s, c, t, e, top);
        c' := c.up.up;
        elm' := gparent;
      } else {
        var p := parent;
        if parent.right == elm {
          RotateInner(true, parent, s, c, t.left, elm, t.right, e, top);
          c', t' := In(c.up, true, elm, true, t.right), Mk(true, c.sib, parent, true, t.left);
          p, elm' := elm, parent;
        }
        RotateOuter(true, p, gparent, s, c', t', e, top);
        c' := In(c'.up.up, true, p, false, Mk(true, c'.sib, gparent, true, c'.up.sib));
      }
    }

    /** One iteration whose parent is the right child of the grandparent. */
    method InsertFixRight(elm: Node, parent: Node, gparent: Node, ghost s: set<Node>, ghost c: Ctx, ghost t: Tree,
        ghost e: seq<Node>, ghost top: int)
      returns (elm': Node, ghost c': Ctx, ghost t': Tree)
      requires InsAt(s, c, t, e, top) && RedC(c) && c.up.In? && c.up.isLeft == false
      requires elm == t.node && parent == c.node && gparent == c.up.node
      modifies this`root, s
      ensures InsAt(s, c', t', e, top) && elm' == t'.node && Depth(c') < Depth(c)
    {
      SeeGrandparent(s, c, t, e, top);
      elm', c', t' := elm, c, t;
      var tmp := gparent.left;
      if tmp != null && tmp.red {
        t' := RecolourUncle(parent, gparent, tmp, s, c, t, e, top);
        c' := c.up.up;
        elm' := gparent;
      } else {
        var p := parent;
        if parent.left == elm {
          RotateInner(false, parent, s, c, t.right, elm, t.left, e, top);
          c', t' := In(c.up, false, elm, true, t.left), Mk(false, c.sib, parent, true, t.right);
          p, elm' := elm, parent;
        }
        RotateOuter(false, p, gparent, s, c', t', e, top);
        c' := In(c'.up.up, false, p, false, Mk(false, c'.sib, gparent, true, c'.up.sib));
      }
    }

    method InsertColor(elm0: Node, ghost s: set<Node>, ghost c0: Ctx, ghost t0: Tree, ghost e: seq<Node>,
        ghost top: int) returns (ghost t': Tree)
      requires InsAt(s, c0, t0, e, top) && t0.node == elm0
      modifies this`root, s
      ensures Done(s, t', e)
    {
      var elm := elm0;
      ghost var c, t := c0, t0;
      Read(s, c, t, e);
      while elm.parent != null && elm.parent.red
        invariant InsAt(s, c, t, e, top) && elm == t.node && elm in s && elm.parent == Above(c)
        invariant c.In? ==> c.node in s && c.node.red == c.red
        decreases Depth(c)
      {
        var parent := elm.parent;
        SeeGrandparent(s, c, t, e, top);
        var gparent := parent.parent;
        if parent == gparent.left {
          elm, c, t := InsertFixLeft(elm, parent, gparent, s, c, t, e, top);
        } else {
          elm, c, t := InsertFixRight(elm, parent, gparent, s, c, t, e, top);
        }
        Read(s, c, t, e);
      }
      InsDone(c, t, top);
      All(s, c, t, e);
      t' := Plug(c, t);
      Read(s, Top, t', e);
      SetColor(root, false, s, Top, t', e);
      t' := Paint(t', false);
    }

    // ---------- search ----------

    /** Where a search for `key` has come to: everything passed over lies strictly on its own side. */
    ghost predicate Searching(key: int, c: Ctx, t: Tree)
      reads this
    {
      Plug(c, t) == tree && AllBelow(cmp, Pre(c), key) && AllAbove(cmp, key, Post(c))
    }

    lemma {:induction false} SearchStep(key: int, c: Ctx, t: Tree)
      requires Searching(key, c, t) && t.T? && Sorted(cmp, Elems(tree))
      requires OrderOn(cmp, Keys(Elems(tree)) + {key})
      ensures t.node in Elems(tree)
      ensures cmp(key, t.node.key) < 0 ==> Searching(key, In(c, true, t.node, t.red, t.right), t.left)
      ensures cmp(key, t.node.key) > 0 ==> Searching(key, In(c, false, t.node, t.red, t.left), t.right)
      ensures cmp(key, t.node.key) == 0 ==> FirstFrom(cmp, Elems(tree), key, t.node)
    {
      ElemsPlug(c, t);
      SearchSplit(c, t);
      var a := Pre(c) + Elems(t.left);
      SplitSorted(cmp, key, Elems(tree), a, t.node, Elems(t.right) + Post(c));
      if cmp(key, t.node.key) == 0 {
        SplitAt(a, t.node, Elems(t.right) + Post(c));
        FirstFromHit(cmp, Elems(tree), key, |a|);
      }
    }

    lemma {:induction false} SearchDown(s: set<Node>, c: Ctx, t: Tree, e: seq<Node>)
      requires At(s, c, t, e) && t.T?
      ensures t.node in s && t.node.left == Root(t.left) && t.node.right == Root(t.right)
      ensures At(s, In(c, true, t.node, t.red, t.right), t.left, e)
      ensures At(s, In(c, false, t.node, t.red, t.left), t.right, e)
    {
      Read(s, c, t, e);
      Up(s, In(c, true, t.node, t.red, t.right), t.left, e);
      Up(s, In(c, false, t.node, t.red, t.left), t.right, e);
    }

    lemma {:induction false} SearchDone(key: int, c: Ctx)
      requires Searching(key, c, Nil) && OrderOn(cmp, Keys(Elems(tree)) + {key})
      ensures Elems(tree) == Pre(c) + Post(c) && Missing(cmp, Elems(tree), key)
      ensures FirstFrom(cmp, Elems(tree), key, First(Post(c)))
    {
      ElemsPlug(c, Nil);
      assert ElemsZ(c, Nil) == Pre(c) + Post(c);
      MissingSplit(cmp, Pre(c), Post(c), key);
      FirstFromSplit(cmp, Pre(c), Post(c), key);
    }

    /** Finds the node whose key compares equal. */
    method Find(key: int) returns (r: Node?)
      requires Valid() && OrderOn(cmp, Keys(Elems(tree)))
      requires key !in Keys(Elems(tree)) ==> Missing(cmp, Elems(tree), key)
      ensures r != null ==> r in Elems(tree) && cmp(key, r.key) == 0
      ensures r == null ==> Missing(cmp, Elems(tree), key)
    {
      ghost var c, t, stored := Top, tree, key in Keys(Elems(tree));
      assert stored ==> Keys(Elems(tree)) + {key} == Keys(Elems(tree));
      var tmp := root;
      Read(nodes, c, t, Elems(tree));
      while tmp != null
        invariant tmp == Root(t) && At(nodes, c, t, Elems(tree)) && (stored ==> Searching(key, c, t))
        decreases t
      {
        if stored {
          SearchStep(key, c, t);
        }
        SearchDown(nodes, c, t, Elems(tree));
        var comp := cmp(key, tmp.key);
        if comp < 0 {
          tmp := tmp.left;
          c, t := In(c, true, t.node, t.red, t.right), t.left;
        } else if comp > 0 {
          tmp := tmp.right;
          c, t := In(c, false, t.node, t.red, t.left), t.right;
        } else {
          return tmp;
        }
      }
      if stored {
        SearchDone(key, c);
      }
      return null;
    }

    /** Finds the first node whose key is not before the given one. */
    method NFind(key: int) returns (r: Node?)
      requires Valid() && OrderOn(cmp, Keys(Elems(tree)) + {key})
      ensures FirstFrom(cmp, Elems(tree), key, r)
    {
      ghost var c, t := Top, tree;
      var tmp := root;
      var res: Node? := null;
      Read(nodes, c, t, Elems(tree));
      while tmp != null
        invariant tmp == Root(t) && At(nodes, c, t, Elems(tree)) && Searching(key, c, t)
        invariant res == First(Post(c))
        decreases t
      {
        SearchStep(key, c, t);
        SearchSplit(c, t);
        SearchDown(nodes, c, t, Elems(tree));
        var comp := cmp(key, tmp.key);
        if comp < 0 {
          res := tmp;
          tmp := tmp.left;
          c, t := In(c, true, t.node, t.red, t.right), t.left;
        } else if comp > 0 {
          tmp := tmp.right;
          c, t := In(c, false, t.node, t.red, t.left), t.right;
        } else {
          return tmp;
        }
      }
      SearchDone(key, c);
      return res;
    }

    // ---------- insertion from the root ----------

    /** The descent of an insertion: the equal node, or the place where `key` belongs. */
    method Descend(key: int) returns (found: Node?, parent: Node?, comp: int, ghost c: Ctx)
      requires Valid() && OrderOn(cmp, Keys(Elems(tree)) + {key})
      ensures found != null ==> found in Elems(tree) && cmp(key, found.key) == 0
      ensures found == null ==> Searching(key, c, Nil) && At(nodes, c, Nil, Elems(tree))
      ensures found == null ==> parent == Above(c) && (c.In? ==> (comp < 0 <==> c.isLeft))
    {
      ghost var t := tree;
      c := Top;
      var tmp := root;
      parent := null;
      comp := 0;
      Read(nodes, c, t, Elems(tree));
      while tmp != null
        invariant tmp == Root(t) && At(nodes, c, t, Elems(tree)) && Searching(key, c, t)
        invariant parent == Above(c) && (c.In? ==> (comp < 0 <==> c.isLeft))
        decreases t
      {
        SearchStep(key, c, t);
        SearchDown(nodes, c, t, Elems(tree));
        parent := tmp;
        comp := cmp(key, parent.key);
        if comp < 0 {
          tmp := tmp.left;
          c, t := In(c, true, t.node, t.red, t.right), t.left;
        } else if comp > 0 {
          tmp := tmp.right;
          c, t := In(c, false, t.node, t.red, t.left), t.right;
        } else {
          return tmp, parent, comp, c;
        }
      }
      found := null;
    }

    /** Hangs `elm`, red and childless, under `parent` on the side `comp` says. */
    method Attach(elm: Node, parent: Node?, comp: int, ghost s: set<Node>, ghost c: Ctx, ghost e: seq<Node>)
      requires At(s, c, Nil, e) && elm !in s
      requires parent == Above(c) && (c.In? ==> (comp < 0 <==> c.isLeft))
      modifies this`root, s, elm
      ensures At(s + {elm}, c, Leaf(elm), Pre(c) + [elm] + Post(c))
    {
      ghost var m, r := Snap(s), root;
      Look(m, root, c, Nil);
      elm.parent := parent;
      elm.left := null;
      elm.right := null;
      elm.red := true;
      if parent != null {
        if comp < 0 {
          parent.left := elm;
        } else {
          parent.right := elm;
        }
      } else {
        root := elm;
      }
      AttachRep(m, Snap(s + {elm}), r, c, elm);
    }

    lemma {:induction false} SpotFacts(elm: Node, c: Ctx)
      requires Valid() && OrderOn(cmp, Keys(Elems(tree)) + {elm.key}) && Searching(elm.key, c, Nil)
      ensures Missing(cmp, Elems(tree), elm.key) && elm !in nodes
      ensures Sorted(cmp, Pre(c) + [elm] + Post(c)) && AddsOne(Elems(tree), elm, Pre(c) + [elm] + Post(c))
      ensures InsInv(c, Leaf(elm), BH(tree))
    {
      SearchDone(elm.key, c);
      MissingSelf(cmp, Elems(tree), elm);
      ElemsAreNodes(tree, elm);
      RedBlackUnplug(c, Nil);
      SortedAdd(cmp, Pre(c), elm, Post(c));
      AddsOneAt(Pre(c), elm, Post(c));
    }

    method Graft(elm: Node, parent: Node?, comp: int, ghost c: Ctx)
      requires At(nodes, c, Nil, Elems(tree)) && elm !in nodes
      requires parent == Above(c) && (c.In? ==> (comp < 0 <==> c.isLeft)) && InsInv(c, Leaf(elm), BH(tree))
      modifies this`root, this`tree, this`nodes, nodes, elm
      ensures nodes == old(nodes) + {elm} && Elems(tree) == Pre(c) + [elm] + Post(c) && Done(nodes, tree, Elems(tree))
    {
      ghost var s := nodes + {elm};
      Attach(elm, parent, comp, nodes, c, Elems(tree));
      ghost var t := InsertColor(elm, s, c, Leaf(elm), Pre(c) + [elm] + Post(c), BH(tree));
      Settle(s, t, Pre(c) + [elm] + Post(c));
    }

    ghost method Settle(s: set<Node>, t: Tree, e: seq<Node>)
      requires Done(s, t, e)
      modifies this`tree, this`nodes
      ensures nodes == s && tree == t && Elems(tree) == e && Done(nodes, tree, Elems(tree))
    {
      ghost var m := Snap(s);
      assert ElemsZ(Top, t) == Elems(t);
      nodes, tree := s, t;
      assert Snap(nodes) == m;
    }

    method InsertAt(elm: Node, parent: Node?, comp: int, ghost c: Ctx)
      requires Valid() && OrderOn(cmp, Keys(Elems(tree)) + {elm.key}) && Searching(elm.key, c, Nil)
      requires At(nodes, c, Nil, Elems(tree)) && parent == Above(c) && (c.In? ==> (comp < 0 <==> c.isLeft))
      modifies this`root, this`tree, this`nodes, nodes, elm
      ensures Valid() && Missing(cmp, old(Elems(tree)), elm.key)
      ensures AddsOne(old(Elems(tree)), elm, Elems(tree)) && nodes == old(nodes) + {elm}
    {
      SpotFacts(elm, c);
      Graft(elm, parent, comp, c);
    }

    /** Adds `elm` unless some node's key compares equal to its key; that node is then returned. */
    method Insert(elm: Node) returns (r: Node?)
      requires Valid() && OrderOn(cmp, Keys(Elems(tree)) + {elm.key})
      modifies this`root, this`tree, this`nodes, nodes, elm
      ensures Valid()
      ensures r != null ==> r in old(Elems(tree)) && cmp(elm.key, r.key) == 0
      ensures r != null ==> unchanged(this) && unchanged(old(nodes)) && unchanged(elm)
      ensures r == null ==> Missing(cmp, old(Elems(tree)), elm.key)
      ensures r == null ==> AddsOne(old(Elems(tree)), elm, Elems(tree)) && nodes == old(nodes) + {elm}
    {
      var parent, comp;
      ghost var c;
      r, parent, comp, c := Descend(elm.key);
      if r == null {
        InsertAt(elm, parent, comp, c);
      }
    }

    // ---------- removal ----------

    /** The colours and links of the sibling, which is never missing. */
    lemma {:induction false} SeeSibling(s: set<Node>, c: Ctx, t: Tree, e: seq<Node>, top: int)
      requires RemAt(s, c, t, e, top) && c.In?
      ensures c.sib.T? && c.node in s && c.sib.node in s
      ensures c.sib.node == (if c.isLeft then c.node.right else c.node.left)
      ensures Root(t) == (if c.isLeft then c.node.left else c.node.right)
      ensures Root(t) != c.sib.node && c.sib.node.red == c.sib.red && c.node.red == c.red
      ensures c.sib.node.left == Root(c.sib.left) && c.sib.node.right == Root(c.sib.right)
      ensures c.sib.left.T? ==> c.sib.left.node in s && c.sib.left.node.red == c.sib.left.red
      ensures c.sib.right.T? ==> c.sib.right.node in s && c.sib.right.node.red == c.sib.right.red
    {
      RemSibling(c, t, top);
      Read(s, c, t, e);
      Across(s, c, t, e);
      var cs, x := In(c.up, !c.isLeft, c.node, c.red, t), c.sib;
      Read(s, cs, x, e);
      SearchDown(s, cs, x, e);
      Read(s, In(cs, true, x.node, x.red, x.right), x.left, e);
      Read(s, In(cs, false, x.node, x.red, x.left), x.right, e);
    }

    /** A red sibling is rotated above the parent, which leaves a black sibling. */
    method RedSibling(b: bool, tmp: Node, parent: Node, ghost s: set<Node>, ghost c: Ctx, ghost t: Tree,
        ghost near: Tree, ghost far: Tree, ghost e: seq<Node>, ghost top: int)
      returns (ghost c': Ctx)
      requires RemAt(s, c, t, e, top) && !IsRed(t) && c.In? && c.isLeft == b &&
          c.sib == Mk(b, near, tmp, true, far) && parent == c.node
      modifies this`root, s
      ensures c' == In(In(c.up, b, tmp, false, far), b, parent, true, near)
      ensures RemAt(s, c', t, e, top) && near.T? && !near.red
    {
      RemRedSibling(c, t, top, near, tmp, far);
      ghost var cs := In(c.up, !b, parent, c.red, t);
      Across(s, c, t, e);
      SetColor(tmp, false, s, cs, c.sib, e);
      ghost var w := Mk(b, near, tmp, false, far);
      Up(s, cs, w, e);
      SetColor(parent, true, s, c.up, Mk(b, t, parent, c.red, w), e);
      Rotate(b, parent, s, c.up, t, true, near, tmp, false, far, e);
      c' := In(In(c.up, b, tmp, false, far), b, parent, true, near);
      Up(s, c', t, e);
      Up(s, c'.up, Mk(b, t, parent, true, near), e);
    }

    /** A black sibling with black children turns red; the parent becomes the short subtree. */
    method BlackSibling(tmp: Node, ghost s: set<Node>, ghost c: Ctx, ghost t: Tree, ghost e: seq<Node>, ghost top: int)
      requires RemAt(s, c, t, e, top) && !IsRed(t) && c.In? && c.sib.T? && c.sib.node == tmp && !c.sib.red
      requires !IsRed(c.sib.left) && !IsRed(c.sib.right)
      modifies s
      ensures RemAt(s, c.up, Mk(c.isLeft, t, c.node, c.red, Paint(c.sib, true)), e, top)
    {
      RemRecolour(c, t, top);
      ghost var cs := In(c.up, !c.isLeft, c.node, c.red, t);
      Across(s, c, t, e);
      SetColor(tmp, true, s, cs, c.sib, e);
      Up(s, cs, Paint(c.sib, true), e);
    }

    /** The sibling's near red child is rotated above the sibling. */
    method NearRed(b: bool, tmp: Node, ghost s: set<Node>, ghost c: Ctx, ghost t: Tree, ghost near: Tree,
        ghost far: Tree, ghost e: seq<Node>, ghost top: int)
      returns (ghost c': Ctx)
      requires RemAt(s, c, t, e, top) && c.In? && c.isLeft == b && c.sib == Mk(b, near, tmp, false, far) &&
          IsRed(near) && !IsRed(far)
      modifies this`root, s
      ensures c'.In? && c' == c.(sib := c'.sib) && c'.sib.T? && !c'.sib.red
      ensures IsRed(if b then c'.sib.right else c'.sib.left)
      ensures RemAt(s, c', t, e, top)
    {
      ghost var nn, nf := if b then near.left else near.right, if b then near.right else near.left;
      RemNearRed(c, t, top, nn, near.node, nf, tmp, far);
      ghost var cs := In(c.up, !b, c.node, c.red, t);
      ghost var cn := In(cs, b, tmp, false, far);
      Across(s, c, t, e);
      Up(s, cn, near, e);
      Read(s, cn, near, e);
      var inner := if b then tmp.left else tmp.right;
      SetColor(inner, false, s, cn, near, e);
      Up(s, cn, Paint(near, false), e);
      SetColor(tmp, true, s, cs, Mk(b, Paint(near, false), tmp, false, far), e);
      Rotate(!b, tmp, s, cs, far, true, nf, near.node, false, nn, e);
      c' := c.(sib := Mk(b, nn, near.node, false, Mk(b, nf, tmp, true, far)));
      Across(s, cs, c'.sib, e);
    }

    /** The sibling's far red child turns black and the sibling is rotated above the parent, in its colour. */
    method FarRed(b: bool, tmp: Node, parent: Node, ghost s: set<Node>, ghost c: Ctx, ghost t: Tree,
        ghost near: Tree, ghost far: Tree, ghost e: seq<Node>, ghost top: int)
      returns (ghost t': Tree)
      requires RemAt(s, c, t, e, top) && !IsRed(t) && c.In? && c.isLeft == b &&
          c.sib == Mk(b, near, tmp, false, far) && IsRed(far) && parent == c.node
      modifies this`root, s
      ensures Done(s, t', e)
    {
      RemFarRed(c, t, top, near, tmp, far);
      SeeSibling(s, c, t, e, top);
      ghost var cs := In(c.up, !b, parent, c.red, t);
      Across(s, c, t, e);
      SetColor(tmp, parent.red, s, cs, c.sib, e);
      ghost var w := Mk(b, near, tmp, c.red, far);
      Up(s, cs, w, e);
      SetColor(parent, false, s, c.up, Mk(b, t, parent, c.red, w), e);
      FarBlack(b, tmp, s, c, t, near, far, e);
      Rotate(b, parent, s, c.up, t, false, near, tmp, c.red, Paint(far, false), e);
      t' := Mk(b, Mk(b, t, parent, false, near), tmp, c.red, Paint(far, false));
      All(s, c.up, t', e);
      t' := Plug(c.up, t');
    }

    method FarBlack(b: bool, tmp: Node, ghost s: set<Node>, ghost c: Ctx, ghost t: Tree, ghost near: Tree,
        ghost far: Tree, ghost e: seq<Node>)
      requires c.In? && far.T? && At(s, c.up, Mk(b, t, c.node, false, Mk(b, near, tmp, c.red, far)), e)
      modifies s
      ensures At(s, c.up, Mk(b, t, c.node, false, Mk(b, near, tmp, c.red, Paint(far, false))), e)
    {
      ghost var cw := In(c.up, !b, c.node, false, t);
      ghost var cf := In(cw, !b, tmp, c.red, near);
      Up(s, cw, Mk(b, near, tmp, c.red, far), e);
      Up(s, cf, far, e);
      Read(s, cf, far, e);
      var f := if b then tmp.right else tmp.left;
      if f != null {
        SetColor(f, false, s, cf, far, e);
      }
      Up(s, cf, Paint(far, false), e);
      Up(s, cw, Mk(b, near, tmp, c.red, Paint(far, false)), e);
    }

    /** The loop's two pointers: the short subtree, which may be empty, and the node above it. */
    ghost predicate Hangs(elm: Node?, parent: Node?, s: set<Node>, c: Ctx, t: Tree)
      reads this, s
    {
      && elm == Root(t) && (c.In? ==> parent == c.node)
      && (t.T? ==> t.node in s && t.node.red == t.red)
      && (c.Top? <==> elm == root)
    }

    lemma {:induction false} SeeHanging(s: set<Node>, c: Ctx, t: Tree, e: seq<Node>)
      requires At(s, c, t, e)
      ensures Hangs(Root(t), Above(c), s, c, t)
      ensures t.T? ==> t.node in s && t.node.parent == Above(c)
    {
      Read(s, c, t, e);
      if c.In? {
        RootAbove(Snap(s), root, c, Root(t));
        RootInNodes(t);
      }
    }

    lemma {:induction false} DoneIsRem(s: set<Node>, t: Tree, e: seq<Node>, top: int)
      requires Done(s, t, e)
      ensures RemAt(s, Top, t, e, top)
    {
      PaintNoRR(t);
    }

    ghost function RemMeasure(c: Ctx, t: Tree): nat
    {
      2 * Depth(c) + (if IsRed(t) then 0 else 1)
    }

    /** The short side is on the left and the sibling `tmp0` is black. */
    method BlackFixLeft(parent: Node, tmp0: Node, ghost s: set<Node>, ghost c0: Ctx, ghost t0: Tree,
        ghost e: seq<Node>, ghost top: int)
      returns (elm': Node?, parent': Node?, ghost c: Ctx, ghost t: Tree)
      requires RemAt(s, c0, t0, e, top) && !IsRed(t0) && c0.In? && c0.isLeft == true && c0.node == parent
      requires c0.sib.T? && c0.sib.node == tmp0 && !c0.sib.red
      modifies this`root, s
      ensures RemAt(s, c, t, e, top) && Hangs(elm', parent', s, c, t)
      ensures c.Top? || (c == c0.up && IsRed(t) == c0.red)
    {
      c, t := c0, t0;
      SeeSibling(s, c, t, e, top);
      var tmp := tmp0;
      if (tmp.left == null || !tmp.left.red) && (tmp.right == null || !tmp.right.red) {
        BlackSibling(tmp, s, c, t, e, top);
        c, t := c.up, Mk(true, t, parent, c.red, Paint(c.sib, true));
        elm' := parent;
        SeeHanging(s, c, t, e);
        parent' := elm'.parent;
      } else {
        if tmp.right == null || !tmp.right.red {
          c := NearRed(true, tmp, s, c, t, c.sib.left, c.sib.right, e, top);
          SeeSibling(s, c, t, e, top);
          tmp := parent.right;
        }
        t := FarRed(true, tmp, parent, s, c, t, c.sib.left, c.sib.right, e, top);
        c := Top;
        DoneIsRem(s, t, e, top);
        SeeHanging(s, c, t, e);
        elm', parent' := root, parent;
      }
    }

    /** One iteration with the short side on the left. */
    method RemoveFixLeft(parent: Node, ghost s: set<Node>, ghost c0: Ctx, ghost t: Tree, ghost e: seq<Node>,
        ghost top: int)
      returns (elm': Node?, parent': Node?, ghost c': Ctx, ghost t': Tree)
      requires RemAt(s, c0, t, e, top) && !IsRed(t) && c0.In? && c0.isLeft == true && c0.node == parent
      modifies this`root, s
      ensures RemAt(s, c', t', e, top) && Hangs(elm', parent', s, c', t') && RemMeasure(c', t') < RemMeasure(c0, t)
    {
      ghost var c := c0;
      SeeSibling(s, c, t, e, top);
      var tmp: Node := parent.right;
      if tmp.red {
        c := RedSibling(true, tmp, parent, s, c, t, c.sib.left, c.sib.right, e, top);
        SeeSibling(s, c, t, e, top);
        tmp := parent.right;
      }
      elm', parent', c', t' := BlackFixLeft(parent, tmp, s, c, t, e, top);
    }

    /** The short side is on the right and the sibling `tmp0` is black. */
    method BlackFixRight(parent: Node, tmp0: Node, ghost s: set<Node>, ghost c0: Ctx, ghost t0: Tree,
        ghost e: seq<Node>, ghost top: int)
      returns (elm': Node?, parent': Node?, ghost c: Ctx, ghost t: Tree)
      requires RemAt(s, c0, t0, e, top) && !IsRed(t0) && c0.In? && c0.isLeft == false && c0.node == parent
      requires c0.sib.T? && c0.sib.node == tmp0 && !c0.sib.red
      modifies this`root, s
      ensures RemAt(s, c, t, e, top) && Hangs(elm', parent', s, c, t)
      ensures c.Top? || (c == c0.up && IsRed(t) == c0.red)
    {
      c, t := c0, t0;
      SeeSibling(s, c, t, e, top);
      var tmp := tmp0;
      if (tmp.left == null || !tmp.left.red) && (tmp.right == null || !tmp.right.red) {
        BlackSibling(tmp, s, c, t, e, top);
        c, t := c.up, Mk(false, t, parent, c.red, Paint(c.sib, true));
        elm' := parent;
        SeeHanging(s, c, t, e);
        parent' := elm'.parent;
      } else {
        if tmp.left == null || !tmp.left.red {
          c := NearRed(false, tmp, s, c, t, c.sib.right, c.sib.left, e, top);
          SeeSibling(s, c, t, e, top);
          tmp := parent.left;
        }
        t := FarRed(false, tmp, parent, s, c, t, c.sib.right, c.sib.left, e, top);
        c := Top;
        DoneIsRem(s, t, e, top);
        SeeHanging(s, c, t, e);
        elm', parent' := root, parent;
      }
    }

    /** One iteration with the short side on the right. */
    method RemoveFixRight(parent: Node, ghost s: set<Node>, ghost c0: Ctx, ghost t: Tree, ghost e: seq<Node>,
        ghost top: int)
      returns (elm': Node?, parent': Node?, ghost c': Ctx, ghost t': Tree)
      requires RemAt(s, c0, t, e, top) && !IsRed(t) && c0.In? && c0.isLeft == false && c0.node == parent
      modifies this`root, s
      ensures RemAt(s, c', t', e, top) && Hangs(elm', parent', s, c', t') && RemMeasure(c', t') < RemMeasure(c0, t)
    {
      ghost var c := c0;
      SeeSibling(s, c, t, e, top);
      var tmp: Node := parent.left;
      if tmp.red {
        c := RedSibling(false, tmp, parent, s, c, t, c.sib.right, c.sib.left, e, top);
        SeeSibling(s, c, t, e, top);
        tmp := parent.left;
      }
      elm', parent', c', t' := BlackFixRight(parent, tmp, s, c, t, e, top);
    }

    method RemoveColor(parent0: Node?, elm0: Node?, ghost s: set<Node>, ghost c0: Ctx, ghost t0: Tree,
        ghost e: seq<Node>, ghost top: int) returns (ghost t': Tree)
      requires RemAt(s, c0, t0, e, top) && Hangs(elm0, parent0, s, c0, t0)
      modifies this`root, s
      ensures Done(s, t', e)
    {
      var elm, parent := elm0, parent0;
      ghost var c, t := c0, t0;
      while (elm == null || !elm.red) && elm != root
        invariant RemAt(s, c, t, e, top) && Hangs(elm, parent, s, c, t)
        decreases RemMeasure(c, t)
      {
        SeeSibling(s, c, t, e, top);
        if parent.left == elm {
          elm, parent, c, t := RemoveFixLeft(parent, s, c, t, e, top);
        } else {
          elm, parent, c, t := RemoveFixRight(parent, s, c, t, e, top);
        }
      }
      RemDone(c, t, top);
      if elm != null {
        SetColor(elm, false, s, c, t, e);
      }
      t' := Plug(c, Paint(t, false));
      All(s, c, Paint(t, false), e);
    }

    /** The assignments that put `child` where `elm` hangs. */
    method Unlink(elm: Node, child: Node?, parent: Node?, ghost s: set<Node>)
      requires elm in s && elm.parent == parent && (child != null ==> child in s && child != elm && child != parent)
      requires parent != null ==> parent in s && parent != elm
      modifies this`root, s - {elm}
      ensures IsSplice(old(Snap(s)), Snap(s), elm, child, parent)
      ensures root == if parent == null then child else old(root)
    {
      if child != null {
        child.parent := parent;
      }
      if parent != null {
        if parent.left == elm {
          parent.left := child;
        } else {
          parent.right := child;
        }
      } else {
        root := child;
      }
    }

    /** `child`, the only child of `elm` if it has one, takes the place of `elm`. */
    method Splice(elm: Node, child: Node?, parent: Node?, ghost s: set<Node>, ghost c: Ctx, ghost t: Tree,
        ghost ch: Tree, ghost e: seq<Node>)
      requires At(s, c, t, e) && t.T? && t.node == elm && child == Root(ch) && parent == Above(c)
      requires (t.left.Nil? && ch == t.right) || (t.right.Nil? && ch == t.left)
      modifies this`root, s - {elm}
      ensures At(s - {elm}, c, ch, ElemsZ(c, ch))
    {
      ghost var m, r := Snap(s), root;
      Read(s, c, t, e);
      SpliceNodes(c, t, ch);
      Unlink(elm, child, parent, s);
      SpliceRep(m, Snap(s), r, c, t, ch);
      Restrict(Snap(s), Snap(s - {elm}), root, c, ch);
    }

    /** The assignments that put `x` where `was` hangs. */
    method TakeOver(x: Node, was: Node, ghost s: set<Node>)
      requires was in s && x !in s && was.left != null && was.left in s && was.left != was && was.left != was.right
      requires was.right != null ==> was.right in s && was.right != was
      requires was.parent != null ==> was.parent in s && was.parent != was
      requires was.parent != null ==> was.parent != was.left && was.parent != was.right
      modifies this`root, s, x
      ensures IsReplace(old(Snap(s)), Snap(s + {x}), x, was)
      ensures root == if old(was.parent) == null then x else old(root)
    {
      x.left, x.right, x.parent, x.red := was.left, was.right, was.parent, was.red;
      if was.parent != null {
        if was.parent.left == was {
          was.parent.left := x;
        } else {
          was.parent.right := x;
        }
      } else {
        root := x;
      }
      was.left.parent := x;
      if was.right != null {
        was.right.parent := x;
      }
    }

    /** `x` takes over the links and the colour of `was`, and the links to it. */
    method Replace(x: Node, was: Node, ghost s: set<Node>, ghost s': set<Node>, ghost c: Ctx, ghost t: Tree,
        ghost e: seq<Node>)
      requires At(s, c, t, e) && t.T? && t.node == was && t.left.T? && x !in s && s' == s - {was} + {x}
      modifies this`root, s, x
      ensures At(s', c, t.(node := x), ElemsZ(c, t.(node := x)))
    {
      ghost var m, r := Snap(s), root;
      Read(s, c, t, e);
      ReplaceNodes(c, t, x);
      TakeOver(x, was, s);
      ReplaceRep(m, Snap(s + {x}), r, c, t, x);
      Restrict(Snap(s + {x}), Snap(s'), root, c, t.(node := x));
    }

    /** After `child` has taken the place of a node of colour `red`, the colours are put right. */
    method Recolour(parent: Node?, child: Node?, red: bool, ghost s: set<Node>, ghost c: Ctx, ghost ch: Tree,
        ghost e: seq<Node>, ghost top: int)
      requires At(s, c, ch, e) && child == Root(ch) && (c.In? ==> parent == c.node) && Spliced(c, ch, red, top)
      modifies this`root, this`tree, this`nodes, s
      ensures nodes == s && Elems(tree) == e && Done(nodes, tree, Elems(tree))
    {
      ghost var t';
      if !red {
        SeeHanging(s, c, ch, e);
        t' := RemoveColor(parent, child, s, c, ch, e, top);
      } else {
        RedBlackPlug(c, ch, top);
        All(s, c, ch, e);
        t' := Plug(c, ch);
      }
      Settle(s, t', e);
    }

    /** Takes out a node with at most one child. */
    method RemoveThin(elm: Node, child: Node?, ghost c: Ctx, ghost t: Tree, ghost ch: Tree)
      requires At(nodes, c, t, Elems(tree)) && t.T? && t.node == elm && child == Root(ch) && Plug(c, t) == tree &&
          RedBlack(tree)
      requires (t.left.Nil? && ch == t.right) || (t.right.Nil? && ch == t.left)
      modifies this`root, this`tree, this`nodes, nodes
      ensures nodes == old(nodes) - {elm} && Elems(tree) == Without(c, t) && Done(nodes, tree, Elems(tree))
    {
      ThinElems(c, t, ch);
      Read(nodes, c, t, Elems(tree));
      var parent := elm.parent;
      var color := elm.red;
      SpliceColour(c, t, ch);
      ghost var top := BH(tree);
      Splice(elm, child, parent, nodes, c, t, ch, Elems(tree));
      Recolour(parent, child, color, nodes - {elm}, c, ch, ElemsZ(c, ch), top);
    }

    /** The leftmost node right of `elm`. */
    method Successor(elm: Node, ghost c: Ctx, ghost t: Tree) returns (x: Node, ghost rel: Ctx, ghost ti: Tree)
      requires At(nodes, c, t, Elems(tree)) && t.T? && t.node == elm && t.right.T?
      ensures AllLeft(rel) && ti.T? && ti.node == x && ti.left.Nil? && Plug(rel, ti) == t.right
      ensures At(nodes, Over(rel, In(c, false, elm, t.red, t.left)), ti, Elems(tree))
    {
      SearchDown(nodes, c, t, Elems(tree));
      x := elm.right;
      rel, ti := Top, t.right;
      ghost var base := In(c, false, elm, t.red, t.left);
      SearchDown(nodes, base, ti, Elems(tree));
      while x.left != null
        invariant AllLeft(rel) && ti.T? && ti.node == x && Plug(rel, ti) == t.right && x in nodes &&
            x.left == Root(ti.left)
        invariant At(nodes, Over(rel, base), ti, Elems(tree))
        decreases ti
      {
        SearchDown(nodes, Over(rel, base), ti, Elems(tree));
        x := x.left;
        rel, ti := In(rel, true, ti.node, ti.red, ti.right), ti.left;
        SearchDown(nodes, Over(rel, base), ti, Elems(tree));
      }
    }

    /** The hole inside the right subtree, and the subtree of `n` it belongs to. */
    lemma {:induction false} FatFocus(s: set<Node>, c: Ctx, t: Tree, rel: Ctx, ch: Tree, n: Node, e: seq<Node>)
      requires t.T?
      ensures At(s, Over(rel, In(c, false, n, t.red, t.left)), ch, e) <==> At(s, c, T(t.left, n, t.red, Plug(rel,
          ch)), e)
    {
      PlugOver(rel, In(c, false, n, t.red, t.left), ch);
      All(s, Over(rel, In(c, false, n, t.red, t.left)), ch, e);
      All(s, c, T(t.left, n, t.red, Plug(rel, ch)), e);
    }

    /** The successor `x` makes way for its child. */
    method MakeWay(x: Node, elm: Node, ghost c: Ctx, ghost t: Tree, ghost rel: Ctx,
        ghost ti: Tree) returns (parent: Node?, child: Node?, color: bool)
      requires t.T? && t.node == elm && ti.T? && ti.node == x && ti.left.Nil?
      requires At(nodes, Over(rel, In(c, false, elm, t.red, t.left)), ti, Elems(tree))
      modifies this`root, nodes - {x}
      ensures var t1 := t.(right := Plug(rel, ti.right)); At(nodes - {x}, c, t1, ElemsZ(c, t1))
      ensures child == Root(ti.right) && parent == Above(Over(rel, In(c, false, x, t.red, t.left))) && color == ti.red
      ensures x in nodes && elm in nodes && x != elm
    {
      ghost var ci, ch := Over(rel, In(c, false, elm, t.red, t.left)), ti.right;
      Read(nodes, ci, ti, Elems(tree));
      OverAbove(rel, c, elm, t.red, t.left, x);
      OverNodes(rel, c, elm, t.red, t.left);
      child := x.right;
      parent := x.parent;
      color := x.red;
      Splice(x, child, parent, nodes, ci, ti, ch, Elems(tree));
      if x.parent == elm {
        parent := x;
      }
      FatFocus(nodes - {x}, c, t, rel, ch, elm, ElemsZ(ci, ch));
    }

    /** The successor `x` makes way for its child and then takes the place of `elm`. */
    method Promote(x: Node, elm: Node, ghost c: Ctx, ghost t: Tree, ghost rel: Ctx,
        ghost ti: Tree) returns (parent: Node?, child: Node?, color: bool)
      requires t.T? && t.node == elm && t.left.T? && ti.T? && ti.node == x && ti.left.Nil?
      requires At(nodes, Over(rel, In(c, false, elm, t.red, t.left)), ti, Elems(tree))
      modifies this`root, nodes
      ensures var c' := Over(rel, In(c, false, x, t.red, t.left));
              && At(nodes - {elm}, c', ti.right, ElemsZ(c, T(t.left, x, t.red, Plug(rel, ti.right))))
              && child == Root(ti.right) && parent == Above(c') && color == ti.red
    {
      parent, child, color := MakeWay(x, elm, c, t, rel, ti);
      ghost var s, t1 := nodes - {x}, t.(right := Plug(rel, ti.right));
      SwapSet(nodes, x, elm);
      Replace(x, elm, s, nodes - {elm}, c, t1, ElemsZ(c, t1));
      FatFocus(nodes - {elm}, c, t, rel, ti.right, x, ElemsZ(c, t1.(node := x)));
    }

    /** Takes out a node with two children. */
    method RemoveFat(elm: Node, ghost c: Ctx, ghost t: Tree)
      requires At(nodes, c, t, Elems(tree)) && t.T? && t.node == elm && t.left.T? && t.right.T? &&
          Plug(c, t) == tree && RedBlack(tree)
      modifies this`root, this`tree, this`nodes, nodes
      ensures nodes == old(nodes) - {elm} && Elems(tree) == Without(c, t) && Done(nodes, tree, Elems(tree))
    {
      ghost var top := BH(tree);
      var x;
      ghost var rel, ti;
      x, rel, ti := Successor(elm, c, t);
      ghost var ci, ch := Over(rel, In(c, false, elm, t.red, t.left)), ti.right;
      PlugOver(rel, In(c, false, elm, t.red, t.left), ti);
      SpliceColour(ci, ti, ch);
      OverColours(rel, c, elm, x, t.red, t.left, ch, ti.red, top);
      FatElems(c, t, rel, ti);
      var parent, child, color := Promote(x, elm, c, t, rel, ti);
      Recolour(parent, child, color, nodes - {elm}, Over(rel, In(c, false, x, t.red, t.left)), ch, Without(c, t), top);
    }

    /** Takes `elm`, a node of the tree, out of it. */
    method Remove(elm: Node) returns (r: Node)
      requires Valid() && elm in nodes
      modifies this`root, this`tree, this`nodes, nodes
      ensures Valid() && r == elm
      ensures nodes == old(nodes) - {elm} && DropsOne(old(Elems(tree)), elm, Elems(tree))
    {
      ghost var c, t := Locate(Top, tree, elm);
      All(nodes, c, t, Elems(tree));
      Read(nodes, c, t, Elems(tree));
      WithoutDrops(cmp, c, t);
      if elm.left == null {
        RemoveThin(elm, elm.right, c, t, t.right);
      } else if elm.right == null {
        RemoveThin(elm, elm.left, c, t, t.left);
      } else {
        RemoveFat(elm, c, t);
      }
      return elm;
    }

    // ---------- traversal ----------

    method NextAt(elm: Node, ghost c: Ctx, ghost t: Tree) returns (r: Node?)
      requires At(nodes, c, t, Elems(tree)) && t.T? && t.node == elm
      ensures r == First(Elems(t.right) + Post(c))
    {
      Read(nodes, c, t, Elems(tree));
      if elm.right != null {
        ghost var rel, ti;
        r, rel, ti := Successor(elm, c, t);
        LeftmostElems(rel, ti.node, ti.red, ti.right);
      } else {
        assert Elems(t.right) + Post(c) == Post(c);
        if elm.parent != null && elm == elm.parent.left {
          r := elm.parent;
        } else {
          r := Climb(elm, c, t);
        }
      }
    }

    /** The node after `elm`, found without the root by climbing parent links. */
    method Next(elm: Node) returns (r: Node?)
      requires Linked() && elm in nodes
      ensures FollowedBy(Elems(tree), elm, r)
    {
      ghost var c, t := Locate(Top, tree, elm);
      All(nodes, c, t, Elems(tree));
      r := NextAt(elm, c, t);
      FollowedByFocus(c, t);
    }

    method Climb(elm: Node, ghost c0: Ctx, ghost t0: Tree) returns (r: Node?)
      requires At(nodes, c0, t0, Elems(tree)) && t0.T? && t0.node == elm
      ensures r == First(Post(c0))
    {
      var x := elm;
      ghost var c, t := c0, t0;
      Read(nodes, c, t, Elems(tree));
      while x.parent != null && x == x.parent.right
        invariant At(nodes, c, t, Elems(tree)) && t.T? && t.node == x && Post(c) == Post(c0)
        invariant x in nodes && x.parent == Above(c)
        invariant c.In? ==> c.node in nodes && (x == c.node.right <==> !c.isLeft)
        decreases Depth(c)
      {
        Up(nodes, c, t, Elems(tree));
        x := x.parent;
        c, t := c.up, Mk(c.isLeft, t, c.node, c.red, c.sib);
        Read(nodes, c, t, Elems(tree));
      }
      return x.parent;
    }

    /** The first node (`val < 0`) or the last one. */
    method MinMax(val: int) returns (r: Node?)
      requires Linked()
      ensures val < 0 ==> r == First(Elems(tree))
      ensures val >= 0 ==> r == Last(Elems(tree))
    {
      ghost var c, t := Top, tree;
      var tmp := root;
      r := null;
      Read(nodes, c, t, Elems(tree));
      while tmp != null
        invariant tmp == Root(t) && At(nodes, c, t, Elems(tree))
        invariant val < 0 ==> r == First(Post(c)) && Pre(c) == []
        invariant val >= 0 ==> r == Last(Pre(c)) && Post(c) == []
        decreases t
      {
        SpineStep(c, t);
        SearchDown(nodes, c, t, Elems(tree));
        r := tmp;
        if val < 0 {
          tmp := tmp.left;
          c, t := In(c, true, t.node, t.red, t.right), t.left;
        } else {
          tmp := tmp.right;
          c, t := In(c, false, t.node, t.red, t.left), t.right;
        }
      }
      assert Elems(t) == [];
    }

    /** Walking from the first node on meets every node once, in order. */
    method ForEach() returns (visited: seq<Node>)
      requires Linked()
      ensures visited == Elems(tree)
    {
      ghost var e := Elems(tree);
      visited := [];
      var x := MinMax(-1);
      while x != null
        invariant |visited| <= |e| && visited == e[..|visited|] && x == First(e[|visited|..])
        decreases |e| - |visited|
      {
        var n: Node := x;
        FirstHere(tree, |visited|, n);
        x := Next(n);
        NextIndex(tree, |visited|, n, x);
        visited := visited + [n];
      }
    }
  }
}
