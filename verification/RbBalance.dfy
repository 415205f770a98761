/**
 The colour discipline: equal black heights, no red node with a red child, a black root; what each
 step of the two rebalancing loops keeps of it; and the height bound it gives.
 */
module RbBalance {
  import opened RbShape

  predicate IsRed(t: Tree)
  {
    t.T? && t.red
  }

  predicate RedC(c: Ctx)
  {
    c.In? && c.red
  }

  /** Every path from the root of `t` down to a missing child meets `h` black nodes. */
  predicate Bal(t: Tree, h: int)
  {
    match t
    case Nil => h == 0
    case T(l, _, red, r) => if red then Bal(l, h) && Bal(r, h) else Bal(l, h - 1) && Bal(r, h - 1)
  }

  predicate NoRR(t: Tree)
  {
    match t
    case Nil => true
    case T(l, _, red, r) => NoRR(l) && NoRR(r) && (red ==> !IsRed(l) && !IsRed(r))
  }

  /** Black nodes on the leftmost path. */
  function BH(t: Tree): nat
  {
    match t
    case Nil => 0
    case T(l, _, red, _) => BH(l) + (if red then 0 else 1)
  }

  ghost predicate RedBlack(t: Tree)
  {
    !IsRed(t) && NoRR(t) && Bal(t, BH(t))
  }

  /** A tree of black height `h` in this context gives a tree of black height `top`. */
  predicate BalC(c: Ctx, h: int, top: int)
  {
    match c
    case Top => h == top
    case In(up, _, _, red, s) => Bal(s, h) && BalC(up, if red then h else h + 1, top)
  }

  /** No red-red edge in the context; the edge into the hole is not counted. */
  predicate NoRRC(c: Ctx)
  {
    match c
    case Top => true
    case In(up, _, _, red, s) => NoRR(s) && NoRRC(up) && (red ==> !IsRed(s) && !RedC(up))
  }

  predicate BlackTop(c: Ctx)
  {
    c.Top? || (if c.up.Top? then !c.red else BlackTop(c.up))
  }

  lemma {:induction false} BalIsBH(t: Tree, h: int)
    requires Bal(t, h)
    ensures h == BH(t)
  {
    if t.Nil? {
    } else {
      BalIsBH(t.left, if t.red then h else h - 1);
    }
  }

  lemma {:induction false} BalPlug(c: Ctx, t: Tree, h: int, top: int)
    requires Bal(t, h) && BalC(c, h, top)
    ensures Bal(Plug(c, t), top)
    decreases c
  {
    if c.Top? {
    } else {
      BalPlug(c.up, Mk(c.isLeft, t, c.node, c.red, c.sib), if c.red then h else h + 1, top);
    }
  }

  lemma {:induction false} BalUnplug(c: Ctx, t: Tree, top: int)
    requires Bal(Plug(c, t), top)
    ensures Bal(t, BH(t)) && BalC(c, BH(t), top)
    decreases c
  {
    if c.Top? {
      BalIsBH(t, top);
    } else {
      var t' := Mk(c.isLeft, t, c.node, c.red, c.sib);
      BalUnplug(c.up, t', top);
      var h := if c.red then BH(t') else BH(t') - 1;
      BalIsBH(t, h);
    }
  }

  lemma {:induction false} NoRRPlug(c: Ctx, t: Tree)
    ensures NoRR(Plug(c, t)) <==> NoRR(t) && NoRRC(c) && !(RedC(c) && IsRed(t))
    decreases c
  {
    if c.Top? {
    } else {
      NoRRPlug(c.up, Mk(c.isLeft, t, c.node, c.red, c.sib));
    }
  }

  lemma {:induction false} TopPlug(c: Ctx, t: Tree)
    ensures IsRed(Plug(c, t)) <==> if c.Top? then IsRed(t) else !BlackTop(c)
    decreases c
  {
    if c.Top? {
    } else {
      TopPlug(c.up, Mk(c.isLeft, t, c.node, c.red, c.sib));
    }
  }

  lemma {:induction false} RedBlackPlug(c: Ctx, t: Tree, top: int)
    requires Bal(t, BH(t)) && BalC(c, BH(t), top) && NoRR(t) && NoRRC(c) && BlackTop(c)
    requires IsRed(t) ==> c.In? && !c.red
    ensures RedBlack(Plug(c, t))
  {
    BalPlug(c, t, BH(t), top);
    BalIsBH(Plug(c, t), top);
    NoRRPlug(c, t);
    TopPlug(c, t);
  }

  lemma {:induction false} RedBlackUnplug(c: Ctx, t: Tree)
    requires RedBlack(Plug(c, t))
    ensures Bal(t, BH(t)) && BalC(c, BH(t), BH(Plug(c, t))) && NoRR(t) && NoRRC(c) && BlackTop(c)
    ensures !(RedC(c) && IsRed(t)) && (c.Top? ==> !IsRed(t))
  {
    BalUnplug(c, t, BH(Plug(c, t)));
    NoRRPlug(c, t);
    TopPlug(c, t);
  }

  lemma {:induction false} PaintNoRR(t: Tree)
    requires NoRR(t)
    ensures NoRR(Paint(t, false))
  {
  }

  // ---------- insertion ----------

  /** What the insertion loop keeps: the only flaw allowed is a red parent above the red `t`. */
  ghost predicate InsInv(c: Ctx, t: Tree, top: int)
  {
    && IsRed(t) && NoRR(t) && Bal(t, BH(t))
    && NoRRC(c) && BlackTop(c) && BalC(c, BH(t), top)
  }

  lemma {:induction false} InsGrandparent(c: Ctx, t: Tree, top: int)
    requires InsInv(c, t, top) && RedC(c)
    ensures c.up.In? && !c.up.red
  {
  }

  lemma {:induction false} InsDone(c: Ctx, t: Tree, top: int)
    requires InsInv(c, t, top) && !RedC(c)
    ensures RedBlack(Paint(Plug(c, t), false))
  {
    if c.Top? {
      assert Bal(Paint(t, false), BH(t) + 1);
    } else {
      RedBlackPlug(c, t, top);
    }
  }

  lemma {:induction false} InsRecolour(c: Ctx, t: Tree, top: int)
    requires InsInv(c, t, top) && RedC(c) && c.up.In? && IsRed(c.up.sib)
    ensures InsInv(c.up.up, Mk(c.up.isLeft, Mk(c.isLeft, t, c.node, false, c.sib), c.up.node, true, Paint(c.up.sib,
        false)), top)
  {
    var t1 := Mk(c.isLeft, t, c.node, false, c.sib);
    var t2 := Mk(c.up.isLeft, t1, c.up.node, true, Paint(c.up.sib, false));
    assert BalC(c.up, BH(t), top) && BalC(c.up.up, BH(t) + 1, top);
    assert NoRRC(c.up) && NoRRC(c.up.up) && BlackTop(c.up) && BlackTop(c.up.up);
    assert NoRR(t1) && NoRR(Paint(c.up.sib, false)) && NoRR(t2);
    assert Bal(c.sib, BH(t)) && Bal(t1, BH(t) + 1);
    assert Bal(c.up.sib, BH(t)) && Bal(Paint(c.up.sib, false), BH(t) + 1);
    assert Bal(t2, BH(t) + 1);
    BalIsBH(t2, BH(t) + 1);
  }

  /** Turning an inner grandchild outwards keeps the invariant, with the old parent as the new focus. */
  lemma {:induction false} InsInner(c: Ctx, t: Tree, top: int, b: bool, near: Tree, n: Node, far: Tree)
    requires InsInv(c, t, top) && RedC(c) && c.up.In? && t == Mk(b, near, n, true, far) && c.isLeft == !b
    ensures InsInv(In(c.up, b, n, true, far), Mk(b, c.sib, c.node, true, near), top)
  {
    var t' := Mk(b, c.sib, c.node, true, near);
    var c' := In(c.up, b, n, true, far);
    assert Bal(near, BH(t)) && Bal(far, BH(t)) && Bal(c.sib, BH(t));
    assert Bal(t', BH(t));
    BalIsBH(t', BH(t));
    assert BalC(c', BH(t), top);
  }

  /** Rotating the grandparent down repaints the flaw away. */
  lemma {:induction false} InsOuter(c: Ctx, t: Tree, top: int)
    requires InsInv(c, t, top) && RedC(c) && c.up.In? && c.isLeft == c.up.isLeft && !IsRed(c.up.sib)
    ensures InsInv(In(c.up.up, c.isLeft, c.node, false, Mk(c.isLeft, c.sib, c.up.node, true, c.up.sib)), t, top)
  {
    var s' := Mk(c.isLeft, c.sib, c.up.node, true, c.up.sib);
    var c' := In(c.up.up, c.isLeft, c.node, false, s');
    assert BalC(c.up, BH(t), top) && BalC(c.up.up, BH(t) + 1, top);
    assert NoRRC(c.up) && NoRRC(c.up.up) && BlackTop(c.up) && BlackTop(c.up.up);
    assert Bal(s', BH(t)) && NoRR(s');
    assert BalC(c', BH(t), top) && NoRRC(c') && BlackTop(c');
  }

  // ---------- removal ----------

  /** What the removal loop keeps: `t` is one black node short, and its root may sit red among reds. */
  ghost predicate RemInv(c: Ctx, t: Tree, top: int)
  {
    && NoRR(Paint(t, false)) && Bal(t, BH(t))
    && NoRRC(c) && BlackTop(c) && (c.In? ==> BalC(c, BH(t) + 1, top))
  }

  /** The loop never meets a missing sibling. */
  lemma {:induction false} RemSibling(c: Ctx, t: Tree, top: int)
    requires RemInv(c, t, top) && c.In?
    ensures c.sib.T? && Bal(c.sib, BH(t) + 1)
  {
  }

  lemma {:induction false} RemDone(c: Ctx, t: Tree, top: int)
    requires RemInv(c, t, top) && (c.Top? || IsRed(t))
    ensures RedBlack(Plug(c, Paint(t, false)))
  {
    var t' := Paint(t, false);
    if IsRed(t) {
      assert Bal(t', BH(t) + 1);
      BalIsBH(t', BH(t) + 1);
    }
    if c.In? {
      RedBlackPlug(c, t', top);
    }
  }

  lemma {:induction false} RemRedSibling(c: Ctx, t: Tree, top: int, near: Tree, w: Node, far: Tree)
    requires RemInv(c, t, top) && !IsRed(t) && c.In? && c.sib == Mk(c.isLeft, near, w, true, far)
    ensures !c.red
    ensures RemInv(In(In(c.up, c.isLeft, w, false, far), c.isLeft, c.node, true, near), t, top)
    ensures near.T? && !near.red
  {
    var c1 := In(c.up, c.isLeft, w, false, far);
    var c2 := In(c1, c.isLeft, c.node, true, near);
    assert Bal(near, BH(t) + 1) && Bal(far, BH(t) + 1);
    assert BalC(c1, BH(t) + 1, top) && BalC(c2, BH(t) + 1, top);
    assert BlackTop(c1) && BlackTop(c2);
  }

  lemma {:induction false} RemRecolour(c: Ctx, t: Tree, top: int)
    requires RemInv(c, t, top) && !IsRed(t) && c.In? && c.sib.T? && !c.sib.red
    requires !IsRed(c.sib.left) && !IsRed(c.sib.right)
    ensures RemInv(c.up, Mk(c.isLeft, t, c.node, c.red, Paint(c.sib, true)), top)
  {
    var s' := Paint(c.sib, true);
    var t' := Mk(c.isLeft, t, c.node, c.red, s');
    var h := if c.red then BH(t) else BH(t) + 1;
    assert Bal(s', BH(t)) && Bal(t', h);
    BalIsBH(t', h);
    assert BalC(c.up, h + 1, top);
  }

  lemma {:induction false} RemNearRed(c: Ctx, t: Tree, top: int, nn: Tree, n: Node, nf: Tree, w: Node, far: Tree)
    requires RemInv(c, t, top) && c.In? && !IsRed(far)
    requires c.sib == Mk(c.isLeft, Mk(c.isLeft, nn, n, true, nf), w, false, far)
    ensures RemInv(c.(sib := Mk(c.isLeft, nn, n, false, Mk(c.isLeft, nf, w, true, far))), t, top)
  {
    var near := Mk(c.isLeft, nn, n, true, nf);
    var w' := Mk(c.isLeft, nf, w, true, far);
    var s' := Mk(c.isLeft, nn, n, false, w');
    assert Bal(near, BH(t)) && Bal(far, BH(t)) && NoRR(near);
    assert Bal(nn, BH(t)) && Bal(nf, BH(t)) && Bal(w', BH(t)) && Bal(s', BH(t) + 1);
    assert NoRR(w') && NoRR(s');
    assert BalC(c.(sib := s'), BH(t) + 1, top) && BlackTop(c.(sib := s'));
  }

  lemma {:induction false} RemFarRed(c: Ctx, t: Tree, top: int, near: Tree, w: Node, far: Tree)
    requires RemInv(c, t, top) && !IsRed(t) && c.In? && IsRed(far)
    requires c.sib == Mk(c.isLeft, near, w, false, far)
    ensures RedBlack(Plug(c.up, Mk(c.isLeft, Mk(c.isLeft, t, c.node, false, near), w, c.red, Paint(far, false))))
  {
    var t1 := Mk(c.isLeft, t, c.node, false, near);
    var f' := Paint(far, false);
    var t2 := Mk(c.isLeft, t1, w, c.red, f');
    var h := if c.red then BH(t) + 1 else BH(t) + 2;
    assert Bal(near, BH(t)) && Bal(far, BH(t));
    assert Bal(t1, BH(t) + 1) && Bal(f', BH(t) + 1) && Bal(t2, h);
    assert NoRR(c.sib) && NoRR(near) && NoRR(far) && NoRR(Paint(t, false)) && NoRR(t);
    assert NoRR(t1) && NoRR(f') && NoRR(t2);
    BalIsBH(t2, h);
    RedBlackPlug(c.up, t2, top);
  }

  lemma {:induction false} ChildColour(t: Tree, child: Tree)
    requires t.T? && NoRR(t) && Bal(t, BH(t)) && (child == t.left || child == t.right)
    ensures NoRR(child) && NoRR(Paint(child, false)) && (t.red ==> !IsRed(child))
    ensures Bal(child, BH(child)) && BH(child) == if t.red then BH(t) else BH(t) - 1
  {
    BalIsBH(child, if t.red then BH(t) else BH(t) - 1);
  }

  /** The colours around `child` after it has taken the place of its parent of colour `red`. */
  ghost predicate Spliced(c: Ctx, child: Tree, red: bool, top: int)
  {
    if red then
      !IsRed(child) && NoRR(child) && NoRRC(c) && BlackTop(c) && Bal(child, BH(child)) && BalC(c, BH(child), top)
    else
      RemInv(c, child, top)
  }

  /** The colours left behind when a node with at most one child makes way for it. */
  lemma {:induction false} SpliceColour(c: Ctx, t: Tree, child: Tree)
    requires t.T? && RedBlack(Plug(c, t))
    requires child == t.left || child == t.right
    ensures Spliced(c, child, t.red, BH(Plug(c, t)))
  {
    RedBlackUnplug(c, t);
    ChildColour(t, child);
  }

  /** Colours do not depend on which node sits at the joint of two paths. */
  lemma {:induction false} OverColour(rel: Ctx, c: Ctx, n: Node, n': Node, red: bool, s: Tree, h: int, top: int)
    ensures var a, b := Over(rel, In(c, false, n, red, s)), Over(rel, In(c, false, n', red, s));
            && (BalC(a, h, top) <==> BalC(b, h, top)) && (NoRRC(a) <==> NoRRC(b))
            && (BlackTop(a) <==> BlackTop(b)) && a.In? && b.In? && a.red == b.red
  {
    if rel.Top? {
    } else {
      OverColour(rel.up, c, n, n', red, s, if rel.red then h else h + 1, top);
    }
  }

  lemma {:induction false} OverColours(rel: Ctx, c: Ctx, n: Node, n': Node, red: bool, s: Tree, child: Tree, r: bool,
      top: int)
    requires Spliced(Over(rel, In(c, false, n, red, s)), child, r, top)
    ensures Spliced(Over(rel, In(c, false, n', red, s)), child, r, top)
  {
    OverColour(rel, c, n, n', red, s, BH(child), top);
    OverColour(rel, c, n, n', red, s, BH(child) + 1, top);
  }

  // ---------- height ----------

  function Height(t: Tree): nat
  {
    match t
    case Nil => 0
    case T(l, _, _, r) => 1 + (if Height(l) < Height(r) then Height(r) else Height(l))
  }

  function Pow2(n: nat): nat
  {
    if n == 0 then 1 else 2 * Pow2(n - 1)
  }

  lemma {:induction false} HeightByBH(t: Tree, h: int)
    requires NoRR(t) && Bal(t, h)
    ensures Height(t) <= 2 * h + (if IsRed(t) then 1 else 0)
  {
    if t.Nil? {
    } else {
      var h' := if t.red then h else h - 1;
      HeightByBH(t.left, h');
      HeightByBH(t.right, h');
    }
  }

  lemma {:induction false} SizeByBH(t: Tree, h: int)
    requires Bal(t, h)
    ensures h >= 0 && Pow2(h) <= |Elems(t)| + 1
  {
    if t.Nil? {
    } else {
      var h' := if t.red then h else h - 1;
      SizeByBH(t.left, h');
      SizeByBH(t.right, h');
    }
  }

  lemma {:induction false} Pow2Monotone(a: nat, b: nat)
    requires a <= b
    ensures Pow2(a) <= Pow2(b)
  {
    if a == b {
    } else {
      Pow2Monotone(a, b - 1);
    }
  }

  /** The documented bound, height at most 2 lg(n+1), without a logarithm. */
  lemma {:induction false} HeightBound(t: Tree)
    requires RedBlack(t)
    ensures Pow2((Height(t) + 1) / 2) <= |Elems(t)| + 1
  {
    HeightByBH(t, BH(t));
    SizeByBH(t, BH(t));
    Pow2Monotone((Height(t) + 1) / 2, BH(t));
  }
}
