/**
 The state of a top-down splay, as a value: the tree still to be searched and two spines, the nodes
 already known to come before the key and those known to come after it.

 A spine is listed from its open end. The node at the open end keeps a stale link there, so `OnSpine`
 leaves that link out. Both spines hang off one dummy node, the lower one on its right link.
 `left` says which way the search goes; the mirror image of each fact is the same fact with the
 flag reversed.
 */
module SplayShape {
  import opened RbShape

  datatype Bst = Tip | Fork(left: Bst, node: Node, right: Bst)

  datatype Spine = None | More(up: Spine, node: Node, tree: Bst)

  /** `near` is the child on the side `left`, `far` the other one. */
  function Join(left: bool, near: Bst, n: Node, far: Bst): Bst
  {
    if left then Fork(near, n, far) else Fork(far, n, near)
  }

  function Size(t: Bst): nat
  {
    if t.Tip? then 0 else Size(t.left) + 1 + Size(t.right)
  }

  function InOrder(t: Bst): seq<Node>
  {
    if t.Tip? then [] else InOrder(t.left) + [t.node] + InOrder(t.right)
  }

  /** The nodes of the lower (`low`) or upper spine in order. */
  function Along(low: bool, s: Spine): seq<Node>
  {
    if s.None? then []
    else if low then Along(low, s.up) + (InOrder(s.tree) + [s.node])
    else ([s.node] + InOrder(s.tree)) + Along(low, s.up)
  }

  /** All nodes in order, when the search goes `left`: `near` is then the upper spine. */
  function Whole(left: bool, near: Spine, t: Bst, far: Spine): seq<Node>
  {
    if left then Along(true, far) + InOrder(t) + Along(false, near)
    else Along(true, near) + InOrder(t) + Along(false, far)
  }

  function Members(t: Bst): set<Node>
  {
    if t.Tip? then {} else Members(t.left) + {t.node} + Members(t.right)
  }

  function MembersS(s: Spine): set<Node>
  {
    if s.None? then {} else MembersS(s.up) + {s.node} + Members(s.tree)
  }

  lemma {:induction false} InOrderMembers(t: Bst, n: Node)
    ensures n in InOrder(t) <==> n in Members(t)
  {
    if t.Tip? {
    } else {
      InOrderMembers(t.left, n);
      InOrderMembers(t.right, n);
    }
  }

  predicate Unshared(t: Bst)
  {
    t.Fork? ==>
      && t.node !in Members(t.left) && t.node !in Members(t.right)
      && Members(t.left) !! Members(t.right)
      && Unshared(t.left) && Unshared(t.right)
  }

  predicate UnsharedS(s: Spine)
  {
    s.More? ==>
      && s.node !in MembersS(s.up) && s.node !in Members(s.tree)
      && MembersS(s.up) !! Members(s.tree)
      && Unshared(s.tree) && UnsharedS(s.up)
  }

  // ---------- what the links spell out ----------

  predicate Spells(m: Cells, t: Bst, p: Node?)
  {
    if t.Tip? then p == null
    else p == t.node && t.node in m && Spells(m, t.left, m[t.node].left) && Spells(m, t.right, m[t.node].right)
  }

  function Tail(s: Spine, d: Node): Node
  {
    if s.None? then d else s.node
  }

  predicate OnSpine(m: Cells, low: bool, d: Node, s: Spine)
  {
    && Tail(s, d) in m
    && (s.More? ==>
          && Spells(m, s.tree, Get(m[s.node], low))
          && OnSpine(m, low, d, s.up)
          && Get(m[Tail(s.up, d)], !low) == s.node)
  }

  /** The nodes of the three parts are different ones, and none is the dummy. */
  predicate Apart3(d: Node, near: Spine, t: Bst, far: Spine)
  {
    && UnsharedS(near) && Unshared(t) && UnsharedS(far)
    && Members(t) !! MembersS(near) && Members(t) !! MembersS(far) && MembersS(near) !! MembersS(far)
    && d !in MembersS(near) && d !in Members(t) && d !in MembersS(far)
  }

  predicate Split(m: Cells, d: Node, p: Node?, left: bool, near: Spine, t: Bst, far: Spine)
  {
    && Apart3(d, near, t, far) == true
    && Spells(m, t, p) == true
    && OnSpine(m, !left, d, near) == true
    && OnSpine(m, left, d, far) == true
  }

  function TopOf(t: Bst): Node?
  {
    if t.Tip? then null else t.node
  }

  /** The links at the root, as the code reads them. */
  lemma {:induction false} RootLinks(m: Cells, t: Bst, p: Node?)
    requires Spells(m, t, p) && Unshared(t)
    ensures p == TopOf(t) && Members(t) <= m.Keys
    ensures t.Fork? ==> m[t.node].left == TopOf(t.left) && m[t.node].right == TopOf(t.right)
    ensures t.Fork? && t.left.Fork? ==> t.left.node in Members(t) && t.left.node != t.node
    ensures t.Fork? && t.right.Fork? ==> t.right.node in Members(t) && t.right.node != t.node
  {
    SpellsMembers(m, t, p);
  }

  lemma {:induction false} Mirror(m: Cells, d: Node, p: Node?, lo: Spine, t: Bst, hi: Spine)
    ensures Split(m, d, p, true, hi, t, lo) == Split(m, d, p, false, lo, t, hi)
    ensures Whole(true, hi, t, lo) == Whole(false, lo, t, hi)
  {
  }

  lemma {:induction false} SpellsFrame(m: Cells, m': Cells, t: Bst, p: Node?)
    requires Spells(m, t, p) && SameOn(m, m', Members(t))
    ensures Spells(m', t, p)
  {
    if t.Fork? {
      SpellsFrame(m, m', t.left, m[t.node].left);
      SpellsFrame(m, m', t.right, m[t.node].right);
    }
  }

  /** The open link of a spine does not matter. */
  lemma {:induction false} SpineFrame(m: Cells, m': Cells, low: bool, d: Node, s: Spine)
    requires OnSpine(m, low, d, s) && UnsharedS(s) && d !in MembersS(s)
    requires SameOn(m, m', MembersS(s) - {Tail(s, d)}) && d in m' && Tail(s, d) in m'
    requires s.More? ==> d in m && Get(m'[d], !low) == Get(m[d], !low) && Get(m'[s.node], low) == Get(m[s.node], low)
    ensures OnSpine(m', low, d, s)
  {
    if s.None? {
    } else {
      SpellsFrame(m, m', s.tree, Get(m[s.node], low));
      SpineFrame(m, m', low, d, s.up);
    }
  }

  // ---------- a rotation at the root ----------

  function TurnCells(m: Cells, left: bool, y: Node, x: Node): Cells
    requires x in m && y in m
  {
    var m1 := m[y := Put(m[y], left, Get(m[x], !left))];
    m1[x := Put(m1[x], !left, y)]
  }

  lemma {:induction false} JoinSpells(m: Cells, left: bool, near: Bst, n: Node, far: Bst, p: Node?)
    ensures Spells(m, Join(left, near, n, far), p) <==>
            p == n && n in m && Spells(m, near, Get(m[n], left)) && Spells(m, far, Get(m[n], !left))
  {
  }

  lemma {:induction false} JoinMembers(left: bool, near: Bst, n: Node, far: Bst)
    ensures Members(Join(left, near, n, far)) == Members(near) + {n} + Members(far)
    ensures Unshared(Join(left, near, n, far)) <==>
            && n !in Members(near) && n !in Members(far) && Members(near) !! Members(far)
            && Unshared(near) && Unshared(far)
  {
  }

  lemma {:induction false} RotateMembers(left: bool, a: Bst, x: Node, b: Bst, y: Node, c: Bst)
    requires Unshared(Join(left, Join(left, a, x, b), y, c))
    ensures var t, t' := Join(left, Join(left, a, x, b), y, c), Join(left, a, x, Join(left, b, y, c));
            Unshared(t') && Members(t') == Members(t) && {x, y} <= Members(t)
    ensures x != y && forall n | n in {x, y} :: n !in Members(a) && n !in Members(b) && n !in Members(c)
  {
    JoinMembers(left, Join(left, a, x, b), y, c);
    JoinMembers(left, a, x, b);
    JoinMembers(left, a, x, Join(left, b, y, c));
    JoinMembers(left, b, y, c);
  }

  lemma {:induction false} RotateSpells(m: Cells, left: bool, a: Bst, x: Node, b: Bst, y: Node, c: Bst)
    requires Unshared(Join(left, Join(left, a, x, b), y, c))
    requires Spells(m, Join(left, Join(left, a, x, b), y, c), y)
    ensures x in m && y in m
    ensures Spells(TurnCells(m, left, y, x), Join(left, a, x, Join(left, b, y, c)), x)
  {
    JoinSpells(m, left, Join(left, a, x, b), y, c, y);
    JoinSpells(m, left, a, x, b, x);
    RotateMembers(left, a, x, b, y, c);
    var m' := TurnCells(m, left, y, x);
    SpellsFrame(m, m', a, Get(m[x], left));
    SpellsFrame(m, m', b, Get(m[x], !left));
    SpellsFrame(m, m', c, Get(m[y], !left));
    JoinSpells(m', left, b, y, c, y);
    JoinSpells(m', left, a, x, Join(left, b, y, c), x);
  }

  /** The search goes `left` twice: the child `x` takes the place of the root `y`. */
  lemma {:induction false} RotateSplit(
    m: Cells, d: Node, left: bool, near: Spine, a: Bst, x: Node, b: Bst, y: Node, c: Bst, far: Spine)
    requires Split(m, d, y, left, near, Join(left, Join(left, a, x, b), y, c), far)
    ensures x in m && y in m && x != y
    ensures Split(TurnCells(m, left, y, x), d, x, left, near, Join(left, a, x, Join(left, b, y, c)), far)
  {
    RotateMembers(left, a, x, b, y, c);
    RotateSpells(m, left, a, x, b, y, c);
    var m' := TurnCells(m, left, y, x);
    SpineMembers(m, left, d, far);
    SpineKeeps(m, m', !left, d, near, {x, y});
    SpineKeeps(m, m', left, d, far, {x, y});
  }

  lemma {:induction false} SpineKeeps(m: Cells, m': Cells, low: bool, d: Node, s: Spine, w: set<Node>)
    requires OnSpine(m, low, d, s) && UnsharedS(s) && d !in MembersS(s)
    requires w !! MembersS(s) && d !in w && m.Keys == m'.Keys && d in m
    requires forall n :: n in m && n !in w ==> m'[n] == m[n]
    ensures OnSpine(m', low, d, s)
  {
    SpineMembers(m, low, d, s);
    SpineFrame(m, m', low, d, s);
  }

  lemma {:induction false} SpineMembers(m: Cells, low: bool, d: Node, s: Spine)
    requires OnSpine(m, low, d, s)
    ensures MembersS(s) <= m.Keys && d in m
  {
    if s.None? {
    } else {
      SpineMembers(m, low, d, s.up);
      SpellsMembers(m, s.tree, Get(m[s.node], low));
    }
  }

  lemma {:induction false} SpellsMembers(m: Cells, t: Bst, p: Node?)
    requires Spells(m, t, p)
    ensures Members(t) <= m.Keys
  {
    if t.Tip? {
    } else {
      SpellsMembers(m, t.left, m[t.node].left);
      SpellsMembers(m, t.right, m[t.node].right);
    }
  }

  lemma {:induction false} RotateInOrder(left: bool, a: Bst, x: Node, b: Bst, y: Node, c: Bst)
    ensures InOrder(Join(left, Join(left, a, x, b), y, c)) == InOrder(Join(left, a, x, Join(left, b, y, c)))
  {
    if left {
      RegroupSeq(InOrder(a), [x], InOrder(b), [y], InOrder(c));
      assert InOrder(Fork(a, x, b)) == InOrder(a) + [x] + InOrder(b);
      assert InOrder(Fork(b, y, c)) == InOrder(b) + [y] + InOrder(c);
    } else {
      RegroupSeq(InOrder(c), [y], InOrder(b), [x], InOrder(a));
      assert InOrder(Fork(b, x, a)) == InOrder(b) + [x] + InOrder(a);
      assert InOrder(Fork(c, y, b)) == InOrder(c) + [y] + InOrder(b);
    }
  }

  lemma {:induction false} RotateWhole(left: bool, near: Spine, a: Bst, x: Node, b: Bst, y: Node, c: Bst, far: Spine)
    ensures Whole(left, near, Join(left, Join(left, a, x, b), y, c), far)
            == Whole(left, near, Join(left, a, x, Join(left, b, y, c)), far)
  {
    RotateInOrder(left, a, x, b, y, c);
  }

  // ---------- moving the root to a spine ----------

  function LinkCells(m: Cells, left: bool, tail: Node, y: Node): Cells
    requires tail in m
  {
    m[tail := Put(m[tail], left, y)]
  }

  lemma {:induction false} LinkApart(d: Node, left: bool, near: Spine, a: Bst, y: Node, c: Bst, far: Spine)
    requires Apart3(d, near, Join(left, a, y, c), far)
    ensures Apart3(d, More(near, y, c), a, far)
    ensures y !in Members(a) && y !in Members(c) && y !in MembersS(near) && y !in MembersS(far) && y != d
    ensures Tail(near, d) !in Members(a) && Tail(near, d) !in Members(c) && Tail(near, d) !in MembersS(far)
    ensures Tail(near, d) != y
  {
    JoinMembers(left, a, y, c);
  }

  lemma {:induction false} LinkSplit(
    m: Cells, d: Node, left: bool, near: Spine, a: Bst, y: Node, c: Bst, far: Spine)
    requires Split(m, d, y, left, near, Join(left, a, y, c), far)
    ensures y in m && Tail(near, d) in m
    ensures Split(LinkCells(m, left, Tail(near, d), y), d, Get(m[y], left), left, More(near, y, c), a, far)
  {
    var m' := LinkCells(m, left, Tail(near, d), y);
    LinkApart(d, left, near, a, y, c, far);
    JoinSpells(m, left, a, y, c, y);
    SpellsFrame(m, m', a, Get(m[y], left));
    SpellsFrame(m, m', c, Get(m[y], !left));
    SpineMembers(m, left, d, far);
    SpineMembers(m, !left, d, near);
    LinkNear(m, d, left, near, y, c);
    SpineFrame(m, m', left, d, far);
  }

  lemma {:induction false} LinkNear(m: Cells, d: Node, left: bool, near: Spine, y: Node, c: Bst)
    requires OnSpine(m, !left, d, near) && UnsharedS(near) && d !in MembersS(near) && d in m && y in m
    requires MembersS(near) <= m.Keys && y != Tail(near, d) && Tail(near, d) !in Members(c)
    requires Spells(m, c, Get(m[y], !left))
    ensures OnSpine(LinkCells(m, left, Tail(near, d), y), !left, d, More(near, y, c))
  {
    var m' := LinkCells(m, left, Tail(near, d), y);
    SpineFrame(m, m', !left, d, near);
    SpellsFrame(m, m', c, Get(m[y], !left));
  }

  lemma {:induction false} RegroupLow<X>(p: seq<X>, u: seq<X>, y: seq<X>, q: seq<X>, v: seq<X>)
    ensures p + (u + y + q) + v == (p + (u + y)) + q + v
  {
  }

  lemma {:induction false} RegroupHigh<X>(p: seq<X>, q: seq<X>, y: seq<X>, u: seq<X>, v: seq<X>)
    ensures p + (q + y + u) + v == p + q + ((y + u) + v)
  {
  }

  lemma {:induction false} LinkMembers(left: bool, near: Spine, a: Bst, y: Node, c: Bst)
    ensures Members(Join(left, a, y, c)) + MembersS(near) == Members(a) + MembersS(More(near, y, c))
  {
    JoinMembers(left, a, y, c);
  }

  lemma {:induction false} LinkWhole(left: bool, near: Spine, a: Bst, y: Node, c: Bst, far: Spine)
    ensures Whole(left, near, Join(left, a, y, c), far) == Whole(left, More(near, y, c), a, far)
  {
    if left {
      RegroupHigh(Along(true, far), InOrder(a), [y], InOrder(c), Along(false, near));
    } else {
      RegroupLow(Along(true, near), InOrder(c), [y], InOrder(a), Along(false, far));
    }
  }

  // ---------- putting the parts together ----------

  /** The subtree that a spine becomes when `t` is put at its open end. */
  function Close(low: bool, s: Spine, t: Bst): Bst
    decreases s
  {
    if s.None? then t else Close(low, s.up, Join(low, s.tree, s.node, t))
  }

  lemma {:induction false} CloseSpells(m: Cells, low: bool, d: Node, s: Spine, t: Bst)
    requires OnSpine(m, low, d, s) && Spells(m, t, Get(m[Tail(s, d)], !low))
    ensures d in m && Spells(m, Close(low, s, t), Get(m[d], !low))
    decreases s
  {
    if s.None? {
    } else {
      CloseSpells(m, low, d, s.up, Join(low, s.tree, s.node, t));
    }
  }

  lemma {:induction false} CloseMembers(low: bool, s: Spine, t: Bst)
    requires UnsharedS(s) && Unshared(t) && MembersS(s) !! Members(t)
    ensures Members(Close(low, s, t)) == MembersS(s) + Members(t)
    ensures Unshared(Close(low, s, t))
    decreases s
  {
    if s.None? {
    } else {
      CloseMembers(low, s.up, Join(low, s.tree, s.node, t));
    }
  }

  lemma {:induction false} RegroupTail<X>(p: seq<X>, q: seq<X>, n: seq<X>, u: seq<X>)
    ensures p + (q + n + u) == (p + (q + n)) + u
  {
  }

  lemma {:induction false} RegroupFront<X>(u: seq<X>, n: seq<X>, q: seq<X>, p: seq<X>)
    ensures (u + n + q) + p == u + ((n + q) + p)
  {
  }

  lemma {:induction false} CloseInOrder(low: bool, s: Spine, t: Bst)
    ensures InOrder(Close(low, s, t)) == if low then Along(low, s) + InOrder(t) else InOrder(t) + Along(low, s)
    decreases s
  {
    if s.None? {
    } else {
      CloseInOrder(low, s.up, Join(low, s.tree, s.node, t));
      var p, q, n, u := Along(low, s.up), InOrder(s.tree), [s.node], InOrder(t);
      if low {
        RegroupTail(p, q, n, u);
      } else {
        RegroupFront(u, n, q, p);
      }
    }
  }

  function AssembleCells(m: Cells, d: Node, root: Node, leftEnd: Node, rightEnd: Node): Cells
    requires {d, root, leftEnd, rightEnd} <= m.Keys
  {
    var m2 := ClosedCells(m, root, leftEnd, rightEnd);
    m2[root := m2[root].(left := m2[d].right, right := m2[d].left)]
  }

  function Assembled(lo: Spine, t: Bst, hi: Spine): Bst
    requires t.Fork?
  {
    Fork(Close(true, lo, t.left), t.node, Close(false, hi, t.right))
  }

  /** The cells after the first two writes, which close both spines. */
  function ClosedCells(m: Cells, root: Node, leftEnd: Node, rightEnd: Node): Cells
    requires {root, leftEnd, rightEnd} <= m.Keys
  {
    var m1 := m[leftEnd := Put(m[leftEnd], false, m[root].left)];
    m1[rightEnd := Put(m1[rightEnd], true, m1[root].right)]
  }

  lemma {:induction false} AssembleApart(d: Node, lo: Spine, t: Bst, hi: Spine)
    requires t.Fork? && Apart3(d, hi, t, lo)
    ensures t.node !in MembersS(lo) && t.node !in MembersS(hi) && t.node != d
    ensures t.node != Tail(lo, d) && t.node != Tail(hi, d)
    ensures Tail(lo, d) !in MembersS(hi) && Tail(hi, d) !in MembersS(lo)
    ensures Tail(lo, d) !in Members(t.left) + Members(t.right) && Tail(hi, d) !in Members(t.left) + Members(t.right)
    ensures MembersS(lo) !! Members(t.left) && MembersS(hi) !! Members(t.right)
  {
  }

  lemma {:induction false} AssembleEnds(m: Cells, m2: Cells, d: Node, lo: Spine, t: Bst, hi: Spine)
    requires t.Fork? && Split(m, d, t.node, true, hi, t, lo) && {d, t.node, Tail(lo, d), Tail(hi, d)} <= m.Keys
    requires m2 == ClosedCells(m, t.node, Tail(lo, d), Tail(hi, d))
    ensures OnSpine(m2, true, d, lo) && OnSpine(m2, false, d, hi)
    ensures Spells(m2, t.left, m2[Tail(lo, d)].right) && Spells(m2, t.right, m2[Tail(hi, d)].left)
  {
    AssembleApart(d, lo, t, hi);
    SpineMembers(m, true, d, lo);
    SpineMembers(m, false, d, hi);
    SpellsMembers(m, t, t.node);
    SpineFrame(m, m2, true, d, lo);
    SpineFrame(m, m2, false, d, hi);
    SpellsFrame(m, m2, t.left, m[t.node].left);
    SpellsFrame(m, m2, t.right, m[t.node].right);
  }

  lemma {:induction false} AssembleSpells(m: Cells, d: Node, lo: Spine, t: Bst, hi: Spine)
    requires t.Fork? && Split(m, d, t.node, true, hi, t, lo) && {d, t.node, Tail(lo, d), Tail(hi, d)} <= m.Keys
    ensures Spells(AssembleCells(m, d, t.node, Tail(lo, d), Tail(hi, d)), Assembled(lo, t, hi), t.node)
  {
    var m2 := ClosedCells(m, t.node, Tail(lo, d), Tail(hi, d));
    var m3 := AssembleCells(m, d, t.node, Tail(lo, d), Tail(hi, d));
    var l, r := Close(true, lo, t.left), Close(false, hi, t.right);
    AssembleApart(d, lo, t, hi);
    AssembleEnds(m, m2, d, lo, t, hi);
    CloseSpells(m2, true, d, lo, t.left);
    CloseSpells(m2, false, d, hi, t.right);
    CloseMembers(true, lo, t.left);
    CloseMembers(false, hi, t.right);
    SpellsFrame(m2, m3, l, m2[d].right);
    SpellsFrame(m2, m3, r, m2[d].left);
    JoinSpells(m3, true, l, t.node, r, t.node);
  }

  lemma {:induction false} AssembleMembers(d: Node, lo: Spine, t: Bst, hi: Spine)
    requires t.Fork? && Apart3(d, hi, t, lo)
    ensures Unshared(Assembled(lo, t, hi)) && Members(Assembled(lo, t, hi)) == MembersS(lo) + Members(t) + MembersS(hi)
  {
    AssembleApart(d, lo, t, hi);
    CloseMembers(true, lo, t.left);
    CloseMembers(false, hi, t.right);
    JoinMembers(true, Close(true, lo, t.left), t.node, Close(false, hi, t.right));
  }

  lemma {:induction false} AssembleParts(m: Cells, d: Node, lo: Spine, t: Bst, hi: Spine, s: set<Node>)
    requires t.Fork? && Split(m, d, t.node, true, hi, t, lo) && {d, t.node, Tail(lo, d), Tail(hi, d)} <= m.Keys
    requires s == {d} + Members(t) + MembersS(lo) + MembersS(hi)
    ensures Spells(AssembleCells(m, d, t.node, Tail(lo, d), Tail(hi, d)), Assembled(lo, t, hi), t.node) == true
    ensures Unshared(Assembled(lo, t, hi)) == true && Members(Assembled(lo, t, hi)) == s - {d}
  {
    AssembleSpells(m, d, lo, t, hi);
    AssembleMembers(d, lo, t, hi);
  }

  lemma {:induction false} RegroupAll<X>(p: seq<X>, a: seq<X>, n: seq<X>, b: seq<X>, q: seq<X>)
    ensures (p + a) + n + (b + q) == p + (a + n + b) + q
  {
  }

  lemma {:induction false} AssembleInOrder(lo: Spine, t: Bst, hi: Spine)
    requires t.Fork?
    ensures InOrder(Assembled(lo, t, hi)) == Whole(true, hi, t, lo)
    ensures InOrder(Assembled(lo, t, hi).left) == Along(true, lo) + InOrder(t.left)
    ensures InOrder(Assembled(lo, t, hi).right) == InOrder(t.right) + Along(false, hi)
  {
    CloseInOrder(true, lo, t.left);
    CloseInOrder(false, hi, t.right);
    RegroupAll(Along(true, lo), InOrder(t.left), [t.node], InOrder(t.right), Along(false, hi));
  }

  // ---------- a new root ----------

  /** `x` takes the root's subtree on the side `left` and the rest of the tree on the other. */
  ghost predicate IsCrown(m: Cells, m': Cells, left: bool, n: Node, x: Node)
    requires n in m
  {
    && n in m' && m'[n] == Put(m[n], left, null)
    && x in m' && Get(m'[x], left) == Get(m[n], left) && Get(m'[x], !left) == n
    && Writes(m, m', {n, x})
  }

  lemma {:induction false} CrownSpells(m: Cells, m': Cells, left: bool, a: Bst, n: Node, b: Bst, x: Node)
    requires Spells(m, Join(left, a, n, b), n) && Unshared(Join(left, a, n, b)) && x !in Members(Join(left, a, n, b))
    requires n in m && IsCrown(m, m', left, n, x)
    ensures Spells(m', Join(left, a, x, Join(left, Tip, n, b)), x)
    ensures Unshared(Join(left, a, x, Join(left, Tip, n, b)))
    ensures Members(Join(left, a, x, Join(left, Tip, n, b))) == Members(Join(left, a, n, b)) + {x}
  {
    JoinSpells(m, left, a, n, b, n);
    JoinMembers(left, a, n, b);
    SameOutside(m, m', {n, x}, Members(a));
    SameOutside(m, m', {n, x}, Members(b));
    SpellsFrame(m, m', a, Get(m[n], left));
    SpellsFrame(m, m', b, Get(m[n], !left));
    JoinSpells(m', left, Tip, n, b, n);
    JoinSpells(m', left, a, x, Join(left, Tip, n, b), x);
    JoinMembers(left, Tip, n, b);
    JoinMembers(left, a, x, Join(left, Tip, n, b));
  }

  lemma {:induction false} CrownInOrder(left: bool, a: Bst, n: Node, b: Bst, x: Node)
    ensures InOrder(Join(left, a, x, Join(left, Tip, n, b))) ==
            if left then InOrder(a) + [x] + ([n] + InOrder(b)) else (InOrder(b) + [n]) + [x] + InOrder(a)
  {
    assert InOrder(Fork(Tip, n, b)) == [n] + InOrder(b);
    assert InOrder(Fork(b, n, Tip)) == InOrder(b) + [n];
  }

  lemma {:induction false} InOrderEmpty(t: Bst)
    ensures InOrder(t) == [] <==> t.Tip?
  {
  }

  /** The right subtree of the removed root goes under the greatest node of the left one. */
  lemma {:induction false} RejoinSpells(m: Cells, mr: Cells, m': Cells, u: Bst, r: Bst, p: Node?)
    requires u.Fork? && u.right.Tip? && Spells(m, u, u.node) && Unshared(u) && Spells(mr, r, p) && Unshared(r)
    requires Members(u) !! Members(r) && SameOn(m, m', Members(u) - {u.node}) && SameOn(mr, m', Members(r))
    requires u.node in m && u.node in m' && m'[u.node] == m[u.node].(right := p)
    ensures var t := Fork(u.left, u.node, r);
            Spells(m', t, u.node) == true && Unshared(t) == true && Members(t) == Members(u) + Members(r)
  {
    SpellsFrame(m, m', u.left, m[u.node].left);
    SpellsFrame(mr, m', r, p);
    JoinMembers(true, u.left, u.node, r);
    JoinSpells(m', true, u.left, u.node, r, u.node);
  }
}
