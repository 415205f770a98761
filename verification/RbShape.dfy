/**
 The shape of a red-black tree laid out in linked nodes, as a value.

 A `Tree` is what the pointers below a node spell out, a `Ctx` is the path from a node back up to
 the root with everything hanging off it. `RepZ` says that a snapshot of the nodes' link fields
 spells out a subtree in its context; every pointer manipulation is proved against it.
 */
module RbShape {

  /** The tree's link fields in an element, with the element's key. `item` tells which element it is. */
  class Node {
    const key: int
    const item: nat
    var left: Node?
    var right: Node?
    var parent: Node?
    var red: bool

    constructor (key: int, item: nat)
      ensures this.key == key && this.item == item
    {
      this.key, this.item := key, item;
      left, right, parent, red := null, null, null, false;
    }
  }

  /** The link fields of one node. */
  datatype Cell = Cell(left: Node?, right: Node?, parent: Node?, red: bool)

  type Cells = map<Node, Cell>

  ghost function Snap(s: set<Node>): Cells
    reads s
  {
    map n | n in s :: Cell(n.left, n.right, n.parent, n.red)
  }

  datatype Tree = Nil | T(left: Tree, node: Node, red: bool, right: Tree)

  /** A path to the root: the hole is the left or the right child of `node`, whose other child is `sib`. */
  datatype Ctx = Top | In(up: Ctx, isLeft: bool, node: Node, red: bool, sib: Tree)

  function Mk(isLeft: bool, t: Tree, n: Node, red: bool, sib: Tree): Tree
  {
    if isLeft then T(t, n, red, sib) else T(sib, n, red, t)
  }

  function Root(t: Tree): Node?
  {
    if t.Nil? then null else t.node
  }

  function Above(c: Ctx): Node?
  {
    if c.Top? then null else c.node
  }

  function Plug(c: Ctx, t: Tree): Tree
    decreases c
  {
    match c
    case Top => t
    case In(up, b, n, red, s) => Plug(up, Mk(b, t, n, red, s))
  }

  function Depth(c: Ctx): nat
  {
    if c.Top? then 0 else 1 + Depth(c.up)
  }

  // ---------- contents ----------

  function Elems(t: Tree): seq<Node>
  {
    match t
    case Nil => []
    case T(l, n, _, r) => Elems(l) + [n] + Elems(r)
  }

  function Pre(c: Ctx): seq<Node>
  {
    match c
    case Top => []
    case In(up, b, n, _, s) => if b then Pre(up) else Pre(up) + Elems(s) + [n]
  }

  function Post(c: Ctx): seq<Node>
  {
    match c
    case Top => []
    case In(up, b, n, _, s) => if b then [n] + Elems(s) + Post(up) else Post(up)
  }

  function ElemsZ(c: Ctx, t: Tree): seq<Node>
  {
    Pre(c) + Elems(t) + Post(c)
  }

  lemma {:induction false} ElemsPlug(c: Ctx, t: Tree)
    ensures Elems(Plug(c, t)) == ElemsZ(c, t)
    decreases c
  {
    match c
    case Top =>
    case In(up, b, n, red, s) =>
      ElemsPlug(up, Mk(b, t, n, red, s));
      ElemsUp(up, b, n, red, s, t);
  }

  lemma {:induction false} RegroupUp<X>(p: seq<X>, a: seq<X>, x: seq<X>, b: seq<X>, q: seq<X>)
    ensures p + a + (x + b + q) == p + (a + x + b) + q
    ensures (p + a + x) + b + q == p + (a + x + b) + q
  {
  }

  lemma {:induction false} ElemsUp(up: Ctx, b: bool, n: Node, red: bool, s: Tree, t: Tree)
    ensures ElemsZ(In(up, b, n, red, s), t) == ElemsZ(up, Mk(b, t, n, red, s))
  {
    if b {
      RegroupUp(Pre(up), Elems(t), [n], Elems(s), Post(up));
    } else {
      RegroupUp(Pre(up), Elems(s), [n], Elems(t), Post(up));
    }
  }

  // ---------- disjointness ----------

  function Nodes(t: Tree): set<Node>
  {
    match t
    case Nil => {}
    case T(l, n, _, r) => Nodes(l) + {n} + Nodes(r)
  }

  function NodesC(c: Ctx): set<Node>
  {
    match c
    case Top => {}
    case In(up, _, n, _, s) => NodesC(up) + {n} + Nodes(s)
  }

  lemma {:induction false} ElemsAreNodes(t: Tree, n: Node)
    ensures n in Elems(t) <==> n in Nodes(t)
  {
    if t.Nil? {
    } else {
      ElemsAreNodes(t.left, n);
      ElemsAreNodes(t.right, n);
    }
  }

  predicate Sep(t: Tree)
  {
    match t
    case Nil => true
    case T(l, n, _, r) => Sep(l) && Sep(r) && n !in Nodes(l) && n !in Nodes(r) && Nodes(l) !! Nodes(r)
  }

  predicate SepC(c: Ctx)
  {
    match c
    case Top => true
    case In(up, _, n, _, s) => SepC(up) && Sep(s) && n !in NodesC(up) && n !in Nodes(s) && Nodes(s) !! NodesC(up)
  }

  predicate SepZ(c: Ctx, t: Tree)
  {
    SepC(c) && Sep(t) && Nodes(t) !! NodesC(c)
  }

  /** All nodes of a zipper. */
  function NodesZ(c: Ctx, t: Tree): set<Node>
  {
    NodesC(c) + Nodes(t)
  }

  // ---------- representation ----------

  predicate Rep(m: Cells, t: Tree, parent: Node?)
  {
    match t
    case Nil => true
    case T(l, n, red, r) =>
      n in m && m[n] == Cell(Root(l), Root(r), parent, red) && Rep(m, l, n) && Rep(m, r, n)
  }

  predicate RepC(m: Cells, root: Node?, c: Ctx, hole: Node?)
  {
    match c
    case Top => root == hole
    case In(up, b, n, red, s) =>
      && n in m
      && m[n] == (if b then Cell(hole, Root(s), Above(up), red) else Cell(Root(s), hole, Above(up), red))
      && Rep(m, s, n)
      && RepC(m, root, up, n)
  }

  /** The snapshot `m` with root pointer `root` spells out `t` in the context `c`. */
  predicate RepZ(m: Cells, root: Node?, c: Ctx, t: Tree)
  {
    SepZ(c, t) && Rep(m, t, Above(c)) && RepC(m, root, c, Root(t))
  }

  lemma {:induction false} ZipRep(m: Cells, root: Node?, c: Ctx, t: Tree)
    requires c.In?
    ensures RepZ(m, root, c, t) <==> RepZ(m, root, c.up, Mk(c.isLeft, t, c.node, c.red, c.sib))
    ensures NodesZ(c, t) == NodesZ(c.up, Mk(c.isLeft, t, c.node, c.red, c.sib))
  {
  }

  /** Moving the focus to the parent, or back. */
  lemma {:induction false} ZipUp(m: Cells, root: Node?, c: Ctx, t: Tree)
    requires c.In?
    ensures RepZ(m, root, c, t) <==> RepZ(m, root, c.up, Mk(c.isLeft, t, c.node, c.red, c.sib))
    ensures NodesZ(c, t) == NodesZ(c.up, Mk(c.isLeft, t, c.node, c.red, c.sib))
    ensures ElemsZ(c, t) == ElemsZ(c.up, Mk(c.isLeft, t, c.node, c.red, c.sib))
    ensures Plug(c, t) == Plug(c.up, Mk(c.isLeft, t, c.node, c.red, c.sib))
  {
    ZipRep(m, root, c, t);
    ElemsUp(c.up, c.isLeft, c.node, c.red, c.sib, t);
  }

  lemma {:induction false} ZipPlug(m: Cells, root: Node?, c: Ctx, t: Tree)
    ensures RepZ(m, root, c, t) <==> RepZ(m, root, Top, Plug(c, t))
    ensures NodesZ(c, t) == Nodes(Plug(c, t)) && ElemsZ(c, t) == Elems(Plug(c, t))
    decreases c
  {
    ElemsPlug(c, t);
    if c.In? {
      ZipUp(m, root, c, t);
      ZipPlug(m, root, c.up, Mk(c.isLeft, t, c.node, c.red, c.sib));
    }
  }

  /** What the link fields show from a focus: the parent, the side it hangs on and the sibling. */
  lemma {:induction false} Look(m: Cells, root: Node?, c: Ctx, t: Tree)
    requires RepZ(m, root, c, t)
    ensures t.T? ==> t.node in m && t.node in NodesZ(c, t)
    ensures t.T? ==> m[t.node] == Cell(Root(t.left), Root(t.right), Above(c), t.red)
    ensures c.Top? ==> root == Root(t)
    ensures c.In? ==> c.node in m && c.node in NodesZ(c, t) && m[c.node].parent == Above(c.up) && m[c.node].red == c.red
    ensures c.In? ==> Get(m[c.node], c.isLeft) == Root(t) && Get(m[c.node], !c.isLeft) == Root(c.sib)
    ensures c.In? && t.T? ==> Root(c.sib) != t.node && c.node != t.node
  {
    if c.In? {
      RootInNodes(t);
      RootInNodes(c.sib);
    }
  }

  // ---------- frames ----------

  ghost predicate SameOn(m: Cells, m': Cells, s: set<Node>)
  {
    forall n :: n in s && n in m ==> n in m' && m'[n] == m[n]
  }

  lemma {:induction false} RepFrame(m: Cells, m': Cells, t: Tree, p: Node?)
    requires Rep(m, t, p) && SameOn(m, m', Nodes(t))
    ensures Rep(m', t, p)
  {
    if t.Nil? {
    } else {
      RepFrame(m, m', t.left, t.node);
      RepFrame(m, m', t.right, t.node);
    }
  }

  lemma {:induction false} RepCFrame(m: Cells, m': Cells, root: Node?, c: Ctx, h: Node?)
    requires RepC(m, root, c, h) && SameOn(m, m', NodesC(c))
    ensures RepC(m', root, c, h)
  {
    if c.Top? {
    } else {
      RepFrame(m, m', c.sib, c.node);
      RepCFrame(m, m', root, c.up, c.node);
    }
  }

  /** Cells outside the written set `w` are as before. */
  ghost predicate Writes(m: Cells, m': Cells, w: set<Node?>)
  {
    forall n :: n in m && n !in w ==> n in m' && m'[n] == m[n]
  }

  lemma {:induction false} SameOutside(m: Cells, m': Cells, w: set<Node?>, s: set<Node>)
    requires Writes(m, m', w) && forall n :: n in s ==> n !in w
    ensures SameOn(m, m', s)
  {
  }

  lemma {:induction false} SameButOne(m: Cells, m1: Cells, m': Cells, w: set<Node?>, s: set<Node>, r: Node)
    requires Writes(m, m', w) && forall n :: n in s && n != r ==> n !in w
    requires r in m && r in m' && m1 == m[r := m'[r]]
    ensures SameOn(m1, m', s)
  {
  }

  /** The snapshot after the parent of the hole is made to point to `h`. */
  function Relink(m: Cells, c: Ctx, h: Node?): Cells
    requires c.In? ==> c.node in m
  {
    if c.Top? then m
    else if c.isLeft then m[c.node := m[c.node].(left := h)]
    else m[c.node := m[c.node].(right := h)]
  }

  function NewRoot(root: Node?, c: Ctx, h: Node?): Node?
  {
    if c.Top? then h else root
  }

  lemma {:induction false} RelinkRep(m: Cells, m': Cells, root: Node?, c: Ctx, h: Node?, h': Node?)
    requires SepC(c) && RepC(m, root, c, h)
    requires SameOn(Relink(m, c, h'), m', NodesC(c))
    ensures RepC(m', NewRoot(root, c, h'), c, h')
  {
    if c.In? {
      RepFrame(m, m', c.sib, c.node);
      RepCFrame(m, m', root, c.up, c.node);
    }
  }

  function Reparent(m: Cells, t: Tree, p: Node?): Cells
    requires t.T? ==> t.node in m
  {
    if t.Nil? then m else m[t.node := m[t.node].(parent := p)]
  }

  lemma {:induction false} ReparentRep(m: Cells, m': Cells, t: Tree, p: Node?, p': Node?)
    requires Sep(t) && Rep(m, t, p)
    requires SameOn(Reparent(m, t, p'), m', Nodes(t))
    ensures Rep(m', t, p')
  {
    if t.T? {
      RepFrame(m, m', t.left, t.node);
      RepFrame(m, m', t.right, t.node);
    }
  }

  // ---------- colour ----------

  function Paint(t: Tree, red: bool): Tree
  {
    if t.Nil? then Nil else t.(red := red)
  }

  function PaintCell(m: Cells, n: Node, red: bool): Cells
    requires n in m
  {
    m[n := m[n].(red := red)]
  }

  lemma {:induction false} PaintElems(c: Ctx, t: Tree, red: bool)
    ensures Elems(Paint(t, red)) == Elems(t) && Nodes(Paint(t, red)) == Nodes(t)
    ensures ElemsZ(c, Paint(t, red)) == ElemsZ(c, t) && NodesZ(c, Paint(t, red)) == NodesZ(c, t)
  {
  }

  lemma {:induction false} PaintRep(m: Cells, root: Node?, c: Ctx, t: Tree, red: bool)
    requires t.T? && RepZ(m, root, c, t)
    ensures t.node in m && RepZ(PaintCell(m, t.node, red), root, c, Paint(t, red))
  {
    var m' := PaintCell(m, t.node, red);
    PaintElems(c, t, red);
    RepFrame(m, m', t.left, t.node);
    RepFrame(m, m', t.right, t.node);
    RepCFrame(m, m', root, c, t.node);
  }

  // ---------- rotation ----------

  /** `x` with its child on the far side from `b`, rotated so that this child comes to the top. */
  function Rotated(b: bool, a: Tree, x: Node, xr: bool, u: Tree, y: Node, yr: bool, v: Tree): Tree
  {
    Mk(b, Mk(b, a, x, xr, u), y, yr, v)
  }

  function Unrotated(b: bool, a: Tree, x: Node, xr: bool, u: Tree, y: Node, yr: bool, v: Tree): Tree
  {
    Mk(b, a, x, xr, Mk(b, u, y, yr, v))
  }

  function Get(c: Cell, left: bool): Node?
  {
    if left then c.left else c.right
  }

  function Put(c: Cell, left: bool, h: Node?): Cell
  {
    if left then c.(left := h) else c.(right := h)
  }

  /** The links that a rotation of `x` follows are not NULL where they must not be, and do not alias. */
  ghost predicate CanRotate(b: bool, m: Cells, x: Node)
  {
    && x in m
    && var y, p := Get(m[x], !b), m[x].parent;
    && y != null && y in m && y != x
    && var mid := Get(m[y], b);
    && (mid != null ==> mid in m && mid != x && mid != y)
    && (p != null ==> p in m && p != x && p != y && p != mid)
  }

  /** `m'` differs from `m` by RB_ROTATE_LEFT (`b`) or RB_ROTATE_RIGHT (`!b`) of `x`. */
  ghost predicate IsRotation(b: bool, m: Cells, m': Cells, x: Node)
    requires CanRotate(b, m, x)
  {
    var y, p := Get(m[x], !b), m[x].parent;
    var mid := Get(m[y], b);
    && m'.Keys == m.Keys
    && m'[x] == Put(m[x], !b, mid).(parent := y)
    && m'[y] == Put(m[y], b, x).(parent := p)
    && (mid != null ==> m'[mid] == m[mid].(parent := x))
    && (p != null ==> m'[p] == Put(m[p], m[p].left == x, y))
    && Writes(m, m', {x, y, mid, p})
  }

  /** The five pieces a rotation rearranges share no node. */
  ghost predicate Apart(c: Ctx, a: Tree, x: Node, u: Tree, y: Node, v: Tree)
  {
    && SepC(c) && Sep(a) && Sep(u) && Sep(v) && x != y
    && x !in Nodes(a) && x !in Nodes(u) && x !in Nodes(v) && x !in NodesC(c)
    && y !in Nodes(a) && y !in Nodes(u) && y !in Nodes(v) && y !in NodesC(c)
    && Nodes(a) !! Nodes(u) && Nodes(a) !! Nodes(v) && Nodes(u) !! Nodes(v)
    && Nodes(a) !! NodesC(c) && Nodes(u) !! NodesC(c) && Nodes(v) !! NodesC(c)
  }

  lemma {:induction false} NodesMk(b: bool, t: Tree, n: Node, red: bool, s: Tree)
    ensures Nodes(Mk(b, t, n, red, s)) == Nodes(t) + {n} + Nodes(s)
    ensures Sep(Mk(b, t, n, red, s)) <==> Sep(t) && Sep(s) && n !in Nodes(t) && n !in Nodes(s) && Nodes(t) !! Nodes(s)
  {
  }

  lemma {:induction false} RepMk(m: Cells, b: bool, t: Tree, n: Node, red: bool, s: Tree, p: Node?)
    ensures Rep(m, Mk(b, t, n, red, s), p) <==>
            n in m && m[n] == Put(Put(Cell(null, null, p, red), b, Root(t)), !b, Root(s)) && Rep(m, t, n) &&
                Rep(m, s, n)
  {
  }

  lemma {:induction false} UnrotatedApart(b: bool, c: Ctx, a: Tree, x: Node, xr: bool, u: Tree, y: Node, yr: bool,
      v: Tree)
    ensures Nodes(Unrotated(b, a, x, xr, u, y, yr, v)) == Nodes(a) + {x} + Nodes(u) + {y} + Nodes(v)
    ensures SepZ(c, Unrotated(b, a, x, xr, u, y, yr, v)) <==> Apart(c, a, x, u, y, v)
  {
    NodesMk(b, u, y, yr, v);
    NodesMk(b, a, x, xr, Mk(b, u, y, yr, v));
  }

  lemma {:induction false} RotatedApart(b: bool, c: Ctx, a: Tree, x: Node, xr: bool, u: Tree, y: Node, yr: bool,
      v: Tree)
    ensures Nodes(Rotated(b, a, x, xr, u, y, yr, v)) == Nodes(a) + {x} + Nodes(u) + {y} + Nodes(v)
    ensures SepZ(c, Rotated(b, a, x, xr, u, y, yr, v)) <==> Apart(c, a, x, u, y, v)
  {
    NodesMk(b, a, x, xr, u);
    NodesMk(b, Mk(b, a, x, xr, u), y, yr, v);
  }

  lemma {:induction false} RootInNodes(t: Tree)
    ensures t.T? ==> t.node in Nodes(t)
  {
  }

  lemma {:induction false} HoleSide(m: Cells, root: Node?, c: Ctx, h: Node)
    requires RepC(m, root, c, h) && SepC(c) && h !in NodesC(c)
    ensures c.In? ==> c.node in m && c.node in NodesC(c) && (m[c.node].left == h <==> c.isLeft)
  {
    if c.In? {
      RootInNodes(c.sib);
    }
  }

  lemma {:induction false} RotateDefined(b: bool, m: Cells, a: Tree, x: Node, xr: bool, u: Tree, y: Node, yr: bool,
      v: Tree, p: Node?)
    requires Rep(m, Unrotated(b, a, x, xr, u, y, yr, v), p)
    ensures Rep(m, a, x) && Rep(m, u, y) && Rep(m, v, y)
    ensures x in m && m[x] == Put(Put(Cell(null, null, p, xr), b, Root(a)), !b, y)
    ensures y in m && m[y] == Put(Put(Cell(null, null, x, yr), b, Root(u)), !b, Root(v))
  {
    RepMk(m, b, a, x, xr, Mk(b, u, y, yr, v), p);
    RepMk(m, b, u, y, yr, v, x);
  }

  lemma {:induction false} RotateCells(b: bool, m: Cells, m': Cells, x: Node, y: Node, p: Node?, a: Node?, xr: bool,
      u: Node?, yr: bool, v: Node?)
    requires CanRotate(b, m, x) && IsRotation(b, m, m', x)
    requires m[x] == Put(Put(Cell(null, null, p, xr), b, a), !b, y)
    requires y in m && m[y] == Put(Put(Cell(null, null, x, yr), b, u), !b, v)
    ensures m'[x] == Put(Put(Cell(null, null, y, xr), b, a), !b, u)
    ensures m'[y] == Put(Put(Cell(null, null, p, yr), b, x), !b, v)
    ensures Writes(m, m', {x, y, u, p})
    ensures u != null ==> u in m && m'[u] == m[u].(parent := x)
    ensures p != null ==> p in m && m'[p] == Put(m[p], m[p].left == x, y)
    ensures m'.Keys == m.Keys
  {
  }

  lemma {:induction false} RotateFrames(m: Cells, m': Cells, root: Node?, c: Ctx, a: Tree, x: Node, u: Tree, y: Node,
      v: Tree)
    requires Apart(c, a, x, u, y, v)
    requires Writes(m, m', {x, y, Root(u), Above(c)})
    requires u.T? ==> u.node in m && u.node in m' && m'[u.node] == m[u.node].(parent := x)
    requires c.In? ==> c.node in m && c.node in m' && m'[c.node] == Put(m[c.node], c.isLeft, y)
    requires u.T? ==> u.node in Nodes(u)
    requires c.In? ==> c.node in NodesC(c)
    ensures SameOn(m, m', Nodes(a)) && SameOn(m, m', Nodes(v))
    ensures SameOn(Reparent(m, u, x), m', Nodes(u)) && SameOn(Relink(m, c, y), m', NodesC(c))
  {
    var w := {x, y, Root(u), Above(c)};
    SameOutside(m, m', w, Nodes(a));
    SameOutside(m, m', w, Nodes(v));
    if u.T? {
      SameButOne(m, Reparent(m, u, x), m', w, Nodes(u), u.node);
    }
    if c.In? {
      SameButOne(m, Relink(m, c, y), m', w, NodesC(c), c.node);
    }
  }

  lemma {:induction false} RotatePossible(b: bool, m: Cells, root: Node?, c: Ctx, a: Tree, x: Node, xr: bool,
      u: Tree, y: Node, yr: bool, v: Tree)
    requires RepZ(m, root, c, Unrotated(b, a, x, xr, u, y, yr, v))
    ensures CanRotate(b, m, x) && Get(m[x], !b) == y && m[x].parent == Above(c)
  {
    RotateDefined(b, m, a, x, xr, u, y, yr, v, Above(c));
    UnrotatedApart(b, c, a, x, xr, u, y, yr, v);
    HoleSide(m, root, c, x);
    RootInNodes(u);
  }

  /** One rotation re-hangs three links and leaves everything else in place. */
  lemma {:induction false} RotateRep(b: bool, m: Cells, m': Cells, root: Node?, c: Ctx, a: Tree, x: Node, xr: bool,
      u: Tree, y: Node, yr: bool, v: Tree)
    requires RepZ(m, root, c, Unrotated(b, a, x, xr, u, y, yr, v))
    requires CanRotate(b, m, x) && IsRotation(b, m, m', x)
    ensures RepZ(m', NewRoot(root, c, y), c, Rotated(b, a, x, xr, u, y, yr, v))
  {
    RotateDefined(b, m, a, x, xr, u, y, yr, v, Above(c));
    UnrotatedApart(b, c, a, x, xr, u, y, yr, v);
    RotateCells(b, m, m', x, y, Above(c), Root(a), xr, Root(u), yr, Root(v));
    HoleSide(m, root, c, x);
    RootInNodes(u);
    RotateFrames(m, m', root, c, a, x, u, y, v);
    RotateAssemble(b, m, m', root, c, a, x, xr, u, y, yr, v);
  }

  lemma {:induction false} RotateAssemble(b: bool, m: Cells, m': Cells, root: Node?, c: Ctx, a: Tree, x: Node,
      xr: bool, u: Tree, y: Node, yr: bool, v: Tree)
    requires Apart(c, a, x, u, y, v)
    requires Rep(m, a, x) && Rep(m, u, y) && Rep(m, v, y) && RepC(m, root, c, x)
    requires x in m' && m'[x] == Put(Put(Cell(null, null, y, xr), b, Root(a)), !b, Root(u))
    requires y in m' && m'[y] == Put(Put(Cell(null, null, Above(c), yr), b, x), !b, Root(v))
    requires SameOn(m, m', Nodes(a)) && SameOn(m, m', Nodes(v))
    requires SameOn(Reparent(m, u, x), m', Nodes(u)) && SameOn(Relink(m, c, y), m', NodesC(c))
    ensures RepZ(m', NewRoot(root, c, y), c, Rotated(b, a, x, xr, u, y, yr, v))
  {
    RepFrame(m, m', a, x);
    RepFrame(m, m', v, y);
    ReparentRep(m, m', u, y, x);
    RelinkRep(m, m', root, c, x, y);
    RepMk(m', b, a, x, xr, u, y);
    RepMk(m', b, Mk(b, a, x, xr, u), y, yr, v, Above(c));
    RotatedApart(b, c, a, x, xr, u, y, yr, v);
  }

  lemma {:induction false} RegroupSeq<X>(a: seq<X>, x: seq<X>, u: seq<X>, y: seq<X>, v: seq<X>)
    ensures a + x + (u + y + v) == (a + x + u) + y + v
  {
  }

  lemma {:induction false} RotateElems(b: bool, c: Ctx, a: Tree, x: Node, xr: bool, u: Tree, y: Node, yr: bool, v: Tree)
    ensures Elems(Rotated(b, a, x, xr, u, y, yr, v)) == Elems(Unrotated(b, a, x, xr, u, y, yr, v))
    ensures ElemsZ(c, Rotated(b, a, x, xr, u, y, yr, v)) == ElemsZ(c, Unrotated(b, a, x, xr, u, y, yr, v))
    ensures NodesZ(c, Rotated(b, a, x, xr, u, y, yr, v)) == NodesZ(c, Unrotated(b, a, x, xr, u, y, yr, v))
  {
    UnrotatedApart(b, c, a, x, xr, u, y, yr, v);
    RotatedApart(b, c, a, x, xr, u, y, yr, v);
    if b {
      RegroupSeq(Elems(a), [x], Elems(u), [y], Elems(v));
      assert Elems(T(u, y, yr, v)) == Elems(u) + [y] + Elems(v);
      assert Elems(T(a, x, xr, u)) == Elems(a) + [x] + Elems(u);
    } else {
      RegroupSeq(Elems(v), [y], Elems(u), [x], Elems(a));
      assert Elems(T(v, y, yr, u)) == Elems(v) + [y] + Elems(u);
      assert Elems(T(u, x, xr, a)) == Elems(u) + [x] + Elems(a);
    }
  }

  // ---------- hanging a new leaf ----------

  function Leaf(n: Node): Tree
  {
    T(Nil, n, true, Nil)
  }

  lemma {:induction false} AttachRep(m: Cells, m': Cells, root: Node?, c: Ctx, n: Node)
    requires RepZ(m, root, c, Nil) && n !in NodesC(c)
    requires n in m' && m'[n] == Cell(null, null, Above(c), true)
    requires (c.In? ==> c.node in m) && SameOn(Relink(m, c, n), m', NodesC(c))
    ensures RepZ(m', NewRoot(root, c, n), c, Leaf(n))
    ensures NodesZ(c, Leaf(n)) == NodesZ(c, Nil) + {n} && ElemsZ(c, Leaf(n)) == Pre(c) + [n] + Post(c)
  {
    RelinkRep(m, m', root, c, null, n);
    assert Nodes(Leaf(n)) == {n} && Elems(Leaf(n)) == [n];
  }

  // ---------- taking a node out ----------

  lemma {:induction false} Locate(c: Ctx, t: Tree, n: Node) returns (c': Ctx, t': Tree)
    requires n in Nodes(t)
    ensures Plug(c', t') == Plug(c, t) && t'.T? && t'.node == n
    decreases t
  {
    if t.node == n {
      c', t' := c, t;
    } else if n in Nodes(t.left) {
      c', t' := Locate(In(c, true, t.node, t.red, t.right), t.left, n);
    } else {
      c', t' := Locate(In(c, false, t.node, t.red, t.left), t.right, n);
    }
  }

  lemma {:induction false} Restrict(m: Cells, m': Cells, root: Node?, c: Ctx, t: Tree)
    requires RepZ(m, root, c, t) && SameOn(m, m', NodesZ(c, t))
    ensures RepZ(m', root, c, t)
  {
    RepFrame(m, m', t, Above(c));
    RepCFrame(m, m', root, c, Root(t));
  }

  /** `m'` differs from `m` by `child` taking the place of `n` under `parent`. */
  ghost predicate IsSplice(m: Cells, m': Cells, n: Node, child: Node?, parent: Node?)
  {
    && m'.Keys == m.Keys
    && (child != null ==> child in m && m'[child] == m[child].(parent := parent))
    && (parent != null ==> parent in m && m'[parent] == Put(m[parent], m[parent].left == n, child))
    && Writes(m, m', {child, parent})
  }

  lemma {:induction false} SpliceNodes(c: Ctx, t: Tree, child: Tree)
    requires t.T? && SepZ(c, t) && ((t.left.Nil? && child == t.right) || (t.right.Nil? && child == t.left))
    ensures NodesZ(c, child) == NodesZ(c, t) - {t.node} && SepZ(c, child)
    ensures child.T? ==> child.node in Nodes(child) && child.node in NodesZ(c, t)
    ensures c.In? ==> c.node in NodesC(c)
    ensures t.node !in NodesC(c) && t.node !in Nodes(child)
  {
  }

  /** A node with at most one child makes way for that child. */
  lemma {:induction false} SpliceRep(m: Cells, m': Cells, root: Node?, c: Ctx, t: Tree, child: Tree)
    requires t.T? && RepZ(m, root, c, t) && ((t.left.Nil? && child == t.right) || (t.right.Nil? && child == t.left))
    requires IsSplice(m, m', t.node, Root(child), Above(c))
    ensures RepZ(m', NewRoot(root, c, Root(child)), c, child)
  {
    SpliceNodes(c, t, child);
    HoleSide(m, root, c, t.node);
    if child.T? {
      SameButOne(m, Reparent(m, child, Above(c)), m', {child.node, Above(c)}, Nodes(child), child.node);
    }
    if c.In? {
      SameButOne(m, Relink(m, c, Root(child)), m', {Root(child), c.node}, NodesC(c), c.node);
    }
    assert Rep(m, child, t.node);
    RelinkRep(m, m', root, c, t.node, Root(child));
    ReparentRep(m, m', child, t.node, Above(c));
  }

  /** `m'` differs from `m` by `x` taking over the links and the place of `was`. */
  ghost predicate IsReplace(m: Cells, m': Cells, x: Node, was: Node)
    requires was in m && m[was].left != null
  {
    var l, r, p := m[was].left, m[was].right, m[was].parent;
    && m'.Keys == m.Keys + {x} && m'[x] == m[was]
    && l in m && m'[l] == m[l].(parent := x)
    && (r != null ==> r in m && m'[r] == m[r].(parent := x))
    && (p != null ==> p in m && m'[p] == Put(m[p], m[p].left == was, x))
    && Writes(m, m', {l, r, p})
  }

  lemma {:induction false} ReplaceNodes(c: Ctx, t: Tree, x: Node)
    requires t.T? && SepZ(c, t) && x !in NodesZ(c, t)
    ensures NodesZ(c, t.(node := x)) == NodesZ(c, t) - {t.node} + {x} && SepZ(c, t.(node := x))
    ensures t.left.T? ==> t.left.node in Nodes(t.left) && t.left.node in NodesZ(c, t)
    ensures t.right.T? ==> t.right.node in Nodes(t.right) && t.right.node in NodesZ(c, t)
    ensures c.In? ==> c.node in NodesC(c)
    ensures t.node !in NodesC(c) && t.node !in Nodes(t.left) && t.node !in Nodes(t.right)
    ensures Nodes(t.left) !! NodesC(c) && Nodes(t.right) !! NodesC(c) && Nodes(t.left) !! Nodes(t.right)
  {
  }

  /** `x` takes over the place, the links and the colour of `t.node`. */
  lemma {:induction false} ReplaceRep(m: Cells, m': Cells, root: Node?, c: Ctx, t: Tree, x: Node)
    requires t.T? && t.left.T? && RepZ(m, root, c, t) && x !in NodesZ(c, t) && IsReplace(m, m', x, t.node)
    ensures RepZ(m', NewRoot(root, c, x), c, t.(node := x))
  {
    ReplaceNodes(c, t, x);
    HoleSide(m, root, c, t.node);
    var w := {t.left.node, Root(t.right), Above(c)};
    SameButOne(m, Reparent(m, t.left, x), m', w, Nodes(t.left), t.left.node);
    if t.right.T? {
      SameButOne(m, Reparent(m, t.right, x), m', w, Nodes(t.right), t.right.node);
    }
    if c.In? {
      SameButOne(m, Relink(m, c, x), m', w, NodesC(c), c.node);
    }
    RelinkRep(m, m', root, c, t.node, x);
    ReparentRep(m, m', t.left, t.node, x);
    ReparentRep(m, m', t.right, t.node, x);
  }

  /** The root pointer is a node of the context, unless the focus is the whole tree. */
  lemma {:induction false} RootAbove(m: Cells, root: Node?, c: Ctx, h: Node?)
    requires RepC(m, root, c, h) && c.In?
    ensures root != null && root in NodesC(c)
  {
    if c.up.Top? {
    } else {
      RootAbove(m, root, c.up, c.node);
    }
  }

  // ---------- a path inside a subtree ----------

  /** The path `rel` inside a subtree, continued by the path `base` above it. */
  function Over(rel: Ctx, base: Ctx): Ctx
  {
    match rel
    case Top => base
    case In(up, b, n, red, s) => In(Over(up, base), b, n, red, s)
  }

  predicate AllLeft(rel: Ctx)
  {
    rel.Top? || (rel.isLeft && AllLeft(rel.up))
  }

  lemma {:induction false} PlugOver(rel: Ctx, base: Ctx, t: Tree)
    ensures Plug(Over(rel, base), t) == Plug(base, Plug(rel, t))
    decreases rel
  {
    if rel.Top? {
    } else {
      PlugOver(rel.up, base, Mk(rel.isLeft, t, rel.node, rel.red, rel.sib));
    }
  }

  lemma {:induction false} OverNodes(rel: Ctx, c: Ctx, n: Node, red: bool, s: Tree)
    ensures n in NodesC(Over(rel, In(c, false, n, red, s)))
  {
    if rel.Top? {
    } else {
      OverNodes(rel.up, c, n, red, s);
    }
  }

  /** The joint node is above the hole only when the inner path is empty. */
  lemma {:induction false} OverAbove(rel: Ctx, c: Ctx, n: Node, red: bool, s: Tree, x: Node)
    requires SepC(Over(rel, In(c, false, n, red, s))) && x !in NodesC(Over(rel, In(c, false, n, red, s)))
    ensures x != n && (Above(Over(rel, In(c, false, n, red, s))) == n <==> rel.Top?)
    ensures Above(Over(rel, In(c, false, x, red, s))) == if rel.Top? then x else rel.node
  {
    OverNodes(rel, c, n, red, s);
    if rel.In? {
      OverNodes(rel.up, c, n, red, s);
    }
  }

  lemma {:induction false} SwapSet(s: set<Node>, x: Node, y: Node)
    requires x in s && y in s && x != y
    ensures s - {y} == s - {x} - {y} + {x}
  {
  }

  lemma {:induction false} AllLeftPre(rel: Ctx)
    requires AllLeft(rel)
    ensures Pre(rel) == []
  {
    if rel.In? {
      AllLeftPre(rel.up);
    }
  }

  /** The leftmost node comes first, and the rest follows when its child takes its place. */
  lemma {:induction false} LeftmostElems(rel: Ctx, e: Node, red: bool, child: Tree)
    requires AllLeft(rel)
    ensures Elems(Plug(rel, T(Nil, e, red, child))) == [e] + Elems(Plug(rel, child))
  {
    AllLeftPre(rel);
    ElemsPlug(rel, T(Nil, e, red, child));
    ElemsPlug(rel, child);
    assert Elems(T(Nil, e, red, child)) == [e] + Elems(child);
    assert [e] + Elems(child) + Post(rel) == [e] + (Elems(child) + Post(rel));
  }

  /** The in-order sequence without the node at the focus. */
  function Without(c: Ctx, t: Tree): seq<Node>
    requires t.T?
  {
    (Pre(c) + Elems(t.left)) + (Elems(t.right) + Post(c))
  }

  lemma {:induction false} ThinElems(c: Ctx, t: Tree, ch: Tree)
    requires t.T? && ((t.left.Nil? && ch == t.right) || (t.right.Nil? && ch == t.left))
    ensures ElemsZ(c, ch) == Without(c, t)
  {
  }

  lemma {:induction false} FatElems(c: Ctx, t: Tree, rel: Ctx, ti: Tree)
    requires t.T? && ti.T? && ti.left.Nil? && AllLeft(rel) && Plug(rel, ti) == t.right
    ensures ElemsZ(c, T(t.left, ti.node, t.red, Plug(rel, ti.right))) == Without(c, t)
  {
    LeftmostElems(rel, ti.node, ti.red, ti.right);
    var p, l, x, r, q := Pre(c), Elems(t.left), [ti.node], Elems(Plug(rel, ti.right)), Post(c);
    assert p + (l + x + r) + q == (p + l) + ((x + r) + q);
  }
}
