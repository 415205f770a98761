/**
 What a splay does as a function of the tree, and the balance theorem: how many rounds of the loop
 any sequence of operations takes, by the potential of Sleator and Tarjan with whole logarithms.
 */
module SplayCost {
  import opened RbShape
  import opened RbOrder
  import opened SplayShape

  // ---------- the splay as a function ----------

  /** The child on the side `left`. */
  function Near(left: bool, t: Bst): Bst
    requires t.Fork?
  {
    if left then t.left else t.right
  }

  function Far(left: bool, t: Bst): Bst
    requires t.Fork?
  {
    if left then t.right else t.left
  }

  /** The search for `key` goes on from `n` on the side `left`. */
  predicate Goes(cmp: Compare, key: int, left: bool, n: Node)
  {
    if left then cmp(key, n.key) < 0 else cmp(key, n.key) > 0
  }

  /** The tree with its child on the side `left` rotated to the root. */
  function Turned(left: bool, t: Bst): Bst
    requires t.Fork? && Near(left, t).Fork?
  {
    var n := Near(left, t);
    Join(left, Near(left, n), n.node, Join(left, Far(left, n), t.node, Far(left, t)))
  }

  /** What a round of the loop finds: the key, an end of the path, two steps to one side, or one. */
  datatype Kind = Hit | Edge(left: bool) | LastTwo(left: bool) | Two(left: bool) | One(left: bool)

  function KindOf(cmp: Compare, key: int, t: Bst): (k: Kind)
    requires t.Fork?
    ensures !k.Hit? ==> Goes(cmp, key, k.left, t.node)
    ensures k.LastTwo? || k.Two? || k.One? ==> Near(k.left, t).Fork?
    ensures k.Two? ==> Near(k.left, Near(k.left, t)).Fork?
  {
    if cmp(key, t.node.key) == 0 then Hit
    else
      var left := cmp(key, t.node.key) < 0;
      var n := Near(left, t);
      if n.Tip? then Edge(left)
      else if !Goes(cmp, key, left, n.node) then One(left)
      else if Near(left, n).Tip? then LastTwo(left)
      else Two(left)
  }

  /** The tree that the search goes on in. */
  function NextOf(k: Kind, t: Bst): (r: Bst)
    requires k.Two? || k.One?
    requires t.Fork? && Near(k.left, t).Fork? && (k.Two? ==> Near(k.left, Near(k.left, t)).Fork?)
    ensures r.Fork? && Size(r) < Size(t)
  {
    if k.Two? then Near(k.left, Near(k.left, t)) else Near(k.left, t)
  }

  /** What a round links to the spine on its side: a node, and the subtree that goes with it. */
  function LinkedOf(k: Kind, t: Bst): (r: (Node, Bst))
    requires k.Two? || k.One?
    requires t.Fork? && Near(k.left, t).Fork?
  {
    if k.Two? then (Near(k.left, t).node, Far(k.left, Turned(k.left, t))) else (t.node, Far(k.left, t))
  }

  /** The tree at which the loop ends. */
  function LastOf(k: Kind, t: Bst): (r: Bst)
    requires t.Fork? && (k.LastTwo? ==> Near(k.left, t).Fork?)
    ensures r.Fork?
  {
    if k.LastTwo? then Turned(k.left, t) else t
  }

  predicate Stops(k: Kind)
  {
    k.Hit? || k.Edge? || k.LastTwo?
  }

  /** The way of a splay: what each round links, to which side, and the tree at which the loop ends. */
  datatype Path = End(last: Bst) | Go(left: bool, node: Node, kept: Bst, next: Path)

  function PathOf(cmp: Compare, key: int, t: Bst): (p: Path)
    requires t.Fork?
    decreases Size(t)
  {
    var k := KindOf(cmp, key, t);
    if Stops(k) then End(LastOf(k, t))
    else Go(k.left, LinkedOf(k, t).0, LinkedOf(k, t).1, PathOf(cmp, key, NextOf(k, t)))
  }

  /** How often the loop body is entered. */
  function Rounds(cmp: Compare, key: int, t: Bst): nat
    requires t.Fork?
    decreases Size(t)
  {
    var k := KindOf(cmp, key, t);
    if k.Hit? then 0 else if Stops(k) then 1 else 1 + Rounds(cmp, key, NextOf(k, t))
  }

  predicate Ends(p: Path)
  {
    match p
    case End(t) => t.Fork?
    case Go(_, _, _, next) => Ends(next)
  }

  lemma {:induction false} PathEnds(cmp: Compare, key: int, t: Bst)
    requires t.Fork?
    ensures Ends(PathOf(cmp, key, t))
    decreases Size(t)
  {
    var k := KindOf(cmp, key, t);
    if Stops(k) {
    } else {
      PathEnds(cmp, key, NextOf(k, t));
    }
  }

  /** The tree that the rest of a splay makes with the spines `lo` and `hi`. */
  function Finish(lo: Spine, p: Path, hi: Spine): (r: Bst)
    requires Ends(p)
    ensures r.Fork?
    decreases p
  {
    match p
    case End(t) => Assembled(lo, t, hi)
    case Go(left, n, v, next) => if left then Finish(lo, next, More(hi, n, v)) else Finish(More(lo, n, v), next, hi)
  }

  function Splayed(cmp: Compare, key: int, t: Bst): (r: Bst)
    requires t.Fork?
    ensures r.Fork?
  {
    PathEnds(cmp, key, t);
    Finish(None, PathOf(cmp, key, t), None)
  }

  /** What one round of the loop does to the split `lo`, `t`, `hi`. */
  ghost predicate Rounded(cmp: Compare, key: int, lo: Spine, t: Bst, hi: Spine, stop: bool, lo': Spine, t': Bst,
      hi': Spine)
  {
    && t.Fork? && t'.Fork? && Ends(PathOf(cmp, key, t)) && Ends(PathOf(cmp, key, t'))
    && (stop ==> PathOf(cmp, key, t) == End(t') && lo' == lo && hi' == hi && Rounds(cmp, key, t) == 1)
    && (!stop ==> Finish(lo, PathOf(cmp, key, t), hi) == Finish(lo', PathOf(cmp, key, t'), hi'))
    && (!stop ==> Rounds(cmp, key, t) == 1 + Rounds(cmp, key, t'))
  }

  lemma {:induction false} LeftRound(cmp: Compare, key: int, lo: Spine, t: Bst, hi: Spine)
    requires t.Fork? && cmp(key, t.node.key) < 0
    ensures t.left.Tip? ==> Rounded(cmp, key, lo, t, hi, true, lo, t, hi) == true
    ensures t.left.Fork? && cmp(key, t.left.node.key) >= 0 ==>
              Rounded(cmp, key, lo, t, hi, false, lo, t.left, More(hi, t.node, t.right)) == true
    ensures t.left.Fork? && cmp(key, t.left.node.key) < 0 ==>
              var u := Fork(t.left.left, t.left.node, Fork(t.left.right, t.node, t.right));
              && (u.left.Tip? ==> Rounded(cmp, key, lo, t, hi, true, lo, u, hi) == true)
              && (u.left.Fork? ==> Rounded(cmp, key, lo, t, hi, false, lo, u.left, More(hi, u.node, u.right)) == true)
  {
    PathEnds(cmp, key, t);
    if t.left.Fork? {
      PathEnds(cmp, key, t.left);
      PathEnds(cmp, key, Fork(t.left.left, t.left.node, Fork(t.left.right, t.node, t.right)));
      if t.left.left.Fork? {
        PathEnds(cmp, key, t.left.left);
      }
    }
  }

  lemma {:induction false} RightRound(cmp: Compare, key: int, lo: Spine, t: Bst, hi: Spine)
    requires t.Fork? && cmp(key, t.node.key) > 0
    ensures t.right.Tip? ==> Rounded(cmp, key, lo, t, hi, true, lo, t, hi) == true
    ensures t.right.Fork? && cmp(key, t.right.node.key) <= 0 ==>
              Rounded(cmp, key, lo, t, hi, false, More(lo, t.node, t.left), t.right, hi) == true
    ensures t.right.Fork? && cmp(key, t.right.node.key) > 0 ==>
              var u := Fork(Fork(t.left, t.node, t.right.left), t.right.node, t.right.right);
              && (u.right.Tip? ==> Rounded(cmp, key, lo, t, hi, true, lo, u, hi) == true)
              && (u.right.Fork? ==> Rounded(cmp, key, lo, t, hi, false, More(lo, u.node, u.left), u.right, hi) == true)
  {
    PathEnds(cmp, key, t);
    if t.right.Fork? {
      PathEnds(cmp, key, t.right);
      PathEnds(cmp, key, Fork(Fork(t.left, t.node, t.right.left), t.right.node, t.right.right));
      if t.right.right.Fork? {
        PathEnds(cmp, key, t.right.right);
      }
    }
  }

  /** After `n` rounds the splay of `t` stands at the split `lo`, `u`, `hi`. */
  ghost predicate OnWay(cmp: Compare, key: int, t: Bst, lo: Spine, u: Bst, hi: Spine, n: nat)
  {
    && t.Fork? && u.Fork? && Ends(PathOf(cmp, key, u))
    && Finish(lo, PathOf(cmp, key, u), hi) == Splayed(cmp, key, t) && n + Rounds(cmp, key, u) == Rounds(cmp, key, t)
  }

  /** After `n` rounds the loop has ended there. */
  ghost predicate Arrived(cmp: Compare, key: int, t: Bst, lo: Spine, u: Bst, hi: Spine, n: nat)
  {
    t.Fork? && u.Fork? && Assembled(lo, u, hi) == Splayed(cmp, key, t) && n == Rounds(cmp, key, t)
  }

  lemma {:induction false} WayStarts(cmp: Compare, key: int, t: Bst)
    requires t.Fork?
    ensures OnWay(cmp, key, t, None, t, None, 0) == true
  {
    PathEnds(cmp, key, t);
  }

  lemma {:induction false} WayGoes(cmp: Compare, key: int, t: Bst, lo: Spine, u: Bst, hi: Spine, n: nat, stop: bool,
      lo': Spine, u': Bst, hi': Spine)
    requires OnWay(cmp, key, t, lo, u, hi, n) && Rounded(cmp, key, lo, u, hi, stop, lo', u', hi')
    ensures if stop then Arrived(cmp, key, t, lo', u', hi', n + 1) else OnWay(cmp, key, t, lo', u', hi', n + 1)
  {
  }

  lemma {:induction false} WayHits(cmp: Compare, key: int, t: Bst, lo: Spine, u: Bst, hi: Spine, n: nat)
    requires OnWay(cmp, key, t, lo, u, hi, n) && cmp(key, u.node.key) == 0
    ensures Arrived(cmp, key, t, lo, u, hi, n) == true
  {
  }

  // ---------- whole logarithms ----------

  function Lg(n: nat): nat
  {
    if n < 2 then 0 else 1 + Lg(n / 2)
  }

  lemma {:induction false} LgGrows(a: nat, b: nat)
    requires a <= b
    ensures Lg(a) <= Lg(b)
    decreases b
  {
    if b < 2 || a < 2 {
    } else {
      LgGrows(a / 2, b / 2);
    }
  }

  lemma {:induction false} LgSum(a: nat, b: nat)
    requires 1 <= a && 1 <= b && Lg(a) == Lg(b)
    ensures Lg(a + b) >= Lg(a) + 1
    decreases a + b
  {
    if a < 2 {
      assert b < 2;
    } else {
      LgSum(a / 2, b / 2);
      LgGrows(a / 2 + b / 2, (a + b) / 2);
    }
  }

  /** Two parts of a whole cannot both have its logarithm. */
  lemma {:induction false} LgParts(a: nat, b: nat, c: nat)
    requires 1 <= a && 1 <= b && a + b < c
    ensures Lg(a) + Lg(b) <= 2 * Lg(c) - 1
  {
    LgGrows(a, c);
    LgGrows(b, c);
    if Lg(a) == Lg(b) {
      LgSum(a, b);
      LgGrows(a + b, c);
    }
  }

  // ---------- potential ----------

  function Pot(t: Bst): nat
  {
    if t.Tip? then 0 else Pot(t.left) + Pot(t.right) + Lg(Size(t))
  }

  function SizeS(s: Spine): nat
  {
    if s.None? then 0 else SizeS(s.up) + 1 + Size(s.tree)
  }

  /** The potential of a spine at whose open end `m` nodes will hang. */
  function PotS(s: Spine, m: nat): nat
  {
    if s.None? then 0 else Pot(s.tree) + Lg(Size(s.tree) + 1 + m) + PotS(s.up, Size(s.tree) + 1 + m)
  }

  lemma {:induction false} JoinPot(left: bool, a: Bst, n: Node, b: Bst)
    ensures Size(Join(left, a, n, b)) == Size(a) + 1 + Size(b)
    ensures Pot(Join(left, a, n, b)) == Pot(a) + Pot(b) + Lg(Size(a) + 1 + Size(b))
  {
  }

  lemma {:induction false} ClosePot(low: bool, s: Spine, t: Bst)
    ensures Size(Close(low, s, t)) == SizeS(s) + Size(t)
    ensures Pot(Close(low, s, t)) == Pot(t) + PotS(s, Size(t))
    decreases s
  {
    if s.None? {
    } else {
      JoinPot(low, s.tree, s.node, t);
      ClosePot(low, s.up, Join(low, s.tree, s.node, t));
    }
  }

  lemma {:induction false} AssembledPot(lo: Spine, t: Bst, hi: Spine)
    requires t.Fork?
    ensures Size(Assembled(lo, t, hi)) == SizeS(lo) + Size(t) + SizeS(hi)
    ensures Pot(Assembled(lo, t, hi)) == PotS(lo, Size(t.left)) + PotS(hi, Size(t.right)) + Pot(t.left) + Pot(t.right)
                                         + Lg(SizeS(lo) + Size(t) + SizeS(hi))
  {
    ClosePot(true, lo, t.left);
    ClosePot(false, hi, t.right);
  }

  function SizeP(p: Path): nat
  {
    match p
    case End(t) => Size(t)
    case Go(_, _, v, next) => SizeP(next) + 1 + Size(v)
  }

  /** How many nodes of a path end on the upper (`up`) or the lower side of the root. */
  function Beyond(up: bool, p: Path): nat
    requires Ends(p)
  {
    match p
    case End(t) => Size(Far(up, t))
    case Go(left, _, v, next) => Beyond(up, next) + if left == up then Size(v) + 1 else 0
  }

  /** The potential in the end of the nodes of a path, but for the root. */
  function Rest(p: Path): nat
    requires Ends(p)
  {
    match p
    case End(t) => Pot(t.left) + Pot(t.right)
    case Go(left, _, v, next) => Rest(next) + Pot(v) + Lg(Beyond(left, p))
  }

  lemma {:induction false} BeyondSum(p: Path)
    requires Ends(p)
    ensures Beyond(true, p) + Beyond(false, p) + 1 == SizeP(p)
  {
    match p
    case End(t) =>
    case Go(_, _, _, next) => BeyondSum(next);
  }

  /** Where the potential of the finished tree comes from. */
  predicate Accounts(r: Bst, lo: Spine, p: Path, hi: Spine)
    requires Ends(p)
  {
    var n := SizeS(lo) + SizeP(p) + SizeS(hi);
    Size(r) == n && Pot(r) == PotS(lo, Beyond(false, p)) + PotS(hi, Beyond(true, p)) + Rest(p) + Lg(n)
  }

  lemma {:induction false} UpAccounts(r: Bst, lo: Spine, p: Path, hi: Spine)
    requires Ends(p) && p.Go? && p.left && Accounts(r, lo, p.next, More(hi, p.node, p.kept))
    ensures Accounts(r, lo, p, hi) == true
  {
  }

  lemma {:induction false} DownAccounts(r: Bst, lo: Spine, p: Path, hi: Spine)
    requires Ends(p) && p.Go? && !p.left && Accounts(r, More(lo, p.node, p.kept), p.next, hi)
    ensures Accounts(r, lo, p, hi) == true
  {
  }

  lemma {:induction false} FinishPot(lo: Spine, p: Path, hi: Spine)
    requires Ends(p)
    ensures Accounts(Finish(lo, p, hi), lo, p, hi) == true
    decreases p
  {
    match p
    case End(t) =>
      AssembledPot(lo, t, hi);
    case Go(left, n, v, next) =>
      if left {
        FinishPot(lo, next, More(hi, n, v));
        UpAccounts(Finish(lo, next, More(hi, n, v)), lo, p, hi);
      } else {
        FinishPot(More(lo, n, v), next, hi);
        DownAccounts(Finish(More(lo, n, v), next, hi), lo, p, hi);
      }
  }

  // ---------- one splay ----------

  lemma {:induction false} Sides(left: bool, t: Bst)
    requires t.Fork?
    ensures Size(t) == Size(Near(left, t)) + 1 + Size(Far(left, t))
    ensures Pot(t) == Pot(Near(left, t)) + Pot(Far(left, t)) + Lg(Size(t))
  {
  }

  /** A round of a single step goes on in `u`. */
  ghost predicate Single(cmp: Compare, key: int, t: Bst, p: Path, u: Bst)
  {
    && t.Fork? && u.Fork? && p.Go? && p.next == PathOf(cmp, key, u) && Rounds(cmp, key, t) == 1 + Rounds(cmp, key, u)
    && Size(t) == Size(u) + 1 + Size(p.kept) && Pot(t) == Pot(u) + Pot(p.kept) + Lg(Size(t))
  }

  /** A round of a double step goes on in `u`; the child of the root between them has `m` nodes. */
  ghost predicate Double(cmp: Compare, key: int, t: Bst, p: Path, u: Bst, m: nat)
  {
    && t.Fork? && u.Fork? && p.Go? && p.next == PathOf(cmp, key, u) && Rounds(cmp, key, t) == 1 + Rounds(cmp, key, u)
    && Size(t) == Size(u) + 1 + Size(p.kept) && Size(u) < m < Size(t) && Size(p.kept) >= 1
    && Pot(t) + Lg(Size(p.kept)) == Pot(u) + Pot(p.kept) + Lg(Size(t)) + Lg(m)
  }

  lemma {:induction false} SingleRound(cmp: Compare, key: int, t: Bst) returns (u: Bst)
    requires t.Fork? && KindOf(cmp, key, t).One?
    ensures Single(cmp, key, t, PathOf(cmp, key, t), u) == true && u == NextOf(KindOf(cmp, key, t), t)
  {
    var k := KindOf(cmp, key, t);
    Sides(k.left, t);
    u := NextOf(k, t);
  }

  lemma {:induction false} DoubleRound(cmp: Compare, key: int, t: Bst) returns (u: Bst, m: nat)
    requires t.Fork? && KindOf(cmp, key, t).Two?
    ensures Double(cmp, key, t, PathOf(cmp, key, t), u, m) == true && u == NextOf(KindOf(cmp, key, t), t)
  {
    var k := KindOf(cmp, key, t);
    var n := Near(k.left, t);
    Sides(k.left, t);
    Sides(k.left, n);
    JoinPot(k.left, Far(k.left, n), t.node, Far(k.left, t));
    u, m := NextOf(k, t), Size(n);
  }

  /** After a single step the path turns. */
  lemma {:induction false} SingleTurns(cmp: Compare, key: int, t: Bst)
    requires t.Fork? && KindOf(cmp, key, t).One? && !Stops(KindOf(cmp, key, NextOf(KindOf(cmp, key, t), t)))
    ensures var p := PathOf(cmp, key, t); p.Go? && p.next.Go? && p.next.left != p.left
  {
  }

  lemma {:induction false} LastRound(cmp: Compare, key: int, t: Bst)
    requires t.Fork? && Stops(KindOf(cmp, key, t))
    ensures var p := PathOf(cmp, key, t);
            Ends(p) && Rounds(cmp, key, t) <= 1 && Rest(p) <= Pot(t) && SizeP(p) == Size(t)
  {
    var k := KindOf(cmp, key, t);
    if k.LastTwo? {
      var n := Near(k.left, t);
      Sides(k.left, t);
      Sides(k.left, n);
      JoinPot(k.left, Far(k.left, n), t.node, Far(k.left, t));
      LgGrows(Size(Far(k.left, n)) + 1 + Size(Far(k.left, t)), Size(t));
    }
  }

  /** Rounds and the potential in the end are paid for by the potential before and three logarithms. */
  ghost predicate Paid(rounds: int, p: Path, t: Bst)
  {
    Ends(p) && SizeP(p) == Size(t) && rounds + 2 * Rest(p) <= 2 * Pot(t) + 3 * Lg(Size(t)) + 1
  }

  lemma {:induction false} RestOf(p: Path)
    requires Ends(p) && p.Go?
    ensures Rest(p) == Rest(p.next) + Pot(p.kept) + Lg(Beyond(p.left, p))
    ensures SizeP(p) == SizeP(p.next) + 1 + Size(p.kept)
    ensures Beyond(p.left, p) >= 1 && Beyond(!p.left, p) == Beyond(!p.left, p.next)
    ensures Beyond(p.left, p) + Beyond(!p.left, p) < SizeP(p)
  {
    BeyondSum(p);
  }

  lemma {:induction false} DoublePaid(cmp: Compare, key: int, t: Bst, p: Path, u: Bst, m: nat)
    requires Double(cmp, key, t, p, u, m) && Paid(Rounds(cmp, key, u), p.next, u)
    ensures Paid(Rounds(cmp, key, t), p, t) == true
  {
    RestOf(p);
    LgParts(Size(p.kept), Size(u), Size(t));
    LgGrows(Size(u), m);
    LgGrows(Size(u), Size(t));
    LgGrows(Size(p.kept), Size(t));
    LgGrows(Beyond(p.left, p), Size(t));
  }

  lemma {:induction false} SingleLastPaid(cmp: Compare, key: int, t: Bst, p: Path, u: Bst)
    requires Single(cmp, key, t, p, u) && Rounds(cmp, key, u) <= 1
    requires Ends(p.next) && Rest(p.next) <= Pot(u) && SizeP(p.next) == Size(u)
    ensures Paid(Rounds(cmp, key, t), p, t) == true
  {
    RestOf(p);
    LgGrows(Beyond(p.left, p), Size(t));
    LgGrows(2, Size(t));
    assert Lg(2) == 1;
  }

  /** The logarithms of what two rounds to different sides link are those of two parts of `t`. */
  lemma {:induction false} TwoSides(p: Path)
    requires Ends(p) && p.Go? && p.next.Go? && p.next.left != p.left
    ensures Lg(Beyond(p.left, p)) + Lg(Beyond(p.next.left, p.next)) <= 2 * Lg(SizeP(p)) - 1
  {
    RestOf(p);
    RestOf(p.next);
    LgParts(Beyond(p.left, p), Beyond(p.next.left, p.next), SizeP(p));
  }

  /** The sums for two single steps: `p`, `q` are potentials of what they link, `la`, `lb` its logarithms. */
  lemma {:induction false} SingleSums(rounds: int, rest: int, pot: int, p: int, q: int, lt: int, lu: int, lw: int,
      la: int, lb: int)
    requires rounds + 2 * rest <= 2 * pot + 3 * lw + 1 && la + lb <= 2 * lt - 1 && lw <= lu <= lt
    ensures 2 + rounds + 2 * (rest + q + lb + p + la) <= 2 * (pot + q + lu + p + lt) + 3 * lt + 1
  {
  }

  /** And for a single and a double step: `lv` is that of the part that turns, `lm` that of the child between. */
  lemma {:induction false} DoubleSums(rounds: int, rest: int, pot: int, p: int, q: int, lt: int, lu: int, lw: int,
      la: int, lb: int, lv: int, lm: int)
    requires rounds + 2 * rest <= 2 * pot + 3 * lw + 1 && la + lb <= 2 * lt - 1 && lw <= lu <= lt
    requires lv + lw <= 2 * lu - 1 && lw <= lm && lv <= lu
    ensures 2 + rounds + 2 * (rest + q + lb + p + la) <= 2 * (pot + (q - lv) + lu + lm + p + lt) + 3 * lt + 1
  {
  }

  lemma {:induction false} SingleSinglePaid(cmp: Compare, key: int, t: Bst, p: Path, u: Bst, w: Bst)
    requires Single(cmp, key, t, p, u) && Single(cmp, key, u, p.next, w) && p.next.left != p.left
    requires Paid(Rounds(cmp, key, w), p.next.next, w)
    ensures Paid(Rounds(cmp, key, t), p, t) == true
  {
    var q := p.next;
    RestOf(p);
    RestOf(q);
    TwoSides(p);
    LgGrows(Size(w), Size(u));
    LgGrows(Size(u), Size(t));
    SingleSums(Rounds(cmp, key, w), Rest(q.next), Pot(w), Pot(p.kept), Pot(q.kept), Lg(Size(t)), Lg(Size(u)),
      Lg(Size(w)), Lg(Beyond(p.left, p)), Lg(Beyond(q.left, q)));
  }

  lemma {:induction false} SingleDoublePaid(cmp: Compare, key: int, t: Bst, p: Path, u: Bst, w: Bst, m: nat)
    requires Single(cmp, key, t, p, u) && Double(cmp, key, u, p.next, w, m) && p.next.left != p.left
    requires Paid(Rounds(cmp, key, w), p.next.next, w)
    ensures Paid(Rounds(cmp, key, t), p, t) == true
  {
    var q := p.next;
    RestOf(p);
    RestOf(q);
    TwoSides(p);
    LgGrows(Size(w), Size(u));
    LgGrows(Size(u), Size(t));
    LgParts(Size(q.kept), Size(w), Size(u));
    LgGrows(Size(q.kept), Size(u));
    LgGrows(Size(w), m);
    DoubleSums(Rounds(cmp, key, w), Rest(q.next), Pot(w), Pot(p.kept), Pot(q.kept), Lg(Size(t)), Lg(Size(u)),
      Lg(Size(w)), Lg(Beyond(p.left, p)), Lg(Beyond(q.left, q)), Lg(Size(q.kept)), Lg(m));
  }

  /** A single step is paid for together with the round after it. */
  lemma {:induction false} PathPaid(cmp: Compare, key: int, t: Bst)
    requires t.Fork?
    ensures Paid(Rounds(cmp, key, t), PathOf(cmp, key, t), t) == true
    decreases Size(t), 1
  {
    var k, p := KindOf(cmp, key, t), PathOf(cmp, key, t);
    if Stops(k) {
      LastRound(cmp, key, t);
    } else if k.Two? {
      var u, m := DoubleRound(cmp, key, t);
      PathPaid(cmp, key, u);
      DoublePaid(cmp, key, t, p, u, m);
    } else {
      SinglePaid(cmp, key, t);
    }
  }

  lemma {:induction false} SinglePaid(cmp: Compare, key: int, t: Bst)
    requires t.Fork? && KindOf(cmp, key, t).One?
    ensures Paid(Rounds(cmp, key, t), PathOf(cmp, key, t), t) == true
    decreases Size(t), 0
  {
    var p := PathOf(cmp, key, t);
    var u := SingleRound(cmp, key, t);
    var k := KindOf(cmp, key, u);
    if Stops(k) {
      LastRound(cmp, key, u);
      SingleLastPaid(cmp, key, t, p, u);
    } else {
      SingleTurns(cmp, key, t);
      if k.Two? {
        var w, m := DoubleRound(cmp, key, u);
        PathPaid(cmp, key, w);
        SingleDoublePaid(cmp, key, t, p, u, w, m);
      } else {
        var w := SingleRound(cmp, key, u);
        PathPaid(cmp, key, w);
        SingleSinglePaid(cmp, key, t, p, u, w);
      }
    }
  }

  /** The access lemma: the rounds of a splay and twice the change of potential are at most 5 lg n + 1. */
  lemma {:induction false} AccessBound(cmp: Compare, key: int, t: Bst)
    requires t.Fork?
    ensures Size(Splayed(cmp, key, t)) == Size(t)
    ensures Rounds(cmp, key, t) + 2 * Pot(Splayed(cmp, key, t)) <= 2 * Pot(t) + 5 * Lg(Size(t)) + 1
  {
    PathEnds(cmp, key, t);
    FinishPot(None, PathOf(cmp, key, t), None);
    PathPaid(cmp, key, t);
  }

  // ---------- sequences of operations ----------

  datatype Op = Access(key: int) | Enter(node: Node) | Delete(key: int) | Extreme(comp: int)

  /** SPLAY_MINMAX goes the same way at every node, as a splay does whose comparator always answers `comp`. */
  function Toward(comp: int): Compare
  {
    (a, b) => comp
  }

  /** What SPLAY_INSERT makes of a tree that has just been splayed for the key of `x`. */
  function Crowned(cmp: Compare, t: Bst, x: Node): Bst
    requires t.Fork?
  {
    if cmp(x.key, t.node.key) < 0 then Fork(t.left, x, Fork(Tip, t.node, t.right))
    else if cmp(x.key, t.node.key) > 0 then Fork(Fork(t.left, t.node, Tip), x, t.right)
    else t
  }

  /** What SPLAY_REMOVE makes of a tree that has just been splayed for `key`. */
  function Cut(cmp: Compare, key: int, t: Bst): Bst
    requires t.Fork?
  {
    if cmp(key, t.node.key) != 0 then t
    else if t.left.Tip? then t.right
    else
      var l := Splayed(cmp, key, t.left);
      Fork(l.left, l.node, t.right)
  }

  function Applied(cmp: Compare, t: Bst, op: Op): Bst
  {
    match op
    case Access(key) => if t.Tip? then Tip else Splayed(cmp, key, t)
    case Enter(x) => if t.Tip? then Fork(Tip, x, Tip) else Crowned(cmp, Splayed(cmp, x.key, t), x)
    case Delete(key) => if t.Tip? then Tip else Cut(cmp, key, Splayed(cmp, key, t))
    case Extreme(comp) => if t.Tip? then Tip else Splayed(Toward(comp), 0, t)
  }

  /** The rounds of all the splays that an operation does. */
  function Cost(cmp: Compare, t: Bst, op: Op): nat
  {
    if t.Tip? then 0
    else
      match op
      case Access(key) => Rounds(cmp, key, t)
      case Enter(x) => Rounds(cmp, x.key, t)
      case Delete(key) =>
        var s := Splayed(cmp, key, t);
        Rounds(cmp, key, t) + if cmp(key, s.node.key) == 0 && s.left.Fork? then Rounds(cmp, key, s.left) else 0
      case Extreme(comp) => Rounds(Toward(comp), 0, t)
  }

  /** The loop makes `u` of `t` in `n` rounds. */
  ghost predicate Splays(cmp: Compare, key: int, t: Bst, u: Bst, n: nat)
  {
    t.Fork? && u == Splayed(cmp, key, t) && n == Rounds(cmp, key, t)
  }

  /** Cutting out the root of `u`, which has the key, makes `u'` of it in `n` rounds. */
  ghost predicate Cuts(cmp: Compare, key: int, u: Bst, u': Bst, n: nat)
  {
    && u.Fork? && cmp(key, u.node.key) == 0
    && if u.left.Tip? then u' == u.right && n == 0
       else var l := Splayed(cmp, key, u.left); u' == Fork(l.left, l.node, u.right) && n == Rounds(cmp, key, u.left)
  }

  /** The operation makes `t'` of `t` in `n` rounds. */
  ghost predicate Does(cmp: Compare, op: Op, t: Bst, t': Bst, n: nat)
  {
    t' == Applied(cmp, t, op) && n == Cost(cmp, t, op)
  }

  lemma {:induction false} SplayDoes(cmp: Compare, key: int, t: Bst, u: Bst, n: nat)
    requires Splays(cmp, key, t, u, n)
    ensures Does(cmp, Access(key), t, u, n) == true
    ensures cmp(key, u.node.key) != 0 ==> Does(cmp, Delete(key), t, u, n) == true
  {
  }

  lemma {:induction false} CutDoes(cmp: Compare, key: int, t: Bst, u: Bst, n: nat, t': Bst, m: nat)
    requires Splays(cmp, key, t, u, n) && Cuts(cmp, key, u, t', m)
    ensures Does(cmp, Delete(key), t, t', n + m) == true
  {
  }

  lemma {:induction false} RightCuts(cmp: Compare, key: int, l: Bst, x: Node, r: Bst, u: Bst, n: nat)
    requires Splays(cmp, key, l, u, n) && cmp(key, x.key) == 0
    ensures Cuts(cmp, key, Fork(l, x, r), Fork(u.left, u.node, r), n) == true
  {
  }

  lemma {:induction false} CrownDoes(cmp: Compare, t: Bst, u: Bst, x: Node, n: nat)
    requires Splays(cmp, x.key, t, u, n)
    ensures u.Fork? && Does(cmp, Enter(x), t, Crowned(cmp, u, x), n) == true
    ensures cmp(x.key, u.node.key) == 0 ==> Does(cmp, Enter(x), t, u, n) == true
  {
  }

  lemma {:induction false} ExtremeDoes(cmp: Compare, comp: int, t: Bst, u: Bst, n: nat)
    requires Splays(Toward(comp), 0, t, u, n)
    ensures Does(cmp, Extreme(comp), t, u, n) == true
  {
  }

  lemma {:induction false} EmptyDoes(cmp: Compare, key: int, x: Node)
    ensures Does(cmp, Access(key), Tip, Tip, 0) == true && Does(cmp, Delete(key), Tip, Tip, 0) == true
    ensures Does(cmp, Extreme(key), Tip, Tip, 0) == true
    ensures Does(cmp, Enter(x), Tip, Fork(Tip, x, Tip), 0) == true
  {
  }

  lemma {:induction false} CrownedPot(cmp: Compare, t: Bst, x: Node)
    requires t.Fork?
    ensures Size(Crowned(cmp, t, x)) <= Size(t) + 1 && Pot(Crowned(cmp, t, x)) <= Pot(t) + Lg(Size(t) + 1)
  {
    Sides(true, t);
    if cmp(x.key, t.node.key) < 0 {
      JoinPot(true, Tip, t.node, t.right);
      JoinPot(true, t.left, x, Fork(Tip, t.node, t.right));
      LgGrows(1 + Size(t.right), Size(t));
    } else if cmp(x.key, t.node.key) > 0 {
      JoinPot(true, t.left, t.node, Tip);
      JoinPot(true, Fork(t.left, t.node, Tip), x, t.right);
      LgGrows(Size(t.left) + 1, Size(t));
    }
  }

  lemma {:induction false} CutPot(cmp: Compare, key: int, t: Bst)
    requires t.Fork? && cmp(key, t.node.key) == 0 && t.left.Fork?
    ensures Size(Cut(cmp, key, t)) <= Size(t)
    ensures Rounds(cmp, key, t.left) + 2 * Pot(Cut(cmp, key, t)) <= 2 * Pot(t) + 3 * Lg(Size(t)) + 1
  {
    AccessBound(cmp, key, t.left);
    var l := Splayed(cmp, key, t.left);
    var c := Fork(l.left, l.node, t.right);
    LgGrows(Size(c), Size(t));
    LgGrows(Size(t.left), Size(t));
  }

  /** No operation takes more than 8 lg n + 2 rounds that the potential does not pay for; `n` bounds the nodes. */
  lemma {:induction false} OpBound(cmp: Compare, t: Bst, op: Op, n: nat)
    requires Size(t) + (if op.Enter? then 1 else 0) <= n
    ensures Size(Applied(cmp, t, op)) <= Size(t) + if op.Enter? then 1 else 0
    ensures Cost(cmp, t, op) + 2 * Pot(Applied(cmp, t, op)) <= 2 * Pot(t) + 8 * Lg(n) + 2
  {
    if t.Fork? {
      LgGrows(Size(t), n);
      match op
      case Access(key) =>
        AccessBound(cmp, key, t);
      case Enter(x) =>
        AccessBound(cmp, x.key, t);
        CrownedPot(cmp, Splayed(cmp, x.key, t), x);
        LgGrows(Size(t) + 1, n);
      case Delete(key) =>
        DeleteBound(cmp, t, key);
      case Extreme(comp) =>
        AccessBound(Toward(comp), 0, t);
    }
  }

  lemma {:induction false} DeleteBound(cmp: Compare, t: Bst, key: int)
    requires t.Fork?
    ensures Size(Applied(cmp, t, Delete(key))) <= Size(t)
    ensures Cost(cmp, t, Delete(key)) + 2 * Pot(Applied(cmp, t, Delete(key))) <= 2 * Pot(t) + 8 * Lg(Size(t)) + 2
  {
    var s := Splayed(cmp, key, t);
    AccessBound(cmp, key, t);
    if cmp(key, s.node.key) == 0 && s.left.Fork? {
      CutPot(cmp, key, s);
    }
  }

  function Inserts(ops: seq<Op>): nat
  {
    if ops == [] then 0 else Inserts(ops[1..]) + if ops[0].Enter? then 1 else 0
  }

  function TotalCost(cmp: Compare, t: Bst, ops: seq<Op>): nat
    decreases |ops|
  {
    if ops == [] then 0 else Cost(cmp, t, ops[0]) + TotalCost(cmp, Applied(cmp, t, ops[0]), ops[1..])
  }

  lemma {:induction false} RunBound(cmp: Compare, t: Bst, ops: seq<Op>, n: nat)
    requires Size(t) + Inserts(ops) <= n
    ensures TotalCost(cmp, t, ops) <= 2 * Pot(t) + |ops| * (8 * Lg(n) + 2)
    decreases |ops|
  {
    if ops == [] {
    } else {
      OpBound(cmp, t, ops[0], n);
      RunBound(cmp, Applied(cmp, t, ops[0]), ops[1..], n);
      assert |ops| * (8 * Lg(n) + 2) == (|ops| - 1) * (8 * Lg(n) + 2) + (8 * Lg(n) + 2);
    }
  }

  /** The Balance Theorem: from the empty tree, m operations with n inserts among them take O(m lg n) rounds. */
  lemma {:induction false} Balance(cmp: Compare, ops: seq<Op>)
    ensures TotalCost(cmp, Tip, ops) <= |ops| * (8 * Lg(Inserts(ops)) + 2)
  {
    RunBound(cmp, Tip, ops, Inserts(ops));
  }
}
