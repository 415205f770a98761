/**
 The comparator as an order on the stored keys, and what sortedness says on either side of a node.
 */
module RbOrder {
  import opened RbShape

  type Compare = (int, int) -> int

  /** `cmp` is a strict total order on the keys `ks`. */
  ghost predicate OrderOn(cmp: Compare, ks: set<int>)
  {
    && (forall a, b :: a in ks && b in ks ==> (cmp(a, b) == 0 <==> a == b) && (cmp(a, b) < 0 <==> cmp(b, a) > 0))
    && (forall a, b, c :: a in ks && b in ks && c in ks && cmp(a, b) < 0 && cmp(b, c) < 0 ==> cmp(a, c) < 0)
  }

  ghost function Keys(s: seq<Node>): set<int>
  {
    set n | n in s :: n.key
  }

  ghost predicate Sorted(cmp: Compare, s: seq<Node>)
  {
    forall i, j :: 0 <= i < j < |s| ==> cmp(s[i].key, s[j].key) < 0
  }

  lemma {:induction false} OrderSub(cmp: Compare, ks: set<int>, all: set<int>)
    requires ks <= all && OrderOn(cmp, all)
    ensures OrderOn(cmp, ks) == true
  {
  }

  lemma {:induction false} InKeys(s: seq<Node>, i: int)
    requires 0 <= i < |s|
    ensures s[i] in s && s[i].key in Keys(s)
  {
  }

  /** Every node of `s` comes before `key`. */
  ghost predicate AllBelow(cmp: Compare, s: seq<Node>, key: int)
  {
    forall x :: x in s ==> cmp(x.key, key) < 0
  }

  /** Every node of `s` comes after `key`. */
  ghost predicate AllAbove(cmp: Compare, key: int, s: seq<Node>)
  {
    forall x :: x in s ==> cmp(key, x.key) < 0
  }

  lemma {:induction false} Trans(cmp: Compare, ks: set<int>, a: int, b: int, c: int)
    requires OrderOn(cmp, ks) && a in ks && b in ks && c in ks
    ensures cmp(a, b) < 0 && cmp(b, c) < 0 ==> cmp(a, c) < 0
    ensures cmp(a, b) < 0 <==> cmp(b, a) > 0
  {
  }

  lemma {:induction false} FromHere(cmp: Compare, s: seq<Node>, key: int, i: int)
    requires Sorted(cmp, s) && OrderOn(cmp, Keys(s) + {key}) && 0 <= i < |s|
    ensures cmp(key, s[i].key) < 0 ==> AllAbove(cmp, key, s[i..])
  {
    if cmp(key, s[i].key) < 0 {
      forall x | x in s[i..]
        ensures cmp(key, x.key) < 0
      {
        var k :| i <= k < |s| && s[k] == x;
        InKeys(s, i);
        InKeys(s, k);
        Trans(cmp, Keys(s) + {key}, key, s[i].key, s[k].key);
      }
    }
  }

  lemma {:induction false} UpToHere(cmp: Compare, s: seq<Node>, key: int, i: int)
    requires Sorted(cmp, s) && OrderOn(cmp, Keys(s) + {key}) && 0 <= i < |s|
    ensures cmp(key, s[i].key) > 0 ==> AllBelow(cmp, s[..i + 1], key)
  {
    if cmp(key, s[i].key) > 0 {
      forall x | x in s[..i + 1]
        ensures cmp(x.key, key) < 0
      {
        var k :| 0 <= k <= i && s[k] == x;
        InKeys(s, i);
        InKeys(s, k);
        Trans(cmp, Keys(s) + {key}, s[k].key, s[i].key, key);
        Trans(cmp, Keys(s) + {key}, s[i].key, key, key);
      }
    }
  }

  lemma {:induction false} SplitAt(a: seq<Node>, n: Node, b: seq<Node>)
    ensures var s := a + [n] + b; s[|a|] == n && s[..|a| + 1] == a + [n] && s[|a|..] == [n] + b && n in s
  {
  }

  lemma {:induction false} SplitSorted(cmp: Compare, key: int, s: seq<Node>, a: seq<Node>, n: Node, b: seq<Node>)
    requires s == a + [n] + b && Sorted(cmp, s) && OrderOn(cmp, Keys(s) + {key})
    ensures n in s
    ensures cmp(key, n.key) < 0 ==> AllAbove(cmp, key, [n] + b)
    ensures cmp(key, n.key) > 0 ==> AllBelow(cmp, a + [n], key)
  {
    SplitAt(a, n, b);
    FromHere(cmp, s, key, |a|);
    UpToHere(cmp, s, key, |a|);
  }

  lemma {:induction false} SearchSplit(c: Ctx, t: Tree)
    requires t.T?
    ensures var l, r := In(c, true, t.node, t.red, t.right), In(c, false, t.node, t.red, t.left);
            && ElemsZ(c, t) == (Pre(c) + Elems(t.left)) + [t.node] + (Elems(t.right) + Post(c))
            && Pre(l) == Pre(c) && Post(l) == [t.node] + (Elems(t.right) + Post(c))
            && Post(r) == Post(c) && Pre(r) == (Pre(c) + Elems(t.left)) + [t.node]
  {
    var p, l, n, r, q := Pre(c), Elems(t.left), [t.node], Elems(t.right), Post(c);
    assert p + (l + n + r) + q == (p + l) + n + (r + q);
    assert n + r + q == n + (r + q);
  }

  /** No node of `s` has a key that compares equal. */
  ghost predicate Missing(cmp: Compare, s: seq<Node>, key: int)
  {
    forall x :: x in s ==> cmp(key, x.key) != 0
  }

  lemma {:induction false} MissingSplit(cmp: Compare, a: seq<Node>, b: seq<Node>, key: int)
    requires AllBelow(cmp, a, key) && AllAbove(cmp, key, b) && OrderOn(cmp, Keys(a + b) + {key})
    ensures Missing(cmp, a + b, key)
  {
    forall x | x in a + b
      ensures cmp(key, x.key) != 0
    {
      assert x.key in Keys(a + b) && (x in a || x in b);
    }
  }

  lemma {:induction false} MissingSelf(cmp: Compare, s: seq<Node>, n: Node)
    requires Missing(cmp, s, n.key) && OrderOn(cmp, Keys(s) + {n.key})
    ensures n !in s
  {
  }

  function First(s: seq<Node>): Node?
  {
    if s == [] then null else s[0]
  }

  /** `r` is the first node of `s` that does not come before `key`, or NULL when there is none. */
  ghost predicate FirstFrom(cmp: Compare, s: seq<Node>, key: int, r: Node?)
  {
    if r == null then AllBelow(cmp, s, key)
    else exists i :: 0 <= i < |s| && s[i] == r && cmp(key, s[i].key) <= 0 && AllBelow(cmp, s[..i], key)
  }

  lemma {:induction false} FirstFromSplit(cmp: Compare, a: seq<Node>, b: seq<Node>, key: int)
    requires AllBelow(cmp, a, key) && AllAbove(cmp, key, b)
    ensures FirstFrom(cmp, a + b, key, First(b))
  {
    if b == [] {
      assert a + b == a;
    } else {
      var s := a + b;
      assert s[|a|] == b[0] && b[0] in b && s[..|a|] == a;
    }
  }

  lemma {:induction false} FirstFromHit(cmp: Compare, s: seq<Node>, key: int, i: int)
    requires Sorted(cmp, s) && OrderOn(cmp, Keys(s) + {key}) && 0 <= i < |s| && cmp(key, s[i].key) == 0
    ensures FirstFrom(cmp, s, key, s[i])
  {
    InKeys(s, i);
    assert key == s[i].key;
    assert forall k :: 0 <= k < i ==> cmp(s[k].key, key) < 0;
    assert AllBelow(cmp, s[..i], key);
  }

  // ---------- sequences that change by one node ----------

  /** `s'` is `s` with `n` added in one place. */
  ghost predicate AddsOne(s: seq<Node>, n: Node, s': seq<Node>)
  {
    exists i :: 0 <= i <= |s| && s' == s[..i] + [n] + s[i..]
  }

  lemma {:induction false} AddsOneAt(a: seq<Node>, n: Node, b: seq<Node>)
    ensures AddsOne(a + b, n, a + [n] + b)
  {
    assert (a + b)[..|a|] == a && (a + b)[|a|..] == b;
  }

  /** `s'` is `s` without `n`, which stood in one place. */
  ghost predicate DropsOne(s: seq<Node>, n: Node, s': seq<Node>)
  {
    exists i :: 0 <= i < |s| && s[i] == n && s' == s[..i] + s[i + 1..]
  }

  lemma {:induction false} DropsOneAt(a: seq<Node>, n: Node, b: seq<Node>)
    ensures DropsOne(a + [n] + b, n, a + b)
  {
    var s := a + [n] + b;
    assert s[|a|] == n && s[..|a|] == a && s[|a| + 1..] == b;
  }

  lemma {:induction false} SortedAdd(cmp: Compare, a: seq<Node>, n: Node, b: seq<Node>)
    requires Sorted(cmp, a + b) && AllBelow(cmp, a, n.key) && AllAbove(cmp, n.key, b)
    ensures Sorted(cmp, a + [n] + b)
  {
    var s, s' := a + b, a + [n] + b;
    forall i, j | 0 <= i < j < |s'|
      ensures cmp(s'[i].key, s'[j].key) < 0
    {
      if j < |a| {
        assert s'[i] == s[i] && s'[j] == s[j];
      } else if j == |a| {
        assert s'[i] == a[i] && a[i] in a;
      } else if i < |a| {
        assert s'[i] == s[i] && s'[j] == s[j - 1];
      } else if i == |a| {
        assert s'[j] == b[j - |a| - 1] && s'[j] in b;
      } else {
        assert s'[i] == s[i - 1] && s'[j] == s[j - 1];
      }
    }
  }

  lemma {:induction false} SortedDrop(cmp: Compare, a: seq<Node>, n: Node, b: seq<Node>)
    requires Sorted(cmp, a + [n] + b)
    ensures Sorted(cmp, a + b)
  {
    var s, s' := a + b, a + [n] + b;
    forall i, j | 0 <= i < j < |s|
      ensures cmp(s[i].key, s[j].key) < 0
    {
      assert s[i] == s'[if i < |a| then i else i + 1];
      assert s[j] == s'[if j < |a| then j else j + 1];
    }
  }

  lemma {:induction false} WithoutDrops(cmp: Compare, c: Ctx, t: Tree)
    requires t.T? && Sorted(cmp, ElemsZ(c, t))
    ensures DropsOne(ElemsZ(c, t), t.node, Without(c, t)) && Sorted(cmp, Without(c, t))
  {
    SearchSplit(c, t);
    DropsOneAt(Pre(c) + Elems(t.left), t.node, Elems(t.right) + Post(c));
    SortedDrop(cmp, Pre(c) + Elems(t.left), t.node, Elems(t.right) + Post(c));
  }

  function Last(s: seq<Node>): Node?
  {
    if s == [] then null else s[|s| - 1]
  }

  /** `r` comes right after `n` in `s`, or is NULL when `n` is the last. */
  ghost predicate FollowedBy(s: seq<Node>, n: Node, r: Node?)
  {
    exists i :: 0 <= i < |s| && s[i] == n && r == First(s[i + 1..])
  }

  lemma {:induction false} FollowedByFocus(c: Ctx, t: Tree)
    requires t.T?
    ensures FollowedBy(ElemsZ(c, t), t.node, First(Elems(t.right) + Post(c)))
  {
    SearchSplit(c, t);
    var a, b := Pre(c) + Elems(t.left), Elems(t.right) + Post(c);
    var s := a + [t.node] + b;
    assert s[|a|] == t.node && s[|a| + 1..] == b;
  }

  ghost predicate Distinct(s: seq<Node>)
  {
    forall i, j :: 0 <= i < j < |s| ==> s[i] != s[j]
  }

  lemma {:induction false} SepDistinct(t: Tree)
    requires Sep(t)
    ensures Distinct(Elems(t))
  {
    if t.Nil? {
    } else {
      SepDistinct(t.left);
      SepDistinct(t.right);
      var l, r := Elems(t.left), Elems(t.right);
      ElemsAreNodes(t.left, t.node);
      ElemsAreNodes(t.right, t.node);
      forall x | x in l
        ensures x !in r
      {
        ElemsAreNodes(t.left, x);
        ElemsAreNodes(t.right, x);
      }
      DistinctJoin(l, t.node, r);
    }
  }

  /** A tree of separate nodes has as many nodes as its sequence is long. */
  lemma {:induction false} SizeIsNodes(t: Tree)
    requires Sep(t)
    ensures |Nodes(t)| == |Elems(t)|
  {
    if t == Nil {
    } else {
      SizeIsNodes(t.left);
      SizeIsNodes(t.right);
      var l, r := Nodes(t.left), Nodes(t.right);
      assert l !! {t.node} && (l + {t.node}) !! r;
      assert |l + {t.node}| == |l| + 1 && |(l + {t.node}) + r| == |l| + 1 + |r|;
    }
  }

  lemma {:induction false} DistinctJoin(l: seq<Node>, n: Node, r: seq<Node>)
    requires Distinct(l) && Distinct(r) && n !in l && n !in r && forall x :: x in l ==> x !in r
    ensures Distinct(l + [n] + r)
  {
    var s := l + [n] + r;
    forall i, j | 0 <= i < j < |s|
      ensures s[i] != s[j]
    {
      if j > |l| {
        assert s[j] == r[j - |l| - 1] && s[j] in r;
      }
      if i < |l| {
        assert s[i] == l[i] && s[i] in l;
      }
    }
  }

  lemma {:induction false} NextIndex(t: Tree, k: int, n: Node, r: Node?)
    requires Sep(t) && 0 <= k < |Elems(t)| && Elems(t)[k] == n && FollowedBy(Elems(t), n, r)
    ensures r == First(Elems(t)[k + 1..]) && Elems(t)[..k] + [n] == Elems(t)[..k + 1]
  {
    SepDistinct(t);
    var i :| 0 <= i < |Elems(t)| && Elems(t)[i] == n && r == First(Elems(t)[i + 1..]);
    assert i == k;
  }

  lemma {:induction false} SpineStep(c: Ctx, t: Tree)
    requires t.T?
    ensures var l := In(c, true, t.node, t.red, t.right); Pre(l) == Pre(c) && First(Post(l)) == t.node
    ensures var r := In(c, false, t.node, t.red, t.left); Post(r) == Post(c) && Last(Pre(r)) == t.node
  {
  }

  lemma {:induction false} FirstHere(t: Tree, k: int, n: Node)
    requires 0 <= k <= |Elems(t)| && First(Elems(t)[k..]) == n
    ensures k < |Elems(t)| && Elems(t)[k] == n && n in Nodes(t)
  {
    assert Elems(t)[k] in Elems(t);
    ElemsAreNodes(t, n);
  }

  // ---------- keys and nodes as sets ----------

  ghost function KeySet(s: set<Node>): set<int>
  {
    set n | n in s :: n.key
  }

  lemma {:induction false} KeysOf(t: Tree)
    ensures Keys(Elems(t)) == KeySet(Nodes(t))
  {
    forall k | k in Keys(Elems(t))
      ensures k in KeySet(Nodes(t))
    {
      var n :| n in Elems(t) && n.key == k;
      ElemsAreNodes(t, n);
    }
    forall k | k in KeySet(Nodes(t))
      ensures k in Keys(Elems(t))
    {
      var n :| n in Nodes(t) && n.key == k;
      ElemsAreNodes(t, n);
    }
  }

  ghost predicate Lists(e: seq<Node>, s: set<Node>)
  {
    (forall n :: n in e ==> n in s) && forall n :: n in s ==> n in e
  }

  /** The nodes of a tree are those of its sequence, and so are their keys. */
  lemma {:induction false} SameNodes(t: Tree)
    ensures Keys(Elems(t)) == KeySet(Nodes(t)) && Lists(Elems(t), Nodes(t)) == true
  {
    KeysOf(t);
    forall n | n in Elems(t)
      ensures n in Nodes(t)
    {
      ElemsAreNodes(t, n);
    }
    forall n | n in Nodes(t)
      ensures n in Elems(t)
    {
      ElemsAreNodes(t, n);
    }
  }
}
