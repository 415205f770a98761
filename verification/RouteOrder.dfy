/**
 The comparators of the routing table subtract unsigned 32-bit addresses and read the difference as
 a signed one. This is an order on a set of addresses exactly when they fit on half of the circle
 of 2^32 addresses.
 */
module RouteOrder {
  import opened Bytes
  import opened RbOrder

  const HALF := 0x8000_0000
  const FULL := 0x1_0000_0000

  /** The value of `a - b` for two uint32_t, converted to int. */
  function Diff(a: int, b: int): int
  {
    var d := (a - b) % FULL;
    if d < HALF then d else d - FULL
  }

  /** How far `k` lies ahead of `m` on the circle. */
  function Ahead(k: int, m: int): int
  {
    (k - m) % FULL
  }

  predicate Addresses(ks: set<int>)
  {
    forall k :: k in ks ==> 0 <= k < FULL
  }

  /** All of `ks` lies within half a turn ahead of `m`. */
  predicate OnArc(ks: set<int>, m: int)
  {
    forall k :: k in ks ==> Ahead(k, m) < HALF
  }

  lemma {:induction false} DiffOnArc(a: int, b: int, m: int)
    requires Ahead(a, m) < HALF && Ahead(b, m) < HALF
    ensures Diff(a, b) == Ahead(a, m) - Ahead(b, m)
  {
    var p, q := (a - m) / FULL, (b - m) / FULL;
    assert a - b == Ahead(a, m) - Ahead(b, m) + FULL * (p - q);
  }

  lemma {:induction false} AheadSame(a: int, b: int, m: int)
    requires 0 <= a < FULL && 0 <= b < FULL && Ahead(a, m) == Ahead(b, m)
    ensures a == b
  {
    var p, q := (a - m) / FULL, (b - m) / FULL;
    assert a - b == FULL * (p - q);
  }

  lemma {:induction false} ArcIsOrder(ks: set<int>, m: int)
    requires Addresses(ks) && OnArc(ks, m)
    ensures OrderOn(Diff, ks)
  {
    forall a, b | a in ks && b in ks
      ensures Diff(a, b) == Ahead(a, m) - Ahead(b, m)
      ensures Ahead(a, m) == Ahead(b, m) ==> a == b
    {
      DiffOnArc(a, b, m);
      if Ahead(a, m) == Ahead(b, m) {
        AheadSame(a, b, m);
      }
    }
  }

  /** A finite set has a least element in any order on it. */
  lemma {:induction false} Least(cmp: Compare, ks: set<int>, some: int) returns (m: int)
    requires some in ks && OrderOn(cmp, ks)
    ensures m in ks && forall k :: k in ks && k != m ==> cmp(m, k) < 0
    decreases |ks|
  {
    m := some;
    var rest := ks - {some};
    assert forall k :: k in ks && k != some ==> k in rest;
    if k :| k in rest {
      var n := Least(cmp, rest, k);
      if cmp(n, some) < 0 {
        m := n;
      }
    }
  }

  lemma {:induction false} BehindLeast(m: int, k: int)
    requires 0 <= m < FULL && 0 <= k < FULL && Diff(m, k) < 0 && Diff(k, m) > 0
    ensures Ahead(k, m) < HALF
  {
  }

  lemma {:induction false} OrderIsArc(ks: set<int>, some: int) returns (m: int)
    requires Addresses(ks) && some in ks && OrderOn(Diff, ks)
    ensures m in ks && OnArc(ks, m)
  {
    m := Least(Diff, ks, some);
    forall k | k in ks
      ensures Ahead(k, m) < HALF
    {
      if k != m {
        BehindLeast(m, k);
      }
    }
  }

  /** The set lies on some half of the circle. */
  ghost predicate Near(ks: set<int>)
  {
    exists m :: OnArc(ks, m)
  }

  /** Exactly when the subtracting comparator orders a set of addresses. */
  lemma {:induction false} OrderExactly(ks: set<int>)
    requires Addresses(ks)
    ensures OrderOn(Diff, ks) <==> Near(ks)
  {
    if OrderOn(Diff, ks) {
      if some :| some in ks {
        var m := OrderIsArc(ks, some);
      } else {
        assert OnArc(ks, 0);
      }
    }
    if m :| OnArc(ks, m) {
      ArcIsOrder(ks, m);
    }
  }

  /** Addresses that span less than 2^31 are ordered as numbers are. */
  lemma {:induction false} NarrowIsNumeric(ks: set<int>, a: int, b: int, low: int)
    requires a in ks && b in ks && forall k :: k in ks ==> low <= k < low + HALF
    ensures Diff(a, b) == a - b
  {
  }

  /** Three addresses a third of a turn apart are not ordered: each comes before the next. */
  lemma {:induction false} ThirdsCycle()
    ensures var a, b, c := 0, 0x5555_5555, 0xAAAA_AAAA; Diff(a, b) < 0 && Diff(b, c) < 0 && Diff(c, a) < 0
  {
  }

  /** Equality is never in doubt, so a search for an address decides rightly whatever the address. */
  lemma {:induction false} DiffZero(a: int, b: int)
    requires 0 <= a < FULL && 0 <= b < FULL
    ensures Diff(a, b) == 0 <==> a == b
  {
  }
}
