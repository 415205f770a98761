/**
 Network masks: what the bits that an address shares with a mask say about the address as a number.
 */
module RouteMask {
  import opened Bytes

  function Pow2(n: nat): (p: nat)
    ensures p >= 1
  {
    if n == 0 then 1 else 2 * Pow2(n - 1)
  }

  lemma {:induction false} Powers()
    ensures Pow2(16) == 0x1_0000 && Pow2(24) == 0x100_0000 && Pow2(31) == 0x8000_0000 && Pow2(32) == 0x1_0000_0000
  {
    assert Pow2(4) == 16;
    assert Pow2(8) == 0x100;
    assert Pow2(12) == 0x1000;
    assert Pow2(16) == 0x1_0000;
    assert Pow2(20) == 0x10_0000;
    assert Pow2(24) == 0x100_0000;
    assert Pow2(28) == 0x1000_0000;
  }

  lemma {:induction false} PowGrows(m: nat, n: nat)
    requires m <= n
    ensures Pow2(m) <= Pow2(n) && (m < n ==> 2 * Pow2(m) <= Pow2(n))
  {
    if m == n {
    } else {
      PowGrows(m, n - 1);
    }
  }

  /** The bits that both numbers have among their lowest `n`. */
  function AndBits(a: nat, b: nat, n: nat): nat
  {
    if n == 0 then 0 else 2 * AndBits(a / 2, b / 2, n - 1) + (a % 2) * (b % 2)
  }

  predicate Bit(a: nat, i: nat)
  {
    if i == 0 then a % 2 == 1 else Bit(a / 2, i - 1)
  }

  /** Bit by bit. */
  lemma {:induction false} AndBit(a: nat, b: nat, n: nat, i: nat)
    requires i < n
    ensures Bit(AndBits(a, b, n), i) <==> Bit(a, i) && Bit(b, i)
    decreases n
  {
    var low := (a % 2) * (b % 2);
    assert low == if a % 2 == 1 && b % 2 == 1 then 1 else 0;
    assert AndBits(a, b, n) % 2 == low && AndBits(a, b, n) / 2 == AndBits(a / 2, b / 2, n - 1);
    if i == 0 {
    } else {
      AndBit(a / 2, b / 2, n - 1, i - 1);
    }
  }

  lemma {:induction false} AndBound(a: nat, b: nat, n: nat)
    ensures AndBits(a, b, n) < Pow2(n)
  {
    if n == 0 {
    } else {
      AndBound(a / 2, b / 2, n - 1);
      assert (a % 2) * (b % 2) <= 1;
    }
  }

  lemma {:induction false} AllOnes(a: nat, n: nat)
    requires a < Pow2(n)
    ensures AndBits(a, Pow2(n) - 1, n) == a
  {
    if n == 0 {
    } else {
      AllOnes(a / 2, n - 1);
      assert (Pow2(n) - 1) / 2 == Pow2(n - 1) - 1 && (Pow2(n) - 1) % 2 == 1;
    }
  }

  lemma {:induction false} Doubled(q: nat, p: nat, a: nat)
    requires q * p <= a / 2 < q * p + p
    ensures 2 * (q * p) == q * (2 * p) && q * (2 * p) <= a < q * (2 * p) + 2 * p
  {
  }

  /** Under a mask whose lowest `k` bits are 0 and whose others are 1, a number becomes the multiple of 2^k below it. */
  lemma {:induction false} AndMask(a: nat, k: nat, n: nat) returns (q: nat)
    requires k <= n && a < Pow2(n) && Pow2(k) <= Pow2(n)
    ensures AndBits(a, Pow2(n) - Pow2(k), n) == q * Pow2(k) && q * Pow2(k) <= a < q * Pow2(k) + Pow2(k)
    decreases n
  {
    if k == 0 {
      AllOnes(a, n);
      q := a;
    } else {
      PowGrows(k - 1, n - 1);
      q := AndMask(a / 2, k - 1, n - 1);
      var b := Pow2(n) - Pow2(k);
      assert b / 2 == Pow2(n - 1) - Pow2(k - 1) && b % 2 == 0;
      assert AndBits(a, b, n) == 2 * AndBits(a / 2, b / 2, n - 1);
      Doubled(q, Pow2(k - 1), a);
    }
  }

  /** The & of two addresses. */
  function And(a: U32, b: U32): U32
  {
    AndBound(a, b, 32);
    Powers();
    AndBits(a, b, 32)
  }

  /** The mask with `n` leading ones. */
  predicate IsMask(mask: U32, n: nat)
  {
    n <= 32 && mask == 0x1_0000_0000 - Pow2(32 - n)
  }

  lemma {:induction false} SameMultiple(p: nat, m: nat, q: nat, a: nat)
    requires q * p <= a < q * p + p
    ensures m * p <= a < m * p + p <==> m == q
  {
    if m < q {
      assert (m + 1) * p <= q * p;
    } else if q < m {
      assert (q + 1) * p <= m * p;
    }
  }

  lemma {:induction false} FarProduct(p: nat, d: int)
    ensures d >= 1 ==> p * d >= p
    ensures d <= -1 ==> p * d + p <= 0
  {
  }

  lemma {:induction false} Multiple(x: nat, p: nat, q: nat)
    requires p > 0 && x == q * p
    ensures x % p == 0 && x / p == q
  {
    var d := x / p - q;
    assert x == p * (x / p) + x % p;
    assert p * (x / p) - p * q == p * d;
    FarProduct(p, d);
  }

  /** The multiple of `p` that is `q` times it, and the numbers up to the next one. */
  lemma {:induction false} BlockOf(network: nat, p: nat, q: nat, addr: nat)
    requires p > 0 && q * p <= addr < q * p + p
    ensures network == q * p <==> network % p == 0 && network <= addr < network + p
  {
    var m := network / p;
    assert network == p * m + network % p;
    SameMultiple(p, m, q, addr);
    if network == q * p {
      Multiple(network, p, q);
    }
  }

  /** A network is the address under its mask iff it is a multiple of its size and the address is one of its own. */
  lemma {:induction false} InNetwork(network: U32, mask: U32, n: nat, addr: U32)
    requires IsMask(mask, n)
    ensures var size := Pow2(32 - n);
            network == And(addr, mask) <==> network % size == 0 && network <= addr < network + size
  {
    var size := Pow2(32 - n);
    Powers();
    PowGrows(32 - n, 32);
    var q := AndMask(addr, 32 - n, 32);
    BlockOf(network, size, q, addr);
  }

  lemma {:induction false} PowSplit(m: nat, n: nat) returns (c: nat)
    requires m <= n
    ensures Pow2(n) == c * Pow2(m)
  {
    if m == n {
      c := 1;
    } else {
      var d := PowSplit(m, n - 1);
      c := 2 * d;
      assert 2 * (d * Pow2(m)) == (2 * d) * Pow2(m);
    }
  }

  lemma {:induction false} Factors(x: nat, c: nat, p: nat, q: nat)
    requires x == q * (c * p) && p > 0
    ensures x % p == 0
  {
    assert q * (c * p) == (q * c) * p;
    Multiple(x, p, q * c);
  }

  /** A multiple of a power of two is one of every lower power. */
  lemma {:induction false} LowerPower(x: nat, m: nat, n: nat)
    requires m <= n && x % Pow2(n) == 0
    ensures x % Pow2(m) == 0
  {
    var c := PowSplit(m, n);
    var q := x / Pow2(n);
    assert x == Pow2(n) * q;
    Factors(x, c, Pow2(m), q);
  }

  lemma {:induction false} NextMultiple(a: nat, b: nat, p: nat)
    requires p > 0 && a % p == 0 && b % p == 0 && a < b
    ensures a + p <= b
  {
    var x, y := a / p, b / p;
    assert a == p * x && b == p * y;
    FarProduct(p, y - x);
    assert p * (y - x) == p * y - p * x;
  }

  /** Of two networks around one address the one that begins later has more leading bits. */
  lemma {:induction false} Nested(a: nat, m: nat, b: nat, n: nat, addr: nat)
    requires m <= 32 && n <= 32 && a % Pow2(32 - m) == 0 && b % Pow2(32 - n) == 0
    requires a < b <= addr < a + Pow2(32 - m)
    ensures m < n
  {
    if n <= m {
      LowerPower(b, 32 - m, 32 - n);
      NextMultiple(a, b, Pow2(32 - m));
    }
  }
}
