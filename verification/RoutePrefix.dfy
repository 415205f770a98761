/**
 Routes for prefixes of addresses: which addresses they match, and which of several matches is found.
 */
module RoutePrefix {
  import opened Bytes
  import opened RouteMask
  import opened RouteOrder
  import opened RouteTable

  /** The route is for a network of `n` leading bits. */
  predicate Prefix(r: Route, n: nat)
  {
    IsMask(r.netmask, n) && r.network % Pow2(32 - n) == 0
  }

  /** Then it matches exactly the addresses of that network. */
  lemma {:induction false} MatchesExactly(r: Route, n: nat, addr: U32)
    requires Prefix(r, n)
    ensures Matches(r, addr) <==> r.network <= addr < r.network + Pow2(32 - n)
  {
    InNetwork(r.network, r.netmask, n, addr);
  }

  lemma {:induction false} NearDiff(a: U32, b: U32)
    requires a <= b < a + HALF
    ensures Diff(b, a) == b - a
  {
  }

  lemma {:induction false} HalfPower(n: nat)
    requires 1 <= n <= 32
    ensures Pow2(32 - n) <= HALF
  {
    Powers();
    PowGrows(32 - n, 31);
  }

  /** Both routes match by prefixes of at least one bit, and `r` comes first in the order of networks. */
  lemma {:induction false} FirstIsShorter(r: Route, m: nat, s: Route, n: nat, addr: U32)
    requires Prefix(r, m) && Prefix(s, n) && 1 <= m && 1 <= n && Matches(r, addr) && Matches(s, addr)
    requires Diff(r.network, s.network) < 0
    ensures r.network < s.network && m < n
  {
    MatchesExactly(r, m, addr);
    MatchesExactly(s, n, addr);
    HalfPower(m);
    HalfPower(n);
    if s.network <= r.network {
      NearDiff(s.network, r.network);
    }
    Nested(r.network, m, s.network, n, addr);
  }

  /** All routes are for prefixes of the given lengths, none of them the default gateway. */
  ghost predicate Prefixes(rs: set<Route>, length: Route -> nat)
  {
    forall r :: r in rs ==> Prefix(r, length(r)) && 1 <= length(r)
  }

  /** The route matches and has the longest prefix of all that do. */
  ghost predicate Longest(rs: set<Route>, length: Route -> nat, addr: U32, r: Route)
  {
    r in rs && Matches(r, addr) && forall s :: s in rs && Matches(s, addr) ==> length(s) <= length(r)
  }

  /**
   The route that the walk finds has the shortest prefix of all that match, not the longest: it is the longest match
   exactly when nothing else matches.
   */
  lemma {:induction false} LongestExactly(rs: set<Route>, length: Route -> nat, addr: U32, r: Route)
    requires Prefixes(rs, length) && Chosen(rs, addr, r) && !Exact(rs, addr) && Masked(rs, addr)
    ensures Matches(r, addr) && forall s :: s in rs && s != r && Matches(s, addr) ==> length(r) < length(s)
    ensures Longest(rs, length, addr, r) <==> forall s :: s in rs && Matches(s, addr) ==> s == r
  {
    forall s | s in rs && s != r && Matches(s, addr)
      ensures length(r) < length(s)
    {
      FirstIsShorter(r, length(r), s, length(s), addr);
    }
  }

  /** With routes for 10.0.0.0/8 and 10.1.0.0/16, 10.1.2.3 gets the first. */
  lemma {:induction false} ShorterPrefixWins(eight: Route, sixteen: Route, r: Route, addr: U32)
    requires eight.network == 0x0A00_0000 && eight.netmask == 0xFF00_0000
    requires sixteen.network == 0x0A01_0000 && sixteen.netmask == 0xFFFF_0000
    requires addr == 0x0A01_0203 && Chosen({eight, sixteen}, addr, r)
    ensures Matches(eight, addr) && Matches(sixteen, addr) && r == eight
  {
    Powers();
    MatchesExactly(eight, 8, addr);
    MatchesExactly(sixteen, 16, addr);
    assert eight in {eight, sixteen} && Masked({eight, sixteen}, addr);
    NearDiff(eight.network, sixteen.network);
  }
}
