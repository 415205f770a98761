/**
 The red-black tree of reassembly buffers. Its comparator is memcmp on the identifiers of the
 datagrams as they lie in memory, which is the order of the numbers that their bytes spell.
 */
module FragmentIndex {
  import opened Bytes
  import opened RbShape
  import opened RbOrder
  import opened RbTree

  /** The buffer identifier of RFC 791: source, destination, protocol and identification. */
  datatype Key = Key(src: U32, dst: U32, proto: Byte, id: U16)

  /** The struct that packet_buf_cmp compares, with the byte of padding that it has cleared. */
  function KeyBytes(k: Key): (r: seq<Byte>)
    ensures |r| == 12
  {
    Le32(k.src) + Le32(k.dst) + [k.proto, 0] + Le16(k.id)
  }

  lemma {:induction false} Le32Injective(x: U32, y: U32)
    requires Le32(x) == Le32(y)
    ensures x == y
  {
    var a, b := Le32(x), Le32(y);
    assert a[0] == b[0] && a[1] == b[1] && a[2] == b[2] && a[3] == b[3];
  }

  lemma {:induction false} KeyBytesInjective(k: Key, l: Key)
    requires KeyBytes(k) == KeyBytes(l)
    ensures k == l
  {
    var a, b := KeyBytes(k), KeyBytes(l);
    assert a[..4] == Le32(k.src) && b[..4] == Le32(l.src) && a[4..8] == Le32(k.dst) && b[4..8] == Le32(l.dst);
    Le32Injective(k.src, l.src);
    Le32Injective(k.dst, l.dst);
    assert a[8] == k.proto && b[8] == l.proto;
    assert a[10..12] == Le16(k.id) && b[10..12] == Le16(l.id);
    assert a[10..12][0] == b[10..12][0] && a[10..12][1] == b[10..12][1];
  }

  /** The difference of the first bytes that differ. */
  function Memcmp(a: seq<Byte>, b: seq<Byte>): int
    requires |a| == |b|
  {
    if a == [] then 0 else if a[0] != b[0] then a[0] as int - b[0] as int else Memcmp(a[1..], b[1..])
  }

  function Pow256(n: nat): (r: nat)
    ensures r > 0
  {
    if n == 0 then 1 else 256 * Pow256(n - 1)
  }

  /** The number that bytes spell, the first one counting most. */
  function Number(a: seq<Byte>): (r: nat)
    ensures r < Pow256(|a|)
  {
    if a == [] then 0 else
      Leads(a[0], Pow256(|a| - 1), Number(a[1..]));
      a[0] * Pow256(|a| - 1) + Number(a[1..])
  }

  lemma {:induction false} Leads(x: Byte, p: nat, y: nat)
    requires y < p
    ensures 0 <= x * p + y < 256 * p
  {
    assert x * p <= 255 * p;
  }

  lemma {:induction false} LeadDecides(x: Byte, y: Byte, p: nat, u: nat, v: nat)
    requires u < p && v < p && x < y
    ensures x * p + u < y * p + v
  {
    assert (x + 1) * p <= y * p;
  }

  /** memcmp orders byte strings of one length as their numbers. */
  lemma {:induction false} MemcmpIsNumeric(a: seq<Byte>, b: seq<Byte>)
    requires |a| == |b|
    ensures Memcmp(a, b) < 0 <==> Number(a) < Number(b)
    ensures Memcmp(a, b) == 0 <==> Number(a) == Number(b)
    ensures Memcmp(a, b) == 0 <==> a == b
    decreases |a|
  {
    if a == [] {
    } else {
      var p, u, v := Pow256(|a| - 1), Number(a[1..]), Number(b[1..]);
      MemcmpIsNumeric(a[1..], b[1..]);
      assert a == [a[0]] + a[1..] && b == [b[0]] + b[1..];
      if a[0] < b[0] {
        LeadDecides(a[0], b[0], p, u, v);
      } else if b[0] < a[0] {
        LeadDecides(b[0], a[0], p, v, u);
      }
    }
  }

  function Code(k: Key): int
  {
    Number(KeyBytes(k))
  }

  function Minus(x: int, y: int): int
  {
    x - y
  }

  /** packet_buf_cmp: its sign is that of the difference of the codes, and it is 0 for the same identifier only. */
  lemma {:induction false} Comparator(k: Key, l: Key)
    ensures Memcmp(KeyBytes(k), KeyBytes(l)) < 0 <==> Minus(Code(k), Code(l)) < 0
    ensures Memcmp(KeyBytes(k), KeyBytes(l)) == 0 <==> Minus(Code(k), Code(l)) == 0
    ensures Code(k) == Code(l) <==> k == l
  {
    MemcmpIsNumeric(KeyBytes(k), KeyBytes(l));
    if KeyBytes(k) == KeyBytes(l) {
      KeyBytesInjective(k, l);
    }
  }

  lemma {:induction false} MinusOrders(ks: set<int>)
    ensures OrderOn(Minus, ks) == true
  {
  }

  class Index {
    const head: Head

    ghost predicate Valid()
      reads head, head.nodes
    {
      head.cmp == Minus && head.Valid() == true
    }

    constructor ()
      ensures Valid() && head.nodes == {} && fresh(head)
    {
      head := new Head(Minus);
    }

    lemma {:induction false} Unique(m: Node, n: Node)
      requires Valid() && m in head.nodes && n in head.nodes && m.key == n.key
      ensures m == n
    {
      SameNodes(head.tree);
      UniqueIn(Elems(head.tree), m, n);
    }

    lemma {:induction false} UniqueIn(e: seq<Node>, m: Node, n: Node)
      requires Sorted(Minus, e) && m in e && n in e && m.key == n.key
      ensures m == n
    {
      var i :| 0 <= i < |e| && e[i] == m;
      var j :| 0 <= j < |e| && e[j] == n;
      Ascends(e, i, j);
    }

    lemma {:induction false} Ascends(e: seq<Node>, i: int, j: int)
      requires Sorted(Minus, e) && 0 <= i < |e| && 0 <= j < |e|
      ensures i != j ==> e[i].key != e[j].key
    {
      if i < j {
        assert Minus(e[i].key, e[j].key) < 0;
      } else if j < i {
        assert Minus(e[j].key, e[i].key) < 0;
      }
    }

    /** RB_FIND. */
    method Find(code: int) returns (r: Node?)
      requires Valid()
      ensures r != null ==> r in head.nodes && r.key == code
      ensures r == null <==> code !in KeySet(head.nodes)
    {
      SameNodes(head.tree);
      MinusOrders(Keys(Elems(head.tree)));
      r := head.Find(code);
    }

    /** RB_INSERT: refused exactly when the identifier is there. */
    method Insert(n: Node) returns (r: Node?)
      requires Valid()
      modifies head, head.nodes, n
      ensures Valid() && (r == null <==> n.key !in old(KeySet(head.nodes)))
      ensures head.nodes == if r == null then old(head.nodes) + {n} else old(head.nodes)
    {
      SameNodes(head.tree);
      MinusOrders(Keys(Elems(head.tree)) + {n.key});
      ghost var e := Elems(head.tree);
      r := head.Insert(n);
      Refused(e, n.key, r);
    }

    lemma {:induction false} Refused(e: seq<Node>, key: int, r: Node?)
      requires if r == null then Missing(Minus, e, key) else r in e && Minus(key, r.key) == 0
      ensures r == null <==> key !in Keys(e)
    {
      if r != null {
        assert r.key in Keys(e);
      }
    }

    /** RB_REMOVE. */
    method Remove(n: Node)
      requires Valid() && n in head.nodes
      modifies head, head.nodes
      ensures Valid() && head.nodes == old(head.nodes) - {n}
    {
      var r := head.Remove(n);
    }
  }
}
