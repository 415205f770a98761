/**
 The reassembly buffers in memory: an array of them, of which the reserved ones are in the tree.
 A buffer's tree links are the node `links[i]`; a node's key is fixed, so a newly reserved buffer
 gets a new node.
 */
module FragmentBuffers {
  import opened Bytes
  import opened IpHeader
  import opened RbShape
  import opened RbOrder
  import opened Reassembly
  import opened FragmentIndex
  import opened FragmentTable

  /** Numbers that tell identifiers apart, as FragmentIndex.Code does. */
  type Numbering = Key -> int

  ghost predicate Injective(code: Numbering)
  {
    forall k, l :: code(k) == code(l) ==> k == l
  }

  /** The order of memcmp on the identifiers gives such numbers. */
  lemma {:induction false} CodeInjective()
    ensures Injective(Code)
  {
    forall k, l | Code(k) == Code(l)
      ensures k == l
    {
      Comparator(k, l);
    }
  }

  /** The tree has the reserved buffers, each under its own identifier. */
  ghost predicate Indexed(code: Numbering, t: Table, links: seq<Node>, nodes: set<Node>)
  {
    && |links| == |t|
    && (forall i :: 0 <= i < |t| ==> links[i].item == i)
    && (forall n :: n in nodes ==> n.item < |t| && links[n.item] == n)
    && (forall n :: n in nodes ==> n.item < |t| && t[n.item].reserved && n.key == code(t[n.item].key))
    && (forall i :: 0 <= i < |t| && t[i].reserved ==> links[i] in nodes)
  }

  ghost predicate UniqueKeys(nodes: set<Node>)
  {
    forall m, n :: m in nodes && n in nodes && m.key == n.key ==> m == n
  }

  lemma {:induction false} IndexedDistinct(code: Numbering, t: Table, links: seq<Node>, nodes: set<Node>)
    requires Indexed(code, t, links, nodes) && UniqueKeys(nodes)
    ensures FragmentTable.Distinct(t)
  {
    forall i, j | 0 <= i < j < |t| && t[i].reserved && t[j].reserved
      ensures t[i].key != t[j].key
    {
      assert links[i].item == i && links[j].item == j && links[i] != links[j];
    }
  }

  lemma {:induction false} FoundIs(code: Numbering, t: Table, links: seq<Node>, nodes: set<Node>, k: Key, n: Node)
    requires Indexed(code, t, links, nodes) && UniqueKeys(nodes) && n in nodes && n.key == code(k) && Injective(code)
    ensures n.item < |t| && Lookup(t, k, 0) == Some(n.item)
  {
    IndexedDistinct(code, t, links, nodes);
    assert code(t[n.item].key) == code(k);
    assert Lookup(t, k, 0).Some?;
  }

  lemma {:induction false} MissingIs(code: Numbering, t: Table, links: seq<Node>, nodes: set<Node>, k: Key)
    requires Indexed(code, t, links, nodes) && code(k) !in KeySet(nodes)
    ensures Lookup(t, k, 0) == None
  {
  }

  lemma {:induction false} AbsentCode(code: Numbering, t: Table, links: seq<Node>, nodes: set<Node>, k: Key)
    requires Indexed(code, t, links, nodes) && Lookup(t, k, 0) == None && Injective(code)
    ensures code(k) !in KeySet(nodes)
  {
    forall n | n in nodes
      ensures n.key != code(k)
    {
      assert t[n.item].key != k;
    }
  }

  lemma {:induction false} ClaimOk(code: Numbering, t: Table, links: seq<Node>, nodes: set<Node>, i: nat, s: Slot,
      n: Node)
    requires Indexed(code, t, links, nodes) && i < |t| && !t[i].reserved && s.reserved
    requires n !in nodes && n.item == i && n.key == code(s.key)
    ensures Indexed(code, t[i := s], links[i := n], nodes + {n}) == true
  {
  }

  lemma {:induction false} ReleaseOk(code: Numbering, t: Table, links: seq<Node>, nodes: set<Node>, i: nat, s: Slot)
    requires Indexed(code, t, links, nodes) && i < |t| && t[i].reserved && !s.reserved
    ensures links[i] in nodes && Indexed(code, t[i := s], links, nodes - {links[i]}) == true
  {
  }

  lemma {:induction false} KeepOk(code: Numbering, t: Table, links: seq<Node>, nodes: set<Node>, i: nat, s: Slot)
    requires Indexed(code, t, links, nodes) && i < |t| && s.reserved == t[i].reserved && s.key == t[i].key
    ensures Indexed(code, t[i := s], links, nodes) == true
  {
  }

  lemma {:induction false} StoredAgain(t: Table, k: Key, frame: seq<Byte>, left: Buf, i: nat, s: Slot, b: Buf)
    requires Shape(t) && i < |t| && Sized(s.buf) && Acceptable(frame) == true && Sized(left)
    requires GetBuffer(t, k) == Some((i, s)) && b == ReceiveFrame(s.buf, frame) && Shape(t[i := s])
    ensures InputAs(t, k, frame, left) == Stored(t[i := s], i, s, b, left)
  {
    var done, kept := s.(reserved := false, buf := left), s.(buf := b);
    assert t[i := s][i := done] == t[i := done] && t[i := s][i := kept] == t[i := kept];
  }

  /** A node for every buffer. */
  method MakeLinks() returns (links: array<Node>)
    ensures fresh(links) && links.Length == NUM_BUFFERS
    ensures forall i :: 0 <= i < NUM_BUFFERS ==> links[i].item == i
  {
    var n := new Node(0, 0);
    links := new Node[NUM_BUFFERS](_ => n);
    var i := 0;
    while i < NUM_BUFFERS
      invariant i <= NUM_BUFFERS && forall j :: 0 <= j < i ==> links[j].item == j
    {
      links[i] := new Node(0, i);
      i := i + 1;
    }
  }

  class Buffers {
    const slots: array<Slot>
    const links: array<Node>
    const tree: Index
    const code: Numbering

    ghost function Nodes(): set<Node>
      reads tree.head
    {
      tree.head.nodes
    }

    ghost predicate Valid()
      reads slots, links, tree.head, Nodes()
    {
      && Injective(code) == true && Shape(slots[..]) == true && tree.Valid() == true
      && Indexed(code, slots[..], links[..], Nodes()) == true
    }

    /** The buffers as the program starts with them, with any contents. */
    constructor (code: Numbering, t: Table)
      requires Injective(code) && Shape(t) && forall i :: 0 <= i < |t| ==> !t[i].reserved
      ensures Valid() && fresh(slots) && fresh(links) && fresh(tree.head) && slots[..] == t && this.code == code
    {
      this.code := code;
      slots := new Slot[NUM_BUFFERS](i requires 0 <= i < |t| => t[i]);
      var nodes := MakeLinks();
      links := nodes;
      tree := new Index();
      new;
      assert slots[..] == t;
    }

    lemma {:induction false} Unique()
      requires tree.Valid()
      ensures UniqueKeys(Nodes()) == true
    {
      forall m, n | m in Nodes() && n in Nodes() && m.key == n.key
        ensures m == n
      {
        tree.Unique(m, n);
      }
    }

    /** RB_FIND in the tree of reserved buffers. */
    method Find(k: Key) returns (r: Option<nat>)
      requires Valid()
      ensures r == Lookup(slots[..], k, 0)
    {
      ghost var t, l, s := slots[..], links[..], Nodes();
      Unique();
      var n := tree.Find(code(k));
      if n == null {
        MissingIs(code, t, l, s, k);
        return None;
      }
      FoundIs(code, t, l, s, k, n);
      return Some(n.item);
    }

    /** The loop of test-and-set over the buffers, up to the one it reserves. */
    method Reserve() returns (r: Option<nat>)
      requires Valid()
      ensures r == FirstFree(slots[..], 0)
    {
      var i := 0;
      while i < slots.Length
        invariant 0 <= i <= slots.Length && FirstFree(slots[..], 0) == FirstFree(slots[..], i)
      {
        if !slots[i].reserved {
          return Some(i);
        }
        i := i + 1;
      }
      return None;
    }

    method Hook(n: Node, ghost ns: set<Node>)
      requires tree.Valid() == true && Nodes() == ns && n.key !in KeySet(ns)
      modifies tree.head, ns, n
      ensures tree.Valid() == true && Nodes() == ns + {n}
    {
      var r := tree.Insert(n);
    }

    method Unhook(n: Node, ghost ns: set<Node>)
      requires tree.Valid() == true && Nodes() == ns && n in ns
      modifies tree.head, ns
      ensures tree.Valid() == true && Nodes() == ns - {n}
    {
      tree.Remove(n);
    }

    method Put(i: nat, s: Slot)
      requires i < slots.Length
      modifies slots
      ensures slots[..] == old(slots[..])[i := s]
    {
      slots[i] := s;
    }

    method Write(i: nat, s: Slot, n: Node)
      requires i < slots.Length && i < links.Length
      modifies slots, links
      ensures slots[..] == old(slots[..])[i := s] && links[..] == old(links[..])[i := n]
    {
      slots[i] := s;
      links[i] := n;
    }

    /** A free buffer gets the slot `s` and joins the tree. */
    method Claim(i: nat, s: Slot)
      requires Valid() && i < slots.Length && !slots[i].reserved && s.reserved && Sized(s.buf)
      requires Lookup(slots[..], s.key, 0) == None
      modifies slots, links, tree.head, Nodes()
      ensures Valid() && slots[..] == old(slots[..])[i := s] && fresh(Nodes() - old(Nodes()))
    {
      ghost var t, l, ns := slots[..], links[..], Nodes();
      AbsentCode(code, t, l, ns, s.key);
      var n := new Node(code(s.key), i);
      ClaimOk(code, t, l, ns, i, s, n);
      Write(i, s, n);
      Hook(n, ns);
    }

    /** A buffer leaves the tree with the slot `s`. */
    method Release(i: nat, s: Slot)
      requires Valid() && i < slots.Length && slots[i].reserved && !s.reserved && Sized(s.buf)
      modifies slots, links, tree.head, Nodes()
      ensures Valid() && slots[..] == old(slots[..])[i := s] && Nodes() <= old(Nodes())
    {
      ghost var t, l, ns := slots[..], links[..], Nodes();
      ReleaseOk(code, t, l, ns, i, s);
      Unhook(links[i], ns);
      Put(i, s);
    }

    /** A buffer stays as it is in the tree. */
    method Keep(i: nat, s: Slot)
      requires Valid() && i < slots.Length && s.reserved == slots[i].reserved && s.key == slots[i].key && Sized(s.buf)
      modifies slots
      ensures Valid() && slots[..] == old(slots[..])[i := s]
    {
      KeepOk(code, slots[..], links[..], Nodes(), i, s);
      Put(i, s);
    }

    /** get_packet_buffer. */
    method Get(k: Key) returns (r: Option<nat>)
      requires Valid()
      modifies slots, links, tree.head, Nodes()
      ensures Valid() && fresh(Nodes() - old(Nodes()))
      ensures var g := GetBuffer(old(slots[..]), k);
              && (g.None? ==> r.None? && slots[..] == old(slots[..]))
              && (g.Some? ==> r == Some(g.value.0) && slots[..] == old(slots[..])[g.value.0 := g.value.1])
    {
      r := Find(k);
      if r.None? {
        r := Reserve();
        if r.Some? {
          Claim(r.value, Slot(true, FRAGMENT_TLB, k, Cleared(slots[r.value].buf)));
        }
      }
    }

    /** The buffer `i` after a fragment has been stored; a complete one is handed up and released. */
    method Settle(i: nat, b: Buf, left: Buf) returns (out: seq<Output>)
      requires Valid() && i < slots.Length && slots[i].reserved && Sized(b) && Sized(left)
      modifies slots, links, tree.head, Nodes()
      ensures Valid() && (slots[..], out) == Stored(old(slots[..]), i, old(slots[i]), b, left)
    {
      var s := slots[i];
      if Complete(b) {
        out := [Output(s.key, b.payload[..b.len])];
        Release(i, s.(reserved := false, buf := left));
      } else {
        out := [];
        Keep(i, s.(buf := b));
      }
    }

    method StoreFrame(i: nat, frame: seq<Byte>, left: Buf, ghost t: Table, ghost k: Key) returns (out: seq<Output>)
      requires Valid() && Shape(t) && i < slots.Length && slots[i].reserved && Acceptable(frame) == true && Sized(left)
      requires GetBuffer(t, k) == Some((i, slots[i])) && slots[..] == t[i := slots[i]]
      modifies slots, links, tree.head, Nodes()
      ensures Valid() && (slots[..], out) == InputAs(t, k, frame, left)
    {
      var b := ReceiveFrame(slots[i].buf, frame);
      StoredAgain(t, k, frame, left, i, slots[i], b);
      out := Settle(i, b, left);
    }

    method ReceiveAs(k: Key, fits: bool, frame: seq<Byte>, left: Buf) returns (out: Option<seq<Output>>)
      requires Valid() && Sized(left) && (fits ==> Acceptable(frame) == true)
      modifies slots, links, tree.head, Nodes()
      ensures Valid() && (out.None? <==> !fits && GetBuffer(old(slots[..]), k).Some?)
      ensures fits ==> (slots[..], out.value) == InputAs(old(slots[..]), k, frame, left)
      ensures !fits && out.Some? ==> slots[..] == old(slots[..]) && out.value == []
    {
      ghost var t := slots[..];
      var r := Get(k);
      if r.None? {
        return Some([]);
      }
      if !fits {
        return None;
      }
      var o := StoreFrame(r.value, frame, left, t, k);
      return Some(o);
    }

    /**
     ip_fragment_input for a frame that has passed the checks of the receive path. There is no answer exactly
     when a buffer is found for it and its data do not fit there.
     */
    method Receive(frame: seq<Byte>, left: Buf) returns (out: Option<seq<Output>>)
      requires Valid() && Proper(frame) && Sized(left)
      modifies slots, links, tree.head, Nodes()
      ensures Valid()
      ensures out.None? <==> !Fits(frame) && GetBuffer(old(slots[..]), KeyOf(Parse(frame))).Some?
      ensures Acceptable(frame) ==> (slots[..], out.value) == Input(old(slots[..]), frame, left)
      ensures !Fits(frame) && out.Some? ==> slots[..] == old(slots[..]) && out.value == []
    {
      out := ReceiveAs(KeyOf(Parse(frame)), Fits(frame), frame, left);
    }

    method AgeOne(i: nat, delta: int)
      requires Valid() && i < slots.Length
      modifies slots, links, tree.head, Nodes()
      ensures Valid() && slots[..] == old(slots[..])[i := AgeSlot(old(slots[i]), delta)] && Nodes() <= old(Nodes())
    {
      var s := slots[i];
      if s.reserved {
        s := s.(timer := s.timer - delta);
        if s.timer <= 0 {
          Release(i, s.(reserved := false));
        } else {
          Keep(i, s);
        }
      }
    }

    /** ip_fragment_timer. */
    method Timer(delta: int)
      requires Valid()
      modifies slots, links, tree.head, Nodes()
      ensures Valid() && slots[..] == Age(old(slots[..]), delta)
    {
      var i := 0;
      ghost var t := slots[..];
      while i < slots.Length
        invariant 0 <= i <= slots.Length && Valid() == true && Nodes() <= old(Nodes())
        invariant forall j :: 0 <= j < i ==> slots[j] == AgeSlot(t[j], delta)
        invariant forall j :: i <= j < slots.Length ==> slots[j] == t[j]
      {
        AgeOne(i, delta);
        i := i + 1;
      }
    }
  }

  /** With the order of memcmp. */
  method MakeBuffers(t: Table) returns (b: Buffers)
    requires Shape(t) && forall i :: 0 <= i < |t| ==> !t[i].reserved
    ensures b.Valid() && b.code == Code && b.slots[..] == t
  {
    CodeInjective();
    b := new Buffers(Code, t);
  }
}
