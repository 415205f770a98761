/**
 The frame check sequence of IEEE 802.3: computed a nibble at a time from a table, specified by the
 shift register that takes one bit at a time.
 */
module EtherFcs {

  // ---------- words ----------

  predicate Low(x: bv32)
  {
    x & 1 == 1
  }

  function Shr(x: bv32): bv32
  {
    x >> 1
  }

  /** One input bit through the reflected 32-bit register. */
  function Shift(s: bv32, b: bool): bv32
  {
    if (s & 1 == 1) != b then (s >> 1) ^ 0xEDB8_8320 else s >> 1
  }

  function Add(x: bv32, y: bv32): bv32
  {
    x ^ y
  }

  // ---------- the shift register ----------

  /** A register value. Boxed, so that bit-level reasoning stays in the few lemmas about single steps. */
  datatype Reg = Reg(v: bv32)

  const ONES := Reg(0xFFFF_FFFF)
  const ZERO := Reg(0)

  predicate Odd(x: Reg)
  {
    Low(x.v)
  }

  function Half(x: Reg): Reg
  {
    Reg(Shr(x.v))
  }

  function Xor(x: Reg, y: Reg): Reg
  {
    Reg(Add(x.v, y.v))
  }

  function Not(x: Reg): Reg
  {
    Reg(!x.v)
  }

  function Bit(s: Reg, b: bool): Reg
  {
    Reg(Shift(s.v, b))
  }

  function Register(s: Reg, bits: seq<bool>): Reg
    decreases bits
  {
    if bits == [] then s else Register(Bit(s, bits[0]), bits[1..])
  }

  lemma {:induction false} RegisterCons(s: Reg, b: bool, bits: seq<bool>)
    ensures Register(s, [b] + bits) == Register(Bit(s, b), bits)
  {
    assert ([b] + bits)[1..] == bits;
  }

  lemma {:induction false} RegisterConcat(s: Reg, a: seq<bool>, b: seq<bool>)
    ensures Register(s, a + b) == Register(Register(s, a), b)
    decreases a
  {
    if a == [] {
      assert a + b == b;
    } else {
      assert (a + b)[1..] == a[1..] + b;
      RegisterConcat(Bit(s, a[0]), a[1..], b);
    }
  }

  /** The `n` low bits of `x`, least significant first, as they are sent. */
  function LowBits(x: Reg, n: nat): (r: seq<bool>)
    ensures |r| == n
    decreases n
  {
    if n == 0 then [] else [Odd(x)] + LowBits(Half(x), n - 1)
  }

  /** What is left of `x` after its `n` low bits. */
  function Rest(x: Reg, n: nat): Reg
    decreases n
  {
    if n == 0 then x else Rest(Half(x), n - 1)
  }

  lemma {:induction false} LowBitsAdd(x: Reg, m: nat, n: nat)
    ensures LowBits(x, m + n) == LowBits(x, m) + LowBits(Rest(x, m), n)
    decreases m
  {
    if m == 0 {
    } else {
      LowBitsAdd(Half(x), m - 1, n);
    }
  }

  function ByteReg(d: bv8): Reg
  {
    Reg(d as bv32)
  }

  /** A frame as the stream of its bits. */
  function Stream(data: seq<bv8>): seq<bool>
  {
    if data == [] then [] else LowBits(ByteReg(data[0]), 8) + Stream(data[1..])
  }

  lemma {:induction false} StreamConcat(a: seq<bv8>, b: seq<bv8>)
    ensures Stream(a + b) == Stream(a) + Stream(b)
    decreases a
  {
    if a == [] {
      assert a + b == b;
    } else {
      assert (a + b)[1..] == a[1..] + b;
      StreamConcat(a[1..], b);
    }
  }

  /** CRC-32 of a bit stream: all-ones start, final complement. */
  function Crc(bits: seq<bool>): Reg
  {
    Not(Register(ONES, bits))
  }

  // ---------- ether_fcs ----------

  /** The 16 entries of crc_table. */
  function Entry(k: bv32): bv32
    requires k < 16
  {
    if k == 0 then 0x4DBDF21C else if k == 1 then 0x500AE278
    else if k == 2 then 0x76D3D2D4 else if k == 3 then 0x6B64C2B0
    else if k == 4 then 0x3B61B38C else if k == 5 then 0x26D6A3E8
    else if k == 6 then 0x000F9344 else if k == 7 then 0x1DB88320
    else if k == 8 then 0xA005713C else if k == 9 then 0xBDB26158
    else if k == 10 then 0x9B6B51F4 else if k == 11 then 0x86DC4190
    else if k == 12 then 0xD6D930AC else if k == 13 then 0xCB6E20C8
    else if k == 14 then 0xEDB71064 else 0xF0000000
  }

  lemma {:induction false} LowNibble(x: bv32)
    ensures x & 0x0F < 16
  {
  }

  /** One statement of the loop body. */
  function Nibble(crc: bv32, d: bv32): bv32
  {
    LowNibble(crc ^ d);
    (crc >> 4) ^ Entry((crc ^ d) & 0x0F)
  }

  /** Four bits of `d` through the register. */
  function Four(s: bv32, d: bv32): bv32
  {
    Shift(Shift(Shift(Shift(s, Low(d)), Low(Shr(d))), Low(Shr(Shr(d)))), Low(Shr(Shr(Shr(d)))))
  }

  /** A table step on the complemented register is four register steps. */
  lemma {:induction false} NibbleIsFour(s: bv32, d: bv32)
    ensures Nibble(!s, d) == !Four(s, d)
  {
  }

  lemma {:induction false} FourShr(d: bv32)
    ensures Shr(Shr(Shr(Shr(d)))) == d >> 4
  {
  }

  lemma {:induction false} RegisterFour(s: Reg, x: Reg)
    ensures Register(s, LowBits(x, 4)) ==
            Bit(Bit(Bit(Bit(s, Odd(x)), Odd(Half(x))), Odd(Half(Half(x)))), Odd(Half(Half(Half(x)))))
    ensures Rest(x, 4) == Half(Half(Half(Half(x))))
  {
    var x1, x2, x3, x4 := Half(x), Half(Half(x)), Half(Half(Half(x))), Half(Half(Half(Half(x))));
    var s1 := Bit(s, Odd(x));
    var s2 := Bit(s1, Odd(x1));
    var s3 := Bit(s2, Odd(x2));
    RegisterCons(s, Odd(x), LowBits(x1, 3));
    RegisterCons(s1, Odd(x1), LowBits(x2, 2));
    RegisterCons(s2, Odd(x2), LowBits(x3, 1));
    RegisterCons(s3, Odd(x3), LowBits(x4, 0));
    assert Rest(x, 4) == Rest(x1, 3) == Rest(x2, 2) == Rest(x3, 1) == Rest(x4, 0);
  }

  lemma {:induction false} FourSteps(s: Reg, x: Reg)
    ensures Register(s, LowBits(x, 4)) == Reg(Four(s.v, x.v)) && Rest(x, 4) == Reg(Shr(Shr(Shr(Shr(x.v)))))
  {
    RegisterFour(s, x);
  }

  lemma {:induction false} NotReg(x: bv32)
    ensures Not(Reg(x)) == Reg(!x)
  {
  }

  lemma {:induction false} NibbleIsRegister(s: Reg, d: bv32)
    ensures Reg(Nibble(!s.v, d)) == Not(Register(s, LowBits(Reg(d), 4)))
  {
    NibbleIsFour(s.v, d);
    FourSteps(s, Reg(d));
    NotReg(Four(s.v, d));
  }

  method NibbleStep(crc0: bv32, d: bv32, ghost s: Reg) returns (crc: bv32)
    requires Reg(crc0) == Not(s)
    ensures Reg(crc) == Not(Register(s, LowBits(Reg(d), 4)))
  {
    NibbleIsRegister(s, d);
    NotReg(s.v);
    crc := Nibble(crc0, d);
  }

  /** The two statements of the loop body. */
  method FcsByte(crc0: bv32, d: bv8, ghost s: Reg) returns (crc: bv32)
    requires Reg(crc0) == Not(s)
    ensures Reg(crc) == Not(Register(s, LowBits(ByteReg(d), 8)))
  {
    ghost var x := ByteReg(d);
    FourSteps(s, x);
    FourShr(d as bv32);
    LowBitsAdd(x, 4, 4);
    RegisterConcat(s, LowBits(x, 4), LowBits(Rest(x, 4), 4));
    crc := NibbleStep(crc0, d as bv32, s);
    crc := NibbleStep(crc, (d as bv32) >> 4, Register(s, LowBits(x, 4)));
  }

  lemma {:induction false} StreamSnoc(data: seq<bv8>, i: nat)
    requires i < |data|
    ensures Stream(data[..i + 1]) == Stream(data[..i]) + LowBits(ByteReg(data[i]), 8)
  {
    assert data[..i + 1] == data[..i] + [data[i]];
    StreamConcat(data[..i], [data[i]]);
    assert Stream([data[i]]) == LowBits(ByteReg(data[i]), 8) + Stream([]);
  }

  /** The table-driven check sequence is the CRC of the frame's bits. */
  method Fcs(data: seq<bv8>) returns (crc: bv32)
    ensures Reg(crc) == Crc(Stream(data))
  {
    ghost var s := ONES;
    crc := 0;
    for i := 0 to |data|
      invariant Reg(crc) == Not(s) && s == Register(ONES, Stream(data[..i]))
    {
      StreamSnoc(data, i);
      RegisterConcat(ONES, Stream(data[..i]), LowBits(ByteReg(data[i]), 8));
      crc := FcsByte(crc, data[i], s);
      s := Register(s, LowBits(ByteReg(data[i]), 8));
    }
    assert data[..|data|] == data;
  }

  // ---------- the residue ----------

  function Zeros(n: nat): (r: seq<bool>)
    ensures |r| == n
  {
    if n == 0 then [] else [false] + Zeros(n - 1)
  }

  lemma {:induction false} WordShiftXor(s: bv32, x: bv32, b: bool)
    requires b == (x & 1 == 1)
    ensures Shift(s, b) ^ (x >> 1) == Shift(s ^ x, false)
  {
  }

  lemma {:induction false} AddIs(x: bv32, y: bv32)
    ensures Add(x, y) == x ^ y
  {
  }

  lemma {:induction false} ShrIs(x: bv32)
    ensures Shr(x) == x >> 1
  {
  }

  lemma {:induction false} LowIs(x: bv32, b: bool)
    requires b == Low(x)
    ensures b == (x & 1 == 1)
  {
  }

  lemma {:induction false} ShiftAdd(s: bv32, x: bv32, b: bool)
    requires b == Low(x)
    ensures Add(Shift(s, b), Shr(x)) == Shift(Add(s, x), false)
  {
    LowIs(x, b);
    ShrIs(x);
    WordShiftXor(s, x, b);
    AddIs(Shift(s, b), Shr(x));
    AddIs(s, x);
  }

  lemma {:induction false} BitXor(s: Reg, x: Reg)
    ensures Xor(Bit(s, Odd(x)), Half(x)) == Bit(Xor(s, x), false)
  {
    ShiftAdd(s.v, x.v, Low(x.v));
  }

  /** Feeding the bits of `x` is the same as adding `x` to the register and feeding zeros. */
  lemma {:induction false} Absorb(s: Reg, x: Reg, n: nat)
    ensures Xor(Register(s, LowBits(x, n)), Rest(x, n)) == Register(Xor(s, x), Zeros(n))
    decreases n
  {
    if n == 0 {
    } else {
      RegisterCons(s, Odd(x), LowBits(Half(x), n - 1));
      RegisterCons(Xor(s, x), false, Zeros(n - 1));
      Absorb(Bit(s, Odd(x)), Half(x), n - 1);
      BitXor(s, x);
    }
  }

  /** The greatest value of a word that has been shifted `n` times. */
  function Bound(n: nat): bv32
  {
    if n == 0 then 0xFFFF_FFFF else Shr(Bound(n - 1))
  }

  predicate AtMost(x: bv32, y: bv32)
  {
    x <= y
  }

  ghost predicate Below(x: Reg, n: nat)
  {
    AtMost(x.v, Bound(n)) == true
  }

  lemma {:induction false} ShrBound(x: bv32, y: bv32)
    requires x <= y
    ensures Shr(x) <= Shr(y)
  {
  }

  lemma {:induction false} HalfBelow(x: Reg, n: nat)
    requires Below(x, n)
    ensures Below(Half(x), n + 1)
  {
    ShrBound(x.v, Bound(n));
  }

  lemma {:induction false} RestBelow(x: Reg, n: nat, m: nat)
    requires Below(x, m)
    ensures Below(Rest(x, n), m + n)
    decreases n
  {
    if n == 0 {
    } else {
      HalfBelow(x, m);
      RestBelow(Half(x), n - 1, m + 1);
    }
  }

  lemma {:induction false} BoundZero()
    ensures Bound(32) == 0
  {
    assert Bound(8) == 0x00FF_FFFF;
    assert Bound(16) == 0x0000_FFFF;
    assert Bound(24) == 0x0000_00FF;
  }

  lemma {:induction false} RestAll(x: Reg)
    ensures Rest(x, 32) == ZERO
  {
    RestBelow(x, 32, 0);
    BoundZero();
  }

  lemma {:induction false} XorZero(x: Reg)
    ensures Xor(x, ZERO) == x
  {
  }

  lemma {:induction false} XorNot(x: Reg)
    ensures Xor(x, Not(x)) == ONES
  {
  }

  lemma {:induction false} AbsorbWord(s: Reg, x: Reg)
    ensures Register(s, LowBits(x, 32)) == Register(Xor(s, x), Zeros(32))
  {
    Absorb(s, x, 32);
    RestAll(x);
    XorZero(Register(s, LowBits(x, 32)));
  }

  /** A frame followed by its own check sequence leaves the same register, whatever the frame. */
  lemma {:induction false} SameResidue(bits: seq<bool>)
    ensures Crc(bits + LowBits(Crc(bits), 32)) == Not(Register(ONES, Zeros(32)))
  {
    var s := Register(ONES, bits);
    RegisterConcat(ONES, bits, LowBits(Not(s), 32));
    AbsorbWord(s, Not(s));
    XorNot(s);
  }

  lemma {:induction false} FourZeros(s: bv32, n: nat)
    requires n >= 4
    ensures Register(Reg(s), Zeros(n)) == Register(Reg(Shift(Shift(Shift(Shift(s, false), false), false), false)),
        Zeros(n - 4))
  {
    var s1, s2, s3 := Shift(s, false), Shift(Shift(s, false), false), Shift(Shift(Shift(s, false), false), false);
    RegisterCons(Reg(s), false, Zeros(n - 1));
    RegisterCons(Reg(s1), false, Zeros(n - 2));
    RegisterCons(Reg(s2), false, Zeros(n - 3));
    RegisterCons(Reg(s3), false, Zeros(n - 4));
  }

  function Four0(s: bv32): bv32
  {
    Shift(Shift(Shift(Shift(s, false), false), false), false)
  }

  lemma {:induction false} ZeroSteps()
    ensures Four0(0xFFFF_FFFF) == 0xB242_0DE3 && Four0(0xB242_0DE3) == 0x2DFD_1072
    ensures Four0(0x2DFD_1072) == 0x39B1_F1CF && Four0(0x39B1_F1CF) == 0xBE26_ED00
    ensures Four0(0xBE26_ED00) == 0x0BE2_6ED0 && Four0(0x0BE2_6ED0) == 0x00BE_26ED
    ensures Four0(0x00BE_26ED) == 0x86D8_30BA && Four0(0x86D8_30BA) == 0xDEBB_20E3
  {
  }

  lemma {:induction false} ResidueValue()
    ensures Not(Register(ONES, Zeros(32))) == Reg(0x2144_DF1C)
  {
    ZeroSteps();
    FourZeros(0xFFFF_FFFF, 32);
    FourZeros(0xB242_0DE3, 28);
    FourZeros(0x2DFD_1072, 24);
    FourZeros(0x39B1_F1CF, 20);
    FourZeros(0xBE26_ED00, 16);
    FourZeros(0x0BE2_6ED0, 12);
    FourZeros(0x00BE_26ED, 8);
    FourZeros(0x86D8_30BA, 4);
    assert Register(Reg(0xDEBB_20E3), Zeros(0)) == Reg(0xDEBB_20E3);
  }

  /** The four bytes that memcpy of the check sequence puts behind the frame. */
  function Trailer(x: bv32): seq<bv8>
  {
    [(x & 0xFF) as bv8, ((x >> 8) & 0xFF) as bv8, ((x >> 16) & 0xFF) as bv8, ((x >> 24) & 0xFF) as bv8]
  }

  lemma {:induction false} ByteBits(x: bv32)
    ensures LowBits(ByteReg((x & 0xFF) as bv8), 8) == LowBits(Reg(x), 8) && Rest(Reg(x), 8) == Reg(x >> 8)
  {
    var y := Reg(x & 0xFF);
    assert ByteReg((x & 0xFF) as bv8) == y;
    NibbleBits(x);
    NibbleBits(x >> 4);
    NibbleBits(x & 0xFF);
    LowBitsAdd(Reg(x), 4, 4);
    LowBitsAdd(y, 4, 4);
    MaskShift(x);
    RestAdd(Reg(x), 4, 4);
  }

  lemma {:induction false} MaskShift(x: bv32)
    ensures (x & 0xFF) >> 4 == (x >> 4) & 0x0F && (x >> 4) >> 4 == x >> 8
  {
  }

  lemma {:induction false} NibbleBits(x: bv32)
    ensures LowBits(Reg(x & 0xFF), 4) == LowBits(Reg(x), 4) && LowBits(Reg(x & 0x0F), 4) == LowBits(Reg(x), 4)
    ensures Rest(Reg(x), 4) == Reg(x >> 4)
  {
    FourSteps(ZERO, Reg(x));
    FourShr(x);
  }

  lemma {:induction false} RestAdd(x: Reg, m: nat, n: nat)
    ensures Rest(x, m + n) == Rest(Rest(x, m), n)
    decreases m
  {
    if m == 0 {
    } else {
      RestAdd(Half(x), m - 1, n);
    }
  }

  lemma {:induction false} StreamFour(a: bv8, b: bv8, c: bv8, d: bv8)
    ensures Stream([a, b, c, d]) ==
            LowBits(ByteReg(a), 8) + (LowBits(ByteReg(b), 8) + (LowBits(ByteReg(c), 8) + LowBits(ByteReg(d), 8)))
  {
    assert [a, b, c, d][1..] == [b, c, d] && [b, c, d][1..] == [c, d] && [c, d][1..] == [d] && [d][1..] == [];
    assert Stream([d]) == LowBits(ByteReg(d), 8) + Stream([]);
    assert Stream([c, d]) == LowBits(ByteReg(c), 8) + Stream([d]);
    assert Stream([b, c, d]) == LowBits(ByteReg(b), 8) + Stream([c, d]);
  }

  predicate Steps(x: bv32, a: bv32, b: bv32, c: bv32)
  {
    x >> 8 == a && a >> 8 == b && b >> 8 == c
  }

  lemma {:induction false} BytesShift(x: bv32)
    ensures Steps(x, x >> 8, x >> 16, x >> 24) == true
  {
    assert (x >> 8) >> 8 == x >> 16 && (x >> 16) >> 8 == x >> 24;
  }

  lemma {:induction false} RestByte(x: bv32, y: bv32)
    requires x >> 8 == y
    ensures Rest(Reg(x), 8) == Reg(y)
  {
    ByteBits(x);
  }

  lemma {:induction false} WordParts(x: Reg, a: Reg, b: Reg, c: Reg, n: nat)
    requires a == Rest(x, n) && b == Rest(a, n) && c == Rest(b, n)
    ensures LowBits(x, 4 * n) == LowBits(x, n) + (LowBits(a, n) + (LowBits(b, n) + LowBits(c, n)))
  {
    LowBitsAdd(x, n, 3 * n);
    LowBitsAdd(a, n, 2 * n);
    LowBitsAdd(b, n, n);
  }

  lemma {:induction false} WordBytes(x: bv32, a: bv32, b: bv32, c: bv32)
    requires x >> 8 == a && a >> 8 == b && b >> 8 == c
    ensures LowBits(Reg(x), 32) == LowBits(Reg(x), 8) + (LowBits(Reg(a), 8) + (LowBits(Reg(b), 8) + LowBits(Reg(c), 8)))
  {
    RestByte(x, a);
    RestByte(a, b);
    RestByte(b, c);
    WordParts(Reg(x), Reg(a), Reg(b), Reg(c), 8);
  }

  lemma {:induction false} BytesBits(x: bv32, a: bv32, b: bv32, c: bv32)
    requires Steps(x, a, b, c) == true
    ensures Stream([(x & 0xFF) as bv8, (a & 0xFF) as bv8, (b & 0xFF) as bv8, (c & 0xFF) as bv8]) == LowBits(Reg(x), 32)
  {
    ByteBits(x);
    ByteBits(a);
    ByteBits(b);
    ByteBits(c);
    WordBytes(x, a, b, c);
    StreamFour((x & 0xFF) as bv8, (a & 0xFF) as bv8, (b & 0xFF) as bv8, (c & 0xFF) as bv8);
  }

  lemma {:induction false} TrailerBits(x: bv32)
    ensures Stream(Trailer(x)) == LowBits(Reg(x), 32)
  {
    BytesShift(x);
    BytesBits(x, x >> 8, x >> 16, x >> 24);
  }

  /** Running the check over a frame and the check sequence behind it gives one value for all frames. */
  lemma {:induction false} FrameResidue(data: seq<bv8>)
    ensures Crc(Stream(data + Trailer(Crc(Stream(data)).v))) == Reg(0x2144_DF1C)
  {
    var fcs := Crc(Stream(data));
    StreamConcat(data, Trailer(fcs.v));
    TrailerBits(fcs.v);
    SameResidue(Stream(data));
    ResidueValue();
  }

  // ---------- bursts ----------

  lemma {:induction false} WordsDiffer(s: bv32, t: bv32)
    ensures (s >> 1) ^ 0xEDB8_8320 != t >> 1
    ensures s & 1 == t & 1 && s >> 1 == t >> 1 ==> s == t
    ensures (s >> 1) ^ 0xEDB8_8320 == (t >> 1) ^ 0xEDB8_8320 ==> s >> 1 == t >> 1
    ensures s & 1 == 0 || s & 1 == 1
  {
  }

  lemma {:induction false} ShiftInjective(s: bv32, t: bv32, b: bool)
    requires Shift(s, b) == Shift(t, b)
    ensures s == t
  {
    WordsDiffer(s, t);
    WordsDiffer(t, s);
  }

  lemma {:induction false} BitInjective(s: Reg, t: Reg, b: bool)
    requires Bit(s, b) == Bit(t, b)
    ensures s == t
  {
    ShiftInjective(s.v, t.v, b);
  }

  /** Different registers stay different under the same input. */
  lemma {:induction false} RegisterInjective(s: Reg, t: Reg, bits: seq<bool>)
    requires Register(s, bits) == Register(t, bits)
    ensures s == t
    decreases bits
  {
    if bits == [] {
    } else {
      RegisterInjective(Bit(s, bits[0]), Bit(t, bits[0]), bits[1..]);
      BitInjective(s, t, bits[0]);
    }
  }

  lemma {:induction false} WordCancels(s: bv32, x: bv32, y: bv32)
    requires s ^ x == s ^ y
    ensures x == y
  {
  }

  lemma {:induction false} XorCancels(s: Reg, x: Reg, y: Reg)
    requires Xor(s, x) == Xor(s, y)
    ensures x == y
  {
    WordCancels(s.v, x.v, y.v);
  }

  lemma {:induction false} NotInjective(x: Reg, y: Reg)
    requires Not(x) == Not(y)
    ensures x == y
  {
  }

  lemma {:induction false} WindowInjective(s: Reg, x: Reg, y: Reg)
    requires Register(s, LowBits(x, 32)) == Register(s, LowBits(y, 32))
    ensures x == y
  {
    AbsorbWord(s, x);
    AbsorbWord(s, y);
    RegisterInjective(Xor(s, x), Xor(s, y), Zeros(32));
    XorCancels(s, x, y);
  }

  // Every window of up to 32 bits is the low end of some word.

  function Push(x: bv32, b: bool): bv32
  {
    if b then (x << 1) | 1 else x << 1
  }

  predicate Filled(y: bv32)
  {
    y & (y + 1) == 0
  }

  lemma {:induction false} ShrFilled(y: bv32)
    requires Filled(y)
    ensures Filled(Shr(y)) && (Shr(y) != 0 ==> Low(y))
  {
  }

  lemma {:induction false} BoundFilled(n: nat)
    ensures Filled(Bound(n))
  {
    if n > 0 {
      BoundFilled(n - 1);
      ShrFilled(Bound(n - 1));
    }
  }

  lemma {:induction false} BoundStep(n: nat)
    ensures Bound(n + 1) == Shr(Bound(n))
  {
  }

  lemma {:induction false} LowNonzero(y: bv32)
    requires Low(y)
    ensures y != 0
  {
  }

  lemma {:induction false} BoundLow(n: nat)
    requires n < 32
    ensures Low(Bound(n))
    decreases 32 - n
  {
    if n == 31 {
      assert Bound(8) == 0x00FF_FFFF;
      assert Bound(16) == 0x0000_FFFF;
      assert Bound(24) == 0x0000_00FF;
      assert Bound(31) == 1;
    } else {
      BoundLow(n + 1);
      BoundStep(n);
      LowNonzero(Bound(n + 1));
      BoundFilled(n);
      ShrFilled(Bound(n));
    }
  }

  lemma {:induction false} PushWord(x: bv32, y: bv32, z: bv32, b: bool)
    requires Low(y) == true && z == Shr(y) && AtMost(x, z) == true
    ensures AtMost(Push(x, b), y) == true && Shr(Push(x, b)) == x && Low(Push(x, b)) == b
  {
  }

  ghost function Pack(w: seq<bool>): Reg
  {
    if w == [] then ZERO else Reg(Push(Pack(w[1..]).v, w[0]))
  }

  lemma {:induction false} PackStep(x: bv32, b: bool, n: nat)
    requires n < 32 && Below(Reg(x), n + 1)
    ensures Below(Reg(Push(x, b)), n) && Half(Reg(Push(x, b))) == Reg(x) && Odd(Reg(Push(x, b))) == b
  {
    BoundStep(n);
    BoundLow(n);
    PushWord(x, Bound(n), Bound(n + 1), b);
  }

  lemma {:induction false} PackBits(w: seq<bool>, n: nat)
    requires |w| + n == 32
    ensures Below(Pack(w), n) && LowBits(Pack(w), |w|) == w
    decreases w
  {
    if w == [] {
    } else {
      PackBits(w[1..], n + 1);
      PackStep(Pack(w[1..]).v, w[0], n);
      assert w == [w[0]] + w[1..];
    }
  }

  lemma {:induction false} WindowsDiffer(s: Reg, v: seq<bool>, w: seq<bool>)
    requires |v| == |w| <= 32 && Register(s, v) == Register(s, w)
    ensures v == w
  {
    var z := Zeros(32 - |v|);
    RegisterConcat(s, v, z);
    RegisterConcat(s, w, z);
    PackBits(v + z, 0);
    PackBits(w + z, 0);
    WindowInjective(s, Pack(v + z), Pack(w + z));
    assert v == (v + z)[..|v|] && w == (w + z)[..|w|];
  }

  /** Two streams that differ only within 32 consecutive bits have different check sequences. */
  lemma {:induction false} BurstDetected(p: seq<bool>, v: seq<bool>, w: seq<bool>, q: seq<bool>)
    requires |v| == |w| <= 32 && Crc(p + v + q) == Crc(p + w + q)
    ensures v == w
  {
    var s := Register(ONES, p);
    RegisterConcat(ONES, p, v);
    RegisterConcat(ONES, p, w);
    RegisterConcat(ONES, p + v, q);
    RegisterConcat(ONES, p + w, q);
    NotInjective(Register(ONES, p + v + q), Register(ONES, p + w + q));
    RegisterInjective(Register(s, v), Register(s, w), q);
    WindowsDiffer(s, v, w);
  }
}
