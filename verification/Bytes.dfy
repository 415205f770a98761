/**
 Bytes in memory, and the integers the code reads from them on a little-endian host.
 */
module Bytes {

  datatype Option<T> = None | Some(value: T)

  type Byte = x: int | 0 <= x < 0x100
  type U16 = x: int | 0 <= x < 0x1_0000
  type U32 = x: int | 0 <= x < 0x1_0000_0000

  /** A 16-bit store in network order: `*p = htons(x)`. */
  function Be16(x: U16): (r: seq<Byte>)
    ensures |r| == 2
  {
    [x / 0x100, x % 0x100]
  }

  /** A 16-bit store in host order. */
  function Le16(x: U16): (r: seq<Byte>)
    ensures |r| == 2
  {
    [x % 0x100, x / 0x100]
  }

  /** A 32-bit store in network order: `*p = htonl(x)`. */
  function Be32(x: U32): (r: seq<Byte>)
    ensures |r| == 4
  {
    Be16(x / 0x1_0000) + Be16(x % 0x1_0000)
  }

  /** A 32-bit store in host order. */
  function Le32(x: U32): (r: seq<Byte>)
    ensures |r| == 4
  {
    Le16(x % 0x1_0000) + Le16(x / 0x1_0000)
  }

  function Word(lo: Byte, hi: Byte): U16
  {
    var h: int := hi;
    lo + 0x100 * h
  }

  function FromBe16(b: seq<Byte>, i: nat): U16
    requires i + 2 <= |b|
  {
    Word(b[i + 1], b[i])
  }

  function FromBe32(b: seq<Byte>, i: nat): U32
    requires i + 4 <= |b|
  {
    0x1_0000 * FromBe16(b, i) + FromBe16(b, i + 2)
  }

  function FromLe16(b: seq<Byte>, i: nat): U16
    requires i + 2 <= |b|
  {
    Word(b[i], b[i + 1])
  }

  function FromLe32(b: seq<Byte>, i: nat): U32
    requires i + 4 <= |b|
  {
    FromLe16(b, i) + 0x1_0000 * FromLe16(b, i + 2)
  }

  /** The number that is in host order what `x` is in network order. */
  function Swap16(x: U16): U16
  {
    x % 0x100 * 0x100 + x / 0x100
  }

  lemma {:induction false} SwapStored(x: U16)
    ensures Le16(Swap16(x)) == Be16(x) && Word(x / 0x100, x % 0x100) == Swap16(x)
  {
    assert Swap16(x) % 0x100 == x / 0x100 && Swap16(x) / 0x100 == x % 0x100;
  }

  lemma {:induction false} Be16At(x: U16, b: seq<Byte>, i: nat)
    requires i + 2 <= |b| && b[i..i + 2] == Be16(x)
    ensures FromBe16(b, i) == x
  {
    var w := b[i..i + 2];
    assert w[0] == b[i] && w[1] == b[i + 1];
  }

  lemma {:induction false} Be32At(x: U32, b: seq<Byte>, i: nat)
    requires i + 4 <= |b| && b[i..i + 4] == Be32(x)
    ensures FromBe32(b, i) == x
  {
    var w := b[i..i + 4];
    assert w[0] == b[i] && w[1] == b[i + 1] && w[2] == b[i + 2] && w[3] == b[i + 3];
  }

  /** Writes the bytes `b` into memory. */
  method Store(buf: array<Byte>, i: nat, b: seq<Byte>)
    requires i + |b| <= buf.Length
    modifies buf
    ensures buf[..] == old(buf[..i]) + b + old(buf[i + |b|..])
  {
    forall k | 0 <= k < |b| {
      buf[i + k] := b[k];
    }
  }
}
