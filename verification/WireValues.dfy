/**
 Bytes, bits and little-endian numbers, as the network messages store them.
 */
module WireValues {

  type byte = bv8

  // ----- bits of a byte -----

  function Mask(n: byte): byte
    requires n < 8
  {
    1 << n
  }

  predicate HasBit(t: byte, n: byte)
    requires n < 8
  {
    t & Mask(n) == Mask(n)
  }

  function PutBit(t: byte, n: byte, b: bool): byte
    requires n < 8
  {
    if b then t | Mask(n) else t & !Mask(n)
  }

  /** Putting a bit is seen at its position and nowhere else. */
  lemma PutBitHas(t: byte, n: byte, b: bool, m: byte)
    requires n < 8 && m < 8
    ensures HasBit(PutBit(t, n, b), m) == if m == n then b else HasBit(t, m)
  {
  }

  /** Bit `n` counts from the least significant one. */
  lemma BitFromBelow(t: byte, n: byte)
    requires n < 8
    ensures HasBit(t, n) <==> (t >> n) & 1 == 1
  {
  }

  // ----- numbers -----

  function Byte(n: nat): (b: byte) {
    (n % 256) as byte
  }

  lemma ByteValue(n: nat)
    requires n < 256
    ensures Byte(n) as nat == n
  {
    SmallRemainder(n);
  }

  lemma SmallRemainder(n: nat)
    requires n < 256
    ensures n % 256 == n
  {
  }

  lemma ByteOfValue(b: byte)
    ensures Byte(b as nat) == b
  {
    var n: nat := b as nat;
    assert n as byte == b;
    SmallRemainder(n);
  }

  /** One more than the largest number of `width` bytes. */
  function Power(width: nat): (p: nat)
    ensures p > 0
  {
    if width == 0 then 1 else 256 * Power(width - 1)
  }

  function LittleEndian(n: nat, width: nat): (s: seq<byte>)
    ensures |s| == width
  {
    if width == 0 then [] else [Byte(n)] + LittleEndian(n / 256, width - 1)
  }

  function Value(s: seq<byte>): nat {
    if s == [] then 0 else s[0] as nat + 256 * Value(s[1..])
  }

  lemma {:induction false} ValueBounded(s: seq<byte>)
    ensures Value(s) < Power(|s|)
  {
    if s != [] {
      ValueBounded(s[1..]);
    }
  }

  lemma {:induction false} ValueOfLittleEndian(n: nat, width: nat)
    requires n < Power(width)
    ensures Value(LittleEndian(n, width)) == n
  {
    if width > 0 {
      ValueOfLittleEndian(n / 256, width - 1);
      ByteValue(n % 256);
      assert LittleEndian(n, width)[1..] == LittleEndian(n / 256, width - 1);
    }
  }

  lemma LowByte(b: byte, n: nat)
    ensures Byte(b as nat + 256 * n) == b && (b as nat + 256 * n) / 256 == n
  {
    var v: nat := b as nat;
    assert (v + 256 * n) % 256 == v && (v + 256 * n) / 256 == n;
    assert v as byte == b;
  }

  lemma LittleEndianNext(n: nat, width: nat)
    requires width > 0
    ensures LittleEndian(n, width) == [Byte(n)] + LittleEndian(n / 256, width - 1)
  {
  }

  lemma LittleEndianFirst(b: byte, n: nat, width: nat)
    ensures LittleEndian(b as nat + 256 * n, width + 1) == [b] + LittleEndian(n, width)
  {
    LowByte(b, n);
    LittleEndianNext(b as nat + 256 * n, width + 1);
  }

  lemma {:induction false} LittleEndianOfValue(s: seq<byte>)
    ensures LittleEndian(Value(s), |s|) == s
  {
    if s != [] {
      LittleEndianOfValue(s[1..]);
      LittleEndianFirst(s[0], Value(s[1..]), |s| - 1);
      assert s == [s[0]] + s[1..];
    }
  }

  // ----- fixed-width integers -----

  predicate InRange(width: nat, signed: bool, v: int) {
    if signed then 0 <= 2 * v + Power(width) < 2 * Power(width) else 0 <= v < Power(width)
  }

  function ToWire(width: nat, v: int): nat
    requires 0 <= v + Power(width)
  {
    if v < 0 then v + Power(width) else v
  }

  function FromWire(width: nat, signed: bool, n: nat): int {
    if signed && 2 * n >= Power(width) then n - Power(width) else n
  }

  lemma WireRoundTrip(width: nat, signed: bool, v: int)
    requires InRange(width, signed, v)
    ensures FromWire(width, signed, Value(LittleEndian(ToWire(width, v), width))) == v
  {
    ValueOfLittleEndian(ToWire(width, v), width);
  }

  lemma ValueOfRest(s: seq<byte>, i: nat)
    requires i < |s|
    ensures Value(s[i..]) == s[i] as nat + 256 * Value(s[i + 1..])
  {
    assert s[i..][1..] == s[i + 1..];
  }

  /** Numbers of four bytes have the least significant byte first. */
  lemma ValueOfFour(s: seq<byte>)
    requires |s| == 4
    ensures Value(s) == s[0] as nat + 0x100 * s[1] as nat + 0x1_0000 * s[2] as nat + 0x100_0000 * s[3] as nat
  {
    ValueOfRest(s, 0);
    ValueOfRest(s, 1);
    ValueOfRest(s, 2);
    ValueOfRest(s, 3);
    assert s[0..] == s && s[4..] == [];
  }

  /** Signed numbers of four bytes are in two's complement. */
  lemma SignedFour(v: int)
    requires -0x8000_0000 <= v < 0x8000_0000
    ensures InRange(4, true, v)
    ensures ToWire(4, v) == if v < 0 then v + 0x1_0000_0000 else v
  {
    assert Power(4) == 0x1_0000_0000;
  }
}
