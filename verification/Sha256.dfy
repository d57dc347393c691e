/**
 SHA-256, sections 4 to 6 of FIPS 180-4, on values.
 */
module Sha256 {
  import opened Sequences
  import opened WireValues
  import opened BlockHash

  type word = bv32

  const INITIAL: seq<word> := [
    0x6a09e667, 0xbb67ae85, 0x3c6ef372, 0xa54ff53a, 0x510e527f, 0x9b05688c, 0x1f83d9ab, 0x5be0cd19
  ]

  const K0: seq<word> := [
    0x428a2f98, 0x71374491, 0xb5c0fbcf, 0xe9b5dba5,
    0x3956c25b, 0x59f111f1, 0x923f82a4, 0xab1c5ed5,
    0xd807aa98, 0x12835b01, 0x243185be, 0x550c7dc3,
    0x72be5d74, 0x80deb1fe, 0x9bdc06a7, 0xc19bf174
  ]

  const K16: seq<word> := [
    0xe49b69c1, 0xefbe4786, 0x0fc19dc6, 0x240ca1cc,
    0x2de92c6f, 0x4a7484aa, 0x5cb0a9dc, 0x76f988da,
    0x983e5152, 0xa831c66d, 0xb00327c8, 0xbf597fc7,
    0xc6e00bf3, 0xd5a79147, 0x06ca6351, 0x14292967
  ]

  const K32: seq<word> := [
    0x27b70a85, 0x2e1b2138, 0x4d2c6dfc, 0x53380d13,
    0x650a7354, 0x766a0abb, 0x81c2c92e, 0x92722c85,
    0xa2bfe8a1, 0xa81a664b, 0xc24b8b70, 0xc76c51a3,
    0xd192e819, 0xd6990624, 0xf40e3585, 0x106aa070
  ]

  const K48: seq<word> := [
    0x19a4c116, 0x1e376c08, 0x2748774c, 0x34b0bcb5,
    0x391c0cb3, 0x4ed8aa4a, 0x5b9cca4f, 0x682e6ff3,
    0x748f82ee, 0x78a5636f, 0x84c87814, 0x8cc70208,
    0x90befffa, 0xa4506ceb, 0xbef9a3f7, 0xc67178f2
  ]

  const K := K0 + K16 + K32 + K48

  function Rotr(x: word, n: word): word
    requires 0 < n < 32
  {
    (x >> n) | (x << (32 - n))
  }

  function Ch(x: word, y: word, z: word): word {
    (x & y) ^ (!x & z)
  }

  function Maj(x: word, y: word, z: word): word {
    (x & y) ^ (x & z) ^ (y & z)
  }

  function F1(x: word): word {
    Rotr(x, 2) ^ Rotr(x, 13) ^ Rotr(x, 22)
  }

  function F2(x: word): word {
    Rotr(x, 6) ^ Rotr(x, 11) ^ Rotr(x, 25)
  }

  function F3(x: word): word {
    Rotr(x, 7) ^ Rotr(x, 18) ^ (x >> 3)
  }

  function F4(x: word): word {
    Rotr(x, 17) ^ Rotr(x, 19) ^ (x >> 10)
  }

  function Combined(a: byte, b: byte, c: byte, d: byte): word {
    (a as word << 24) | (b as word << 16) | (c as word << 8) | d as word
  }

  /** Four bytes as a word, the first the most significant. */
  function Pack(s: seq<byte>): word
    requires |s| == 4
  {
    Combined(s[0], s[1], s[2], s[3])
  }

  function ByteAt(x: word, shift: word): byte
    requires shift < 32
  {
    ((x >> shift) & 0xff) as byte
  }

  function Unpack(x: word): (s: seq<byte>)
    ensures |s| == 4
  {
    [ByteAt(x, 24), ByteAt(x, 16), ByteAt(x, 8), ByteAt(x, 0)]
  }

  function Scheduled(a: word, b: word, c: word, d: word): word {
    F4(a) + b + F3(c) + d
  }

  /** The message schedule of a block. */
  function W(block: seq<byte>, t: nat): word
    requires |block| == 64 && t < 64
  {
    if t < 16 then Pack(block[4 * t..4 * t + 4])
    else Scheduled(W(block, t - 2), W(block, t - 7), W(block, t - 15), W(block, t - 16))
  }

  function T1(e: word, f: word, g: word, h: word, k: word, w: word): word {
    h + F2(e) + Ch(e, f, g) + k + w
  }

  function T2(a: word, b: word, c: word): word {
    F1(a) + Maj(a, b, c)
  }

  function Plus(x: word, y: word): word {
    x + y
  }

  function RoundAt(s: seq<word>, k: word, w: word, i: nat): word
    requires |s| == 8 && i < 8
  {
    if i == 0 then Plus(T1(s[4], s[5], s[6], s[7], k, w), T2(s[0], s[1], s[2]))
    else if i == 4 then Plus(s[3], T1(s[4], s[5], s[6], s[7], k, w))
    else s[i - 1]
  }

  /** The eight working variables after a round. */
  function Round(s: seq<word>, k: word, w: word): (r: seq<word>)
    requires |s| == 8
    ensures |r| == 8
  {
    seq(8, i requires 0 <= i < 8 => RoundAt(s, k, w, i))
  }

  function Rounds(s: seq<word>, block: seq<byte>, t: nat): (r: seq<word>)
    requires |s| == 8 && |block| == 64 && t <= 64
    ensures |r| == 8
  {
    if t == 0 then s else Round(Rounds(s, block, t - 1), K[t - 1], W(block, t - 1))
  }

  function Add(s: seq<word>, t: seq<word>): (r: seq<word>)
    requires |s| == |t|
    ensures |r| == |s| && forall i | 0 <= i < |s| :: r[i] == Plus(s[i], t[i])
  {
    seq(|s|, i requires 0 <= i < |s| => Plus(s[i], t[i]))
  }

  /** The eight words of the hash value after one block more. */
  function Compress(s: seq<word>, block: seq<byte>): (r: seq<word>)
    ensures |r| == |s|
  {
    if |s| == 8 && |block| == 64 then Add(s, Rounds(s, block, |block|)) else s
  }

  function Output(s: seq<word>): (r: seq<byte>)
    ensures |r| == 4 * |s|
  {
    if s == [] then [] else Unpack(s[0]) + Output(s[1..])
  }

  lemma {:induction false} BlocksKeepSize(h: seq<word>, s: seq<byte>, n: nat)
    requires 64 * n <= |s|
    ensures |BlocksTo(Compress, h, s, n)| == |h|
    decreases n
  {
    if n > 0 {
      BlocksKeepSize(h, s, n - 1);
    }
  }

  /** The digest of a message whose length in bits is given in eight bytes. */
  function DigestWith(s: seq<byte>, length: seq<byte>): (r: seq<byte>)
    ensures |r| == 32
  {
    var all := s + Padding(|s|, length);
    BlocksKeepSize(INITIAL, all, |all| / 64);
    Output(Blocks(Compress, INITIAL, all))
  }

  /** The digest of a message. */
  function Digest(s: seq<byte>): (r: seq<byte>)
    ensures |r| == 32
  {
    DigestWith(s, BigEndian(8 * |s|, 8))
  }

  /** The length in bits as the implementation stores it: eight bytes, of which the first four are always zero. */
  function StoredLength(n: nat): (s: seq<byte>)
    ensures |s| == 8
  {
    Zeros(4) + BigEndian(8 * n, 4)
  }

  function Above(n: nat, width: nat): nat {
    if width == 0 then n else Above(n / 256, width - 1)
  }

  lemma {:induction false} AboveIsZero(n: nat, width: nat)
    ensures Above(n, width) == 0 <==> n < Power(width)
  {
    if width > 0 {
      AboveIsZero(n / 256, width - 1);
    }
  }

  lemma BigEndianNext(n: nat, width: nat)
    requires width > 0
    ensures BigEndian(n, width) == BigEndian(n / 256, width - 1) + [Byte(n)]
  {
  }

  lemma {:induction false} BigEndianSplit(n: nat, high: nat, low: nat)
    ensures BigEndian(n, high + low) == BigEndian(Above(n, low), high) + BigEndian(n, low)
    decreases low
  {
    if low > 0 {
      BigEndianSplit(n / 256, high, low - 1);
      BigEndianNext(n, high + low);
      BigEndianNext(n, low);
      Associative(BigEndian(Above(n, low), high), BigEndian(n / 256, low - 1), [Byte(n)]);
    }
  }

  lemma {:induction false} BigEndianIsZero(n: nat, width: nat)
    requires n < Power(width)
    ensures BigEndian(n, width) == Zeros(width) <==> n == 0
  {
    if width > 0 {
      BigEndianIsZero(n / 256, width - 1);
      ByteValue(n % 256);
      assert Byte(n) == Byte(n % 256);
      ConcatZeros(BigEndian(n / 256, width - 1), Byte(n));
    }
  }

  lemma ConcatZeros(s: seq<byte>, b: byte)
    ensures s + [b] == Zeros(|s| + 1) <==> s == Zeros(|s|) && b == 0
  {
    if s + [b] == Zeros(|s| + 1) {
      assert (s + [b])[..|s|] == Zeros(|s| + 1)[..|s|] == Zeros(|s|) && (s + [b])[|s|] == 0;
    }
  }

  lemma {:induction false} AboveBounded(n: nat, low: nat, high: nat)
    requires n < Power(low + high)
    ensures Above(n, low) < Power(high)
    decreases low
  {
    if low > 0 {
      AboveBounded(n / 256, low - 1, high);
    }
  }

  /** The stored length is the 64-bit length of the standard exactly for messages below 2 to the power of 29 bytes. */
  lemma StoredLengthIsStandard(n: nat)
    requires 8 * n < Power(8)
    ensures StoredLength(n) == BigEndian(8 * n, 8) <==> n < 0x2000_0000
  {
    var high := Above(8 * n, 4);
    AboveBounded(8 * n, 4, 4);
    AboveIsZero(8 * n, 4);
    BigEndianSplit(8 * n, 4, 4);
    BigEndianIsZero(high, 4);
    assert Power(4) == 0x1_0000_0000;
    if StoredLength(n) == BigEndian(8 * n, 8) {
      assert Zeros(4) == StoredLength(n)[..4] == BigEndian(8 * n, 8)[..4] == BigEndian(high, 4);
    }
  }

  // ----- HMAC, section 2 of RFC 2104 -----

  function XorAll(s: seq<byte>, x: byte): (r: seq<byte>)
    ensures |r| == |s| && forall i | 0 <= i < |s| :: r[i] == s[i] ^ x
  {
    seq(|s|, i requires 0 <= i < |s| => s[i] ^ x)
  }

  /** The key as a block: hashed if it is longer than one, and filled with zeros. */
  function KeyBlock(key: seq<byte>): (r: seq<byte>)
    ensures |r| == 64
  {
    var used := if |key| > 64 then Digest(key) else key;
    used + Zeros(64 - |used|)
  }

  function Hmac(key: seq<byte>, s: seq<byte>): (r: seq<byte>)
    ensures |r| == 32
  {
    Digest(XorAll(KeyBlock(key), 0x5c) + Digest(XorAll(KeyBlock(key), 0x36) + s))
  }

  /**
   As RFC 2104 defines it: the key is filled with zero bytes to a block, or hashed first if it is longer; the
   message is hashed behind the key with 0x36 in every byte, and the result behind the key with 0x5c in every byte.
   */
  lemma HmacHashesTwice(key: seq<byte>, s: seq<byte>, inner: seq<byte>, outer: seq<byte>)
    requires |inner| == 64 && |outer| == 64
    requires var used := if |key| <= 64 then key else Digest(key);
      forall i | 0 <= i < 64 ::
        var k := if i < |used| then used[i] else 0;
        inner[i] == k ^ 0x36 && outer[i] == k ^ 0x5c
    ensures Hmac(key, s) == Digest(outer + Digest(inner + s))
  {
    var block := KeyBlock(key);
    assert inner == XorAll(block, 0x36) && outer == XorAll(block, 0x5c);
  }
}
