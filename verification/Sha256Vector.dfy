/**
 The constants of SHA-256 as what they are taken from, its operations bit by bit, and the digest of "abc", the
 first example that is published with the standard.
 */
module Sha256Vector {
  import opened WireValues
  import opened BlockHash
  import opened Sha256

  // ----- constants, sections 4.2.2 and 5.3.3 of FIPS 180-4 -----

  /** `k` holds the first 32 bits of the fraction of the cube root of `p`, whose integer part is `n`. */
  predicate CubeRoot(p: nat, n: nat, k: nat) {
    var r := 0x1_0000_0000 * n + k;
    r * r * r <= 0x1_0000_0000_0000_0000_0000_0000 * p < (r + 1) * (r + 1) * (r + 1)
  }

  predicate SquareRoot(p: nat, n: nat, k: word) {
    var r := 0x1_0000_0000 * n + k as nat;
    r * r <= 0x1_0000_0000_0000_0000 * p < (r + 1) * (r + 1)
  }

  /** The initial words are taken from the square roots of the first eight primes. */
  lemma InitialWords()
    ensures INITIAL == [
      0x6a09e667, 0xbb67ae85, 0x3c6ef372, 0xa54ff53a, 0x510e527f, 0x9b05688c, 0x1f83d9ab, 0x5be0cd19
    ]
    ensures SquareRoot(2, 1, 0x6a09e667)
    ensures SquareRoot(3, 1, 0xbb67ae85)
    ensures SquareRoot(5, 2, 0x3c6ef372)
    ensures SquareRoot(7, 2, 0xa54ff53a)
    ensures SquareRoot(11, 3, 0x510e527f)
    ensures SquareRoot(13, 3, 0x9b05688c)
    ensures SquareRoot(17, 4, 0x1f83d9ab)
    ensures SquareRoot(19, 4, 0x5be0cd19)
  {
  }

  /** Constants 0 to 7 are taken from the cube roots of the primes 2 to 19. */
  lemma Constants0()
    ensures K[0] == 0x428a2f98 && CubeRoot(2, 1, 0x428a2f98)
    ensures K[1] == 0x71374491 && CubeRoot(3, 1, 0x71374491)
    ensures K[2] == 0xb5c0fbcf && CubeRoot(5, 1, 0xb5c0fbcf)
    ensures K[3] == 0xe9b5dba5 && CubeRoot(7, 1, 0xe9b5dba5)
    ensures K[4] == 0x3956c25b && CubeRoot(11, 2, 0x3956c25b)
    ensures K[5] == 0x59f111f1 && CubeRoot(13, 2, 0x59f111f1)
    ensures K[6] == 0x923f82a4 && CubeRoot(17, 2, 0x923f82a4)
    ensures K[7] == 0xab1c5ed5 && CubeRoot(19, 2, 0xab1c5ed5)
  {
  }

  /** Constants 8 to 15 are taken from the cube roots of the primes 23 to 53. */
  lemma Constants8()
    ensures K[8] == 0xd807aa98 && CubeRoot(23, 2, 0xd807aa98)
    ensures K[9] == 0x12835b01 && CubeRoot(29, 3, 0x12835b01)
    ensures K[10] == 0x243185be && CubeRoot(31, 3, 0x243185be)
    ensures K[11] == 0x550c7dc3 && CubeRoot(37, 3, 0x550c7dc3)
    ensures K[12] == 0x72be5d74 && CubeRoot(41, 3, 0x72be5d74)
    ensures K[13] == 0x80deb1fe && CubeRoot(43, 3, 0x80deb1fe)
    ensures K[14] == 0x9bdc06a7 && CubeRoot(47, 3, 0x9bdc06a7)
    ensures K[15] == 0xc19bf174 && CubeRoot(53, 3, 0xc19bf174)
  {
  }

  /** Constants 16 to 23 are taken from the cube roots of the primes 59 to 89. */
  lemma Constants16()
    ensures K[16] == 0xe49b69c1 && CubeRoot(59, 3, 0xe49b69c1)
    ensures K[17] == 0xefbe4786 && CubeRoot(61, 3, 0xefbe4786)
    ensures K[18] == 0x0fc19dc6 && CubeRoot(67, 4, 0x0fc19dc6)
    ensures K[19] == 0x240ca1cc && CubeRoot(71, 4, 0x240ca1cc)
    ensures K[20] == 0x2de92c6f && CubeRoot(73, 4, 0x2de92c6f)
    ensures K[21] == 0x4a7484aa && CubeRoot(79, 4, 0x4a7484aa)
    ensures K[22] == 0x5cb0a9dc && CubeRoot(83, 4, 0x5cb0a9dc)
    ensures K[23] == 0x76f988da && CubeRoot(89, 4, 0x76f988da)
  {
  }

  /** Constants 24 to 31 are taken from the cube roots of the primes 97 to 131. */
  lemma Constants24()
    ensures K[24] == 0x983e5152 && CubeRoot(97, 4, 0x983e5152)
    ensures K[25] == 0xa831c66d && CubeRoot(101, 4, 0xa831c66d)
    ensures K[26] == 0xb00327c8 && CubeRoot(103, 4, 0xb00327c8)
    ensures K[27] == 0xbf597fc7 && CubeRoot(107, 4, 0xbf597fc7)
    ensures K[28] == 0xc6e00bf3 && CubeRoot(109, 4, 0xc6e00bf3)
    ensures K[29] == 0xd5a79147 && CubeRoot(113, 4, 0xd5a79147)
    ensures K[30] == 0x06ca6351 && CubeRoot(127, 5, 0x06ca6351)
    ensures K[31] == 0x14292967 && CubeRoot(131, 5, 0x14292967)
  {
  }

  /** Constants 32 to 39 are taken from the cube roots of the primes 137 to 173. */
  lemma Constants32()
    ensures K[32] == 0x27b70a85 && CubeRoot(137, 5, 0x27b70a85)
    ensures K[33] == 0x2e1b2138 && CubeRoot(139, 5, 0x2e1b2138)
    ensures K[34] == 0x4d2c6dfc && CubeRoot(149, 5, 0x4d2c6dfc)
    ensures K[35] == 0x53380d13 && CubeRoot(151, 5, 0x53380d13)
    ensures K[36] == 0x650a7354 && CubeRoot(157, 5, 0x650a7354)
    ensures K[37] == 0x766a0abb && CubeRoot(163, 5, 0x766a0abb)
    ensures K[38] == 0x81c2c92e && CubeRoot(167, 5, 0x81c2c92e)
    ensures K[39] == 0x92722c85 && CubeRoot(173, 5, 0x92722c85)
  {
  }

  /** Constants 40 to 47 are taken from the cube roots of the primes 179 to 223. */
  lemma Constants40()
    ensures K[40] == 0xa2bfe8a1 && CubeRoot(179, 5, 0xa2bfe8a1)
    ensures K[41] == 0xa81a664b && CubeRoot(181, 5, 0xa81a664b)
    ensures K[42] == 0xc24b8b70 && CubeRoot(191, 5, 0xc24b8b70)
    ensures K[43] == 0xc76c51a3 && CubeRoot(193, 5, 0xc76c51a3)
    ensures K[44] == 0xd192e819 && CubeRoot(197, 5, 0xd192e819)
    ensures K[45] == 0xd6990624 && CubeRoot(199, 5, 0xd6990624)
    ensures K[46] == 0xf40e3585 && CubeRoot(211, 5, 0xf40e3585)
    ensures K[47] == 0x106aa070 && CubeRoot(223, 6, 0x106aa070)
  {
  }

  /** Constants 48 to 55 are taken from the cube roots of the primes 227 to 263. */
  lemma Constants48()
    ensures K[48] == 0x19a4c116 && CubeRoot(227, 6, 0x19a4c116)
    ensures K[49] == 0x1e376c08 && CubeRoot(229, 6, 0x1e376c08)
    ensures K[50] == 0x2748774c && CubeRoot(233, 6, 0x2748774c)
    ensures K[51] == 0x34b0bcb5 && CubeRoot(239, 6, 0x34b0bcb5)
    ensures K[52] == 0x391c0cb3 && CubeRoot(241, 6, 0x391c0cb3)
    ensures K[53] == 0x4ed8aa4a && CubeRoot(251, 6, 0x4ed8aa4a)
    ensures K[54] == 0x5b9cca4f && CubeRoot(257, 6, 0x5b9cca4f)
    ensures K[55] == 0x682e6ff3 && CubeRoot(263, 6, 0x682e6ff3)
  {
  }

  /** Constants 56 to 63 are taken from the cube roots of the primes 269 to 311. */
  lemma Constants56()
    ensures K[56] == 0x748f82ee && CubeRoot(269, 6, 0x748f82ee)
    ensures K[57] == 0x78a5636f && CubeRoot(271, 6, 0x78a5636f)
    ensures K[58] == 0x84c87814 && CubeRoot(277, 6, 0x84c87814)
    ensures K[59] == 0x8cc70208 && CubeRoot(281, 6, 0x8cc70208)
    ensures K[60] == 0x90befffa && CubeRoot(283, 6, 0x90befffa)
    ensures K[61] == 0xa4506ceb && CubeRoot(293, 6, 0xa4506ceb)
    ensures K[62] == 0xbef9a3f7 && CubeRoot(307, 6, 0xbef9a3f7)
    ensures K[63] == 0xc67178f2 && CubeRoot(311, 6, 0xc67178f2)
  {
  }

  // ----- operations, section 4.1.2 of FIPS 180-4 -----

  /** `Ch` chooses the bits of `y` where `x` has ones, and those of `z` elsewhere. */
  lemma ChChooses(x: word, y: word, z: word)
    ensures Ch(x, y, z) & x == y & x && Ch(x, y, z) & !x == z & !x
  {
  }

  /** `Maj` has the bits of `x` and `y` where they agree, and those of `z` elsewhere. */
  lemma MajIsMajority(x: word, y: word, z: word)
    ensures Maj(x, y, z) & !(x ^ y) == x & !(x ^ y) && Maj(x, y, z) & (x ^ y) == z & (x ^ y)
  {
  }

  // ----- the hash of the padded message "abc", step by step -----

  function BlockByte(i: nat): byte {
    if i == 0 then 0x61 else if i == 1 then 0x62 else if i == 2 then 0x63 else if i == 3 then 0x80
    else if i == 63 then 24 else 0
  }

  /** The only block of the padded message. */
  function Block(): (r: seq<byte>)
    ensures |r| == 64
  {
    seq(64, i requires 0 <= i < 64 => BlockByte(i))
  }

  predicate Turn(t: int) {
    0 <= t <= 64
  }

  /** The schedule `w` of the block, and the working variables `s` before each round. */
  ghost predicate Traces(w: seq<word>, s: seq<seq<word>>) {
    && |w| == 64 && |s| == 65
    && (forall t {:trigger Turn(t)} | Turn(t) ::
      && |s[t]| == 8 && s[t] == Rounds(INITIAL, Block(), t)
      && (t < 64 ==> w[t] == W(Block(), t)))
  }

  lemma Packed(q: seq<byte>, a: byte, b: byte, c: byte, d: byte)
    requires |q| == 4 && q[0] == a && q[1] == b && q[2] == c && q[3] == d
    ensures Pack(q) == Combined(a, b, c, d)
  {
  }

  lemma FirstWord(w: seq<word>, s: seq<seq<word>>, t: nat, a: byte, b: byte, c: byte, d: byte, r: word)
    requires Traces(w, s) && t < 16 && Combined(a, b, c, d) == r
    requires BlockByte(4 * t) == a && BlockByte(4 * t + 1) == b
    requires BlockByte(4 * t + 2) == c && BlockByte(4 * t + 3) == d
    ensures w[t] == r
  {
    Packed(Block()[4 * t..4 * t + 4], a, b, c, d);
    FirstWordOf(w, s, t);
  }

  lemma FirstWordOf(w: seq<word>, s: seq<seq<word>>, t: nat)
    requires Traces(w, s) && t < 16
    ensures w[t] == Pack(Block()[4 * t..4 * t + 4])
  {
    assert Turn(t);
  }

  lemma NextWord(w: seq<word>, s: seq<seq<word>>, t: nat, a: word, b: word, c: word, d: word, r: word)
    requires Traces(w, s) && 16 <= t < 64 && w[t - 2] == a && w[t - 7] == b && w[t - 15] == c && w[t - 16] == d
    requires Scheduled(a, b, c, d) == r
    ensures w[t] == r
  {
    assert Turn(t) && Turn(t - 2) && Turn(t - 7) && Turn(t - 15) && Turn(t - 16);
  }

  lemma Words0(w: seq<word>, s: seq<seq<word>>)
    requires Traces(w, s)
    ensures w[0] == 0x61626380 && w[1] == 0x00000000 && w[2] == 0x00000000 && w[3] == 0x00000000
    ensures w[4] == 0x00000000 && w[5] == 0x00000000 && w[6] == 0x00000000 && w[7] == 0x00000000
    ensures w[8] == 0x00000000 && w[9] == 0x00000000 && w[10] == 0x00000000 && w[11] == 0x00000000
    ensures w[12] == 0x00000000 && w[13] == 0x00000000 && w[14] == 0x00000000 && w[15] == 0x00000018
  {
    FirstWord(w, s, 0, 0x61, 0x62, 0x63, 0x80, 0x61626380);
    FirstWord(w, s, 15, 0, 0, 0, 24, 24);
    forall t: nat | 1 <= t < 15
      ensures w[t] == 0
    {
      FirstWord(w, s, t, 0, 0, 0, 0, 0);
    }
  }

  lemma Words16(w: seq<word>, s: seq<seq<word>>)
    requires Traces(w, s)
    ensures w[16] == 0x61626380 && w[17] == 0x000f0000 && w[18] == 0x7da86405 && w[19] == 0x600003c6
    ensures w[20] == 0x3e9d7b78 && w[21] == 0x0183fc00 && w[22] == 0x12dcbfdb && w[23] == 0xe2e2c38e
    ensures w[24] == 0xc8215c1a && w[25] == 0xb73679a2 && w[26] == 0xe5bc3909 && w[27] == 0x32663c5b
    ensures w[28] == 0x9d209d67 && w[29] == 0xec8726cb && w[30] == 0x702138a4 && w[31] == 0xd3b7973b
  {
    Words0(w, s);
    NextWord(w, s, 16, 0x00000000, 0x00000000, 0x00000000, 0x61626380, 0x61626380);
    NextWord(w, s, 17, 0x00000018, 0x00000000, 0x00000000, 0x00000000, 0x000f0000);
    NextWord(w, s, 18, 0x61626380, 0x00000000, 0x00000000, 0x00000000, 0x7da86405);
    NextWord(w, s, 19, 0x000f0000, 0x00000000, 0x00000000, 0x00000000, 0x600003c6);
    NextWord(w, s, 20, 0x7da86405, 0x00000000, 0x00000000, 0x00000000, 0x3e9d7b78);
    NextWord(w, s, 21, 0x600003c6, 0x00000000, 0x00000000, 0x00000000, 0x0183fc00);
    NextWord(w, s, 22, 0x3e9d7b78, 0x00000018, 0x00000000, 0x00000000, 0x12dcbfdb);
    NextWord(w, s, 23, 0x0183fc00, 0x61626380, 0x00000000, 0x00000000, 0xe2e2c38e);
    NextWord(w, s, 24, 0x12dcbfdb, 0x000f0000, 0x00000000, 0x00000000, 0xc8215c1a);
    NextWord(w, s, 25, 0xe2e2c38e, 0x7da86405, 0x00000000, 0x00000000, 0xb73679a2);
    NextWord(w, s, 26, 0xc8215c1a, 0x600003c6, 0x00000000, 0x00000000, 0xe5bc3909);
    NextWord(w, s, 27, 0xb73679a2, 0x3e9d7b78, 0x00000000, 0x00000000, 0x32663c5b);
    NextWord(w, s, 28, 0xe5bc3909, 0x0183fc00, 0x00000000, 0x00000000, 0x9d209d67);
    NextWord(w, s, 29, 0x32663c5b, 0x12dcbfdb, 0x00000000, 0x00000000, 0xec8726cb);
    NextWord(w, s, 30, 0x9d209d67, 0xe2e2c38e, 0x00000018, 0x00000000, 0x702138a4);
    NextWord(w, s, 31, 0xec8726cb, 0xc8215c1a, 0x61626380, 0x00000018, 0xd3b7973b);
  }

  lemma Words32(w: seq<word>, s: seq<seq<word>>)
    requires Traces(w, s)
    ensures w[32] == 0x93f5997f && w[33] == 0x3b68ba73 && w[34] == 0xaff4ffc1 && w[35] == 0xf10a5c62
    ensures w[36] == 0x0a8b3996 && w[37] == 0x72af830a && w[38] == 0x9409e33e && w[39] == 0x24641522
    ensures w[40] == 0x9f47bf94 && w[41] == 0xf0a64f5a && w[42] == 0x3e246a79 && w[43] == 0x27333ba3
    ensures w[44] == 0x0c4763f2 && w[45] == 0x840abf27 && w[46] == 0x7a290d5d && w[47] == 0x065c43da
  {
    Words16(w, s);
    NextWord(w, s, 32, 0x702138a4, 0xb73679a2, 0x000f0000, 0x61626380, 0x93f5997f);
    NextWord(w, s, 33, 0xd3b7973b, 0xe5bc3909, 0x7da86405, 0x000f0000, 0x3b68ba73);
    NextWord(w, s, 34, 0x93f5997f, 0x32663c5b, 0x600003c6, 0x7da86405, 0xaff4ffc1);
    NextWord(w, s, 35, 0x3b68ba73, 0x9d209d67, 0x3e9d7b78, 0x600003c6, 0xf10a5c62);
    NextWord(w, s, 36, 0xaff4ffc1, 0xec8726cb, 0x0183fc00, 0x3e9d7b78, 0x0a8b3996);
    NextWord(w, s, 37, 0xf10a5c62, 0x702138a4, 0x12dcbfdb, 0x0183fc00, 0x72af830a);
    NextWord(w, s, 38, 0x0a8b3996, 0xd3b7973b, 0xe2e2c38e, 0x12dcbfdb, 0x9409e33e);
    NextWord(w, s, 39, 0x72af830a, 0x93f5997f, 0xc8215c1a, 0xe2e2c38e, 0x24641522);
    NextWord(w, s, 40, 0x9409e33e, 0x3b68ba73, 0xb73679a2, 0xc8215c1a, 0x9f47bf94);
    NextWord(w, s, 41, 0x24641522, 0xaff4ffc1, 0xe5bc3909, 0xb73679a2, 0xf0a64f5a);
    NextWord(w, s, 42, 0x9f47bf94, 0xf10a5c62, 0x32663c5b, 0xe5bc3909, 0x3e246a79);
    NextWord(w, s, 43, 0xf0a64f5a, 0x0a8b3996, 0x9d209d67, 0x32663c5b, 0x27333ba3);
    NextWord(w, s, 44, 0x3e246a79, 0x72af830a, 0xec8726cb, 0x9d209d67, 0x0c4763f2);
    NextWord(w, s, 45, 0x27333ba3, 0x9409e33e, 0x702138a4, 0xec8726cb, 0x840abf27);
    NextWord(w, s, 46, 0x0c4763f2, 0x24641522, 0xd3b7973b, 0x702138a4, 0x7a290d5d);
    NextWord(w, s, 47, 0x840abf27, 0x9f47bf94, 0x93f5997f, 0xd3b7973b, 0x065c43da);
  }

  lemma Words48(w: seq<word>, s: seq<seq<word>>)
    requires Traces(w, s)
    ensures w[48] == 0xfb3e89cb && w[49] == 0xcc7617db && w[50] == 0xb9e66c34 && w[51] == 0xa9993667
    ensures w[52] == 0x84badedd && w[53] == 0xc21462bc && w[54] == 0x1487472c && w[55] == 0xb20f7a99
    ensures w[56] == 0xef57b9cd && w[57] == 0xebe6b238 && w[58] == 0x9fe3095e && w[59] == 0x78bc8d4b
    ensures w[60] == 0xa43fcf15 && w[61] == 0x668b2ff8 && w[62] == 0xeeaba2cc && w[63] == 0x12b1edeb
  {
    Words32(w, s);
    NextWord(w, s, 48, 0x7a290d5d, 0xf0a64f5a, 0x3b68ba73, 0x93f5997f, 0xfb3e89cb);
    NextWord(w, s, 49, 0x065c43da, 0x3e246a79, 0xaff4ffc1, 0x3b68ba73, 0xcc7617db);
    NextWord(w, s, 50, 0xfb3e89cb, 0x27333ba3, 0xf10a5c62, 0xaff4ffc1, 0xb9e66c34);
    NextWord(w, s, 51, 0xcc7617db, 0x0c4763f2, 0x0a8b3996, 0xf10a5c62, 0xa9993667);
    NextWord(w, s, 52, 0xb9e66c34, 0x840abf27, 0x72af830a, 0x0a8b3996, 0x84badedd);
    NextWord(w, s, 53, 0xa9993667, 0x7a290d5d, 0x9409e33e, 0x72af830a, 0xc21462bc);
    NextWord(w, s, 54, 0x84badedd, 0x065c43da, 0x24641522, 0x9409e33e, 0x1487472c);
    NextWord(w, s, 55, 0xc21462bc, 0xfb3e89cb, 0x9f47bf94, 0x24641522, 0xb20f7a99);
    NextWord(w, s, 56, 0x1487472c, 0xcc7617db, 0xf0a64f5a, 0x9f47bf94, 0xef57b9cd);
    NextWord(w, s, 57, 0xb20f7a99, 0xb9e66c34, 0x3e246a79, 0xf0a64f5a, 0xebe6b238);
    NextWord(w, s, 58, 0xef57b9cd, 0xa9993667, 0x27333ba3, 0x3e246a79, 0x9fe3095e);
    NextWord(w, s, 59, 0xebe6b238, 0x84badedd, 0x0c4763f2, 0x27333ba3, 0x78bc8d4b);
    NextWord(w, s, 60, 0x9fe3095e, 0xc21462bc, 0x840abf27, 0x0c4763f2, 0xa43fcf15);
    NextWord(w, s, 61, 0x78bc8d4b, 0x1487472c, 0x7a290d5d, 0x840abf27, 0x668b2ff8);
    NextWord(w, s, 62, 0xa43fcf15, 0xb20f7a99, 0x065c43da, 0x7a290d5d, 0xeeaba2cc);
    NextWord(w, s, 63, 0x668b2ff8, 0xef57b9cd, 0xfb3e89cb, 0x065c43da, 0x12b1edeb);
  }

  // ----- the rounds -----

  predicate At(s: seq<word>, a: word, b: word, c: word, d: word, e: word, f: word, g: word, h: word) {
    && |s| == 8 && s[0] == a && s[1] == b && s[2] == c && s[3] == d
    && s[4] == e && s[5] == f && s[6] == g && s[7] == h
  }

  lemma RoundWords(s: seq<word>, k: word, w: word)
    requires |s| == 8
    ensures At(Round(s, k, w), RoundAt(s, k, w, 0), s[0], s[1], s[2], RoundAt(s, k, w, 4), s[4], s[5], s[6])
  {
  }

  lemma RoundAtWords(s: seq<word>, a: word, b: word, c: word, d: word, e: word, f: word, g: word, h: word,
                     k: word, w: word)
    requires At(s, a, b, c, d, e, f, g, h)
    ensures At(Round(s, k, w), Plus(T1(e, f, g, h, k, w), T2(a, b, c)), a, b, c, Plus(d, T1(e, f, g, h, k, w)), e, f, g)
  {
    RoundWords(s, k, w);
  }

  lemma NextRound(w: seq<word>, s: seq<seq<word>>, t: nat, a: word, b: word, c: word, d: word, e: word, f: word,
                  g: word, h: word, k: word, v: word, x: word, y: word)
    requires Traces(w, s) && t < 64 && At(s[t], a, b, c, d, e, f, g, h) && K[t] == k && w[t] == v
    requires Plus(T1(e, f, g, h, k, v), T2(a, b, c)) == x && Plus(d, T1(e, f, g, h, k, v)) == y
    ensures At(s[t + 1], x, a, b, c, y, e, f, g)
  {
    assert Turn(t) && Turn(t + 1);
    RoundAtWords(s[t], a, b, c, d, e, f, g, h, k, v);
  }

  lemma Start(w: seq<word>, s: seq<seq<word>>)
    requires Traces(w, s)
    ensures At(s[0], 0x6a09e667, 0xbb67ae85, 0x3c6ef372, 0xa54ff53a, 0x510e527f, 0x9b05688c, 0x1f83d9ab, 0x5be0cd19)
  {
    assert Turn(0);
  }

  lemma Rounds0(w: seq<word>, s: seq<seq<word>>)
    requires Traces(w, s)
    ensures At(s[8], 0x85a07b5f, 0xe5030380, 0x2b4209f5, 0x04409a6a, 0x0c657a79, 0x9b27a401, 0x714260ad, 0x43ada245)
  {
    Words0(w, s);
    Start(w, s);
    NextRound(w, s, 0, 0x6a09e667, 0xbb67ae85, 0x3c6ef372, 0xa54ff53a, 0x510e527f, 0x9b05688c, 0x1f83d9ab, 0x5be0cd19,
              0x428a2f98, 0x61626380, 0x5d6aebcd, 0xfa2a4622);
    NextRound(w, s, 1, 0x5d6aebcd, 0x6a09e667, 0xbb67ae85, 0x3c6ef372, 0xfa2a4622, 0x510e527f, 0x9b05688c, 0x1f83d9ab,
              0x71374491, 0x00000000, 0x5a6ad9ad, 0x78ce7989);
    NextRound(w, s, 2, 0x5a6ad9ad, 0x5d6aebcd, 0x6a09e667, 0xbb67ae85, 0x78ce7989, 0xfa2a4622, 0x510e527f, 0x9b05688c,
              0xb5c0fbcf, 0x00000000, 0xc8c347a7, 0xf92939eb);
    NextRound(w, s, 3, 0xc8c347a7, 0x5a6ad9ad, 0x5d6aebcd, 0x6a09e667, 0xf92939eb, 0x78ce7989, 0xfa2a4622, 0x510e527f,
              0xe9b5dba5, 0x00000000, 0xd550f666, 0x24e00850);
    NextRound(w, s, 4, 0xd550f666, 0xc8c347a7, 0x5a6ad9ad, 0x5d6aebcd, 0x24e00850, 0xf92939eb, 0x78ce7989, 0xfa2a4622,
              0x3956c25b, 0x00000000, 0x04409a6a, 0x43ada245);
    NextRound(w, s, 5, 0x04409a6a, 0xd550f666, 0xc8c347a7, 0x5a6ad9ad, 0x43ada245, 0x24e00850, 0xf92939eb, 0x78ce7989,
              0x59f111f1, 0x00000000, 0x2b4209f5, 0x714260ad);
    NextRound(w, s, 6, 0x2b4209f5, 0x04409a6a, 0xd550f666, 0xc8c347a7, 0x714260ad, 0x43ada245, 0x24e00850, 0xf92939eb,
              0x923f82a4, 0x00000000, 0xe5030380, 0x9b27a401);
    NextRound(w, s, 7, 0xe5030380, 0x2b4209f5, 0x04409a6a, 0xd550f666, 0x9b27a401, 0x714260ad, 0x43ada245, 0x24e00850,
              0xab1c5ed5, 0x00000000, 0x85a07b5f, 0x0c657a79);
  }

  lemma Rounds8(w: seq<word>, s: seq<seq<word>>)
    requires Traces(w, s)
    ensures At(s[16], 0xb0fa238e, 0xc0645fde, 0xd932eb16, 0x87912990, 0x07590dcd, 0x0b92f20c, 0x745a48de, 0x1e578218)
  {
    Words0(w, s);
    Rounds0(w, s);
    NextRound(w, s, 8, 0x85a07b5f, 0xe5030380, 0x2b4209f5, 0x04409a6a, 0x0c657a79, 0x9b27a401, 0x714260ad, 0x43ada245,
              0xd807aa98, 0x00000000, 0x8e04ecb9, 0x32ca2d8c);
    NextRound(w, s, 9, 0x8e04ecb9, 0x85a07b5f, 0xe5030380, 0x2b4209f5, 0x32ca2d8c, 0x0c657a79, 0x9b27a401, 0x714260ad,
              0x12835b01, 0x00000000, 0x8c87346b, 0x1cc92596);
    NextRound(w, s, 10, 0x8c87346b, 0x8e04ecb9, 0x85a07b5f, 0xe5030380, 0x1cc92596, 0x32ca2d8c, 0x0c657a79, 0x9b27a401,
              0x243185be, 0x00000000, 0x4798a3f4, 0x436b23e8);
    NextRound(w, s, 11, 0x4798a3f4, 0x8c87346b, 0x8e04ecb9, 0x85a07b5f, 0x436b23e8, 0x1cc92596, 0x32ca2d8c, 0x0c657a79,
              0x550c7dc3, 0x00000000, 0xf71fc5a9, 0x816fd6e9);
    NextRound(w, s, 12, 0xf71fc5a9, 0x4798a3f4, 0x8c87346b, 0x8e04ecb9, 0x816fd6e9, 0x436b23e8, 0x1cc92596, 0x32ca2d8c,
              0x72be5d74, 0x00000000, 0x87912990, 0x1e578218);
    NextRound(w, s, 13, 0x87912990, 0xf71fc5a9, 0x4798a3f4, 0x8c87346b, 0x1e578218, 0x816fd6e9, 0x436b23e8, 0x1cc92596,
              0x80deb1fe, 0x00000000, 0xd932eb16, 0x745a48de);
    NextRound(w, s, 14, 0xd932eb16, 0x87912990, 0xf71fc5a9, 0x4798a3f4, 0x745a48de, 0x1e578218, 0x816fd6e9, 0x436b23e8,
              0x9bdc06a7, 0x00000000, 0xc0645fde, 0x0b92f20c);
    NextRound(w, s, 15, 0xc0645fde, 0xd932eb16, 0x87912990, 0xf71fc5a9, 0x0b92f20c, 0x745a48de, 0x1e578218, 0x816fd6e9,
              0xc19bf174, 0x00000018, 0xb0fa238e, 0x07590dcd);
  }

  lemma Rounds16(w: seq<word>, s: seq<seq<word>>)
    requires Traces(w, s)
    ensures At(s[24], 0xc5d53d8d, 0xa7a3623f, 0xc2606d6d, 0x9dc68b63, 0xaa47c347, 0x49f5114a, 0xe1257970, 0x8ada8930)
  {
    Words16(w, s);
    Rounds8(w, s);
    NextRound(w, s, 16, 0xb0fa238e, 0xc0645fde, 0xd932eb16, 0x87912990, 0x07590dcd, 0x0b92f20c, 0x745a48de, 0x1e578218,
              0xe49b69c1, 0x61626380, 0x21da9a9b, 0x8034229c);
    NextRound(w, s, 17, 0x21da9a9b, 0xb0fa238e, 0xc0645fde, 0xd932eb16, 0x8034229c, 0x07590dcd, 0x0b92f20c, 0x745a48de,
              0xefbe4786, 0x000f0000, 0xc2fbd9d1, 0x846ee454);
    NextRound(w, s, 18, 0xc2fbd9d1, 0x21da9a9b, 0xb0fa238e, 0xc0645fde, 0x846ee454, 0x8034229c, 0x07590dcd, 0x0b92f20c,
              0x0fc19dc6, 0x7da86405, 0xfe777bbf, 0xcc899961);
    NextRound(w, s, 19, 0xfe777bbf, 0xc2fbd9d1, 0x21da9a9b, 0xb0fa238e, 0xcc899961, 0x846ee454, 0x8034229c, 0x07590dcd,
              0x240ca1cc, 0x600003c6, 0xe1f20c33, 0xb0638179);
    NextRound(w, s, 20, 0xe1f20c33, 0xfe777bbf, 0xc2fbd9d1, 0x21da9a9b, 0xb0638179, 0xcc899961, 0x846ee454, 0x8034229c,
              0x2de92c6f, 0x3e9d7b78, 0x9dc68b63, 0x8ada8930);
    NextRound(w, s, 21, 0x9dc68b63, 0xe1f20c33, 0xfe777bbf, 0xc2fbd9d1, 0x8ada8930, 0xb0638179, 0xcc899961, 0x846ee454,
              0x4a7484aa, 0x0183fc00, 0xc2606d6d, 0xe1257970);
    NextRound(w, s, 22, 0xc2606d6d, 0x9dc68b63, 0xe1f20c33, 0xfe777bbf, 0xe1257970, 0x8ada8930, 0xb0638179, 0xcc899961,
              0x5cb0a9dc, 0x12dcbfdb, 0xa7a3623f, 0x49f5114a);
    NextRound(w, s, 23, 0xa7a3623f, 0xc2606d6d, 0x9dc68b63, 0xe1f20c33, 0x49f5114a, 0xe1257970, 0x8ada8930, 0xb0638179,
              0x76f988da, 0xe2e2c38e, 0xc5d53d8d, 0xaa47c347);
  }

  lemma Rounds24(w: seq<word>, s: seq<seq<word>>)
    requires Traces(w, s)
    ensures At(s[32], 0x73b33bf5, 0xea992a22, 0xa0060b30, 0x363482c9, 0xba591112, 0x0109ab3a, 0xade79437, 0x6112a3b7)
  {
    Words16(w, s);
    Rounds16(w, s);
    NextRound(w, s, 24, 0xc5d53d8d, 0xa7a3623f, 0xc2606d6d, 0x9dc68b63, 0xaa47c347, 0x49f5114a, 0xe1257970, 0x8ada8930,
              0x983e5152, 0xc8215c1a, 0x1c2c2838, 0x2823ef91);
    NextRound(w, s, 25, 0x1c2c2838, 0xc5d53d8d, 0xa7a3623f, 0xc2606d6d, 0x2823ef91, 0xaa47c347, 0x49f5114a, 0xe1257970,
              0xa831c66d, 0xb73679a2, 0xcde8037d, 0x14383d8e);
    NextRound(w, s, 26, 0xcde8037d, 0x1c2c2838, 0xc5d53d8d, 0xa7a3623f, 0x14383d8e, 0x2823ef91, 0xaa47c347, 0x49f5114a,
              0xb00327c8, 0xe5bc3909, 0xb62ec4bc, 0xc74c6516);
    NextRound(w, s, 27, 0xb62ec4bc, 0xcde8037d, 0x1c2c2838, 0xc5d53d8d, 0xc74c6516, 0x14383d8e, 0x2823ef91, 0xaa47c347,
              0xbf597fc7, 0x32663c5b, 0x77d37528, 0xedffbff8);
    NextRound(w, s, 28, 0x77d37528, 0xb62ec4bc, 0xcde8037d, 0x1c2c2838, 0xedffbff8, 0xc74c6516, 0x14383d8e, 0x2823ef91,
              0xc6e00bf3, 0x9d209d67, 0x363482c9, 0x6112a3b7);
    NextRound(w, s, 29, 0x363482c9, 0x77d37528, 0xb62ec4bc, 0xcde8037d, 0x6112a3b7, 0xedffbff8, 0xc74c6516, 0x14383d8e,
              0xd5a79147, 0xec8726cb, 0xa0060b30, 0xade79437);
    NextRound(w, s, 30, 0xa0060b30, 0x363482c9, 0x77d37528, 0xb62ec4bc, 0xade79437, 0x6112a3b7, 0xedffbff8, 0xc74c6516,
              0x06ca6351, 0x702138a4, 0xea992a22, 0x0109ab3a);
    NextRound(w, s, 31, 0xea992a22, 0xa0060b30, 0x363482c9, 0x77d37528, 0x0109ab3a, 0xade79437, 0x6112a3b7, 0xedffbff8,
              0x14292967, 0xd3b7973b, 0x73b33bf5, 0xba591112);
  }

  lemma Rounds32(w: seq<word>, s: seq<seq<word>>)
    requires Traces(w, s)
    ensures At(s[40], 0x79ea687a, 0x6dc57a8a, 0x34df1604, 0x41a65cb1, 0x1efbc0a0, 0xf0781bc8, 0xa507a53d, 0x0772a26b)
  {
    Words32(w, s);
    Rounds24(w, s);
    NextRound(w, s, 32, 0x73b33bf5, 0xea992a22, 0xa0060b30, 0x363482c9, 0xba591112, 0x0109ab3a, 0xade79437, 0x6112a3b7,
              0x27b70a85, 0x93f5997f, 0x98e12507, 0x9cd9f5f6);
    NextRound(w, s, 33, 0x98e12507, 0x73b33bf5, 0xea992a22, 0xa0060b30, 0x9cd9f5f6, 0xba591112, 0x0109ab3a, 0xade79437,
              0x2e1b2138, 0x3b68ba73, 0xfe604df5, 0x59249dd3);
    NextRound(w, s, 34, 0xfe604df5, 0x98e12507, 0x73b33bf5, 0xea992a22, 0x59249dd3, 0x9cd9f5f6, 0xba591112, 0x0109ab3a,
              0x4d2c6dfc, 0xaff4ffc1, 0xa9a7738c, 0x085f3833);
    NextRound(w, s, 35, 0xa9a7738c, 0xfe604df5, 0x98e12507, 0x73b33bf5, 0x085f3833, 0x59249dd3, 0x9cd9f5f6, 0xba591112,
              0x53380d13, 0xf10a5c62, 0x65a0cfe4, 0xf4b002d6);
    NextRound(w, s, 36, 0x65a0cfe4, 0xa9a7738c, 0xfe604df5, 0x98e12507, 0xf4b002d6, 0x085f3833, 0x59249dd3, 0x9cd9f5f6,
              0x650a7354, 0x0a8b3996, 0x41a65cb1, 0x0772a26b);
    NextRound(w, s, 37, 0x41a65cb1, 0x65a0cfe4, 0xa9a7738c, 0xfe604df5, 0x0772a26b, 0xf4b002d6, 0x085f3833, 0x59249dd3,
              0x766a0abb, 0x72af830a, 0x34df1604, 0xa507a53d);
    NextRound(w, s, 38, 0x34df1604, 0x41a65cb1, 0x65a0cfe4, 0xa9a7738c, 0xa507a53d, 0x0772a26b, 0xf4b002d6, 0x085f3833,
              0x81c2c92e, 0x9409e33e, 0x6dc57a8a, 0xf0781bc8);
    NextRound(w, s, 39, 0x6dc57a8a, 0x34df1604, 0x41a65cb1, 0x65a0cfe4, 0xf0781bc8, 0xa507a53d, 0x0772a26b, 0xf4b002d6,
              0x92722c85, 0x24641522, 0x79ea687a, 0x1efbc0a0);
  }

  lemma Rounds40(w: seq<word>, s: seq<seq<word>>)
    requires Traces(w, s)
    ensures At(s[48], 0x4172328d, 0xa14c14b0, 0x72ab4b91, 0x26628815, 0xfecf0bc6, 0xd57b94a9, 0xb7755da1, 0xa80f11f0)
  {
    Words32(w, s);
    Rounds32(w, s);
    NextRound(w, s, 40, 0x79ea687a, 0x6dc57a8a, 0x34df1604, 0x41a65cb1, 0x1efbc0a0, 0xf0781bc8, 0xa507a53d, 0x0772a26b,
              0xa2bfe8a1, 0x9f47bf94, 0xd6670766, 0x26352d63);
    NextRound(w, s, 41, 0xd6670766, 0x79ea687a, 0x6dc57a8a, 0x34df1604, 0x26352d63, 0x1efbc0a0, 0xf0781bc8, 0xa507a53d,
              0xa81a664b, 0xf0a64f5a, 0xdf46652f, 0x838b2711);
    NextRound(w, s, 42, 0xdf46652f, 0xd6670766, 0x79ea687a, 0x6dc57a8a, 0x838b2711, 0x26352d63, 0x1efbc0a0, 0xf0781bc8,
              0xc24b8b70, 0x3e246a79, 0x17aa0dfe, 0xdecd4715);
    NextRound(w, s, 43, 0x17aa0dfe, 0xdf46652f, 0xd6670766, 0x79ea687a, 0xdecd4715, 0x838b2711, 0x26352d63, 0x1efbc0a0,
              0xc76c51a3, 0x27333ba3, 0x9d4baf93, 0xfda24c2e);
    NextRound(w, s, 44, 0x9d4baf93, 0x17aa0dfe, 0xdf46652f, 0xd6670766, 0xfda24c2e, 0xdecd4715, 0x838b2711, 0x26352d63,
              0xd192e819, 0x0c4763f2, 0x26628815, 0xa80f11f0);
    NextRound(w, s, 45, 0x26628815, 0x9d4baf93, 0x17aa0dfe, 0xdf46652f, 0xa80f11f0, 0xfda24c2e, 0xdecd4715, 0x838b2711,
              0xd6990624, 0x840abf27, 0x72ab4b91, 0xb7755da1);
    NextRound(w, s, 46, 0x72ab4b91, 0x26628815, 0x9d4baf93, 0x17aa0dfe, 0xb7755da1, 0xa80f11f0, 0xfda24c2e, 0xdecd4715,
              0xf40e3585, 0x7a290d5d, 0xa14c14b0, 0xd57b94a9);
    NextRound(w, s, 47, 0xa14c14b0, 0x72ab4b91, 0x26628815, 0x9d4baf93, 0xd57b94a9, 0xb7755da1, 0xa80f11f0, 0xfda24c2e,
              0x106aa070, 0x065c43da, 0x4172328d, 0xfecf0bc6);
  }

  lemma Rounds48(w: seq<word>, s: seq<seq<word>>)
    requires Traces(w, s)
    ensures At(s[56], 0x38cc9913, 0x3ec45cdb, 0xf5702fdb, 0x101fd28f, 0x54cb266b, 0xe50e1b4f, 0x9f4787c3, 0x529e7d00)
  {
    Words48(w, s);
    Rounds40(w, s);
    NextRound(w, s, 48, 0x4172328d, 0xa14c14b0, 0x72ab4b91, 0x26628815, 0xfecf0bc6, 0xd57b94a9, 0xb7755da1, 0xa80f11f0,
              0x19a4c116, 0xfb3e89cb, 0x05757ceb, 0xbd714038);
    NextRound(w, s, 49, 0x05757ceb, 0x4172328d, 0xa14c14b0, 0x72ab4b91, 0xbd714038, 0xfecf0bc6, 0xd57b94a9, 0xb7755da1,
              0x1e376c08, 0xcc7617db, 0xf11bfaa8, 0x6e5c390c);
    NextRound(w, s, 50, 0xf11bfaa8, 0x05757ceb, 0x4172328d, 0xa14c14b0, 0x6e5c390c, 0xbd714038, 0xfecf0bc6, 0xd57b94a9,
              0x2748774c, 0xb9e66c34, 0x7a0508a1, 0x52f1ccf7);
    NextRound(w, s, 51, 0x7a0508a1, 0xf11bfaa8, 0x05757ceb, 0x4172328d, 0x52f1ccf7, 0x6e5c390c, 0xbd714038, 0xfecf0bc6,
              0x34b0bcb5, 0xa9993667, 0x886e7a22, 0x49231c1e);
    NextRound(w, s, 52, 0x886e7a22, 0x7a0508a1, 0xf11bfaa8, 0x05757ceb, 0x49231c1e, 0x52f1ccf7, 0x6e5c390c, 0xbd714038,
              0x391c0cb3, 0x84badedd, 0x101fd28f, 0x529e7d00);
    NextRound(w, s, 53, 0x101fd28f, 0x886e7a22, 0x7a0508a1, 0xf11bfaa8, 0x529e7d00, 0x49231c1e, 0x52f1ccf7, 0x6e5c390c,
              0x4ed8aa4a, 0xc21462bc, 0xf5702fdb, 0x9f4787c3);
    NextRound(w, s, 54, 0xf5702fdb, 0x101fd28f, 0x886e7a22, 0x7a0508a1, 0x9f4787c3, 0x529e7d00, 0x49231c1e, 0x52f1ccf7,
              0x5b9cca4f, 0x1487472c, 0x3ec45cdb, 0xe50e1b4f);
    NextRound(w, s, 55, 0x3ec45cdb, 0xf5702fdb, 0x101fd28f, 0x886e7a22, 0xe50e1b4f, 0x9f4787c3, 0x529e7d00, 0x49231c1e,
              0x682e6ff3, 0xb20f7a99, 0x38cc9913, 0x54cb266b);
  }

  lemma Rounds56(w: seq<word>, s: seq<seq<word>>)
    requires Traces(w, s)
    ensures At(s[64], 0x506e3058, 0xd39a2165, 0x04d24d6c, 0xb85e2ce9, 0x5ef50f24, 0xfb121210, 0x948d25b6, 0x961f4894)
  {
    Words48(w, s);
    Rounds48(w, s);
    NextRound(w, s, 56, 0x38cc9913, 0x3ec45cdb, 0xf5702fdb, 0x101fd28f, 0x54cb266b, 0xe50e1b4f, 0x9f4787c3, 0x529e7d00,
              0x748f82ee, 0xef57b9cd, 0xfcd1887b, 0x9b5e906c);
    NextRound(w, s, 57, 0xfcd1887b, 0x38cc9913, 0x3ec45cdb, 0xf5702fdb, 0x9b5e906c, 0x54cb266b, 0xe50e1b4f, 0x9f4787c3,
              0x78a5636f, 0xebe6b238, 0xc062d46f, 0x7e44008e);
    NextRound(w, s, 58, 0xc062d46f, 0xfcd1887b, 0x38cc9913, 0x3ec45cdb, 0x7e44008e, 0x9b5e906c, 0x54cb266b, 0xe50e1b4f,
              0x84c87814, 0x9fe3095e, 0xffb70472, 0x6d83bfc6);
    NextRound(w, s, 59, 0xffb70472, 0xc062d46f, 0xfcd1887b, 0x38cc9913, 0x6d83bfc6, 0x7e44008e, 0x9b5e906c, 0x54cb266b,
              0x8cc70208, 0x78bc8d4b, 0xb6ae8fff, 0xb21bad3d);
    NextRound(w, s, 60, 0xb6ae8fff, 0xffb70472, 0xc062d46f, 0xfcd1887b, 0xb21bad3d, 0x6d83bfc6, 0x7e44008e, 0x9b5e906c,
              0x90befffa, 0xa43fcf15, 0xb85e2ce9, 0x961f4894);
    NextRound(w, s, 61, 0xb85e2ce9, 0xb6ae8fff, 0xffb70472, 0xc062d46f, 0x961f4894, 0xb21bad3d, 0x6d83bfc6, 0x7e44008e,
              0xa4506ceb, 0x668b2ff8, 0x04d24d6c, 0x948d25b6);
    NextRound(w, s, 62, 0x04d24d6c, 0xb85e2ce9, 0xb6ae8fff, 0xffb70472, 0x948d25b6, 0x961f4894, 0xb21bad3d, 0x6d83bfc6,
              0xbef9a3f7, 0xeeaba2cc, 0xd39a2165, 0xfb121210);
    NextRound(w, s, 63, 0xd39a2165, 0x04d24d6c, 0xb85e2ce9, 0xb6ae8fff, 0xfb121210, 0x948d25b6, 0x961f4894, 0xb21bad3d,
              0xc67178f2, 0x12b1edeb, 0x506e3058, 0x5ef50f24);
  }

  // ----- the digest -----

  lemma TraceExists() returns (w: seq<word>, s: seq<seq<word>>)
    ensures Traces(w, s)
  {
    w := seq(64, t requires 0 <= t < 64 => W(Block(), t));
    s := seq(65, t requires 0 <= t < 65 => Rounds(INITIAL, Block(), t));
  }

  lemma Sum(r: seq<word>, t: seq<word>, i: nat, a: word, b: word, x: word)
    requires |t| == 8 && r == Add(INITIAL, t) && i < 8 && INITIAL[i] == a && t[i] == b && Plus(a, b) == x
    ensures r[i] == x
  {
  }

  /** The working variables behind the last round. */
  lemma LastRound() returns (t: seq<word>)
    ensures t == Rounds(INITIAL, Block(), 64)
    ensures At(t, 0x506e3058, 0xd39a2165, 0x04d24d6c, 0xb85e2ce9, 0x5ef50f24, 0xfb121210, 0x948d25b6, 0x961f4894)
  {
    var w, s := TraceExists();
    Rounds56(w, s);
    assert Turn(64);
    t := s[64];
  }

  lemma Hashed(r: seq<word>, t: seq<word>)
    requires At(t, 0x506e3058, 0xd39a2165, 0x04d24d6c, 0xb85e2ce9, 0x5ef50f24, 0xfb121210, 0x948d25b6, 0x961f4894)
    requires r == Add(INITIAL, t)
    ensures At(r, 0xba7816bf, 0x8f01cfea, 0x414140de, 0x5dae2223, 0xb00361a3, 0x96177a9c, 0xb410ff61, 0xf20015ad)
  {
    Sum(r, t, 0, 0x6a09e667, 0x506e3058, 0xba7816bf);
    Sum(r, t, 1, 0xbb67ae85, 0xd39a2165, 0x8f01cfea);
    Sum(r, t, 2, 0x3c6ef372, 0x04d24d6c, 0x414140de);
    Sum(r, t, 3, 0xa54ff53a, 0xb85e2ce9, 0x5dae2223);
    Sum(r, t, 4, 0x510e527f, 0x5ef50f24, 0xb00361a3);
    Sum(r, t, 5, 0x9b05688c, 0xfb121210, 0x96177a9c);
    Sum(r, t, 6, 0x1f83d9ab, 0x948d25b6, 0xb410ff61);
    Sum(r, t, 7, 0x5be0cd19, 0x961f4894, 0xf20015ad);
  }

  lemma {:induction false} OutputAt(s: seq<word>, i: nat)
    requires i < |s|
    ensures Output(s)[4 * i..4 * i + 4] == Unpack(s[i])
  {
    if i > 0 {
      OutputAt(s[1..], i - 1);
      assert Output(s)[4 * i..4 * i + 4] == Output(s[1..])[4 * (i - 1)..4 * (i - 1) + 4];
    }
  }

  lemma OutputBytes(s: seq<word>, i: nat, x: word, a: byte, b: byte, c: byte, d: byte)
    requires i < |s| && s[i] == x
    requires ByteAt(x, 24) == a && ByteAt(x, 16) == b && ByteAt(x, 8) == c && ByteAt(x, 0) == d
    ensures Output(s)[4 * i..4 * i + 4] == [a, b, c, d]
  {
    OutputAt(s, i);
  }

  lemma OneBlock(all: seq<byte>)
    requires |all| == 64
    ensures Blocks(Compress, INITIAL, all) == Add(INITIAL, Rounds(INITIAL, all, 64))
  {
    assert all[0..64] == all;
    assert BlocksTo(Compress, INITIAL, all, 1) == Compress(BlocksTo(Compress, INITIAL, all, 0), all[0..64]);
    assert BlocksTo(Compress, INITIAL, all, 0) == INITIAL;
  }

  lemma {:induction false} ZeroBytes(width: nat)
    ensures BigEndian(0, width) == Zeros(width)
  {
    if width > 0 {
      ZeroBytes(width - 1);
      BigEndianNext(0, width);
    }
  }

  lemma BlockIsPadded(s: seq<byte>, length: seq<byte>)
    requires s == [0x61, 0x62, 0x63] && length == Zeros(7) + [24]
    ensures s + Padding(3, length) == Block()
  {
  }

  lemma LengthBytes(n: nat)
    requires n == 24
    ensures BigEndian(n, 8) == Zeros(7) + [24]
  {
    BigEndianNext(n, 8);
    ZeroBytes(7);
  }

  lemma DigestOfBlock(s: seq<byte>)
    requires s == [0x61, 0x62, 0x63]
    ensures Digest(s) == Output(Blocks(Compress, INITIAL, Block()))
  {
    LengthBytes(8 * |s|);
    BlockIsPadded(s, BigEndian(8 * |s|, 8));
  }

  lemma Quarters(s: seq<byte>)
    requires |s| == 32
    ensures s == s[0..4] + s[4..8] + s[8..12] + s[12..16] + s[16..20] + s[20..24] + s[24..28] + s[28..32]
  {
  }

  lemma Assembled(d: seq<byte>)
    requires |d| == 32
    requires d[0..4] == [0xba, 0x78, 0x16, 0xbf]
    requires d[4..8] == [0x8f, 0x01, 0xcf, 0xea]
    requires d[8..12] == [0x41, 0x41, 0x40, 0xde]
    requires d[12..16] == [0x5d, 0xae, 0x22, 0x23]
    requires d[16..20] == [0xb0, 0x03, 0x61, 0xa3]
    requires d[20..24] == [0x96, 0x17, 0x7a, 0x9c]
    requires d[24..28] == [0xb4, 0x10, 0xff, 0x61]
    requires d[28..32] == [0xf2, 0x00, 0x15, 0xad]
    ensures d == [
      0xba, 0x78, 0x16, 0xbf, 0x8f, 0x01, 0xcf, 0xea, 0x41, 0x41, 0x40, 0xde, 0x5d, 0xae, 0x22, 0x23,
      0xb0, 0x03, 0x61, 0xa3, 0x96, 0x17, 0x7a, 0x9c, 0xb4, 0x10, 0xff, 0x61, 0xf2, 0x00, 0x15, 0xad
    ]
  {
    Quarters(d);
  }

  /** The bytes of the hash value of "abc". */
  lemma BytesOfAbc(s: seq<word>)
    requires At(s, 0xba7816bf, 0x8f01cfea, 0x414140de, 0x5dae2223, 0xb00361a3, 0x96177a9c, 0xb410ff61, 0xf20015ad)
    ensures Output(s) == [
      0xba, 0x78, 0x16, 0xbf, 0x8f, 0x01, 0xcf, 0xea, 0x41, 0x41, 0x40, 0xde, 0x5d, 0xae, 0x22, 0x23,
      0xb0, 0x03, 0x61, 0xa3, 0x96, 0x17, 0x7a, 0x9c, 0xb4, 0x10, 0xff, 0x61, 0xf2, 0x00, 0x15, 0xad
    ]
  {
    OutputBytes(s, 0, 0xba7816bf, 0xba, 0x78, 0x16, 0xbf);
    OutputBytes(s, 1, 0x8f01cfea, 0x8f, 0x01, 0xcf, 0xea);
    OutputBytes(s, 2, 0x414140de, 0x41, 0x41, 0x40, 0xde);
    OutputBytes(s, 3, 0x5dae2223, 0x5d, 0xae, 0x22, 0x23);
    OutputBytes(s, 4, 0xb00361a3, 0xb0, 0x03, 0x61, 0xa3);
    OutputBytes(s, 5, 0x96177a9c, 0x96, 0x17, 0x7a, 0x9c);
    OutputBytes(s, 6, 0xb410ff61, 0xb4, 0x10, 0xff, 0x61);
    OutputBytes(s, 7, 0xf20015ad, 0xf2, 0x00, 0x15, 0xad);
    Assembled(Output(s));
  }

  lemma HashOf(s: seq<byte>) returns (r: seq<word>)
    requires s == [0x61, 0x62, 0x63]
    ensures At(r, 0xba7816bf, 0x8f01cfea, 0x414140de, 0x5dae2223, 0xb00361a3, 0x96177a9c, 0xb410ff61, 0xf20015ad)
    ensures Digest(s) == Output(r)
  {
    var t := LastRound();
    r := Add(INITIAL, t);
    OneBlock(Block());
    DigestOfBlock(s);
    Hashed(r, t);
  }

  /** The digest of "abc" is the one published with the standard. */
  lemma DigestOfAbc(s: seq<byte>)
    requires s == [0x61, 0x62, 0x63]
    ensures Digest(s) == [
      0xba, 0x78, 0x16, 0xbf, 0x8f, 0x01, 0xcf, 0xea, 0x41, 0x41, 0x40, 0xde, 0x5d, 0xae, 0x22, 0x23,
      0xb0, 0x03, 0x61, 0xa3, 0x96, 0x17, 0x7a, 0x9c, 0xb4, 0x10, 0xff, 0x61, 0xf2, 0x00, 0x15, 0xad
    ]
  {
    var r := HashOf(s);
    BytesOfAbc(r);
  }
}
