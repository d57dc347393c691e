/**
 SHA-256 over a message that comes in pieces, and HMAC, as contexts that are updated in place.
 */
module Sha256Stream {
  import opened Arrays
  import opened Sequences
  import opened WireValues
  import opened BlockHash
  import opened Sha256

  const WORDS := 0x1_0000_0000

  method Schedule(block: seq<byte>) returns (w: array<word>)
    requires |block| == 64
    ensures fresh(w) && w.Length == 64 && forall t | 0 <= t < 64 :: w[t] == W(block, t)
  {
    w := new word[64];
    for j := 0 to 16
      invariant forall t | 0 <= t < j :: w[t] == W(block, t)
    {
      w[j] := Pack(block[4 * j..4 * j + 4]);
    }
    for j := 16 to 64
      invariant forall t | 0 <= t < j :: w[t] == W(block, t)
    {
      w[j] := Scheduled(w[j - 2], w[j - 7], w[j - 15], w[j - 16]);
    }
  }

  /** The second half of the working variables moves on by one. */
  method ShiftHighHalf(wv: array<word>, t1: word)
    requires wv.Length == 8
    modifies wv
    ensures wv[..4] == old(wv[..4]) && wv[4] == Plus(old(wv[3]), t1)
    ensures wv[5] == old(wv[4]) && wv[6] == old(wv[5]) && wv[7] == old(wv[6])
  {
    wv[7] := wv[6];
    wv[6] := wv[5];
    wv[5] := wv[4];
    wv[4] := Plus(wv[3], t1);
  }

  /** The first half does, and gets its new first variable. */
  method ShiftLowHalf(wv: array<word>, t1: word, t2: word)
    requires wv.Length == 8
    modifies wv
    ensures wv[4..] == old(wv[4..]) && wv[0] == Plus(t1, t2)
    ensures wv[1] == old(wv[0]) && wv[2] == old(wv[1]) && wv[3] == old(wv[2])
  {
    wv[3] := wv[2];
    wv[2] := wv[1];
    wv[1] := wv[0];
    wv[0] := Plus(t1, t2);
  }

  /** The working variables move on by one. */
  method ShiftInPlace(wv: array<word>, t1: word, t2: word)
    requires wv.Length == 8
    modifies wv
    ensures wv[0] == Plus(t1, t2) && wv[4] == Plus(old(wv[3]), t1)
    ensures forall i | 1 <= i < 8 && i != 4 :: wv[i] == old(wv[i - 1])
  {
    ghost var s := wv[..];
    assert s[..4] == wv[..4];
    ShiftHighHalf(wv, t1);
    ghost var high := wv[4..];
    assert wv[0] == s[..4][0] && wv[1] == s[..4][1] && wv[2] == s[..4][2] && wv[3] == s[..4][3];
    ShiftLowHalf(wv, t1, t2);
    assert wv[4] == high[0] && wv[5] == high[1] && wv[6] == high[2] && wv[7] == high[3];
  }

  method RoundInPlace(wv: array<word>, k: word, w: word)
    requires wv.Length == 8
    modifies wv
    ensures wv[..] == Round(old(wv[..]), k, w)
  {
    var t1, t2 := T1(wv[4], wv[5], wv[6], wv[7], k, w), T2(wv[0], wv[1], wv[2]);
    ShiftInPlace(wv, t1, t2);
  }

  method AddInPlace(h: array<word>, wv: array<word>)
    requires h.Length == wv.Length == 8 && h != wv
    modifies h
    ensures h[..] == Add(old(h[..]), wv[..])
  {
    for j := 0 to 8
      invariant forall i | 0 <= i < j :: h[i] == Plus(old(h[i]), wv[i])
      invariant forall i | j <= i < 8 :: h[i] == old(h[i])
    {
      h[j] := Plus(h[j], wv[j]);
    }
  }

  function Counted(n: nat): nat {
    n / 64 * 64 % WORDS
  }

  function MoreBlocks(n: nat, blocks: nat): nat {
    (n + blocks * 64) % WORDS
  }

  class Context {
    var totLen: nat
    var len: nat
    const block: array<byte>
    /** The eight words of the hash value. */
    const h: array<word>
    /** All bytes absorbed so far. */
    ghost var seen: seq<byte>

    ghost predicate Shaped()
      reads this
    {
      block.Length == 128 && h.Length == 8
    }

    ghost predicate Valid()
      reads this, block, h
    {
      && Shaped() && len < 64
      && block[..len] == Rest(seen)
      && h[..] == Blocks(Compress, INITIAL, seen)
      && totLen == Counted(|seen|)
    }

    constructor ()
      ensures Valid() && seen == [] && fresh(block) && fresh(h)
    {
      block := new byte[128];
      h := new word[8](i requires 0 <= i < 8 => INITIAL[i]);
      totLen, len, seen := 0, 0, [];
    }

    method TransformOne(sub: seq<byte>)
      requires Shaped() && |sub| == 64
      modifies h
      ensures h[..] == Compress(old(h[..]), sub)
    {
      var w := Schedule(sub);
      var wv := new word[8](i requires 0 <= i < 8 reads this, h => h[i]);
      ghost var s := h[..];
      assert wv[..] == s;
      for j := 0 to 64
        invariant wv[..] == Rounds(s, sub, j) && h[..] == s
        invariant forall t | 0 <= t < 64 :: w[t] == W(sub, t)
      {
        RoundInPlace(wv, K[j], w[j]);
      }
      AddInPlace(h, wv);
    }

    /** The whole blocks of some bytes. */
    method Transform(message: seq<byte>)
      requires Shaped() && |message| % 64 == 0
      modifies h
      ensures h[..] == Blocks(Compress, old(h[..]), message)
    {
      ghost var s := h[..];
      for i := 0 to |message| / 64
        invariant h[..] == BlocksTo(Compress, s, message, i)
      {
        TransformOne(message[64 * i..64 * (i + 1)]);
      }
    }

    /** Completes the block with the first bytes of a piece. */
    method CompressFirst(message: seq<byte>)
      requires Shaped() && len < 64 && len + |message| >= 64
      modifies block, h
      ensures h[..] == Compress(old(h[..]), old(block[..len]) + message[..64 - len])
    {
      ghost var b := block[..len];
      var first := message[..64 - len];
      Copy(block, len, first);
      assert block[..64] == block[..len] + block[len..64];
      TransformOne(block[..64]);
    }

    /** The whole blocks of a piece from `rem` on are compressed, and the rest is kept. */
    method CompressMore(message: seq<byte>, rem: nat) returns (end: nat)
      requires Shaped() && rem <= |message|
      modifies block, h
      ensures end == rem + (|message| - rem) / 64 * 64 && end <= |message| < end + 64
      ensures h[..] == Blocks(Compress, old(h[..]), message[rem..end]) && block[..|message| - end] == message[end..]
    {
      WholeBlocks(|message| - rem);
      end := rem + (|message| - rem) / 64 * 64;
      Transform(message[rem..end]);
      Copy(block, 0, message[end..]);
    }

    /** A piece that completes the block: all whole blocks are compressed, and the rest is kept. */
    method Overflow(message: seq<byte>) returns (rest: nat)
      requires Shaped() && len < 64 && len + |message| >= 64
      modifies block, h
      ensures h[..] == Blocks(Compress, old(h[..]), old(block[..len]) + message)
      ensures rest < 64 && block[..rest] == Rest(old(block[..len]) + message)
    {
      ghost var s, b, rem := h[..], block[..len], 64 - len;
      CompressFirst(message);
      ghost var s1 := h[..];
      var end := CompressMore(message, 64 - len);
      rest := |message| - end;
      OverflowState(s, s1, h[..], b, message, rem, end, block[..rest]);
    }

    static lemma OverflowState(s: seq<word>, s1: seq<word>, s2: seq<word>, b: seq<byte>, message: seq<byte>, rem: nat,
                               end: nat, rest: seq<byte>)
      requires |b| + rem == 64 && rem <= |message| && s1 == Compress(s, b + message[..rem])
      requires end == rem + (|message| - rem) / 64 * 64 && end <= |message|
      requires s2 == Blocks(Compress, s1, message[rem..end]) && rest == message[end..]
      ensures s2 == Blocks(Compress, s, b + message) && rest == Rest(b + message)
    {
      BlocksOfRest(Compress, s, b, message, rem);
    }

    /** A piece that leaves the block incomplete. */
    method Append(message: seq<byte>)
      requires Valid() && len + |message| < 64
      modifies this, block
      ensures Valid() && seen == old(seen) + message
    {
      ghost var b := block[..len];
      BlocksShort(Compress, INITIAL, seen, message);
      CountedNext(seen, |message|);
      Copy(block, len, message);
      assert block[..len + |message|] == b + message;
      len := len + |message|;
      seen := seen + message;
    }

    method AppendBlocks(message: seq<byte>)
      requires Valid() && len + |message| >= 64
      modifies this, block, h
      ensures Valid() && seen == old(seen) + message
    {
      BlocksConcat(Compress, INITIAL, seen, message);
      CountedNext(seen, |message|);
      var blockNb := (len + |message| - 64) / 64;
      len := Overflow(message);
      totLen := MoreBlocks(totLen, blockNb + 1);
      assert |seen + message| == |seen| + |message|;
      seen := seen + message;
    }

    /** Absorbs a piece of the message; lengths are unsigned 32-bit numbers. */
    method Update(message: seq<byte>)
      requires Valid() && |message| + 64 < WORDS
      modifies this, block, h
      ensures Valid() && seen == old(seen) + message
    {
      if len + |message| < 64 {
        Append(message);
      } else {
        AppendBlocks(message);
      }
    }

    /** The block after the message: the mark, and zeros. */
    method Mark(pmLen: nat)
      requires Shaped() && len + 5 <= pmLen <= 128
      modifies block
      ensures block[..pmLen - 4] == old(block[..len]) + [0x80] + Zeros(pmLen - len - 5)
    {
      ghost var rest := block[..len];
      var zeros := Zeros(pmLen - len - 1);
      Copy(block, len, [0x80] + zeros);
      assert block[..pmLen] == rest + ([0x80] + zeros);
      assert zeros[..pmLen - len - 5] == Zeros(pmLen - len - 5);
      assert block[..pmLen - 4] == block[..pmLen][..pmLen - 4];
    }

    /** Ends the message in the block: the mark, zeros, and the length in bits. */
    method PadBlock() returns (pmLen: nat)
      requires Valid()
      modifies block
      ensures pmLen % 64 == 0 && pmLen <= 128
      ensures block[..pmLen] == Rest(seen) + Padding(|seen|, StoredLength(|seen|))
    {
      var blockNb := if 55 < len then 2 else 1;
      var lenB := (totLen + len) * 8 % WORDS;
      pmLen := blockNb * 64;
      ghost var rest := block[..len];
      Mark(pmLen);
      ghost var marked := block[..pmLen - 4];
      Copy(block, pmLen - 4, [Byte(lenB / 16777216), Byte(lenB / 65536), Byte(lenB / 256), Byte(lenB)]);
      LengthBytes(|seen|, lenB);
      assert block[..pmLen] == marked + BigEndian(8 * |seen|, 4);
      PaddedBlock(seen, rest, pmLen);
    }

    /** Ends the message and gives its digest. */
    method Final() returns (digest: seq<byte>)
      requires Valid()
      modifies block, h
      ensures digest == DigestWith(seen, StoredLength(|seen|))
    {
      var pmLen := PadBlock();
      ghost var padding := Padding(|seen|, StoredLength(|seen|));
      BlocksConcat(Compress, INITIAL, seen, padding);
      Transform(block[..pmLen]);
      digest := WriteOut();
    }

    /** The words of the hash value as bytes. */
    method WriteOut() returns (digest: seq<byte>)
      requires h.Length == 8
      ensures digest == Output(h[..])
    {
      digest := [];
      ghost var s := h[..];
      assert s[0..] == s;
      for i := 0 to 8
        invariant h[..] == s && digest + Output(s[i..]) == Output(s)
      {
        OutputNext(s, i);
        Associative(digest, Unpack(s[i]), Output(s[i + 1..]));
        digest := digest + Unpack(h[i]);
      }
      assert s[8..] == [] && digest + [] == digest;
    }
  }

  lemma OutputNext(s: seq<word>, i: nat)
    requires i < |s|
    ensures Output(s[i..]) == Unpack(s[i]) + Output(s[i + 1..])
  {
    assert s[i..][1..] == s[i + 1..];
  }

  /** The bytes of the length, which is counted in 32 bits. */
  lemma LengthBytes(n: nat, lenB: nat)
    requires lenB == (Counted(n) + n % 64) * 8 % WORDS
    ensures [Byte(lenB / 16777216), Byte(lenB / 65536), Byte(lenB / 256), Byte(lenB)] == BigEndian(8 * n, 4)
  {
    var x := 8 * n;
    assert lenB == x % WORDS by {
      CountedBits(n);
    }
    WordBytes(x);
    BigEndianFour(x);
  }

  lemma CountedBits(n: nat)
    ensures (Counted(n) + n % 64) * 8 % WORDS == 8 * n % WORDS
  {
    var m := n / 64 * 64;
    var q := m / WORDS;
    assert m == WORDS * q + Counted(n) && n == m + n % 64;
    SameRest(8 * q, (Counted(n) + n % 64) * 8);
  }

  lemma SameRest(k: nat, r: nat)
    ensures (WORDS * k + r) % WORDS == r % WORDS
  {
  }

  lemma SameRemainder(k: nat, r: nat)
    ensures (256 * k + r) % 256 == r % 256
  {
  }

  lemma SameByte(k: nat, r: nat)
    ensures Byte(256 * k + r) == Byte(r)
  {
    SameRemainder(k, r);
  }

  /** The low four bytes of a number are those of its remainder. */
  lemma WordBytes(x: nat)
    ensures var r := x % WORDS;
      && Byte(r) == Byte(x) && Byte(r / 256) == Byte(x / 256)
      && Byte(r / 65536) == Byte(x / 65536) && Byte(r / 16777216) == Byte(x / 16777216)
  {
    var q, r := x / WORDS, x % WORDS;
    assert x == 256 * (16777216 * q) + r;
    assert x / 256 == 256 * (65536 * q) + r / 256;
    assert x / 65536 == 256 * (256 * q) + r / 65536;
    assert x / 16777216 == 256 * q + r / 16777216;
    SameByte(16777216 * q, r);
    SameByte(65536 * q, r / 256);
    SameByte(256 * q, r / 65536);
    SameByte(q, r / 16777216);
  }

  lemma BigEndianFour(x: nat)
    ensures BigEndian(x, 4) == [Byte(x / 16777216), Byte(x / 65536), Byte(x / 256), Byte(x)]
  {
    var a := x / 256;
    var b := a / 256;
    var c := b / 256;
    assert b == x / 65536 && c == x / 16777216;
    assert BigEndian(c, 1) == [Byte(c)] && BigEndian(b, 2) == [Byte(c), Byte(b)];
    assert BigEndian(a, 3) == [Byte(c), Byte(b), Byte(a)];
  }

  /** The rest of the message, the mark, zeros and the length make up one or two blocks. */
  lemma PaddedBlock(seen: seq<byte>, rest: seq<byte>, pmLen: nat)
    requires |rest| == |seen| % 64 && pmLen == (if 55 < |rest| then 128 else 64)
    ensures (rest + [0x80] + Zeros(pmLen - |rest| - 5)) + BigEndian(8 * |seen|, 4) ==
      rest + Padding(|seen|, StoredLength(|seen|))
  {
    var n := ZeroCount(|seen|);
    ZerosBetween(|seen|, |rest|, pmLen);
    ZerosConcat(n, 4);
    Parts(rest, Zeros(n), BigEndian(8 * |seen|, 4));
  }

  lemma ZerosConcat(n: nat, m: nat)
    ensures Zeros(n + m) == Zeros(n) + Zeros(m)
  {
  }

  lemma ZerosBetween(n: nat, rest: nat, pmLen: nat)
    requires rest == n % 64 && pmLen == if 55 < rest then 128 else 64
    ensures pmLen == rest + 1 + ZeroCount(n) + 8
  {
  }

  lemma Parts(rest: seq<byte>, zeros: seq<byte>, length: seq<byte>)
    ensures rest + [0x80] + (zeros + Zeros(4)) + length == rest + ([0x80] + zeros + (Zeros(4) + length))
  {
  }

  lemma WordAdd(a: nat, b: nat)
    ensures (a % WORDS + b) % WORDS == (a + b) % WORDS
  {
  }

  lemma WholeAdd(n: nat, m: nat)
    ensures (n + m) / 64 * 64 == n / 64 * 64 + (n % 64 + m) / 64 * 64
  {
  }

  lemma BlocksOfSum(n: nat)
    requires n >= 64
    ensures (n - 64) / 64 + 1 == n / 64
  {
  }

  /** The bytes in whole blocks, counted in 32 bits. */
  lemma CountedNext(seen: seq<byte>, m: nat)
    ensures var n := |Rest(seen)| + m;
      Counted(|seen| + m) == if n < 64 then Counted(|seen|) else MoreBlocks(Counted(|seen|), (n - 64) / 64 + 1)
  {
    WholeAdd(|seen|, m);
    var n := |Rest(seen)| + m;
    if n >= 64 {
      BlocksOfSum(n);
      WordAdd(|seen| / 64 * 64, n / 64 * 64);
    }
  }

  // ----- messages in pieces -----

  predicate Sized(pieces: seq<seq<byte>>) {
    forall i | 0 <= i < |pieces| :: |pieces[i]| + 64 < WORDS
  }

  /** A context that has absorbed all pieces of a message. */
  method Absorbed(pieces: seq<seq<byte>>) returns (ctx: Context)
    requires Sized(pieces)
    ensures fresh(ctx) && fresh(ctx.block) && fresh(ctx.h) && ctx.Valid() && ctx.seen == Joined(pieces)
  {
    ctx := new Context();
    assert pieces[..0] == [];
    for i := 0 to |pieces|
      invariant fresh(ctx) && fresh(ctx.block) && fresh(ctx.h) && ctx.Valid() && ctx.seen == Joined(pieces[..i])
    {
      JoinedNext(pieces, i);
      ctx.Update(pieces[i]);
    }
    assert pieces[..|pieces|] == pieces;
  }

  lemma JoinedNext(pieces: seq<seq<byte>>, i: nat)
    requires i < |pieces|
    ensures Joined(pieces[..i]) + pieces[i] == Joined(pieces[..i + 1])
  {
    assert pieces[..i + 1][..i] == pieces[..i];
  }

  /**
   However a message is cut into pieces, its digest is that of the whole; below 2 to the power of 29
   bytes it is SHA-256.
   */
  method DigestOfPieces(pieces: seq<seq<byte>>) returns (digest: seq<byte>)
    requires Sized(pieces)
    ensures digest == DigestWith(Joined(pieces), StoredLength(|Joined(pieces)|))
    ensures |Joined(pieces)| < 0x2000_0000 ==> digest == Digest(Joined(pieces))
  {
    var ctx := Absorbed(pieces);
    digest := ctx.Final();
    ShortDigest(Joined(pieces));
  }

  lemma ShortDigest(s: seq<byte>)
    ensures |s| < 0x2000_0000 ==> DigestWith(s, StoredLength(|s|)) == Digest(s)
  {
    if |s| < 0x2000_0000 {
      ShortMessage(|s|);
    }
  }

  lemma ShortMessage(n: nat)
    requires n < 0x2000_0000
    ensures StoredLength(n) == BigEndian(8 * n, 8)
  {
    assert Power(4) == 0x1_0000_0000;
    PowerGrows(4, 8);
    StoredLengthIsStandard(n);
  }

  lemma {:induction false} PowerGrows(a: nat, b: nat)
    requires a <= b
    ensures Power(a) <= Power(b)
  {
    if a < b {
      PowerGrows(a, b - 1);
    }
  }

  method Hash(message: seq<byte>) returns (digest: seq<byte>)
    requires |message| + 64 < WORDS
    ensures digest == DigestWith(message, StoredLength(|message|))
    ensures |message| < 0x2000_0000 ==> digest == Digest(message)
  {
    assert Joined([message][..0]) == [] && [message][..0] == [] && Joined([message]) == [] + message == message;
    digest := DigestOfPieces([message]);
  }

  // ----- HMAC -----

  lemma XorZero(x: byte)
    ensures 0 ^ x == x
  {
  }

  /** A key of at most a block, combined with a byte that also stands for what the key lacks. */
  method PadKey(used: seq<byte>, x: byte) returns (pad: seq<byte>)
    requires |used| <= 64
    ensures pad == XorAll(used + Zeros(64 - |used|), x)
  {
    var a := new byte[64](i => x);
    for i := 0 to |used|
      invariant forall j | 0 <= j < 64 :: a[j] == if j < i then used[j] ^ x else x
    {
      a[i] := used[i] ^ x;
    }
    pad := a[..];
    XorZero(x);
  }

  /** The first bytes of the code that authenticates a message. */
  method HmacSha256(key: seq<byte>, message: seq<byte>, macSize: nat) returns (mac: seq<byte>)
    requires |key| < 0x2000_0000 && |message| + 64 < 0x2000_0000 && macSize <= 32
    ensures mac == Hmac(key, message)[..macSize]
  {
    var used := key;
    if |key| > 64 {
      used := Hash(key);
    }
    var ipad := PadKey(used, 0x36);
    var opad := PadKey(used, 0x5c);
    assert ipad == XorAll(KeyBlock(key), 0x36) && opad == XorAll(KeyBlock(key), 0x5c);
    JoinedPair(ipad, message);
    var inside := DigestOfPieces([ipad, message]);
    JoinedPair(opad, inside);
    var outside := DigestOfPieces([opad, inside]);
    mac := outside[..macSize];
  }

  lemma JoinedPair(a: seq<byte>, b: seq<byte>)
    ensures Joined([a, b]) == a + b
  {
    assert [a, b][..1] == [a] && [a][..0] == [];
    assert Joined([a]) == [] + a == a;
  }
}
