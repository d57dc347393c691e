/**
 Hashes that take a message in blocks of 64 bytes, in any number of pieces.
 */
module BlockHash {
  import opened WireValues

  /** The state after the first `n` blocks of some bytes. */
  function BlocksTo<S>(f: (S, seq<byte>) -> S, h: S, s: seq<byte>, n: nat): S
    requires 64 * n <= |s|
  {
    if n == 0 then h else f(BlocksTo(f, h, s, n - 1), s[64 * (n - 1)..64 * n])
  }

  /** The state after all whole blocks; an incomplete last block is left. */
  function Blocks<S>(f: (S, seq<byte>) -> S, h: S, s: seq<byte>): S {
    BlocksTo(f, h, s, |s| / 64)
  }

  function Rest(s: seq<byte>): (r: seq<byte>)
    ensures |r| < 64
  {
    s[|s| / 64 * 64..]
  }

  lemma {:induction false} BlocksShifted<S>(f: (S, seq<byte>) -> S, h: S, a: seq<byte>, b: seq<byte>, n: nat)
    requires |a| % 64 == 0 && 64 * n <= |b|
    ensures BlocksTo(f, h, a + b, |a| / 64 + n) == BlocksTo(f, BlocksTo(f, h, a, |a| / 64), b, n)
    decreases n
  {
    var k := |a| / 64;
    if n == 0 {
      BlocksSame(f, h, a, a + b, k);
    } else {
      BlocksShifted(f, h, a, b, n - 1);
      assert (a + b)[64 * (k + n - 1)..64 * (k + n)] == b[64 * (n - 1)..64 * n];
    }
  }

  lemma {:induction false} BlocksSame<S>(f: (S, seq<byte>) -> S, h: S, s: seq<byte>, t: seq<byte>, n: nat)
    requires 64 * n <= |s| && 64 * n <= |t| && s[..64 * n] == t[..64 * n]
    ensures BlocksTo(f, h, s, n) == BlocksTo(f, h, t, n)
    decreases n
  {
    if n > 0 {
      assert s[..64 * (n - 1)] == s[..64 * n][..64 * (n - 1)] == t[..64 * (n - 1)];
      assert s[64 * (n - 1)..64 * n] == s[..64 * n][64 * (n - 1)..] == t[64 * (n - 1)..64 * n];
      BlocksSame(f, h, s, t, n - 1);
    }
  }

  lemma SumOfBlocks(k: nat, n: nat)
    ensures (64 * k + n) / 64 == k + n / 64
  {
  }

  /** A message may be absorbed in two pieces: the first leaves a rest that the second continues. */
  lemma BlocksConcat<S>(f: (S, seq<byte>) -> S, h: S, s: seq<byte>, more: seq<byte>)
    ensures Blocks(f, h, s + more) == Blocks(f, Blocks(f, h, s), Rest(s) + more)
    ensures Rest(s + more) == Rest(Rest(s) + more)
  {
    var k := |s| / 64;
    var a, b := s[..64 * k], Rest(s) + more;
    assert s + more == a + b;
    SumOfBlocks(k, |b|);
    BlocksSame(f, h, a, s, k);
    BlocksShifted(f, h, a, b, |b| / 64);
  }

  lemma BlocksShort<S>(f: (S, seq<byte>) -> S, h: S, s: seq<byte>, more: seq<byte>)
    requires |Rest(s)| + |more| < 64
    ensures Blocks(f, h, s + more) == Blocks(f, h, s) && Rest(s + more) == Rest(s) + more
  {
    BlocksConcat(f, h, s, more);
  }

  lemma WholeBlocks(n: nat)
    ensures var m := n / 64 * 64; m <= n < m + 64 && m % 64 == 0
  {
  }

  /** A rest, completed to a block, then whole blocks, then a new rest. */
  lemma BlocksOfRest<S>(f: (S, seq<byte>) -> S, h: S, b: seq<byte>, message: seq<byte>, rem: nat)
    requires |b| + rem == 64 && rem <= |message|
    ensures var end := rem + (|message| - rem) / 64 * 64;
      && Blocks(f, h, b + message) == Blocks(f, f(h, b + message[..rem]), message[rem..end])
      && Rest(b + message) == message[end..]
  {
    var first, more := b + message[..rem], message[rem..];
    var n := |more| / 64;
    assert b + message == first + more;
    SumOfBlocks(1, |more|);
    assert first[0..64] == first;
    assert BlocksTo(f, h, first, 1) == f(BlocksTo(f, h, first, 0), first[0..64]) == f(h, first);
    BlocksShifted(f, h, first, more, n);
    assert more[..64 * n] == message[rem..rem + 64 * n] && more[64 * n..] == message[rem + 64 * n..];
    BlocksSame(f, f(h, first), more, more[..64 * n], n);
  }

  // ----- padding -----

  function Zeros(n: nat): (z: seq<byte>)
    ensures |z| == n && forall i | 0 <= i < n :: z[i] == 0
  {
    seq(n, i => 0)
  }

  /** How many zero bytes follow the mark 0x80, so that eight bytes of length complete a block. */
  function ZeroCount(n: nat): (k: nat)
    ensures k < 64 && (n + 1 + k + 8) % 64 == 0
  {
    (119 - n % 64) % 64
  }

  /** What is appended to a message of `n` bytes. */
  function Padding(n: nat, length: seq<byte>): seq<byte> {
    [0x80] + Zeros(ZeroCount(n)) + length
  }

  /** The padding is a mark, then as few zero bytes as complete a block with the length, then the length. */
  lemma PaddingCompletesBlock(n: nat, length: seq<byte>)
    requires |length| == 8
    ensures var p := Padding(n, length);
      && (n + |p|) % 64 == 0 && 9 <= |p| <= 72
      && p[0] == 0x80 && (forall i | 1 <= i < |p| - 8 :: p[i] == 0) && p[|p| - 8..] == length
  {
  }

  function BigEndian(n: nat, width: nat): (s: seq<byte>)
    ensures |s| == width
  {
    if width == 0 then [] else BigEndian(n / 256, width - 1) + [Byte(n)]
  }
}
