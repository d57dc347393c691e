/**
 MD5 over a message that comes in pieces: the bookkeeping of sections 3.1, 3.2 and 3.5 of RFC 1321
 around a compression function, which is a parameter.
 */
module Md5Stream {
  import opened Arrays
  import opened Sequences
  import opened WireValues
  import opened BlockHash

  type word = bv32

  const WORDS := 0x1_0000_0000

  type Transform = (seq<word>, seq<byte>) -> seq<word>

  const INITIAL: seq<word> := [0x67452301, 0xefcdab89, 0x98badcfe, 0x10325476]

  /** Words as bytes, the least significant first. */
  function Encode(s: seq<word>): (r: seq<byte>)
    ensures |r| == 4 * |s|
  {
    if s == [] then [] else EncodeWord(s[0]) + Encode(s[1..])
  }

  function EncodeWord(x: word): (r: seq<byte>)
    ensures |r| == 4
  {
    [(x & 0xff) as byte, ((x >> 8) & 0xff) as byte, ((x >> 16) & 0xff) as byte, ((x >> 24) & 0xff) as byte]
  }

  lemma {:induction false} EncodeSlice(s: seq<word>, i: nat)
    requires i < |s|
    ensures Encode(s)[4 * i..4 * i + 4] == EncodeWord(s[i])
  {
    if i > 0 {
      EncodeSlice(s[1..], i - 1);
      assert Encode(s)[4 * i..4 * i + 4] == Encode(s[1..])[4 * (i - 1)..4 * (i - 1) + 4];
    }
  }

  /** The words come out in order, each with its least significant byte first. */
  lemma EncodedWord(s: seq<word>, i: nat)
    requires i < |s|
    ensures var e := Encode(s);
      e[4 * i] as word | (e[4 * i + 1] as word << 8) | (e[4 * i + 2] as word << 16) | (e[4 * i + 3] as word << 24) ==
        s[i]
  {
    var e := Encode(s)[4 * i..4 * i + 4];
    EncodeSlice(s, i);
    WordOfBytes(s[i]);
    assert e[0] == Encode(s)[4 * i] && e[1] == Encode(s)[4 * i + 1];
    assert e[2] == Encode(s)[4 * i + 2] && e[3] == Encode(s)[4 * i + 3];
  }

  lemma WordOfBytes(x: word)
    ensures var e := EncodeWord(x);
      e[0] as word | (e[1] as word << 8) | (e[2] as word << 16) | (e[3] as word << 24) == x
  {
  }

  /** The four words the hash starts with, as section 3.3 of RFC 1321 gives them byte by byte. */
  lemma InitialBytes()
    ensures Encode(INITIAL) == [
      0x01, 0x23, 0x45, 0x67, 0x89, 0xab, 0xcd, 0xef, 0xfe, 0xdc, 0xba, 0x98, 0x76, 0x54, 0x32, 0x10
    ]
  {
    forall i: nat | i < 4
      ensures Encode(INITIAL)[4 * i..4 * i + 4] == EncodeWord(INITIAL[i])
    {
      EncodeSlice(INITIAL, i);
    }
  }

  /** The length of a message of `n` bytes, in bits. */
  function CountField(n: nat): (s: seq<byte>)
    ensures |s| == 8
  {
    LittleEndian(8 * n % (WORDS * WORDS), 8)
  }

  /** The state after a message, its padding and its length, as the standard has it. */
  function FinalState(f: Transform, s: seq<byte>): seq<word> {
    Blocks(f, INITIAL, s + Padding(|s|, CountField(|s|)))
  }

  // ----- the count of bits, in two words -----

  /** The count after `n` more bytes: the low word carries into the high one. */
  function Counted(low: nat, high: nat, n: nat): (nat, nat) {
    var added := 8 * n % WORDS;
    var low' := (low + added) % WORDS;
    var carried := if low' < added then (high + 1) % WORDS else high;
    (low', (carried + n / 0x2000_0000) % WORDS)
  }

  lemma CarryOfSum(low: nat, added: nat)
    requires low < WORDS && added < WORDS
    ensures var sum := (low + added) % WORDS;
      low + added == sum + if sum < added then WORDS else 0
  {
  }

  lemma HighOfBits(n: nat)
    ensures 8 * n == WORDS * (n / 0x2000_0000) + 8 * n % WORDS
  {
  }

  /** The two words hold eight times the bytes, modulo 2 to the power of 64. */
  ghost predicate Counts(low: nat, high: nat, n: nat) {
    low < WORDS && high < WORDS && exists wraps: nat :: CountIs(low, high, wraps, n)
  }

  predicate CountIs(low: nat, high: nat, wraps: nat, n: nat) {
    8 * n == WORDS * (WORDS * wraps + high) + low
  }

  lemma CountsNext(low: nat, high: nat, n: nat, m: nat)
    requires Counts(low, high, n)
    ensures Counts(Counted(low, high, m).0, Counted(low, high, m).1, n + m)
  {
    var wraps: nat :| CountIs(low, high, wraps, n);
    var added := 8 * m % WORDS;
    CarryOfSum(low, added);
    HighOfBits(m);
    var carry := if (low + added) % WORDS < added then 1 else 0;
    var total := high + carry + m / 0x2000_0000;
    var (low', high') := Counted(low, high, m);
    assert high' == total % WORDS by {
      HighTwice(high + carry, m / 0x2000_0000);
    }
    var wraps' := wraps + total / WORDS;
    assert CountIs(low', high', wraps', n + m);
  }

  lemma HighTwice(a: nat, b: nat)
    ensures (a % WORDS + b) % WORDS == (a + b) % WORDS
  {
  }

  /** The count determines the place in the block, and the length that is appended. */
  lemma CountsPlace(low: nat, high: nat, n: nat)
    requires Counts(low, high, n)
    ensures low / 8 % 64 == n % 64
    ensures WORDS * high + low == 8 * n % (WORDS * WORDS)
  {
    var wraps: nat :| CountIs(low, high, wraps, n);
    assert low / 8 + 0x2000_0000 * (WORDS * wraps + high) == n;
    assert n == 64 * (0x80_0000 * (WORDS * wraps + high)) + low / 8;
  }

  /** What is appended to a message of `n` bytes. */
  lemma PaddingBytes(s: seq<byte>, bits: seq<byte>, padLen: nat)
    requires padLen == if |s| % 64 < 56 then 56 - |s| % 64 else 120 - |s| % 64
    ensures s + ([0x80] + Zeros(padLen - 1)) + bits == s + Padding(|s|, bits)
  {
    assert padLen - 1 == ZeroCount(|s|);
    assert s + ([0x80] + Zeros(padLen - 1)) + bits == s + ([0x80] + Zeros(padLen - 1) + bits);
  }

  // ----- the context -----

  class Context {
    const transform: Transform
    const buffer: array<byte>
    var state: seq<word>
    /** The count of bits. */
    var low: nat
    var high: nat
    /** All bytes absorbed so far. */
    ghost var seen: seq<byte>

    ghost predicate Valid()
      reads this, buffer
    {
      && buffer.Length == 64 && Counts(low, high, |seen|)
      && state == Blocks(transform, INITIAL, seen) && buffer[..|seen| % 64] == Rest(seen)
    }

    constructor (transform: Transform)
      ensures Valid() && seen == [] && fresh(buffer) && this.transform == transform
    {
      this.transform := transform;
      buffer := new byte[64];
      state, low, high, seen := INITIAL, 0, 0, [];
      assert CountIs(0, 0, 0, 0);
    }

    method AddCount(n: nat)
      requires Counts(low, high, |seen|)
      modifies this`low, this`high
      ensures Counts(low, high, |seen| + n)
    {
      CountsNext(low, high, |seen|, n);
      var added := 8 * n % WORDS;
      low := (low + added) % WORDS;
      if low < added {
        high := (high + 1) % WORDS;
      }
      high := (high + n / 0x2000_0000) % WORDS;
    }

    /** Where the loop over the blocks of `n` bytes ends. */
    static lemma BlocksEnd(n: nat, k: nat)
      requires k <= n / 64
      ensures 64 * k + 63 < n <==> k < n / 64
      ensures 64 * k + 63 < n ==> 64 * k + 64 <= n / 64 * 64 <= n
    {
    }

    /** The whole blocks from `from` on. */
    method TransformBlocks(input: seq<byte>, from: nat) returns (i: nat)
      requires from <= |input|
      modifies this`state
      ensures i == from + (|input| - from) / 64 * 64
      ensures state == Blocks(transform, old(state), input[from..i])
    {
      ghost var n, k, s := (|input| - from) / 64, 0, state;
      ghost var blocks := input[from..from + 64 * n];
      i := from;
      BlocksEnd(|input| - from, 0);
      while i + 63 < |input|
        invariant 0 <= k <= n && i == from + 64 * k && (i + 63 < |input| <==> k < n)
        invariant state == BlocksTo(transform, s, blocks, k)
        decreases |input| - i
      {
        Within(input, from, from + 64 * n, 64 * k, 64 * k + 64);
        state := transform(state, input[i..i + 64]);
        i, k := i + 64, k + 1;
        BlocksEnd(|input| - from, k);
      }
    }

    /** Input that completes the block: all whole blocks are transformed, and the rest is kept. */
    method Overflow(input: seq<byte>, index: nat)
      requires buffer.Length == 64 && index < 64 && index + |input| >= 64
      modifies this`state, buffer
      ensures state == Blocks(transform, old(state), old(buffer[..index]) + input)
      ensures var rest := Rest(old(buffer[..index]) + input); buffer[..|rest|] == rest
    {
      ghost var b := buffer[..index];
      var partLen := 64 - index;
      Copy(buffer, index, input[..partLen]);
      assert buffer[..] == b + input[..partLen];
      BlocksOfRest(transform, state, b, input, partLen);
      state := transform(state, buffer[..]);
      var i := TransformBlocks(input, partLen);
      Copy(buffer, 0, input[i..]);
    }

    /** A piece that leaves the block incomplete. */
    method Append(input: seq<byte>, index: nat)
      requires Valid() && index == |seen| % 64 && index + |input| < 64
      modifies this, buffer
      ensures Valid() && seen == old(seen) + input
    {
      ghost var b := buffer[..index];
      BlocksShort(transform, INITIAL, seen, input);
      AddCount(|input|);
      Copy(buffer, index, input);
      assert buffer[..index + |input|] == b + input;
      seen := seen + input;
      assert |Rest(seen)| == |seen| % 64;
    }

    method AppendBlocks(input: seq<byte>, index: nat)
      requires Valid() && index == |seen| % 64 && index + |input| >= 64
      modifies this, buffer
      ensures Valid() && seen == old(seen) + input
    {
      BlocksConcat(transform, INITIAL, seen, input);
      AddCount(|input|);
      Overflow(input, index);
      seen := seen + input;
      assert |Rest(seen)| == |seen| % 64;
    }

    /** Absorbs a piece of the message. */
    method Update(input: seq<byte>)
      requires Valid() && |input| + 64 < WORDS
      modifies this, buffer
      ensures Valid() && seen == old(seen) + input
    {
      CountsPlace(low, high, |seen|);
      var index := low / 8 % 64;
      if index + |input| >= 64 {
        AppendBlocks(input, index);
      } else {
        Append(input, index);
      }
    }

    /** Ends the message and gives its digest. */
    method Final() returns (digest: seq<byte>)
      requires Valid()
      modifies this, buffer
      ensures digest == Encode(FinalState(transform, old(seen)))
    {
      ghost var s := seen;
      CountsPlace(low, high, |seen|);
      var bits := LittleEndian(low, 4) + LittleEndian(high, 4);
      CountBytes(low, high, |seen|);
      var index := low / 8 % 64;
      var padLen := if index < 56 then 56 - index else 120 - index;
      Update([0x80] + Zeros(padLen - 1));
      Update(bits);
      PaddingBytes(s, bits, padLen);
      digest := Encode(state);
    }
  }

  lemma Regroup(x: nat, v: nat, p: nat, w: nat)
    ensures x + 256 * (v + p * w) == x + 256 * v + (256 * p) * w
  {
  }

  lemma ValueNext(s: seq<byte>)
    requires s != []
    ensures Value(s) == s[0] as nat + 256 * Value(s[1..]) && Power(|s|) == 256 * Power(|s| - 1)
  {
  }

  lemma {:induction false} ValueConcat(a: seq<byte>, b: seq<byte>)
    ensures Value(a + b) == Value(a) + Power(|a|) * Value(b)
  {
    if a == [] {
      assert a + b == b;
    } else {
      assert (a + b)[1..] == a[1..] + b;
      ValueConcat(a[1..], b);
      ValueNext(a);
      ValueNext(a + b);
      Regroup(a[0] as nat, Value(a[1..]), Power(|a| - 1), Value(b));
    }
  }

  lemma CountBytes(low: nat, high: nat, n: nat)
    requires Counts(low, high, n)
    ensures LittleEndian(low, 4) + LittleEndian(high, 4) == CountField(n)
  {
    var a, b := LittleEndian(low, 4), LittleEndian(high, 4);
    CountsPlace(low, high, n);
    assert Power(4) == WORDS;
    ValueOfLittleEndian(low, 4);
    ValueOfLittleEndian(high, 4);
    ValueConcat(a, b);
    LittleEndianOfValue(a + b);
  }
}
