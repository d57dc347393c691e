/**
 The byte ciphers of a network connection, which rewrite the contents of a chunk in place.
 */
module WireCipher {
  import opened WireValues

  /** The ciphers on offer: a four-byte key, eight pairs of bits to swap, seven rotations. */
  datatype Method =
    | NoCipher
    | Xor(key: seq<byte>)
    | Reverse18 | Reverse27 | Reverse36 | Reverse45
    | Reverse15 | Reverse26 | Reverse37 | Reverse48
    | Shift(n: byte)

  predicate Known(m: Method) {
    match m
    case Xor(key) => |key| == 4
    case Shift(n) => 1 <= n <= 7
    case _ => true
  }

  function Swap(x: byte, a: byte, b: byte): byte
    requires a < 8 && b < 8
  {
    PutBit(PutBit(x, b, HasBit(x, a)), a, HasBit(x, b))
  }

  function RotateRight(x: byte, n: byte): byte
    requires 1 <= n <= 7
  {
    (x >> n) | (x << (8 - n))
  }

  function RotateLeft(x: byte, n: byte): byte
    requires 1 <= n <= 7
  {
    (x << n) | (x >> (8 - n))
  }

  /** What the cipher makes of byte `i` of the contents. */
  function CodeByte(m: Method, code: bool, i: nat, x: byte): byte
    requires Known(m)
  {
    match m
    case NoCipher => x
    case Xor(key) => x ^ key[i % 4]
    case Reverse18 => Swap(x, 0, 7)
    case Reverse27 => Swap(x, 1, 6)
    case Reverse36 => Swap(x, 2, 5)
    case Reverse45 => Swap(x, 3, 4)
    case Reverse15 => Swap(x, 0, 4)
    case Reverse26 => Swap(x, 1, 5)
    case Reverse37 => Swap(x, 2, 6)
    case Reverse48 => Swap(x, 3, 7)
    case Shift(n) => if code then RotateRight(x, n) else RotateLeft(x, n)
  }

  function Code(m: Method, code: bool, s: seq<byte>): (r: seq<byte>)
    requires Known(m)
    ensures |r| == |s|
    ensures forall i | 0 <= i < |s| :: r[i] == CodeByte(m, code, i, s[i])
  {
    seq(|s|, i requires 0 <= i < |s| => CodeByte(m, code, i, s[i]))
  }

  // ----- what the ciphers do to the bits -----

  lemma TwoPuts(x: byte, y: byte, a: byte, b: byte, p: bool, q: bool, n: byte)
    requires a < 8 && b < 8 && a != b && n < 8 && y == PutBit(x, b, p)
    ensures HasBit(PutBit(y, a, q), n) == if n == a then q else if n == b then p else HasBit(x, n)
  {
    PutBitHas(y, a, q, n);
    PutBitHas(x, b, p, n);
  }

  lemma SwapExchanges(x: byte, a: byte, b: byte, n: byte)
    requires a < 8 && b < 8 && a != b && n < 8
    ensures HasBit(Swap(x, a, b), n) == HasBit(x, if n == a then b else if n == b then a else n)
  {
    TwoPuts(x, PutBit(x, b, HasBit(x, a)), a, b, HasBit(x, a), HasBit(x, b), n);
  }

  /** Each reversing cipher exchanges two bits, which its name counts from 1, and leaves the others. */
  lemma ReverseExchanges(m: Method, code: bool, i: nat, x: byte, a: byte, b: byte, n: byte)
    requires (m, a, b) in {
      (Reverse18, 0, 7), (Reverse27, 1, 6), (Reverse36, 2, 5), (Reverse45, 3, 4),
      (Reverse15, 0, 4), (Reverse26, 1, 5), (Reverse37, 2, 6), (Reverse48, 3, 7)
    }
    requires n < 8
    ensures HasBit(CodeByte(m, code, i, x), n) == HasBit(x, if n == a then b else if n == b then a else n)
  {
    SwapExchanges(x, a, b, n);
  }

  /** A key flips the bits it has, byte by byte and over again. */
  lemma XorFlips(a: byte, b: byte, c: byte, d: byte, code: bool, i: nat, x: byte, n: byte)
    requires n < 8
    ensures var k := if i % 4 == 0 then a else if i % 4 == 1 then b else if i % 4 == 2 then c else d;
      HasBit(CodeByte(Xor([a, b, c, d]), code, i, x), n) == (HasBit(x, n) != HasBit(k, n))
  {
    assert [a, b, c, d][i % 4] == if i % 4 == 0 then a else if i % 4 == 1 then b else if i % 4 == 2 then c else d;
  }

  lemma RightMovesDown(x: byte, k: byte, n: byte)
    requires 1 <= k <= 7 && n < 8
    ensures HasBit(RotateRight(x, k), n) == HasBit(x, if n < 8 - k then n + k else n - (8 - k))
  {
  }

  lemma LeftMovesUp(x: byte, k: byte, n: byte)
    requires 1 <= k <= 7 && n < 8
    ensures HasBit(RotateLeft(x, k), if n < 8 - k then n + k else n - (8 - k)) == HasBit(x, n)
  {
    RightMovesDown(RotateLeft(x, k), k, n);
    RotateForth(x, k);
  }

  lemma RotateForth(x: byte, n: byte)
    requires 1 <= n <= 7
    ensures RotateRight(RotateLeft(x, n), n) == x
  {
  }

  /** Coding rotates a byte towards its least significant bit, and decoding back. */
  lemma ShiftRotates(k: byte, i: nat, x: byte, n: byte)
    requires 1 <= k <= 7 && n < 8
    ensures HasBit(CodeByte(Shift(k), true, i, x), n) == HasBit(x, if n < 8 - k then n + k else n - (8 - k))
    ensures HasBit(CodeByte(Shift(k), false, i, x), if n < 8 - k then n + k else n - (8 - k)) == HasBit(x, n)
  {
    RightMovesDown(x, k, n);
    LeftMovesUp(x, k, n);
  }

  lemma XorTwice(x: byte, k: byte)
    ensures (x ^ k) ^ k == x
  {
  }

  lemma RotateBack(x: byte, n: byte)
    requires 1 <= n <= 7
    ensures RotateLeft(RotateRight(x, n), n) == x
  {
  }

  lemma SwapOuterTwice(x: byte)
    ensures Swap(Swap(x, 0, 7), 0, 7) == x
    ensures Swap(Swap(x, 1, 6), 1, 6) == x
  {
  }

  lemma SwapInnerTwice(x: byte)
    ensures Swap(Swap(x, 2, 5), 2, 5) == x
    ensures Swap(Swap(x, 3, 4), 3, 4) == x
  {
  }

  lemma SwapLowTwice(x: byte)
    ensures Swap(Swap(x, 0, 4), 0, 4) == x
    ensures Swap(Swap(x, 1, 5), 1, 5) == x
  {
  }

  lemma SwapHighTwice(x: byte)
    ensures Swap(Swap(x, 2, 6), 2, 6) == x
    ensures Swap(Swap(x, 3, 7), 3, 7) == x
  {
  }

  lemma DecodeByte(m: Method, i: nat, x: byte)
    requires Known(m)
    ensures CodeByte(m, false, i, CodeByte(m, true, i, x)) == x
  {
    match m
    case NoCipher =>
    case Xor(key) => XorTwice(x, key[i % 4]);
    case Reverse18 => SwapOuterTwice(x);
    case Reverse27 => SwapOuterTwice(x);
    case Reverse36 => SwapInnerTwice(x);
    case Reverse45 => SwapInnerTwice(x);
    case Reverse15 => SwapLowTwice(x);
    case Reverse26 => SwapLowTwice(x);
    case Reverse37 => SwapHighTwice(x);
    case Reverse48 => SwapHighTwice(x);
    case Shift(n) => RotateBack(x, n);
  }

  /** Decoding undoes coding, whichever cipher the two ends have agreed on. */
  lemma DecodeCode(m: Method, s: seq<byte>)
    requires Known(m)
    ensures Code(m, false, Code(m, true, s)) == s
  {
    forall i | 0 <= i < |s|
      ensures Code(m, false, Code(m, true, s))[i] == s[i]
    {
      DecodeByte(m, i, s[i]);
    }
  }

  // ----- in place -----

  /** `after` is `before` with `size` bytes from `from` on coded. */
  ghost predicate Coded(m: Method, code: bool, from: nat, size: nat, before: seq<byte>, after: seq<byte>)
    requires Known(m) && from + size <= |before|
  {
    && |after| == |before|
    && forall j | 0 <= j < |before| ::
      after[j] == if from <= j < from + size then CodeByte(m, code, j - from, before[j]) else before[j]
  }

  /** A buffer whose chunk of `size` bytes at `at` is coded, except for the four bytes that hold its size. */
  function CodedChunk(m: Method, code: bool, s: seq<byte>, at: nat, size: nat): seq<byte>
    requires Known(m) && 4 <= size && at + size <= |s|
  {
    s[..at + 4] + Code(m, code, s[at + 4..at + size]) + s[at + size..]
  }

  lemma CodedIsCode(m: Method, code: bool, at: nat, size: nat, before: seq<byte>, after: seq<byte>)
    requires Known(m) && 4 <= size && at + size <= |before| && Coded(m, code, at + 4, size - 4, before, after)
    ensures after == CodedChunk(m, code, before, at, size)
  {
  }

  method CodeXOR(buf: array<byte>, from: nat, size: nat, key: seq<byte>, code: bool)
    requires from + size <= buf.Length && |key| == 4
    modifies buf
    ensures Coded(Xor(key), code, from, size, old(buf[..]), buf[..])
  {
    var bp := 0;
    for a := 0 to size
      invariant bp == a % 4
      invariant forall j | 0 <= j < buf.Length ::
        buf[j] == if from <= j < from + a then old(buf[j]) ^ key[(j - from) % 4] else old(buf[j])
    {
      buf[from + a] := buf[from + a] ^ key[bp];
      bp := bp + 1;
      if bp == 4 {
        bp := 0;
      }
    }
  }

  method CodeReverse(buf: array<byte>, from: nat, size: nat, a: byte, b: byte)
    requires from + size <= buf.Length && a < 8 && b < 8 && a != b
    modifies buf
    ensures forall j | 0 <= j < buf.Length ::
      buf[j] == if from <= j < from + size then Swap(old(buf[j]), a, b) else old(buf[j])
  {
    for i := 0 to size
      invariant forall j | 0 <= j < buf.Length ::
        buf[j] == if from <= j < from + i then Swap(old(buf[j]), a, b) else old(buf[j])
    {
      var d := buf[from + i];
      var bs1, bs2 := HasBit(d, a), HasBit(d, b);
      d := PutBit(d, b, bs1);
      d := PutBit(d, a, bs2);
      buf[from + i] := d;
    }
  }

  method CodeShift(buf: array<byte>, from: nat, size: nat, n: byte, code: bool)
    requires from + size <= buf.Length && 1 <= n <= 7
    modifies buf
    ensures Coded(Shift(n), code, from, size, old(buf[..]), buf[..])
  {
    if code {
      for a := 0 to size
        invariant forall j | 0 <= j < buf.Length ::
          buf[j] == if from <= j < from + a then RotateRight(old(buf[j]), n) else old(buf[j])
      {
        buf[from + a] := RotateRight(buf[from + a], n);
      }
    } else {
      for a := 0 to size
        invariant forall j | 0 <= j < buf.Length ::
          buf[j] == if from <= j < from + a then RotateLeft(old(buf[j]), n) else old(buf[j])
      {
        buf[from + a] := RotateLeft(buf[from + a], n);
      }
    }
  }

  method CodeReversePair(m: Method, buf: array<byte>, from: nat, size: nat, code: bool)
    requires from + size <= buf.Length && !m.NoCipher? && !m.Xor? && !m.Shift?
    modifies buf
    ensures Coded(m, code, from, size, old(buf[..]), buf[..])
  {
    match m {
      case Reverse18 => CodeReverse(buf, from, size, 0, 7);
      case Reverse27 => CodeReverse(buf, from, size, 1, 6);
      case Reverse36 => CodeReverse(buf, from, size, 2, 5);
      case Reverse45 => CodeReverse(buf, from, size, 3, 4);
      case Reverse15 => CodeReverse(buf, from, size, 0, 4);
      case Reverse26 => CodeReverse(buf, from, size, 1, 5);
      case Reverse37 => CodeReverse(buf, from, size, 2, 6);
      case Reverse48 => CodeReverse(buf, from, size, 3, 7);
    }
  }

  method CodeRange(m: Method, code: bool, buf: array<byte>, from: nat, size: nat)
    requires Known(m) && from + size <= buf.Length
    modifies buf
    ensures Coded(m, code, from, size, old(buf[..]), buf[..])
  {
    if m.Xor? {
      CodeXOR(buf, from, size, m.key, code);
    } else if m.Shift? {
      CodeShift(buf, from, size, m.n, code);
    } else if !m.NoCipher? {
      CodeReversePair(m, buf, from, size, code);
    }
  }

  /** Codes or decodes the contents of the chunk of `size` bytes at `at`. */
  method CodeChunk(m: Method, code: bool, buf: array<byte>, at: nat, size: nat)
    requires Known(m) && 4 <= size && at + size <= buf.Length
    modifies buf
    ensures buf[..] == CodedChunk(m, code, old(buf[..]), at, size)
  {
    ghost var before := buf[..];
    CodeRange(m, code, buf, at + 4, size - 4);
    CodedIsCode(m, code, at, size, before, buf[..]);
  }
}
