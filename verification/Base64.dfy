/**
 The base64 encoding of section 4 of RFC 4648, as blobs are stored in it.
 */
module Base64 {
  import opened WireValues

  // ----- the alphabet -----

  function Letter(n: nat): char
    requires n < 64
  {
    if n < 26 then 'A' + n as char
    else if n < 52 then 'a' + (n - 26) as char
    else if n < 62 then '0' + (n - 52) as char
    else if n == 62 then '+' else '/'
  }

  predicate IsLetter(c: char) {
    'A' <= c <= 'Z' || 'a' <= c <= 'z' || '0' <= c <= '9' || c == '+' || c == '/'
  }

  function Index(c: char): (n: nat)
    requires IsLetter(c)
    ensures n < 64
  {
    if 'A' <= c <= 'Z' then (c - 'A') as nat
    else if 'a' <= c <= 'z' then (c - 'a') as nat + 26
    else if '0' <= c <= '9' then (c - '0') as nat + 52
    else if c == '+' then 62 else 63
  }

  lemma LetterIndex(n: nat)
    requires n < 64
    ensures IsLetter(Letter(n)) && Index(Letter(n)) == n
  {
  }

  lemma IndexLetter(c: char)
    requires IsLetter(c)
    ensures Letter(Index(c)) == c
  {
  }

  /**
   What the decoder's table holds: letters of the alphabet have their index, others nothing; it marks
   itself as filled.
   */
  function Sextet(c: char): (n: nat)
    ensures n < 64
  {
    if IsLetter(c) then Index(c) else if c == '\0' then 1 else 0
  }

  // ----- three bytes and four letters -----

  /** The six-bit digit of a number with `k` digits behind it. */
  function SextetOf(n: nat, k: nat): (d: nat)
    ensures d < 64
  {
    if k == 0 then n % 64 else SextetOf(n / 64, k - 1)
  }

  /** The byte of a number with `k` bytes behind it. */
  function OctetOf(n: nat, k: nat): (d: nat)
    ensures d < 256
  {
    if k == 0 then n % 256 else OctetOf(n / 256, k - 1)
  }

  function At(s: seq<byte>, i: nat): nat {
    if i < |s| then s[i] as nat else 0
  }

  /** The first `k` bytes as one number, the first the most significant; missing ones are zero. */
  function Number(s: seq<byte>, k: nat): nat {
    if k == 0 then 0 else 256 * Number(s, k - 1) + At(s, k - 1)
  }

  /** The first `k` letters as one number. */
  function TextNumber(t: string, k: nat): nat
    requires k <= |t|
  {
    if k == 0 then 0 else 64 * TextNumber(t, k - 1) + Sextet(t[k - 1])
  }

  lemma DigitsOfQuad(a: nat, b: nat, c: nat, d: nat)
    requires a < 64 && b < 64 && c < 64 && d < 64
    ensures var n := 64 * (64 * (64 * a + b) + c) + d;
      SextetOf(n, 3) == a && SextetOf(n, 2) == b && SextetOf(n, 1) == c && SextetOf(n, 0) == d
  {
    var x := 64 * (64 * a + b) + c;
    var y := 64 * a + b;
    var n := 64 * x + d;
    assert n / 64 == x && n % 64 == d && x / 64 == y && x % 64 == c && y / 64 == a && y % 64 == b;
    assert SextetOf(a, 0) == a && SextetOf(y, 1) == a && SextetOf(x, 2) == a && SextetOf(n, 3) == a;
    assert SextetOf(y, 0) == b && SextetOf(x, 1) == b && SextetOf(n, 2) == b;
    assert SextetOf(x, 0) == c && SextetOf(n, 1) == c;
  }

  lemma QuadOfDigits(n: nat)
    requires n < 16777216
    ensures n == 64 * (64 * (64 * SextetOf(n, 3) + SextetOf(n, 2)) + SextetOf(n, 1)) + SextetOf(n, 0)
  {
    var x := n / 64;
    var y := x / 64;
    var a := y / 64;
    assert a < 64;
    DigitsOfQuad(a, y % 64, x % 64, n % 64);
  }

  lemma DigitsOfTriple(a: nat, b: nat, c: nat)
    requires a < 256 && b < 256 && c < 256
    ensures var n := 256 * (256 * a + b) + c;
      n < 16777216 && OctetOf(n, 2) == a && OctetOf(n, 1) == b && OctetOf(n, 0) == c
  {
    var x := 256 * a + b;
    var n := 256 * x + c;
    assert n / 256 == x && n % 256 == c && x / 256 == a && x % 256 == b;
    assert OctetOf(a, 0) == a && OctetOf(x, 1) == a && OctetOf(n, 2) == a;
    assert OctetOf(x, 0) == b && OctetOf(n, 1) == b;
  }

  // ----- encoding -----

  /** The four letters of the first three bytes, zeros filling in for missing ones. */
  function Quantum(s: seq<byte>): (q: string)
    ensures |q| == 4
  {
    seq(4, i requires 0 <= i < 4 => Letter(SextetOf(Number(s, 3), 3 - i)))
  }

  /** The letters of the last bytes: those that stand for no byte are replaced. */
  function LastQuantum(s: seq<byte>): (q: string)
    ensures |q| == 4
  {
    seq(4, i requires 0 <= i < 4 => if i > |s| then '=' else Letter(SextetOf(Number(s, 3), 3 - i)))
  }

  function Encode(s: seq<byte>): string {
    if s == [] then ""
    else if |s| <= 3 then LastQuantum(s)
    else Quantum(s) + Encode(s[3..])
  }

  // ----- decoding -----

  function GroupBytes(t: string): (r: seq<byte>)
    requires |t| >= 4
    ensures |r| == 3
  {
    seq(3, i requires 0 <= i < 3 => Byte(OctetOf(TextNumber(t, 4), 2 - i)))
  }

  function Bytes(t: string): seq<byte> {
    if |t| < 4 then [] else GroupBytes(t) + Bytes(t[4..])
  }

  lemma {:induction false} BytesLength(t: string)
    requires |t| % 4 == 0
    ensures |Bytes(t)| == |t| / 4 * 3
  {
    if |t| >= 4 {
      BytesLength(t[4..]);
    }
  }

  /** How many of the bytes count: one less for each '=' at one of the last two places. */
  function OutputLength(t: string): nat
    requires |t| % 4 == 0 && t != ""
  {
    |t| / 4 * 3 - (if t[|t| - 1] == '=' then 1 else 0) - (if t[|t| - 2] == '=' then 1 else 0)
  }

  /** A text whose length is no multiple of four decodes to nothing. */
  function Decode(t: string): seq<byte>
    requires t != ""
  {
    if |t| % 4 != 0 then []
    else
      BytesLength(t);
      Bytes(t)[..OutputLength(t)]
  }

  // ----- the round trip -----

  /** The letters after those of the bytes there are stand for zero. */
  lemma UnusedAreZero(a: nat, b: nat)
    requires a < 256 && b < 256
    ensures SextetOf(65536 * a, 1) == 0 && SextetOf(65536 * a, 0) == 0 && SextetOf(65536 * a + 256 * b, 0) == 0
  {
    DigitsOfQuad(a / 4, a % 4 * 16, 0, 0);
    assert 65536 * a == 64 * (64 * (64 * (a / 4) + a % 4 * 16));
    assert 65536 * a + 256 * b == 64 * (1024 * a + 4 * b);
  }

  /** The letters of a group, and the filling that may take the place of unused ones. */
  predicate IsGroup(t: string, s: seq<byte>) {
    |t| >= 4 && forall i | 0 <= i < 4 :: t[i] == Quantum(s)[i] || (t[i] == '=' && i > |s| > 0)
  }

  lemma NumberNext(s: seq<byte>, k: nat)
    requires k > 0
    ensures Number(s, k) == 256 * Number(s, k - 1) + At(s, k - 1)
  {
  }

  lemma NumberOfThree(s: seq<byte>)
    ensures Number(s, 3) == 256 * (256 * At(s, 0) + At(s, 1)) + At(s, 2)
  {
    NumberNext(s, 3);
    NumberNext(s, 2);
    NumberNext(s, 1);
  }

  lemma TextNumberNext(t: string, k: nat)
    requires 0 < k <= |t|
    ensures TextNumber(t, k) == 64 * TextNumber(t, k - 1) + Sextet(t[k - 1])
  {
  }

  lemma TextNumberOfFour(t: string)
    requires |t| >= 4
    ensures TextNumber(t, 4) == 64 * (64 * (64 * Sextet(t[0]) + Sextet(t[1])) + Sextet(t[2])) + Sextet(t[3])
  {
    TextNumberNext(t, 4);
    TextNumberNext(t, 3);
    TextNumberNext(t, 2);
    TextNumberNext(t, 1);
  }

  lemma NumberIsSmall(s: seq<byte>)
    ensures Number(s, 3) < 16777216
  {
    NumberOfThree(s);
  }

  lemma SextetOfGroup(s: seq<byte>, t: string, i: nat)
    requires IsGroup(t, s) && i < 4
    ensures Sextet(t[i]) == SextetOf(Number(s, 3), 3 - i)
  {
    NumberOfThree(s);
    LetterIndex(SextetOf(Number(s, 3), 3 - i));
    UnusedAreZero(At(s, 0), At(s, 1));
    assert Quantum(s)[i] == Letter(SextetOf(Number(s, 3), 3 - i));
  }

  lemma NumberOfGroup(s: seq<byte>, t: string)
    requires IsGroup(t, s)
    ensures TextNumber(t, 4) == Number(s, 3) < 16777216
  {
    var n := Number(s, 3);
    SextetOfGroup(s, t, 0);
    SextetOfGroup(s, t, 1);
    SextetOfGroup(s, t, 2);
    SextetOfGroup(s, t, 3);
    NumberIsSmall(s);
    QuadOfDigits(n);
    TextNumberOfFour(t);
  }

  /** A group decodes to its bytes. */
  lemma GroupDecodes(s: seq<byte>, t: string)
    requires IsGroup(t, s)
    ensures GroupBytes(t) == [Byte(At(s, 0)), Byte(At(s, 1)), Byte(At(s, 2))]
  {
    NumberOfGroup(s, t);
    NumberOfThree(s);
    DigitsOfTriple(At(s, 0), At(s, 1), At(s, 2));
    GroupIs(t, At(s, 0), At(s, 1), At(s, 2));
  }

  lemma GroupIs(t: string, a: nat, b: nat, c: nat)
    requires |t| >= 4
    requires var n := TextNumber(t, 4); OctetOf(n, 2) == a && OctetOf(n, 1) == b && OctetOf(n, 0) == c
    ensures GroupBytes(t) == [Byte(a), Byte(b), Byte(c)]
  {
    var g := GroupBytes(t);
    assert g[0] == Byte(a) && g[1] == Byte(b) && g[2] == Byte(c);
  }

  lemma GroupIsBytes(s: seq<byte>, t: string)
    requires IsGroup(t, s) && s != []
    ensures if |s| < 3 then GroupBytes(t)[..|s|] == s else GroupBytes(t) == s[..3]
  {
    GroupDecodes(s, t);
    ByteOfValue(s[0]);
    if |s| > 1 {
      ByteOfValue(s[1]);
    }
    if |s| > 2 {
      ByteOfValue(s[2]);
    }
  }

  /** How many bytes the last group lacks. */
  function Missing(n: nat): (p: nat)
    ensures p <= 2
  {
    if n == 0 then 0 else if n <= 3 then 3 - n else Missing(n - 3)
  }

  lemma FirstOfEncoded(s: seq<byte>)
    requires |s| > 3
    ensures IsGroup(Encode(s), s) && Encode(s)[4..] == Encode(s[3..])
  {
    assert Encode(s)[..4] == Quantum(s);
  }

  lemma LastOfEncoded(s: seq<byte>)
    requires 0 < |s| <= 3
    ensures IsGroup(LastQuantum(s), s)
  {
  }

  lemma BytesOfLast(s: seq<byte>)
    requires 0 < |s| <= 3
    ensures |Bytes(LastQuantum(s))| == 3 && Bytes(LastQuantum(s))[..|s|] == s
  {
    LastOfEncoded(s);
    GroupIsBytes(s, LastQuantum(s));
    assert Bytes(LastQuantum(s)) == GroupBytes(LastQuantum(s));
  }

  lemma {:induction false} BytesOfEncoded(s: seq<byte>)
    ensures |Bytes(Encode(s))| == |s| + Missing(|s|) && Bytes(Encode(s))[..|s|] == s
  {
    if 0 < |s| <= 3 {
      BytesOfLast(s);
    } else if |s| > 3 {
      FirstOfEncoded(s);
      GroupIsBytes(s, Encode(s));
      BytesOfEncoded(s[3..]);
      FirstThree(s, Bytes(Encode(s[3..])));
    }
  }

  lemma FirstThree(s: seq<byte>, rest: seq<byte>)
    requires |s| > 3 && |s| - 3 <= |rest| && rest[..|s| - 3] == s[3..]
    ensures (s[..3] + rest)[..|s|] == s
  {
    assert (s[..3] + rest)[..|s|] == s[..3] + rest[..|s| - 3];
  }

  lemma {:induction false} EncodedLength(s: seq<byte>)
    ensures |Encode(s)| % 4 == 0 && (s != [] ==> |Encode(s)| >= 4)
  {
    if |s| > 3 {
      EncodedLength(s[3..]);
    }
  }

  lemma LetterIsNotPadding(n: nat)
    requires n < 64
    ensures Letter(n) != '=' && IsLetter(Letter(n))
  {
  }

  lemma LastEnds(s: seq<byte>)
    requires 0 < |s| <= 3
    ensures LastQuantum(s)[3] == '=' <==> |s| < 3
    ensures LastQuantum(s)[2] == '=' <==> |s| < 2
  {
    LetterIsNotPadding(SextetOf(Number(s, 3), 1));
    LetterIsNotPadding(SextetOf(Number(s, 3), 0));
  }

  lemma LastTwo(t: string, rest: string)
    requires |t| >= 4 && t[4..] == rest && |rest| >= 2
    ensures t[|t| - 1] == rest[|rest| - 1] && t[|t| - 2] == rest[|rest| - 2]
  {
  }

  /** Text ends with one '=' for each byte missing from the last group. */
  lemma {:induction false} EncodedEnds(s: seq<byte>)
    requires s != []
    ensures |Encode(s)| >= 4
    ensures Encode(s)[|Encode(s)| - 1] == '=' <==> Missing(|s|) >= 1
    ensures Encode(s)[|Encode(s)| - 2] == '=' <==> Missing(|s|) == 2
  {
    if |s| <= 3 {
      LastEnds(s);
    } else {
      EncodedEnds(s[3..]);
      FirstOfEncoded(s);
      LastTwo(Encode(s), Encode(s[3..]));
    }
  }

  /** Everything before that is a letter of the alphabet. */
  lemma {:induction false} EncodedLetters(s: seq<byte>, i: nat)
    requires i < |Encode(s)| && Encode(s)[i] != '='
    ensures IsLetter(Encode(s)[i])
  {
    if |s| <= 3 {
      LetterIsNotPadding(SextetOf(Number(s, 3), 3 - i));
    } else if i < 4 {
      LetterIsNotPadding(SextetOf(Number(s, 3), 3 - i));
      assert Encode(s)[i] == Quantum(s)[i];
    } else {
      EncodedLetters(s[3..], i - 4);
    }
  }

  /** Decoding gives back what was encoded. */
  lemma RoundTrip(s: seq<byte>)
    requires s != []
    ensures Encode(s) != "" && Decode(Encode(s)) == s
  {
    EncodedLength(s);
    BytesLength(Encode(s));
    BytesOfEncoded(s);
    EncodedEnds(s);
  }

  // ----- the encoding, letter by letter -----

  /** The alphabet: upper case, lower case, digits, and two signs. */
  lemma Alphabet(n: nat)
    requires n < 64
    ensures Letter(0) == 'A' && Letter(25) == 'Z' && Letter(26) == 'a' && Letter(51) == 'z'
    ensures Letter(52) == '0' && Letter(61) == '9' && Letter(62) == '+' && Letter(63) == '/'
    ensures n !in {25, 51, 61, 62, 63} ==> Letter(n + 1) as int == Letter(n) as int + 1
  {
  }

  lemma SextetsOfThree(a: nat, b: nat, c: nat)
    requires a < 256 && b < 256 && c < 256
    ensures var n := 256 * (256 * a + b) + c;
      && SextetOf(n, 3) == a / 4 && SextetOf(n, 2) == a % 4 * 16 + b / 16
      && SextetOf(n, 1) == b % 16 * 4 + c / 64 && SextetOf(n, 0) == c % 64
  {
    DigitsOfQuad(a / 4, a % 4 * 16 + b / 16, b % 16 * 4 + c / 64, c % 64);
    assert 256 * (256 * a + b) + c ==
      64 * (64 * (64 * (a / 4) + (a % 4 * 16 + b / 16)) + (b % 16 * 4 + c / 64)) + c % 64;
  }

  /** The four sextets of the first three bytes. */
  predicate SextetsAre(s: seq<byte>, w: nat, x: nat, y: nat, z: nat) {
    var n := Number(s, 3);
    SextetOf(n, 3) == w && SextetOf(n, 2) == x && SextetOf(n, 1) == y && SextetOf(n, 0) == z
  }

  lemma SextetsOfBytes(s: seq<byte>, a: nat, b: nat, c: nat)
    requires a == At(s, 0) && b == At(s, 1) && c == At(s, 2)
    ensures SextetsAre(s, a / 4, a % 4 * 16 + b / 16, b % 16 * 4 + c / 64, c % 64)
  {
    NumberOfThree(s);
    SextetsOfThree(a, b, c);
  }

  lemma QuantumOf(s: seq<byte>, w: nat, x: nat, y: nat, z: nat)
    requires SextetsAre(s, w, x, y, z)
    ensures w < 64 && x < 64 && y < 64 && z < 64 && Quantum(s) == [Letter(w), Letter(x), Letter(y), Letter(z)]
    ensures |s| == 1 ==> LastQuantum(s) == [Letter(w), Letter(x), '=', '=']
    ensures |s| == 2 ==> LastQuantum(s) == [Letter(w), Letter(x), Letter(y), '=']
    ensures |s| == 3 ==> LastQuantum(s) == Quantum(s)
  {
  }

  lemma EncodeOf(s: seq<byte>)
    ensures |s| >= 3 ==> Encode(s) == (if |s| == 3 then LastQuantum(s) else Quantum(s)) + Encode(s[3..])
    ensures 1 <= |s| <= 2 ==> Encode(s) == LastQuantum(s)
  {
    if |s| == 3 {
      assert LastQuantum(s) + [] == LastQuantum(s);
    }
  }

  /** Three bytes are four letters of six bits each, the highest first. */
  lemma ThreeBytes(s: seq<byte>, a: nat, b: nat, c: nat, w: nat, x: nat, y: nat, z: nat)
    requires |s| >= 3 && a == s[0] as nat && b == s[1] as nat && c == s[2] as nat
    requires w == a / 4 && x == a % 4 * 16 + b / 16 && y == b % 16 * 4 + c / 64 && z == c % 64
    ensures w < 64 && x < 64 && y < 64 && z < 64
    ensures Encode(s) == [Letter(w), Letter(x), Letter(y), Letter(z)] + Encode(s[3..])
  {
    SextetsOfBytes(s, a, b, c);
    QuantumOf(s, w, x, y, z);
    EncodeOf(s);
  }

  /** Two bytes that are left are three letters and a padding sign. */
  lemma TwoBytes(s: seq<byte>, a: nat, b: nat)
    requires |s| == 2 && a == s[0] as nat && b == s[1] as nat
    ensures Encode(s) == [Letter(a / 4), Letter(a % 4 * 16 + b / 16), Letter(b % 16 * 4), '=']
  {
    SextetsOfBytes(s, a, b, 0);
    QuantumOf(s, a / 4, a % 4 * 16 + b / 16, b % 16 * 4 + 0 / 64, 0 % 64);
    EncodeOf(s);
  }

  /** One byte that is left is two letters and two padding signs. */
  lemma OneByte(s: seq<byte>, a: nat)
    requires |s| == 1 && a == s[0] as nat
    ensures Encode(s) == [Letter(a / 4), Letter(a % 4 * 16), '=', '=']
  {
    SextetsOfBytes(s, a, 0, 0);
    QuantumOf(s, a / 4, a % 4 * 16 + 0 / 16, 0 % 16 * 4 + 0 / 64, 0 % 64);
    EncodeOf(s);
  }

  /** A text whose length is no multiple of four decodes to nothing. */
  lemma OddLengthsDecodeToNothing(t: string)
    requires |t| % 4 != 0
    ensures Decode(t) == []
  {
  }
}
