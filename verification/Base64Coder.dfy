/**
 The encoder and the decoder of base64, filling buffers.
 */
module Base64Coder {
  import opened WireValues
  import opened Base64

  /** Shifting by a multiple of six bits at once, or six bits at a time. */
  lemma SextetsByShift(n: nat)
    ensures SextetOf(n, 3) == n / 262144 % 64 && SextetOf(n, 2) == n / 4096 % 64
    ensures SextetOf(n, 1) == n / 64 % 64 && SextetOf(n, 0) == n % 64
  {
    var x := n / 64;
    var y := x / 64;
    var a := y / 64;
    assert n / 4096 == y by {
      assert n == 4096 * y + (64 * (x % 64) + n % 64);
    }
    assert n / 262144 == a by {
      assert n == 262144 * a + (4096 * (y % 64) + 64 * (x % 64) + n % 64);
    }
    assert SextetOf(a, 0) == a % 64 && SextetOf(y, 1) == a % 64 && SextetOf(x, 2) == a % 64;
    assert SextetOf(y, 0) == y % 64 && SextetOf(x, 1) == y % 64;
    assert SextetOf(x, 0) == x % 64;
  }

  lemma OctetsByShift(n: nat)
    ensures OctetOf(n, 2) == n / 65536 % 256 && OctetOf(n, 1) == n / 256 % 256 && OctetOf(n, 0) == n % 256
  {
    var x := n / 256;
    var a := x / 256;
    assert n / 65536 == a by {
      assert n == 65536 * a + (256 * (x % 256) + n % 256);
    }
    assert OctetOf(a, 0) == a % 256 && OctetOf(x, 1) == a % 256;
    assert OctetOf(x, 0) == x % 256;
  }

  /** Writes the four letters of a group. */
  method PutQuantum(buffer: array<char>, p: nat, triple: nat, ghost s: seq<byte>)
    requires p + 4 <= buffer.Length && triple == Number(s, 3)
    modifies buffer
    ensures buffer[..p + 4] == old(buffer[..p]) + Quantum(s) && buffer[p + 4..] == old(buffer[p + 4..])
  {
    SextetsByShift(triple);
    buffer[p] := Letter(triple / 262144 % 64);
    buffer[p + 1] := Letter(triple / 4096 % 64);
    buffer[p + 2] := Letter(triple / 64 % 64);
    buffer[p + 3] := Letter(triple % 64);
    var q := Quantum(s);
    assert buffer[p] == q[0] && buffer[p + 1] == q[1] && buffer[p + 2] == q[2] && buffer[p + 3] == q[3];
    assert buffer[..p] == old(buffer[..p]) && buffer[p..p + 4] == q;
  }

  lemma EncodeStep(before: string, s: seq<byte>, all: string)
    requires |s| > 3 && before + Encode(s) == all
    ensures (before + Quantum(s)) + Encode(s[3..]) == all
  {
  }

  /** `text` ends with the letters of the last group, and encodes `all` once the letters without a byte are replaced. */
  ghost predicate LastWritten(text: string, s: seq<byte>, all: string) {
    && 0 < |s| <= 3 && |text| >= 4 && text[|text| - 4..] == Quantum(s)
    && text[..|text| - 4] + Encode(s) == all
  }

  lemma PaddedText(text: string, s: seq<byte>, all: string, padded: string)
    requires LastWritten(text, s, all) && |padded| == |text|
    requires forall j | 0 <= j < |text| :: padded[j] == if j >= |text| - (3 - |s|) then '=' else text[j]
    ensures padded == all
  {
    var n := |text| - 4;
    assert padded[..n] == text[..n];
    assert padded[n..] == LastQuantum(s) by {
      forall k | 0 <= k < 4
        ensures padded[n..][k] == LastQuantum(s)[k]
      {
        assert text[n + k] == text[n..][k] == Quantum(s)[k];
      }
    }
    assert padded == padded[..n] + padded[n..];
  }

  /** What the encoder has done when `rest` is still to be encoded. */
  ghost predicate Encoding(text: string, rest: seq<byte>, last: seq<byte>, all: string) {
    if rest == [] && last != [] then LastWritten(text, last, all) else text + Encode(rest) == all
  }

  lemma EncodingNext(text: string, rest: seq<byte>, all: string)
    requires rest != [] && text + Encode(rest) == all
    ensures var n := if |rest| < 3 then |rest| else 3;
      Encoding(text + Quantum(rest), rest[n..], if |rest| <= 3 then rest else [], all)
  {
    var next := text + Quantum(rest);
    if |rest| > 3 {
      EncodeStep(text, rest, all);
    } else {
      assert next[..|next| - 4] == text && next[|next| - 4..] == Quantum(rest);
    }
  }

  /** The next byte as a number, zero past the end. */
  method NextOctet(data: seq<byte>, i: nat) returns (octet: nat, next: nat)
    requires i <= |data|
    ensures octet == At(data[i..], 0) && next == if i < |data| then i + 1 else i
  {
    octet, next := 0, i;
    if i < |data| {
      octet, next := data[i] as nat, i + 1;
    }
  }

  /** The next group of up to three bytes, as a number. */
  method NextTriple(data: seq<byte>, i: nat) returns (triple: nat, next: nat)
    requires i < |data|
    ensures triple == Number(data[i..], 3) && i < next <= |data| && next == if i + 3 <= |data| then i + 3 else |data|
  {
    var a, b, c;
    a, next := NextOctet(data, i);
    b, next := NextOctet(data, next);
    c, next := NextOctet(data, next);
    triple := a * 65536 + b * 256 + c;
    NumberOfThree(data[i..]);
  }

  /** The size of the last group. */
  function Last(n: nat): (k: nat)
    ensures k <= n && k <= 3
  {
    if n == 0 then 0 else (n - 1) % 3 + 1
  }

  /** The bytes of the last group, once all are encoded. */
  function LastAt(data: seq<byte>, i: nat): seq<byte> {
    if i == |data| then data[|data| - Last(|data|)..] else []
  }

  lemma NextRest(data: seq<byte>, i: nat, next: nat)
    requires i < |data| && i % 3 == 0 && next == if i + 3 <= |data| then i + 3 else |data|
    ensures var rest := data[i..];
      && data[next..] == rest[if |rest| < 3 then |rest| else 3..]
      && LastAt(data, next) == (if |rest| <= 3 then rest else [])
      && (next % 3 == 0 || next == |data|)
  {
  }

  lemma EncodingEnds(text: string, last: seq<byte>, all: string)
    requires Encoding(text, [], last, all)
    ensures |text| == |all|
  {
  }

  /** The letters of all groups, the last one filled with letters of zeros. */
  method PutLetters(data: seq<byte>, buffer: array<char>) returns (p: nat)
    requires |Encode(data)| <= buffer.Length
    modifies buffer
    ensures p == |Encode(data)| && Encoding(buffer[..p], [], LastAt(data, |data|), Encode(data))
    ensures buffer[p..] == old(buffer[p..])
  {
    ghost var all := Encode(data);
    var i: nat := 0;
    p := 0;
    assert data[0..] == data && data[|data|..] == [];
    while i < |data|
      invariant i <= |data| && p <= buffer.Length && (i % 3 == 0 || i == |data|)
      invariant Encoding(buffer[..p], data[i..], LastAt(data, i), all)
      invariant buffer[p..] == old(buffer[p..])
      decreases |data| - i
    {
      ghost var text, rest := buffer[..p], data[i..];
      EncodedLength(rest);
      EncodingNext(text, rest, all);
      var triple, next := NextTriple(data, i);
      ghost var behind := buffer[p..];
      PutQuantum(buffer, p, triple, rest);
      assert buffer[p + 4..] == behind[4..] == old(buffer[p..])[4..] == old(buffer[p + 4..]);
      NextRest(data, i, next);
      p := p + 4;
      i := next;
    }
    EncodingEnds(buffer[..p], LastAt(data, |data|), all);
  }

  /** How many letters at the end are replaced by '='. */
  function ModTable(k: nat): nat {
    if k == 0 then 0 else if k == 1 then 2 else 1
  }

  lemma PaddingOfLast(data: seq<byte>)
    requires data != []
    ensures ModTable(|data| % 3) == 3 - Last(|data|) && |LastAt(data, |data|)| == Last(|data|) > 0
  {
  }

  lemma LettersForPadding(data: seq<byte>)
    ensures ModTable(|data| % 3) <= |Encode(data)|
  {
    if data != [] {
      assert |Encode(data)| >= 4;
    }
  }

  /** Replaces the last `pad` letters before `p`. */
  method PadLetters(buffer: array<char>, p: nat, pad: nat)
    requires pad <= p <= buffer.Length
    modifies buffer
    ensures forall j | 0 <= j < p :: buffer[j] == if j >= p - pad then '=' else old(buffer[j])
    ensures buffer[p..] == old(buffer[p..])
  {
    for i := 1 to pad + 1
      invariant forall j | 0 <= j < p :: buffer[j] == if j > p - i then '=' else old(buffer[j])
      invariant buffer[p..] == old(buffer[p..])
    {
      buffer[p - i] := '=';
    }
  }

  lemma Padded(data: seq<byte>, text: string, padded: string)
    requires data != [] && Encoding(text, [], LastAt(data, |data|), Encode(data)) && |padded| == |text|
    requires forall j | 0 <= j < |text| :: padded[j] == if j >= |text| - ModTable(|data| % 3) then '=' else text[j]
    ensures padded == Encode(data)
  {
    PaddingOfLast(data);
    PaddedText(text, LastAt(data, |data|), Encode(data), padded);
  }

  /** Fills the buffer with the encoding of the bytes, and a NUL. */
  method EncodeInto(data: seq<byte>, buffer: array<char>) returns (p: nat)
    requires |Encode(data)| < buffer.Length
    modifies buffer
    ensures p < buffer.Length && buffer[..p] == Encode(data) && buffer[p] == '\0'
    ensures buffer[p + 1..] == old(buffer[p + 1..])
  {
    p := PutLetters(data, buffer);
    ghost var text := buffer[..p];
    var pad := ModTable(|data| % 3);
    LettersForPadding(data);
    PadLetters(buffer, p, pad);
    if data != [] {
      Padded(data, text, buffer[..p]);
    }
    assert buffer[p..][1..] == buffer[p + 1..] && old(buffer[p..])[1..] == old(buffer[p + 1..]);
    buffer[p] := '\0';
  }

  // ----- decoding -----

  /** The decoder's table: what each character of one byte stands for. */
  method DecodingTable() returns (table: array<nat>)
    ensures fresh(table) && table.Length == 256
    ensures forall c | 0 <= c < 256 :: table[c] == Sextet(c as char)
  {
    table := new nat[256](c => 0);
    table[0] := 1;
    for i := 0 to 64
      invariant forall c | 0 <= c < 256 ::
        table[c] == if IsLetter(c as char) && Index(c as char) < i then Index(c as char) else if c == 0 then 1 else 0
    {
      LetterIndex(i);
      forall c: char | IsLetter(c) && Index(c) == i
        ensures c == Letter(i)
      {
        IndexLetter(c);
      }
      table[Letter(i) as nat] := i;
    }
    table['=' as nat] := 0;
  }

  predicate IsText(text: string) {
    forall i | 0 <= i < |text| :: text[i] as nat < 128
  }

  /** The four letters, each at its place. */
  lemma TextNumberByPlaces(t: string)
    requires |t| >= 4
    ensures TextNumber(t, 4) ==
      Sextet(t[0]) * 262144 + Sextet(t[1]) * 4096 + Sextet(t[2]) * 64 + Sextet(t[3])
  {
    TextNumberOfFour(t);
  }

  /** Writes the three bytes of a group. */
  method PutGroup(buffer: array<byte>, p: nat, triple: nat, ghost t: string)
    requires p + 3 <= buffer.Length && |t| >= 4 && triple == TextNumber(t, 4)
    modifies buffer
    ensures buffer[..p + 3] == old(buffer[..p]) + GroupBytes(t)
  {
    OctetsByShift(triple);
    BytesByOctets(triple);
    buffer[p] := Byte(triple / 65536);
    buffer[p + 1] := Byte(triple / 256);
    buffer[p + 2] := Byte(triple);
    var g := GroupBytes(t);
    assert buffer[p] == g[0] && buffer[p + 1] == g[1] && buffer[p + 2] == g[2];
    assert buffer[..p] == old(buffer[..p]) && buffer[p..p + 3] == g;
  }

  lemma RemainderTwice(n: nat)
    ensures n % 256 % 256 == n % 256
  {
  }

  lemma BytesByOctets(n: nat)
    ensures Byte(OctetOf(n, 2)) == Byte(n / 65536) && Byte(OctetOf(n, 1)) == Byte(n / 256) &&
      Byte(OctetOf(n, 0)) == Byte(n)
  {
    OctetsByShift(n);
    RemainderTwice(n / 65536);
    RemainderTwice(n / 256);
    RemainderTwice(n);
  }

  lemma BytesNext(before: seq<byte>, t: string, all: seq<byte>)
    requires |t| >= 4 && before + Bytes(t) == all
    ensures (before + GroupBytes(t)) + Bytes(t[4..]) == all
  {
  }

  /** Decodes the four letters at `i`. */
  method PutNext(text: string, i: nat, buffer: array<byte>, p: nat, table: array<nat>)
    requires IsText(text) && i + 4 <= |text| && p + 3 <= buffer.Length && table.Length == 256
    requires forall c | 0 <= c < 256 :: table[c] == Sextet(c as char)
    modifies buffer
    ensures buffer[..p + 3] == old(buffer[..p]) + GroupBytes(text[i..])
  {
    ghost var t := text[i..];
    assert t[0] == text[i] && t[1] == text[i + 1] && t[2] == text[i + 2] && t[3] == text[i + 3];
    TextNumberByPlaces(t);
    var a, b, c, d := table[text[i] as nat], table[text[i + 1] as nat], table[text[i + 2] as nat],
      table[text[i + 3] as nat];
    assert a == Sextet(t[0]) && b == Sextet(t[1]) && c == Sextet(t[2]) && d == Sextet(t[3]);
    PutGroup(buffer, p, a * 262144 + b * 4096 + c * 64 + d, t);
  }

  lemma RoomForGroup(text: string, i: nat, before: seq<byte>)
    requires i < |text| && i % 4 == 0 && |text| % 4 == 0 && before + Bytes(text[i..]) == Bytes(text)
    ensures i + 4 <= |text| && |before| + 3 <= |Bytes(text)|
    ensures (before + GroupBytes(text[i..])) + Bytes(text[i + 4..]) == Bytes(text)
  {
    BytesNext(before, text[i..], Bytes(text));
    assert text[i..][4..] == text[i + 4..];
  }

  method PutBytes(text: string, buffer: array<byte>) returns (p: nat)
    requires IsText(text) && |text| % 4 == 0 && |Bytes(text)| <= buffer.Length
    modifies buffer
    ensures p == |Bytes(text)| && buffer[..p] == Bytes(text)
  {
    var table := DecodingTable();
    var i: nat := 0;
    p := 0;
    assert text[0..] == text && Bytes(text[|text|..]) == [];
    while i < |text|
      invariant i <= |text| && i % 4 == 0 && p <= buffer.Length
      invariant forall c | 0 <= c < 256 :: table[c] == Sextet(c as char)
      invariant buffer[..p] + Bytes(text[i..]) == Bytes(text)
    {
      RoomForGroup(text, i, buffer[..p]);
      PutNext(text, i, buffer, p, table);
      i, p := i + 4, p + 3;
    }
  }

  /** Decodes a text into the buffer; nothing comes of one whose length is no multiple of four. */
  method DecodeInto(text: string, buffer: array<byte>) returns (n: nat)
    requires IsText(text) && text != "" && |text| / 4 * 3 <= buffer.Length
    modifies buffer
    ensures n <= buffer.Length && buffer[..n] == Decode(text)
  {
    if |text| % 4 != 0 {
      return 0;
    }
    BytesLength(text);
    var p := PutBytes(text, buffer);
    n := |text| / 4 * 3;
    if text[|text| - 1] == '=' {
      n := n - 1;
    }
    if text[|text| - 2] == '=' {
      n := n - 1;
    }
    assert buffer[..n] == buffer[..p][..n];
  }
}
