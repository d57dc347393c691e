/**
 What chunks look like byte by byte, and what is made of bytes that no writer has written.
 */
module WireImages {
  import opened WireValues
  import opened WireMessage
  import opened WireFraming

  // ----- items as bytes -----

  predicate AllBits(items: seq<Item>) {
    forall i | 0 <= i < |items| :: items[i].Bit?
  }

  predicate PackedAt(body: seq<byte>, k: nat, on: bool) {
    k / 8 < |body| && HasBit(body[k / 8], (k % 8) as byte) == on
  }

  /** How many booleans a writer has written, if it has written nothing else. */
  function Written(o: Out): nat {
    8 * |o.body| + o.count as nat
  }

  lemma WrittenNext(o: Out, b: bool)
    requires o.count < 8
    ensures Written(WriteBit(o, b)) == Written(o) + 1 && WriteBit(o, b).count < 8
    ensures Written(o) / 8 == |o.body| && (Written(o) % 8) as byte == o.count
  {
    var n: nat := o.count as nat;
    assert n as byte == o.count;
    assert (8 * |o.body| + n) / 8 == |o.body| && (8 * |o.body| + n) % 8 == n;
  }

  lemma FirstPacked(body: seq<byte>, o: Out, b: bool)
    requires o.count < 8 && Keeps(body, WriteBit(o, b))
    ensures PackedAt(body, Written(o), b)
  {
    var bits := PutBit(o.bits, o.count, b);
    WrittenNext(o, b);
    PutBitHas(o.bits, o.count, b, o.count);
    if o.count == 7 {
      assert body[..|o.body| + 1][|o.body|] == bits;
    } else {
      assert o.count < o.count + 1;
    }
  }

  lemma {:induction false} PackedFrom(o: Out, items: seq<Item>, k: nat)
    requires o.count < 8 && AllBits(items) && k < |items|
    ensures PackedAt(Flush(WriteAll(o, items)).body, Written(o) + k, items[k].on)
    decreases |items|
  {
    WrittenNext(o, items[0].on);
    if k == 0 {
      FinishedKeeps(Write(o, items[0]), items[1..]);
      FirstPacked(Flush(WriteAll(o, items)).body, o, items[0].on);
    } else {
      PackedFrom(Write(o, items[0]), items[1..], k - 1);
    }
  }

  lemma {:induction false} PackedSize(o: Out, items: seq<Item>)
    requires o.count < 8 && AllBits(items)
    ensures |Flush(WriteAll(o, items)).body| == (Written(o) + |items| + 7) / 8
    decreases |items|
  {
    if items != [] {
      WrittenNext(o, items[0].on);
      PackedSize(Write(o, items[0]), items[1..]);
    }
  }

  /** A finished chunk of booleans has boolean `k` at bit `k % 8`, from the lowest, of byte `k / 8`. */
  lemma BooleansPacked(items: seq<Item>, k: nat)
    requires AllBits(items) && k < |items|
    ensures AllWritable(items) && |Body(items)| == (|items| + 7) / 8
    ensures PackedAt(Body(items), k, items[k].on)
  {
    PackedFrom(OPEN, items, k);
    PackedSize(OPEN, items);
  }

  lemma OneItem(item: Item)
    requires Writable(item) && !item.Bit?
    ensures Body([item]) == ItemBytes(item)
  {
    assert WriteAll(Write(OPEN, item), [item][1..]) == Write(OPEN, item);
    assert [] + ItemBytes(item) == ItemBytes(item);
  }

  /** Numbers come with the least significant byte first, in two's complement. */
  lemma NumberImage(width: nat, signed: bool, value: int)
    requires Writable(Number(width, signed, value))
    ensures var s := Body([Number(width, signed, value)]);
      |s| == width && Value(s) == if value < 0 then value + Power(width) else value
  {
    OneItem(Number(width, signed, value));
    ValueOfLittleEndian(ToWire(width, value), width);
  }

  lemma NoSize()
    ensures SizeBytes(0) == [0, 0, 0, 0]
  {
    ValueOfLittleEndian(0, 4);
    LittleEndianOfValue([0, 0, 0, 0]);
  }

  /** Texts come behind the number of their bytes, a final NUL included; the empty text is a zero. */
  lemma TextImage(text: seq<byte>)
    requires Writable(Text(text))
    ensures var s := Body([Text(text)]);
      if text == [] then s == [0, 0, 0, 0]
      else |s| == 4 + |text| + 1 && Value(s[..4]) == |text| + 1 && s[4..] == text + [0]
  {
    OneItem(Text(text));
    assert Power(4) == 0x1_0000_0000;
    if text == [] {
      NoSize();
    } else {
      ValueOfLittleEndian(|text| + 1, 4);
    }
  }

  /** Blocks come behind the number of their bytes. */
  lemma BlockImage(data: seq<byte>)
    requires Writable(Block(data))
    ensures var s := Body([Block(data)]);
      |s| == 4 + |data| && Value(s[..4]) == |data| && s[4..] == data
  {
    OneItem(Block(data));
    ValueOfLittleEndian(|data|, 4);
  }

  lemma WriteTwo(o: Out, a: Item, b: Item, rest: seq<Item>)
    requires o.count < 8 && Writable(a) && Writable(b) && AllWritable(rest)
    ensures AllWritable([a, b] + rest) && WriteAll(o, [a, b] + rest) == WriteAll(Write(Write(o, a), b), rest)
  {
    assert ([a, b] + rest)[1..] == [b] + rest && ([b] + rest)[1..] == rest;
  }

  lemma SevenAsByte()
    ensures NumberBytes(1, 7) == [7]
  {
    ByteValue(7);
  }

  lemma TwoBits(o: Out, i1: Item, i2: Item) returns (next: Out)
    requires o == OPEN && i1.Bit? && i2.Bit?
    ensures next == Write(Write(o, i1), i2)
    ensures next == Out([], (if i1.on then 1 else 0) + (if i2.on then 2 else 0), 2)
  {
    next := Write(Write(o, i1), i2);
  }

  lemma ByteBehindBits(o: Out, item: Item) returns (next: Out)
    requires o.body == [] && o.count == 2 && item == Number(1, false, 7)
    ensures next == Write(o, item) == Out([o.bits, 7], o.bits, 0)
  {
    next := Write(o, item);
    SevenAsByte();
  }

  /** A byte of booleans that is not full is closed by the next item; the next boolean begins another one. */
  lemma MixedImage(a: bool, b: bool, c: bool)
    ensures Body([Bit(a), Bit(b), Number(1, false, 7), Bit(c)]) == [
      (if a then 1 else 0) + (if b then 2 else 0), 7, (if c then 1 else 0) + (if b then 2 else 0)
    ]
  {
    var i1, i2, i3, i4 := Bit(a), Bit(b), Number(1, false, 7), Bit(c);
    WriteTwo(OPEN, i1, i2, [i3, i4]);
    WriteTwo(Write(Write(OPEN, i1), i2), i3, i4, []);
    assert [i1, i2] + [i3, i4] == [i1, i2, i3, i4] && [i3, i4] + [] == [i3, i4];
    var o2 := TwoBits(OPEN, i1, i2);
    var o3 := ByteBehindBits(o2, i3);
    assert Flush(Write(o3, i4)).body == o3.body + [PutBit(o3.bits, 0, c)];
  }

  /** A chunk starts with the number of its bytes, these four included. */
  lemma ChunkStartsWithSize(items: seq<Item>)
    requires AllWritable(items) && |Chunk(items)| < 0x1_0000_0000
    ensures |Chunk(items)| >= 4 && Value(Chunk(items)[..4]) == |Chunk(items)| && Chunk(items)[4..] == Body(items)
  {
    ValueOfLittleEndian(4 + |Body(items)|, 4);
    assert Power(4) == 0x1_0000_0000;
  }

  // ----- bytes nobody has written -----

  /** Behind the bytes that are there, and behind the end of a chunk, reading fails and gives nothing. */
  lemma ReadingBehindFails(r: In, width: nat, signed: bool)
    requires !r.open || r.offset + width > |r.data|
    ensures var (v, next) := ReadNumber(r, width, signed);
      (width > 0 ==> v == 0) && next.failed && next.offset == r.offset && next.open == r.open
  {
  }

  /** A chunk that was closed gives no booleans either, whatever was left of its last byte of them. */
  lemma ClosedGivesNothing(r: In)
    requires r.count <= 8
    ensures ReadBit(Close(r)).1.failed && !ReadBit(Close(r)).0 && ReadByte(Close(r)).1.failed
  {
    assert !HasBit(0, 0);
  }

  /** A text of negative size fails; one of size 0 is empty. */
  lemma TextOfNoSize(r: In, v: int)
    requires v == ReadNumber(r, 4, true).0 && v <= 0
    ensures ReadText(r).0 == [] && (v < 0 ==> ReadText(r).1.failed)
    ensures v == 0 ==> ReadText(r).1 == ReadNumber(r, 4, true).1
  {
  }

  /** A block of another size than asked for fails, and is not read. */
  lemma BlockOfOtherSize(r: In, size: nat)
    requires ReadNumber(r, 4, false).0 != size
    ensures ReadBlock(r, size).0 == [] && ReadBlock(r, size).1.failed
    ensures ReadBlock(r, size).1.offset == ReadNumber(r, 4, false).1.offset
  {
  }

  /** The first four bytes decide: sizes below four or above the limit are refused, others awaited. */
  lemma LookBySize(s: seq<byte>, limit: nat)
    requires |s| >= 4
    ensures var size := s[0] as nat + 0x100 * s[1] as nat + 0x1_0000 * s[2] as nat + 0x100_0000 * s[3] as nat;
      && (Look(s, limit) == OutOfLimit <==> size < 4 || (limit != 0 && size > limit))
      && (Look(s, limit) == Waiting <==> 4 <= size && (limit == 0 || size <= limit) && |s| < size)
      && (Look(s, limit).Parsed? ==> Look(s, limit).size == size)
  {
    ValueOfFour(s[..4]);
  }

  /** A buffer is enlarged only for a chunk that it cannot hold, and then it can hold it behind what it has. */
  lemma EnlargedForChunk(b: Buffer, limit: nat)
    requires Valid(b)
    ensures var s := b.data[b.parsed..];
      var grows := |s| >= 4 && b.capacity < Value(s[..4]) < limit;
      && (!grows ==> Enlarged(b, limit) == b)
      && (grows ==> Enlarged(b, limit).capacity >= |b.data| + Value(s[..4]))
  {
  }
}
