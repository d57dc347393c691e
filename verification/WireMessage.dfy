/**
 Writing typed values into a chunk and reading them back.

 Booleans are packed into bytes; every other value first closes the byte of booleans being filled.
 The reader keeps its own place in a byte of booleans, and closes the chunk when it reaches its end.
 */
module WireMessage {
  import opened Sequences
  import opened WireValues

  datatype Item =
    | Bit(on: bool)
    | Number(width: nat, signed: bool, value: int)
    | Text(text: seq<byte>)
    | Block(data: seq<byte>)

  /** What a reader asks for: the kind of an item, and the size of a block. */
  datatype Kind = BitKind | NumberKind(width: nat, signed: bool) | TextKind | BlockKind(size: nat)

  predicate IsWidth(width: nat) {
    width == 1 || width == 2 || width == 4 || width == 8
  }

  /** The values the typed writers accept; lengths fit the 32-bit size in front of them. */
  predicate Writable(item: Item) {
    match item
    case Bit(on) => true
    case Number(width, signed, value) => IsWidth(width) && InRange(width, signed, value)
    case Text(text) => 0 !in text && InRange(4, true, |text| + 1)
    case Block(data) => InRange(4, false, |data|)
  }

  function KindOf(item: Item): Kind {
    match item
    case Bit(on) => BitKind
    case Number(width, signed, value) => NumberKind(width, signed)
    case Text(text) => TextKind
    case Block(data) => BlockKind(|data|)
  }

  predicate AllWritable(items: seq<Item>) {
    forall i | 0 <= i < |items| :: Writable(items[i])
  }

  function Kinds(items: seq<Item>): (kinds: seq<Kind>)
    ensures |kinds| == |items|
  {
    if items == [] then [] else [KindOf(items[0])] + Kinds(items[1..])
  }

  // ----- writing -----

  /** The chunk being written, after its header, and the booleans waiting to fill a byte. */
  datatype Out = Out(body: seq<byte>, bits: byte, count: byte)

  const OPEN := Out([], 0, 0)

  function Flush(o: Out): Out {
    if o.count == 0 then o else Out(o.body + [o.bits], o.bits, 0)
  }

  function Put(o: Out, data: seq<byte>): Out {
    Out(Flush(o).body + data, o.bits, 0)
  }

  function WriteBit(o: Out, b: bool): Out
    requires o.count < 8
  {
    var next := Out(o.body, PutBit(o.bits, o.count, b), o.count + 1);
    if next.count == 8 then Flush(next) else next
  }

  function NumberBytes(width: nat, value: int): (s: seq<byte>)
    requires 0 <= value + Power(width)
    ensures |s| == width
  {
    LittleEndian(ToWire(width, value), width)
  }

  function SizeBytes(size: nat): (s: seq<byte>)
    ensures |s| == 4
  {
    LittleEndian(size, 4)
  }

  /** An item other than a boolean, as bytes. */
  function ItemBytes(item: Item): seq<byte>
    requires Writable(item) && !item.Bit?
  {
    match item
    case Number(width, signed, value) => NumberBytes(width, value)
    case Text(text) => if text == [] then SizeBytes(0) else SizeBytes(|text| + 1) + (text + [0])
    case Block(data) => SizeBytes(|data|) + data
  }

  function Write(o: Out, item: Item): (r: Out)
    requires o.count < 8 && Writable(item)
    ensures r.count < 8
  {
    if item.Bit? then WriteBit(o, item.on) else Put(o, ItemBytes(item))
  }

  function WriteAll(o: Out, items: seq<Item>): (r: Out)
    requires o.count < 8 && AllWritable(items)
    ensures r.count < 8
    decreases |items|
  {
    if items == [] then o else WriteAll(Write(o, items[0]), items[1..])
  }

  /** What a finished chunk holds after its header. */
  function Body(items: seq<Item>): seq<byte>
    requires AllWritable(items)
  {
    Flush(WriteAll(OPEN, items)).body
  }

  /** A finished chunk: its size, header included, and its contents. */
  function Chunk(items: seq<Item>): seq<byte>
    requires AllWritable(items)
  {
    SizeBytes(4 + |Body(items)|) + Body(items)
  }

  // ----- reading -----

  /**
   A reader of a chunk of `size` bytes that `data` starts with.  A closed reader has passed the end of
   its chunk; `bits` and `count` are the booleans it still holds.
   */
  datatype In = In(data: seq<byte>, size: nat, open: bool, offset: nat, bits: byte, count: byte, failed: bool)

  function Fail(r: In): In {
    r.(failed := true)
  }

  function Close(r: In): In {
    r.(open := false, offset := 0, bits := 0, count := 0)
  }

  /** The next `n` bytes, none if they are not there; reading the last byte of the chunk closes it. */
  function Take(r: In, n: nat): (t: (seq<byte>, In))
    ensures t.1.count == r.count || t.1.count == 0
  {
    if !r.open || |r.data| < r.offset + n then ([], Fail(r))
    else
      var next := r.(offset := r.offset + n);
      (r.data[r.offset..r.offset + n], if next.offset == r.size then Close(next) else next)
  }

  function ReadByte(r: In): (t: (byte, In))
    ensures t.1.count == 0
  {
    var (s, next) := Take(r.(count := 0), 1);
    (if |s| == 1 then s[0] else 0, next)
  }

  function ReadBit(r: In): (t: (bool, In))
    requires r.count <= 8
    ensures t.1.count <= 8
  {
    if r.count == 0 then
      var (b, next) := ReadByte(r);
      (HasBit(b, 0), next.(bits := b, count := 7))
    else
      (HasBit(r.bits, 8 - r.count), r.(count := r.count - 1))
  }

  function ReadNumber(r: In, width: nat, signed: bool): (t: (int, In))
    ensures t.1.count == 0
  {
    var (s, next) := Take(r.(count := 0), width);
    (if |s| == width then FromWire(width, signed, Value(s)) else 0, next)
  }

  function UntilNul(s: seq<byte>): seq<byte> {
    if s == [] || s[0] == 0 then [] else [s[0]] + UntilNul(s[1..])
  }

  function ReadText(r: In): (t: (seq<byte>, In))
    ensures t.1.count == 0
  {
    var (size, next) := ReadNumber(r, 4, true);
    if size == 0 then ([], next)
    else if size < 0 then ([], Fail(next))
    else
      var (s, last) := Take(next, size);
      (UntilNul(s), last)
  }

  function ReadBlock(r: In, size: nat): (t: (seq<byte>, In))
    ensures t.1.count == 0
  {
    var (n, next) := ReadNumber(r, 4, false);
    if n != size then ([], Fail(next)) else Take(next, size)
  }

  function Read(r: In, kind: Kind): (t: (Item, In))
    requires r.count <= 8
    ensures t.1.count <= 8
  {
    match kind
    case BitKind =>
      var (b, next) := ReadBit(r);
      (Bit(b), next)
    case NumberKind(width, signed) =>
      var (v, next) := ReadNumber(r, width, signed);
      (Number(width, signed, v), next)
    case TextKind =>
      var (s, next) := ReadText(r);
      (Text(s), next)
    case BlockKind(size) =>
      var (s, next) := ReadBlock(r, size);
      (Block(s), next)
  }

  function ReadAll(r: In, kinds: seq<Kind>): (seq<Item>, In)
    requires r.count <= 8
    decreases |kinds|
  {
    if kinds == [] then ([], r)
    else
      var (item, next) := Read(r, kinds[0]);
      var (items, last) := ReadAll(next, kinds[1..]);
      ([item] + items, last)
  }

  /** Where a reader starts when a chunk has just been parsed; `count` booleans of the last chunk may be left over. */
  function Start(chunk: seq<byte>, after: seq<byte>, bits: byte, count: byte): In {
    In(chunk + after, |chunk|, true, 4, bits, count, false)
  }

  // ----- what is written stays written -----

  ghost predicate Agree(t: byte, u: byte, n: byte) {
    forall m: byte | m < n && m < 8 :: HasBit(t, m) == HasBit(u, m)
  }

  lemma PutBitAgrees(t: byte, u: byte, n: byte, b: bool)
    requires n < 8 && Agree(PutBit(t, n, b), u, n + 1)
    ensures Agree(t, u, n) && HasBit(u, n) == b
  {
    forall m: byte | m < n && m < 8
      ensures HasBit(t, m) == HasBit(u, m)
    {
      PutBitHas(t, n, b, m);
      assert m < n + 1;
    }
    PutBitHas(t, n, b, n);
    assert n < n + 1;
  }

  /** The finished body keeps what `o` has written and the booleans it holds. */
  ghost predicate Keeps(body: seq<byte>, o: Out) {
    && |o.body| <= |body| && body[..|o.body|] == o.body
    && (o.count > 0 ==> |o.body| < |body| && Agree(o.bits, body[|o.body|], o.count))
  }

  lemma KeepsFlushed(body: seq<byte>, o: Out)
    requires Keeps(body, Flush(o)) && o.count <= 8
    ensures Keeps(body, o)
  {
    if o.count > 0 {
      assert body[..|o.body| + 1][..|o.body|] == o.body;
      assert body[|o.body|] == body[..|o.body| + 1][|o.body|] == o.bits;
    }
  }

  lemma KeepsBefore(body: seq<byte>, o: Out, item: Item)
    requires o.count < 8 && Writable(item) && Keeps(body, Write(o, item))
    ensures Keeps(body, o)
  {
    if item.Bit? {
      var next := Out(o.body, PutBit(o.bits, o.count, item.on), o.count + 1);
      if next.count == 8 {
        KeepsFlushed(body, next);
      }
      PutBitAgrees(o.bits, body[|o.body|], o.count, item.on);
    } else {
      var n := |Flush(o).body|;
      assert body[..n] == Write(o, item).body[..n] == Flush(o).body;
      KeepsFlushed(body, o);
    }
  }

  lemma {:induction false} FinishedKeeps(o: Out, items: seq<Item>)
    requires o.count < 8 && AllWritable(items)
    ensures Keeps(Flush(WriteAll(o, items)).body, o)
    decreases |items|
  {
    var body := Flush(WriteAll(o, items)).body;
    if items == [] {
      KeepsFlushed(body, o);
    } else {
      FinishedKeeps(Write(o, items[0]), items[1..]);
      KeepsBefore(body, o, items[0]);
    }
  }

  // ----- reading follows writing -----

  function Place(o: Out): nat {
    |o.body| + if o.count == 0 then 0 else 1
  }

  /** The reader of a finished chunk is where the writer was when it was in state `o`. */
  ghost predicate At(r: In, o: Out, body: seq<byte>) {
    && r.size == 4 + |body| && r.size <= |r.data| && r.data[4..r.size] == body
    && (if r.open then r.offset == 4 + Place(o) && Place(o) < |body| else Place(o) == |body|)
    && o.count < 8
    && (if o.count == 0 then r.count == 0 else r.count == 8 - o.count && Place(o) <= |body| && r.bits == body[|o.body|])
  }

  lemma TakeAt(r: In, o: Out, body: seq<byte>, data: seq<byte>)
    requires At(r, o, body) && Keeps(body, Put(o, data)) && data != []
    ensures var (s, next) := Take(r.(count := 0), |data|);
      s == data && At(next, Put(o, data), body) && next.failed == r.failed
  {
    var n, m := Place(o), Place(o) + |data|;
    assert |Flush(o).body| == n && m == |Put(o, data).body| <= |body|;
    assert body[n..m] == data by {
      Within(body, 0, m, n, m);
    }
    Within(r.data, 4, r.size, n, m);
  }

  /** Nothing is read from a closed chunk, not even an empty block. */
  lemma TakeNoneAt(r: In, o: Out, body: seq<byte>)
    requires At(r, o, body) && o.count == 0
    ensures var (s, next) := Take(r.(count := 0), 0);
      s == [] && At(next, o, body) && next.failed == (r.failed || |o.body| == |body|)
  {
  }

  lemma ReadBitAt(r: In, o: Out, body: seq<byte>, b: bool)
    requires At(r, o, body) && Keeps(body, WriteBit(o, b))
    ensures var (read, next) := ReadBit(r);
      read == b && At(next, WriteBit(o, b), body) && next.failed == r.failed
  {
    var next := Out(o.body, PutBit(o.bits, o.count, b), o.count + 1);
    if next.count == 8 {
      KeepsFlushed(body, next);
    }
    PutBitAgrees(o.bits, body[|o.body|], o.count, b);
    if o.count == 0 {
      Within(r.data, 4, r.size, |o.body|, |o.body| + 1);
    }
  }

  lemma ReadNumberAt(r: In, o: Out, body: seq<byte>, width: nat, signed: bool, v: int)
    requires At(r, o, body) && width > 0 && InRange(width, signed, v) && Keeps(body, Put(o, NumberBytes(width, v)))
    ensures var (read, next) := ReadNumber(r, width, signed);
      read == v && At(next, Put(o, NumberBytes(width, v)), body) && next.failed == r.failed
  {
    TakeAt(r, o, body, NumberBytes(width, v));
    WireRoundTrip(width, signed, v);
  }

  /** A number followed by more bytes may be read on its own first. */
  lemma KeepsFirst(body: seq<byte>, o: Out, a: seq<byte>, b: seq<byte>)
    requires Keeps(body, Put(o, a + b))
    ensures Keeps(body, Put(o, a)) && Put(Put(o, a), b) == Put(o, a + b)
  {
    assert (Flush(o).body + a) + b == Flush(o).body + (a + b);
    var n := |Flush(o).body| + |a|;
    Within(body, 0, |Put(o, a + b).body|, 0, n);
  }

  lemma {:induction false} UntilNulOfText(text: seq<byte>)
    requires 0 !in text
    ensures UntilNul(text + [0]) == text
  {
    if text != [] {
      assert (text + [0])[1..] == text[1..] + [0];
      UntilNulOfText(text[1..]);
    }
  }

  lemma ReadTextAt(r: In, o: Out, body: seq<byte>, text: seq<byte>)
    requires At(r, o, body) && Writable(Text(text)) && Keeps(body, Put(o, ItemBytes(Text(text))))
    ensures var (read, next) := ReadText(r);
      read == text && At(next, Put(o, ItemBytes(Text(text))), body) && next.failed == r.failed
  {
    if text == [] {
      ReadNumberAt(r, o, body, 4, true, 0);
    } else {
      var size := |text| + 1;
      KeepsFirst(body, o, NumberBytes(4, size), text + [0]);
      ReadNumberAt(r, o, body, 4, true, size);
      var next := ReadNumber(r, 4, true).1;
      TakeAt(next, Put(o, NumberBytes(4, size)), body, text + [0]);
      UntilNulOfText(text);
    }
  }

  /** An empty block cannot be read where the chunk ends with its size. */
  lemma ReadBlockAt(r: In, o: Out, body: seq<byte>, data: seq<byte>)
    requires At(r, o, body) && Writable(Block(data)) && Keeps(body, Put(o, ItemBytes(Block(data))))
    ensures var (read, next) := ReadBlock(r, |data|);
      var after := Put(o, ItemBytes(Block(data)));
      read == data && At(next, after, body) && next.failed == (r.failed || (data == [] && |after.body| == |body|))
  {
    var size := |data|;
    KeepsFirst(body, o, NumberBytes(4, size), data);
    ReadNumberAt(r, o, body, 4, false, size);
    var next := ReadNumber(r, 4, false).1;
    if data == [] {
      TakeNoneAt(next, Put(o, NumberBytes(4, size)), body);
      assert SizeBytes(0) + data == SizeBytes(0);
    } else {
      TakeAt(next, Put(o, NumberBytes(4, size)), body, data);
    }
  }

  predicate FailsAt(item: Item, after: Out, body: seq<byte>) {
    item == Block([]) && |after.body| == |body|
  }

  lemma ReadAt(r: In, o: Out, body: seq<byte>, item: Item)
    requires At(r, o, body) && Writable(item) && Keeps(body, Write(o, item))
    ensures var (read, next) := Read(r, KindOf(item));
      read == item && At(next, Write(o, item), body) && next.failed == (r.failed || FailsAt(item, Write(o, item), body))
  {
    match item
    case Bit(on) => ReadBitAt(r, o, body, on);
    case Number(width, signed, value) => ReadNumberAt(r, o, body, width, signed, value);
    case Text(text) => ReadTextAt(r, o, body, text);
    case Block(data) => ReadBlockAt(r, o, body, data);
  }

  predicate EndsEmpty(items: seq<Item>) {
    items != [] && items[|items| - 1] == Block([])
  }

  /** Whatever is still written takes up room. */
  lemma MoreFollows(o: Out, items: seq<Item>)
    requires o.count < 8 && AllWritable(items)
    ensures var body := Flush(WriteAll(o, items)).body;
      Keeps(body, o) && (o.count == 0 && items != [] ==> |o.body| < |body|)
  {
    FinishedKeeps(o, items);
    if items != [] {
      FinishedKeeps(Write(o, items[0]), items[1..]);
    }
  }

  lemma FailureIsAtEnd(o: Out, items: seq<Item>)
    requires o.count < 8 && AllWritable(items) && items != []
    ensures var after := Write(o, items[0]);
      (FailsAt(items[0], after, Flush(WriteAll(o, items)).body) || EndsEmpty(items[1..])) == EndsEmpty(items)
  {
    MoreFollows(Write(o, items[0]), items[1..]);
  }

  lemma ReadAllStep(r: In, items: seq<Item>)
    requires r.count <= 8 && items != []
    ensures var (item, next) := Read(r, KindOf(items[0]));
      var (others, last) := ReadAll(next, Kinds(items[1..]));
      ReadAll(r, Kinds(items)) == ([item] + others, last)
  {
    assert Kinds(items)[1..] == Kinds(items[1..]);
  }

  lemma ReadFirstAt(r: In, o: Out, items: seq<Item>, body: seq<byte>)
    requires o.count < 8 && r.count <= 8 && AllWritable(items) && items != []
    requires body == Flush(WriteAll(o, items)).body && At(r, o, body)
    ensures var (item, next) := Read(r, KindOf(items[0]));
      && item == items[0] && At(next, Write(o, items[0]), body)
      && body == Flush(WriteAll(Write(o, items[0]), items[1..])).body
      && (next.failed || EndsEmpty(items[1..])) == (r.failed || EndsEmpty(items))
  {
    FinishedKeeps(Write(o, items[0]), items[1..]);
    ReadAt(r, o, body, items[0]);
    FailureIsAtEnd(o, items);
  }

  lemma {:induction false} ReadAllAt(r: In, o: Out, items: seq<Item>, body: seq<byte>)
    requires o.count < 8 && r.count <= 8 && AllWritable(items)
    requires body == Flush(WriteAll(o, items)).body && At(r, o, body)
    ensures var (read, last) := ReadAll(r, Kinds(items));
      && read == items && last.failed == (r.failed || EndsEmpty(items))
      && At(last, WriteAll(o, items), body)
    decreases |items|
  {
    if items != [] {
      ReadFirstAt(r, o, items, body);
      ReadAllAt(Read(r, KindOf(items[0])).1, Write(o, items[0]), items[1..], body);
      ReadAllStep(r, items);
    }
  }

  // ----- the round trip -----

  /** The booleans of the last byte that nothing was written to; they are left over for the next chunk. */
  function Leftover(items: seq<Item>): byte
    requires AllWritable(items)
  {
    var o := WriteAll(OPEN, items);
    if o.count == 0 then 0 else 8 - o.count
  }

  lemma StartIsAt(body: seq<byte>, after: seq<byte>, bits: byte)
    requires body != []
    ensures At(Start(SizeBytes(4 + |body|) + body, after, bits, 0), OPEN, body)
  {
    var chunk := SizeBytes(4 + |body|) + body;
    assert (chunk + after)[4..|chunk|] == body;
  }

  /** Unless its first read is of a boolean, a reader does not care for booleans left over. */
  lemma FreshStart(r: In, kinds: seq<Kind>)
    requires r.count <= 8 && kinds != [] && !kinds[0].BitKind?
    ensures ReadAll(r, kinds) == ReadAll(r.(count := 0), kinds)
  {
  }

  /**
   Whatever is written into a chunk is read back in order, up to the end of the chunk, whatever
   follows the chunk in the buffer and whatever bits are left from the last one, provided that the
   chunk does not start with a boolean while some are left over.  The reader is in error exactly if
   the last item is an empty block.
   */
  lemma RoundTrip(items: seq<Item>, after: seq<byte>, bits: byte, count: byte)
    requires AllWritable(items) && items != [] && count <= 8
    requires count == 0 || !items[0].Bit?
    ensures var (read, last) := ReadAll(Start(Chunk(items), after, bits, count), Kinds(items));
      read == items && !last.open && (last.failed <==> EndsEmpty(items)) && last.count == Leftover(items)
  {
    var body, start := Body(items), Start(Chunk(items), after, bits, 0);
    MoreFollows(OPEN, items);
    StartIsAt(body, after, bits);
    ReadAllAt(start, OPEN, items, body);
    if count != 0 {
      FreshStart(Start(Chunk(items), after, bits, count), Kinds(items));
    }
  }

  /** A chunk that starts with a boolean while some are left over: the first one read is of the chunk before. */
  lemma FirstBooleanIsLeftOver(items: seq<Item>, after: seq<byte>, bits: byte, count: byte)
    requires AllWritable(items) && items != [] && items[0].Bit? && 0 < count <= 8
    ensures var start := Start(Chunk(items), after, bits, count);
      ReadAll(start, Kinds(items)).0[0] == Bit(HasBit(bits, 8 - count)) && Read(start, BitKind).1.offset == start.offset
  {
  }

  lemma {:induction false} ReadAllCount(r: In, kinds: seq<Kind>)
    requires r.count <= 8
    ensures ReadAll(r, kinds).1.count <= 8
    decreases |kinds|
  {
    if kinds != [] {
      ReadAllCount(Read(r, kinds[0]).1, kinds[1..]);
    }
  }

  /**
   A parsed chunk, whatever follows it in the buffer, and the kinds of items it is read as.  One read `anew`
   was parsed after a look for a chunk that found none, which forgets the booleans left over.
   */
  datatype Reading = Reading(anew: bool, chunk: seq<byte>, after: seq<byte>, kinds: seq<Kind>)

  /** What is left over of booleans when a chunk is read. */
  function Remaining(anew: bool, left: byte): byte {
    if anew then 0 else left
  }

  /** Where the reader of a chunk starts, with some booleans left over by the one before. */
  function StartReading(r: Reading, bits: byte, count: byte): In {
    Start(r.chunk, r.after, Remaining(r.anew, bits), Remaining(r.anew, count))
  }

  /**
   Chunks read one after another; each reader that does not start anew takes over the booleans the
   one before left.
   */
  function ReadChunks(readings: seq<Reading>, bits: byte, count: byte): (t: (seq<seq<Item>>, bool))
    requires count <= 8
    ensures |t.0| == |readings|
    decreases |readings|
  {
    if readings == [] then ([], false)
    else
      var start := StartReading(readings[0], bits, count);
      var (items, last) := ReadAll(start, readings[0].kinds);
      ReadAllCount(start, readings[0].kinds);
      var (others, failed) := ReadChunks(readings[1..], last.bits, last.count);
      ([items] + others, last.failed || failed)
  }

  predicate Messages(messages: seq<seq<Item>>) {
    forall i | 0 <= i < |messages| :: AllWritable(messages[i])
  }

  /**
   No chunk is empty or ends with an empty block, or starts with a boolean after one that left some over,
   unless it is read anew.
   */
  predicate Separated(messages: seq<seq<Item>>, anew: seq<bool>, count: byte)
    requires Messages(messages) && |anew| == |messages|
    decreases |messages|
  {
    messages == [] ||
    (&& messages[0] != [] && !EndsEmpty(messages[0])
     && (Remaining(anew[0], count) == 0 || !messages[0][0].Bit?)
     && Separated(messages[1..], anew[1..], Leftover(messages[0])))
  }

  /** The readings are of the chunks of the messages, as the kinds they were written as. */
  predicate ReadingsOf(readings: seq<Reading>, messages: seq<seq<Item>>, anew: seq<bool>)
    requires Messages(messages) && |anew| == |messages|
  {
    && |readings| == |messages|
    && forall i | 0 <= i < |messages| ::
      readings[i].anew == anew[i] && readings[i].chunk == Chunk(messages[i]) && readings[i].kinds == Kinds(messages[i])
  }

  /** The first of some separated messages is read back, and the others are separated with what is left over then. */
  lemma FirstIsRead(readings: seq<Reading>, messages: seq<seq<Item>>, anew: seq<bool>, bits: byte, count: byte)
    returns (left: In)
    requires Messages(messages) && |anew| == |messages| && ReadingsOf(readings, messages, anew) && messages != []
    requires count <= 8 && Separated(messages, anew, count)
    ensures ReadingsOf(readings[1..], messages[1..], anew[1..])
    ensures left.count <= 8 && Separated(messages[1..], anew[1..], left.count)
    ensures var (others, failed) := ReadChunks(readings[1..], left.bits, left.count);
      ReadChunks(readings, bits, count) == ([messages[0]] + others, failed)
  {
    RoundTrip(messages[0], readings[0].after, Remaining(anew[0], bits), Remaining(anew[0], count));
    ReadChunksNext(readings, bits, count);
    left := ReadAll(StartReading(readings[0], bits, count), readings[0].kinds).1;
  }

  /** Every message is read back as it was written. */
  lemma {:induction false} MessagesRoundTrip(readings: seq<Reading>, messages: seq<seq<Item>>, anew: seq<bool>,
                                             bits: byte, count: byte)
    requires Messages(messages) && |anew| == |messages| && ReadingsOf(readings, messages, anew)
    requires count <= 8 && Separated(messages, anew, count)
    ensures ReadChunks(readings, bits, count) == (messages, false)
    decreases |messages|
  {
    if messages != [] {
      var left := FirstIsRead(readings, messages, anew, bits, count);
      MessagesRoundTrip(readings[1..], messages[1..], anew[1..], left.bits, left.count);
      assert messages == [messages[0]] + messages[1..];
    }
  }

  /** If every chunk is read anew, only empty ones and those that end with an empty block matter. */
  lemma {:induction false} AllAnewSeparated(messages: seq<seq<Item>>, anew: seq<bool>, count: byte)
    requires Messages(messages) && |anew| == |messages| && forall i | 0 <= i < |anew| :: anew[i]
    ensures Separated(messages, anew, count) <==>
      forall i | 0 <= i < |messages| :: messages[i] != [] && !EndsEmpty(messages[i])
    decreases |messages|
  {
    if messages != [] {
      AllAnewSeparated(messages[1..], anew[1..], Leftover(messages[0]));
      assert forall i | 0 <= i < |messages[1..]| :: messages[1..][i] == messages[i + 1];
      assert forall i | 0 < i < |messages| :: messages[i] == messages[1..][i - 1];
    }
  }

  // ----- exactly which messages are read back -----

  predicate SameKinds(messages: seq<seq<Item>>, others: seq<seq<Item>>) {
    |others| == |messages| && forall i | 0 <= i < |messages| :: Kinds(others[i]) == Kinds(messages[i])
  }

  predicate NoneEmpty(messages: seq<seq<Item>>) {
    forall i | 0 <= i < |messages| :: messages[i] != []
  }

  lemma {:induction false} KindsAt(items: seq<Item>, i: nat)
    requires i < |items|
    ensures Kinds(items)[i] == KindOf(items[i])
  {
    if i > 0 {
      KindsAt(items[1..], i - 1);
    }
  }

  /** How many booleans are pending depends on the kinds of what was written only. */
  lemma {:induction false} PendingByKinds(o: Out, items: seq<Item>, p: Out, others: seq<Item>)
    requires o.count == p.count < 8 && AllWritable(items) && AllWritable(others) && Kinds(items) == Kinds(others)
    ensures WriteAll(o, items).count == WriteAll(p, others).count
    decreases |items|
  {
    if items != [] {
      KindsAt(items, 0);
      KindsAt(others, 0);
      assert Kinds(items)[1..] == Kinds(items[1..]) && Kinds(others)[1..] == Kinds(others[1..]);
      PendingByKinds(Write(o, items[0]), items[1..], Write(p, others[0]), others[1..]);
    }
  }

  lemma SeparatedHead(items: seq<Item>, others: seq<Item>)
    requires AllWritable(items) && AllWritable(others) && Kinds(items) == Kinds(others) && items != []
    ensures others != [] && EndsEmpty(items) == EndsEmpty(others) && items[0].Bit? == others[0].Bit?
    ensures Leftover(items) == Leftover(others)
  {
    KindsAt(items, 0);
    KindsAt(others, 0);
    KindsAt(items, |items| - 1);
    KindsAt(others, |items| - 1);
    PendingByKinds(OPEN, items, OPEN, others);
  }

  lemma {:induction false} SeparatedByKinds(messages: seq<seq<Item>>, others: seq<seq<Item>>, anew: seq<bool>,
                                            count: byte)
    requires Messages(messages) && Messages(others) && SameKinds(messages, others)
    requires |anew| == |messages| && Separated(messages, anew, count)
    ensures Separated(others, anew, count)
    decreases |messages|
  {
    if messages != [] {
      SeparatedHead(messages[0], others[0]);
      SeparatedByKinds(messages[1..], others[1..], anew[1..], Leftover(messages[0]));
    }
  }

  /** The same items, but with another first boolean than the one left over. */
  function Flipped(items: seq<Item>, b: bool): seq<Item>
    requires items != []
  {
    [Bit(!b)] + items[1..]
  }

  lemma FlippedIsNotRead(items: seq<Item>, after: seq<byte>, bits: byte, count: byte)
    requires AllWritable(items) && items != [] && items[0].Bit? && 0 < count <= 8
    ensures var other := Flipped(items, HasBit(bits, 8 - count));
      && AllWritable(other) && Kinds(other) == Kinds(items)
      && ReadAll(Start(Chunk(other), after, bits, count), Kinds(other)).0 != other
  {
    var other := Flipped(items, HasBit(bits, 8 - count));
    assert other[1..] == items[1..];
    FirstBooleanIsLeftOver(other, after, bits, count);
  }

  /**
   Items of any contents can be read from a chunk exactly if it does not start with a boolean while
   some are left over.
   */
  lemma ReadBackIff(items: seq<Item>, after: seq<byte>, bits: byte, count: byte)
    requires AllWritable(items) && items != [] && count <= 8
    ensures (forall other: seq<Item> | AllWritable(other) && Kinds(other) == Kinds(items) ::
               ReadAll(Start(Chunk(other), after, bits, count), Kinds(other)).0 == other)
      <==> count == 0 || !items[0].Bit?
  {
    if count == 0 || !items[0].Bit? {
      forall other: seq<Item> | AllWritable(other) && Kinds(other) == Kinds(items)
        ensures ReadAll(Start(Chunk(other), after, bits, count), Kinds(other)).0 == other
      {
        SeparatedHead(items, other);
        RoundTrip(other, after, bits, count);
      }
    } else {
      FlippedIsNotRead(items, after, bits, count);
    }
  }

  /** The readings of messages whose chunks are alone in the buffer. */
  function Alone(messages: seq<seq<Item>>, anew: seq<bool>): (readings: seq<Reading>)
    requires Messages(messages) && |anew| == |messages|
    ensures ReadingsOf(readings, messages, anew)
  {
    seq(|messages|, i requires 0 <= i < |messages| => Reading(anew[i], Chunk(messages[i]), [], Kinds(messages[i])))
  }

  lemma ReadChunksNext(readings: seq<Reading>, bits: byte, count: byte)
    requires readings != [] && count <= 8
    ensures var (items, last) := ReadAll(StartReading(readings[0], bits, count), readings[0].kinds);
      && last.count <= 8
      && var (others, failed) := ReadChunks(readings[1..], last.bits, last.count);
      ReadChunks(readings, bits, count) == ([items] + others, last.failed || failed)
  {
    ReadAllCount(StartReading(readings[0], bits, count), readings[0].kinds);
  }

  predicate ReadBack(messages: seq<seq<Item>>, anew: seq<bool>, bits: byte, count: byte)
    requires Messages(messages) && |anew| == |messages| && count <= 8
  {
    ReadChunks(Alone(messages, anew), bits, count) == (messages, false)
  }

  lemma AloneNext(messages: seq<seq<Item>>, anew: seq<bool>)
    requires Messages(messages) && messages != [] && |anew| == |messages|
    ensures Alone(messages, anew)[0] == Reading(anew[0], Chunk(messages[0]), [], Kinds(messages[0]))
    ensures Alone(messages, anew)[1..] == Alone(messages[1..], anew[1..])
  {
  }

  /** Whether a message cannot be read for sure, with so many booleans left over. */
  predicate Unsafe(message: seq<Item>, left: byte)
    requires message != []
  {
    EndsEmpty(message) || (left != 0 && message[0].Bit?)
  }

  /** The first message is read wrong or with an error, whatever follows. */
  lemma FirstIsNotReadBack(messages: seq<seq<Item>>, anew: seq<bool>, bits: byte, count: byte)
    returns (others: seq<seq<Item>>)
    requires Messages(messages) && NoneEmpty(messages) && messages != [] && |anew| == |messages| && count <= 8
    requires Unsafe(messages[0], Remaining(anew[0], count))
    ensures Messages(others) && SameKinds(messages, others) && !ReadBack(others, anew, bits, count)
  {
    others := messages;
    var b, left := Remaining(anew[0], bits), Remaining(anew[0], count);
    if left != 0 && messages[0][0].Bit? {
      FlippedIsNotRead(messages[0], [], b, left);
      others := [Flipped(messages[0], HasBit(b, 8 - left))] + messages[1..];
    } else {
      RoundTrip(messages[0], [], b, left);
    }
    AloneNext(others, anew);
    ReadChunksNext(Alone(others, anew), bits, count);
  }

  /** The byte of booleans a reader holds after a message. */
  function LeftBits(items: seq<Item>, bits: byte, count: byte): byte
    requires AllWritable(items) && count <= 8
  {
    ReadAll(Start(Chunk(items), [], bits, count), Kinds(items)).1.bits
  }

  lemma FirstIsReadBack(messages: seq<seq<Item>>, anew: seq<bool>, bits: byte, count: byte)
    requires Messages(messages) && messages != [] && messages[0] != [] && |anew| == |messages| && count <= 8
    requires Remaining(anew[0], count) == 0 || !messages[0][0].Bit?
    ensures Leftover(messages[0]) <= 8
    ensures ReadBack(messages, anew, bits, count) ==>
      ReadBack(messages[1..], anew[1..],
        LeftBits(messages[0], Remaining(anew[0], bits), Remaining(anew[0], count)), Leftover(messages[0]))
  {
    RoundTrip(messages[0], [], Remaining(anew[0], bits), Remaining(anew[0], count));
    AloneNext(messages, anew);
    ReadChunksNext(Alone(messages, anew), bits, count);
  }

  lemma SameKindsNext(first: seq<Item>, rest: seq<seq<Item>>, messages: seq<seq<Item>>)
    requires messages != [] && AllWritable(first) && Messages(rest) && Kinds(first) == Kinds(messages[0]) &&
      SameKinds(messages[1..], rest)
    ensures var others := [first] + rest;
      Messages(others) && SameKinds(messages, others) && others != [] && others[0] == first && others[1..] == rest
  {
    var others := [first] + rest;
    forall i | 0 <= i < |messages|
      ensures Kinds(others[i]) == Kinds(messages[i])
    {
      if i > 0 {
        assert others[i] == rest[i - 1] && messages[i] == messages[1..][i - 1];
      }
    }
  }

  /** Messages that are not separated: some of the same kinds are not read back. */
  lemma {:induction false} NotReadBack(messages: seq<seq<Item>>, anew: seq<bool>, bits: byte, count: byte)
    returns (others: seq<seq<Item>>)
    requires Messages(messages) && NoneEmpty(messages) && |anew| == |messages| && count <= 8
    requires !Separated(messages, anew, count)
    ensures Messages(others) && SameKinds(messages, others) && !ReadBack(others, anew, bits, count)
    decreases |messages|
  {
    var b, left := Remaining(anew[0], bits), Remaining(anew[0], count);
    if Unsafe(messages[0], left) {
      others := FirstIsNotReadBack(messages, anew, bits, count);
    } else {
      var first := messages[0];
      var rest := NotReadBack(messages[1..], anew[1..], LeftBits(first, b, left), Leftover(first));
      SameKindsNext(first, rest, messages);
      others := [first] + rest;
      FirstIsReadBack(others, anew, bits, count);
    }
  }

  /** Messages of any contents are read back exactly if their kinds are separated. */
  lemma SeparatedExactlyIfReadBack(messages: seq<seq<Item>>, anew: seq<bool>, bits: byte, count: byte)
    requires Messages(messages) && NoneEmpty(messages) && |anew| == |messages| && count <= 8
    ensures Separated(messages, anew, count) <==>
      forall others: seq<seq<Item>> | Messages(others) && SameKinds(messages, others) ::
        ReadBack(others, anew, bits, count)
  {
    if Separated(messages, anew, count) {
      forall others: seq<seq<Item>> | Messages(others) && SameKinds(messages, others)
        ensures ReadBack(others, anew, bits, count)
      {
        SeparatedByKinds(messages, others, anew, count);
        MessagesRoundTrip(Alone(others, anew), others, anew, bits, count);
      }
    } else {
      var others := NotReadBack(messages, anew, bits, count);
    }
  }

  /**
   One boolean each: the second is read from the byte of the first, unless a look that found no chunk
   came between.
   */
  lemma SecondBooleanIsLost()
    ensures var messages := [[Bit(true)], [Bit(true)]];
      && Messages(messages)
      && ReadChunks(Alone(messages, [true, false]), 0, 0).0 == [[Bit(true)], [Bit(false)]]
      && ReadBack(messages, [true, true], 0, 0)
  {
    var one := [Bit(true)];
    OneBoolean();
    assert [one, one][1..] == [one] && [one][1..] == [] && [true, false][1..] == [false];
    AloneNext([one, one], [true, false]);
    ReadChunksNext(Alone([one, one], [true, false]), 0, 0);
    AloneNext([one], [false]);
    ReadChunksNext(Alone([one], [false]), 1, 7);
    AllAnewSeparated([one, one], [true, true], 0);
    MessagesRoundTrip(Alone([one, one], [true, true]), [one, one], [true, true], 0, 0);
  }

  lemma OneBoolean()
    ensures var one := [Bit(true)];
      && AllWritable(one) && Kinds(one) == [BitKind]
      && ReadAll(Start(Chunk(one), [], 1, 7), [BitKind]).0 == [Bit(false)]
      && var (items, last) := ReadAll(Start(Chunk(one), [], 0, 0), [BitKind]);
      items == one && last.bits == 1 && last.count == 7
  {
    var one := [Bit(true)];
    assert one[1..] == [] && [BitKind][1..] == [];
    assert WriteAll(OPEN, one) == WriteBit(OPEN, true) == Out([], 1, 1);
    assert Body(one) == [1];
    StartIsAt(Body(one), [], 0);
    ReadAllAt(Start(Chunk(one), [], 0, 0), OPEN, one, Body(one));
    FirstBooleanIsLeftOver(one, [], 1, 7);
  }
}
