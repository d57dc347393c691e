/**
 Messages that are written item by item, checked against a format.

 If the items of a message follow the format, the checker accepts the bytes of the message, and it
 reads exactly the items that the format takes.
 */
module FormatMessages {
  import opened Sequences
  import opened WireValues
  import opened MessageFormat
  import opened FormatCompiler
  import M = WireMessage

  // ----- formats on items -----

  /** `Denied` is what the checker finds wrong; nothing is said of a `Mismatch`, of items of another kind. */
  datatype Taken = Took(rest: seq<M.Item>, last: int) | Denied(fault: Fault) | Mismatch

  /** How many bytes a text takes, its NUL included; none for the empty text. */
  function TextSize(text: seq<byte>): nat {
    if text == [] then 0 else |text| + 1
  }

  predicate InLimit(size: nat, limit: int) {
    limit < 0 || size <= limit
  }

  function TakeBits(n: nat, items: seq<M.Item>, last: int): Taken {
    if n == 0 then Took(items, last)
    else
      var t := TakeBits(n - 1, items, last);
      if t.Took? then TakeBit(t.rest, last) else t
  }

  function TakeBit(items: seq<M.Item>, last: int): Taken {
    if items != [] && items[0].Bit? then Took(items[1..], last) else Mismatch
  }

  function TakeSized(size: nat, limit: int, rest: seq<M.Item>, last: int): Taken {
    if InLimit(size, limit) then Took(rest, last) else Denied(OutOfLimit)
  }

  /** Real numbers are written as numbers of their width. */
  function TakeItem(e: Element, items: seq<M.Item>, last: int): Taken {
    match e
    case Flag => TakeBit(items, last)
    case Flags(n) => TakeBits(n, items, last)
    case Words(n) => Mismatch
    case Integer(width, signed) =>
      if items == [] then if width == 0 then Mismatch else Denied(OutOfData)
      else if items[0].Number? && items[0].width == width && items[0].signed == signed then
        Took(items[1..], ToInt32(items[0].value))
      else Mismatch
    case Real(width) =>
      if items != [] && items[0].Number? && items[0].width == width then Took(items[1..], last) else Mismatch
    case Text(limit) =>
      if items == [] then Denied(OutOfData)
      else if items[0].Text? then
        TakeSized(TextSize(items[0].text), limit, items[1..], TextSize(items[0].text))
      else Mismatch
    case Blob(limit) =>
      if items == [] then Denied(OutOfData)
      else if items[0].Block? then TakeSized(|items[0].data|, limit, items[1..], last)
      else Mismatch
  }

  /** The items a format takes from the front of a message, and the last integer among them. */
  function Take(f: Format, items: seq<M.Item>, last: int): Taken
    decreases f, 0, 0
  {
    match f
    case Empty => Took(items, last)
    case One(e, rest) =>
      var t := TakeItem(e, items, last);
      if t.Took? then Take(rest, t.rest, t.last) else t
    case Sub(name, body, rest) =>
      var t := Take(body, items, last);
      if t.Took? then Take(rest, t.rest, t.last) else t
    case Group(count, body, rest) =>
      var n := Times(count, last);
      if n < 0 then Mismatch
      else
        var t := TakeTimes(body, items, n);
        if t.Took? then Take(rest, t.rest, last) else t
    case Bare(count, e, rest) =>
      var n := Times(count, last);
      if n <= 0 then Mismatch
      else
        var t := TakeItems(e, items, n);
        if t.Took? then Take(rest, t.rest, last) else t
  }

  function TakeTimes(body: Format, items: seq<M.Item>, n: nat): Taken
    decreases body, 1, n
  {
    if n == 0 then Took(items, 0)
    else
      var t := Take(body, items, 0);
      if t.Took? then TakeTimes(body, t.rest, n - 1) else t
  }

  function TakeItems(e: Element, items: seq<M.Item>, n: nat): Taken
    decreases n
  {
    if n == 0 then Took(items, 0)
    else
      var t := TakeItem(e, items, 0);
      if t.Took? then TakeItems(e, t.rest, n - 1) else t
  }

  // ----- the checker follows the writer -----

  /** The checker of a finished chunk is where its writer was in state `o`, with `items` still to be written. */
  ghost predicate CheckerAt(data: seq<byte>, t: Test, o: M.Out, items: seq<M.Item>) {
    && o.count < 8 && M.AllWritable(items) && |data| < WORD
    && |data| == 4 + |M.Flush(M.WriteAll(o, items)).body| && data[4..] == M.Flush(M.WriteAll(o, items)).body
    && t.offset == 4 + M.Place(o) && t.count == (if o.count == 0 then 0 else 8 - o.count)
  }

  /** Bytes that were written first stand where the writer was. */
  lemma BytesKept(body: seq<byte>, o: M.Out, a: seq<byte>)
    requires M.Keeps(body, M.Put(o, a))
    ensures M.Place(o) + |a| <= |body| && body[M.Place(o)..M.Place(o) + |a|] == a
  {
    var n := M.Place(o);
    assert |M.Flush(o).body| == n && body[..n + |a|] == M.Flush(o).body + a;
    Within(body, 0, n + |a|, n, n + |a|);
  }

  /** An item other than a boolean stands where the writer was, and begins with the bytes it begins with. */
  lemma ItemKept(body: seq<byte>, o: M.Out, items: seq<M.Item>, a: seq<byte>, b: seq<byte>)
    requires o.count < 8 && M.AllWritable(items) && items != [] && !items[0].Bit? && M.ItemBytes(items[0]) == a + b
    requires body == M.Flush(M.WriteAll(o, items)).body
    ensures var n := M.Place(o); n + |a| + |b| <= |body| && body[n..n + |a|] == a
  {
    M.FinishedKeeps(M.Write(o, items[0]), items[1..]);
    BytesKept(body, o, a + b);
    M.KeepsFirst(body, o, a, b);
    BytesKept(body, o, a);
  }

  lemma PlaceAfter(o: M.Out, item: M.Item)
    requires o.count < 8 && M.Writable(item) && !item.Bit?
    ensures M.Place(M.Write(o, item)) == M.Place(o) + |M.ItemBytes(item)| && M.Write(o, item).count == 0
  {
  }

  lemma BehindHeader(data: seq<byte>, body: seq<byte>, n: nat, a: seq<byte>)
    requires |data| >= 4 && body == data[4..] && n + |a| <= |body| && body[n..n + |a|] == a
    ensures data[4 + n..4 + n + |a|] == a
  {
    Within(data, 4, |data|, n, n + |a|);
  }

  /** Bytes that were written stand where the checker looks for them. */
  lemma BytesAhead(data: seq<byte>, t: Test, o: M.Out, items: seq<M.Item>, a: seq<byte>, b: seq<byte>)
    requires CheckerAt(data, t, o, items) && items != [] && !items[0].Bit? && M.ItemBytes(items[0]) == a + b
    ensures t.offset + |a| + |b| <= |data| && data[t.offset..t.offset + |a|] == a
    ensures M.Place(M.Write(o, items[0])) == M.Place(o) + |a| + |b| && M.Write(o, items[0]).count == 0
  {
    var body := data[4..];
    ItemKept(body, o, items, a, b);
    PlaceAfter(o, items[0]);
    BehindHeader(data, body, M.Place(o), a);
  }

  lemma CheckerMoves(data: seq<byte>, t: Test, o: M.Out, items: seq<M.Item>, t': Test)
    requires CheckerAt(data, t, o, items) && items != []
    requires t'.offset == 4 + M.Place(M.Write(o, items[0]))
    requires t'.count == (if M.Write(o, items[0]).count == 0 then 0 else 8 - M.Write(o, items[0]).count)
    ensures CheckerAt(data, t', M.Write(o, items[0]), items[1..])
  {
  }

  lemma FlagFollows(data: seq<byte>, t: Test, o: M.Out, items: seq<M.Item>, last: int)
    requires CheckerAt(data, t, o, items) && items != [] && items[0].Bit?
    ensures var c := CheckFlag(data, t, last);
      c.Fine? && c.last == last && CheckerAt(data, c.test, M.Write(o, items[0]), items[1..])
  {
    M.MoreFollows(o, items);
    M.FinishedKeeps(M.Write(o, items[0]), items[1..]);
    CheckerMoves(data, t, o, items, CheckFlag(data, t, last).test);
  }

  lemma Int32Value(v: int)
    requires InRange(4, true, v)
    ensures ToInt32(v) == v
  {
    assert Power(4) == WORD;
  }

  lemma IntegerChecks(data: seq<byte>, t: Test, width: nat, signed: bool, v: int)
    requires InRange(width, signed, v) && t.offset + width <= |data|
    requires data[t.offset..t.offset + width] == M.NumberBytes(width, v)
    ensures CheckInteger(data, t, width, signed) == Fine(t.(offset := t.offset + width, count := 0), ToInt32(v))
  {
    WireRoundTrip(width, signed, v);
  }

  lemma IntegerFollows(data: seq<byte>, t: Test, o: M.Out, items: seq<M.Item>, width: nat, signed: bool)
    requires CheckerAt(data, t, o, items) && items != []
    requires items[0].Number? && items[0].width == width && items[0].signed == signed
    ensures var c := CheckInteger(data, t, width, signed);
      c.Fine? && c.last == ToInt32(items[0].value) && CheckerAt(data, c.test, M.Write(o, items[0]), items[1..])
  {
    var v := items[0].value;
    var a := M.NumberBytes(width, v);
    assert a + [] == a;
    BytesAhead(data, t, o, items, a, []);
    IntegerChecks(data, t, width, signed, v);
    CheckerMoves(data, t, o, items, t.(offset := t.offset + width, count := 0));
  }

  lemma SignedSize(size: nat)
    requires size < WORD
    ensures ToInt32(FromWire(4, true, size)) == ToInt32(size) && ToInt32(size) % WORD == size
  {
    assert Power(4) == WORD;
  }

  lemma SizeValue(size: nat)
    requires size < WORD
    ensures Value(M.SizeBytes(size)) == size
  {
    assert Power(4) == WORD;
    ValueOfLittleEndian(size, 4);
  }

  /** A size of 32 bits in front of some bytes is read, and the bytes are there. */
  lemma SizeFollows(data: seq<byte>, t: Test, o: M.Out, items: seq<M.Item>, size: nat, b: seq<byte>)
    requires CheckerAt(data, t, o, items) && items != [] && !items[0].Bit?
    requires size < WORD && |b| == size && M.ItemBytes(items[0]) == M.SizeBytes(size) + b
    ensures CheckInteger(data, t, 4, true) == Fine(t.(offset := t.offset + 4, count := 0), ToInt32(size))
    ensures ToInt32(size) % WORD == size && t.offset + 4 + size <= |data|
    ensures CheckerAt(data, t.(offset := t.offset + 4 + size, count := 0), M.Write(o, items[0]), items[1..])
  {
    BytesAhead(data, t, o, items, M.SizeBytes(size), b);
    SizeValue(size);
    SignedSize(size);
    CheckerMoves(data, t, o, items, t.(offset := t.offset + 4 + size, count := 0));
  }

  /** What stands behind the size of a text. */
  function TextBytes(text: seq<byte>): (b: seq<byte>)
    ensures |b| == TextSize(text)
  {
    if text == [] then [] else text + [0]
  }

  lemma TextIsSized(text: seq<byte>)
    requires M.Writable(M.Text(text))
    ensures M.ItemBytes(M.Text(text)) == M.SizeBytes(TextSize(text)) + TextBytes(text)
    ensures TextSize(text) < WORD && ToInt32(TextSize(text)) == TextSize(text)
  {
    assert Power(4) == WORD;
    Int32Value(TextSize(text));
  }

  lemma TextChecks(data: seq<byte>, t: Test, limit: int, t': Test, size: nat)
    requires CheckInteger(data, t, 4, true) == Fine(t', size) && InLimit(size, limit)
    requires t'.offset + size <= |data| < WORD && size < WORD
    ensures CheckText(data, t, limit) == Fine(t'.(offset := t'.offset + size), size)
  {
  }

  lemma TextFollows(data: seq<byte>, t: Test, o: M.Out, items: seq<M.Item>, limit: int)
    requires CheckerAt(data, t, o, items) && items != [] && items[0].Text? && InLimit(TextSize(items[0].text), limit)
    ensures var c := CheckText(data, t, limit);
      c.Fine? && c.last == TextSize(items[0].text) && CheckerAt(data, c.test, M.Write(o, items[0]), items[1..])
  {
    var size := TextSize(items[0].text);
    TextIsSized(items[0].text);
    SizeFollows(data, t, o, items, size, TextBytes(items[0].text));
    TextChecks(data, t, limit, t.(offset := t.offset + 4, count := 0), size);
  }

  lemma BlobChecks(data: seq<byte>, t: Test, limit: int, last: int, t': Test, size: nat)
    requires CheckInteger(data, t, 4, true) == Fine(t', ToInt32(size)) && InLimit(size, limit)
    requires t'.offset + size <= |data| < WORD && size < WORD && ToInt32(size) % WORD == size
    ensures CheckBlob(data, t, limit, last) == Fine(t'.(offset := t'.offset + size), last)
  {
  }

  lemma BlobIsSized(data: seq<byte>)
    requires M.Writable(M.Block(data))
    ensures M.ItemBytes(M.Block(data)) == M.SizeBytes(|data|) + data && |data| < WORD
  {
    assert Power(4) == WORD;
  }

  lemma BlobFollows(data: seq<byte>, t: Test, o: M.Out, items: seq<M.Item>, limit: int, last: int)
    requires CheckerAt(data, t, o, items) && items != [] && items[0].Block? && InLimit(|items[0].data|, limit)
    ensures var c := CheckBlob(data, t, limit, last);
      c.Fine? && c.last == last && CheckerAt(data, c.test, M.Write(o, items[0]), items[1..])
  {
    var size := |items[0].data|;
    BlobIsSized(items[0].data);
    SizeFollows(data, t, o, items, size, items[0].data);
    BlobChecks(data, t, limit, last, t.(offset := t.offset + 4, count := 0), size);
  }

  lemma RealFollows(data: seq<byte>, t: Test, o: M.Out, items: seq<M.Item>, width: nat, last: int)
    requires CheckerAt(data, t, o, items) && items != [] && items[0].Number? && items[0].width == width
    ensures var c := Skip(data, t.(count := 0), width, last);
      c.Fine? && c.last == last && CheckerAt(data, c.test, M.Write(o, items[0]), items[1..])
  {
    var a := M.NumberBytes(width, items[0].value);
    assert a + [] == a;
    BytesAhead(data, t, o, items, a, []);
    CheckerMoves(data, t, o, items, t.(offset := t.offset + width, count := 0));
    RealSteps(data, t, width, last);
  }

  lemma RealSteps(data: seq<byte>, t: Test, width: nat, last: int)
    requires t.offset + width <= |data| < WORD
    ensures Skip(data, t.(count := 0), width, last) == Fine(t.(offset := t.offset + width, count := 0), last)
  {
  }

  lemma {:induction false} FlagsFollow(data: seq<byte>, t: Test, o: M.Out, items: seq<M.Item>, n: nat, last: int)
    returns (o': M.Out)
    requires CheckerAt(data, t, o, items) && TakeBits(n, items, last).Took?
    ensures var c, k := CheckFlags(data, t, n, last), TakeBits(n, items, last);
      c.Fine? && c.last == last && k.last == last && CheckerAt(data, c.test, o', k.rest)
  {
    o' := o;
    if n > 0 {
      o' := FlagsFollow(data, t, o, items, n - 1, last);
      var c, k := CheckFlags(data, t, n - 1, last), TakeBits(n - 1, items, last);
      FlagFollows(data, c.test, o', k.rest, last);
      o' := M.Write(o', k.rest[0]);
    }
  }

  // ----- the checker follows the format -----

  lemma ItemFollows(data: seq<byte>, t: Test, o: M.Out, items: seq<M.Item>, e: Element, last: int)
    returns (o': M.Out)
    requires CheckerAt(data, t, o, items) && TakeItem(e, items, last).Took?
    ensures var c, k := Check(data, t, e, last), TakeItem(e, items, last);
      c.Fine? && c.last == k.last && CheckerAt(data, c.test, o', k.rest)
  {
    if e.Flags? {
      o' := FlagsFollow(data, t, o, items, e.flags, last);
      return;
    }
    o' := M.Write(o, items[0]);
    match e
    case Flag => FlagFollows(data, t, o, items, last);
    case Integer(width, signed) => IntegerFollows(data, t, o, items, width, signed);
    case Real(width) => RealFollows(data, t, o, items, width, last);
    case Text(limit) => TextFollows(data, t, o, items, limit);
    case Blob(limit) => BlobFollows(data, t, o, items, limit, last);
  }

  lemma {:induction false} ItemsFollow(data: seq<byte>, t: Test, o: M.Out, items: seq<M.Item>, e: Element, n: nat)
    returns (o': M.Out)
    requires CheckerAt(data, t, o, items) && TakeItems(e, items, n).Took?
    ensures var c := CheckTimes(e, data, t, n);
      c.Fine? && CheckerAt(data, c.test, o', TakeItems(e, items, n).rest)
    decreases n
  {
    o' := o;
    if n > 0 {
      o' := ItemFollows(data, t, o, items, e, 0);
      o' := ItemsFollow(data, Check(data, t, e, 0).test, o', TakeItem(e, items, 0).rest, e, n - 1);
    }
  }

  lemma {:induction false} TimesFollow(data: seq<byte>, t: Test, o: M.Out, items: seq<M.Item>, body: Format, n: nat)
    returns (o': M.Out)
    requires CheckerAt(data, t, o, items) && TakeTimes(body, items, n).Took?
    ensures var m := ReadTimes(body, data, t, n);
      m.Reads? && CheckerAt(data, m.test, o', TakeTimes(body, items, n).rest)
    decreases body, 1, n
  {
    o' := o;
    if n > 0 {
      o' := FormatFollows(data, t, o, items, body, 0);
      o' := TimesFollow(data, Read(body, data, t, 0).test, o', Take(body, items, 0).rest, body, n - 1);
    }
  }

  /** What the items say the format takes, the checker reads in the bytes. */
  lemma {:induction false} FormatFollows(data: seq<byte>, t: Test, o: M.Out, items: seq<M.Item>, f: Format, last: int)
    returns (o': M.Out)
    requires CheckerAt(data, t, o, items) && Take(f, items, last).Took?
    ensures var m, k := Read(f, data, t, last), Take(f, items, last);
      m.Reads? && m.last == k.last && CheckerAt(data, m.test, o', k.rest)
    decreases f, 0, 0
  {
    match f
    case Empty => o' := o;
    case One(e, rest) =>
      o' := ItemFollows(data, t, o, items, e, last);
      var c, k := Check(data, t, e, last), TakeItem(e, items, last);
      o' := FormatFollows(data, c.test, o', k.rest, rest, k.last);
    case Sub(name, body, rest) =>
      o' := FormatFollows(data, t, o, items, body, last);
      var m, k := Read(body, data, t, last), Take(body, items, last);
      o' := FormatFollows(data, m.test, o', k.rest, rest, k.last);
    case Group(count, body, rest) =>
      var n: nat := Times(count, last);
      o' := TimesFollow(data, t, o, items, body, n);
      o' := FormatFollows(data, ReadTimes(body, data, t, n).test, o', TakeTimes(body, items, n).rest, rest, last);
    case Bare(count, e, rest) =>
      var n: nat := Times(count, last);
      o' := ItemsFollow(data, t, o, items, e, n);
      o' := FormatFollows(data, CheckTimes(e, data, t, n).test, o', TakeItems(e, items, n).rest, rest, last);
  }

  // ----- the checker refuses what the format denies -----

  /** Where all items are written, the data ends. */
  lemma NothingAhead(data: seq<byte>, t: Test, o: M.Out, n: nat)
    requires CheckerAt(data, t, o, []) && n > 0
    ensures t.offset == |data|
    ensures CheckInteger(data, t, n, true) == CheckInteger(data, t, n, false) == Wrong(OutOfData)
  {
  }

  /** A text or a block that is written is refused exactly if it is longer than its limit. */
  lemma TextRefusedIff(data: seq<byte>, t: Test, o: M.Out, items: seq<M.Item>, limit: int)
    requires CheckerAt(data, t, o, items) && items != [] && items[0].Text?
    ensures CheckText(data, t, limit).Fine? <==> InLimit(TextSize(items[0].text), limit)
    ensures CheckText(data, t, limit).Wrong? ==> CheckText(data, t, limit).fault == OutOfLimit
  {
    var size := TextSize(items[0].text);
    TextIsSized(items[0].text);
    SizeFollows(data, t, o, items, size, TextBytes(items[0].text));
    if InLimit(size, limit) {
      TextFollows(data, t, o, items, limit);
    }
  }

  lemma BlobTooLong(data: seq<byte>, t: Test, limit: int, last: int, t': Test, size: nat)
    requires CheckInteger(data, t, 4, true) == Fine(t', ToInt32(size)) && !InLimit(size, limit)
    requires t'.offset + size <= |data| < WORD && ToInt32(size) % WORD == size
    ensures CheckBlob(data, t, limit, last) == Wrong(OutOfLimit)
  {
  }

  lemma BlobRefusedIff(data: seq<byte>, t: Test, o: M.Out, items: seq<M.Item>, limit: int, last: int)
    requires CheckerAt(data, t, o, items) && items != [] && items[0].Block?
    ensures CheckBlob(data, t, limit, last).Fine? <==> InLimit(|items[0].data|, limit)
    ensures CheckBlob(data, t, limit, last).Wrong? ==> CheckBlob(data, t, limit, last).fault == OutOfLimit
  {
    if InLimit(|items[0].data|, limit) {
      BlobFollows(data, t, o, items, limit, last);
    } else {
      var size := |items[0].data|;
      BlobIsSized(items[0].data);
      SizeFollows(data, t, o, items, size, items[0].data);
      BlobTooLong(data, t, limit, last, t.(offset := t.offset + 4, count := 0), size);
    }
  }

  lemma {:induction false} BitsNotDenied(n: nat, items: seq<M.Item>, last: int)
    ensures !TakeBits(n, items, last).Denied?
  {
    if n > 0 {
      BitsNotDenied(n - 1, items, last);
    }
  }

  lemma ItemDenied(data: seq<byte>, t: Test, o: M.Out, items: seq<M.Item>, e: Element, last: int)
    requires CheckerAt(data, t, o, items) && TakeItem(e, items, last).Denied?
    ensures Check(data, t, e, last) == Wrong(TakeItem(e, items, last).fault)
  {
    if e.Flags? {
      BitsNotDenied(e.flags, items, last);
    } else if items == [] {
      NothingAhead(data, t, o, if e.Integer? then e.width else 4);
    } else if e.Text? {
      TextRefusedIff(data, t, o, items, e.limit);
    } else {
      BlobRefusedIff(data, t, o, items, e.limit, last);
    }
  }

  lemma {:induction false} ItemsDenied(data: seq<byte>, t: Test, o: M.Out, items: seq<M.Item>, e: Element, n: nat)
    requires CheckerAt(data, t, o, items) && TakeItems(e, items, n).Denied?
    ensures CheckTimes(e, data, t, n) == Wrong(TakeItems(e, items, n).fault)
    decreases n
  {
    if TakeItem(e, items, 0).Took? {
      var o' := ItemFollows(data, t, o, items, e, 0);
      ItemsDenied(data, Check(data, t, e, 0).test, o', TakeItem(e, items, 0).rest, e, n - 1);
    } else {
      ItemDenied(data, t, o, items, e, 0);
    }
  }

  lemma {:induction false} TimesDenied(data: seq<byte>, t: Test, o: M.Out, items: seq<M.Item>, body: Format, n: nat)
    requires CheckerAt(data, t, o, items) && TakeTimes(body, items, n).Denied?
    ensures ReadTimes(body, data, t, n) == Rejects(TakeTimes(body, items, n).fault)
    decreases body, 1, n
  {
    if Take(body, items, 0).Took? {
      var o' := FormatFollows(data, t, o, items, body, 0);
      TimesDenied(data, Read(body, data, t, 0).test, o', Take(body, items, 0).rest, body, n - 1);
    } else {
      FormatDenied(data, t, o, items, body, 0);
    }
  }

  /** What the items say the format denies, the checker finds wrong in the bytes. */
  lemma {:induction false} FormatDenied(data: seq<byte>, t: Test, o: M.Out, items: seq<M.Item>, f: Format, last: int)
    requires CheckerAt(data, t, o, items) && Take(f, items, last).Denied?
    ensures Read(f, data, t, last) == Rejects(Take(f, items, last).fault)
    decreases f, 0, 0
  {
    match f
    case One(e, rest) =>
      var k := TakeItem(e, items, last);
      if k.Took? {
        var o' := ItemFollows(data, t, o, items, e, last);
        FormatDenied(data, Check(data, t, e, last).test, o', k.rest, rest, k.last);
      } else {
        ItemDenied(data, t, o, items, e, last);
      }
    case Sub(name, body, rest) =>
      var k := Take(body, items, last);
      if k.Took? {
        var o' := FormatFollows(data, t, o, items, body, last);
        FormatDenied(data, Read(body, data, t, last).test, o', k.rest, rest, k.last);
      } else {
        FormatDenied(data, t, o, items, body, last);
      }
    case Group(count, body, rest) =>
      var n: nat := Times(count, last);
      var k := TakeTimes(body, items, n);
      if k.Took? {
        var o' := TimesFollow(data, t, o, items, body, n);
        FormatDenied(data, ReadTimes(body, data, t, n).test, o', k.rest, rest, last);
      } else {
        TimesDenied(data, t, o, items, body, n);
      }
    case Bare(count, e, rest) =>
      var n: nat := Times(count, last);
      var k := TakeItems(e, items, n);
      if k.Took? {
        var o' := ItemsFollow(data, t, o, items, e, n);
        FormatDenied(data, CheckTimes(e, data, t, n).test, o', k.rest, rest, last);
      } else {
        ItemsDenied(data, t, o, items, e, n);
      }
  }

  lemma ChunkStarts(items: seq<M.Item>, bits: byte)
    requires M.AllWritable(items) && |M.Chunk(items)| < WORD
    ensures CheckerAt(M.Chunk(items), Test(4, bits, 0), M.OPEN, items)
  {
  }

  /**
   Wherever the checker is, what follows there in a message and follows a format is accepted by the
   commands of the format, and if the format takes all that follows, it is checked to its end.
   */
  lemma FollowingIsAccepted(f: Format, data: seq<byte>, t: Test, o: M.Out, items: seq<M.Item>)
    requires CheckerAt(data, t, o, items) && Take(f, items, 0).Took?
    ensures var r := Call(Compile(f), data, 0, t);
      && r.Done? && r.pos == |Compile(f)| && r.test.offset <= |data|
      && (Take(f, items, 0).rest == [] ==> r.test.offset == |data|)
  {
    var o' := FormatFollows(data, t, o, items, f, 0);
    CompiledReads(f, data, t);
    M.MoreFollows(o', Take(f, items, 0).rest);
  }

  /** The number of a message is read, and its format starts behind it. */
  lemma NumberedStart(items: seq<M.Item>, m: int)
    requires M.AllWritable(items) && |M.Chunk(items)| < WORD && items != [] && items[0] == M.Number(4, true, m)
    ensures var id := CheckInteger(M.Chunk(items), Test(4, 0, 0), 4, true);
      && id.Fine? && id.last == m && id.test.offset == 8
      && CheckerAt(M.Chunk(items), id.test, M.Write(M.OPEN, items[0]), items[1..])
  {
    ChunkStarts(items, 0);
    IntegerFollows(M.Chunk(items), Test(4, 0, 0), M.OPEN, items, 4, true);
    Int32Value(m);
  }

  /**
   A message that is written by the typed writers, with its number first and then items that follow the
   format of that number, is accepted, and if the format takes all of the items, it is checked to its end.
   */
  lemma FollowingMessageIsAccepted(formats: map<int, seq<Command>>, f: Format, items: seq<M.Item>, m: int)
    requires M.AllWritable(items) && |M.Chunk(items)| < WORD && items != [] && items[0] == M.Number(4, true, m)
    requires m in formats && formats[m] == Compile(f) && Take(f, items[1..], 0).Took?
    ensures var v := TestMessage(formats, M.Chunk(items));
      && v.Accepted? && v.test.offset <= |M.Chunk(items)|
      && (Take(f, items[1..], 0).rest == [] ==> v.test.offset == |M.Chunk(items)|)
  {
    NumberedStart(items, m);
    var id := CheckInteger(M.Chunk(items), Test(4, 0, 0), 4, true);
    FollowingIsAccepted(f, M.Chunk(items), id.test, M.Write(M.OPEN, items[0]), items[1..]);
  }

  /** A message whose items are too long for its format, or too few, is refused. */
  lemma DeniedMessageIsRefused(formats: map<int, seq<Command>>, f: Format, items: seq<M.Item>, m: int)
    requires M.AllWritable(items) && |M.Chunk(items)| < WORD && items != [] && items[0] == M.Number(4, true, m)
    requires m in formats && formats[m] == Compile(f) && Take(f, items[1..], 0).Denied?
    ensures TestMessage(formats, M.Chunk(items)) == Refused
  {
    NumberedStart(items, m);
    var data := M.Chunk(items);
    var id := CheckInteger(data, Test(4, 0, 0), 4, true);
    FormatDenied(data, id.test, M.Write(M.OPEN, items[0]), items[1..], f, 0);
    CompiledReads(f, data, id.test);
  }

  /** A text is let through exactly if it fits the limit of its format, its NUL included. */
  lemma TextPassesIffInLimit(formats: map<int, seq<Command>>, limit: nat, text: seq<byte>, m: int)
    requires M.Writable(M.Number(4, true, m)) && M.Writable(M.Text(text))
    requires |M.Chunk([M.Number(4, true, m), M.Text(text)])| < WORD
    requires m in formats && formats[m] == Compile(One(Text(limit), Empty))
    ensures var v := TestMessage(formats, M.Chunk([M.Number(4, true, m), M.Text(text)]));
      && (v.Accepted? <==> text == [] || |text| + 1 <= limit)
      && (v == Refused <==> text != [] && |text| + 1 > limit)
  {
    var items := [M.Number(4, true, m), M.Text(text)];
    var f := One(Text(limit), Empty);
    assert items[1..] == [M.Text(text)];
    if text == [] || |text| + 1 <= limit {
      FollowingMessageIsAccepted(formats, f, items, m);
    } else {
      DeniedMessageIsRefused(formats, f, items, m);
    }
  }

  /** A block is let through exactly if it fits the limit of its format. */
  lemma BlockPassesIffInLimit(formats: map<int, seq<Command>>, limit: nat, block: seq<byte>, m: int)
    requires M.Writable(M.Number(4, true, m)) && M.Writable(M.Block(block))
    requires |M.Chunk([M.Number(4, true, m), M.Block(block)])| < WORD
    requires m in formats && formats[m] == Compile(One(Blob(limit), Empty))
    ensures var v := TestMessage(formats, M.Chunk([M.Number(4, true, m), M.Block(block)]));
      && (v.Accepted? <==> |block| <= limit)
      && (v == Refused <==> |block| > limit)
  {
    var items := [M.Number(4, true, m), M.Block(block)];
    var f := One(Blob(limit), Empty);
    assert items[1..] == [M.Block(block)];
    if |block| <= limit {
      FollowingMessageIsAccepted(formats, f, items, m);
    } else {
      DeniedMessageIsRefused(formats, f, items, m);
    }
  }

  /** A message with a number is checked as its format reads it, as far as its multipliers mean what they say. */
  lemma TestedAsRead(formats: map<int, seq<Command>>, f: Format, data: seq<byte>)
    requires 8 <= |data|
    requires var id := CheckInteger(data, Test(4, 0, 0), 4, true); id.last in formats && formats[id.last] == Compile(f)
    ensures match Read(f, data, Test(8, 0, 0), 0)
      case Reads(t, last) => TestMessage(formats, data) == Accepted(t)
      case Rejects(fault) => TestMessage(formats, data) == Refused
      case Broken => true
  {
    CompiledReads(f, data, Test(8, 0, 0));
  }

  /**
   A message is accepted exactly if its format, one whose multipliers mean what they say, reads it, and
   exactly what the format reads is checked; otherwise it is refused.
   */
  lemma AcceptedExactlyIfRead(formats: map<int, seq<Command>>, f: Format, data: seq<byte>)
    requires 8 <= |data| && Steady(f, true)
    requires var id := CheckInteger(data, Test(4, 0, 0), 4, true); id.last in formats && formats[id.last] == Compile(f)
    ensures var m := Read(f, data, Test(8, 0, 0), 0);
      TestMessage(formats, data) == if m.Reads? then Accepted(m.test) else Refused
  {
    TestedAsRead(formats, f, data);
    SteadyNeverBroken(f, data, Test(8, 0, 0), 0, true);
  }
}
