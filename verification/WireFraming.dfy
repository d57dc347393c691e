/**
 Cutting a received byte stream into chunks.

 Bytes arrive in fragments of any size.  After each fragment the connection parses as many chunks as
 the buffer holds; an incomplete chunk stays at the front of the buffer, which may be enlarged for it.
 */
module WireFraming {
  import opened Sequences
  import opened WireValues

  /** The used part of an input buffer, how much of it is parsed, and the size of the whole buffer. */
  datatype Buffer = Buffer(data: seq<byte>, parsed: nat, capacity: nat)

  predicate Valid(b: Buffer) {
    b.parsed <= |b.data| <= b.capacity && 1024 <= b.capacity
  }

  datatype Outcome = Parsed(size: nat) | Waiting | OutOfLimit

  function HeaderOf(s: seq<byte>): nat
    requires |s| >= 4
  {
    Value(s[..4])
  }

  predicate Refused(size: nat, limit: nat) {
    (limit > 0 && size > limit) || size < 4
  }

  // ----- buffers -----

  /** The size of the smallest blocks. */
  const SMALLEST: nat := 1024

  /** The size class a request is rounded up to; above a megabyte, the request itself. */
  function RoundUp(size: nat, unit: nat): (r: nat)
    requires 1024 <= unit
    ensures r >= size && (unit <= 1048576 ==> r >= unit || r == size)
    decreases if unit > 1048576 then 0 else 1048576 + 1 - unit
  {
    if unit > 1048576 then size else if size <= unit then unit else RoundUp(size, 2 * unit)
  }

  function ReallocateTo(capacity: nat, size: nat): (r: nat)
    ensures r >= capacity && r >= size
  {
    if capacity >= size then capacity else RoundUp(size, SMALLEST)
  }

  function ReallocateToFit(b: Buffer, size: nat): Buffer {
    b.(capacity := ReallocateTo(b.capacity, size + |b.data|))
  }

  function RemoveParsed(b: Buffer): Buffer
    requires Valid(b)
  {
    b.(data := b.data[b.parsed..], parsed := 0)
  }

  function Room(b: Buffer): int {
    b.capacity - |b.data|
  }

  // ----- parsing -----

  /** Whether a buffer is enlarged for an incomplete chunk. */
  predicate Enlarges(capacity: nat, size: nat, limit: nat) {
    size < limit && size > capacity
  }

  /** What the parser makes of the unparsed bytes of a buffer. */
  function Look(s: seq<byte>, limit: nat): (o: Outcome)
    ensures o.Parsed? ==> 4 <= o.size <= |s|
  {
    if |s| < 4 then Waiting
    else if Refused(HeaderOf(s), limit) then OutOfLimit
    else if HeaderOf(s) <= |s| then Parsed(HeaderOf(s))
    else Waiting
  }

  function Enlarged(b: Buffer, limit: nat): (r: Buffer)
    requires Valid(b)
    ensures Valid(r) && r.data == b.data && r.parsed == b.parsed && r.capacity >= b.capacity
  {
    var s := b.data[b.parsed..];
    if |s| >= 4 && Enlarges(b.capacity, HeaderOf(s), limit) then ReallocateToFit(b, HeaderOf(s)) else b
  }

  function Parse(b: Buffer, limit: nat): (t: (Outcome, Buffer))
    requires Valid(b)
    ensures Valid(t.1)
  {
    var o := Look(b.data[b.parsed..], limit);
    (o, if o.Waiting? then RemoveParsed(Enlarged(b, limit)) else b)
  }

  /** The chunks in a buffer, one after another; the next call steps over the chunk just parsed. */
  function ParseAll(b: Buffer, limit: nat): (t: (seq<seq<byte>>, bool, Buffer))
    requires Valid(b)
    ensures Valid(t.2)
    decreases |b.data| - b.parsed
  {
    var (o, next) := Parse(b, limit);
    if o.Parsed? then
      var (chunks, failed, last) := ParseAll(b.(parsed := b.parsed + o.size), limit);
      ([b.data[b.parsed..b.parsed + o.size]] + chunks, failed, last)
    else ([], o.OutOfLimit?, next)
  }

  /** Bytes from the network, as many as fit. */
  function Receive(b: Buffer, fragment: seq<byte>): (r: Buffer)
    requires Valid(b) && |fragment| <= Room(b)
    ensures Valid(r)
  {
    b.(data := b.data + fragment)
  }

  // ----- the chunks of a stream -----

  datatype Cut = Cut(chunks: seq<seq<byte>>, rest: seq<byte>, refused: bool)

  /** The chunks a whole stream is made of, and the incomplete or refused rest. */
  function Frames(s: seq<byte>, limit: nat): Cut
    decreases |s|
  {
    var o := Look(s, limit);
    if o.Parsed? then
      var cut := Frames(s[o.size..], limit);
      cut.(chunks := [s[..o.size]] + cut.chunks)
    else Cut([], s, o.OutOfLimit?)
  }

  lemma UnparsedSplit(b: Buffer, size: nat)
    requires b.parsed + size <= |b.data|
    ensures b.data[b.parsed..][size..] == b.data[b.parsed + size..]
    ensures b.data[b.parsed..][..size] == b.data[b.parsed..b.parsed + size]
  {
  }

  lemma FramesNext(s: seq<byte>, size: nat, limit: nat)
    requires Look(s, limit) == Parsed(size)
    ensures var cut := Frames(s[size..], limit);
      Frames(s, limit) == Cut([s[..size]] + cut.chunks, cut.rest, cut.refused)
  {
  }

  lemma ParseAllNext(b: Buffer, size: nat, limit: nat)
    requires Valid(b) && Look(b.data[b.parsed..], limit) == Parsed(size)
    ensures b.parsed + size <= |b.data|
    ensures var (chunks, failed, last) := ParseAll(b.(parsed := b.parsed + size), limit);
      ParseAll(b, limit) == ([b.data[b.parsed..b.parsed + size]] + chunks, failed, last)
  {
  }

  lemma ParseAllStops(b: Buffer, limit: nat)
    requires Valid(b) && !Parse(b, limit).0.Parsed?
    ensures ParseAll(b, limit) == ([], Parse(b, limit).0.OutOfLimit?, Parse(b, limit).1)
  {
  }

  /** What parsing all of a buffer has come to, against what its bytes are made of. */
  predicate Yields(chunks: seq<seq<byte>>, failed: bool, last: Buffer, cut: Cut) {
    chunks == cut.chunks && failed == cut.refused && (!failed ==> last.data == cut.rest && last.parsed == 0)
  }

  predicate YieldsFrames(b: Buffer, s: seq<byte>, limit: nat)
    requires Valid(b)
  {
    var (chunks, failed, last) := ParseAll(b, limit);
    Yields(chunks, failed, last, Frames(s, limit))
  }

  /** The buffer after a chunk that was parsed. */
  lemma StepOver(b: Buffer, s: seq<byte>, size: nat) returns (rest: Buffer)
    requires Valid(b) && s == b.data[b.parsed..] && size <= |s|
    ensures b.parsed + size <= |b.data| && rest == b.(parsed := b.parsed + size)
    ensures Valid(rest) && s[size..] == rest.data[rest.parsed..]
  {
    UnparsedSplit(b, size);
    rest := b.(parsed := b.parsed + size);
  }

  lemma YieldsNext(b: Buffer, s: seq<byte>, size: nat, limit: nat)
    requires Valid(b) && s == b.data[b.parsed..] && Look(s, limit) == Parsed(size)
    requires b.parsed + size <= |b.data| && YieldsFrames(b.(parsed := b.parsed + size), s[size..], limit)
    ensures YieldsFrames(b, s, limit)
  {
    FramesNext(s, size, limit);
    ParseAllNext(b, size, limit);
    UnparsedSplit(b, size);
  }

  lemma YieldsNothing(b: Buffer, s: seq<byte>, limit: nat)
    requires Valid(b) && s == b.data[b.parsed..] && !Look(s, limit).Parsed?
    ensures YieldsFrames(b, s, limit)
  {
    ParseAllStops(b, limit);
  }

  /** Parsing as long as there are chunks yields the chunks of the bytes. */
  lemma {:induction false} ParseAllIsFrames(b: Buffer, s: seq<byte>, limit: nat)
    requires Valid(b) && s == b.data[b.parsed..]
    ensures YieldsFrames(b, s, limit)
    decreases |s|
  {
    if Look(s, limit).Parsed? {
      var size := Look(s, limit).size;
      var rest := StepOver(b, s, size);
      ParseAllIsFrames(rest, s[size..], limit);
      YieldsNext(b, s, size, limit);
    } else {
      YieldsNothing(b, s, limit);
    }
  }

  lemma LookFurther(a: seq<byte>, more: seq<byte>, limit: nat)
    requires |a| >= 4
    ensures !Look(a, limit).Waiting? ==> Look(a + more, limit) == Look(a, limit)
  {
    assert (a + more)[..4] == a[..4];
  }

  lemma FramesStep(a: seq<byte>, more: seq<byte>, limit: nat)
    requires Look(a, limit).Parsed? && Look(a + more, limit) == Look(a, limit)
    ensures var size := Look(a, limit).size;
      var cut, whole := Frames(a[size..], limit), Frames(a[size..] + more, limit);
      && Frames(a, limit) == cut.(chunks := [a[..size]] + cut.chunks)
      && Frames(a + more, limit) == whole.(chunks := [a[..size]] + whole.chunks)
  {
    var size := Look(a, limit).size;
    assert (a + more)[size..] == a[size..] + more && (a + more)[..size] == a[..size];
  }

  /** More bytes only add to what a stream was cut into. */
  lemma {:induction false} FramesAppend(a: seq<byte>, more: seq<byte>, limit: nat)
    ensures var cut := Frames(a, limit);
      if cut.refused then Frames(a + more, limit).chunks == cut.chunks && Frames(a + more, limit).refused
      else
        var next := Frames(cut.rest + more, limit);
        Frames(a + more, limit) == Cut(cut.chunks + next.chunks, next.rest, next.refused)
    decreases |a|
  {
    var o := Look(a, limit);
    if o.Waiting? {
      assert [] + Frames(a + more, limit).chunks == Frames(a + more, limit).chunks;
    } else {
      LookFurther(a, more, limit);
      if o.Parsed? {
        FramesAppend(a[o.size..], more, limit);
        FramesStep(a, more, limit);
        var first, cut := [a[..o.size]], Frames(a[o.size..], limit);
        if !cut.refused {
          var next := Frames(cut.rest + more, limit);
          Associative(first, cut.chunks, next.chunks);
        }
      }
    }
  }

  // ----- a connection -----

  datatype Connection = Connection(buffer: Buffer, chunks: seq<seq<byte>>, failed: bool)

  function Next(c: Connection, fragment: seq<byte>, limit: nat): (r: Connection)
    requires Valid(c.buffer) && |fragment| <= Room(c.buffer)
    ensures Valid(r.buffer)
  {
    if c.failed then c
    else
      var (chunks, failed, last) := ParseAll(Receive(c.buffer, fragment), limit);
      Connection(last, c.chunks + chunks, failed)
  }

  /** How large an input buffer is at first. */
  type Capacity = n: nat | 1024 <= n witness 1024

  function First(first: Capacity): Connection {
    Connection(Buffer([], 0, first), [], false)
  }

  /** The fragments fit the buffer, as they do when no more is read than there is room for. */
  predicate Fits(first: Capacity, fragments: seq<seq<byte>>, limit: nat)
    decreases |fragments|, 0
  {
    fragments == [] ||
    (&& Fits(first, fragments[..|fragments| - 1], limit)
     && |fragments[|fragments| - 1]| <= Room(After(first, fragments[..|fragments| - 1], limit).buffer))
  }

  function After(first: Capacity, fragments: seq<seq<byte>>, limit: nat): (c: Connection)
    requires Fits(first, fragments, limit)
    ensures Valid(c.buffer)
    decreases |fragments|, 1
  {
    if fragments == [] then First(first)
    else Next(After(first, fragments[..|fragments| - 1], limit), fragments[|fragments| - 1], limit)
  }

  /** A batch of chunks: the first one comes after a look that found no chunk. */
  function Batch(n: nat): (anew: seq<bool>)
    ensures |anew| == n
  {
    seq(n, i => i == 0)
  }

  /** Which chunks come after a look that found none: after every fragment the connection looks until there is none. */
  function Restarts(first: Capacity, fragments: seq<seq<byte>>, limit: nat): (anew: seq<bool>)
    requires Fits(first, fragments, limit)
    ensures |anew| == |After(first, fragments, limit).chunks|
    decreases |fragments|
  {
    if fragments == [] then []
    else
      var before := fragments[..|fragments| - 1];
      Restarts(first, before, limit)
      + Batch(|After(first, fragments, limit).chunks| - |After(first, before, limit).chunks|)
  }

  /** No fragment completes more than one chunk. */
  predicate OneByOne(first: Capacity, fragments: seq<seq<byte>>, limit: nat)
    requires Fits(first, fragments, limit)
    decreases |fragments|
  {
    fragments == [] ||
    (var before := fragments[..|fragments| - 1];
     && |After(first, fragments, limit).chunks| <= |After(first, before, limit).chunks| + 1
     && OneByOne(first, before, limit))
  }

  predicate AllAnew(anew: seq<bool>) {
    forall i | 0 <= i < |anew| :: anew[i]
  }

  lemma AnewConcat(a: seq<bool>, n: nat)
    requires AllAnew(a) && n <= 1
    ensures AllAnew(a + Batch(n))
  {
  }

  lemma {:induction false} OneByOneRestarts(first: Capacity, fragments: seq<seq<byte>>, limit: nat)
    requires Fits(first, fragments, limit) && OneByOne(first, fragments, limit)
    ensures AllAnew(Restarts(first, fragments, limit))
    decreases |fragments|
  {
    if fragments != [] {
      var before := fragments[..|fragments| - 1];
      var n := |After(first, fragments, limit).chunks| - |After(first, before, limit).chunks|;
      OneByOneRestarts(first, before, limit);
      AnewConcat(Restarts(first, before, limit), n);
    }
  }

  /** Whatever way the stream is cut into fragments, it yields the same chunks, in order, once each. */
  lemma {:induction false} FragmentsDoNotMatter(first: Capacity, fragments: seq<seq<byte>>, limit: nat)
    requires Fits(first, fragments, limit)
    ensures var c, cut := After(first, fragments, limit), Frames(Joined(fragments), limit);
      && c.chunks == cut.chunks && c.failed == cut.refused
      && (!c.failed ==> c.buffer.data == cut.rest && c.buffer.parsed == 0)
  {
    if fragments != [] {
      var before, f := fragments[..|fragments| - 1], fragments[|fragments| - 1];
      FragmentsDoNotMatter(first, before, limit);
      var c := After(first, before, limit);
      FramesAppend(Joined(before), f, limit);
      if !c.failed {
        var b := Receive(c.buffer, f);
        assert b.data[b.parsed..] == c.buffer.data + f;
        ParseAllIsFrames(b, c.buffer.data + f, limit);
      }
    }
  }

  // ----- room for more input -----

  /** What is waiting in the buffer of a connection: nothing yet, or a chunk of a known size. */
  predicate Incomplete(b: Buffer, limit: nat) {
    |b.data| < 4 || (!Refused(HeaderOf(b.data), limit) && |b.data| < HeaderOf(b.data))
  }

  /** A chunk can be received in full if it is below the limit, or fits the buffer as it is. */
  predicate CanGrow(capacity: nat, size: nat, limit: nat) {
    size < limit || size <= capacity
  }

  /** What a buffer with a capacity has become when parsing has stopped. */
  predicate LeavesRoom(capacity: nat, last: Buffer, limit: nat) {
    && Incomplete(last, limit) && last.parsed == 0 && last.capacity >= capacity
    && (|last.data| < 4 || CanGrow(capacity, HeaderOf(last.data), limit) ==> Room(last) > 0)
    && (|last.data| >= 4 && !CanGrow(capacity, HeaderOf(last.data), limit) ==> last.capacity == capacity)
  }

  lemma WaitingOnce(b: Buffer, limit: nat)
    requires Valid(b) && Parse(b, limit).0.Waiting?
    ensures LeavesRoom(b.capacity, Parse(b, limit).1, limit)
  {
    var last := Parse(b, limit).1;
    assert last.data == b.data[b.parsed..];
    if |last.data| >= 4 && Enlarges(b.capacity, HeaderOf(last.data), limit) {
      assert last.capacity >= HeaderOf(last.data) + |b.data|;
    } else {
      assert last.capacity == b.capacity;
    }
  }

  predicate Leaves(b: Buffer, limit: nat)
    requires Valid(b)
  {
    var (chunks, failed, last) := ParseAll(b, limit);
    !failed ==> LeavesRoom(b.capacity, last, limit)
  }

  lemma LeavesNext(b: Buffer, size: nat, limit: nat)
    requires Valid(b) && Look(b.data[b.parsed..], limit) == Parsed(size) && b.parsed + size <= |b.data|
    requires Leaves(b.(parsed := b.parsed + size), limit)
    ensures Leaves(b, limit)
  {
    ParseAllNext(b, size, limit);
  }

  lemma LeavesNothing(b: Buffer, limit: nat)
    requires Valid(b) && !Look(b.data[b.parsed..], limit).Parsed?
    ensures Leaves(b, limit)
  {
    ParseAllStops(b, limit);
    if Parse(b, limit).0.Waiting? {
      WaitingOnce(b, limit);
    }
  }

  lemma {:induction false} WaitingLeavesRoom(b: Buffer, s: seq<byte>, limit: nat)
    requires Valid(b) && s == b.data[b.parsed..]
    ensures Leaves(b, limit)
    decreases |s|
  {
    if Look(s, limit).Parsed? {
      var size := Look(s, limit).size;
      var rest := StepOver(b, s, size);
      WaitingLeavesRoom(rest, s[size..], limit);
      LeavesNext(b, size, limit);
    } else {
      LeavesNothing(b, limit);
    }
  }

  /** Parsing stops with room for more input whenever the chunk it waits for can be received at all. */
  lemma RoomIsLeft(first: Capacity, fragments: seq<seq<byte>>, limit: nat)
    requires Fits(first, fragments, limit) && !After(first, fragments, limit).failed
    ensures var b := After(first, fragments, limit).buffer;
      && Incomplete(b, limit)
      && (|b.data| < 4 || CanGrow(b.capacity, HeaderOf(b.data), limit) ==> Room(b) > 0)
  {
    if fragments != [] {
      var before := fragments[..|fragments| - 1];
      var b := Receive(After(first, before, limit).buffer, fragments[|fragments| - 1]);
      WaitingLeavesRoom(b, b.data[b.parsed..], limit);
    }
  }

  /** A connection that waits for a chunk which is not below the limit and larger than its buffer. */
  predicate Stuck(c: Connection, limit: nat) {
    var b := c.buffer;
    && !c.failed && b.parsed == 0 && |b.data| >= 4
    && !Refused(HeaderOf(b.data), limit) && !CanGrow(b.capacity, HeaderOf(b.data), limit)
  }

  lemma StuckStays(c: Connection, fragment: seq<byte>, limit: nat)
    requires Valid(c.buffer) && |fragment| <= Room(c.buffer) && Stuck(c, limit)
    ensures var next := Next(c, fragment, limit);
      Stuck(next, limit) && next.chunks == c.chunks && next.buffer == Receive(c.buffer, fragment)
  {
    var b := Receive(c.buffer, fragment);
    assert b.data[..4] == c.buffer.data[..4] && b.data[0..] == b.data;
  }

  /** Such a connection receives no chunk any more, however its bytes arrive, until the buffer is full. */
  lemma {:induction false} StuckForGood(first: Capacity, fragments: seq<seq<byte>>, more: seq<seq<byte>>, limit: nat)
    requires Fits(first, fragments + more, limit) && Fits(first, fragments, limit) &&
      Stuck(After(first, fragments, limit), limit)
    ensures var c, end := After(first, fragments, limit), After(first, fragments + more, limit);
      Stuck(end, limit) && end.chunks == c.chunks && end.buffer.capacity == c.buffer.capacity
  {
    if more == [] {
      assert fragments + more == fragments;
    } else {
      var all, before := fragments + more, fragments + more[..|more| - 1];
      assert all[..|all| - 1] == before;
      StuckForGood(first, fragments, more[..|more| - 1], limit);
      StuckStays(After(first, before, limit), all[|all| - 1], limit);
    }
  }

  // ----- which chunks can be received -----

  /** A connection that has the size of a chunk, and not yet all of the chunk. */
  predicate Awaits(c: Connection, limit: nat) {
    var b := c.buffer;
    !c.failed && b.parsed == 0 && |b.data| >= 4 && !Refused(HeaderOf(b.data), limit) && |b.data| < HeaderOf(b.data)
  }

  lemma UnparsedAwaits(first: Capacity, fragments: seq<seq<byte>>, limit: nat)
    requires Fits(first, fragments, limit) && !After(first, fragments, limit).failed &&
      |After(first, fragments, limit).buffer.data| >= 4
    ensures Awaits(After(first, fragments, limit), limit)
  {
    RoomIsLeft(first, fragments, limit);
    FragmentsDoNotMatter(first, fragments, limit);
  }

  lemma AfterNext(first: Capacity, fragments: seq<seq<byte>>, f: seq<byte>, limit: nat)
    requires Fits(first, fragments, limit) && |f| <= Room(After(first, fragments, limit).buffer)
    ensures Fits(first, fragments + [f], limit) &&
      After(first, fragments + [f], limit) == Next(After(first, fragments, limit), f, limit)
  {
    assert (fragments + [f])[..|fragments|] == fragments;
  }

  /** The last byte of a chunk completes it. */
  lemma LastByteDelivers(c: Connection, limit: nat)
    requires Valid(c.buffer) && Awaits(c, limit) && Room(c.buffer) > 0
    requires |c.buffer.data| + 1 == HeaderOf(c.buffer.data)
    ensures var next := Next(c, [0], limit);
      !next.failed && next.chunks == c.chunks + [c.buffer.data + [0]]
  {
    var b := Receive(c.buffer, [0]);
    assert b.data[0..] == b.data && b.data[..4] == c.buffer.data[..4];
    var n := HeaderOf(c.buffer.data);
    assert Parse(b, limit) == (Parsed(n), b);
    var end := b.(parsed := n);
    assert end.data[end.parsed..] == [];
    assert Parse(end, limit).0 == Waiting;
    assert ParseAll(end, limit).0 == [] && !ParseAll(end, limit).1;
    assert b.data[0..n] == b.data == c.buffer.data + [0];
    assert ParseAll(b, limit).0 == [b.data] + [];
  }

  /** Any byte before leaves the connection waiting for the same chunk, with room for more. */
  lemma ByteIsKept(c: Connection, limit: nat)
    requires Valid(c.buffer) && Awaits(c, limit) && Room(c.buffer) > 0
    requires |c.buffer.data| + 1 < HeaderOf(c.buffer.data) && CanGrow(c.buffer.capacity, HeaderOf(c.buffer.data), limit)
    ensures var next := Next(c, [0], limit);
      && Awaits(next, limit) && next.chunks == c.chunks && next.buffer.data == c.buffer.data + [0]
      && HeaderOf(next.buffer.data) == HeaderOf(c.buffer.data)
      && CanGrow(next.buffer.capacity, HeaderOf(next.buffer.data), limit)
  {
    var b := Receive(c.buffer, [0]);
    assert b.data[0..] == b.data && b.data[..4] == c.buffer.data[..4];
    assert Look(b.data, limit) == Waiting;
  }

  lemma {:induction false} ChunkCanArrive(first: Capacity, fragments: seq<seq<byte>>, limit: nat)
    returns (more: seq<seq<byte>>)
    requires Fits(first, fragments, limit) && Awaits(After(first, fragments, limit), limit)
    requires var b := After(first, fragments, limit).buffer; CanGrow(b.capacity, HeaderOf(b.data), limit)
    ensures Fits(first, fragments + more, limit) &&
      |After(first, fragments + more, limit).chunks| > |After(first, fragments, limit).chunks|
    decreases HeaderOf(After(first, fragments, limit).buffer.data) - |After(first, fragments, limit).buffer.data|
  {
    var c := After(first, fragments, limit);
    RoomIsLeft(first, fragments, limit);
    AfterNext(first, fragments, [0], limit);
    if |c.buffer.data| + 1 == HeaderOf(c.buffer.data) {
      LastByteDelivers(c, limit);
      more := [[0]];
    } else {
      ByteIsKept(c, limit);
      var rest := ChunkCanArrive(first, fragments + [[0]], limit);
      more := [[0]] + rest;
      Associative(fragments, [[0]], rest);
    }
  }

  ghost predicate CanArrive(first: Capacity, fragments: seq<seq<byte>>, limit: nat)
    requires Fits(first, fragments, limit)
  {
    exists more: seq<seq<byte>> ::
      Fits(first, fragments + more, limit) &&
        |After(first, fragments + more, limit).chunks| > |After(first, fragments, limit).chunks|
  }

  /** The chunk a connection waits for can be received exactly if it is below the limit or fits the buffer as it is. */
  lemma ArrivesExactlyIfItCanGrow(first: Capacity, fragments: seq<seq<byte>>, limit: nat)
    requires Fits(first, fragments, limit) && !After(first, fragments, limit).failed &&
      |After(first, fragments, limit).buffer.data| >= 4
    ensures var b := After(first, fragments, limit).buffer;
      CanArrive(first, fragments, limit) <==> CanGrow(b.capacity, HeaderOf(b.data), limit)
  {
    UnparsedAwaits(first, fragments, limit);
    var b := After(first, fragments, limit).buffer;
    if CanGrow(b.capacity, HeaderOf(b.data), limit) {
      var more := ChunkCanArrive(first, fragments, limit);
    } else {
      forall more: seq<seq<byte>> | Fits(first, fragments + more, limit)
        ensures After(first, fragments + more, limit).chunks == After(first, fragments, limit).chunks
      {
        StuckForGood(first, fragments, more, limit);
      }
    }
  }

  lemma SizeWaits(first: Capacity, size: nat, limit: nat)
    requires first < size < Power(4) && !Refused(size, limit) && size >= limit
    ensures var f := LittleEndian(size, 4);
      HeaderOf(f) == size && Next(First(first), f, limit) == Connection(Buffer(f, 0, first), [], false)
  {
    var f := LittleEndian(size, 4);
    ValueOfLittleEndian(size, 4);
    assert f[..4] == f && f[0..] == f && [] + f == f;
    assert Look(f, limit) == Waiting;
    assert Parse(Buffer(f, 0, first), limit) == (Waiting, Buffer(f, 0, first));
  }

  /** The size alone of an accepted chunk that is neither below the limit nor small blocks a new connection. */
  lemma SizeBlocks(first: Capacity, size: nat, limit: nat)
    requires first < size < Power(4) && !Refused(size, limit) && size >= limit
    ensures var f := LittleEndian(size, 4);
      Fits(first, [f], limit) && Stuck(After(first, [f], limit), limit) && !CanArrive(first, [f], limit)
  {
    var f := LittleEndian(size, 4);
    SizeWaits(first, size, limit);
    AfterNext(first, [], f, limit);
    assert [] + [f] == [f];
    ArrivesExactlyIfItCanGrow(first, [f], limit);
  }

  /** A chunk of exactly the limit, as large as the default one, and with no limit any chunk above the first buffer. */
  lemma LimitBlocks(first: Capacity, size: nat)
    requires first < size < Power(4)
    ensures first < 131072 ==> !CanArrive(first, [LittleEndian(131072, 4)], 131072)
    ensures Fits(first, [LittleEndian(size, 4)], 0) && !CanArrive(first, [LittleEndian(size, 4)], 0)
  {
    assert Power(4) == 0x1_0000_0000;
    if first < 131072 {
      SizeBlocks(first, 131072, 131072);
    }
    SizeBlocks(first, size, 0);
  }

  // ----- chunks that were sent -----

  predicate WellFormed(chunk: seq<byte>, limit: nat) {
    |chunk| >= 4 && HeaderOf(chunk) == |chunk| && !Refused(|chunk|, limit)
  }

  function Flat(chunks: seq<seq<byte>>): seq<byte> {
    if chunks == [] then [] else chunks[0] + Flat(chunks[1..])
  }

  lemma {:induction false} FramesOfChunks(chunks: seq<seq<byte>>, limit: nat)
    requires forall i | 0 <= i < |chunks| :: WellFormed(chunks[i], limit)
    ensures Frames(Flat(chunks), limit) == Cut(chunks, [], false)
  {
    if chunks != [] {
      var s, size := Flat(chunks), |chunks[0]|;
      FramesOfChunks(chunks[1..], limit);
      assert s[..4] == chunks[0][..4] && s[size..] == Flat(chunks[1..]) && s[..size] == chunks[0];
      assert [chunks[0]] + chunks[1..] == chunks;
    }
  }

  /** What is sent as chunks arrives as those chunks, and nothing is left in the buffer. */
  lemma ChunksArrive(first: Capacity, fragments: seq<seq<byte>>, chunks: seq<seq<byte>>, limit: nat)
    requires Fits(first, fragments, limit) && Joined(fragments) == Flat(chunks)
    requires forall i | 0 <= i < |chunks| :: WellFormed(chunks[i], limit)
    ensures var c := After(first, fragments, limit); c.chunks == chunks && !c.failed && c.buffer.data == []
  {
    FragmentsDoNotMatter(first, fragments, limit);
    FramesOfChunks(chunks, limit);
  }
}
