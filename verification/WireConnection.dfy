/**
 The buffers of a connection, and the writer and the reader of its chunks, which work in place.

 Every method is proved to do to the buffer what the functions of `WireMessage`, `WireFraming` and
 `WireCipher` do to values.
 */
module WireConnection {
  import opened Arrays
  import opened Sequences
  import opened WireValues
  import M = WireMessage
  import F = WireFraming
  import C = WireCipher

  const MEGABYTE := 1048576

  lemma TakeTaken(s: seq<byte>, t: seq<byte>, i: nat, j: nat, n: nat)
    requires i <= j <= n <= |s| && n <= |t| && s[..n] == t[..n]
    ensures s[i..j] == t[i..j]
  {
    assert s[i..j] == s[..n][i..j] && t[i..j] == t[..n][i..j];
  }

  /** What is written for a text once the booleans are flushed. */
  lemma TextCases(o: M.Out, text: seq<byte>)
    requires o.count < 8 && M.Writable(M.Text(text))
    ensures InRange(4, false, |text| + 1)
    ensures M.Write(o, M.Text(text)) ==
      M.Put(M.Flush(o), if text == [] then M.NumberBytes(4, 0) else M.SizeBytes(|text| + 1) + (text + [0]))
  {
  }

  /** Bytes copied behind the contents of the chunk at `u` are appended to them. */
  lemma Appended(before: seq<byte>, after: seq<byte>, u: nat, at: nat, data: seq<byte>)
    requires u + 4 <= at && at + |data| <= |after| && |before| == |after|
    requires after[..at] == before[..at] && after[at..at + |data|] == data
    ensures after[..u] == before[..u] && after[u + 4..at + |data|] == before[u + 4..at] + data
  {
    TakeTaken(after, before, 0, u, at);
    TakeTaken(after, before, u + 4, at, at);
    assert after[u + 4..at + |data|] == after[u + 4..at] + after[at..at + |data|];
  }

  lemma PutTwice(o: M.Out, a: seq<byte>, b: seq<byte>)
    ensures M.Put(M.Put(o, a), b) == M.Put(o, a + b)
  {
    assert (M.Flush(o).body + a) + b == M.Flush(o).body + (a + b);
  }

  /** A chunk as it is sent: its size, and its contents coded. */
  function Finished(body: seq<byte>, cipher: C.Method): seq<byte>
    requires C.Known(cipher)
  {
    var chunk := M.SizeBytes(4 + |body|) + body;
    C.CodedChunk(cipher, true, chunk, 0, |chunk|)
  }

  lemma PartsBehind(s: seq<byte>, before: seq<byte>, chunk: seq<byte>)
    requires 4 <= |chunk| && |before| + |chunk| <= |s| && s[..|before| + |chunk|] == before + chunk
    ensures s[..|before| + 4] == before + chunk[..4] && s[|before| + 4..|before| + |chunk|] == chunk[4..]
  {
    var n, m := |before|, |before| + |chunk|;
    assert s[..n + 4] == s[..m][..n + 4];
    assert s[n + 4..m] == s[..m][n + 4..];
  }

  lemma Regrouped(before: seq<byte>, h: seq<byte>, x: seq<byte>, t: seq<byte>)
    ensures (before + h + x + t)[..|before| + |h| + |x|] == before + (h + x)
  {
  }

  /** Coding a chunk in a buffer leaves what is before it. */
  lemma CodedBehind(cipher: C.Method, s: seq<byte>, before: seq<byte>, chunk: seq<byte>)
    requires C.Known(cipher) && 4 <= |chunk| && |before| + |chunk| <= |s| && s[..|before| + |chunk|] == before + chunk
    ensures C.CodedChunk(cipher, true, s, |before|, |chunk|)[..|before| + |chunk|] ==
      before + C.CodedChunk(cipher, true, chunk, 0, |chunk|)
  {
    var x := C.Code(cipher, true, chunk[4..]);
    PartsBehind(s, before, chunk);
    Regrouped(before, chunk[..4], x, s[|before| + |chunk|..]);
    assert chunk[4..|chunk|] == chunk[4..] && chunk[|chunk|..] == [];
    assert C.CodedChunk(cipher, true, chunk, 0, |chunk|) == chunk[..4] + x;
  }

  lemma FlushCases(o: M.Out)
    ensures M.Flush(o) == if o.count == 0 then o else M.Out(o.body + [o.bits], o.bits, 0)
  {
  }

  lemma WriteBitCases(o: M.Out, b: bool)
    requires o.count < 8
    ensures o.count == 7 ==> M.WriteBit(o, b) == M.Out(o.body + [PutBit(o.bits, 7, b)], PutBit(o.bits, 7, b), 0)
    ensures o.count < 7 ==> M.WriteBit(o, b) == M.Out(o.body, PutBit(o.bits, o.count, b), o.count + 1)
  {
  }

  lemma Inside<T>(a: seq<T>, b: seq<T>, c: seq<T>, u: nat)
    requires |a| + |b| <= u <= |a| + |b| + |c|
    ensures var all := (a + b) + c;
      all[..|a|] == a && all[|a|..u][..|b|] == b && all[|a|..u][|b|..] == c[..u - |a| - |b|]
  {
  }

  lemma CodedInside(cipher: C.Method, s: seq<byte>, p: nat, n: nat, u: nat)
    requires C.Known(cipher) && 4 <= n && p + n <= u <= |s|
    ensures var coded := C.CodedChunk(cipher, false, s, p, n);
      && |coded| == |s| && coded[..p] == s[..p]
      && coded[p..u][..n] == C.CodedChunk(cipher, false, s[p..p + n], 0, n)
      && coded[p..u][n..] == s[p + n..u]
  {
    var chunk, middle := s[p..p + n], C.Code(cipher, false, s[p + 4..p + n]);
    assert chunk[4..n] == s[p + 4..p + n] && chunk[n..] == [] && chunk[..4] == s[p..p + 4];
    assert C.CodedChunk(cipher, false, chunk, 0, n) == s[p..p + 4] + middle;
    assert (s[..p + 4] + middle) + s[p + n..] == (s[..p] + (s[p..p + 4] + middle)) + s[p + n..];
    Inside(s[..p], s[p..p + 4] + middle, s[p + n..], u);
  }

  lemma HeaderInside(s: seq<byte>, p: nat, u: nat)
    requires p + 4 <= u <= |s|
    ensures s[..u][p..][..4] == s[p..p + 4]
  {
  }

  lemma PartsInside(s: seq<byte>, p: nat, n: nat, u: nat)
    requires p + n <= u <= |s|
    ensures s[..u][p..p + n] == s[p..p + n] && s[..u][p + n..] == s[p + n..u]
  {
  }

  /** What a reader sees of the used part of a buffer, once the chunk at `p` is decoded. */
  lemma OpenedInside(cipher: C.Method, s: seq<byte>, p: nat, n: nat, u: nat)
    requires C.Known(cipher) && 4 <= n && p + n <= u <= |s|
    ensures var data, used := C.CodedChunk(cipher, false, s, p, n)[p..u], s[..u];
      |data| == u - p && data[..n] == C.CodedChunk(cipher, false, used[p..p + n], 0, n) && data[n..] == used[p + n..]
  {
    CodedInside(cipher, s, p, n, u);
    PartsInside(s, p, n, u);
  }

  lemma SizedChunk(s: seq<byte>, whole: seq<byte>, used: nat, n: nat)
    requires 4 <= n && used + n <= |s| == |whole|
    requires s[..used] == whole[..used] && s[used + 4..] == whole[used + 4..]
    ensures s[..used + n] == whole[..used] + (s[used..used + 4] + whole[used + 4..used + n])
  {
    assert whole[used + 4..used + n] == s[used + 4..][..n - 4];
  }

  class Memory {
    var md: array<byte>
    var used: nat
    var parsed: nat

    ghost predicate Valid()
      reads this
    {
      parsed <= used <= md.Length && 1024 <= md.Length
    }

    ghost function Used(): seq<byte>
      requires Valid()
      reads this, md
    {
      md[..used]
    }

    ghost function View(): F.Buffer
      requires Valid()
      reads this, md
    {
      F.Buffer(md[..used], parsed, md.Length)
    }

    function Free(): nat
      requires Valid()
      reads this
    {
      md.Length - used
    }

    constructor ()
      ensures Valid() && fresh(md) && used == 0 && parsed == 0 && md.Length == 1024
    {
      md := new byte[1024];
      used, parsed := 0, 0;
    }

    /** Small requests are rounded up to a power of two, large ones are served as they are. */
    static method Allocate(size: nat) returns (block: array<byte>)
      ensures fresh(block) && block.Length == F.RoundUp(size, F.SMALLEST)
    {
      var tmp: nat := 1024;
      while tmp <= MEGABYTE && size > tmp
        invariant 1024 <= tmp && F.RoundUp(size, F.SMALLEST) == F.RoundUp(size, tmp)
        decreases MEGABYTE + 1 - tmp
      {
        tmp := 2 * tmp;
      }
      block := new byte[if tmp > MEGABYTE then size else tmp];
    }

    /** Moves the contents to a larger buffer. */
    method Enlarge(size: nat)
      requires Valid() && size >= md.Length
      modifies this`md
      ensures Valid() && fresh(md) && md.Length == F.RoundUp(size, F.SMALLEST)
      ensures md[..old(md.Length)] == old(md[..])
    {
      var larger := Allocate(size);
      forall i | 0 <= i < md.Length {
        larger[i] := md[i];
      }
      md := larger;
    }

    method ReallocateTo(size: nat)
      requires Valid()
      modifies this`md
      ensures Valid() && (md == old(md) || fresh(md)) && md.Length == F.ReallocateTo(old(md.Length), size)
      ensures md[..old(md.Length)] == old(md[..])
    {
      if md.Length < size {
        Enlarge(size);
      }
    }

    /** Makes room for `size` more bytes. */
    method ReallocateToFit(size: nat)
      requires Valid()
      modifies this`md
      ensures Valid() && (md == old(md) || fresh(md)) && md.Length == F.ReallocateTo(old(md.Length), size + used)
      ensures md[..old(md.Length)] == old(md[..])
    {
      ReallocateTo(size + used);
    }

    /** Doubles the buffer, unless it is above a megabyte. */
    method Reallocate() returns (ok: bool)
      requires Valid()
      modifies this`md
      ensures Valid() && ok == (old(md.Length) <= MEGABYTE) && (md == old(md) || fresh(md))
      ensures md.Length == if ok then F.RoundUp(2 * old(md.Length), F.SMALLEST) else old(md.Length)
      ensures md[..old(md.Length)] == old(md[..])
    {
      ok := md.Length <= MEGABYTE;
      if ok {
        Enlarge(2 * md.Length);
      }
    }

    method RemoveParsed()
      requires Valid()
      modifies this, md
      ensures Valid() && md == old(md) && View() == F.RemoveParsed(old(View()))
    {
      ghost var rest := md[..used][parsed..];
      forall i | 0 <= i < used - parsed {
        md[i] := md[parsed + i];
      }
      used := used - parsed;
      parsed := 0;
      assert md[..used] == rest;
    }
  }

  class Writer {
    const out: Memory
    /** The chunk being written: whether it is open, and how far it is written, its header included. */
    var open: bool
    var offset: nat
    var bits: byte
    var count: byte
    var failed: bool

    ghost predicate Valid()
      reads this, out
    {
      out.Valid() && count < 8 && (if open then 4 <= offset && out.used + offset <= out.md.Length else offset == 0)
    }

    ghost function Body(): seq<byte>
      requires Valid()
      reads this, out, out.md
    {
      if open then out.md[out.used + 4..out.used + offset] else []
    }

    ghost function View(): M.Out
      requires Valid()
      reads this, out, out.md
    {
      M.Out(Body(), bits, count)
    }

    /** No chunk can be opened: the buffer is full and too large to be doubled. */
    ghost predicate Blocked()
      requires Valid()
      reads this, out
    {
      !open && out.Free() < 4 && out.md.Length > MEGABYTE
    }

    constructor (memory: Memory)
      requires memory.Valid()
      ensures Valid() && View() == M.OPEN && !failed && out == memory
    {
      out := memory;
      open, offset, bits, count, failed := false, 0, 0, 0, false;
    }

    method OpenChunk() returns (ok: bool)
      requires Valid() && !open
      modifies this, out`md, out.md
      ensures Valid() && (out.md == old(out.md) || fresh(out.md)) && out.Used() == old(out.Used())
      ensures ok == open == !old(Blocked()) && failed == (old(failed) || !ok)
      ensures bits == old(bits) && count == old(count) && Body() == []
    {
      ok := true;
      ghost var used := out.Used();
      if out.Free() < 4 {
        ok := out.Reallocate();
        assert out.Used() == used;
      }
      if !ok {
        failed := true;
        return;
      }
      forall i | 0 <= i < 4 {
        out.md[out.used + i] := 0;
      }
      assert out.Used() == used;
      open, offset := true, 4;
    }

    /** Enlarges the buffer if the open chunk does not fit with `size` more bytes. */
    method MakeRoom(size: nat)
      requires Valid() && open
      modifies out`md
      ensures Valid() && (out.md == old(out.md) || fresh(out.md)) && out.Used() == old(out.Used())
      ensures Body() == old(Body()) && out.used + offset + size <= out.md.Length
    {
      ghost var used, body, whole := out.Used(), Body(), out.md[..];
      if out.Free() < size + offset {
        out.ReallocateToFit(offset + size);
        assert out.md[..][..|whole|] == whole == whole[..|whole|];
        TakeTaken(out.md[..], whole, 0, out.used, |whole|);
        TakeTaken(out.md[..], whole, out.used + 4, out.used + offset, |whole|);
        assert out.Used() == used && Body() == body;
      }
    }

    /** Room for `size` more bytes of the chunk, at the index returned. */
    method WPos(size: nat) returns (ok: bool, at: nat)
      requires Valid()
      modifies this, out`md, out.md
      ensures Valid() && (out.md == old(out.md) || fresh(out.md)) && out.Used() == old(out.Used())
      ensures ok == open == !old(Blocked()) && failed == (old(failed) || !ok)
      ensures bits == old(bits) && count == old(count)
      ensures ok ==> at == out.used + 4 + |old(Body())| && at + size == out.used + offset
      ensures ok ==> out.md[out.used + 4..at] == old(Body())
    {
      ok, at := true, 0;
      if !open {
        ok := OpenChunk();
      }
      if ok {
        MakeRoom(size);
        at := out.used + offset;
        offset := offset + size;
      }
    }

    /** Writes bytes into the chunk, opening it if need be. */
    method Append(data: seq<byte>)
      requires Valid()
      modifies this, out`md, out.md
      ensures Valid() && (out.md == old(out.md) || fresh(out.md)) && out.Used() == old(out.Used())
      ensures failed == (old(failed) || old(Blocked())) && open == !old(Blocked())
      ensures bits == old(bits) && count == old(count)
      ensures !failed ==> Body() == old(Body()) + data
    {
      ghost var used, body := out.Used(), Body();
      var ok, at := WPos(|data|);
      if ok {
        ghost var whole := out.md[..];
        assert whole[..out.used] == used && whole[out.used + 4..at] == body;
        Copy(out.md, at, data);
        Appended(whole, out.md[..], out.used, at, data);
        assert out.Used() == out.md[..][..out.used] && Body() == out.md[..][out.used + 4..at + |data|];
      }
    }

    method FlushBitsCache()
      requires Valid()
      modifies this, out`md, out.md
      ensures Valid() && (out.md == old(out.md) || fresh(out.md)) && out.Used() == old(out.Used())
      ensures failed == (old(failed) || (old(count) > 0 && old(Blocked()))) && count == 0
      ensures open == (old(open) || (old(count) > 0 && !old(Blocked())))
      ensures !failed ==> View() == M.Flush(old(View())) && Blocked() == (old(count) == 0 && old(Blocked()))
    {
      FlushCases(View());
      if count != 0 {
        ghost var body := Body();
        count := 0;
        assert Body() == body;
        Append([bits]);
      }
    }

    method Wb(on: bool)
      requires Valid()
      modifies this, out`md, out.md
      ensures Valid() && (out.md == old(out.md) || fresh(out.md)) && out.Used() == old(out.Used())
      ensures failed == (old(failed) || (old(count) == 7 && old(Blocked())))
      ensures !failed ==> View() == M.WriteBit(old(View()), on)
    {
      WriteBitCases(View(), on);
      ghost var body := Body();
      bits := PutBit(bits, count, on);
      if count == 7 {
        count := 0;
        assert Body() == body;
        Append([bits]);
      } else {
        count := count + 1;
      }
    }

    /** Flushes the booleans and writes bytes, as every writer of other values does. */
    method WBytes(data: seq<byte>)
      requires Valid()
      modifies this, out`md, out.md
      ensures Valid() && (out.md == old(out.md) || fresh(out.md)) && out.Used() == old(out.Used())
      ensures failed == (old(failed) || old(Blocked())) && (!failed ==> open)
      ensures !failed ==> View() == M.Put(old(View()), data)
    {
      FlushBitsCache();
      Append(data);
    }

    /** The writers of integers of one to eight bytes. */
    method WNumber(width: nat, value: int)
      requires Valid() && 0 <= value + Power(width)
      modifies this, out`md, out.md
      ensures Valid() && (out.md == old(out.md) || fresh(out.md)) && out.Used() == old(out.Used())
      ensures failed == (old(failed) || old(Blocked())) && (!failed ==> open)
      ensures !failed ==> View() == M.Put(old(View()), M.NumberBytes(width, value))
    {
      WBytes(LittleEndian(ToWire(width, value), width));
    }

    /** A size, and bytes behind it. */
    method WSized(size: nat, data: seq<byte>)
      requires Valid() && InRange(4, false, size)
      modifies this, out`md, out.md
      ensures Valid() && (out.md == old(out.md) || fresh(out.md)) && out.Used() == old(out.Used())
      ensures failed == (old(failed) || old(Blocked())) && (!failed ==> open)
      ensures !failed ==> View() == M.Put(old(View()), M.SizeBytes(size) + data)
    {
      PutTwice(View(), M.SizeBytes(size), data);
      WNumber(4, size);
      WBytes(data);
    }

    method WT(text: seq<byte>)
      requires Valid() && M.Writable(M.Text(text))
      modifies this, out`md, out.md
      ensures Valid() && (out.md == old(out.md) || fresh(out.md)) && out.Used() == old(out.Used())
      ensures failed == (old(failed) || old(Blocked())) && (!failed ==> open)
      ensures !failed ==> View() == M.Write(old(View()), M.Text(text))
    {
      TextCases(View(), text);
      FlushBitsCache();
      if text == [] {
        WNumber(4, 0);
      } else {
        WSized(|text| + 1, text + [0]);
      }
    }

    method WBlock(data: seq<byte>)
      requires Valid() && M.Writable(M.Block(data))
      modifies this, out`md, out.md
      ensures Valid() && (out.md == old(out.md) || fresh(out.md)) && out.Used() == old(out.Used())
      ensures failed == (old(failed) || old(Blocked())) && (!failed ==> open)
      ensures !failed ==> View() == M.Write(old(View()), M.Block(data))
    {
      FlushBitsCache();
      WSized(|data|, data);
    }

    /** The size of the chunk goes into its first four bytes. */
    method PutSize()
      requires Valid() && open
      modifies out.md
      ensures Valid() && out.md[..out.used + offset] == old(out.Used()) + (M.SizeBytes(offset) + old(Body()))
    {
      ghost var whole := out.md[..];
      Copy(out.md, out.used, M.SizeBytes(offset));
      SizedChunk(out.md[..], whole, out.used, offset);
    }

    method CodeContents(cipher: C.Method, ghost chunk: seq<byte>, ghost used: seq<byte>)
      requires Valid() && open && C.Known(cipher)
      requires |chunk| == offset && |used| == out.used && out.md[..out.used + offset] == used + chunk
      modifies out.md
      ensures Valid() && out.md[..out.used + offset] == used + C.CodedChunk(cipher, true, chunk, 0, offset)
    {
      ghost var before := out.md[..];
      C.CodeChunk(cipher, true, out.md, out.used, offset);
      CodedBehind(cipher, before, used, chunk);
    }

    /** The chunk gets its size, its contents are coded, and it is ready to be sent. */
    method CloseChunk(cipher: C.Method)
      requires Valid() && open && count == 0 && C.Known(cipher)
      modifies this, out`used, out.md
      ensures Valid() && View() == M.OPEN && !open && failed == old(failed)
      ensures out.Used() == old(out.Used()) + Finished(old(Body()), cipher)
    {
      ghost var used, body := out.Used(), Body();
      PutSize();
      CodeContents(cipher, M.SizeBytes(offset) + body, used);
      assert Finished(body, cipher) == C.CodedChunk(cipher, true, M.SizeBytes(offset) + body, 0, offset);
      out.used := out.used + offset;
      open, offset, bits, count := false, 0, 0, 0;
    }

    /** Ends the chunk; it is an error if nothing has been written. */
    method A(cipher: C.Method)
      requires Valid() && C.Known(cipher)
      modifies this, out, out.md
      ensures Valid() && (out.md == old(out.md) || fresh(out.md))
      ensures failed == (old(failed) || (old(count) > 0 && old(Blocked())) || (!old(open) && old(count) == 0))
      ensures !failed ==> View() == M.OPEN
      ensures !failed ==> out.Used() == old(out.Used()) + Finished(M.Flush(old(View())).body, cipher)
    {
      if failed {
        return;
      }
      FlushBitsCache();
      if !failed {
        if open {
          CloseChunk(cipher);
        } else {
          failed := true;
        }
      }
    }
  }

  class Reader {
    const input: Memory
    const limit: nat
    const cipher: C.Method
    /** The chunk being read: it starts at the first byte not parsed. */
    var open: bool
    var size: nat
    var offset: nat
    var bits: byte
    var count: byte
    var failed: bool
    /** The buffer from the start of the last chunk on, as it was when that was parsed, and the size of the chunk. */
    ghost var data: seq<byte>
    ghost var whole: nat

    ghost predicate Valid()
      reads this, input, input.md
    {
      && input.Valid() && C.Known(cipher) && count <= 8
      && (if open then
            && size == whole && data == input.md[input.parsed..input.used]
            && 4 <= size <= |data| && 4 <= offset <= |data|
          else size == 0 && offset == 0)
    }

    ghost function View(): M.In
      reads this
    {
      M.In(data, whole, open, offset, bits, count, failed)
    }

    constructor (memory: Memory, limit: nat, cipher: C.Method)
      requires memory.Valid() && C.Known(cipher)
      ensures Valid() && !open && count == 0 && !failed && input == memory
      ensures this.limit == limit && this.cipher == cipher
    {
      this.input, this.limit, this.cipher := memory, limit, cipher;
      open, size, offset, bits, count, failed := false, 0, 0, 0, 0, false;
      data, whole := [], 0;
    }

    /** The chunk is read to its end: it counts as parsed. */
    method E()
      requires Valid() && open
      modifies this, input`parsed
      ensures Valid() && View() == M.Close(old(View())) && input.parsed == old(input.parsed) + old(size)
    {
      input.parsed := input.parsed + size;
      open, size, offset, bits, count := false, 0, 0, 0, 0;
    }

    /** The next `n` bytes of the chunk. */
    method RPos(n: nat) returns (s: seq<byte>)
      requires Valid()
      modifies this, input`parsed
      ensures Valid() && (s, View()) == M.Take(old(View()), n)
      ensures input.parsed == old(input.parsed) + if old(open) && !open then old(size) else 0
    {
      if !open || input.used - input.parsed < offset + n {
        failed := true;
        return [];
      }
      s := input.md[input.parsed + offset..input.parsed + offset + n];
      Within(input.md[..], input.parsed, input.used, offset, offset + n);
      assert s == data[offset..offset + n];
      offset := offset + n;
      if offset == size {
        E();
      }
    }

    method RU() returns (b: byte)
      requires Valid()
      modifies this, input`parsed
      ensures Valid() && (b, View()) == M.ReadByte(old(View()))
    {
      count := 0;
      var s := RPos(1);
      b := if |s| == 1 then s[0] else 0;
    }

    method Rb() returns (on: bool)
      requires Valid()
      modifies this, input`parsed
      ensures Valid() && (on, View()) == M.ReadBit(old(View()))
    {
      if count == 0 {
        bits := RU();
        count := 8;
      }
      on := HasBit(bits, 8 - count);
      count := count - 1;
    }

    /** The readers of integers of one to eight bytes. */
    method RNumber(width: nat, signed: bool) returns (v: int)
      requires Valid()
      modifies this, input`parsed
      ensures Valid() && (v, View()) == M.ReadNumber(old(View()), width, signed)
    {
      count := 0;
      var s := RPos(width);
      v := if |s| == width then FromWire(width, signed, Value(s)) else 0;
    }

    method RT() returns (text: seq<byte>)
      requires Valid()
      modifies this, input`parsed
      ensures Valid() && (text, View()) == M.ReadText(old(View()))
    {
      var n := RNumber(4, true);
      if n == 0 {
        return [];
      }
      if n < 0 {
        failed := true;
        return [];
      }
      var s := RPos(n);
      text := M.UntilNul(s);
    }

    method RBlock(n: nat) returns (block: seq<byte>)
      requires Valid()
      modifies this, input`parsed
      ensures Valid() && (block, View()) == M.ReadBlock(old(View()), n)
    {
      var stored := RNumber(4, false);
      if stored != n {
        failed := true;
        return [];
      }
      block := RPos(n);
    }

    /** The buffer once the open chunk, if there is one, is stepped over. */
    ghost function Ahead(): F.Buffer
      requires Valid()
      reads this, input, input.md
    {
      F.Buffer(input.md[..input.used], input.parsed + if open then size else 0, input.md.Length)
    }

    /** Enlarges the buffer if the chunk it starts with needs a larger one. */
    method EnlargeForChunk()
      requires input.Valid()
      modifies input`md
      ensures input.Valid() && (input.md == old(input.md) || fresh(input.md))
      ensures input.View() == F.Enlarged(old(input.View()), limit)
    {
      ghost var b, whole := input.View(), input.md[..];
      if input.used - input.parsed >= 4 {
        var n := Value(input.md[input.parsed..input.parsed + 4]);
        HeaderInside(input.md[..], input.parsed, input.used);
        assert n == F.HeaderOf(b.data[b.parsed..]);
        if n < limit && n > input.md.Length {
          input.ReallocateToFit(n);
          assert input.md[..input.used] == whole[..input.used] == b.data;
        }
      }
    }

    /** Keeps what is not parsed, in a larger buffer if the chunk it starts needs one. */
    method Stop()
      requires input.Valid() && C.Known(cipher)
      modifies this, input, input.md
      ensures Valid() && (input.md == old(input.md) || fresh(input.md)) && !open && count == 0 && failed == old(failed)
      ensures input.View() == F.RemoveParsed(F.Enlarged(old(input.View()), limit))
    {
      EnlargeForChunk();
      input.RemoveParsed();
      open, size, offset, bits, count := false, 0, 0, 0, 0;
    }

    /** A chunk of `n` bytes at the front of `b` is open and decoded, and what follows it is as before. */
    ghost predicate IsOpened(b: F.Buffer, n: nat)
      requires Valid() && b.parsed + n <= |b.data| && 4 <= n
      reads this, input, input.md
    {
      && open && size == n && offset == 4 && input.parsed == b.parsed && input.md.Length == b.capacity
      && data[..n] == C.CodedChunk(cipher, false, b.data[b.parsed..b.parsed + n], 0, n)
      && data[n..] == b.data[b.parsed + n..]
    }

    /** Decodes the chunk of `n` bytes that comes next; `seen` is what is then unparsed. */
    method DecodeParsed(n: nat) returns (seen: seq<byte>)
      requires input.Valid() && C.Known(cipher) && 4 <= n <= input.used - input.parsed
      modifies input.md
      ensures seen == input.md[input.parsed..input.used]
      ensures var used := old(input.md[..input.used]);
        && seen[..n] == C.CodedChunk(cipher, false, used[input.parsed..input.parsed + n], 0, n)
        && seen[n..] == used[input.parsed + n..]
    {
      ghost var s := input.md[..];
      C.CodeChunk(cipher, false, input.md, input.parsed, n);
      OpenedInside(cipher, s, input.parsed, n, input.used);
      seen := input.md[input.parsed..input.used];
      assert input.md[..][input.parsed..input.used] == seen && s[..input.used] == old(input.md[..input.used]);
    }

    /** Decodes the chunk of `n` bytes that comes next and opens it for reading. */
    method OpenParsed(n: nat)
      requires input.Valid() && C.Known(cipher) && count <= 8 && 4 <= n <= input.used - input.parsed
      modifies this, input.md
      ensures Valid() && IsOpened(old(input.View()), n)
      ensures bits == old(bits) && count == old(count) && failed == old(failed)
    {
      var seen := DecodeParsed(n);
      open, size, offset := true, n, 4;
      data, whole := seen, n;
    }

    method StepOver()
      requires Valid()
      modifies this, input`parsed
      ensures Valid() && !open && input.View() == old(Ahead()) && Ahead() == input.View()
      ensures bits == old(bits) && count == old(count) && failed == old(failed)
    {
      if open {
        input.parsed := input.parsed + size;
        open, size, offset := false, 0, 0;
      }
    }

    method ParseNext() returns (ok: bool, ghost n: nat)
      requires Valid() && !open
      modifies this, input, input.md
      ensures Valid() && (input.md == old(input.md) || fresh(input.md))
      ensures var b := old(input.View());
        var outcome := F.Look(b.data[b.parsed..], limit);
        && ok == outcome.Parsed? && failed == (old(failed) || outcome.OutOfLimit?)
        && (!ok ==> !open && count == 0 && input.View() == F.Parse(b, limit).1)
        && (ok ==> outcome.size == n && IsOpened(b, n) && bits == old(bits) && count == old(count))
    {
      ghost var b := input.View();
      var outcome := F.Look(input.md[input.parsed..input.used], limit);
      assert input.md[input.parsed..input.used] == b.data[b.parsed..];
      ok, n := false, 0;
      match outcome {
        case Waiting =>
          Stop();
        case OutOfLimit =>
          failed := true;
          bits, count := 0, 0;
        case Parsed(m) =>
          OpenParsed(m);
          ok, n := true, m;
      }
    }

    /** Steps over the open chunk and looks for the next: whether there is one, complete and not refused. */
    method Parse() returns (ok: bool, ghost n: nat)
      requires Valid()
      modifies this, input, input.md
      ensures Valid() && (input.md == old(input.md) || fresh(input.md))
      ensures var (outcome, next) := F.Parse(old(Ahead()), limit);
        && ok == outcome.Parsed? && failed == (old(failed) || outcome.OutOfLimit?)
        && (!ok ==> !open && count == 0 && input.View() == next)
        && (ok ==> outcome.size == n && IsOpened(old(Ahead()), n) && bits == old(bits) && count == old(count))
    {
      StepOver();
      ok, n := ParseNext();
    }
  }
}
