/**
 The manager of the memory pool, which hands out blocks and takes them back.

 Every method keeps the books of the pool: which blocks are in use and which are kept, how many of
 each class, and how many bytes in all.
 */
module MemoryManager {
  import opened Arrays
  import opened WireValues
  import opened MemoryPool
  import WireFraming

  const LARGEST := 0x8000_0000

  /** The blocks that are kept. */
  ghost function AllKept(cached: seq<seq<Block>>): set<Block> {
    set pos: nat, i: nat | pos < |cached| && i < |cached[pos]| :: cached[pos][i]
  }

  lemma PopKept(cached: seq<seq<Block>>, pos: nat)
    requires pos < |cached| && cached[pos] != []
    ensures var n := |cached[pos]| - 1;
      AllKept(cached[pos := cached[pos][..n]]) <= AllKept(cached) && cached[pos][n] in AllKept(cached)
  {
    var n := |cached[pos]| - 1;
    var cached' := cached[pos := cached[pos][..n]];
    forall b | b in AllKept(cached')
      ensures b in AllKept(cached)
    {
      var p: nat, i: nat :| p < |cached'| && i < |cached'[p]| && cached'[p][i] == b;
      assert cached[p][i] == b;
    }
  }

  lemma PushKept(cached: seq<seq<Block>>, pos: nat, md: Block)
    requires pos < |cached|
    ensures AllKept(cached[pos := cached[pos] + [md]]) == AllKept(cached) + {md}
  {
    var cached' := cached[pos := cached[pos] + [md]];
    forall b | b in AllKept(cached')
      ensures b in AllKept(cached) + {md}
    {
      var p: nat, i: nat :| p < |cached'| && i < |cached'[p]| && cached'[p][i] == b;
      if !(p == pos && i == |cached[pos]|) {
        assert cached[p][i] == b;
      }
    }
    forall b | b in AllKept(cached)
      ensures b in AllKept(cached')
    {
      var p: nat, i: nat :| p < |cached| && i < |cached[p]| && cached[p][i] == b;
      assert cached'[p][i] == b;
    }
    assert cached'[pos][|cached[pos]|] == md;
  }

  // ----- blocks, or none -----

  function SizeOf(md: array?<byte>): nat {
    if md == null then 0 else md.Length
  }

  function Gained(live: seq<Block>, md: array?<byte>): seq<Block> {
    if md == null then live else live + [md]
  }

  /** The blocks in use without the one at `i`, if a block is taken back. */
  function Lost(live: seq<Block>, md: array?<byte>, i: nat): seq<Block>
    requires md != null ==> i < |live|
  {
    if md == null then live else Without(live, i)
  }

  /** What is kept of a class with `used` blocks in use. */
  function Trimmed(kept: seq<Block>, used: int): seq<Block> {
    if 0 <= 2 * used <= |kept| then kept[..2 * used] else kept
  }

  /** What is kept is the longest prefix of at most twice as many blocks as are in use. */
  lemma TrimmedIsLongest(kept: seq<Block>, used: nat)
    ensures var left := Trimmed(kept, used);
      && |left| <= 2 * used && left <= kept
      && forall longer | longer <= kept && |longer| <= 2 * used :: longer <= left
  {
  }

  /** Taking a block and giving another back may be done in either order. */
  lemma LostGained(live: seq<Block>, md: array?<byte>, i: nat, r: Block)
    requires md != null ==> i < |live|
    ensures Lost(live + [r], md, i) == Lost(live, md, i) + [r]
  {
  }

  /** Trimming one block after another. */
  lemma TrimmedNext(cached: seq<seq<Block>>, pos: nat, kept: seq<Block>, n: nat)
    requires pos < |cached| && 0 < n <= |kept|
    ensures var c := cached[pos := kept[..n]];
      c[pos := c[pos][..n - 1]] == cached[pos := kept[..n - 1]]
  {
    assert kept[..n][..n - 1] == kept[..n - 1];
  }

  lemma AtLeast(size: nat, mul: nat)
    requires 1 <= mul
    ensures size <= size * mul
  {
  }

  class Manager {
    var memCached: seq<seq<Block>>
    var memUsed: seq<int>
    var allocatedMemory: int
    var bigMemory: int
    var cacheMemory: bool
    /** The blocks in use. */
    ghost var live: seq<Block>

    ghost predicate Valid()
      reads this
    {
      PoolIs(memCached, memUsed, live, allocatedMemory, bigMemory)
    }

    ghost function Kept(): set<Block>
      reads this
    {
      AllKept(memCached)
    }

    constructor ()
      ensures Valid() && live == [] && Kept() == {} && allocatedMemory == 0 && cacheMemory
    {
      memCached := seq(KCOUNT, i => []);
      memUsed := seq(KCOUNT, i => 0);
      allocatedMemory, bigMemory, cacheMemory, live := 0, 0, true, [];
      new;
      NothingCached(memCached);
    }

    /** The class of a size; sizes above two gigabytes would never be reached by doubling. */
    method Position(size: nat) returns (pos: nat)
      requires size <= LARGEST
      ensures pos == ClassOf(size)
    {
      pos := 0;
      var tmp: nat := 1024;
      while size > tmp
        invariant tmp == ClassSize(pos) && ClassOf(size) == ClassFrom(size, pos)
        decreases size - tmp
      {
        tmp := 2 * tmp;
        pos := pos + 1;
      }
    }

    /** The block kept last for a class. */
    method TakeKept(pos: nat) returns (md: Block)
      requires Valid() && pos < KCOUNT && memCached[pos] != []
      modifies this
      ensures Valid() && live == old(live) + [md] && md !in old(live) && md.Length == ClassSize(pos)
      ensures md in old(Kept()) && cacheMemory == old(cacheMemory) && Kept() <= old(Kept())
    {
      KeptBlock(memCached, memUsed, live, allocatedMemory, bigMemory, pos);
      PopKept(memCached, pos);
      assert ClassIs(memCached[pos], memUsed[pos], live, pos);
      var n := |memCached[pos]| - 1;
      md := memCached[pos][n];
      memUsed := memUsed[pos := memUsed[pos] + 1];
      memCached := memCached[pos := memCached[pos][..n]];
      live := live + [md];
    }

    /** A block from the heap, of the class `pos` or larger than any class. */
    method TakeNew(size: nat, pos: nat) returns (md: Block)
      requires Valid() && pos == ClassOf(size) && (pos < KCOUNT ==> size == ClassSize(pos))
      modifies this
      ensures Valid() && live == old(live) + [md] && md.Length == size && fresh(md)
      ensures cacheMemory == old(cacheMemory) && memCached == old(memCached)
    {
      md := new byte[size];
      NewBlock(memCached, memUsed, live, allocatedMemory, bigMemory, md);
      allocatedMemory := allocatedMemory + size;
      if pos >= KCOUNT {
        bigMemory := bigMemory + size;
      }
      memUsed := Recount(memUsed, pos, 1);
      live := live + [md];
    }

    /** A kept block of the class of the size, or one from the heap; none if that has not `enough` memory. */
    method Allocate(size: nat, enough: bool) returns (md: array?<byte>)
      requires Valid() && size <= LARGEST
      modifies this
      ensures Valid() && cacheMemory == old(cacheMemory) && Kept() <= old(Kept())
      ensures md == null <==> !enough && (ClassOf(size) >= KCOUNT || old(memCached)[ClassOf(size)] == [])
      ensures live == Gained(old(live), md)
      ensures md != null ==>
        && md !in old(live) && (fresh(md) || md in old(Kept()))
        && md.Length == if ClassOf(size) < KCOUNT then ClassSize(ClassOf(size)) else size
    {
      var pos := Position(size);
      if pos < KCOUNT && memCached[pos] != [] {
        md := TakeKept(pos);
      } else if !enough {
        md := null;
      } else if pos >= KCOUNT {
        md := TakeNew(size, pos);
      } else {
        ClassOfClassSize(pos);
        md := TakeNew(ClassSize(pos), pos);
      }
    }

    /** Keeps a block for its class. */
    method Keep(md: Block, pos: nat, ghost i: nat)
      requires Valid() && i < |live| && live[i] == md && pos == ClassOf(md.Length) < KCOUNT
      modifies this
      ensures Valid() && live == Without(old(live), i) && cacheMemory == old(cacheMemory)
      ensures Kept() == old(Kept()) + {md}
    {
      KeepBlock(memCached, memUsed, live, allocatedMemory, bigMemory, i);
      PushKept(memCached, pos, md);
      memUsed := memUsed[pos := memUsed[pos] - 1];
      memCached := memCached[pos := memCached[pos] + [md]];
      live := Without(live, i);
    }

    /** Gives a block up. */
    method Drop(md: Block, pos: nat, ghost i: nat)
      requires Valid() && i < |live| && live[i] == md && pos == ClassOf(md.Length)
      modifies this
      ensures Valid() && live == Without(old(live), i) && cacheMemory == old(cacheMemory)
      ensures memCached == old(memCached)
    {
      DropBlock(memCached, memUsed, live, allocatedMemory, bigMemory, i);
      allocatedMemory := allocatedMemory - md.Length;
      if pos >= KCOUNT {
        bigMemory := bigMemory - md.Length;
      }
      memUsed := Recount(memUsed, pos, -1);
      live := Without(live, i);
    }

    /**
     Takes back a block: a large one is given up, others are kept unless that is switched off.  Nothing
     happens for no block; `freed` tells whether a block was given up.
     */
    method Deallocate(md: array?<byte>, ghost i: nat) returns (freed: bool)
      requires Valid() && (md != null ==> i < |live| && live[i] == md && md.Length <= LARGEST)
      modifies this
      ensures Valid() && live == Lost(old(live), md, i) && cacheMemory == old(cacheMemory)
      ensures freed == (md != null && (ClassOf(md.Length) >= KCOUNT || !cacheMemory))
      ensures Kept() == old(Kept()) + if md != null && !freed then {md} else {}
    {
      if md == null {
        return false;
      }
      var pos := Position(md.Length);
      if pos < KCOUNT && cacheMemory {
        Keep(md, pos, i);
        freed := false;
      } else {
        Drop(md, pos, i);
        freed := true;
      }
    }

    /** Exchanges a block, if there is one, for one of at least `size` bytes that starts with the same contents. */
    method Exchange(md: array?<byte>, size: nat, enough: bool, ghost i: nat) returns (ok: bool, r: array?<byte>)
      requires Valid() && (md != null ==> i < |live| && live[i] == md && md.Length <= size) && size <= LARGEST
      modifies this, Kept()
      ensures Valid() && (enough ==> ok)
      ensures !ok ==> r == md && live == old(live)
      ensures ok ==>
        && r != null && live == Lost(old(live), md, i) + [r] && r !in old(live) && r.Length >= size
        && (fresh(r) || r in old(Kept())) && (md != null ==> r[..md.Length] == old(md[..]))
    {
      KeptIsNotLive(memCached, memUsed, live, allocatedMemory, bigMemory);
      r := Allocate(size, enough);
      if r == null {
        return false, md;
      }
      ok := true;
      if md != null {
        Copy(r, 0, md[..]);
        LostGained(old(live), md, i, r);
      }
      var freed := Deallocate(md, i);
    }

    /** A block of at least `size` bytes: the same one if it is large enough. */
    method ReallocateTo(md: array?<byte>, size: nat, enough: bool, ghost i: nat) returns (ok: bool, r: array?<byte>)
      requires Valid() && (md != null ==> i < |live| && live[i] == md) && size <= LARGEST
      modifies this, Kept()
      ensures Valid() && (enough ==> ok)
      ensures !ok || SizeOf(md) >= size ==> r == md && live == old(live)
      ensures ok ==> SizeOf(r) >= size
      ensures ok && SizeOf(md) < size ==> live == Lost(old(live), md, i) + [r]
      ensures ok && md != null ==> SizeOf(r) >= md.Length && r[..md.Length] == old(md[..])
    {
      if SizeOf(md) >= size {
        return true, md;
      }
      ok, r := Exchange(md, size, enough, i);
    }

    /** A block `mul` times as large, a kilobyte if there was none; refused if the block is larger than any class. */
    method Reallocate(md: array?<byte>, mul: nat, enough: bool, ghost i: nat) returns (ok: bool, r: array?<byte>)
      requires Valid() && (md != null ==> i < |live| && live[i] == md)
      requires 1 <= mul && SizeOf(md) * mul <= LARGEST
      modifies this, Kept()
      ensures Valid() && (ClassOf(SizeOf(md)) >= KCOUNT ==> !ok) && (ClassOf(SizeOf(md)) < KCOUNT && enough ==> ok)
      ensures !ok ==> r == md && live == old(live)
      ensures ok ==> live == Lost(old(live), md, i) + [r] && r != null
      ensures ok ==> r.Length >= if md == null then 1024 else md.Length * mul
      ensures ok && md != null ==> r.Length >= md.Length && r[..md.Length] == old(md[..])
    {
      AtLeast(SizeOf(md), mul);
      var pos := Position(SizeOf(md));
      if pos >= KCOUNT {
        return false, md;
      }
      var size := SizeOf(md) * mul;
      if size == 0 {
        size := 1024;
      }
      ok, r := Exchange(md, size, enough, i);
    }

    /** Gives up the blocks of a class kept last, until there are at most twice as many as in use. */
    method Trim(pos: nat)
      requires Valid() && pos < KCOUNT
      modifies this
      ensures Valid() && live == old(live) && memUsed == old(memUsed)
      ensures memCached == old(memCached)[pos := Trimmed(old(memCached)[pos], memUsed[pos])]
    {
      assert ClassIs(memCached[pos], memUsed[pos], live, pos);
      ghost var kept := memCached[pos];
      assert kept[..|kept|] == kept && memCached[pos := kept] == memCached;
      while |memCached[pos]| > 2 * memUsed[pos]
        invariant Valid() && live == old(live) && memUsed == old(memUsed) && 0 <= memUsed[pos]
        invariant |memCached[pos]| <= |kept| && (|memCached[pos]| < |kept| ==> |memCached[pos]| >= 2 * memUsed[pos])
        invariant memCached == old(memCached)[pos := kept[..|memCached[pos]|]]
        decreases |memCached[pos]|
      {
        TrimmedNext(old(memCached), pos, kept, |memCached[pos]|);
        TrimOne(pos);
      }
    }

    /** Gives up the block of a class kept last. */
    method TrimOne(pos: nat)
      requires Valid() && pos < KCOUNT && memCached[pos] != []
      modifies this
      ensures Valid() && live == old(live) && memUsed == old(memUsed)
      ensures memCached == old(memCached)[pos := old(memCached)[pos][..|old(memCached)[pos]| - 1]]
    {
      TrimBlock(memCached, memUsed, live, allocatedMemory, bigMemory, pos);
      assert ClassIs(memCached[pos], memUsed[pos], live, pos);
      var n := |memCached[pos]| - 1;
      allocatedMemory := allocatedMemory - memCached[pos][n].Length;
      memCached := memCached[pos := memCached[pos][..n]];
    }

    /** Afterwards every class keeps its oldest blocks, at most twice as many as it has in use. */
    method UpdateTime()
      requires Valid()
      modifies this
      ensures Valid() && live == old(live) && memUsed == old(memUsed)
      ensures forall pos | 0 <= pos < KCOUNT :: memCached[pos] == Trimmed(old(memCached)[pos], memUsed[pos])
      ensures forall pos | 0 <= pos < KCOUNT :: |memCached[pos]| <= 2 * memUsed[pos]
    {
      for pos := 0 to KCOUNT
        invariant Valid() && live == old(live) && memUsed == old(memUsed)
        invariant forall p | 0 <= p < pos :: memCached[p] == Trimmed(old(memCached)[p], memUsed[p])
        invariant forall p | pos <= p < KCOUNT :: memCached[p] == old(memCached)[p]
      {
        Trim(pos);
      }
    }
  }

  /** No block is both kept and in use. */
  lemma KeptIsNotLive(cached: seq<seq<Block>>, used: seq<int>, live: seq<Block>, memory: int, big: int)
    requires PoolIs(cached, used, live, memory, big)
    ensures forall b | b in live :: b !in AllKept(cached)
  {
    forall b | b in AllKept(cached)
      ensures b !in live
    {
      var p: nat, i: nat :| p < |cached| && i < |cached[p]| && cached[p][i] == b;
      assert ClassIs(cached[p], used[p], live, p);
    }
  }

  lemma {:induction false} ClassRoundsUp(size: nat, pos: nat)
    requires pos <= KCOUNT && ClassSize(10) == 1048576
    ensures var c := ClassFrom(size, pos);
      WireFraming.RoundUp(size, ClassSize(pos)) == if c < KCOUNT then ClassSize(c) else size
    decreases KCOUNT - pos
  {
    if pos == KCOUNT {
      assert ClassSize(KCOUNT) == 2097152;
    } else {
      if pos < 10 {
        ClassesGrow(pos, 10);
      }
      if size > ClassSize(pos) {
        ClassRoundsUp(size, pos + 1);
      }
    }
  }

  /** The blocks handed out have the sizes that the buffers of connections count on. */
  lemma AllocationRoundsUp(size: nat)
    ensures WireFraming.RoundUp(size, WireFraming.SMALLEST) ==
      if ClassOf(size) < KCOUNT then ClassSize(ClassOf(size)) else size
  {
    assert ClassSize(10) == 1048576;
    ClassRoundsUp(size, 0);
  }

  lemma NothingCached(cached: seq<seq<Block>>)
    requires |cached| == KCOUNT && forall pos | 0 <= pos < KCOUNT :: cached[pos] == []
    ensures CachedBytes(cached) == 0
  {
    NoBytes(cached, KCOUNT);
    assert cached[..KCOUNT] == cached;
  }

  lemma {:induction false} NoBytes(cached: seq<seq<Block>>, n: nat)
    requires n <= |cached| && forall pos | 0 <= pos < |cached| :: cached[pos] == []
    ensures CachedBytes(cached[..n]) == 0
  {
    if n > 0 {
      NoBytes(cached, n - 1);
      assert cached[..n][..n - 1] == cached[..n - 1];
    }
  }
}
