/**
 The pool that buffers come from: blocks of eleven sizes are kept when they are freed, up to a limit.
 */
module MemoryPool {
  import opened WireValues

  const KCOUNT := 11

  type Block = array<byte>

  // ----- size classes -----

  /** The size of the blocks of a class. */
  function ClassSize(pos: nat): (size: nat)
    ensures size >= 1024
  {
    if pos == 0 then 1024 else 2 * ClassSize(pos - 1)
  }

  /** The class of a size: the first whose blocks are large enough. */
  function ClassFrom(size: nat, pos: nat): (c: nat)
    ensures c >= pos && size <= ClassSize(c)
    decreases if size <= ClassSize(pos) then 0 else size - ClassSize(pos)
  {
    if size <= ClassSize(pos) then pos else ClassFrom(size, pos + 1)
  }

  function ClassOf(size: nat): nat {
    ClassFrom(size, 0)
  }

  lemma {:induction false} ClassesGrow(a: nat, b: nat)
    requires a < b
    ensures ClassSize(a) < ClassSize(b)
  {
    if a + 1 < b {
      ClassesGrow(a, b - 1);
    }
  }

  lemma {:induction false} ClassFromSize(c: nat, pos: nat)
    requires pos <= c
    ensures ClassFrom(ClassSize(c), pos) == c
    decreases c - pos
  {
    if pos < c {
      ClassesGrow(pos, c);
      ClassFromSize(c, pos + 1);
    }
  }

  /** A block of a class is of that class, and of no other. */
  lemma ClassOfClassSize(c: nat)
    ensures ClassOf(ClassSize(c)) == c
  {
    ClassFromSize(c, 0);
  }

  lemma {:induction false} ClassIsTight(size: nat, pos: nat)
    requires pos > 0 ==> size > ClassSize(pos - 1)
    ensures ClassFrom(size, pos) > 0 ==> size > ClassSize(ClassFrom(size, pos) - 1)
    decreases if size <= ClassSize(pos) then 0 else size - ClassSize(pos)
  {
    if size > ClassSize(pos) {
      ClassIsTight(size, pos + 1);
    }
  }

  /** Blocks have a kilobyte, or are less than twice as large as asked for. */
  lemma ClassFits(size: nat)
    ensures size <= ClassSize(ClassOf(size))
    ensures ClassSize(ClassOf(size)) == 1024 || ClassSize(ClassOf(size)) < 2 * size
  {
    ClassIsTight(size, 0);
  }

  /** The eleven sizes, from a kilobyte to a megabyte, and which sizes are larger than all. */
  lemma ElevenSizes(size: nat)
    ensures ClassSize(0) == 1024 && ClassSize(1) == 2048 && ClassSize(9) == 524288 && ClassSize(10) == 1048576
    ensures ClassOf(size) >= KCOUNT <==> size > 1048576
  {
    assert ClassSize(10) == 1048576;
    if size > 1048576 {
      if ClassOf(size) < 10 {
        ClassesGrow(ClassOf(size), 10);
      }
    } else {
      ClassIsTight(size, 0);
      if ClassOf(size) > 11 {
        ClassesGrow(10, ClassOf(size) - 1);
      }
    }
  }

  // ----- counting blocks -----

  function Bytes(blocks: seq<Block>): nat {
    if blocks == [] then 0 else Bytes(blocks[..|blocks| - 1]) + blocks[|blocks| - 1].Length
  }

  function BigBytes(blocks: seq<Block>): nat {
    if blocks == [] then 0
    else
      var last := blocks[|blocks| - 1];
      BigBytes(blocks[..|blocks| - 1]) + if ClassOf(last.Length) >= KCOUNT then last.Length else 0
  }

  function OfClass(blocks: seq<Block>, pos: nat): nat {
    if blocks == [] then 0
    else OfClass(blocks[..|blocks| - 1], pos) + if ClassOf(blocks[|blocks| - 1].Length) == pos then 1 else 0
  }

  function CachedBytes(cached: seq<seq<Block>>): nat {
    if cached == [] then 0 else CachedBytes(cached[..|cached| - 1]) + Bytes(cached[|cached| - 1])
  }

  predicate NoneTwice(blocks: seq<Block>) {
    forall i, j | 0 <= i < j < |blocks| :: blocks[i] != blocks[j]
  }

  /** The blocks kept for a class are of its size, distinct, and not in use; the count of blocks in use is right. */
  ghost predicate ClassIs(kept: seq<Block>, used: int, live: seq<Block>, pos: nat) {
    && (forall i | 0 <= i < |kept| :: kept[i].Length == ClassSize(pos) && kept[i] !in live)
    && NoneTwice(kept)
    && used == OfClass(live, pos)
  }

  /** Blocks in use have the size of their class, or are larger than any. */
  ghost predicate LiveSized(live: seq<Block>) {
    forall i | 0 <= i < |live| :: ClassOf(live[i].Length) < KCOUNT ==>
      live[i].Length == ClassSize(ClassOf(live[i].Length))
  }

  ghost predicate PoolIs(cached: seq<seq<Block>>, used: seq<int>, live: seq<Block>, memory: int, big: int) {
    && |cached| == |used| == KCOUNT && NoneTwice(live) && LiveSized(live)
    && (forall pos: nat | pos < KCOUNT :: ClassIs(cached[pos], used[pos], live, pos))
    && memory == Bytes(live) + CachedBytes(cached) && big == BigBytes(live)
  }

  // ----- blocks come and go -----

  lemma AppendBlock(blocks: seq<Block>, b: Block, pos: nat)
    ensures Bytes(blocks + [b]) == Bytes(blocks) + b.Length
    ensures BigBytes(blocks + [b]) == BigBytes(blocks) + if ClassOf(b.Length) >= KCOUNT then b.Length else 0
    ensures OfClass(blocks + [b], pos) == OfClass(blocks, pos) + if ClassOf(b.Length) == pos then 1 else 0
  {
    assert (blocks + [b])[..|blocks|] == blocks;
  }

  function Without(blocks: seq<Block>, i: nat): seq<Block>
    requires i < |blocks|
  {
    blocks[..i] + blocks[i + 1..]
  }

  lemma {:induction false} RemoveBlock(blocks: seq<Block>, i: nat, pos: nat)
    requires i < |blocks|
    ensures Bytes(Without(blocks, i)) == Bytes(blocks) - blocks[i].Length
    ensures BigBytes(Without(blocks, i)) ==
      BigBytes(blocks) - if ClassOf(blocks[i].Length) >= KCOUNT then blocks[i].Length else 0
    ensures OfClass(Without(blocks, i), pos) == OfClass(blocks, pos) - if ClassOf(blocks[i].Length) == pos then 1 else 0
    decreases |blocks|
  {
    var rest, last := blocks[..|blocks| - 1], blocks[|blocks| - 1];
    if i == |blocks| - 1 {
      assert Without(blocks, i) == rest;
    } else {
      RemoveBlock(rest, i, pos);
      assert Without(blocks, i) == Without(rest, i) + [last];
      AppendBlock(Without(rest, i), last, pos);
    }
  }

  lemma {:induction false} CachedUpdate(cached: seq<seq<Block>>, pos: nat, kept: seq<Block>)
    requires pos < |cached|
    ensures CachedBytes(cached[pos := kept]) == CachedBytes(cached) - Bytes(cached[pos]) + Bytes(kept)
  {
    var n := |cached| - 1;
    if pos == n {
      assert cached[pos := kept][..n] == cached[..n];
    } else {
      CachedUpdate(cached[..n], pos, kept);
      assert cached[pos := kept][..n] == cached[..n][pos := kept];
    }
  }

  // ----- steps of the pool -----

  /** A block that is neither in use nor kept. */
  ghost predicate Unknown(cached: seq<seq<Block>>, live: seq<Block>, b: Block) {
    b !in live && forall pos: nat | pos < |cached| :: b !in cached[pos]
  }

  /** A class whose blocks in use get one more, which is not one of those kept for it. */
  lemma ClassGains(kept: seq<Block>, used: int, live: seq<Block>, pos: nat, b: Block)
    requires ClassIs(kept, used, live, pos) && b !in kept
    ensures ClassIs(kept, used + if ClassOf(b.Length) == pos then 1 else 0, live + [b], pos)
  {
    AppendBlock(live, b, pos);
  }

  /** A class whose blocks in use lose one. */
  lemma ClassLoses(kept: seq<Block>, used: int, live: seq<Block>, pos: nat, i: nat)
    requires ClassIs(kept, used, live, pos) && i < |live|
    ensures ClassIs(kept, used - if ClassOf(live[i].Length) == pos then 1 else 0, Without(live, i), pos)
  {
    RemoveBlock(live, i, pos);
  }

  lemma LiveGains(live: seq<Block>, b: Block)
    requires NoneTwice(live) && LiveSized(live) && b !in live
    requires ClassOf(b.Length) < KCOUNT ==> b.Length == ClassSize(ClassOf(b.Length))
    ensures NoneTwice(live + [b]) && LiveSized(live + [b])
  {
  }

  lemma LiveLoses(live: seq<Block>, i: nat)
    requires NoneTwice(live) && LiveSized(live) && i < |live|
    ensures NoneTwice(Without(live, i)) && LiveSized(Without(live, i)) && live[i] !in Without(live, i)
  {
  }

  /** The counts of blocks in use, one of a class more or less; large blocks have no count. */
  function Recount(used: seq<int>, c: nat, d: int): (r: seq<int>)
    ensures |r| == |used| && forall pos | 0 <= pos < |used| :: r[pos] == used[pos] + if pos == c then d else 0
  {
    if c < |used| then used[c := used[c] + d] else used
  }

  /** A new block comes into use. */
  lemma NewBlock(cached: seq<seq<Block>>, used: seq<int>, live: seq<Block>, memory: int, big: int, b: Block)
    requires PoolIs(cached, used, live, memory, big) && Unknown(cached, live, b)
    requires ClassOf(b.Length) < KCOUNT ==> b.Length == ClassSize(ClassOf(b.Length))
    ensures var c := ClassOf(b.Length);
      PoolIs(cached, Recount(used, c, 1), live + [b], memory + b.Length, big + if c < KCOUNT then 0 else b.Length)
  {
    var used', live' := Recount(used, ClassOf(b.Length), 1), live + [b];
    LiveGains(live, b);
    AppendBlock(live, b, 0);
    forall pos: nat | pos < KCOUNT
      ensures ClassIs(cached[pos], used'[pos], live', pos)
    {
      assert ClassIs(cached[pos], used[pos], live, pos) && b !in cached[pos];
      ClassGains(cached[pos], used[pos], live, pos, b);
      assert used'[pos] == used[pos] + if pos == ClassOf(b.Length) then 1 else 0;
    }
  }

  /** The block kept last for a class comes into use. */
  lemma KeptBlock(cached: seq<seq<Block>>, used: seq<int>, live: seq<Block>, memory: int, big: int, pos: nat)
    requires PoolIs(cached, used, live, memory, big) && pos < KCOUNT && cached[pos] != []
    ensures var n := |cached[pos]| - 1;
      PoolIs(cached[pos := cached[pos][..n]], used[pos := used[pos] + 1], live + [cached[pos][n]], memory, big)
  {
    var n := |cached[pos]| - 1;
    var b := cached[pos][n];
    assert ClassIs(cached[pos], used[pos], live, pos);
    ClassOfClassSize(pos);
    LiveGains(live, b);
    AppendBlock(live, b, 0);
    CachedUpdate(cached, pos, cached[pos][..n]);
    KeptLoses(cached[pos], used[pos], live, pos);
    var cached', used', live' := cached[pos := cached[pos][..n]], used[pos := used[pos] + 1], live + [b];
    forall other: nat | other < KCOUNT
      ensures ClassIs(cached'[other], used'[other], live', other)
    {
      if other == pos {
        ClassGains(cached[pos][..n], used[pos], live, pos, b);
      } else {
        OtherClass(cached[other], used[other], live, other, b);
        ClassGains(cached[other], used[other], live, other, b);
      }
    }
  }

  /** Blocks of another class are not kept for this one. */
  lemma OtherClass(kept: seq<Block>, used: int, live: seq<Block>, pos: nat, b: Block)
    requires ClassIs(kept, used, live, pos) && ClassOf(b.Length) != pos
    ensures b !in kept
  {
    ClassOfClassSize(pos);
  }

  /** The block kept last is not kept any more. */
  lemma KeptLoses(kept: seq<Block>, used: int, live: seq<Block>, pos: nat)
    requires ClassIs(kept, used, live, pos) && kept != []
    ensures var n := |kept| - 1;
      ClassIs(kept[..n], used, live, pos) && kept[n] !in kept[..n] && Bytes(kept) == Bytes(kept[..n]) + ClassSize(pos)
  {
  }

  /** A block goes out of use, and out of the pool. */
  lemma DropBlock(cached: seq<seq<Block>>, used: seq<int>, live: seq<Block>, memory: int, big: int, i: nat)
    requires PoolIs(cached, used, live, memory, big) && i < |live|
    ensures var c, size := ClassOf(live[i].Length), live[i].Length;
      PoolIs(cached, Recount(used, c, -1), Without(live, i), memory - size, big - if c < KCOUNT then 0 else size)
  {
    var used', live' := Recount(used, ClassOf(live[i].Length), -1), Without(live, i);
    LiveLoses(live, i);
    RemoveBlock(live, i, 0);
    forall pos: nat | pos < KCOUNT
      ensures ClassIs(cached[pos], used'[pos], live', pos)
    {
      ClassLoses(cached[pos], used[pos], live, pos, i);
    }
  }

  /** A block goes out of use and is kept for its class. */
  lemma KeepBlock(cached: seq<seq<Block>>, used: seq<int>, live: seq<Block>, memory: int, big: int, i: nat)
    requires PoolIs(cached, used, live, memory, big) && i < |live| && ClassOf(live[i].Length) < KCOUNT
    ensures var c := ClassOf(live[i].Length);
      PoolIs(cached[c := cached[c] + [live[i]]], used[c := used[c] - 1], Without(live, i), memory, big)
  {
    var c, b := ClassOf(live[i].Length), live[i];
    LiveLoses(live, i);
    RemoveBlock(live, i, 0);
    AppendBlock(cached[c], b, 0);
    CachedUpdate(cached, c, cached[c] + [b]);
    var cached', used', live' := cached[c := cached[c] + [b]], used[c := used[c] - 1], Without(live, i);
    forall pos: nat | pos < KCOUNT
      ensures ClassIs(cached'[pos], used'[pos], live', pos)
    {
      ClassLoses(cached[pos], used[pos], live, pos, i);
      if pos == c {
        KeptGains(cached[pos], used[pos] - 1, Without(live, i), pos, b);
      }
    }
  }

  lemma KeptGains(kept: seq<Block>, used: int, live: seq<Block>, pos: nat, b: Block)
    requires ClassIs(kept, used, live, pos) && b !in live && b !in kept && b.Length == ClassSize(pos)
    ensures ClassIs(kept + [b], used, live, pos)
  {
  }

  /** A kept block is given up. */
  lemma TrimBlock(cached: seq<seq<Block>>, used: seq<int>, live: seq<Block>, memory: int, big: int, pos: nat)
    requires PoolIs(cached, used, live, memory, big) && pos < KCOUNT && cached[pos] != []
    ensures var n := |cached[pos]| - 1;
      PoolIs(cached[pos := cached[pos][..n]], used, live, memory - ClassSize(pos), big)
  {
    var n := |cached[pos]| - 1;
    CachedUpdate(cached, pos, cached[pos][..n]);
    KeptLoses(cached[pos], used[pos], live, pos);
    var cached' := cached[pos := cached[pos][..n]];
    forall other: nat | other < KCOUNT
      ensures ClassIs(cached'[other], used[other], live, other)
    {
    }
  }
}
