/**
 The firewall: two rings of hit counts and a list of blocked addresses, updated in place.

 Its answers are proved to be those that the log of all connections tried gives.
 */
module Firewall {
  import opened FirewallLog

  datatype Command = ResetAll | ResetDynamic | ResetStatic

  class Wall {
    var wall: set<int>
    var minute1: seq<map<int, nat>>
    var minutes5: seq<map<int, nat>>
    var lastMinute1: nat
    var lastMinutes5: nat
    /** Everything tried since the counts were last reset, and the ticks that have passed. */
    ghost var log: seq<Hit>
    ghost var now: nat

    ghost predicate Valid()
      reads this
    {
      && lastMinute1 == now % 5 && lastMinutes5 == now / 5 % 12
      && UpTo(log, now) && MinutesAre(minute1, log, now) && EpochsAre(minutes5, log, now / 5)
    }

    constructor ()
      ensures Valid() && wall == {} && log == [] && now == 0
    {
      wall := {};
      minute1 := seq(5, i => map[]);
      minutes5 := seq(12, i => map[]);
      lastMinute1, lastMinutes5, log, now := 0, 0, [], 0;
    }

    /** The slot of the ring of minutes `back` ticks ago. */
    method GetMinute1Back(back: nat) returns (ret: nat)
      requires Valid()
      ensures ret == MinuteSlot(now, back)
    {
      var r: int := lastMinute1;
      var b := back;
      while b != 0
        invariant 0 <= r < 5 && 0 <= b <= back && r == MinuteSlot(now, back - b)
      {
        MinuteSlotNext(now, back - b);
        r := r - 1;
        if r == -1 {
          r := 4;
        }
        b := b - 1;
      }
      ret := r;
    }

    method GetMinutes5Back(back: nat) returns (ret: nat)
      requires Valid()
      ensures ret == EpochSlot(now / 5, back)
    {
      var r: int := lastMinutes5;
      var b := back;
      while b != 0
        invariant 0 <= r < 12 && 0 <= b <= back && r == EpochSlot(now / 5, back - b)
      {
        EpochSlotNext(now / 5, back - b);
        r := r - 1;
        if r == -1 {
          r := 11;
        }
        b := b - 1;
      }
      ret := r;
    }

    /** A minute has passed: the oldest slots of the rings are cleared. */
    method UpdateTime()
      requires Valid()
      modifies this
      ensures Valid() && now == old(now) + 1 && log == old(log) && wall == old(wall)
    {
      SlotsNext(now);
      NextMinute(minute1, log, now);
      NextEpoch(minutes5, log, now, now / 5);
      lastMinute1 := lastMinute1 + 1;
      if lastMinute1 == 5 {
        lastMinute1 := 0;
      }
      minute1 := minute1[lastMinute1 := map[]];
      if lastMinute1 == 0 {
        lastMinutes5 := lastMinutes5 + 1;
        if lastMinutes5 == 12 {
          lastMinutes5 := 0;
        }
        minutes5 := minutes5[lastMinutes5 := map[]];
      }
      now := now + 1;
    }

    /** Counts a hit in the current slots. */
    method Count(addr: int)
      requires Valid()
      modifies this
      ensures Valid() && now == old(now) && log == old(log) + [Hit(addr, now)] && wall == old(wall)
    {
      HitInMinutes(minute1, log, now, Hit(addr, now));
      HitInEpochs(minutes5, log, now / 5, Hit(addr, now));
      var m := minute1[lastMinute1];
      if addr in m {
        minute1 := minute1[lastMinute1 := m[addr := m[addr] + 1]];
      } else {
        minute1 := minute1[lastMinute1 := m[addr := 1]];
      }
      m := minutes5[lastMinutes5];
      if addr in m {
        minutes5 := minutes5[lastMinutes5 := m[addr := m[addr] + 1]];
      } else {
        minutes5 := minutes5[lastMinutes5 := m[addr := 1]];
      }
      log := log + [Hit(addr, now)];
    }

    /** Reads the count of an address in a slot, which leaves an entry there. */
    method ReadMinute(i: nat, addr: int) returns (n: nat)
      requires Valid() && i < 5
      modifies this`minute1
      ensures Valid() && n == CountAt(old(minute1)[i], addr) &&
        minute1 == old(minute1)[i := Touched(old(minute1)[i], addr)]
    {
      ReadKeepsMinutes(minute1, log, now, i, addr);
      var m: map<int, nat> := minute1[i];
      n := if addr in m then m[addr] else 0;
      m := m[addr := n];
      minute1 := minute1[i := m];
    }

    method ReadEpoch(i: nat, addr: int) returns (n: nat)
      requires Valid() && i < 12
      modifies this`minutes5
      ensures Valid() && n == CountAt(old(minutes5)[i], addr) &&
        minutes5 == old(minutes5)[i := Touched(old(minutes5)[i], addr)]
    {
      ReadKeepsEpochs(minutes5, log, now / 5, i, addr);
      var m: map<int, nat> := minutes5[i];
      n := if addr in m then m[addr] else 0;
      m := m[addr := n];
      minutes5 := minutes5[i := m];
    }

    /** The hits of an address in the last `k` ticks. */
    method SumMinutes(addr: int, k: nat) returns (sum: nat)
      requires Valid() && k <= 5
      modifies this`minute1
      ensures Valid() && sum == Hits(log, addr, now + 1 - k, now + 1)
    {
      sum := 0;
      for a := 0 to k
        invariant Valid() && sum == MinuteSum(minute1, now, addr, a)
      {
        var i := GetMinute1Back(a);
        TouchKeepsMinuteSum(minute1, now, addr, a, i);
        var n := ReadMinute(i, addr);
        sum := sum + n;
      }
      MinuteSumIsHits(minute1, log, now, addr, k);
    }

    /** The hits of an address in the last `k` epochs. */
    method SumEpochs(addr: int, k: nat) returns (sum: nat)
      requires Valid() && k <= 12
      modifies this`minutes5
      ensures Valid() && sum == Hits(log, addr, 5 * (now / 5 + 1 - k), now / 5 * 5 + 5)
    {
      sum := 0;
      for a := 0 to k
        invariant Valid() && sum == EpochSum(minutes5, now / 5, addr, a)
      {
        var i := GetMinutes5Back(a);
        TouchKeepsEpochSum(minutes5, now / 5, addr, a, i);
        var n := ReadEpoch(i, addr);
        sum := sum + n;
      }
      EpochSumIsHits(minutes5, log, now / 5, addr, k);
    }

    /** The hits of an address in the four spans. */
    method SumAll(addr: int) returns (hit1: nat, hit5: nat, hit15: nat, hit60: nat)
      requires Valid()
      modifies this`minute1, this`minutes5
      ensures Valid() && hit1 == Hits(log, addr, now, now + 1) && hit5 == Hits(log, addr, now - 4, now + 1)
      ensures hit15 == Hits(log, addr, now / 5 * 5 - 10, now / 5 * 5 + 5)
      ensures hit60 == Hits(log, addr, now / 5 * 5 - 55, now / 5 * 5 + 5)
    {
      hit1 := SumMinutes(addr, 1);
      hit5 := SumMinutes(addr, 5);
      hit15 := SumEpochs(addr, 3);
      hit60 := SumEpochs(addr, 12);
    }

    /** The limits are checked in turn, from the shortest span to the longest. */
    method TestLimits(addr: int, c: Config) returns (ok: bool)
      requires Valid()
      modifies this`minute1, this`minutes5
      ensures Valid() && ok == !Limited(log, now, addr, c)
    {
      var hit1, hit5, hit15, hit60 := SumAll(addr);
      if c.limit1 != 0 && hit1 > c.limit1 {
        return false;
      }
      if c.limit5 != 0 && hit5 > c.limit5 {
        return false;
      }
      if c.limit15 != 0 && hit15 > c.limit15 {
        return false;
      }
      if c.limit60 != 0 && hit60 > c.limit60 {
        return false;
      }
      ok := true;
    }

    /** Whether a connection from an address is let in; with limits it is counted first. */
    method Test(addr: int, c: Config) returns (ok: bool)
      requires Valid()
      modifies this
      ensures Valid() && now == old(now) && wall == old(wall)
      ensures ok == LetIn(old(log), now, addr, c, wall)
      ensures log == if !BadAddress(addr) && !c.use && c.useLimits then old(log) + [Hit(addr, now)] else old(log)
    {
      if addr == 0 || addr == 1 {
        return false;
      }
      if c.use {
        return addr !in wall;
      }
      ok := true;
      if c.useLimits {
        Count(addr);
        ok := TestLimits(addr, c);
      }
    }

    method Add(addr: int)
      modifies this`wall
      ensures wall == old(wall) + {addr}
    {
      wall := wall + {addr};
    }

    method Delete(addr: int)
      modifies this`wall
      ensures wall == old(wall) - {addr}
    {
      wall := wall - {addr};
    }

    /** Clears the counts, the list, or both; the ticks go on. */
    method Reset(cmd: Command)
      requires Valid()
      modifies this
      ensures Valid() && now == old(now)
      ensures wall == if cmd.ResetDynamic? then old(wall) else {}
      ensures log == if cmd.ResetStatic? then old(log) else []
    {
      if !cmd.ResetDynamic? {
        wall := {};
      }
      if !cmd.ResetStatic? {
        minute1 := seq(5, i => map[]);
        minutes5 := seq(12, i => map[]);
        log := [];
      }
    }
  }
}
