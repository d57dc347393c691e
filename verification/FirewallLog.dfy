/**
 The limits of the firewall, stated on a log of the connections tried.

 Time passes in ticks of a minute, and five ticks make an epoch.  Limits are on the hits of an
 address in the current tick, the last five ticks, and the current and two or eleven earlier epochs.
 */
module FirewallLog {
  import opened Numbers
  import opened Sequences

  /** A connection tried from an address in a tick. */
  datatype Hit = Hit(addr: int, tick: nat)

  /** How often an address occurs in the ticks from `from` up to `end`, exclusively. */
  function Hits(log: seq<Hit>, addr: int, from: int, end: int): nat {
    if log == [] then 0
    else
      var last := log[|log| - 1];
      Hits(log[..|log| - 1], addr, from, end) + One(last.addr == addr && from <= last.tick < end)
  }

  datatype Config = Config(use: bool, useLimits: bool, limit1: nat, limit5: nat, limit15: nat, limit60: nat)

  predicate Exceeds(hits: nat, limit: nat) {
    limit != 0 && hits > limit
  }

  /** Whether some limit is exceeded at a time, a hit just logged included. */
  predicate Limited(log: seq<Hit>, now: nat, addr: int, c: Config) {
    var epoch := now / 5 * 5;
    || Exceeds(Hits(log, addr, now, now + 1), c.limit1)
    || Exceeds(Hits(log, addr, now - 4, now + 1), c.limit5)
    || Exceeds(Hits(log, addr, epoch - 10, epoch + 5), c.limit15)
    || Exceeds(Hits(log, addr, epoch - 55, epoch + 5), c.limit60)
  }

  predicate BadAddress(addr: int) {
    addr == 0 || addr == 1
  }

  /** The answer to a connection: whether it is let in. */
  predicate LetIn(log: seq<Hit>, now: nat, addr: int, c: Config, wall: set<int>) {
    if BadAddress(addr) then false
    else if c.use then addr !in wall
    else if c.useLimits then !Limited(log + [Hit(addr, now)], now, addr, c)
    else true
  }

  // ----- counting -----

  lemma {:induction false} HitsAppend(log: seq<Hit>, h: Hit, addr: int, from: int, end: int)
    ensures Hits(log + [h], addr, from, end) == Hits(log, addr, from, end) + One(h.addr == addr && from <= h.tick < end)
  {
    assert (log + [h])[..|log|] == log;
  }

  lemma {:induction false} HitsSplit(log: seq<Hit>, addr: int, from: int, mid: int, end: int)
    requires from <= mid <= end
    ensures Hits(log, addr, from, end) == Hits(log, addr, from, mid) + Hits(log, addr, mid, end)
  {
    if log != [] {
      HitsSplit(log[..|log| - 1], addr, from, mid, end);
    }
  }

  /** Hits are logged in ticks up to the current one. */
  predicate UpTo(log: seq<Hit>, now: nat) {
    forall i | 0 <= i < |log| :: log[i].tick <= now
  }

  lemma {:induction false} NoHitsAhead(log: seq<Hit>, now: nat, addr: int, from: int, end: int)
    requires UpTo(log, now) && (from > now || end <= 0)
    ensures Hits(log, addr, from, end) == 0
  {
    if log != [] {
      NoHitsAhead(log[..|log| - 1], now, addr, from, end);
    }
  }

  // ----- the rings -----

  /** Where the ring of minutes keeps the tick `back` ticks ago. */
  function MinuteSlot(now: int, back: int): (i: nat)
    ensures i < 5
  {
    (now - back) % 5
  }

  /** Where the ring of epochs keeps the epoch `back` epochs ago. */
  function EpochSlot(epoch: int, back: int): (i: nat)
    ensures i < 12
  {
    (epoch - back) % 12
  }

  lemma MinuteSlotNext(now: int, back: int)
    ensures MinuteSlot(now, back + 1) == if MinuteSlot(now, back) == 0 then 4 else MinuteSlot(now, back) - 1
  {
  }

  lemma EpochSlotNext(epoch: int, back: int)
    ensures EpochSlot(epoch, back + 1) == if EpochSlot(epoch, back) == 0 then 11 else EpochSlot(epoch, back) - 1
  {
  }

  /** The current slots a tick later. */
  lemma SlotsNext(now: nat)
    ensures (now + 1) % 5 == if now % 5 == 4 then 0 else now % 5 + 1
    ensures (now + 1) / 5 == if now % 5 == 4 then now / 5 + 1 else now / 5
    ensures (now / 5 + 1) % 12 == if now / 5 % 12 == 11 then 0 else now / 5 % 12 + 1
  {
    EpochSlotNext(now / 5 + 1, 0);
  }

  function CountAt(m: map<int, nat>, addr: int): nat {
    if addr in m then m[addr] else 0
  }

  function TickHits(log: seq<Hit>, tick: int, addr: int): nat {
    Hits(log, addr, tick, tick + 1)
  }

  function EpochHits(log: seq<Hit>, epoch: int, addr: int): nat {
    Hits(log, addr, 5 * epoch, 5 * epoch + 5)
  }

  ghost predicate MinuteIs(minutes: seq<map<int, nat>>, log: seq<Hit>, now: nat, back: nat, addr: int)
    requires |minutes| == 5
  {
    CountAt(minutes[MinuteSlot(now, back)], addr) == TickHits(log, now - back, addr)
  }

  ghost predicate EpochIs(epochs: seq<map<int, nat>>, log: seq<Hit>, epoch: nat, back: nat, addr: int)
    requires |epochs| == 12
  {
    CountAt(epochs[EpochSlot(epoch, back)], addr) == EpochHits(log, epoch - back, addr)
  }

  /** The ring of minutes keeps the hits of the last five ticks. */
  ghost predicate MinutesAre(minutes: seq<map<int, nat>>, log: seq<Hit>, now: nat) {
    |minutes| == 5 && forall back: nat, addr | back < 5 :: MinuteIs(minutes, log, now, back, addr)
  }

  /** The ring of epochs keeps the hits of the last twelve epochs. */
  ghost predicate EpochsAre(epochs: seq<map<int, nat>>, log: seq<Hit>, epoch: nat) {
    |epochs| == 12 && forall back: nat, addr | back < 12 :: EpochIs(epochs, log, epoch, back, addr)
  }

  lemma MinuteSlotsApart(now: int, a: nat, b: nat)
    requires a < 5 && b < 5 && a != b
    ensures MinuteSlot(now, a) != MinuteSlot(now, b)
  {
  }

  lemma EpochSlotsApart(epoch: int, a: nat, b: nat)
    requires a < 12 && b < 12 && a != b
    ensures EpochSlot(epoch, a) != EpochSlot(epoch, b)
  {
  }

  /** A new tick takes the place of the oldest one. */
  lemma NextMinute(minutes: seq<map<int, nat>>, log: seq<Hit>, now: nat)
    requires MinutesAre(minutes, log, now) && UpTo(log, now)
    ensures MinutesAre(minutes[MinuteSlot(now + 1, 0) := map[]], log, now + 1)
  {
    var next, later := minutes[MinuteSlot(now + 1, 0) := map[]], now + 1;
    forall back: nat, addr | back < 5
      ensures MinuteIs(next, log, later, back, addr)
    {
      if back == 0 {
        NoHitsAhead(log, now, addr, now + 1, now + 2);
      } else {
        MinuteSlotsApart(now + 1, back, 0);
        assert MinuteIs(minutes, log, now, back - 1, addr);
      }
    }
  }

  lemma NextEpoch(epochs: seq<map<int, nat>>, log: seq<Hit>, now: nat, epoch: nat)
    requires EpochsAre(epochs, log, epoch) && UpTo(log, now) && now < 5 * (epoch + 1)
    ensures EpochsAre(epochs[EpochSlot(epoch + 1, 0) := map[]], log, epoch + 1)
  {
    var next, later := epochs[EpochSlot(epoch + 1, 0) := map[]], epoch + 1;
    forall back: nat, addr | back < 12
      ensures EpochIs(next, log, later, back, addr)
    {
      if back == 0 {
        NoHitsAhead(log, now, addr, 5 * (epoch + 1), 5 * (epoch + 1) + 5);
      } else {
        EpochSlotsApart(epoch + 1, back, 0);
        assert EpochIs(epochs, log, epoch, back - 1, addr);
      }
    }
  }

  /** The map after one hit more. */
  function Bumped(m: map<int, nat>, addr: int): map<int, nat> {
    m[addr := CountAt(m, addr) + 1]
  }

  lemma HitInMinutes(minutes: seq<map<int, nat>>, log: seq<Hit>, now: nat, h: Hit)
    requires MinutesAre(minutes, log, now) && h.tick == now
    ensures var i := MinuteSlot(now, 0); MinutesAre(minutes[i := Bumped(minutes[i], h.addr)], log + [h], now)
  {
    var i := MinuteSlot(now, 0);
    var next, log' := minutes[i := Bumped(minutes[i], h.addr)], log + [h];
    forall back: nat, addr | back < 5
      ensures MinuteIs(next, log', now, back, addr)
    {
      HitsAppend(log, h, addr, now - back, now - back + 1);
      assert MinuteIs(minutes, log, now, back, addr);
      if back != 0 {
        MinuteSlotsApart(now, back, 0);
      }
    }
  }

  lemma HitInEpochs(epochs: seq<map<int, nat>>, log: seq<Hit>, epoch: nat, h: Hit)
    requires EpochsAre(epochs, log, epoch) && 5 * epoch <= h.tick < 5 * epoch + 5
    ensures var i := EpochSlot(epoch, 0); EpochsAre(epochs[i := Bumped(epochs[i], h.addr)], log + [h], epoch)
  {
    var i := EpochSlot(epoch, 0);
    var next, log' := epochs[i := Bumped(epochs[i], h.addr)], log + [h];
    forall back: nat, addr | back < 12
      ensures EpochIs(next, log', epoch, back, addr)
    {
      HitsAppend(log, h, addr, 5 * (epoch - back), 5 * (epoch - back) + 5);
      assert EpochIs(epochs, log, epoch, back, addr);
      if back != 0 {
        EpochSlotsApart(epoch, back, 0);
      }
    }
  }

  /** Reading a count may leave a zero behind. */
  function Touched(m: map<int, nat>, addr: int): map<int, nat> {
    m[addr := CountAt(m, addr)]
  }

  lemma ReadKeepsMinutes(minutes: seq<map<int, nat>>, log: seq<Hit>, now: nat, i: nat, addr: int)
    requires MinutesAre(minutes, log, now) && i < 5
    ensures MinutesAre(minutes[i := Touched(minutes[i], addr)], log, now)
  {
    var next := minutes[i := Touched(minutes[i], addr)];
    forall back: nat, other | back < 5
      ensures MinuteIs(next, log, now, back, other)
    {
      assert MinuteIs(minutes, log, now, back, other);
    }
  }

  lemma ReadKeepsEpochs(epochs: seq<map<int, nat>>, log: seq<Hit>, epoch: nat, i: nat, addr: int)
    requires EpochsAre(epochs, log, epoch) && i < 12
    ensures EpochsAre(epochs[i := Touched(epochs[i], addr)], log, epoch)
  {
    var next := epochs[i := Touched(epochs[i], addr)];
    forall back: nat, other | back < 12
      ensures EpochIs(next, log, epoch, back, other)
    {
      assert EpochIs(epochs, log, epoch, back, other);
    }
  }

  // ----- sums over the rings -----

  function MinuteSum(minutes: seq<map<int, nat>>, now: nat, addr: int, k: nat): nat
    requires |minutes| == 5
  {
    if k == 0 then 0 else MinuteSum(minutes, now, addr, k - 1) + CountAt(minutes[MinuteSlot(now, k - 1)], addr)
  }

  function EpochSum(epochs: seq<map<int, nat>>, epoch: nat, addr: int, k: nat): nat
    requires |epochs| == 12
  {
    if k == 0 then 0 else EpochSum(epochs, epoch, addr, k - 1) + CountAt(epochs[EpochSlot(epoch, k - 1)], addr)
  }

  lemma {:induction false} EmptySpan(log: seq<Hit>, addr: int, tick: int)
    ensures Hits(log, addr, tick, tick) == 0
  {
    if log != [] {
      EmptySpan(log[..|log| - 1], addr, tick);
    }
  }

  /** The sum over the last `k` slots is the hits of the last `k` ticks. */
  lemma {:induction false} MinuteSumIsHits(minutes: seq<map<int, nat>>, log: seq<Hit>, now: nat, addr: int, k: nat)
    requires MinutesAre(minutes, log, now) && k <= 5
    ensures MinuteSum(minutes, now, addr, k) == Hits(log, addr, now + 1 - k, now + 1)
  {
    if k == 0 {
      EmptySpan(log, addr, now + 1);
    } else {
      MinuteSumIsHits(minutes, log, now, addr, k - 1);
      assert MinuteIs(minutes, log, now, k - 1, addr);
      HitsSplit(log, addr, now + 1 - k, now + 2 - k, now + 1);
    }
  }

  lemma {:induction false} EpochSumIsHits(epochs: seq<map<int, nat>>, log: seq<Hit>, epoch: nat, addr: int, k: nat)
    requires EpochsAre(epochs, log, epoch) && k <= 12
    ensures EpochSum(epochs, epoch, addr, k) == Hits(log, addr, 5 * (epoch + 1 - k), 5 * epoch + 5)
  {
    if k == 0 {
      EmptySpan(log, addr, 5 * epoch + 5);
    } else {
      EpochSumIsHits(epochs, log, epoch, addr, k - 1);
      assert EpochIs(epochs, log, epoch, k - 1, addr);
      HitsSplit(log, addr, 5 * (epoch + 1 - k), 5 * (epoch + 2 - k), 5 * epoch + 5);
    }
  }

  lemma {:induction false} TouchKeepsMinuteSum(minutes: seq<map<int, nat>>, now: nat, addr: int, k: nat, i: nat)
    requires |minutes| == 5 && i < 5
    ensures MinuteSum(minutes[i := Touched(minutes[i], addr)], now, addr, k) == MinuteSum(minutes, now, addr, k)
  {
    if k > 0 {
      TouchKeepsMinuteSum(minutes, now, addr, k - 1, i);
    }
  }

  lemma {:induction false} TouchKeepsEpochSum(epochs: seq<map<int, nat>>, epoch: nat, addr: int, k: nat, i: nat)
    requires |epochs| == 12 && i < 12
    ensures EpochSum(epochs[i := Touched(epochs[i], addr)], epoch, addr, k) == EpochSum(epochs, epoch, addr, k)
  {
    if k > 0 {
      TouchKeepsEpochSum(epochs, epoch, addr, k - 1, i);
    }
  }

  // ----- the verdict, told by the tries before -----

  lemma {:induction false} HitsAreFiltered(log: seq<Hit>, addr: int, from: int, end: int, wanted: Hit -> bool)
    requires forall i | 0 <= i < |log| :: wanted(log[i]) <==> log[i].addr == addr && from <= log[i].tick < end
    ensures Hits(log, addr, from, end) == |Filter(log, wanted)|
  {
    if log != [] {
      var rest := log[..|log| - 1];
      assert forall i | 0 <= i < |rest| :: rest[i] == log[i];
      HitsAreFiltered(rest, addr, from, end, wanted);
    }
  }

  /** Whether fewer tries than a limit were made before; a limit of 0 is none. */
  predicate Below(tries: nat, limit: nat) {
    limit == 0 || tries < limit
  }

  lemma BelowIffNotExceeded(log: seq<Hit>, addr: int, now: nat, from: int, end: int, wanted: Hit -> bool, limit: nat)
    requires from <= now < end
    requires forall i | 0 <= i < |log| :: wanted(log[i]) <==> log[i].addr == addr && from <= log[i].tick < end
    ensures Below(|Filter(log, wanted)|, limit) <==> !Exceeds(Hits(log + [Hit(addr, now)], addr, from, end), limit)
  {
    HitsAppend(log, Hit(addr, now), addr, from, end);
    HitsAreFiltered(log, addr, from, end, wanted);
  }

  /**
   With limits, an address is let in exactly if before it has tried fewer times than each limit says in the same
   minute, in the last five, and in the last three and twelve epochs of five minutes.
   */
  lemma LetInIffBelowLimits(log: seq<Hit>, now: nat, addr: int, c: Config, wall: set<int>,
                            minute: Hit -> bool, five: Hit -> bool, quarter: Hit -> bool, hour: Hit -> bool)
    requires addr != 0 && addr != 1 && !c.use && c.useLimits && UpTo(log, now)
    requires forall h: Hit :: minute(h) <==> h.addr == addr && h.tick == now
    requires forall h: Hit :: five(h) <==> h.addr == addr && now - h.tick < 5
    requires forall h: Hit :: quarter(h) <==> h.addr == addr && now / 5 - h.tick / 5 < 3
    requires forall h: Hit :: hour(h) <==> h.addr == addr && now / 5 - h.tick / 5 < 12
    ensures LetIn(log, now, addr, c, wall) <==>
      && Below(|Filter(log, minute)|, c.limit1) && Below(|Filter(log, five)|, c.limit5)
      && Below(|Filter(log, quarter)|, c.limit15) && Below(|Filter(log, hour)|, c.limit60)
  {
    var epoch := now / 5 * 5;
    BelowIffNotExceeded(log, addr, now, now, now + 1, minute, c.limit1);
    BelowIffNotExceeded(log, addr, now, now - 4, now + 1, five, c.limit5);
    BelowIffNotExceeded(log, addr, now, epoch - 10, epoch + 5, quarter, c.limit15);
    BelowIffNotExceeded(log, addr, now, epoch - 55, epoch + 5, hour, c.limit60);
  }

  /** Without limits only the list counts, if it is used; two addresses are never let in. */
  lemma LetInWithoutLimits(log: seq<Hit>, now: nat, addr: int, c: Config, wall: set<int>)
    ensures addr == 0 || addr == 1 ==> !LetIn(log, now, addr, c, wall)
    ensures addr != 0 && addr != 1 && c.use ==> (LetIn(log, now, addr, c, wall) <==> addr !in wall)
    ensures addr != 0 && addr != 1 && !c.use && !c.useLimits ==> LetIn(log, now, addr, c, wall)
  {
  }

  /** A number of tries in the same minute. */
  function Tries(addr: int, now: nat, k: nat): (log: seq<Hit>) {
    seq(k, i => Hit(addr, now))
  }

  /** Of the tries of an address in its first minute, exactly the first `n` are let in by a limit of `n`. */
  lemma {:induction false} FirstTriesLetIn(addr: int, now: nat, k: nat, n: nat, wall: set<int>)
    requires addr != 0 && addr != 1 && n > 0
    ensures LetIn(Tries(addr, now, k), now, addr, Config(false, true, n, 0, 0, 0), wall) <==> k < n
  {
    TriesAreHits(addr, now, k);
    HitsAppend(Tries(addr, now, k), Hit(addr, now), addr, now, now + 1);
  }

  lemma {:induction false} TriesAreHits(addr: int, now: nat, k: nat)
    ensures Hits(Tries(addr, now, k), addr, now, now + 1) == k
  {
    if k > 0 {
      TriesAreHits(addr, now, k - 1);
      assert Tries(addr, now, k) == Tries(addr, now, k - 1) + [Hit(addr, now)];
      HitsAppend(Tries(addr, now, k - 1), Hit(addr, now), addr, now, now + 1);
    }
  }
}
