/**
 What the ticket protocol guarantees over every run, and what one step does in closed form.
 */
module TicketTheorems {
  import opened TicketProtocol

  // ----- guarantees over every run -----

  /** Within a stable sequence, transmissions never go back to an earlier ticket. */
  lemma StableSequenceOrder(events: seq<Event>, k: nat, l: nat)
    requires k < l < |Run(events).sent|
    requires Run(events).sent[k].ident == Run(events).sent[l].ident != ""
    ensures Run(events).sent[k].id <= Run(events).sent[l].id
  {
    RunKeepsInv(events);
  }

  /** Once ticket `number` is acknowledged, no older ticket of its sequence is queued any more. */
  lemma AcknowledgementPurges(events: seq<Event>, i: nat, now: nat)
    requires i < |Run(events).wait| && Run(events).wait[i].ident != ""
    ensures var s, t := Run(events + [Acknowledge(Run(events).wait[i].number, now)]), Run(events).wait[i];
      forall e | (e in s.wait || e in s.out) && e.ident == t.ident :: e.id > t.id
  {
    RunKeepsInv(events);
    var s := Run(events);
    assert (events + [Acknowledge(s.wait[i].number, now)])[..|events|] == events;
    assert IndexOf(s.wait, s.wait[i].number) == i by {
      assert forall a | 0 <= a < i :: Precedes(s.wait[a], s.wait[i], true);
      assert forall a | i < a < |s.wait| :: Precedes(s.wait[i], s.wait[a], true);
    }
    AcknowledgeWaitingKeepsInv(s, i, now);
  }

  /** A ticket is skipped on account of its sequence only if a later one of it was submitted. */
  lemma SkippedOnlyIfOvertaken(events: seq<Event>, o: Outcome)
    requires o in Run(events).done && o.fate == Dropped(StableSequenceMiss)
    ensures HasLater(Run(events).idents, o.id)
  {
    RunKeepsInv(events);
  }

  /** Every submitted ticket is in exactly one place: queued, awaiting an answer, or settled once. */
  lemma Conservation(events: seq<Event>, id: nat)
    ensures var s := Run(events);
      EntryIds(s.wait)[id] + EntryIds(s.out)[id] + OutcomeIds(s.done)[id] == if id < |s.idents| then 1 else 0
  {
    RunKeepsInv(events);
    assert Census(Run(events))[id] == if id < |Run(events).idents| then 1 else 0;
  }

  lemma NumbersAlwaysIncrease(events: seq<Event>)
    ensures NumbersIncrease(Run(events))
  {
    RunKeepsInv(events);
    var s := Run(events);
    assert forall i, j | 0 <= i < j < |s.wait| :: Precedes(s.wait[i], s.wait[j], true);
    assert forall i, j | 0 <= i < j < |s.out| :: Precedes(s.out[i], s.out[j], false);
    assert forall i, j | 0 <= i < |s.wait| && 0 <= j < |s.out| :: Precedes(s.wait[i], s.out[j], false);
  }

  lemma AtMostFourTransmissions(events: seq<Event>, id: nat)
    ensures Transmissions(Run(events).sent, id) <= 4
  {
    RunKeepsInv(events);
  }

  /** A peer that answers only numbers it was sent never makes the client erase a ticket from `out`. */
  lemma SentNumberIsNotInOut(events: seq<Event>, k: nat)
    requires k < |Run(events).sent|
    ensures IndexOf(Run(events).out, Run(events).sent[k].number) == |Run(events).out|
  {
    RunKeepsInv(events);
  }

  // ----- plain tickets -----

  lemma RunNext(events: seq<Event>, e: Event)
    ensures Run(events + [e]) == Step(Run(events), e)
  {
    assert (events + [e])[..|events|] == events;
  }

  /** A tracked ticket, then a plain one of the same sequence, then one of another sequence, all of them sent. */
  function PlainBetween(ident: string): seq<Event> {
    [Submit(Tracked, ident, 0)] + [Submit(Plain, ident, 0)] + [Submit(Tracked, "", 0)] + [Flush(true, 3, 1)]
  }

  lemma PlainBetweenIsSent(ident: string)
    ensures var s := Run(PlainBetween(ident));
      && s.out == [] && s.next == 4 && s.done == [Outcome(1, SentPlain)]
      && s.wait == [Entry(0, Tracked, ident, 0, 1, 1), Entry(2, Tracked, "", 0, 3, 1)]
  {
    var a, b, c := Submit(Tracked, ident, 0), Submit(Plain, ident, 0), Submit(Tracked, "", 0);
    RunNext([], a);
    assert [] + [a] == [a];
    RunNext([a], b);
    RunNext([a] + [b], c);
    RunNext([a] + [b] + [c], Flush(true, 3, 1));
    var s := Run([a] + [b] + [c]);
    var e0, e1, e2 := Entry(0, Tracked, ident, 0, 1, 0), Entry(1, Plain, ident, 0, 2, 0),
      Entry(2, Tracked, "", 0, 3, 0);
    assert s.out == [e0, e1, e2] && s.next == 4;
    assert s.out[1..] == [e1, e2] && [e1, e2][1..] == [e2] && [e2][1..] == [];
    assert SendPrefix(s, 3) == SendPrefix(SendFirst(s), 2);
    assert SendPrefix(SendFirst(s), 2) == SendPrefix(SendFirst(SendFirst(s)), 1);
    assert SendPrefix(SendFirst(SendFirst(s)), 1) == SendFirst(SendFirst(SendFirst(s)));
  }

  /**
   A plain ticket leaves nothing behind that bars the older ones of its sequence: the tracked ticket 0 is
   queued to be sent again after the plain ticket 1 was sent.
   */
  lemma PlainTicketIsOvertaken(ident: string)
    requires ident != ""
    ensures var s := Run(PlainBetween(ident) + [Acknowledge(3, 1)]);
      && Outcome(1, SentPlain) in s.done && s.out == [Entry(0, Tracked, ident, 0, 4, 1)]
  {
    PlainBetweenIsSent(ident);
    RunNext(PlainBetween(ident), Acknowledge(3, 1));
    var s := Run(PlainBetween(ident));
    var e := s.wait[0];
    assert s.wait[1..] == [s.wait[1]] && IndexOf(s.wait, 3) == 1;
    var t := DropFromWait(s, 1, Acknowledged);
    assert t.wait == [e] && [e][1..] == [];
    assert SweepWait(t, 0) == SweepWait(t, 1) == t;
    assert RollbackFirst(t, "", 1).out == [e.(number := 4)];
    assert Rollback(t, 3, "", 1) == RollbackFirst(t, "", 1);
  }

  // ----- a flush in closed form -----

  function Unexpired(q: seq<Entry>, now: nat): (r: seq<Entry>) {
    if q == [] then []
    else (if Expired(q[0].deadline, now) then [] else [q[0]]) + Unexpired(q[1..], now)
  }

  /** What of a transmitted prefix now awaits an answer. */
  function Awaiting(q: seq<Entry>): (r: seq<Entry>) {
    if q == [] then []
    else (if q[0].kind == Tracked then [q[0].(loop := q[0].loop + 1)] else []) + Awaiting(q[1..])
  }

  lemma {:induction false} SweepOutClosed(s: State, now: nat, i: nat)
    requires i <= |s.out|
    ensures SweepOut(s, now, i).out == s.out[..i] + Unexpired(s.out[i..], now)
    ensures SweepOut(s, now, i).wait == s.wait && SweepOut(s, now, i).sent == s.sent
    decreases |s.out| - i
  {
    if i < |s.out| {
      var t := s.out[i];
      if Expired(t.deadline, now) {
        var s1 := DropFromOut(s, i, Dropped(DeadlineReached));
        SweepOutClosed(s1, now, i);
        assert s1.out[..i] == s.out[..i] && s1.out[i..] == s.out[i..][1..];
      } else {
        SweepOutClosed(s, now, i + 1);
        assert s.out[..i + 1] == s.out[..i] + [t] && s.out[i + 1..] == s.out[i..][1..];
      }
    }
  }

  lemma {:induction false} SendPrefixClosed(s: State, count: nat)
    requires count <= |s.out|
    ensures SendPrefix(s, count).out == s.out[count..]
    ensures SendPrefix(s, count).wait == s.wait + Awaiting(s.out[..count])
    decreases count
  {
    if count > 0 {
      SendPrefixClosed(SendFirst(s), count - 1);
      assert s.out[..count][1..] == s.out[1..][..count - 1];
    }
  }

  /** A flush sends a prefix in order, then drops exactly the expired tickets of what it could not send. */
  lemma FlushClosed(s: State, connected: bool, capacity: nat, now: nat)
    ensures var s', count := FlushTickets(s, connected, capacity, now),
        if !connected then 0 else if capacity < |s.out| then capacity else |s.out|;
      && s'.wait == s.wait + Awaiting(s.out[..count])
      && s'.out == Unexpired(s.out[count..], now)
  {
    var count := if !connected then 0 else if capacity < |s.out| then capacity else |s.out|;
    SendPrefixClosed(s, count);
    SweepOutClosed(SendPrefix(s, count), now, 0);
    assert SendPrefix(s, count).out[0..] == SendPrefix(s, count).out;
  }

  // ----- an acknowledgement in closed form -----

  function NotWornOut(q: seq<Entry>): (r: seq<Entry>) {
    if q == [] then []
    else (if q[0].loop > MAX_LOOP then [] else [q[0]]) + NotWornOut(q[1..])
  }

  /** Whether no later ticket of the sequence of `wait[k]` is queued or was just acknowledged. */
  predicate Newest(s: State, k: nat)
    requires k < |s.wait|
  {
    s.wait[k].ident == "" ||
    (!Mentions(s.wait[k + 1..], s.wait[k].ident) && !Mentions(s.out, s.wait[k].ident))
  }

  /** The tickets of `wait[k..i]` to be sent again, read off the state before the acknowledgement. */
  function Resendable(s: State, k: nat, i: nat, now: nat): (r: seq<Entry>)
    requires k <= i <= |s.wait|
    decreases i - k
  {
    if k == i then []
    else
      (if s.wait[k].loop <= MAX_LOOP && !Expired(s.wait[k].deadline, now) && Newest(s, k) then [s.wait[k]] else [])
      + Resendable(s, k + 1, i, now)
  }

  function Renumber(q: seq<Entry>, next: nat): (r: seq<Entry>) {
    if q == [] then [] else [q[0].(number := next)] + Renumber(q[1..], next + 1)
  }

  lemma {:induction false} SweepWaitClosed(s: State, i: nat)
    requires i <= |s.wait|
    ensures SweepWait(s, i).wait == s.wait[..i] + NotWornOut(s.wait[i..])
    ensures SweepWait(s, i).out == s.out && SweepWait(s, i).next == s.next
    decreases |s.wait| - i
  {
    if i < |s.wait| {
      var t := s.wait[i];
      if t.loop > MAX_LOOP {
        var s1 := DropFromWait(s, i, Dropped(TooManyRetries));
        SweepWaitClosed(s1, i);
        assert s1.wait[..i] == s.wait[..i] && s1.wait[i..] == s.wait[i..][1..];
      } else {
        SweepWaitClosed(s, i + 1);
        assert s.wait[..i + 1] == s.wait[..i] + [t] && s.wait[i + 1..] == s.wait[i..][1..];
      }
    }
  }

  lemma {:induction false} NotWornOutConcat(a: seq<Entry>, b: seq<Entry>)
    ensures NotWornOut(a + b) == NotWornOut(a) + NotWornOut(b)
  {
    if a == [] {
      assert a + b == b;
    } else {
      assert (a + b)[0] == a[0] && (a + b)[1..] == a[1..] + b;
      NotWornOutConcat(a[1..], b);
      var head := if a[0].loop > MAX_LOOP then [] else [a[0]];
      assert head + (NotWornOut(a[1..]) + NotWornOut(b)) == (head + NotWornOut(a[1..])) + NotWornOut(b);
    }
  }

  lemma {:induction false} NotWornOutMember(q: seq<Entry>, t: Entry)
    ensures t in NotWornOut(q) <==> t in q && t.loop <= MAX_LOOP
  {
    if q != [] {
      assert q == [q[0]] + q[1..];
      NotWornOutMember(q[1..], t);
    }
  }

  /** The rollback after ticket `i` was acknowledged has reached ticket `k` of the original `wait`. */
  ghost predicate Reached(s: State, t: State, k: nat, i: nat)
    requires k <= i < |s.wait|
  {
    && t.wait == NotWornOut(s.wait[k..i]) + NotWornOut(s.wait[i + 1..])
    && (forall x | x in s.out :: x in t.out)
    && (forall x | x in t.out :: x in s.out || x.ident == "" || !Mentions(s.wait[k..], x.ident))
  }

  lemma ReachedHead(s: State, t: State, k: nat, i: nat)
    requires k < i < |s.wait| && Reached(s, t, k, i) && s.wait[k].loop <= MAX_LOOP
    ensures t.wait != [] && t.wait[0] == s.wait[k]
    ensures t.wait[1..] == NotWornOut(s.wait[k + 1..i]) + NotWornOut(s.wait[i + 1..])
  {
    assert s.wait[k..i] == [s.wait[k]] + s.wait[k + 1..i];
    assert s.wait[k..i][1..] == s.wait[k + 1..i];
  }

  /** A later ticket of the same sequence has been sent once, so it is not worn out. */
  lemma LaterSurvives(s: State, k: nat, j: nat, i: nat)
    requires QueuesOrdered(s) && k < j < |s.wait| && k < i < |s.wait| && j != i && SameSequence(s.wait[k], s.wait[j])
    ensures s.wait[j] in NotWornOut(s.wait[k + 1..i]) + NotWornOut(s.wait[i + 1..])
  {
    assert Precedes(s.wait[k], s.wait[j], true);
    if j < i {
      assert s.wait[k + 1..i][j - k - 1] == s.wait[j];
      NotWornOutMember(s.wait[k + 1..i], s.wait[j]);
    } else {
      assert s.wait[i + 1..][j - i - 1] == s.wait[j];
      NotWornOutMember(s.wait[i + 1..], s.wait[j]);
    }
  }

  lemma RemainingWasWaiting(s: State, t: Entry, k: nat, i: nat)
    requires k < i < |s.wait| && t in NotWornOut(s.wait[k + 1..i]) + NotWornOut(s.wait[i + 1..])
    ensures t in s.wait[k + 1..]
  {
    NotWornOutMember(s.wait[k + 1..i], t);
    NotWornOutMember(s.wait[i + 1..], t);
    if t in s.wait[k + 1..i] {
      var a :| 0 <= a < |s.wait[k + 1..i]| && s.wait[k + 1..i][a] == t;
      assert s.wait[k + 1..][a] == t;
    } else {
      var a :| 0 <= a < |s.wait[i + 1..]| && s.wait[i + 1..][a] == t;
      assert s.wait[k + 1..][a + i - k] == t;
    }
  }

  lemma SupersededMeansLater(s: State, t: State, k: nat, i: nat)
    requires k < i < |s.wait| && Reached(s, t, k, i) && s.wait[k].loop <= MAX_LOOP
    requires t.wait != [] && Superseded(t, s.wait[i].ident)
    ensures !Newest(s, k)
  {
    ReachedHead(s, t, k, i);
    var ident := s.wait[k].ident;
    if ident == s.wait[i].ident {
      assert s.wait[k + 1..][i - k - 1].ident == ident;
    } else if Mentions(t.out, ident) {
      var a :| 0 <= a < |t.out| && t.out[a].ident == ident;
      assert t.out[a] in t.out && s.wait[k..][0].ident == ident;
      assert t.out[a] in s.out;
    } else {
      var a :| 0 <= a < |t.wait[1..]| && t.wait[1..][a].ident == ident;
      RemainingWasWaiting(s, t.wait[1..][a], k, i);
    }
  }

  lemma LaterMeansSuperseded(s: State, t: State, k: nat, i: nat)
    requires QueuesOrdered(s) && k < i < |s.wait| && Reached(s, t, k, i) && s.wait[k].loop <= MAX_LOOP
    requires !Newest(s, k)
    ensures t.wait != [] && Superseded(t, s.wait[i].ident)
  {
    ReachedHead(s, t, k, i);
    var ident := s.wait[k].ident;
    if Mentions(s.out, ident) {
      var a :| 0 <= a < |s.out| && s.out[a].ident == ident;
      assert s.out[a] in t.out;
    } else if ident != s.wait[i].ident {
      var a :| 0 <= a < |s.wait[k + 1..]| && s.wait[k + 1..][a].ident == ident;
      LaterSurvives(s, k, k + 1 + a, i);
      assert s.wait[k + 1 + a] in t.wait[1..];
    }
  }

  /** In the middle of the rollback, a ticket is barred exactly if the original state names a later one. */
  lemma SupersededIsNotNewest(s: State, t: State, k: nat, i: nat)
    requires QueuesOrdered(s) && k < i < |s.wait| && Reached(s, t, k, i) && s.wait[k].loop <= MAX_LOOP
    ensures t.wait != [] && Superseded(t, s.wait[i].ident) == !Newest(s, k)
  {
    ReachedHead(s, t, k, i);
    if Newest(s, k) {
      if Superseded(t, s.wait[i].ident) {
        SupersededMeansLater(s, t, k, i);
      }
    } else {
      LaterMeansSuperseded(s, t, k, i);
    }
  }

  lemma RollbackFirstReaches(s: State, t: State, k: nat, i: nat, now: nat)
    requires QueuesOrdered(s) && k < i < |s.wait| && Reached(s, t, k, i) && s.wait[k].loop <= MAX_LOOP
    ensures t.wait != [] && Reached(s, RollbackFirst(t, s.wait[i].ident, now), k + 1, i)
  {
    ReachedHead(s, t, k, i);
    SupersededIsNotNewest(s, t, k, i);
    var t' := RollbackFirst(t, s.wait[i].ident, now);
    assert t'.wait == t.wait[1..];
    forall x | x in t'.out
      ensures x in s.out || x.ident == "" || !Mentions(s.wait[k + 1..], x.ident)
    {
      if x in t.out && Mentions(s.wait[k + 1..], x.ident) {
        var a :| 0 <= a < |s.wait[k + 1..]| && s.wait[k + 1..][a].ident == x.ident;
        assert s.wait[k..][a + 1].ident == x.ident;
      }
    }
  }

  lemma WornOutReaches(s: State, t: State, k: nat, i: nat)
    requires k < i < |s.wait| && Reached(s, t, k, i) && s.wait[k].loop > MAX_LOOP
    ensures Reached(s, t, k + 1, i)
  {
    assert s.wait[k..i][1..] == s.wait[k + 1..i];
    forall x | x in t.out && Mentions(s.wait[k + 1..], x.ident)
      ensures Mentions(s.wait[k..], x.ident)
    {
      var a :| 0 <= a < |s.wait[k + 1..]| && s.wait[k + 1..][a].ident == x.ident;
      assert s.wait[k..][a + 1].ident == x.ident;
    }
  }

  lemma RollbackStops(s: State, t: State, i: nat, now: nat)
    requires QueuesOrdered(s) && i < |s.wait| && Reached(s, t, i, i)
    ensures t.wait == NotWornOut(s.wait[i + 1..]) && Rollback(t, s.wait[i].number, s.wait[i].ident, now) == t
  {
    assert s.wait[i..i] == [];
    if t.wait != [] {
      NotWornOutMember(s.wait[i + 1..], t.wait[0]);
      var a :| 0 <= a < |s.wait[i + 1..]| && s.wait[i + 1..][a] == t.wait[0];
      assert Precedes(s.wait[i], s.wait[i + 1 + a], true);
    }
  }

  /** One ticket of the rollback, against the next element of the closed form. */
  lemma RollbackFirstClosed(s: State, t: State, k: nat, i: nat, now: nat)
    requires QueuesOrdered(s) && k < i < |s.wait| && Reached(s, t, k, i) && s.wait[k].loop <= MAX_LOOP
    ensures t.wait != [] && t.wait[0].number < s.wait[i].number
    ensures var t' := RollbackFirst(t, s.wait[i].ident, now);
      t.out + Renumber(Resendable(s, k, i, now), t.next) == t'.out + Renumber(Resendable(s, k + 1, i, now), t'.next)
  {
    ReachedHead(s, t, k, i);
    SupersededIsNotNewest(s, t, k, i);
    assert Precedes(s.wait[k], s.wait[i], true);
    var rest := Resendable(s, k + 1, i, now);
    if !Expired(s.wait[k].deadline, now) && Newest(s, k) {
      assert ([s.wait[k]] + rest)[1..] == rest;
    } else {
      assert Resendable(s, k, i, now) == rest;
    }
  }

  lemma {:induction false} RollbackClosed(s: State, t: State, k: nat, i: nat, now: nat)
    requires QueuesOrdered(s) && k <= i < |s.wait| && Reached(s, t, k, i)
    ensures var t' := Rollback(t, s.wait[i].number, s.wait[i].ident, now);
      t'.out == t.out + Renumber(Resendable(s, k, i, now), t.next) && t'.wait == NotWornOut(s.wait[i + 1..])
    decreases i - k
  {
    if k == i {
      RollbackStops(s, t, i, now);
    } else if s.wait[k].loop > MAX_LOOP {
      WornOutReaches(s, t, k, i);
      RollbackClosed(s, t, k + 1, i, now);
      assert Resendable(s, k, i, now) == Resendable(s, k + 1, i, now);
    } else {
      RollbackFirstReaches(s, t, k, i, now);
      RollbackFirstClosed(s, t, k, i, now);
      RollbackClosed(s, RollbackFirst(t, s.wait[i].ident, now), k + 1, i, now);
    }
  }

  /**
   An acknowledgement out of order keeps what was sent later and sends again, in order, exactly the
   older tickets sent at most three times, not expired, and newest of their sequence.
   */
  lemma AcknowledgeClosed(events: seq<Event>, i: nat, now: nat)
    requires 0 < i < |Run(events).wait|
    ensures var s := Run(events);
      var s' := AcknowledgeNumber(s, s.wait[i].number, now);
      s'.out == s.out + Renumber(Resendable(s, 0, i, now), s.next) && s'.wait == NotWornOut(s.wait[i + 1..])
  {
    RunKeepsInv(events);
    var s := Run(events);
    assert IndexOf(s.wait, s.wait[i].number) == i by {
      assert forall a | 0 <= a < i :: Precedes(s.wait[a], s.wait[i], true);
      assert forall a | i < a < |s.wait| :: Precedes(s.wait[i], s.wait[a], true);
    }
    var t := SweepWait(DropFromWait(s, i, Acknowledged), 0);
    SweepWaitClosed(DropFromWait(s, i, Acknowledged), 0);
    NotWornOutConcat(s.wait[..i], s.wait[i + 1..]);
    assert s.wait[0..i] == s.wait[..i] && s.wait[0..] == s.wait;
    assert DropFromWait(s, i, Acknowledged).wait[0..] == s.wait[..i] + s.wait[i + 1..];
    RollbackClosed(s, t, 0, i, now);
  }
}
