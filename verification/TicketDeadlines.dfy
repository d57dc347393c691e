/**
 What becomes of tickets whose deadline has passed, and of those whose deadline has not.

 A deadline of 0 is none.  A ticket is due at `now` if `0 < deadline <= now`.
 */
module TicketDeadlines {
  import opened TicketProtocol
  import opened TicketTheorems
  import opened TicketOvertaking

  // ----- flushing -----

  /** The tickets that are not due, in order. */
  function Timely(q: seq<Entry>, now: nat): (r: seq<Entry>) {
    if q == [] then []
    else (if q[0].deadline == 0 || q[0].deadline > now then [q[0]] else []) + Timely(q[1..], now)
  }

  /** The tickets that are due, in order. */
  function Due(q: seq<Entry>, now: nat): (r: seq<Entry>) {
    if q == [] then []
    else (if 0 < q[0].deadline <= now then [q[0]] else []) + Due(q[1..], now)
  }

  lemma {:induction false} TimelyMembers(q: seq<Entry>, now: nat)
    ensures forall e :: e in Timely(q, now) <==> e in q && !(0 < e.deadline <= now)
  {
    if q != [] {
      TimelyMembers(q[1..], now);
      assert q == [q[0]] + q[1..];
    }
  }

  lemma {:induction false} UnexpiredIsTimely(q: seq<Entry>, now: nat)
    ensures Unexpired(q, now) == Timely(q, now)
  {
    if q != [] {
      UnexpiredIsTimely(q[1..], now);
    }
  }

  /** What is said of tickets that are dropped for their deadline. */
  function Overdue(q: seq<Entry>): (r: seq<Outcome>) {
    if q == [] then [] else [Outcome(q[0].id, Dropped(DeadlineReached))] + Overdue(q[1..])
  }

  lemma {:induction false} SweepOutDrops(s: State, now: nat, i: nat)
    requires i <= |s.out|
    ensures SweepOut(s, now, i).done == s.done + Overdue(Due(s.out[i..], now))
    decreases |s.out| - i
  {
    if i < |s.out| {
      var t, rest := s.out[i], s.out[i..][1..];
      assert s.out[i + 1..] == rest;
      if 0 < t.deadline <= now {
        var s1 := DropFromOut(s, i, Dropped(DeadlineReached));
        assert s1.out[i..] == rest;
        SweepOutDrops(s1, now, i);
        OverdueNext(s.done, t, Due(rest, now));
      } else {
        SweepOutDrops(s, now, i + 1);
        assert [] + Due(rest, now) == Due(rest, now);
      }
    } else {
      assert s.out[i..] == [];
    }
  }

  lemma OverdueNext(done: seq<Outcome>, t: Entry, rest: seq<Entry>)
    ensures done + [Outcome(t.id, Dropped(DeadlineReached))] + Overdue(rest) == done + Overdue([t] + rest)
  {
    assert ([t] + rest)[1..] == rest;
  }

  /** What is said of tickets that are sent without waiting for an answer. */
  function SentOrDiscarded(q: seq<Entry>): (r: seq<Outcome>) {
    if q == [] then []
    else
      (match q[0].kind
       case Plain => [Outcome(q[0].id, SentPlain)]
       case Tracked => []
       case Unroutable => [Outcome(q[0].id, Discarded)]) + SentOrDiscarded(q[1..])
  }

  lemma {:induction false} SendPrefixDone(s: State, count: nat)
    requires count <= |s.out|
    ensures SendPrefix(s, count).done == s.done + SentOrDiscarded(s.out[..count])
    decreases count
  {
    if count > 0 {
      SendPrefixDone(SendFirst(s), count - 1);
      assert s.out[..count][1..] == s.out[1..][..count - 1];
    }
  }

  /**
   A flush leaves in `out`, in order, exactly the tickets it had no room for that are not due; those that
   are due are dropped for it, and no others.
   */
  lemma FlushDropsDue(s: State, connected: bool, capacity: nat, now: nat)
    ensures var s', count := FlushTickets(s, connected, capacity, now),
        if !connected then 0 else if capacity < |s.out| then capacity else |s.out|;
      && s'.out == Timely(s.out[count..], now)
      && s'.done == s.done + SentOrDiscarded(s.out[..count]) + Overdue(Due(s.out[count..], now))
      && forall e | e in s'.out :: e.deadline == 0 || e.deadline > now
  {
    var count := if !connected then 0 else if capacity < |s.out| then capacity else |s.out|;
    FlushClosed(s, connected, capacity, now);
    UnexpiredIsTimely(s.out[count..], now);
    TimelyMembers(s.out[count..], now);
    SendPrefixClosed(s, count);
    SendPrefixDone(s, count);
    SweepOutDrops(SendPrefix(s, count), now, 0);
    assert SendPrefix(s, count).out[0..] == SendPrefix(s, count).out;
  }

  // ----- acknowledgements -----

  /** The outcomes of a step that are drops for a deadline are of waiting tickets that are due. */
  ghost predicate OnlyDueDropped(s: State, s': State, now: nat) {
    && s.done <= s'.done
    && forall k | |s.done| <= k < |s'.done| && s'.done[k].fate == Dropped(DeadlineReached) ::
      exists e :: e in s.wait && e.id == s'.done[k].id && 0 < e.deadline <= now
  }

  lemma OnlyDueDroppedNext(s: State, s1: State, s2: State, now: nat)
    requires OnlyDueDropped(s, s1, now) && OnlyDueDropped(s1, s2, now) && forall e | e in s1.wait :: e in s.wait
    ensures OnlyDueDropped(s, s2, now)
  {
    forall k | |s.done| <= k < |s2.done| && s2.done[k].fate == Dropped(DeadlineReached)
      ensures exists e :: e in s.wait && e.id == s2.done[k].id && 0 < e.deadline <= now
    {
      if k < |s1.done| {
        assert s2.done[k] == s1.done[k];
      } else {
        var e :| e in s1.wait && e.id == s2.done[k].id && 0 < e.deadline <= now;
      }
    }
  }

  lemma DropFromWaitDropsDue(s: State, i: nat, fate: Fate, now: nat)
    requires i < |s.wait| && (fate == Dropped(DeadlineReached) ==> 0 < s.wait[i].deadline <= now)
    ensures OnlyDueDropped(s, DropFromWait(s, i, fate), now)
    ensures forall e | e in DropFromWait(s, i, fate).wait :: e in s.wait
  {
    assert s.wait[i] in s.wait;
  }

  lemma {:induction false} SweepWaitDropsDue(s: State, i: nat, now: nat)
    requires i <= |s.wait|
    ensures OnlyDueDropped(s, SweepWait(s, i), now)
    ensures forall e | e in SweepWait(s, i).wait :: e in s.wait
    decreases |s.wait| - i
  {
    if i < |s.wait| {
      if s.wait[i].loop > MAX_LOOP {
        var s1 := DropFromWait(s, i, Dropped(TooManyRetries));
        DropFromWaitDropsDue(s, i, Dropped(TooManyRetries), now);
        SweepWaitDropsDue(s1, i, now);
        OnlyDueDroppedNext(s, s1, SweepWait(s1, i), now);
      } else {
        SweepWaitDropsDue(s, i + 1, now);
      }
    }
  }

  lemma RollbackFirstDropsDue(s: State, ident: string, now: nat)
    requires s.wait != []
    ensures OnlyDueDropped(s, RollbackFirst(s, ident, now), now)
    ensures forall e | e in RollbackFirst(s, ident, now).wait :: e in s.wait
  {
    if 0 < s.wait[0].deadline <= now {
      DropFromWaitDropsDue(s, 0, Dropped(DeadlineReached), now);
    } else if Superseded(s, ident) {
      DropFromWaitDropsDue(s, 0, Dropped(StableSequenceMiss), now);
    }
  }

  lemma {:induction false} RollbackDropsDue(s: State, number: nat, ident: string, now: nat)
    ensures OnlyDueDropped(s, Rollback(s, number, ident, now), now)
    decreases |s.wait|
  {
    if s.wait != [] && s.wait[0].number < number {
      var s1 := RollbackFirst(s, ident, now);
      RollbackFirstDropsDue(s, ident, now);
      RollbackDropsDue(s1, number, ident, now);
      OnlyDueDroppedNext(s, s1, Rollback(s1, number, ident, now), now);
    }
  }

  /** An acknowledgement drops for its deadline only what waits for an answer and is due. */
  lemma AcknowledgeDropsDue(s: State, number: nat, now: nat)
    ensures OnlyDueDropped(s, AcknowledgeNumber(s, number, now), now)
  {
    var i := IndexOf(s.wait, number);
    if 0 < i < |s.wait| {
      var s1 := DropFromWait(s, i, Acknowledged);
      var s2 := SweepWait(s1, 0);
      DropFromWaitDropsDue(s, i, Acknowledged, now);
      SweepWaitDropsDue(s1, 0, now);
      RollbackDropsDue(s2, number, s.wait[i].ident, now);
      OnlyDueDroppedNext(s, s1, s2, now);
      OnlyDueDroppedNext(s, s2, Rollback(s2, number, s.wait[i].ident, now), now);
    }
  }

  /** Ticket `wait[k]` is to be sent again: sent at most three times, not due, and the newest of its sequence. */
  predicate SentAgain(s: State, k: nat, now: nat)
    requires k < |s.wait|
  {
    && s.wait[k].loop <= 3
    && (s.wait[k].deadline == 0 || s.wait[k].deadline > now)
    && Newest(s, k)
  }

  /** Each ticket of `q` stems from one of `wait[..i]` that is to be sent again. */
  lemma ResentAreTimely(s: State, i: nat, now: nat, next: nat, e: Entry) returns (k: nat)
    requires i <= |s.wait| && e in Renumber(Resendable(s, 0, i, now), next)
    ensures k < i && SentAgain(s, k, now) && e.id == s.wait[k].id
  {
    var f := RenumberFrom(Resendable(s, 0, i, now), next, e);
    k := ResendableFrom(s, 0, i, now, f);
    ResendableNotDue(s, 0, i, now, f);
  }

  lemma {:induction false} ResendableNotDue(s: State, k: nat, i: nat, now: nat, e: Entry)
    requires k <= i <= |s.wait| && e in Resendable(s, k, i, now)
    ensures e.deadline == 0 || e.deadline > now
    decreases i - k
  {
    if !(s.wait[k].loop <= MAX_LOOP && !Expired(s.wait[k].deadline, now) && Newest(s, k) && e == s.wait[k]) {
      ResendableNotDue(s, k + 1, i, now, e);
    }
  }

  lemma TimelyAreResent(s: State, i: nat, now: nat, next: nat, k: nat) returns (e: Entry)
    requires k < i <= |s.wait| && SentAgain(s, k, now)
    ensures e in Renumber(Resendable(s, 0, i, now), next) && e.id == s.wait[k].id
  {
    ResendableHas(s, 0, i, now, k);
    e := RenumberHas(Resendable(s, 0, i, now), next, s.wait[k]);
  }

  /**
   After an acknowledgement out of order the older tickets that are queued again are exactly those sent at
   most three times, not due, and newest of their sequence; what was queued before stays in front.
   */
  lemma QueuedAgainExactly(events: seq<Event>, i: nat, now: nat)
    requires 0 < i < |Run(events).wait|
    ensures var s := Run(events);
      var s' := AcknowledgeNumber(s, s.wait[i].number, now);
      && s.out <= s'.out
      && (forall e | e in s'.out[|s.out|..] :: exists k: nat :: k < i && SentAgain(s, k, now) && e.id == s.wait[k].id)
      && (forall k: nat | k < i && SentAgain(s, k, now) :: exists e :: e in s'.out[|s.out|..] && e.id == s.wait[k].id)
  {
    var s := Run(events);
    AcknowledgeClosed(events, i, now);
    var more := Renumber(Resendable(s, 0, i, now), s.next);
    assert (s.out + more)[|s.out|..] == more;
    forall e | e in more
      ensures exists k: nat :: k < i && SentAgain(s, k, now) && e.id == s.wait[k].id
    {
      var k := ResentAreTimely(s, i, now, s.next, e);
    }
    forall k: nat | k < i && SentAgain(s, k, now)
      ensures exists e :: e in more && e.id == s.wait[k].id
    {
      var e := TimelyAreResent(s, i, now, s.next, k);
    }
  }
}
