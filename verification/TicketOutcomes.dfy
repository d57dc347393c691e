/**
 What the steps of the ticket protocol say has become of tickets, ticket by ticket.
 */
module TicketOutcomes {
  import opened TicketProtocol
  import opened TicketTheorems
  import opened Sequences

  /** The same outcome for each ticket, in order. */
  function All(q: seq<Entry>, fate: Fate): (r: seq<Outcome>) {
    if q == [] then [] else [Outcome(q[0].id, fate)] + All(q[1..], fate)
  }

  lemma AllNext(done: seq<Outcome>, q: seq<Entry>, fate: Fate)
    requires q != []
    ensures done + [Outcome(q[0].id, fate)] + All(q[1..], fate) == done + All(q, fate)
  {
  }

  // ----- submitting, dropping all, closing -----

  /** A ticket is queued last, with its own kind, identifier and deadline, the next number and nothing sent. */
  lemma SubmittedIsLast(s: State, kind: Kind, ident: string, deadline: nat)
    ensures var s' := Step(s, Submit(kind, ident, deadline));
      && s'.out == s.out + [Entry(|s.idents|, kind, ident, deadline, s.next, 0)]
      && s'.next == s.next + 1 && s'.idents == s.idents + [ident]
      && s'.wait == s.wait && s'.sent == s.sent && s'.done == s.done
  {
  }

  lemma {:induction false} DropTicketsDone(s: State)
    ensures DropTickets(s) == s.(out := [], done := s.done + All(s.out, Dropped(ForcedDrop)))
    decreases |s.out|
  {
    if s.out != [] {
      DropTicketsDone(DropFromOut(s, 0, Dropped(ForcedDrop)));
      AllNext(s.done, s.out, Dropped(ForcedDrop));
      assert s.out[..0] + s.out[1..] == s.out[1..];
    }
  }

  lemma {:induction false} CloseDone(s: State)
    ensures CloseConnection(s) == s.(wait := [], done := s.done + All(s.wait, Dropped(NoProcessedConfirmation)))
    decreases |s.wait|
  {
    if s.wait != [] {
      CloseDone(DropFromWait(s, 0, Dropped(NoProcessedConfirmation)));
      AllNext(s.done, s.wait, Dropped(NoProcessedConfirmation));
      assert s.wait[..0] + s.wait[1..] == s.wait[1..];
    }
  }

  /** Dropping all drops what is queued by force; closing drops what waits for an answer as unconfirmed. */
  lemma DroppedAndClosed(s: State)
    ensures Step(s, DropAll) == s.(out := [], done := s.done + All(s.out, Dropped(ForcedDrop)))
    ensures Step(s, Close) == s.(wait := [], done := s.done + All(s.wait, Dropped(NoProcessedConfirmation)))
  {
    DropTicketsDone(s);
    CloseDone(s);
  }

  // ----- flushing -----

  /** What is recorded as sent of the first tickets of `out`: the tracked ones, in order. */
  function Sent(q: seq<Entry>): (r: seq<Transmission>) {
    if q == [] then []
    else (if q[0].kind == Tracked then [Transmission(q[0].id, q[0].ident, q[0].number)] else []) + Sent(q[1..])
  }

  lemma {:induction false} SendPrefixSent(s: State, count: nat)
    requires count <= |s.out|
    ensures SendPrefix(s, count).sent == s.sent + Sent(s.out[..count])
    ensures SendPrefix(s, count).next == s.next && SendPrefix(s, count).idents == s.idents
    decreases count
  {
    if count > 0 {
      SendPrefixSent(SendFirst(s), count - 1);
      assert s.out[..count][1..] == s.out[1..][..count - 1];
    }
  }

  /** A flush transmits the tracked ones among the tickets there is room for, in order. */
  lemma FlushSends(s: State, connected: bool, capacity: nat, now: nat)
    ensures var count := if !connected then 0 else if capacity < |s.out| then capacity else |s.out|;
      FlushTickets(s, connected, capacity, now).sent == s.sent + Sent(s.out[..count])
  {
    var count := if !connected then 0 else if capacity < |s.out| then capacity else |s.out|;
    SendPrefixSent(s, count);
    SweepOutClosed(SendPrefix(s, count), now, 0);
  }

  // ----- acknowledgements -----

  /** Tickets that were sent four times, in order. */
  function WornOut(q: seq<Entry>): (r: seq<Outcome>) {
    if q == [] then []
    else (if q[0].loop > 3 then [Outcome(q[0].id, Dropped(TooManyRetries))] else []) + WornOut(q[1..])
  }

  /** What becomes of the tickets of `wait[k..i]` that are neither worn out nor sent again. */
  function NotResent(s: State, k: nat, i: nat, now: nat): (r: seq<Outcome>)
    requires k <= i <= |s.wait|
    decreases i - k
  {
    if k == i then []
    else
      var t := s.wait[k];
      (if t.loop > 3 then []
       else if 0 < t.deadline <= now then [Outcome(t.id, Dropped(DeadlineReached))]
       else if !Newest(s, k) then [Outcome(t.id, Dropped(StableSequenceMiss))]
       else []) + NotResent(s, k + 1, i, now)
  }

  lemma {:induction false} SweepWaitDone(s: State, i: nat)
    requires i <= |s.wait|
    ensures SweepWait(s, i).done == s.done + WornOut(s.wait[i..])
    decreases |s.wait| - i
  {
    if i < |s.wait| {
      var t, rest := s.wait[i], s.wait[i..][1..];
      assert s.wait[i + 1..] == rest;
      if t.loop > 3 {
        var s1 := DropFromWait(s, i, Dropped(TooManyRetries));
        assert s1.wait[i..] == rest;
        SweepWaitDone(s1, i);
        Associative(s.done, [Outcome(t.id, Dropped(TooManyRetries))], WornOut(rest));
      } else {
        SweepWaitDone(s, i + 1);
        assert [] + WornOut(rest) == WornOut(rest);
      }
    } else {
      assert s.wait[i..] == [];
    }
  }

  lemma RollbackFirstDone(s: State, t: State, k: nat, i: nat, now: nat)
    requires QueuesOrdered(s) && k < i < |s.wait| && Reached(s, t, k, i) && s.wait[k].loop <= 3
    ensures t.wait != [] && t.wait[0].number < s.wait[i].number
    ensures RollbackFirst(t, s.wait[i].ident, now).done + NotResent(s, k + 1, i, now) ==
      t.done + NotResent(s, k, i, now)
  {
    ReachedHead(s, t, k, i);
    SupersededIsNotNewest(s, t, k, i);
    assert Precedes(s.wait[k], s.wait[i], true);
    var rest := NotResent(s, k + 1, i, now);
    var id := s.wait[k].id;
    Associative(t.done, [Outcome(id, Dropped(DeadlineReached))], rest);
    Associative(t.done, [Outcome(id, Dropped(StableSequenceMiss))], rest);
    assert [] + rest == rest;
  }

  lemma {:induction false} RollbackDone(s: State, t: State, k: nat, i: nat, now: nat)
    requires QueuesOrdered(s) && k <= i < |s.wait| && Reached(s, t, k, i)
    ensures Rollback(t, s.wait[i].number, s.wait[i].ident, now).done == t.done + NotResent(s, k, i, now)
    decreases i - k
  {
    if k == i {
      RollbackStops(s, t, i, now);
      assert t.done + [] == t.done;
    } else if s.wait[k].loop > 3 {
      WornOutReaches(s, t, k, i);
      RollbackDone(s, t, k + 1, i, now);
      assert [] + NotResent(s, k + 1, i, now) == NotResent(s, k + 1, i, now);
    } else {
      RollbackFirstReaches(s, t, k, i, now);
      RollbackFirstDone(s, t, k, i, now);
      RollbackDone(s, RollbackFirst(t, s.wait[i].ident, now), k + 1, i, now);
      RollbackNext(t, s.wait[i].number, s.wait[i].ident, now);
    }
  }

  lemma WaitingIndex(events: seq<Event>, i: nat)
    requires i < |Run(events).wait|
    ensures QueuesOrdered(Run(events)) && Numbered(Run(events))
    ensures IndexOf(Run(events).wait, Run(events).wait[i].number) == i
  {
    RunKeepsInv(events);
    var s := Run(events);
    assert forall a | 0 <= a < i :: Precedes(s.wait[a], s.wait[i], true);
    assert forall a | i < a < |s.wait| :: Precedes(s.wait[i], s.wait[a], true);
  }

  lemma SweptReaches(s: State, i: nat)
    requires i < |s.wait|
    ensures var t := SweepWait(DropFromWait(s, i, Acknowledged), 0);
      && Reached(s, t, 0, i)
      && t.done == s.done + [Outcome(s.wait[i].id, Acknowledged)] + WornOut(s.wait[..i] + s.wait[i + 1..])
  {
    var s1 := DropFromWait(s, i, Acknowledged);
    SweepWaitClosed(s1, 0);
    SweepWaitDone(s1, 0);
    NotWornOutConcat(s.wait[..i], s.wait[i + 1..]);
    assert s.wait[0..i] == s.wait[..i] && s1.wait[0..] == s1.wait;
  }

  /**
   An acknowledgement out of order acknowledges its ticket, gives up every waiting ticket sent four times, and of
   the older ones drops those that are due and those that a later ticket of their sequence has overtaken.
   */
  lemma AcknowledgementOutcomes(events: seq<Event>, i: nat, now: nat)
    requires 0 < i < |Run(events).wait|
    ensures var s := Run(events);
      AcknowledgeNumber(s, s.wait[i].number, now).done ==
        s.done + [Outcome(s.wait[i].id, Acknowledged)] + WornOut(s.wait[..i] + s.wait[i + 1..]) +
        NotResent(s, 0, i, now)
  {
    WaitingIndex(events, i);
    var s := Run(events);
    SweptReaches(s, i);
    RollbackDone(s, SweepWait(DropFromWait(s, i, Acknowledged), 0), 0, i, now);
  }

  /** An acknowledgement in order acknowledges the ticket that has waited longest, and does nothing else. */
  lemma InOrderAcknowledged(events: seq<Event>, now: nat)
    requires Run(events).wait != []
    ensures var s := Run(events);
      AcknowledgeNumber(s, s.wait[0].number, now) ==
        s.(wait := s.wait[1..], done := s.done + [Outcome(s.wait[0].id, Acknowledged)])
  {
    WaitingIndex(events, 0);
    var s := Run(events);
    assert s.wait[..0] + s.wait[1..] == s.wait[1..];
  }

  /** A ticket that is queued to be sent again may be acknowledged as well: it is then taken out. */
  lemma QueuedAcknowledged(events: seq<Event>, i: nat, now: nat)
    requires i < |Run(events).out|
    ensures var s := Run(events);
      AcknowledgeNumber(s, s.out[i].number, now) ==
        s.(out := s.out[..i] + s.out[i + 1..], done := s.done + [Outcome(s.out[i].id, Acknowledged)])
  {
    RunKeepsInv(events);
    var s := Run(events);
    assert forall a | 0 <= a < i :: Precedes(s.out[a], s.out[i], false);
    assert forall a | i < a < |s.out| :: Precedes(s.out[i], s.out[a], false);
    assert forall a | 0 <= a < |s.wait| :: Precedes(s.wait[a], s.out[i], false);
  }

  /** A number that no ticket has, and 0, acknowledges nothing. */
  lemma UnknownAcknowledgesNothing(s: State, number: nat, now: nat)
    requires number != 0 ==>
      (forall i | 0 <= i < |s.wait| :: s.wait[i].number != number) &&
      (forall i | 0 <= i < |s.out| :: s.out[i].number != number)
    ensures AcknowledgeNumber(s, number, now) == s
  {
  }
}
