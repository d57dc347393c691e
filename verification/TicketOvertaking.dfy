/**
 When a ticket can be sent again although something later of its sequence may already have been sent.

 Tracked tickets bar older ones of their sequence as long as they are queued or await an answer.  Plain
 tickets are sent once and forgotten, so that they bar nothing.
 */
module TicketOvertaking {
  import opened TicketProtocol
  import opened TicketTheorems

  // ----- what is barred -----

  /** A ticket of a sequence, submitted before ticket `p`. */
  predicate Older(e: Entry, ident: string, p: nat) {
    e.ident == ident && e.id < p
  }

  /** Ticket `wait[i]` is older, not worn out, and nothing of its sequence was sent after it. */
  predicate Resent(s: State, i: nat, ident: string, p: nat)
    requires i < |s.wait|
  {
    Older(s.wait[i], ident, p) && s.wait[i].loop <= MAX_LOOP && !Mentions(s.wait[i + 1..], ident)
  }

  /** Whether some ticket older than `p` of a sequence is queued, or will be if a later ticket is answered first. */
  ghost predicate Pending(s: State, ident: string, p: nat) {
    || (exists e :: e in s.out && e.kind == Tracked && Older(e, ident, p))
    || (exists i: nat :: i < |s.wait| && Resent(s, i, ident, p))
  }

  /** Transmission `k` is of a ticket older than `p` of a sequence. */
  predicate SendsOlder(sent: seq<Transmission>, k: nat, ident: string, p: nat) {
    k < |sent| && sent[k].ident == ident && sent[k].id < p
  }

  /** In some continuation a ticket older than `p` of a sequence is sent. */
  ghost predicate OlderIsSent(events: seq<Event>, ident: string, p: nat) {
    exists more: seq<Event>, k: nat :: k >= |Run(events).sent| && SendsOlder(Run(events + more).sent, k, ident, p)
  }

  // ----- what is barred stays barred -----

  /** Whatever is older and not worn out has something of its sequence behind it. */
  predicate Covered(q: seq<Entry>, ident: string, p: nat) {
    q == [] ||
    ((Older(q[0], ident, p) && q[0].loop <= MAX_LOOP ==> Mentions(q[1..], ident)) && Covered(q[1..], ident, p))
  }

  ghost predicate Barred(s: State, ident: string, p: nat) {
    && (forall e | e in s.out && e.kind == Tracked :: !Older(e, ident, p))
    && Covered(s.wait, ident, p)
  }

  lemma {:induction false} CoveredFrom(q: seq<Entry>, i: nat, ident: string, p: nat)
    requires Covered(q, ident, p) && i <= |q|
    ensures Covered(q[i..], ident, p)
  {
    if i > 0 {
      CoveredFrom(q[1..], i - 1, ident, p);
      assert q[1..][i - 1..] == q[i..];
    }
  }

  lemma {:induction false} NotCovered(s: State, q: seq<Entry>, n: nat, ident: string, p: nat) returns (i: nat)
    requires n <= |s.wait| && q == s.wait[n..] && !Covered(q, ident, p)
    ensures i < |s.wait| && Resent(s, i, ident, p)
    decreases |q|
  {
    assert q[0] == s.wait[n] && q[1..] == s.wait[n + 1..];
    if Older(q[0], ident, p) && q[0].loop <= MAX_LOOP && !Mentions(q[1..], ident) {
      i := n;
    } else {
      i := NotCovered(s, q[1..], n + 1, ident, p);
    }
  }

  /** Barred is the same as not pending. */
  lemma BarredOrPending(s: State, ident: string, p: nat)
    ensures Barred(s, ident, p) <==> !Pending(s, ident, p)
  {
    if Covered(s.wait, ident, p) {
      forall i: nat | i < |s.wait|
        ensures !Resent(s, i, ident, p)
      {
        CoveredFrom(s.wait, i, ident, p);
        assert s.wait[i..][0] == s.wait[i] && s.wait[i..][1..] == s.wait[i + 1..];
      }
    } else {
      assert s.wait[0..] == s.wait;
      var i := NotCovered(s, s.wait, 0, ident, p);
    }
  }

  lemma MentionsMore(q: seq<Entry>, e: Entry, ident: string)
    requires Mentions(q, ident)
    ensures Mentions(q + [e], ident)
  {
    var k :| 0 <= k < |q| && q[k].ident == ident;
    assert (q + [e])[k].ident == ident;
  }

  lemma {:induction false} CoveredAppend(q: seq<Entry>, e: Entry, ident: string, p: nat)
    requires Covered(q, ident, p) && !Older(e, ident, p)
    ensures Covered(q + [e], ident, p)
  {
    if q == [] {
      assert [e][1..] == [] && [] + [e] == [e];
    } else {
      CoveredAppend(q[1..], e, ident, p);
      assert (q + [e])[1..] == q[1..] + [e];
      if Mentions(q[1..], ident) {
        MentionsMore(q[1..], e, ident);
      }
    }
  }

  /** In a sequence only the first of what awaits an answer may be worn out. */
  predicate OnlyFirstWornOut(q: seq<Entry>, ident: string) {
    forall a, b | 0 <= a < b < |q| && q[a].ident == q[b].ident == ident :: q[b].loop <= MAX_LOOP
  }

  lemma NotWornOutMentions(q: seq<Entry>, k: nat)
    requires k < |q| && q[k].loop <= MAX_LOOP
    ensures Mentions(NotWornOut(q), q[k].ident)
  {
    NotWornOutMember(q, q[k]);
    var r := NotWornOut(q);
    var i :| 0 <= i < |r| && r[i] == q[k];
  }

  lemma {:induction false} NotWornOutCovered(q: seq<Entry>, ident: string, p: nat)
    requires Covered(q, ident, p) && OnlyFirstWornOut(q, ident)
    ensures Covered(NotWornOut(q), ident, p)
  {
    if q != [] {
      var rest := q[1..];
      assert OnlyFirstWornOut(rest, ident) by {
        assert forall a | 0 <= a < |rest| :: rest[a] == q[a + 1];
      }
      NotWornOutCovered(rest, ident, p);
      if q[0].loop > MAX_LOOP {
        assert NotWornOut(q) == NotWornOut(rest);
      } else {
        if Older(q[0], ident, p) {
          var k :| 0 <= k < |rest| && rest[k].ident == ident;
          assert rest[k] == q[k + 1] && q[0].ident == ident;
          NotWornOutMentions(rest, k);
        }
        assert NotWornOut(q)[0] == q[0] && NotWornOut(q)[1..] == NotWornOut(rest);
      }
    }
  }

  // ----- steps -----

  /** The transmissions of a step are not of older tickets, and what was submitted stays submitted. */
  ghost predicate NoneOlderSent(s: State, s': State, ident: string, p: nat) {
    && |s.idents| <= |s'.idents| && s.sent <= s'.sent
    && forall k: nat | |s.sent| <= k :: !SendsOlder(s'.sent, k, ident, p)
  }

  lemma SendFirstKeepsBarred(s: State, ident: string, p: nat)
    requires Barred(s, ident, p) && s.out != []
    ensures Barred(SendFirst(s), ident, p) && NoneOlderSent(s, SendFirst(s), ident, p)
  {
    var t := s.out[0];
    assert t in s.out;
    assert forall e | e in s.out[1..] :: e in s.out;
    if t.kind == Tracked {
      CoveredAppend(s.wait, t.(loop := t.loop + 1), ident, p);
    }
  }

  lemma {:induction false} SendPrefixKeepsBarred(s: State, count: nat, ident: string, p: nat)
    requires Barred(s, ident, p) && count <= |s.out|
    ensures Barred(SendPrefix(s, count), ident, p) && NoneOlderSent(s, SendPrefix(s, count), ident, p)
    decreases count
  {
    if count > 0 {
      SendFirstKeepsBarred(s, ident, p);
      SendPrefixKeepsBarred(SendFirst(s), count - 1, ident, p);
    }
  }

  lemma {:induction false} UnexpiredMembers(q: seq<Entry>, now: nat)
    ensures forall e | e in Unexpired(q, now) :: e in q
  {
    if q != [] {
      UnexpiredMembers(q[1..], now);
      assert forall e | e in q[1..] :: e in q;
    }
  }

  lemma {:induction false} SweepOutKeepsIdents(s: State, now: nat, i: nat)
    requires i <= |s.out|
    ensures SweepOut(s, now, i).idents == s.idents
    decreases |s.out| - i
  {
    if i < |s.out| {
      if Expired(s.out[i].deadline, now) {
        SweepOutKeepsIdents(DropFromOut(s, i, Dropped(DeadlineReached)), now, i);
      } else {
        SweepOutKeepsIdents(s, now, i + 1);
      }
    }
  }

  lemma FlushKeepsBarred(s: State, connected: bool, capacity: nat, now: nat, ident: string, p: nat)
    requires Barred(s, ident, p)
    ensures var s' := FlushTickets(s, connected, capacity, now);
      Barred(s', ident, p) && NoneOlderSent(s, s', ident, p)
  {
    var count := if !connected then 0 else if capacity < |s.out| then capacity else |s.out|;
    SendPrefixKeepsBarred(s, count, ident, p);
    var s1 := SendPrefix(s, count);
    SweepOutClosed(s1, now, 0);
    SweepOutKeepsIdents(s1, now, 0);
    assert s1.out[..0] == [] && s1.out[0..] == s1.out;
    UnexpiredMembers(s1.out, now);
  }

  lemma {:induction false} SweepWaitKeepsHistory(s: State, i: nat)
    requires i <= |s.wait|
    ensures SweepWait(s, i).sent == s.sent && SweepWait(s, i).idents == s.idents
    decreases |s.wait| - i
  {
    if i < |s.wait| {
      if s.wait[i].loop > MAX_LOOP {
        SweepWaitKeepsHistory(DropFromWait(s, i, Dropped(TooManyRetries)), i);
      } else {
        SweepWaitKeepsHistory(s, i + 1);
      }
    }
  }

  lemma {:induction false} RollbackKeepsHistory(s: State, number: nat, ident: string, now: nat)
    ensures Rollback(s, number, ident, now).sent == s.sent && Rollback(s, number, ident, now).idents == s.idents
    decreases |s.wait|
  {
    if s.wait != [] && s.wait[0].number < number {
      RollbackKeepsHistory(RollbackFirst(s, ident, now), number, ident, now);
    }
  }

  /** An acknowledgement sends nothing and submits nothing. */
  lemma AcknowledgeKeepsHistory(s: State, number: nat, now: nat)
    ensures AcknowledgeNumber(s, number, now).sent == s.sent && AcknowledgeNumber(s, number, now).idents == s.idents
  {
    var i := IndexOf(s.wait, number);
    if 0 < i < |s.wait| {
      var s1 := DropFromWait(s, i, Acknowledged);
      SweepWaitKeepsHistory(s1, 0);
      RollbackKeepsHistory(SweepWait(s1, 0), number, s.wait[i].ident, now);
    }
  }

  lemma {:induction false} ResendableFrom(s: State, k: nat, i: nat, now: nat, e: Entry) returns (a: nat)
    requires k <= i <= |s.wait| && e in Resendable(s, k, i, now)
    ensures k <= a < i && s.wait[a] == e && e.loop <= MAX_LOOP && Newest(s, a)
    decreases i - k
  {
    if s.wait[k].loop <= MAX_LOOP && !Expired(s.wait[k].deadline, now) && Newest(s, k) && e == s.wait[k] {
      a := k;
    } else {
      a := ResendableFrom(s, k + 1, i, now, e);
    }
  }

  lemma {:induction false} RenumberFrom(q: seq<Entry>, next: nat, e: Entry) returns (f: Entry)
    requires e in Renumber(q, next)
    ensures f in q && f.ident == e.ident && f.id == e.id
  {
    if e == q[0].(number := next) {
      f := q[0];
    } else {
      f := RenumberFrom(q[1..], next + 1, e);
    }
  }

  /** What has something of its sequence behind it is not sent again. */
  lemma ResendableNotOlder(s: State, i: nat, now: nat, next: nat, ident: string, p: nat)
    requires Covered(s.wait, ident, p) && i <= |s.wait| && ident != ""
    ensures forall e | e in Renumber(Resendable(s, 0, i, now), next) :: !Older(e, ident, p)
  {
    forall e | e in Renumber(Resendable(s, 0, i, now), next)
      ensures !Older(e, ident, p)
    {
      var f := RenumberFrom(Resendable(s, 0, i, now), next, e);
      var a := ResendableFrom(s, 0, i, now, f);
      CoveredFrom(s.wait, a, ident, p);
      assert s.wait[a..][0] == s.wait[a] && s.wait[a..][1..] == s.wait[a + 1..];
    }
  }

  lemma WaitOnlyFirstWornOut(s: State, i: nat, ident: string)
    requires QueuesOrdered(s) && i <= |s.wait| && ident != ""
    ensures OnlyFirstWornOut(s.wait[i..], ident)
  {
    forall a, b | 0 <= a < b < |s.wait[i..]| && s.wait[i..][a].ident == s.wait[i..][b].ident == ident
      ensures s.wait[i..][b].loop <= MAX_LOOP
    {
      assert Precedes(s.wait[i + a], s.wait[i + b], true);
    }
  }

  lemma AcknowledgeWaitingKeepsBarred(events: seq<Event>, i: nat, now: nat, ident: string, p: nat)
    requires ident != "" && 0 < i < |Run(events).wait| && Barred(Run(events), ident, p)
    ensures Barred(AcknowledgeNumber(Run(events), Run(events).wait[i].number, now), ident, p)
  {
    var s := Run(events);
    RunKeepsInv(events);
    AcknowledgeClosed(events, i, now);
    ResendableNotOlder(s, i, now, s.next, ident, p);
    CoveredFrom(s.wait, i + 1, ident, p);
    WaitOnlyFirstWornOut(s, i + 1, ident);
    NotWornOutCovered(s.wait[i + 1..], ident, p);
  }

  lemma AcknowledgeKeepsBarred(events: seq<Event>, number: nat, now: nat, ident: string, p: nat)
    requires ident != "" && Barred(Run(events), ident, p)
    ensures Barred(AcknowledgeNumber(Run(events), number, now), ident, p)
  {
    var s := Run(events);
    var i, o := IndexOf(s.wait, number), IndexOf(s.out, number);
    if 0 < i < |s.wait| {
      AcknowledgeWaitingKeepsBarred(events, i, now, ident, p);
    } else if i < |s.wait| {
      CoveredFrom(s.wait, 1, ident, p);
      DropFirst(s, Acknowledged);
    } else if o < |s.out| {
      assert forall e | e in s.out[..o] + s.out[o + 1..] :: e in s.out;
    }
  }

  lemma {:induction false} DropTicketsClosed(s: State)
    ensures var s' := DropTickets(s);
      s'.out == [] && s'.wait == s.wait && s'.next == s.next && s'.sent == s.sent && s'.idents == s.idents
    decreases |s.out|
  {
    if s.out != [] {
      DropTicketsClosed(DropFromOut(s, 0, Dropped(ForcedDrop)));
    }
  }

  lemma {:induction false} CloseClosed(s: State)
    ensures var s' := CloseConnection(s);
      s'.wait == [] && s'.out == s.out && s'.sent == s.sent && s'.idents == s.idents
    decreases |s.wait|
  {
    if s.wait != [] {
      CloseClosed(DropFromWait(s, 0, Dropped(NoProcessedConfirmation)));
    }
  }

  /** Nothing that happens sends an older ticket, or lets one be sent. */
  lemma StepKeepsBarred(events: seq<Event>, e: Event, ident: string, p: nat)
    requires ident != "" && p <= |Run(events).idents| && Barred(Run(events), ident, p)
    ensures var s' := Step(Run(events), e); Barred(s', ident, p) && NoneOlderSent(Run(events), s', ident, p)
  {
    var s := Run(events);
    match e
    case Submit(kind, other, deadline) =>
    case Flush(connected, capacity, now) => FlushKeepsBarred(s, connected, capacity, now, ident, p);
    case Acknowledge(number, now) =>
      AcknowledgeKeepsBarred(events, number, now, ident, p);
      AcknowledgeKeepsHistory(s, number, now);
    case DropAll => DropTicketsClosed(s);
    case Close => CloseClosed(s);
  }

  lemma NoneOlderEver(s0: State, s1: State, s2: State, ident: string, p: nat)
    requires NoneOlderSent(s0, s1, ident, p) && NoneOlderSent(s1, s2, ident, p)
    ensures NoneOlderSent(s0, s2, ident, p)
  {
    forall k: nat | |s0.sent| <= k
      ensures !SendsOlder(s2.sent, k, ident, p)
    {
      if k < |s1.sent| {
        assert s2.sent[k] == s1.sent[k] && !SendsOlder(s1.sent, k, ident, p);
      }
    }
  }

  lemma {:induction false} RunKeepsBarred(events: seq<Event>, more: seq<Event>, ident: string, p: nat)
    requires ident != "" && p <= |Run(events).idents| && Barred(Run(events), ident, p)
    ensures Barred(Run(events + more), ident, p) && NoneOlderSent(Run(events), Run(events + more), ident, p)
  {
    if more == [] {
      assert events + more == events;
    } else {
      var before, last := more[..|more| - 1], more[|more| - 1];
      assert events + more == (events + before) + [last];
      RunKeepsBarred(events, before, ident, p);
      StepKeepsBarred(events + before, last, ident, p);
      RunNext(events + before, last);
      NoneOlderEver(Run(events), Run(events + before), Run(events + more), ident, p);
    }
  }

  // ----- what is pending can be sent -----

  /** Whatever is tracked is sent with the prefix it is in. */
  lemma {:induction false} SendPrefixSends(s: State, count: nat, j: nat) returns (k: nat)
    requires j < count <= |s.out| && s.out[j].kind == Tracked
    ensures var sent := SendPrefix(s, count).sent;
      s.sent <= sent && |s.sent| <= k < |sent| && sent[k].id == s.out[j].id && sent[k].ident == s.out[j].ident
    decreases count
  {
    SendPrefixKeepsSent(SendFirst(s), count - 1);
    if j == 0 {
      k := |s.sent|;
      assert SendFirst(s).sent[k].id == s.out[0].id;
    } else {
      k := SendPrefixSends(SendFirst(s), count - 1, j - 1);
    }
  }

  lemma {:induction false} SendPrefixKeepsSent(s: State, count: nat)
    requires count <= |s.out|
    ensures s.sent <= SendPrefix(s, count).sent
    decreases count
  {
    if count > 0 {
      SendPrefixKeepsSent(SendFirst(s), count - 1);
    }
  }

  /** A queued ticket is sent by a flush with room for everything. */
  lemma QueuedIsSent(events: seq<Event>, e: Entry, ident: string, p: nat) returns (more: seq<Event>, k: nat)
    requires e in Run(events).out && e.kind == Tracked && Older(e, ident, p)
    ensures k >= |Run(events).sent| && SendsOlder(Run(events + more).sent, k, ident, p)
  {
    var s := Run(events);
    var j :| 0 <= j < |s.out| && s.out[j] == e;
    k := SendPrefixSends(s, |s.out|, j);
    SweepOutClosed(SendPrefix(s, |s.out|), 0, 0);
    more := [Flush(true, |s.out|, 0)];
    RunNext(events, Flush(true, |s.out|, 0));
  }

  /** A tracked ticket of no sequence is sent last of all. */
  lemma BypassIsSent(events: seq<Event>)
    ensures var s, s' := Run(events), Run(events + [DropAll] + [Submit(Tracked, "", 0)] + [Flush(true, 1, 0)]);
      && s'.out == [] && s'.wait == s.wait + [Entry(|s.idents|, Tracked, "", 0, s.next, 1)]
      && |s'.sent| >= |s.sent|
  {
    var s := Run(events);
    RunNext(events, DropAll);
    DropTicketsClosed(s);
    RunNext(events + [DropAll], Submit(Tracked, "", 0));
    RunNext(events + [DropAll] + [Submit(Tracked, "", 0)], Flush(true, 1, 0));
    var s2 := SubmitTicket(DropTickets(s), Tracked, "", 0);
    var t := Entry(|s.idents|, Tracked, "", 0, s.next, 0);
    assert s2.out == [t];
    FlushClosed(s2, true, 1, 0);
    SendPrefixKeepsSent(s2, 1);
    SweepOutClosed(SendPrefix(s2, 1), 0, 0);
    assert s2.out[..1] == [t] && s2.out[1..] == [] && [t][1..] == [];
    assert Awaiting([t]) == [t.(loop := 1)] + Awaiting([]);
  }

  lemma {:induction false} ResendableHas(s: State, k: nat, i: nat, now: nat, a: nat)
    requires k <= a < i <= |s.wait|
    requires s.wait[a].loop <= MAX_LOOP && !Expired(s.wait[a].deadline, now) && Newest(s, a)
    ensures s.wait[a] in Resendable(s, k, i, now)
    decreases i - k
  {
    if k < a {
      ResendableHas(s, k + 1, i, now, a);
    }
  }

  lemma {:induction false} RenumberHas(q: seq<Entry>, next: nat, f: Entry) returns (e: Entry)
    requires f in q
    ensures e in Renumber(q, next) && e.ident == f.ident && e.id == f.id && e.kind == f.kind
  {
    if f == q[0] {
      e := f.(number := next);
    } else {
      e := RenumberHas(q[1..], next + 1, f);
    }
  }

  /** If a ticket of another sequence is answered before it, such a ticket is queued again. */
  lemma AnsweredLast(events: seq<Event>, i: nat, ident: string, p: nat) returns (e: Entry)
    requires ident != "" && Run(events).out == [] && |Run(events).wait| >= 2 && i < |Run(events).wait| - 1
    requires Run(events).wait[|Run(events).wait| - 1].ident == "" && Resent(Run(events), i, ident, p)
    ensures var s := Run(events);
      e in Run(events + [Acknowledge(s.wait[|s.wait| - 1].number, 0)]).out && e.kind == Tracked && Older(e, ident, p)
  {
    var s := Run(events);
    var last := |s.wait| - 1;
    RunKeepsInv(events);
    AcknowledgeClosed(events, last, 0);
    RunNext(events, Acknowledge(s.wait[last].number, 0));
    ResendableHas(s, 0, last, 0, i);
    e := RenumberHas(Resendable(s, 0, last, 0), s.next, s.wait[i]);
  }

  lemma StillResent(s: State, s': State, t: Entry, i: nat, ident: string, p: nat)
    requires i < |s.wait| && Resent(s, i, ident, p) && s'.wait == s.wait + [t] && t.ident != ident
    ensures Resent(s', i, ident, p)
  {
    assert s'.wait[i + 1..] == s.wait[i + 1..] + [t];
  }

  /** What is not barred in `wait` is sent, once a ticket of another sequence was sent after it and answered first. */
  lemma WaitingIsSent(events: seq<Event>, i: nat, ident: string, p: nat) returns (more: seq<Event>, k: nat)
    requires ident != "" && i < |Run(events).wait| && Resent(Run(events), i, ident, p)
    ensures k >= |Run(events).sent| && SendsOlder(Run(events + more).sent, k, ident, p)
  {
    var s := Run(events);
    var sent := events + [DropAll] + [Submit(Tracked, "", 0)] + [Flush(true, 1, 0)];
    var t := Entry(|s.idents|, Tracked, "", 0, s.next, 1);
    BypassIsSent(events);
    StillResent(s, Run(sent), t, i, ident, p);
    var e := AnsweredLast(sent, i, ident, p);
    var answer := Acknowledge(Run(sent).wait[|s.wait|].number, 0);
    RunNext(sent, answer);
    AcknowledgeKeepsHistory(Run(sent), answer.number, 0);
    var rest;
    rest, k := QueuedIsSent(sent + [answer], e, ident, p);
    more := [DropAll] + [Submit(Tracked, "", 0)] + [Flush(true, 1, 0)] + [answer] + rest;
    assert events + more == sent + [answer] + rest;
  }

  // ----- exactly when an older ticket can be sent -----

  /**
   A ticket older than `p` of a sequence can still be sent exactly if one is queued, or one awaits an answer
   that is not worn out and has nothing of its sequence behind it.  With `p` the number of a plain ticket
   that was just sent, this is when the order of the sequence can still be broken.
   */
  lemma OlderIsSentExactlyIfPending(events: seq<Event>, ident: string, p: nat)
    requires ident != "" && p <= |Run(events).idents|
    ensures OlderIsSent(events, ident, p) <==> Pending(Run(events), ident, p)
  {
    var s := Run(events);
    BarredOrPending(s, ident, p);
    if !Pending(s, ident, p) {
      forall more: seq<Event>, k: nat | k >= |s.sent|
        ensures !SendsOlder(Run(events + more).sent, k, ident, p)
      {
        RunKeepsBarred(events, more, ident, p);
      }
    } else if e :| e in s.out && e.kind == Tracked && Older(e, ident, p) {
      var more, k := QueuedIsSent(events, e, ident, p);
    } else {
      var i: nat :| i < |s.wait| && Resent(s, i, ident, p);
      var more, k := WaitingIsSent(events, i, ident, p);
    }
  }

  // ----- plain tickets -----

  /** Whether the last ticket of a sequence that awaits an answer is not worn out. */
  ghost predicate AwaitsAnswer(s: State, ident: string) {
    exists i: nat :: i < |s.wait| && s.wait[i].ident == ident && s.wait[i].loop <= MAX_LOOP
      && !Mentions(s.wait[i + 1..], ident)
  }

  /** Sending the plain ticket in front leaves `wait` as it is, and nothing new in `out`. */
  lemma FlushPlain(s: State, now: nat)
    requires s.out != [] && s.out[0].kind == Plain
    ensures var s' := FlushTickets(s, true, 1, now);
      s'.wait == s.wait && s'.idents == s.idents && forall e | e in s'.out :: e in s.out[1..]
  {
    FlushClosed(s, true, 1, now);
    SweepOutKeepsIdents(SendPrefix(s, 1), now, 0);
    assert SendPrefix(s, 1) == SendFirst(s);
    assert s.out[..1][1..] == [] && Awaiting(s.out[..1]) == [];
    UnexpiredMembers(s.out[1..], now);
  }

  /** Around the first ticket of `out`, its sequence is in the order of submission. */
  lemma FirstInSequence(s: State)
    requires QueuesOrdered(s) && s.out != [] && s.out[0].ident != ""
    ensures forall e | e in s.out[1..] :: !Older(e, s.out[0].ident, s.out[0].id)
    ensures forall i | 0 <= i < |s.wait| && s.wait[i].ident == s.out[0].ident :: s.wait[i].id < s.out[0].id
  {
    forall e | e in s.out[1..]
      ensures !Older(e, s.out[0].ident, s.out[0].id)
    {
      var j :| 0 <= j < |s.out[1..]| && s.out[1..][j] == e;
      assert Precedes(s.out[0], s.out[j + 1], false);
    }
    assert forall i | 0 <= i < |s.wait| :: Precedes(s.wait[i], s.out[0], false);
  }

  /**
   When a plain ticket is sent, an older one of its sequence can be sent after it exactly if the last of
   them that awaits an answer was sent at most three times.
   */
  lemma PlainTicketOvertakenIff(events: seq<Event>, now: nat)
    requires Run(events).out != [] && Run(events).out[0].kind == Plain && Run(events).out[0].ident != ""
    ensures var s, t := Run(events), Run(events).out[0];
      OlderIsSent(events + [Flush(true, 1, now)], t.ident, t.id) <==> AwaitsAnswer(s, t.ident)
  {
    var s, t := Run(events), Run(events).out[0];
    var after := events + [Flush(true, 1, now)];
    RunKeepsInv(events);
    RunNext(events, Flush(true, 1, now));
    FlushPlain(s, now);
    FirstInSequence(s);
    OlderIsSentExactlyIfPending(after, t.ident, t.id);
    assert forall i: nat | i < |s.wait| ::
      Resent(Run(after), i, t.ident, t.id) == (s.wait[i].ident == t.ident && s.wait[i].loop <= MAX_LOOP
        && !Mentions(s.wait[i + 1..], t.ident));
  }
}
