/**
 The internal client as it works: two lists of shared ticket objects, changed in place.

 A rollback renumbers a ticket while the list it is walking still holds it, so tickets of
 `wait` are compared by numbers that the same walk has changed.  Every method is proved to
 take the protocol's abstract step.
 */
module TicketClient {
  import opened TicketProtocol

  class Ticket {
    ghost var id: nat
    const kind: Kind
    const ident: string
    const deadline: nat
    var number: nat
    var loop: nat

    constructor (kind: Kind, ident: string, deadline: nat)
      ensures this.kind == kind && this.ident == ident && this.deadline == deadline
      ensures number == 0 && loop == 0
    {
      this.kind, this.ident, this.deadline := kind, ident, deadline;
      number, loop := 0, 0;
    }

    ghost function Value(): Entry
      reads this
    {
      Entry(id, kind, ident, deadline, number, loop)
    }

    predicate OldLoop()
      reads this
    {
      loop > MAX_LOOP
    }
  }

  ghost function Values(q: seq<Ticket>): (r: seq<Entry>)
    reads q
    ensures |r| == |q|
    ensures forall i | 0 <= i < |q| :: r[i] == q[i].Value()
  {
    seq(|q|, i requires 0 <= i < |q| reads q => q[i].Value())
  }

  class Client {
    var out: seq<Ticket>
    var wait: seq<Ticket>
    var sequenceNumber: nat
    ghost var idents: seq<string>
    ghost var sent: seq<Transmission>
    ghost var done: seq<Outcome>

    ghost function View(): State
      reads this, out, wait
    {
      State(Values(out), Values(wait), sequenceNumber, idents, sent, done)
    }

    /** The state in which the first `i` tickets of `out` are already dealt with. */
    ghost function AfterOut(i: nat): State
      requires i <= |out|
      reads this, out, wait
    {
      View().(out := View().out[i..])
    }

    ghost predicate Valid()
      reads this, out, wait
    {
      NumbersIncrease(View())
    }

    constructor ()
      ensures Valid() && View() == INITIAL
    {
      out, wait, sequenceNumber := [], [], 1;
      idents, sent, done := [], [], [];
    }

    method SubmitTicket(ticket: Ticket)
      requires Valid() && ticket !in wait && ticket !in out && ticket.loop == 0
      modifies this, ticket
      ensures Valid() && out == old(out) + [ticket] && wait == old(wait)
      ensures View() == TicketProtocol.SubmitTicket(old(View()), ticket.kind, ticket.ident, ticket.deadline)
    {
      ghost var v0 := View();
      SubmitKeepsNumbers(v0, ticket.kind, ticket.ident, ticket.deadline);
      ticket.number := sequenceNumber;
      ticket.id := |idents|;
      idents := idents + [ticket.ident];
      sequenceNumber := sequenceNumber + 1;
      out := out + [ticket];
      assert Values(wait) == v0.wait;
      assert Values(out) == v0.out + [ticket.Value()];
    }

    method DropOutAt(i: nat, fate: Fate)
      requires Valid() && i < |out|
      modifies this`out, this`done
      ensures Valid() && out == old(out)[..i] + old(out)[i + 1..]
      ensures View() == DropFromOut(old(View()), i, fate)
    {
      DropFromOutKeepsNumbers(View(), i, fate);
      done := done + [Outcome(out[i].id, fate)];
      out := out[..i] + out[i + 1..];
      assert Values(out) == old(View()).out[..i] + old(View()).out[i + 1..];
    }

    method DropWaitAt(i: nat, fate: Fate)
      requires Valid() && i < |wait|
      modifies this`wait, this`done
      ensures Valid() && wait == old(wait)[..i] + old(wait)[i + 1..]
      ensures forall t | t in wait :: t in old(wait)
      ensures View() == DropFromWait(old(View()), i, fate)
    {
      DropFromWaitKeepsNumbers(View(), i, fate);
      done := done + [Outcome(wait[i].id, fate)];
      wait := wait[..i] + wait[i + 1..];
      assert Values(wait) == old(View()).wait[..i] + old(View()).wait[i + 1..];
    }

    /** Writes one ticket if the connection has room for it; answers whether flushing must stop. */
    method FlushTicket(ticket: Ticket, room: bool) returns (stop: bool)
      modifies this`wait, this`sent, this`done, ticket`loop
      ensures stop == !room
      ensures !room ==> wait == old(wait) && sent == old(sent) && done == old(done) && ticket.loop == old(ticket.loop)
      ensures room && ticket.kind == Tracked ==>
        && wait == old(wait) + [ticket]
        && ticket.loop == old(ticket.loop) + 1
        && sent == old(sent) + [Transmission(ticket.id, ticket.ident, ticket.number)]
        && done == old(done)
      ensures room && ticket.kind != Tracked ==>
        && wait == old(wait)
        && ticket.loop == old(ticket.loop)
        && sent == old(sent)
        && done == old(done) + [Outcome(ticket.id, if ticket.kind == Plain then SentPlain else Discarded)]
    {
      if room {
        match ticket.kind {
          case Plain =>
            done := done + [Outcome(ticket.id, SentPlain)];
          case Tracked =>
            ticket.loop := ticket.loop + 1;
            sent := sent + [Transmission(ticket.id, ticket.ident, ticket.number)];
            wait := wait + [ticket];
          case Unroutable =>
            done := done + [Outcome(ticket.id, Discarded)];
        }
      }
      stop := !room;
    }

    /** The ticket that is to be sent is found nowhere else. */
    lemma OutAtHand(i: nat)
      requires i < |out| && NumbersIncrease(AfterOut(i))
      ensures out[i] !in wait && out[i] !in out[i + 1..]
    {
      var s := AfterOut(i);
      assert s.out[0] == out[i].Value();
      assert forall k | 0 <= k < |wait| :: wait[k].number == s.wait[k].number < s.out[0].number;
      assert forall k | i < k < |out| :: out[k].number == s.out[k - i].number && s.out[0].number < s.out[k - i].number;
    }

    /** One round of the flush: the ticket moves on, everything else stays as it is. */
    method FlushAt(i: nat, room: bool) returns (stop: bool)
      requires i < |out| && out[i] !in wait && out[i] !in out[i + 1..]
      modifies this`wait, this`sent, this`done, out[i]
      ensures stop == !room
      ensures stop ==> AfterOut(i) == old(AfterOut(i)) && wait == old(wait)
      ensures !stop ==> AfterOut(i + 1) == SendFirst(old(AfterOut(i)))
    {
      ghost var before, ticket := AfterOut(i), out[i];
      assert before.out[0] == ticket.Value();
      assert forall k | i < k < |out| :: out[k] == out[i + 1..][k - i - 1] && before.out[k - i] == out[k].Value();
      stop := FlushTicket(out[i], room);
      assert forall k | i < k < |out| :: out[k].Value() == before.out[k - i];
      if stop {
        assert Values(wait) == before.wait;
        assert View().out[i..] == before.out;
      } else {
        assert View().out[i + 1..] == before.out[1..];
        assert View().wait == SendFirst(before).wait;
      }
    }

    /** Transmits tickets from the front of `out` until one finds no room; `i` is how many. */
    method FlushLoop(capacity: nat) returns (i: nat)
      requires NumbersIncrease(View())
      modifies this`wait, this`sent, this`done, out
      ensures i == if capacity < |out| then capacity else |out|
      ensures AfterOut(i) == SendPrefix(old(View()), i)
    {
      ghost var s0 := View();
      i := 0;
      assert AfterOut(0) == s0;
      while i < |out|
        invariant i <= |out| && i <= capacity
        invariant AfterOut(i) == SendPrefix(s0, i)
      {
        SendPrefixKeepsNumbers(s0, i);
        SendPrefixNext(s0, i);
        OutAtHand(i);
        var stop := FlushAt(i, i < capacity);
        if stop {
          break;
        }
        i := i + 1;
      }
    }

    method FlushFront(capacity: nat)
      requires Valid()
      modifies this`out, this`wait, this`sent, this`done, out
      ensures Valid()
      ensures View() == SendPrefix(old(View()), if capacity < |old(out)| then capacity else |old(out)|)
    {
      var i := FlushLoop(capacity);
      SendPrefixKeepsNumbers(old(View()), i);
      ghost var last := AfterOut(i);
      out := out[i..];
      assert Values(out) == last.out;
    }

    /** Drops what expired while it waited to be sent. */
    method DropExpired(now: nat)
      requires Valid()
      modifies this`out, this`done
      ensures Valid() && View() == SweepOut(old(View()), now, 0)
    {
      ghost var s0 := View();
      var i := 0;
      while i < |out|
        invariant i <= |out| && Valid() && |View().out| == |out|
        invariant SweepOut(View(), now, i) == SweepOut(s0, now, 0)
        decreases |out| - i
      {
        if Expired(out[i].deadline, now) {
          DropOutAt(i, Dropped(DeadlineReached));
        } else {
          i := i + 1;
        }
      }
    }

    method FlushTickets(connected: bool, capacity: nat, now: nat)
      requires Valid()
      modifies this`out, this`wait, this`sent, this`done, out
      ensures Valid() && View() == TicketProtocol.FlushTickets(old(View()), connected, capacity, now)
    {
      if |out| == 0 {
        return;
      }
      if connected {
        FlushFront(capacity);
      }
      DropExpired(now);
    }

    method DropTickets()
      requires Valid()
      modifies this`out, this`done
      ensures Valid() && out == [] && View() == TicketProtocol.DropTickets(old(View()))
    {
      ghost var s0 := View();
      while out != []
        invariant Valid() && |View().out| == |out|
        invariant TicketProtocol.DropTickets(View()) == TicketProtocol.DropTickets(s0)
        decreases |out|
      {
        DropOutAt(0, Dropped(ForcedDrop));
      }
    }

    method Close()
      requires Valid()
      modifies this`wait, this`done
      ensures Valid() && wait == [] && View() == CloseConnection(old(View()))
    {
      ghost var s0 := View();
      while wait != []
        invariant Valid() && |View().wait| == |wait|
        invariant CloseConnection(View()) == CloseConnection(s0)
        decreases |wait|
      {
        DropWaitAt(0, Dropped(NoProcessedConfirmation));
      }
    }

    /** The state in which the first `j` tickets of `wait` are already rolled back. */
    ghost function AfterWait(j: nat): State
      requires j <= |wait|
      reads this, out, wait
    {
      View().(wait := View().wait[j..])
    }

    /** What the walk has passed is either queued again, under a new number, or still numbered lower. */
    ghost predicate Passed(j: nat)
      requires j <= |wait|
      reads this, out, wait
    {
      forall p, q | 0 <= p < j <= q < |wait| :: wait[p] in out || wait[p].number < wait[q].number
    }

    method MentionedInOut(ident: string) returns (found: bool)
      ensures found == exists k | 0 <= k < |out| :: out[k].ident == ident
    {
      found := false;
      var k := 0;
      while !found && k < |out|
        invariant k <= |out|
        invariant found == exists m | 0 <= m < k :: out[m].ident == ident
      {
        found := out[k].ident == ident;
        k := k + 1;
      }
    }

    method MentionedAbove(number: nat, ident: string) returns (found: bool)
      ensures found == exists k | 0 <= k < |wait| :: number < wait[k].number && wait[k].ident == ident
    {
      found := false;
      var k := 0;
      while !found && k < |wait|
        invariant k <= |wait|
        invariant found == exists m | 0 <= m < k :: number < wait[m].number && wait[m].ident == ident
      {
        found := number < wait[k].number && wait[k].ident == ident;
        k := k + 1;
      }
    }

    /** Comparing by number, with the walk at ticket `j`, finds exactly the tickets behind it. */
    method MayRepush(ticket: Ticket, ident: string, ghost j: nat) returns (repush: bool)
      requires j < |wait| && ticket == wait[j] && Passed(j) && NumbersIncrease(AfterWait(j))
      ensures repush == !Superseded(AfterWait(j), ident)
    {
      ghost var s := AfterWait(j);
      assert s.wait[0] == ticket.Value();
      repush := true;
      if ticket.ident != "" {
        if ticket.ident == ident {
          repush := false;
        }
        if repush {
          var found := MentionedInOut(ticket.ident);
          assert found == Mentions(s.out, ticket.ident) by {
            assert forall k | 0 <= k < |out| :: s.out[k].ident == out[k].ident;
          }
          repush := !found;
        }
        if repush {
          var found := MentionedAbove(ticket.number, ticket.ident);
          assert found == Mentions(s.wait[1..], ticket.ident) by {
            assert forall k | 0 <= k < |s.wait[1..]| ::
              s.wait[1..][k] == wait[j + 1 + k].Value() && s.wait[0].number < s.wait[k + 1].number;
            assert forall k | j < k < |wait| :: s.wait[1..][k - j - 1].ident == wait[k].ident;
          }
          repush := !found;
        }
      }
    }

    /** Queues the ticket again; the walk still holds it, now out of order. */
    method Repush(ticket: Ticket, ghost j: nat)
      requires j < |wait| && ticket == wait[j] && ticket !in out && ticket !in wait[j + 1..]
      modifies this`out, this`sequenceNumber, ticket`number
      ensures out == old(out) + [ticket] && ticket.number == old(sequenceNumber)
      ensures View().wait[j + 1..] == old(View()).wait[j + 1..]
      ensures View().out == old(View()).out + [old(ticket.Value()).(number := old(sequenceNumber))]
      ensures sequenceNumber == old(sequenceNumber) + 1
    {
      ghost var v0 := View();
      ticket.number := sequenceNumber;
      sequenceNumber := sequenceNumber + 1;
      out := out + [ticket];
      assert forall k | j < k < |wait| :: wait[k] == wait[j + 1..][k - j - 1] && wait[k].Value() == v0.wait[k];
      assert forall k | 0 <= k < |v0.out| :: out[k] != ticket && out[k].Value() == v0.out[k];
    }

    /** The ticket the walk is at is found nowhere else ahead of it. */
    lemma AtHand(j: nat)
      requires j < |wait| && NumbersIncrease(AfterWait(j))
      ensures wait[j] !in out && wait[j] !in wait[j + 1..]
      ensures forall q | j < q < |wait| :: wait[j].number < wait[q].number
    {
      var s := AfterWait(j);
      assert s.wait[0] == wait[j].Value();
      assert forall k | 0 <= k < |out| :: out[k].Value() == s.out[k];
      assert forall q | j < q < |wait| :: wait[q].Value() == s.wait[q - j];
    }

    method RollbackTicket(ticket: Ticket, number: nat, ident: string, now: nat, ghost j: nat) returns (stop: bool)
      requires j < |wait| && ticket == wait[j] && Passed(j) && NumbersIncrease(AfterWait(j))
      modifies this`out, this`done, this`sequenceNumber, ticket`number
      ensures stop == (old(ticket.number) >= number)
      ensures stop ==> AfterWait(j) == old(AfterWait(j))
      ensures !stop ==> AfterWait(j + 1) == RollbackFirst(old(AfterWait(j)), ident, now)
      ensures old(out) <= out && (ticket in out || ticket.number == old(ticket.number))
    {
      ghost var s := AfterWait(j);
      assert s.wait[0] == ticket.Value();
      assert View().wait[j + 1..] == s.wait[1..] == s.wait[..0] + s.wait[1..];
      if ticket.number < number {
        if Expired(ticket.deadline, now) {
          done := done + [Outcome(ticket.id, Dropped(DeadlineReached))];
        } else {
          var repush := MayRepush(ticket, ident, j);
          if repush {
            AtHand(j);
            Repush(ticket, j);
          } else {
            done := done + [Outcome(ticket.id, Dropped(StableSequenceMiss))];
          }
        }
        return false;
      }
      return true;
    }

    /** Ticket `j` has been passed, and no other ticket has got a new number. */
    twostate lemma PassedNext(j: nat)
      requires j < |wait| && wait == old(wait) && old(Passed(j)) && old(out) <= out
      requires wait[j] !in wait[j + 1..] && forall q | j < q < |wait| :: old(wait[j].number) < old(wait[q].number)
      requires forall q | 0 <= q < |wait| && wait[q] != wait[j] :: wait[q].number == old(wait[q].number)
      requires wait[j] in out || wait[j].number == old(wait[j].number)
      ensures Passed(j + 1)
    {
      forall p, q | 0 <= p < j + 1 <= q < |wait|
        ensures wait[p] in out || wait[p].number < wait[q].number
      {
        assert wait[q] == wait[j + 1..][q - j - 1];
      }
    }

    /** One round of the walk; what lies ahead keeps its order although the list is out of order behind. */
    method RollbackAt(j: nat, number: nat, ident: string, now: nat) returns (stop: bool)
      requires j < |wait| && Passed(j) && NumbersIncrease(AfterWait(j))
      modifies this`out, this`done, this`sequenceNumber, wait[j]
      ensures stop == (old(AfterWait(j)).wait[0].number >= number)
      ensures stop ==> AfterWait(j) == old(AfterWait(j))
      ensures !stop ==> AfterWait(j + 1) == RollbackFirst(old(AfterWait(j)), ident, now)
      ensures !stop ==> Passed(j + 1)
    {
      AtHand(j);
      assert AfterWait(j).wait[0] == wait[j].Value();
      stop := RollbackTicket(wait[j], number, ident, now, j);
      if !stop {
        PassedNext(j);
      }
    }

    /** The numbers of what the walk has not passed and of `out` increase. */
    ghost predicate Ahead(j: nat)
      requires j <= |wait|
      reads this, out, wait
    {
      && (forall p, q | j <= p < q < |wait| :: wait[p].number < wait[q].number)
      && (forall p, q | 0 <= p < q < |out| :: out[p].number < out[q].number)
      && (forall p, q | j <= p < |wait| && 0 <= q < |out| :: wait[p].number < out[q].number)
      && (forall p | j <= p < |wait| :: wait[p].number < sequenceNumber)
      && (forall p | 0 <= p < |out| :: out[p].number < sequenceNumber)
    }

    lemma AheadIncreases(j: nat)
      requires j <= |wait|
      ensures Ahead(j) <==> NumbersIncrease(AfterWait(j))
    {
      var s := AfterWait(j);
      assert forall p | j <= p < |wait| :: wait[p].number == s.wait[p - j].number;
      assert forall p | 0 <= p < |s.wait| :: s.wait[p].number == wait[j + p].number;
      assert forall p | 0 <= p < |out| :: out[p].number == s.out[p].number;
    }

    /** What is left of the walk at ticket `j` leads where the whole walk from `s0` does. */
    ghost predicate Walked(s0: State, j: nat, number: nat, ident: string, now: nat)
      requires j <= |wait|
      reads this, out, wait
    {
      Rollback(AfterWait(j), number, ident, now) == Rollback(s0, number, ident, now)
    }

    lemma WalkStarts(number: nat, ident: string, now: nat)
      requires NumbersIncrease(View())
      ensures Passed(0) && Ahead(0) && Walked(View(), 0, number, ident, now)
    {
      assert View().wait[0..] == View().wait;
      AheadIncreases(0);
    }

    lemma WalkEnds(s0: State, number: nat, ident: string, now: nat)
      requires Walked(s0, |wait|, number, ident, now)
      ensures AfterWait(|wait|) == Rollback(s0, number, ident, now)
    {
      RollbackNext(AfterWait(|wait|), number, ident, now);
    }

    /** One round of the walk, after which less of it is left. */
    method RollbackRound(j: nat, number: nat, ident: string, now: nat, ghost s0: State) returns (stop: bool)
      requires j < |wait| && Passed(j) && Ahead(j) && Walked(s0, j, number, ident, now)
      modifies this`out, this`done, this`sequenceNumber, wait[j]
      ensures stop ==> Ahead(j) && AfterWait(j) == Rollback(s0, number, ident, now)
      ensures !stop ==> Passed(j + 1) && Ahead(j + 1) && Walked(s0, j + 1, number, ident, now)
    {
      ghost var s := AfterWait(j);
      AheadIncreases(j);
      RollbackFirstKeepsNumbers(s, ident, now);
      RollbackNext(s, number, ident, now);
      stop := RollbackAt(j, number, ident, now);
      AheadIncreases(if stop then j else j + 1);
    }

    /** The walk of `wait` after ticket `number` was acknowledged out of order. */
    method RollbackLoop(number: nat, ident: string, now: nat) returns (j: nat)
      requires NumbersIncrease(View())
      modifies this`out, this`done, this`sequenceNumber, wait
      ensures j <= |wait| && Ahead(j) && AfterWait(j) == Rollback(old(View()), number, ident, now)
    {
      ghost var s0 := View();
      WalkStarts(number, ident, now);
      j := 0;
      while j < |wait|
        invariant j <= |wait| && Passed(j) && Ahead(j) && Walked(s0, j, number, ident, now)
      {
        var stop := RollbackRound(j, number, ident, now, s0);
        if stop {
          return;
        }
        j := j + 1;
      }
      WalkEnds(s0, number, ident, now);
    }

    /** The tickets the walk has passed are no longer in `wait`. */
    method Forget(j: nat)
      requires j <= |wait|
      modifies this`wait
      ensures View() == old(AfterWait(j))
    {
      ghost var last := AfterWait(j);
      wait := wait[j..];
      assert Values(wait) == last.wait;
    }

    method RollbackBefore(number: nat, ident: string, now: nat, ghost pool: set<Ticket>)
      requires Valid() && forall t | t in wait :: t in pool
      modifies this`out, this`wait, this`done, this`sequenceNumber, pool
      ensures Valid() && View() == Rollback(old(View()), number, ident, now)
    {
      var j := RollbackLoop(number, ident, now);
      AheadIncreases(j);
      Forget(j);
    }

    /** Drops what was sent too often. */
    method DropWornOut()
      requires Valid()
      modifies this`wait, this`done
      ensures Valid() && View() == SweepWait(old(View()), 0)
      ensures forall t | t in wait :: t in old(wait)
    {
      ghost var s0 := View();
      var i := 0;
      while i < |wait|
        invariant i <= |wait| && Valid() && |View().wait| == |wait|
        invariant SweepWait(View(), i) == SweepWait(s0, 0)
        invariant forall t | t in wait :: t in old(wait)
        decreases |wait| - i
      {
        if wait[i].OldLoop() {
          DropWaitAt(i, Dropped(TooManyRetries));
        } else {
          i := i + 1;
        }
      }
    }

    method Find(q: seq<Ticket>, number: nat) returns (i: nat)
      ensures i == IndexOf(Values(q), number)
    {
      i := 0;
      ghost var values := Values(q);
      assert values[0..] == values;
      while i < |q| && q[i].number != number
        invariant i <= |q|
        invariant IndexOf(values, number) == i + IndexOf(values[i..], number)
      {
        assert values[i..][1..] == values[i + 1..];
        i := i + 1;
      }
    }

    /** The peer answered ticket `i` of `wait` before older ones. */
    method AcknowledgeOutOfOrder(i: nat, now: nat)
      requires Valid() && i < |wait|
      modifies this`out, this`wait, this`done, this`sequenceNumber, wait
      ensures Valid()
      ensures var s, t := old(View()), old(wait[i].Value());
        View() == Rollback(SweepWait(DropFromWait(s, i, Acknowledged), 0), t.number, t.ident, now)
    {
      var number, ident := wait[i].number, wait[i].ident;
      ghost var pool := set t | t in wait;
      DropWaitAt(i, Acknowledged);
      DropWornOut();
      RollbackBefore(number, ident, now, pool);
    }

    /** The peer answered ticket `number`. */
    method PreProcessMessage(number: nat, now: nat)
      requires Valid()
      modifies this`out, this`wait, this`done, this`sequenceNumber, wait
      ensures Valid() && View() == AcknowledgeNumber(old(View()), number, now)
    {
      if number == 0 {
        return;
      }
      ghost var s := View();
      var i := Find(wait, number);
      if i < |wait| {
        assert s.wait[i] == wait[i].Value();
        if i != 0 {
          AcknowledgeOutOfOrder(i, now);
        } else {
          DropWaitAt(0, Acknowledged);
        }
      } else {
        var o := Find(out, number);
        if o < |out| {
          DropOutAt(o, Acknowledged);
        }
      }
    }
  }
}
