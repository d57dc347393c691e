/**
 The ticket protocol of the internal client, as a state machine over values.

 A ticket waits in `out` until it is transmitted and then in `wait` until the
 peer acknowledges its number.  Tickets sharing a non-empty identifier form a
 stable sequence: they may be skipped, but never sent out of submission order.
 `sent` and `done` record what happened; nothing in the protocol reads them.
 */
module TicketProtocol {

  /** The message range a ticket's message number falls in. */
  datatype Kind = Plain | Tracked | Unroutable

  datatype Reason =
    | DeadlineReached
    | TooManyRetries
    | StableSequenceMiss
    | ForcedDrop
    | NoProcessedConfirmation

  datatype Fate = Acknowledged | SentPlain | Discarded | Dropped(reason: Reason)

  /** `id` is the position of the ticket in the order of submission. */
  datatype Entry = Entry(id: nat, kind: Kind, ident: string, deadline: nat, number: nat, loop: nat)

  datatype Transmission = Transmission(id: nat, ident: string, number: nat)

  datatype Outcome = Outcome(id: nat, fate: Fate)

  datatype State = State(
    out: seq<Entry>,
    wait: seq<Entry>,
    next: nat,
    idents: seq<string>,
    sent: seq<Transmission>,
    done: seq<Outcome>)

  datatype Event =
    | Submit(kind: Kind, ident: string, deadline: nat)
    | Flush(connected: bool, capacity: nat, now: nat)
    | Acknowledge(number: nat, now: nat)
    | DropAll
    | Close

  /** The ticket an acknowledgement is about, while older tickets are being rolled back. */
  datatype Pass = Pass(number: nat, ident: string, id: nat)

  const NO_PASS := Pass(0, "", 0)

  const MAX_LOOP := 3

  const INITIAL := State([], [], 1, [], [], [])

  predicate Expired(deadline: nat, now: nat) {
    deadline != 0 && deadline <= now
  }

  // ----- steps -----

  function SubmitTicket(s: State, kind: Kind, ident: string, deadline: nat): State {
    s.(out := s.out + [Entry(|s.idents|, kind, ident, deadline, s.next, 0)],
       next := s.next + 1,
       idents := s.idents + [ident])
  }

  /** Transmits the first ticket of `out`. */
  function SendFirst(s: State): State
    requires s.out != []
  {
    var t := s.out[0];
    var s1 := s.(out := s.out[1..]);
    match t.kind
    case Plain => s1.(done := s.done + [Outcome(t.id, SentPlain)])
    case Unroutable => s1.(done := s.done + [Outcome(t.id, Discarded)])
    case Tracked =>
      s1.(wait := s.wait + [t.(loop := t.loop + 1)],
          sent := s.sent + [Transmission(t.id, t.ident, t.number)])
  }

  function SendPrefix(s: State, count: nat): State
    requires count <= |s.out|
    decreases count
  {
    if count == 0 then s else SendPrefix(SendFirst(s), count - 1)
  }

  function DropFromOut(s: State, i: nat, fate: Fate): State
    requires i < |s.out|
  {
    s.(out := s.out[..i] + s.out[i + 1..], done := s.done + [Outcome(s.out[i].id, fate)])
  }

  function DropFromWait(s: State, i: nat, fate: Fate): State
    requires i < |s.wait|
  {
    s.(wait := s.wait[..i] + s.wait[i + 1..], done := s.done + [Outcome(s.wait[i].id, fate)])
  }

  /** Drops the expired tickets of `out`, from position `i` on. */
  function SweepOut(s: State, now: nat, i: nat): State
    requires i <= |s.out|
    decreases |s.out| - i
  {
    if i == |s.out| then s
    else if Expired(s.out[i].deadline, now) then SweepOut(DropFromOut(s, i, Dropped(DeadlineReached)), now, i)
    else SweepOut(s, now, i + 1)
  }

  function FlushTickets(s: State, connected: bool, capacity: nat, now: nat): State {
    var count := if !connected then 0 else if capacity < |s.out| then capacity else |s.out|;
    SweepOut(SendPrefix(s, count), now, 0)
  }

  function IndexOf(q: seq<Entry>, number: nat): (i: nat)
    ensures i <= |q|
    ensures i < |q| ==> q[i].number == number
    ensures forall k | 0 <= k < i :: q[k].number != number
  {
    if q == [] || q[0].number == number then 0 else 1 + IndexOf(q[1..], number)
  }

  /** Drops the tickets of `wait` that were transmitted too often, from position `i` on. */
  function SweepWait(s: State, i: nat): State
    requires i <= |s.wait|
    decreases |s.wait| - i
  {
    if i == |s.wait| then s
    else if s.wait[i].loop > MAX_LOOP then SweepWait(DropFromWait(s, i, Dropped(TooManyRetries)), i)
    else SweepWait(s, i + 1)
  }

  predicate Mentions(q: seq<Entry>, ident: string) {
    exists k | 0 <= k < |q| :: q[k].ident == ident
  }

  /** Whether the first ticket of `wait` is barred from being sent again by its stable sequence. */
  predicate Superseded(s: State, ident: string)
    requires s.wait != []
  {
    var t := s.wait[0];
    t.ident != "" && (t.ident == ident || Mentions(s.out, t.ident) || Mentions(s.wait[1..], t.ident))
  }

  /** Rolls back the first ticket of `wait`; `ident` is the identifier of the acknowledged ticket. */
  function RollbackFirst(s: State, ident: string, now: nat): State
    requires s.wait != []
  {
    var t := s.wait[0];
    if Expired(t.deadline, now) then DropFromWait(s, 0, Dropped(DeadlineReached))
    else if Superseded(s, ident) then DropFromWait(s, 0, Dropped(StableSequenceMiss))
    else s.(wait := s.wait[1..], out := s.out + [t.(number := s.next)], next := s.next + 1)
  }

  /** Rolls back the tickets of `wait` sent before the acknowledged number. */
  function Rollback(s: State, number: nat, ident: string, now: nat): State
    decreases |s.wait|
  {
    if s.wait == [] || s.wait[0].number >= number then s
    else Rollback(RollbackFirst(s, ident, now), number, ident, now)
  }

  lemma RollbackNext(s: State, number: nat, ident: string, now: nat)
    ensures Rollback(s, number, ident, now) ==
      if s.wait == [] || s.wait[0].number >= number then s
      else Rollback(RollbackFirst(s, ident, now), number, ident, now)
  {
  }

  function AcknowledgeNumber(s: State, number: nat, now: nat): State {
    if number == 0 then s
    else
      var i := IndexOf(s.wait, number);
      var o := IndexOf(s.out, number);
      if i == 0 && i < |s.wait| then DropFromWait(s, 0, Acknowledged)
      else if i < |s.wait| then
        Rollback(SweepWait(DropFromWait(s, i, Acknowledged), 0), number, s.wait[i].ident, now)
      else if o < |s.out| then DropFromOut(s, o, Acknowledged)
      else s
  }

  function DropTickets(s: State): State
    decreases |s.out|
  {
    if s.out == [] then s else DropTickets(DropFromOut(s, 0, Dropped(ForcedDrop)))
  }

  function CloseConnection(s: State): State
    decreases |s.wait|
  {
    if s.wait == [] then s else CloseConnection(DropFromWait(s, 0, Dropped(NoProcessedConfirmation)))
  }

  function Step(s: State, e: Event): State {
    match e
    case Submit(kind, ident, deadline) => SubmitTicket(s, kind, ident, deadline)
    case Flush(connected, capacity, now) => FlushTickets(s, connected, capacity, now)
    case Acknowledge(number, now) => AcknowledgeNumber(s, number, now)
    case DropAll => DropTickets(s)
    case Close => CloseConnection(s)
  }

  function Run(events: seq<Event>): State {
    if events == [] then INITIAL else Step(Run(events[..|events| - 1]), events[|events| - 1])
  }

  // ----- the invariant -----

  predicate SameSequence(a: Entry, b: Entry) {
    a.ident != "" && a.ident == b.ident
  }

  /** `a` is queued before `b`: `b` was submitted later and, if sent at all, was sent once. */
  predicate Precedes(a: Entry, b: Entry, waiting: bool) {
    a.number < b.number &&
    (SameSequence(a, b) ==> a.id < b.id && (b.loop == 0 || (waiting && b.loop <= 1)))
  }

  ghost predicate QueuesOrdered(s: State) {
    && (forall i, j | 0 <= i < j < |s.wait| :: Precedes(s.wait[i], s.wait[j], true))
    && (forall i, j | 0 <= i < j < |s.out| :: Precedes(s.out[i], s.out[j], false))
    && (forall i, j | 0 <= i < |s.wait| && 0 <= j < |s.out| :: Precedes(s.wait[i], s.out[j], false))
  }

  ghost predicate Numbered(s: State) {
    && (forall i | 0 <= i < |s.wait| :: 0 < s.wait[i].number < s.next)
    && (forall i | 0 <= i < |s.out| :: 0 < s.out[i].number < s.next)
    && (forall k | 0 <= k < |s.sent| :: 0 < s.sent[k].number < s.next)
    && 0 < s.next
  }

  ghost predicate Labelled(s: State) {
    && (forall i | 0 <= i < |s.wait| :: s.wait[i].id < |s.idents| && s.idents[s.wait[i].id] == s.wait[i].ident)
    && (forall i | 0 <= i < |s.out| :: s.out[i].id < |s.idents| && s.idents[s.out[i].id] == s.out[i].ident)
    && (forall k | 0 <= k < |s.sent| :: s.sent[k].id < |s.idents| && s.idents[s.sent[k].id] == s.sent[k].ident)
  }

  predicate WaitLoops(s: State, bound: nat) {
    forall i | 0 <= i < |s.wait| :: s.wait[i].kind == Tracked && 1 <= s.wait[i].loop <= bound
  }

  predicate OutLoops(s: State) {
    forall i | 0 <= i < |s.out| :: s.out[i].loop <= MAX_LOOP
  }

  /** Transmissions happened in the order of numbers and, within a sequence, of submission. */
  ghost predicate SentInOrder(sent: seq<Transmission>) {
    forall k, l | 0 <= k < l < |sent| ::
      sent[k].number < sent[l].number &&
      (sent[k].ident != "" && sent[k].ident == sent[l].ident ==> sent[k].id <= sent[l].id)
  }

  ghost predicate SentBeforeOut(s: State) {
    forall k, j | 0 <= k < |s.sent| && 0 <= j < |s.out| ::
      s.sent[k].number < s.out[j].number &&
      (s.out[j].ident != "" && s.sent[k].ident == s.out[j].ident ==> s.sent[k].id <= s.out[j].id)
  }

  ghost predicate HasSuccessor(wait: seq<Entry>, i: nat)
    requires i < |wait|
  {
    exists j | i < j < |wait| :: SameSequence(wait[i], wait[j])
  }

  /**
   A waiting ticket older than something already sent in its sequence still has a successor in
   `wait`, so it cannot be sent again.  During an acknowledgement the sequence of the acknowledged
   ticket is exempt, because the rollback bars it by name.
   */
  ghost predicate SentBeforeWait(s: State, p: Pass) {
    forall k, i | 0 <= k < |s.sent| && 0 <= i < |s.wait| ::
      s.wait[i].ident != "" && s.sent[k].ident == s.wait[i].ident && s.sent[k].id > s.wait[i].id ==>
        HasSuccessor(s.wait, i) || (s.wait[i].ident == p.ident && s.wait[i].number < p.number)
  }

  /** In an acknowledgement, what is left of its sequence in `wait` is older exactly if sent before it. */
  ghost predicate SplitByAcknowledged(s: State, p: Pass) {
    p.ident != "" ==>
      && p.id < |s.idents| && s.idents[p.id] == p.ident
      && (forall i | 0 <= i < |s.wait| && s.wait[i].ident == p.ident ::
            if s.wait[i].number < p.number then s.wait[i].id < p.id else s.wait[i].id > p.id)
      && (forall i | 0 <= i < |s.out| && s.out[i].ident == p.ident :: s.out[i].id > p.id)
  }

  ghost predicate HasLater(idents: seq<string>, id: nat) {
    exists later | id < later < |idents| :: idents[later] == idents[id] != ""
  }

  /** Only tickets overtaken by a later one of their sequence are skipped. */
  ghost predicate MissesJustified(s: State) {
    forall k | 0 <= k < |s.done| :: s.done[k].id < |s.idents| &&
      (s.done[k].fate == Dropped(StableSequenceMiss) ==> HasLater(s.idents, s.done[k].id))
  }

  function EntryIds(q: seq<Entry>): multiset<nat> {
    if q == [] then multiset{} else multiset{q[0].id} + EntryIds(q[1..])
  }

  function OutcomeIds(done: seq<Outcome>): multiset<nat> {
    if done == [] then multiset{} else OutcomeIds(done[..|done| - 1]) + multiset{done[|done| - 1].id}
  }

  /** Every place a submitted ticket can be found in. */
  function Census(s: State): multiset<nat> {
    EntryIds(s.wait) + EntryIds(s.out) + OutcomeIds(s.done)
  }

  ghost predicate Conserved(s: State) {
    forall id: nat :: Census(s)[id] == if id < |s.idents| then 1 else 0
  }

  function Transmissions(sent: seq<Transmission>, id: nat): nat {
    if sent == [] then 0
    else Transmissions(sent[..|sent| - 1], id) + if sent[|sent| - 1].id == id then 1 else 0
  }

  ghost predicate LoopsCount(s: State) {
    && (forall i | 0 <= i < |s.wait| :: Transmissions(s.sent, s.wait[i].id) == s.wait[i].loop)
    && (forall i | 0 <= i < |s.out| :: Transmissions(s.sent, s.out[i].id) == s.out[i].loop)
    && (forall id: nat :: Transmissions(s.sent, id) <= MAX_LOOP + 1)
    && (forall id: nat | id >= |s.idents| :: Transmissions(s.sent, id) == 0)
  }

  ghost predicate CoreInv(s: State) {
    && QueuesOrdered(s)
    && Numbered(s)
    && Labelled(s)
    && WaitLoops(s, MAX_LOOP + 1)
    && OutLoops(s)
    && SentInOrder(s.sent)
    && SentBeforeOut(s)
    && MissesJustified(s)
    && Conserved(s)
    && LoopsCount(s)
  }

  ghost predicate PassInv(s: State, p: Pass) {
    CoreInv(s) && SentBeforeWait(s, p) && SplitByAcknowledged(s, p)
  }

  ghost predicate Inv(s: State) {
    PassInv(s, NO_PASS)
  }

  /** The numbers along `wait` and then `out` increase and are below the next one to be given out. */
  ghost predicate NumbersIncrease(s: State) {
    && (forall i, j | 0 <= i < j < |s.wait| :: s.wait[i].number < s.wait[j].number)
    && (forall i, j | 0 <= i < j < |s.out| :: s.out[i].number < s.out[j].number)
    && (forall i, j | 0 <= i < |s.wait| && 0 <= j < |s.out| :: s.wait[i].number < s.out[j].number)
    && (forall i | 0 <= i < |s.wait| :: s.wait[i].number < s.next)
    && (forall i | 0 <= i < |s.out| :: s.out[i].number < s.next)
  }

  // ----- the order of numbers, step by step -----

  lemma SubmitKeepsNumbers(s: State, kind: Kind, ident: string, deadline: nat)
    requires NumbersIncrease(s)
    ensures NumbersIncrease(SubmitTicket(s, kind, ident, deadline))
  {
  }

  lemma SendFirstKeepsNumbers(s: State)
    requires NumbersIncrease(s) && s.out != []
    ensures NumbersIncrease(SendFirst(s))
  {
    assert forall k | 0 <= k < |SendFirst(s).out| :: SendFirst(s).out[k] == s.out[k + 1];
  }

  /** Sending `count` tickets and then the next one is sending `count + 1`. */
  lemma {:induction false} SendPrefixNext(s: State, count: nat)
    requires count < |s.out|
    ensures |SendPrefix(s, count).out| == |s.out| - count
    ensures SendPrefix(s, count + 1) == SendFirst(SendPrefix(s, count))
    decreases count
  {
    if count > 0 {
      SendPrefixNext(SendFirst(s), count - 1);
    }
  }

  lemma {:induction false} SendPrefixKeepsNumbers(s: State, count: nat)
    requires NumbersIncrease(s) && count <= |s.out|
    ensures NumbersIncrease(SendPrefix(s, count))
    decreases count
  {
    if count > 0 {
      SendFirstKeepsNumbers(s);
      SendPrefixKeepsNumbers(SendFirst(s), count - 1);
    }
  }

  lemma DropFromOutKeepsNumbers(s: State, i: nat, fate: Fate)
    requires NumbersIncrease(s) && i < |s.out|
    ensures NumbersIncrease(DropFromOut(s, i, fate))
  {
    var s' := DropFromOut(s, i, fate);
    assert forall k | 0 <= k < |s'.out| :: s'.out[k] == s.out[if k < i then k else k + 1];
  }

  lemma DropFromWaitKeepsNumbers(s: State, i: nat, fate: Fate)
    requires NumbersIncrease(s) && i < |s.wait|
    ensures NumbersIncrease(DropFromWait(s, i, fate))
  {
    var s' := DropFromWait(s, i, fate);
    assert forall k | 0 <= k < |s'.wait| :: s'.wait[k] == s.wait[if k < i then k else k + 1];
  }

  lemma DropFirst(s: State, fate: Fate)
    requires s.wait != []
    ensures DropFromWait(s, 0, fate).wait == s.wait[1..]
  {
  }

  lemma RepushKeepsNumbers(s: State)
    requires NumbersIncrease(s) && s.wait != []
    ensures NumbersIncrease(s.(wait := s.wait[1..]))
    ensures NumbersIncrease(s.(wait := s.wait[1..], out := s.out + [s.wait[0].(number := s.next)], next := s.next + 1))
  {
    var rest := s.(wait := s.wait[1..]);
    assert forall k | 0 <= k < |rest.wait| :: rest.wait[k] == s.wait[k + 1];
  }

  lemma RollbackFirstCases(s: State, ident: string, now: nat)
    requires s.wait != []
    ensures var r := RollbackFirst(s, ident, now);
      || (r.wait == s.wait[1..] && r.out == s.out && r.next == s.next)
      || r == s.(wait := s.wait[1..], out := s.out + [s.wait[0].(number := s.next)], next := s.next + 1)
  {
    DropFirst(s, Dropped(DeadlineReached));
    DropFirst(s, Dropped(StableSequenceMiss));
  }

  lemma SameNumbers(s: State, r: State)
    requires NumbersIncrease(s) && r.wait == s.wait && r.out == s.out && r.next == s.next
    ensures NumbersIncrease(r)
  {
  }

  lemma RollbackFirstKeepsNumbers(s: State, ident: string, now: nat)
    requires NumbersIncrease(s) && s.wait != []
    ensures NumbersIncrease(RollbackFirst(s, ident, now))
  {
    var r := RollbackFirst(s, ident, now);
    RepushKeepsNumbers(s);
    RollbackFirstCases(s, ident, now);
    if r.out == s.out {
      SameNumbers(s.(wait := s.wait[1..]), r);
    }
  }

  // ----- conservation -----

  lemma {:induction false} EntryIdsConcat(a: seq<Entry>, b: seq<Entry>)
    ensures EntryIds(a + b) == EntryIds(a) + EntryIds(b)
  {
    if a == [] {
      assert a + b == b;
    } else {
      assert (a + b)[1..] == a[1..] + b;
      EntryIdsConcat(a[1..], b);
    }
  }

  lemma EntryIdsAround(a: seq<Entry>, e: Entry, b: seq<Entry>)
    ensures EntryIds(a + ([e] + b)) == EntryIds(a + b) + multiset{e.id}
  {
    EntryIdsConcat(a, [e] + b);
    EntryIdsConcat(a, b);
    assert ([e] + b)[1..] == b;
  }

  lemma EntryIdsRemove(q: seq<Entry>, i: nat)
    requires i < |q|
    ensures EntryIds(q) == EntryIds(q[..i] + q[i + 1..]) + multiset{q[i].id}
  {
    EntryIdsAround(q[..i], q[i], q[i + 1..]);
    assert q == q[..i] + ([q[i]] + q[i + 1..]);
  }

  lemma EntryIdsHas(q: seq<Entry>, i: nat)
    requires i < |q|
    ensures EntryIds(q)[q[i].id] >= 1
  {
    EntryIdsRemove(q, i);
  }

  /** The first ticket of `out` is found nowhere else. */
  lemma FirstOutUnique(s: State)
    requires Conserved(s) && s.out != []
    ensures forall i | 0 <= i < |s.wait| :: s.wait[i].id != s.out[0].id
    ensures forall i | 1 <= i < |s.out| :: s.out[i].id != s.out[0].id
  {
    var id := s.out[0].id;
    assert Census(s)[id] <= 1;
    forall i | 0 <= i < |s.wait|
      ensures s.wait[i].id != id
    {
      EntryIdsHas(s.wait, i);
      EntryIdsHas(s.out, 0);
    }
    forall i | 1 <= i < |s.out|
      ensures s.out[i].id != id
    {
      EntryIdsHas(s.out[1..], i - 1);
    }
  }

  lemma OutcomeIdsAppend(done: seq<Outcome>, o: Outcome)
    ensures OutcomeIds(done + [o]) == OutcomeIds(done) + multiset{o.id}
  {
    assert (done + [o])[..|done|] == done;
  }

  lemma SameCensusConserved(s: State, s': State)
    requires Conserved(s) && Census(s) == Census(s') && |s.idents| == |s'.idents|
    ensures Conserved(s')
  {
  }

  lemma DropFromOutConserves(s: State, i: nat, fate: Fate)
    requires Conserved(s) && i < |s.out|
    ensures Conserved(DropFromOut(s, i, fate))
  {
    EntryIdsRemove(s.out, i);
    OutcomeIdsAppend(s.done, Outcome(s.out[i].id, fate));
    SameCensusConserved(s, DropFromOut(s, i, fate));
  }

  lemma DropFromWaitConserves(s: State, i: nat, fate: Fate)
    requires Conserved(s) && i < |s.wait|
    ensures Conserved(DropFromWait(s, i, fate))
  {
    EntryIdsRemove(s.wait, i);
    OutcomeIdsAppend(s.done, Outcome(s.wait[i].id, fate));
    SameCensusConserved(s, DropFromWait(s, i, fate));
  }

  lemma SendTrackedConserves(s: State)
    requires Conserved(s) && s.out != [] && s.out[0].kind == Tracked
    ensures Conserved(SendFirst(s))
  {
    var t := s.out[0];
    EntryIdsConcat(s.wait, [t.(loop := t.loop + 1)]);
    SameCensusConserved(s, SendFirst(s));
  }

  lemma RepushConserves(s: State, ident: string, now: nat)
    requires Conserved(s) && s.wait != []
    requires !Expired(s.wait[0].deadline, now) && !Superseded(s, ident)
    ensures Conserved(RollbackFirst(s, ident, now))
  {
    var t := s.wait[0];
    EntryIdsConcat(s.out, [t.(number := s.next)]);
    SameCensusConserved(s, RollbackFirst(s, ident, now));
  }

  lemma SubmitConserves(s: State, kind: Kind, ident: string, deadline: nat)
    requires Conserved(s)
    ensures Conserved(SubmitTicket(s, kind, ident, deadline))
  {
    var s' := SubmitTicket(s, kind, ident, deadline);
    var t := s'.out[|s.out|];
    EntryIdsConcat(s.out, [t]);
    assert EntryIds([t]) == multiset{t.id} + EntryIds([]);
    OneMoreConserved(s, s', t.id);
  }

  lemma OneMoreConserved(s: State, s': State, id: nat)
    requires Conserved(s) && Census(s') == Census(s) + multiset{id} && id == |s.idents| && |s'.idents| == id + 1
    ensures Conserved(s')
  {
    forall other: nat
      ensures Census(s')[other] == if other < |s'.idents| then 1 else 0
    {
      assert Census(s)[other] == if other < |s.idents| then 1 else 0;
    }
  }

  // ----- every step keeps the invariant -----

  lemma SubmitKeepsInv(s: State, kind: Kind, ident: string, deadline: nat)
    requires Inv(s)
    ensures Inv(SubmitTicket(s, kind, ident, deadline))
  {
    var s' := SubmitTicket(s, kind, ident, deadline);
    SubmitConserves(s, kind, ident, deadline);
    SubmitKeepsFields(s, s', kind, ident, deadline);
    SubmitKeepsOrder(s, s', kind, ident, deadline);
    SubmitKeepsMisses(s, s');
  }

  lemma SubmitKeepsFields(s: State, s': State, kind: Kind, ident: string, deadline: nat)
    requires Numbered(s) && Labelled(s) && OutLoops(s) && LoopsCount(s)
    requires s' == SubmitTicket(s, kind, ident, deadline)
    ensures Numbered(s') && Labelled(s') && OutLoops(s') && LoopsCount(s')
  {
    assert forall k | 0 <= k < |s.out| :: s'.out[k] == s.out[k];
    assert forall k | 0 <= k < |s.idents| :: s'.idents[k] == s.idents[k];
  }

  lemma SubmitKeepsOrder(s: State, s': State, kind: Kind, ident: string, deadline: nat)
    requires QueuesOrdered(s) && Numbered(s) && Labelled(s) && SentBeforeOut(s)
    requires s' == SubmitTicket(s, kind, ident, deadline)
    ensures QueuesOrdered(s') && SentBeforeOut(s')
  {
  }

  lemma SubmitKeepsMisses(s: State, s': State)
    requires MissesJustified(s) && s'.done == s.done && s.idents <= s'.idents
    ensures MissesJustified(s')
  {
    forall k | 0 <= k < |s.done| && s.done[k].fate == Dropped(StableSequenceMiss)
      ensures HasLater(s'.idents, s.done[k].id)
    {
      var later :| s.done[k].id < later < |s.idents| && s.idents[later] == s.idents[s.done[k].id] != "";
      assert s'.idents[later] == s'.idents[s.done[k].id];
    }
  }

  lemma DropFromOutKeepsOrder(s: State, i: nat, fate: Fate)
    requires QueuesOrdered(s) && SentBeforeOut(s) && i < |s.out|
    ensures QueuesOrdered(DropFromOut(s, i, fate)) && SentBeforeOut(DropFromOut(s, i, fate))
  {
    var s' := DropFromOut(s, i, fate);
    assert forall k | 0 <= k < |s'.out| :: s'.out[k] == s.out[if k < i then k else k + 1];
  }

  lemma DropFromOutKeepsFields(s: State, i: nat, fate: Fate, p: Pass)
    requires i < |s.out| && fate != Dropped(StableSequenceMiss)
    requires Numbered(s) && Labelled(s) && OutLoops(s) && MissesJustified(s) && LoopsCount(s) &&
      SplitByAcknowledged(s, p)
    ensures var s' := DropFromOut(s, i, fate);
      Numbered(s') && Labelled(s') && OutLoops(s') && MissesJustified(s') && LoopsCount(s') &&
        SplitByAcknowledged(s', p)
  {
    var s' := DropFromOut(s, i, fate);
    assert forall k | 0 <= k < |s'.out| :: s'.out[k] == s.out[if k < i then k else k + 1];
  }

  lemma DropFromOutKeepsInv(s: State, i: nat, fate: Fate, p: Pass)
    requires PassInv(s, p) && i < |s.out| && fate != Dropped(StableSequenceMiss)
    ensures PassInv(DropFromOut(s, i, fate), p)
  {
    DropFromOutKeepsOrder(s, i, fate);
    DropFromOutKeepsFields(s, i, fate, p);
    DropFromOutConserves(s, i, fate);
  }

  lemma SendTrackedKeepsOrder(s: State)
    requires Inv(s) && s.out != [] && s.out[0].kind == Tracked
    ensures QueuesOrdered(SendFirst(s)) && SentInOrder(SendFirst(s).sent) && SentBeforeOut(SendFirst(s))
  {
    var s' := SendFirst(s);
    assert forall k | 0 <= k < |s'.out| :: s'.out[k] == s.out[k + 1];
    forall i, j | 0 <= i < j < |s'.wait|
      ensures Precedes(s'.wait[i], s'.wait[j], true)
    {
      if j == |s.wait| {
        assert Precedes(s.wait[i], s.out[0], false);
      }
    }
    forall i, j | 0 <= i < |s'.wait| && 0 <= j < |s'.out|
      ensures Precedes(s'.wait[i], s'.out[j], false)
    {
      if i == |s.wait| {
        assert Precedes(s.out[0], s.out[j + 1], false);
      }
    }
    forall k, j | 0 <= k < |s'.sent| && 0 <= j < |s'.out|
      ensures s'.sent[k].number < s'.out[j].number
      ensures s'.out[j].ident != "" && s'.sent[k].ident == s'.out[j].ident ==> s'.sent[k].id <= s'.out[j].id
    {
      if k == |s.sent| {
        assert Precedes(s.out[0], s.out[j + 1], false);
      }
    }
  }

  /** Whatever is newer than a waiting ticket of its sequence, it has a successor once the next ticket is sent. */
  lemma SentHasSuccessor(s: State, k: nat, i: nat)
    requires Inv(s) && s.out != [] && s.out[0].kind == Tracked && k <= |s.sent| && i < |s.wait|
    requires s.wait[i].ident != "" && SendFirst(s).sent[k].ident == s.wait[i].ident &&
      SendFirst(s).sent[k].id > s.wait[i].id
    ensures HasSuccessor(SendFirst(s).wait, i)
  {
    var wait := SendFirst(s).wait;
    if k == |s.sent| {
      assert SameSequence(wait[i], wait[|s.wait|]);
    } else {
      assert SendFirst(s).sent[k] == s.sent[k] && HasSuccessor(s.wait, i);
      var j :| i < j < |s.wait| && SameSequence(s.wait[i], s.wait[j]);
      assert SameSequence(wait[i], wait[j]);
    }
  }

  lemma SendTrackedKeepsSuccessors(s: State)
    requires Inv(s) && s.out != [] && s.out[0].kind == Tracked
    ensures SentBeforeWait(SendFirst(s), NO_PASS)
  {
    var s' := SendFirst(s);
    forall k: nat, i: nat | k < |s'.sent| && i < |s'.wait| &&
        s'.wait[i].ident != "" && s'.sent[k].ident == s'.wait[i].ident && s'.sent[k].id > s'.wait[i].id
      ensures HasSuccessor(s'.wait, i)
    {
      NewestIsSentLast(s, k, i);
      SentHasSuccessor(s, k, i);
    }
  }

  /** Nothing sent before is newer than the ticket just sent in its sequence. */
  lemma NewestIsSentLast(s: State, k: nat, i: nat)
    requires SentBeforeOut(s) && s.out != [] && s.out[0].kind == Tracked
    requires k < |SendFirst(s).sent| && i < |SendFirst(s).wait|
    requires var s' := SendFirst(s);
      s'.wait[i].ident != "" && s'.sent[k].ident == s'.wait[i].ident && s'.sent[k].id > s'.wait[i].id
    ensures i < |s.wait|
  {
  }

  lemma SendTrackedKeepsFields(s: State)
    requires Numbered(s) && Labelled(s) && WaitLoops(s, MAX_LOOP + 1) && OutLoops(s)
    requires s.out != [] && s.out[0].kind == Tracked
    ensures Numbered(SendFirst(s)) && Labelled(SendFirst(s))
    ensures WaitLoops(SendFirst(s), MAX_LOOP + 1) && OutLoops(SendFirst(s))
  {
    assert forall k | 0 <= k < |SendFirst(s).out| :: SendFirst(s).out[k] == s.out[k + 1];
  }

  lemma SendTrackedCounts(s: State)
    requires Conserved(s) && LoopsCount(s) && OutLoops(s) && Labelled(s)
    requires s.out != [] && s.out[0].kind == Tracked
    ensures LoopsCount(SendFirst(s))
  {
    var s' := SendFirst(s);
    FirstOutUnique(s);
    assert s'.sent[..|s'.sent| - 1] == s.sent;
    assert forall k | 0 <= k < |s'.out| :: s'.out[k] == s.out[k + 1];
  }

  lemma SendFirstKeepsInv(s: State)
    requires Inv(s) && s.out != []
    ensures Inv(SendFirst(s))
  {
    if s.out[0].kind == Tracked {
      SendTrackedKeepsOrder(s);
      SendTrackedKeepsFields(s);
      SendTrackedKeepsSuccessors(s);
      SendTrackedConserves(s);
      SendTrackedCounts(s);
    } else {
      var fate := if s.out[0].kind == Plain then SentPlain else Discarded;
      DropFromOutKeepsInv(s, 0, fate, NO_PASS);
      assert SendFirst(s) == DropFromOut(s, 0, fate);
    }
  }

  /** Whether ticket `i` of `wait` can leave without stranding an older ticket of its sequence. */
  ghost predicate Removable(s: State, i: nat, p: Pass)
    requires i < |s.wait|
  {
    || i == 0
    || s.wait[i].loop > MAX_LOOP
    || (s.wait[i].ident == p.ident && s.wait[i].number <= p.number)
  }

  /** A removable ticket is no successor on which an older ticket depends. */
  lemma RemovableIsNoSuccessor(s: State, i: nat, p: Pass, b: nat, j: nat)
    requires QueuesOrdered(s) && i < |s.wait| && Removable(s, i, p)
    requires b < j < |s.wait| && SameSequence(s.wait[b], s.wait[j])
    requires !(s.wait[b].ident == p.ident && s.wait[b].number < p.number)
    ensures j != i
  {
    assert Precedes(s.wait[b], s.wait[j], true);
  }

  lemma SuccessorStays(s: State, i: nat, fate: Fate, p: Pass, a: nat)
    requires QueuesOrdered(s) && i < |s.wait| && Removable(s, i, p)
    requires var b := if a < i then a else a + 1;
      b < |s.wait| && HasSuccessor(s.wait, b) && !(s.wait[b].ident == p.ident && s.wait[b].number < p.number)
    ensures a < |DropFromWait(s, i, fate).wait| && HasSuccessor(DropFromWait(s, i, fate).wait, a)
  {
    var s' := DropFromWait(s, i, fate);
    var b := if a < i then a else a + 1;
    var j :| b < j < |s.wait| && SameSequence(s.wait[b], s.wait[j]);
    RemovableIsNoSuccessor(s, i, p, b, j);
    assert SameSequence(s'.wait[a], s'.wait[if j < i then j else j - 1]);
  }

  lemma DropFromWaitKeepsSuccessors(s: State, i: nat, fate: Fate, p: Pass)
    requires QueuesOrdered(s) && SentBeforeWait(s, p)
    requires i < |s.wait| && Removable(s, i, p)
    ensures SentBeforeWait(DropFromWait(s, i, fate), p)
  {
    var s' := DropFromWait(s, i, fate);
    forall k, a: nat | 0 <= k < |s'.sent| && a < |s'.wait| &&
        s'.wait[a].ident != "" && s'.sent[k].ident == s'.wait[a].ident && s'.sent[k].id > s'.wait[a].id &&
        !(s'.wait[a].ident == p.ident && s'.wait[a].number < p.number)
      ensures HasSuccessor(s'.wait, a)
    {
      assert s'.wait[a] == s.wait[if a < i then a else a + 1];
      SuccessorStays(s, i, fate, p, a);
    }
  }

  ghost predicate MissJustified(s: State, i: nat, fate: Fate)
    requires i < |s.wait|
  {
    s.wait[i].id < |s.idents| && (fate == Dropped(StableSequenceMiss) ==> HasLater(s.idents, s.wait[i].id))
  }

  lemma DropFromWaitKeepsFields(s: State, i: nat, fate: Fate)
    requires i < |s.wait| && MissJustified(s, i, fate)
    requires Numbered(s) && Labelled(s) && WaitLoops(s, MAX_LOOP + 1) && MissesJustified(s) && LoopsCount(s)
    ensures var s' := DropFromWait(s, i, fate);
      Numbered(s') && Labelled(s') && WaitLoops(s', MAX_LOOP + 1) && MissesJustified(s') && LoopsCount(s')
  {
    var s' := DropFromWait(s, i, fate);
    assert forall k | 0 <= k < |s'.wait| :: s'.wait[k] == s.wait[if k < i then k else k + 1];
  }

  lemma DropFromWaitKeepsCore(s: State, i: nat, fate: Fate)
    requires CoreInv(s) && i < |s.wait| && MissJustified(s, i, fate)
    ensures CoreInv(DropFromWait(s, i, fate))
  {
    var s' := DropFromWait(s, i, fate);
    DropFromWaitKeepsFields(s, i, fate);
    DropFromWaitConserves(s, i, fate);
    assert QueuesOrdered(s') by {
      assert forall k | 0 <= k < |s'.wait| :: s'.wait[k] == s.wait[if k < i then k else k + 1];
    }
  }

  lemma DropFromWaitKeepsInv(s: State, i: nat, fate: Fate, p: Pass)
    requires PassInv(s, p)
    requires i < |s.wait| && Removable(s, i, p) && MissJustified(s, i, fate)
    ensures PassInv(DropFromWait(s, i, fate), p)
  {
    var s' := DropFromWait(s, i, fate);
    DropFromWaitKeepsCore(s, i, fate);
    DropFromWaitKeepsSuccessors(s, i, fate, p);
    assert forall k | 0 <= k < |s'.wait| :: s'.wait[k] == s.wait[if k < i then k else k + 1];
  }

  lemma {:induction false} SweepOutKeepsInv(s: State, now: nat, i: nat)
    requires Inv(s) && i <= |s.out|
    ensures Inv(SweepOut(s, now, i))
    decreases |s.out| - i
  {
    if i < |s.out| {
      if Expired(s.out[i].deadline, now) {
        DropFromOutKeepsInv(s, i, Dropped(DeadlineReached), NO_PASS);
        SweepOutKeepsInv(DropFromOut(s, i, Dropped(DeadlineReached)), now, i);
      } else {
        SweepOutKeepsInv(s, now, i + 1);
      }
    }
  }

  lemma {:induction false} SendPrefixKeepsInv(s: State, count: nat)
    requires Inv(s) && count <= |s.out|
    ensures Inv(SendPrefix(s, count))
    decreases count
  {
    if count > 0 {
      SendPrefixKeepsInv(s, count - 1);
      SendPrefixNext(s, count - 1);
      SendFirstKeepsInv(SendPrefix(s, count - 1));
    }
  }

  lemma {:induction false} SweepWaitKeepsInv(s: State, i: nat, p: Pass)
    requires PassInv(s, p) && i <= |s.wait|
    requires forall k | 0 <= k < i :: s.wait[k].loop <= MAX_LOOP
    ensures PassInv(SweepWait(s, i), p) && WaitLoops(SweepWait(s, i), MAX_LOOP)
    decreases |s.wait| - i
  {
    if i < |s.wait| {
      if s.wait[i].loop > MAX_LOOP {
        DropFromWaitKeepsInv(s, i, Dropped(TooManyRetries), p);
        SweepWaitKeepsInv(DropFromWait(s, i, Dropped(TooManyRetries)), i, p);
      } else {
        SweepWaitKeepsInv(s, i + 1, p);
      }
    }
  }

  /** A ticket that is sent again is alone in its sequence and nothing newer of it was sent. */
  lemma RepushedIsNewest(s: State, p: Pass)
    requires PassInv(s, p) && s.wait != [] && !Superseded(s, p.ident) && s.wait[0].ident != ""
    ensures forall k | 1 <= k < |s.wait| :: s.wait[k].ident != s.wait[0].ident
    ensures forall k | 0 <= k < |s.out| :: s.out[k].ident != s.wait[0].ident
    ensures forall k | 0 <= k < |s.sent| && s.sent[k].ident == s.wait[0].ident :: s.sent[k].id <= s.wait[0].id
  {
    forall k | 1 <= k < |s.wait|
      ensures s.wait[k].ident != s.wait[0].ident
    {
      assert s.wait[k] == s.wait[1..][k - 1];
    }
    assert !HasSuccessor(s.wait, 0);
  }

  lemma RepushKeepsOrder(s: State, s': State, now: nat, ident: string)
    requires QueuesOrdered(s) && Numbered(s) && Labelled(s) && SentBeforeOut(s) && s.wait != []
    requires !Expired(s.wait[0].deadline, now) && !Superseded(s, ident) && s' == RollbackFirst(s, ident, now)
    requires s.wait[0].ident != "" ==>
      && (forall k | 1 <= k < |s.wait| :: s.wait[k].ident != s.wait[0].ident)
      && (forall k | 0 <= k < |s.out| :: s.out[k].ident != s.wait[0].ident)
      && (forall k | 0 <= k < |s.sent| && s.sent[k].ident == s.wait[0].ident :: s.sent[k].id <= s.wait[0].id)
    ensures QueuesOrdered(s') && Numbered(s') && Labelled(s') && SentBeforeOut(s')
  {
    assert forall k | 0 <= k < |s'.wait| :: s'.wait[k] == s.wait[k + 1];
    assert forall k | 0 <= k < |s.out| :: s'.out[k] == s.out[k];
    assert s'.out[|s.out|] == s.wait[0].(number := s.next);
  }

  /** The state after ticket `wait[0]` was queued again. */
  ghost predicate IsRepushed(s: State, s': State)
    requires s.wait != []
  {
    s' == s.(wait := s.wait[1..], out := s.out + [s.wait[0].(number := s.next)], next := s.next + 1)
  }

  lemma RepushKeepsSuccessors(s: State, s': State, p: Pass)
    requires QueuesOrdered(s) && SentBeforeWait(s, p) && s.wait != [] && IsRepushed(s, s')
    ensures SentBeforeWait(s', p)
  {
    DropFromWaitKeepsSuccessors(s, 0, Acknowledged, p);
    DropFirst(s, Acknowledged);
  }

  lemma RepushKeepsFields(s: State, s': State, p: Pass)
    requires WaitLoops(s, MAX_LOOP) && OutLoops(s) && LoopsCount(s) && SplitByAcknowledged(s, p)
    requires s.wait != [] && IsRepushed(s, s') && (s.wait[0].ident == p.ident != "" ==> s.wait[0].id > p.id)
    ensures WaitLoops(s', MAX_LOOP) && OutLoops(s') && LoopsCount(s') && SplitByAcknowledged(s', p)
  {
    assert forall k | 0 <= k < |s'.wait| :: s'.wait[k] == s.wait[k + 1];
    assert forall k | 0 <= k < |s.out| :: s'.out[k] == s.out[k];
    assert s'.out[|s.out|] == s.wait[0].(number := s.next);
  }

  lemma WaitLoopsWeaken(s: State, a: nat, b: nat)
    requires WaitLoops(s, a) && a <= b
    ensures WaitLoops(s, b)
  {
  }

  lemma NotSupersededByAcknowledged(s: State, p: Pass)
    requires SplitByAcknowledged(s, p) && s.wait != [] && !Superseded(s, p.ident)
    ensures s.wait[0].ident == p.ident != "" ==> s.wait[0].id > p.id
  {
  }

  lemma RepushKeepsInv(s: State, p: Pass, now: nat)
    requires PassInv(s, p) && WaitLoops(s, MAX_LOOP) && s.wait != []
    requires !Expired(s.wait[0].deadline, now) && !Superseded(s, p.ident)
    ensures PassInv(RollbackFirst(s, p.ident, now), p)
  {
    var s', t := RollbackFirst(s, p.ident, now), s.wait[0];
    assert IsRepushed(s, s');
    if t.ident != "" {
      RepushedIsNewest(s, p);
    }
    NotSupersededByAcknowledged(s, p);
    RepushKeepsSuccessors(s, s', p);
    RepushKeepsOrder(s, s', now, p.ident);
    RepushConserves(s, p.ident, now);
    RepushKeepsFields(s, s', p);
    WaitLoopsWeaken(s', MAX_LOOP, MAX_LOOP + 1);
  }

  /** A ticket is skipped for its sequence only if a later one was submitted. */
  lemma SupersededHasLater(s: State, p: Pass)
    requires PassInv(s, p) && s.wait != [] && s.wait[0].number < p.number && Superseded(s, p.ident)
    ensures HasLater(s.idents, s.wait[0].id)
  {
    var t := s.wait[0];
    if t.ident == p.ident {
      assert s.idents[p.id] == s.idents[t.id];
    } else if Mentions(s.out, t.ident) {
      var k :| 0 <= k < |s.out| && s.out[k].ident == t.ident;
      assert Precedes(t, s.out[k], false) && s.idents[s.out[k].id] == s.idents[t.id];
    } else {
      var k :| 0 <= k < |s.wait[1..]| && s.wait[1..][k].ident == t.ident;
      assert s.wait[1..][k] == s.wait[k + 1];
      assert Precedes(t, s.wait[k + 1], true) && s.idents[s.wait[k + 1].id] == s.idents[t.id];
    }
  }

  lemma RollbackFirstKeepsInv(s: State, p: Pass, now: nat)
    requires PassInv(s, p) && WaitLoops(s, MAX_LOOP) && s.wait != [] && s.wait[0].number < p.number
    ensures PassInv(RollbackFirst(s, p.ident, now), p)
    ensures WaitLoops(RollbackFirst(s, p.ident, now), MAX_LOOP)
  {
    if Expired(s.wait[0].deadline, now) {
      DropFromWaitKeepsInv(s, 0, Dropped(DeadlineReached), p);
    } else if Superseded(s, p.ident) {
      SupersededHasLater(s, p);
      DropFromWaitKeepsInv(s, 0, Dropped(StableSequenceMiss), p);
    } else {
      RepushKeepsInv(s, p, now);
    }
  }

  /** Nothing queued is older than ticket `p.id` in its sequence. */
  ghost predicate Purged(s: State, p: Pass) {
    p.ident != "" ==>
      && (forall i | 0 <= i < |s.wait| && s.wait[i].ident == p.ident :: s.wait[i].id > p.id)
      && (forall i | 0 <= i < |s.out| && s.out[i].ident == p.ident :: s.out[i].id > p.id)
  }

  lemma RollbackDone(s: State, p: Pass)
    requires PassInv(s, p) && (s.wait == [] || s.wait[0].number >= p.number)
    ensures Inv(s) && Purged(s, p)
  {
    assert forall i | 0 <= i < |s.wait| :: s.wait[i].number >= p.number by {
      assert forall i | 0 < i < |s.wait| :: Precedes(s.wait[0], s.wait[i], true);
    }
  }

  lemma {:induction false} RollbackKeepsInv(s: State, p: Pass, now: nat)
    requires PassInv(s, p) && WaitLoops(s, MAX_LOOP)
    ensures Inv(Rollback(s, p.number, p.ident, now)) && Purged(Rollback(s, p.number, p.ident, now), p)
    decreases |s.wait|
  {
    if s.wait == [] || s.wait[0].number >= p.number {
      RollbackDone(s, p);
    } else {
      RollbackFirstKeepsInv(s, p, now);
      RollbackKeepsInv(RollbackFirst(s, p.ident, now), p, now);
    }
  }

  function PassOf(t: Entry): Pass {
    Pass(t.number, t.ident, t.id)
  }

  lemma AcknowledgedSplits(s: State, i: nat)
    requires QueuesOrdered(s) && Labelled(s) && i < |s.wait|
    ensures SplitByAcknowledged(DropFromWait(s, i, Acknowledged), PassOf(s.wait[i]))
  {
    var s' := DropFromWait(s, i, Acknowledged);
    assert forall k | 0 <= k < |s'.wait| :: s'.wait[k] == s.wait[if k < i then k else k + 1];
    assert forall k | 0 <= k < i :: Precedes(s.wait[k], s.wait[i], true);
    assert forall k | i < k < |s.wait| :: Precedes(s.wait[i], s.wait[k], true);
    assert forall k | 0 <= k < |s.out| :: Precedes(s.wait[i], s.out[k], false);
  }

  lemma AcknowledgedStartsPass(s: State, i: nat)
    requires Inv(s) && i < |s.wait|
    ensures PassInv(DropFromWait(s, i, Acknowledged), PassOf(s.wait[i]))
  {
    AcknowledgedSplits(s, i);
    DropFromWaitKeepsCore(s, i, Acknowledged);
    DropFromWaitKeepsSuccessors(s, i, Acknowledged, PassOf(s.wait[i]));
  }

  lemma AcknowledgeWaitingKeepsInv(s: State, i: nat, now: nat)
    requires Inv(s) && i < |s.wait| && IndexOf(s.wait, s.wait[i].number) == i
    ensures Inv(AcknowledgeNumber(s, s.wait[i].number, now))
    ensures Purged(AcknowledgeNumber(s, s.wait[i].number, now), PassOf(s.wait[i]))
  {
    var p := PassOf(s.wait[i]);
    AcknowledgedStartsPass(s, i);
    if i == 0 {
      DropFromWaitKeepsInv(s, 0, Acknowledged, NO_PASS);
      var s' := DropFromWait(s, 0, Acknowledged);
      assert forall k | 0 <= k < |s'.wait| :: s'.wait[k].number > s.wait[0].number by {
        assert forall k | 0 <= k < |s'.wait| :: s'.wait[k] == s.wait[k + 1] && Precedes(s.wait[0], s.wait[k + 1], true);
      }
    } else {
      SweepWaitKeepsInv(DropFromWait(s, i, Acknowledged), 0, p);
      RollbackKeepsInv(SweepWait(DropFromWait(s, i, Acknowledged), 0), p, now);
    }
  }

  lemma AcknowledgeKeepsInv(s: State, number: nat, now: nat)
    requires Inv(s)
    ensures Inv(AcknowledgeNumber(s, number, now))
  {
    var i, o := IndexOf(s.wait, number), IndexOf(s.out, number);
    if number == 0 {
    } else if i < |s.wait| {
      AcknowledgeWaitingKeepsInv(s, i, now);
    } else if o < |s.out| {
      DropFromOutKeepsInv(s, o, Acknowledged, NO_PASS);
    }
  }

  lemma {:induction false} DropTicketsKeepsInv(s: State)
    requires Inv(s)
    ensures Inv(DropTickets(s)) && DropTickets(s).out == []
    decreases |s.out|
  {
    if s.out != [] {
      DropFromOutKeepsInv(s, 0, Dropped(ForcedDrop), NO_PASS);
      DropTicketsKeepsInv(DropFromOut(s, 0, Dropped(ForcedDrop)));
    }
  }

  lemma {:induction false} CloseKeepsInv(s: State)
    requires Inv(s)
    ensures Inv(CloseConnection(s)) && CloseConnection(s).wait == []
    decreases |s.wait|
  {
    if s.wait != [] {
      DropFromWaitKeepsInv(s, 0, Dropped(NoProcessedConfirmation), NO_PASS);
      CloseKeepsInv(DropFromWait(s, 0, Dropped(NoProcessedConfirmation)));
    }
  }

  lemma StepKeepsInv(s: State, e: Event)
    requires Inv(s)
    ensures Inv(Step(s, e))
  {
    match e
    case Submit(kind, ident, deadline) => SubmitKeepsInv(s, kind, ident, deadline);
    case Flush(connected, capacity, now) =>
      var count := if !connected then 0 else if capacity < |s.out| then capacity else |s.out|;
      SendPrefixKeepsInv(s, count);
      SweepOutKeepsInv(SendPrefix(s, count), now, 0);
    case Acknowledge(number, now) => AcknowledgeKeepsInv(s, number, now);
    case DropAll => DropTicketsKeepsInv(s);
    case Close => CloseKeepsInv(s);
  }

  lemma {:induction false} RunKeepsInv(events: seq<Event>)
    ensures Inv(Run(events))
  {
    if events != [] {
      RunKeepsInv(events[..|events| - 1]);
      StepKeepsInv(Run(events[..|events| - 1]), events[|events| - 1]);
    }
  }
}
