/**
 One location in the cache of the logic engine: when it counts as dirty, when it is written, when
 a write confirms it, and when it is dropped.
 */
module LocationCache {
  import opened Wrappers

  /** Why a write was asked for. */
  datatype Reason = ForSystemMessage | ForChange | ForShutdown | ForErasure | ForFlush

  /**
   A loaded location: its contents in the logic library, what the engine keeps about it, the
   contents each outstanding write carries, and the contents last read or confirmed as written.
   */
  datatype Entry = Entry(
    memory: string,
    lastAccess: nat,
    lastWrite: nat,
    dirty: bool,
    error: bool,
    released: bool,
    writes: map<nat, string>,
    confirmed: string,
    readyToClose: bool)

  type State = Option<Entry>

  function Loaded(data: string, now: nat): Entry {
    Entry(data, now, 0, false, false, false, map[], data, false)
  }

  // ----- handlers -----

  /** A read is answered: a failure drops the location, a success loads it if it is not there. */
  function AnswerRead(s: State, ok: bool, data: string, now: nat): State {
    if !ok then None else if s.None? then Some(Loaded(data, now)) else s
  }

  /** A message is handled, well or not, and leaves the location with some contents. */
  function HandleMessage(s: State, ok: bool, memory: string, now: nat): State {
    if s.None? || s.value.error then s
    else
      var e := s.value;
      Some(e.(memory := memory, error := !ok, lastAccess := now, dirty := true,
              lastWrite := if e.dirty then e.lastWrite else now))
  }

  /** A player connects, which may modify the location; only game states are kept track of. */
  function HandleConnect(s: State, modified: bool, memory: string, now: nat, gamestate: bool): State {
    if s.None? || s.value.error then s
    else
      var e := s.value.(memory := if modified then memory else s.value.memory);
      if !gamestate then Some(e)
      else Some(e.(lastAccess := now, dirty := e.dirty || modified, lastWrite := if modified then now else e.lastWrite))
  }

  /** A write is answered. */
  function AnswerWrite(s: State, taskid: nat, ok: bool, data: string, now: nat, reason: Reason): State {
    if s.None? then s
    else
      var e := s.value.(writes := s.value.writes - {taskid});
      var f := if ok then e.(dirty := e.writes != map[], lastWrite := now, confirmed := data) else e;
      Some(f.(error := f.error || (reason == ForChange && !ok),
              readyToClose := f.readyToClose || reason == ForShutdown))
  }

  /**
   A write is asked for.  If the logic library gives no snapshot, that counts as a failed write, except
   that a location which is no game state need not be saved at shutdown.  Unless some write is
   outstanding, contents that are confirmed already are not written.
   */
  function AskWrite(s: State, id: int, taskid: nat, taken: bool, now: nat, reason: Reason): State {
    if s.None? then s
    else if !taken then AnswerWrite(s, taskid, reason.ForShutdown? && id == 0, "", now, reason)
    else if s.value.writes == map[] && s.value.memory == s.value.confirmed then
      AnswerWrite(s, taskid, true, s.value.memory, now, reason)
    else Some(s.value.(writes := s.value.writes[taskid := s.value.memory]))
  }

  /**
   The regular look for changes to write; `id` is the number of the game state a location holds, 0
   for other locations.
   */
  function WriteChanged(s: State, id: int, taskid: nat, taken: bool, now: nat, delay: nat): State {
    if id != 0 && s.Some? && s.value.dirty && s.value.lastWrite + delay < now && s.value.writes == map[] then
      AskWrite(s, id, taskid, taken, now, ForChange)
    else s
  }

  predicate IsUnused(e: Entry, id: int, now: nat, period: nat) {
    if id > 0 then e.lastAccess + period < now || e.error else e.released
  }

  /** A dirty game state is written before it is dropped, unless it is in error and nothing is being written. */
  predicate MustWrite(e: Entry, id: int, unused: bool, connected: bool) {
    id > 0 && e.dirty && (unused || !connected) && (!e.error || e.writes != map[])
  }

  /** The regular look for locations nobody uses. */
  function EraseOld(s: State, id: int, taskid: nat, taken: bool, force: bool, now: nat, period: nat,
                    connected: bool): State {
    if s.None? then s
    else
      var e := s.value;
      var unused := IsUnused(e, id, now, period);
      if !force && !unused then s
      else if MustWrite(e, id, unused, connected) then
        if e.writes == map[] then AskWrite(s, id, taskid, taken, now, ForErasure) else s
      else if id == 0 && (!e.released || e.writes != map[]) then s
      else if connected then s
      else None
  }

  /** Whether closing down may drop a location: an answered last write, a clean game state, or the deadline. */
  predicate MayClose(e: Entry, id: int, now: nat, deadline: nat) {
    e.readyToClose || (id > 0 && !e.dirty) || now > deadline
  }

  /** The look at a location while its group closes down. */
  function CloseDown(s: State, id: int, taskid: nat, taken: bool, now: nat, deadline: nat): State {
    if s.None? then s
    else if MayClose(s.value, id, now, deadline) then None
    else if s.value.writes == map[] && (id > 0 || s.value.released) then
      AskWrite(s, id, taskid, taken, now, ForShutdown)
    else s
  }

  // ----- runs -----

  datatype Event =
    | ReadAnswered(ok: bool, data: string, now: nat)
    | Message(ok: bool, memory: string, now: nat)
    | Connect(modified: bool, memory: string, now: nat)
    | Ask(taskid: nat, taken: bool, now: nat, reason: Reason)
    | WriteAnswered(taskid: nat, ok: bool, data: string, now: nat, reason: Reason)
    | LookForChanges(taskid: nat, taken: bool, now: nat, delay: nat)
    | LookForOld(taskid: nat, taken: bool, force: bool, now: nat, period: nat, connected: bool)
    | Closing(taskid: nat, taken: bool, now: nat, deadline: nat)

  /** A location takes a step; `id` is the number of the game state it holds, 0 for other locations. */
  function StepOf(s: State, id: int, e: Event): State {
    match e
    case ReadAnswered(ok, data, now) => AnswerRead(s, ok, data, now)
    case Message(ok, memory, now) => HandleMessage(s, ok, memory, now)
    case Connect(modified, memory, now) => HandleConnect(s, modified, memory, now, id > 0)
    case Ask(taskid, taken, now, reason) => AskWrite(s, id, taskid, taken, now, reason)
    case WriteAnswered(taskid, ok, data, now, reason) => AnswerWrite(s, taskid, ok, data, now, reason)
    case LookForChanges(taskid, taken, now, delay) => WriteChanged(s, id, taskid, taken, now, delay)
    case LookForOld(taskid, taken, force, now, period, connected) =>
      EraseOld(s, id, taskid, taken, force, now, period, connected)
    case Closing(taskid, taken, now, deadline) => CloseDown(s, id, taskid, taken, now, deadline)
  }

  /** Any game state: what it does depends on its number only by being positive. */
  const SOME_ID := 1

  /** A game state takes a step. */
  function Step(s: State, e: Event): State {
    StepOf(s, SOME_ID, e)
  }

  function Run(events: seq<Event>): State {
    if events == [] then None else Step(Run(events[..|events| - 1]), events[|events| - 1])
  }

  /** Nothing changes the contents while a write is outstanding. */
  predicate Quiet(s: State, e: Event) {
    s.Some? && s.value.writes != map[] && !s.value.error ==> !e.Message? && !(e.Connect? && e.modified)
  }

  /**
   A write is answered while it is outstanding, with the contents of one that is, as the newest
   answers for older ones.
   */
  predicate Answers(s: State, e: Event) {
    e.WriteAnswered? && s.Some? ==>
      e.taskid in s.value.writes && exists id | id in s.value.writes :: s.value.writes[id] == e.data
  }

  predicate AllQuiet(events: seq<Event>) {
    forall i | 0 <= i < |events| :: Quiet(Run(events[..i]), events[i]) && Answers(Run(events[..i]), events[i])
  }

  /** What is not dirty is confirmed, and outstanding writes carry the present contents. */
  predicate Faithful(s: State) {
    s.Some? ==>
      && (!s.value.dirty ==> s.value.memory == s.value.confirmed)
      && forall id | id in s.value.writes :: s.value.writes[id] == s.value.memory
  }

  lemma StepKeepsFaithful(s: State, e: Event)
    requires Faithful(s) && Quiet(s, e) && Answers(s, e)
    ensures Faithful(Step(s, e))
  {
    if e.WriteAnswered? && s.Some? {
      AnswerKeepsFaithful(s, e.taskid, e.ok, e.data, e.now, e.reason);
    }
  }

  lemma AnswerKeepsFaithful(s: State, taskid: nat, ok: bool, data: string, now: nat, reason: Reason)
    requires Faithful(s) && s.Some? && exists id | id in s.value.writes :: s.value.writes[id] == data
    ensures Faithful(AnswerWrite(s, taskid, ok, data, now, reason))
  {
    var id :| id in s.value.writes && s.value.writes[id] == data;
  }

  lemma QuietBefore(events: seq<Event>)
    requires events != [] && AllQuiet(events)
    ensures var before, last := events[..|events| - 1], events[|events| - 1];
      AllQuiet(before) && Quiet(Run(before), last) && Answers(Run(before), last)
  {
    var before := events[..|events| - 1];
    forall i | 0 <= i < |before|
      ensures Quiet(Run(before[..i]), before[i]) && Answers(Run(before[..i]), before[i])
    {
      assert before[..i] == events[..i] && before[i] == events[i];
    }
  }

  /** In a quiet run, a location that is not dirty has its contents confirmed. */
  lemma {:induction false} QuietRunIsFaithful(events: seq<Event>)
    requires AllQuiet(events)
    ensures Faithful(Run(events))
  {
    if events != [] {
      var before := events[..|events| - 1];
      QuietBefore(events);
      QuietRunIsFaithful(before);
      StepKeepsFaithful(Run(before), events[|events| - 1]);
    }
  }

  /** The look for old locations drops a game state only if it is not dirty, or in error with nothing being written. */
  lemma DroppedIsCleanOrInError(s: State, id: int, taskid: nat, taken: bool, force: bool, now: nat, period: nat,
                                connected: bool)
    requires id > 0 && s.Some? && EraseOld(s, id, taskid, taken, force, now, period, connected).None?
    ensures !connected && (!s.value.dirty || (s.value.error && s.value.writes == map[]))
  {
  }

  /** So in a quiet run it loses nothing but the contents of a location in error. */
  lemma DropLosesNothing(events: seq<Event>, e: Event)
    requires AllQuiet(events) && e.LookForOld? && Run(events).Some? && Step(Run(events), e).None?
    ensures var s := Run(events).value; s.memory == s.confirmed || (s.error && s.writes == map[])
  {
    var s := Run(events);
    QuietRunIsFaithful(events);
    assert EraseOld(s, SOME_ID, e.taskid, e.taken, e.force, e.now, e.period, e.connected).None?;
    DroppedIsCleanOrInError(s, SOME_ID, e.taskid, e.taken, e.force, e.now, e.period, e.connected);
  }

  /**
   Closing down drops changes that are not confirmed exactly if the deadline has passed or a last
   write has been answered.
   */
  lemma ClosingLosesChangesIff(events: seq<Event>, taskid: nat, taken: bool, now: nat, deadline: nat)
    requires AllQuiet(events) && Run(events).Some? && Run(events).value.memory != Run(events).value.confirmed
    ensures CloseDown(Run(events), SOME_ID, taskid, taken, now, deadline).None? <==>
      Run(events).value.readyToClose || now > deadline
  {
    QuietRunIsFaithful(events);
  }

  /**
   A last write counts as answered even if it failed, so the next look drops the changes it carried,
   well before the deadline.
   */
  lemma FailedLastWriteLosesChanges(s: State, taskid: nat, now: nat, deadline: nat)
    requires Faithful(s) && s.Some? && s.value.memory != s.value.confirmed && s.value.writes == map[]
    requires !s.value.readyToClose && now <= deadline
    ensures var asked := CloseDown(s, SOME_ID, taskid, true, now, deadline);
      var answered := AnswerWrite(asked, taskid, false, s.value.memory, now, ForShutdown);
      && asked.Some? && answered.Some? && answered.value.memory == s.value.memory
      && answered.value.memory != answered.value.confirmed
      && CloseDown(answered, SOME_ID, taskid + 1, true, now, deadline).None?
  {
    assert s.value.dirty;
  }

  // ----- exactly when answers can hide a change -----

  /** A location after its writes have been answered one after another. */
  function Answered(s: State, answers: seq<Event>): State
    decreases |answers|
  {
    if answers == [] then s else Answered(Step(s, answers[0]), answers[1..])
  }

  /** Nothing happens but that outstanding writes are answered. */
  predicate AllAnswers(s: State, answers: seq<Event>)
    decreases |answers|
  {
    || answers == []
    || (answers[0].WriteAnswered? && Answers(s, answers[0]) && AllAnswers(Step(s, answers[0]), answers[1..]))
  }

  /** Not dirty, although the contents are not those confirmed: the change will be lost. */
  predicate HidesChange(s: State) {
    s.Some? && !s.value.dirty && s.value.memory != s.value.confirmed
  }

  ghost predicate MayHideChange(s: State) {
    exists answers: seq<Event> :: AllAnswers(s, answers) && HidesChange(Answered(s, answers))
  }

  lemma {:induction false} AnswersKeepFaithful(s: State, answers: seq<Event>)
    requires Faithful(s) && AllAnswers(s, answers)
    ensures Faithful(Answered(s, answers))
    decreases |answers|
  {
    if answers != [] {
      StepKeepsFaithful(s, answers[0]);
      AnswersKeepFaithful(Step(s, answers[0]), answers[1..]);
    }
  }

  lemma AnswersNext(s: State, e: Event, rest: seq<Event>)
    requires e.WriteAnswered? && Answers(s, e) && AllAnswers(Step(s, e), rest)
    ensures AllAnswers(s, [e] + rest) && Answered(s, [e] + rest) == Answered(Step(s, e), rest)
  {
    assert ([e] + rest)[1..] == rest;
  }

  /** The last outstanding write carries other contents than there are now: its success hides the change. */
  lemma StaleSuccessHides(s: State, id: nat) returns (answers: seq<Event>)
    requires s.Some? && s.value.writes.Keys == {id} && s.value.writes[id] != s.value.memory
    ensures AllAnswers(s, answers) && HidesChange(Answered(s, answers))
  {
    var e := WriteAnswered(id, true, s.value.writes[id], 0, ForFlush);
    assert (s.value.writes - {id}).Keys == {};
    AnswersNext(s, e, []);
    answers := [e] + [];
  }

  /** Any other outstanding writes may fail before. */
  lemma {:induction false} StaleWriteMayHide(s: State, id: nat) returns (answers: seq<Event>)
    requires s.Some? && id in s.value.writes && s.value.writes[id] != s.value.memory
    ensures AllAnswers(s, answers) && HidesChange(Answered(s, answers))
    decreases |s.value.writes.Keys|
  {
    if other :| other in s.value.writes && other != id {
      var e := WriteAnswered(other, false, s.value.writes[other], 0, ForFlush);
      assert (s.value.writes - {other}).Keys == s.value.writes.Keys - {other};
      var rest := StaleWriteMayHide(Step(s, e), id);
      AnswersNext(s, e, rest);
      answers := [e] + rest;
    } else {
      assert s.value.writes.Keys == {id};
      answers := StaleSuccessHides(s, id);
    }
  }

  /**
   The answers of the outstanding writes can leave a changed location marked as clean exactly if one of
   them carries other contents than the location has now.
   */
  lemma ChangeMayBeHiddenIff(s: State)
    requires s.Some? && (!s.value.dirty ==> s.value.memory == s.value.confirmed)
    ensures MayHideChange(s) <==> exists id :: id in s.value.writes && s.value.writes[id] != s.value.memory
  {
    if id :| id in s.value.writes && s.value.writes[id] != s.value.memory {
      var answers := StaleWriteMayHide(s, id);
    } else {
      forall answers: seq<Event> | AllAnswers(s, answers)
        ensures !HidesChange(Answered(s, answers))
      {
        AnswersKeepFaithful(s, answers);
      }
    }
  }

  /**
   A message that is handled between the snapshot of a write and its confirmation is lost when the
   location is dropped.
   */
  lemma ChangeDuringWriteIsLost(data: string, first: string, second: string, t: nat, period: nat)
    requires data != first && first != second
    ensures var events := [ReadAnswered(true, data, t), Message(true, first, t), Ask(1, true, t, ForFlush),
                           Message(true, second, t),
                           WriteAnswered(1, true, first, t, ForFlush)];
      && Run(events).Some? && Run(events).value.memory == second && Run(events).value.confirmed == first
      && !Run(events).value.dirty
      && Step(Run(events), LookForOld(2, true, false, t + period + 1, period, false)) == None
  {
    var e1, e2, e3 := ReadAnswered(true, data, t), Message(true, first, t), Ask(1, true, t, ForFlush);
    var e4, e5 := Message(true, second, t), WriteAnswered(1, true, first, t, ForFlush);
    assert [] + [e1] == [e1] && [e1] + [e2] == [e1, e2] && [e1, e2] + [e3] == [e1, e2, e3];
    assert [e1, e2, e3] + [e4] == [e1, e2, e3, e4] && [e1, e2, e3, e4] + [e5] == [e1, e2, e3, e4, e5];
    RunNext([], e1);
    RunNext([e1], e2);
    RunNext([e1, e2], e3);
    RunNext([e1, e2, e3], e4);
    RunNext([e1, e2, e3, e4], e5);
    assert Run([e1, e2, e3]).value.writes == map[1 := first];
    assert Run([e1, e2, e3, e4]).value.writes - {1} == map[];
  }

  lemma RunNext(events: seq<Event>, e: Event)
    ensures Run(events + [e]) == Step(Run(events), e)
  {
    assert (events + [e])[..|events|] == events;
  }
}
