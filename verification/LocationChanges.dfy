/**
 What the steps of a cached location change and what they leave alone, told field by field.
 */
module LocationChanges {
  import opened Wrappers
  import opened LocationCache

  // ----- loading -----

  /** Only a successful read loads a location, with exactly the data read, clean and with nothing outstanding. */
  lemma LoadedByReading(id: int, e: Event)
    ensures StepOf(None, id, e).Some? <==> e.ReadAnswered? && e.ok
    ensures e.ReadAnswered? && e.ok ==>
      StepOf(None, id, e) == Some(Entry(e.data, e.now, 0, false, false, false, map[], e.data, false))
  {
  }

  /** A read that is answered for a loaded location leaves it as it is, or drops it if the read failed. */
  lemma ReadOverwritesNothing(s: State, id: int, e: Event)
    requires s.Some? && e.ReadAnswered?
    ensures StepOf(s, id, e) == if e.ok then s else None
  {
  }

  // ----- contents -----

  /** Whether a step gives a location new contents. */
  predicate Changes(e: Event) {
    e.Message? || (e.Connect? && e.modified)
  }

  /** Whether a step confirms contents as written. */
  predicate Confirms(e: Event) {
    e.WriteAnswered? && e.ok
  }

  /** The contents of a loaded location change by messages and modifying connections only, and to what those give. */
  lemma ContentsChangeByHandlers(s: State, id: int, e: Event)
    requires s.Some? && StepOf(s, id, e).Some?
    ensures StepOf(s, id, e).value.memory == if Changes(e) && !s.value.error then e.memory else s.value.memory
  {
  }

  /** The confirmed contents of a game state change by successful writes only, and to what those wrote. */
  lemma ConfirmedByWrites(s: State, id: int, e: Event)
    requires id != 0 && s.Some? && StepOf(s, id, e).Some?
    ensures StepOf(s, id, e).value.confirmed == if Confirms(e) then e.data else s.value.confirmed
  {
  }

  /** Other locations also count as confirmed if they give no snapshot at shutdown. */
  lemma OthersConfirmedByWrites(s: State, e: Event)
    requires s.Some? && StepOf(s, 0, e).Some?
    requires e.Ask? ==> e.taken || !e.reason.ForShutdown?
    requires e.Closing? ==> e.taken
    ensures StepOf(s, 0, e).value.confirmed == if Confirms(e) then e.data else s.value.confirmed
  {
  }

  // ----- dirtiness -----

  /**
   A handled change makes a game state dirty.  A dirty one becomes clean only if no write is outstanding any
   more and the last was successful, or if nothing has to be written, as its contents are those confirmed.
   */
  lemma DirtyUntilWritten(s: State, id: int, e: Event)
    requires id > 0 && s.Some? && StepOf(s, id, e).Some?
    ensures var before, after := s.value, StepOf(s, id, e).value;
      && (Changes(e) && !before.error ==> after.dirty)
      && (before.dirty && !after.dirty ==>
        after.writes == map[] && (Confirms(e) || (before.writes == map[] && before.memory == before.confirmed)))
      && (!before.dirty && after.dirty ==> (Changes(e) && !before.error) || (Confirms(e) && after.writes != map[]))
  {
  }

  /** A change starts the delay before the next write; further messages do not put it off. */
  lemma DelayStartsOnce(s: State, id: int, e: Event)
    requires s.Some? && !s.value.error && e.Message?
    ensures var before, after := s.value, StepOf(s, id, e).value;
      after.dirty && after.lastAccess == e.now && after.lastWrite == if before.dirty then before.lastWrite else e.now
  {
  }

  /** A player who connects to a game state uses it, and one who modifies it puts the next write off. */
  lemma ConnectingUses(s: State, id: int, e: Event)
    requires s.Some? && !s.value.error && e.Connect?
    ensures var before, after := s.value, StepOf(s, id, e).value;
      && after.lastAccess == (if id > 0 then e.now else before.lastAccess)
      && after.lastWrite == (if id > 0 && e.modified then e.now else before.lastWrite)
      && after.dirty == (before.dirty || (id > 0 && e.modified))
  {
  }

  /** A location gets into error by a failed message or a failed regular write, and stays there. */
  lemma ErrorStays(s: State, id: int, e: Event)
    requires s.Some? && StepOf(s, id, e).Some?
    ensures var before, after := s.value, StepOf(s, id, e).value;
      && (before.error ==> after.error)
      && (e.Message? ==> after.error == (before.error || !e.ok))
      && (e.WriteAnswered? ==> after.error == (before.error || (!e.ok && e.reason == ForChange)))
      && (e.Connect? ==> after.error == before.error)
  {
  }

  // ----- outstanding writes -----

  lemma AskedWrites(s: State, id: int, taskid: nat, taken: bool, now: nat, reason: Reason)
    requires s.Some?
    ensures var before, asked := s.value.writes, AskWrite(s, id, taskid, taken, now, reason);
      && asked.Some?
      && (asked.value.writes == before || asked.value.writes == before[taskid := s.value.memory] ||
        asked.value.writes == before - {taskid})
  {
  }

  /** A write that becomes outstanding carries the present contents; the others stay as they are. */
  lemma WritesCarryContents(s: State, id: int, e: Event)
    requires s.Some? && StepOf(s, id, e).Some? && !e.WriteAnswered?
    ensures var before, after := s.value.writes, StepOf(s, id, e).value.writes;
      after == before || after == before[e.taskid := s.value.memory] || after == before - {e.taskid}
  {
    match e
    case Ask(taskid, taken, now, reason) => AskedWrites(s, id, taskid, taken, now, reason);
    case LookForChanges(taskid, taken, now, delay) => AskedWrites(s, id, taskid, taken, now, ForChange);
    case LookForOld(taskid, taken, force, now, period, connected) =>
      AskedWrites(s, id, taskid, taken, now, ForErasure);
    case Closing(taskid, taken, now, deadline) => AskedWrites(s, id, taskid, taken, now, ForShutdown);
    case _ =>
  }

  /** A write that is answered is no longer outstanding; the others are. */
  lemma AnsweredIsNotOutstanding(s: State, id: int, e: Event, task: nat)
    requires s.Some? && e.WriteAnswered?
    ensures var before, after := s.value.writes, StepOf(s, id, e).value.writes;
      task in after <==> task in before && task != e.taskid
  {
  }

  /**
   The regular look writes exactly the dirty game states past their delay that have no write outstanding; the
   others it leaves alone.
   */
  lemma ChangedIsWritten(s: State, id: int, e: Event)
    requires e.LookForChanges? && s.Some?
    ensures var x := s.value;
      var due := id != 0 && x.dirty && x.lastWrite + e.delay < e.now && x.writes == map[];
      && (!due ==> StepOf(s, id, e) == s)
      && (due && e.taken && x.memory != x.confirmed ==>
        StepOf(s, id, e) == Some(x.(writes := map[e.taskid := x.memory])))
      && (due && e.taken && x.memory == x.confirmed ==>
        StepOf(s, id, e) == Some(x.(dirty := false, lastWrite := e.now)))
      && (due && !e.taken ==> StepOf(s, id, e) == Some(x.(error := true)))
  {
    if s.value.writes == map[] {
      assert s.value.(writes := s.value.writes - {e.taskid}) == s.value;
    }
  }

  // ----- dropping -----

  /**
   The look for old locations drops, where nobody is connected, a game state that is forced out, unused or in
   error, unless it is dirty and not given up, and any other location exactly if it is released and unwritten.
   */
  lemma DroppedExactlyIf(s: State, id: nat, e: Event)
    requires e.LookForOld? && s.Some?
    ensures var x := s.value;
      StepOf(s, id, e).None? <==>
        && !e.connected
        && (id == 0 ==> x.released && x.writes == map[])
        && (id > 0 ==>
          (e.force || x.lastAccess + e.period < e.now || x.error) && (!x.dirty || (x.error && x.writes == map[])))
  {
  }

  /** A dirty game state that is to be dropped is written first. */
  lemma OldIsWrittenFirst(s: State, id: int, e: Event)
    requires e.LookForOld? && s.Some? && id > 0 && e.taken
    requires s.value.dirty && !s.value.error && s.value.writes == map[] && s.value.memory != s.value.confirmed
    ensures var x := s.value;
      var old' := x.lastAccess + e.period < e.now;
      StepOf(s, id, e) ==
        if old' || (e.force && !e.connected) then Some(x.(writes := map[e.taskid := x.memory])) else s
  {
  }

  /**
   Closing down drops a location whose last write has been answered, a clean game state, and everything past
   the deadline; dirty game states and released locations are written once more.
   */
  lemma ClosedExactlyIf(s: State, id: nat, e: Event)
    requires e.Closing? && s.Some?
    ensures var x := s.value;
      var dropped := x.readyToClose || (id > 0 && !x.dirty) || e.now > e.deadline;
      && (StepOf(s, id, e).None? <==> dropped)
      && (!dropped && (x.writes != map[] || (id == 0 && !x.released)) ==> StepOf(s, id, e) == s)
      && (!dropped && x.writes == map[] && (id > 0 || x.released) && e.taken && x.memory != x.confirmed ==>
        StepOf(s, id, e) == Some(x.(writes := map[e.taskid := x.memory])))
  {
  }

  /** Without a snapshot, the look for old locations leaves a game state that must be written as it is. */
  lemma OldWithoutSnapshot(s: State, id: int, e: Event)
    requires e.LookForOld? && s.Some? && id > 0 && !e.taken && s.value.dirty && !s.value.error
    ensures StepOf(s, id, e) == s
  {
    if s.value.writes == map[] {
      assert s.value.(writes := s.value.writes - {e.taskid}) == s.value;
    }
  }

  /** Without a snapshot, closing down gives a dirty game state up, and counts a released location as saved. */
  lemma ClosingWithoutSnapshot(s: State, id: nat, e: Event)
    requires e.Closing? && s.Some? && !e.taken && e.now <= e.deadline && !s.value.readyToClose &&
      s.value.writes == map[]
    ensures id > 0 && s.value.dirty ==> StepOf(s, id, e) == Some(s.value.(readyToClose := true))
    ensures id == 0 && s.value.released ==>
      StepOf(s, id, e) ==
        Some(s.value.(readyToClose := true, dirty := false, lastWrite := e.now, confirmed := ""))
  {
    assert s.value.(writes := s.value.writes - {e.taskid}) == s.value;
  }

  /** Only an answered last write marks a location as ready to be closed. */
  lemma ReadyByLastWrite(s: State, id: int, e: Event)
    requires s.Some? && StepOf(s, id, e).Some? && !s.value.readyToClose
    requires e.Ask? || e.Closing? ==> e.taken && s.value.memory != s.value.confirmed
    ensures StepOf(s, id, e).value.readyToClose <==> e.WriteAnswered? && e.reason == ForShutdown
  {
  }

  // ----- runs -----

  function RunFrom(s: State, id: int, events: seq<Event>): State {
    if events == [] then s else StepOf(RunFrom(s, id, events[..|events| - 1]), id, events[|events| - 1])
  }

  /** The location stays loaded, and no step gives it new contents or confirms any. */
  predicate Undisturbed(s: State, id: int, events: seq<Event>) {
    && s.Some?
    && (events != [] ==>
      var before, last := events[..|events| - 1], events[|events| - 1];
      && Undisturbed(s, id, before) && !Changes(last) && !Confirms(last)
      && RunFrom(s, id, events).Some?)
  }

  /**
   However often a loaded game state is read again, asked for, looked at or fails to be written: until the next
   message, modifying connection or successful write it has the same contents, and a change that is not confirmed
   stays marked.
   */
  lemma {:induction false} UnsavedChangeStaysMarked(s: State, id: int, events: seq<Event>)
    requires id > 0 && Undisturbed(s, id, events)
    ensures var after := RunFrom(s, id, events);
      && after.Some? && after.value.memory == s.value.memory && after.value.confirmed == s.value.confirmed
      && (s.value.dirty && s.value.memory != s.value.confirmed ==> after.value.dirty)
  {
    if events != [] {
      var before, last := events[..|events| - 1], events[|events| - 1];
      UnsavedChangeStaysMarked(s, id, before);
      ContentsChangeByHandlers(RunFrom(s, id, before), id, last);
      ConfirmedByWrites(RunFrom(s, id, before), id, last);
      DirtyUntilWritten(RunFrom(s, id, before), id, last);
    }
  }
}
