/**
 What holds of a location's database tasks over every run of workers and owners.
 */
module LocationTheorems {
  import opened Wrappers
  import opened Sequences
  import opened LocationQueue

  // ----- deadlines, running tasks, passes -----

  /** The cached deadlines are exact minima after every run, 0 exactly if there is no such task. */
  lemma CachedDeadlinesAreMinima(events: seq<Event>, read: bool)
    requires AllProper(events)
    ensures var lane := if read then Run(events).tasks.read else Run(events).tasks.write;
      && (lane.deadline == 0 <==> lane.queue == [])
      && (lane.priorityDeadline == 0 <==> forall t | t in lane.queue :: !t.priority)
      && (forall t | t in lane.queue ::
        lane.deadline <= t.deadline && (t.priority ==> lane.priorityDeadline <= t.deadline))
      && (lane.deadline != 0 ==> exists t | t in lane.queue :: t.deadline == lane.deadline)
      && (lane.priorityDeadline != 0 ==>
        exists t | t in lane.queue :: t.priority && t.deadline == lane.priorityDeadline)
  {
    RunKeepsInv(events);
    var lane := if read then Run(events).tasks.read else Run(events).tasks.write;
    LeastIsMinimum(lane.queue);
    LeastPriorityIsMinimum(lane.queue);
    assert forall i | 0 <= i < |lane.queue| :: lane.queue[i] in lane.queue;
  }

  /** At most one task of a location runs; it stays queued, and its entry stays, until its result is in. */
  lemma OneRunsAndStaysQueued(events: seq<Event>, now: nat)
    requires AllProper(events)
    ensures var s := Run(events);
      && (s.tasks.read.running == 0 || s.tasks.write.running == 0)
      && (s.current.None? <==> !Busy(s.tasks))
      && (s.current.Some? ==>
            var lane := if IsRead(s.current.value.direction) then s.tasks.read else s.tasks.write;
            lane.running == s.current.value.taskid && s.current.value in lane.queue &&
              !Idle(ExpireTasks(s.tasks, now), now))
  {
    RunKeepsInv(events);
    ExpireKeepsRunning(Run(events), now);
    var s := Run(events);
    if s.current.Some? {
      var lane := if IsRead(s.current.value.direction) then s.tasks.read else s.tasks.write;
      var i :| 0 <= i < |lane.queue| && lane.queue[i] == s.current.value;
    }
  }

  /** A task without priority starts only if its lane has none with priority, and it is then the newest of all. */
  lemma PriorityGoesFirst(events: seq<Event>, pass: nat, now: nat)
    requires AllProper(events) && (pass == 2 || pass == 3) && CanStart(Run(events).tasks, pass, now)
    ensures var q, t := LaneOf(Run(events).tasks, pass).queue, Run(events + [Start(pass, now)]).current;
      t.Some? && t.value in q && forall other | other in q :: !other.priority && other.taskid <= t.value.taskid
  {
    RunKeepsInv(events);
    var tasks := Run(events).tasks;
    assert (events + [Start(pass, now)])[..|events|] == events;
    PriorityPassIsReadyFirst(tasks, pass, now);
    assert Bid(tasks, 3 - pass, now) == 0;
    LeastPriorityIsMinimum(LaneOf(tasks, pass).queue);
    BidHasTask(tasks, pass, now);
  }

  // ----- the order in which writes succeed -----

  /** Tasks of one owning group carry ever larger numbers. */
  predicate NumberedInOrder(events: seq<Event>) {
    forall i, j | 0 <= i < j < |events| && events[i].Add? && events[j].Add? ::
      events[i].task.taskid < events[j].task.taskid
  }

  /** Every queued task older than `current` is covered by it. */
  predicate CoversOlder(q: seq<Task>, current: Task) {
    forall i | 0 <= i < |q| && q[i].taskid < current.taskid :: Takes(CoveredBy(current), q[i])
  }

  /** A successful write leaves nothing older queued. */
  predicate Orderly(s: State, e: Event) {
    e.Finish? && e.status == OK && s.current.Some? && !IsRead(s.current.value.direction) ==>
      CoversOlder(s.tasks.write.queue, s.current.value)
  }

  predicate AllOrderly(events: seq<Event>) {
    forall i | 0 <= i < |events| :: Orderly(Run(events[..i]), events[i])
  }

  predicate Ascending(q: seq<Task>) {
    forall i, j | 0 <= i < j < |q| :: q[i].taskid < q[j].taskid
  }

  predicate Between(q: seq<Task>, low: int, high: int) {
    forall i | 0 <= i < |q| :: low < q[i].taskid < high
  }

  function LastId(q: seq<Task>): nat {
    if q == [] then 0 else q[|q| - 1].taskid
  }

  /** Queued writes are newer than all that succeeded, and older than whatever comes with number `bound` or above. */
  predicate Ordered(s: State, bound: nat) {
    && Ascending(s.tasks.write.queue) && Between(s.tasks.write.queue, LastId(s.written), bound)
    && Ascending(s.written) && LastId(s.written) < bound
  }

  lemma AppendOrdered(q: seq<Task>, t: Task, low: int, high: int)
    requires Ascending(q) && Between(q, low, t.taskid) && low < t.taskid < high
    ensures Ascending(q + [t]) && Between(q + [t], low, high)
  {
  }

  lemma {:induction false} LeftAscending(q: seq<Task>, rule: Rule, low: int, high: int)
    requires Ascending(q) && Between(q, low, high)
    ensures Ascending(Left(q, rule)) && Between(Left(q, rule), low, high)
  {
    if q != [] {
      var rest, last := q[..|q| - 1], q[|q| - 1];
      assert forall i | 0 <= i < |rest| :: rest[i] == q[i];
      LeftAscending(rest, rule, low, last.taskid);
      AppendOrdered(Left(rest, rule), last, low, high);
      assert Left(rest, rule) + [] == Left(rest, rule);
    }
  }

  lemma UncoveredIsNewer(q: seq<Task>, current: Task)
    requires Ascending(q) && current in q && CoversOlder(q, current)
    ensures forall t | t in Left(q, CoveredBy(current)) :: t.taskid > current.taskid
  {
    LeftTakenMembers(q, CoveredBy(current));
    forall t | t in q && !Takes(CoveredBy(current), t)
      ensures t.taskid > current.taskid
    {
      var a, b :| 0 <= a < |q| && q[a] == t && 0 <= b < |q| && q[b] == current;
    }
  }

  lemma NothingOlderLeft(q: seq<Task>, current: Task, high: int)
    requires Ascending(q) && Between(q, -1, high) && current in q && CoversOlder(q, current)
    ensures Ascending(Left(q, CoveredBy(current))) && Between(Left(q, CoveredBy(current)), current.taskid, high)
  {
    LeftAscending(q, CoveredBy(current), -1, high);
    UncoveredIsNewer(q, current);
    assert forall i | 0 <= i < |Left(q, CoveredBy(current))| ::
      Left(q, CoveredBy(current))[i] in Left(q, CoveredBy(current));
  }

  lemma AscendingAppend(q: seq<Task>, t: Task)
    requires Ascending(q) && LastId(q) < t.taskid
    ensures Ascending(q + [t])
  {
    assert forall i | 0 <= i < |q| :: q[i].taskid <= q[|q| - 1].taskid;
  }

  lemma SuccessKeepsOrdered(q: seq<Task>, written: seq<Task>, current: Task, bound: nat)
    requires Ascending(q) && Between(q, LastId(written), bound) && Ascending(written)
    requires current in q && CoversOlder(q, current)
    ensures Ascending(Left(q, CoveredBy(current))) && Between(Left(q, CoveredBy(current)), current.taskid, bound)
    ensures Ascending(written + [current]) && current.taskid < bound
  {
    var b :| 0 <= b < |q| && q[b] == current;
    NothingOlderLeft(q, current, bound);
    AscendingAppend(written, current);
  }

  lemma FailureKeepsOrdered(q: seq<Task>, rule: Rule, low: int, high: int)
    requires Ascending(q) && Between(q, low, high)
    ensures Ascending(Tried(q, rule)) && Between(Tried(q, rule), low, high)
  {
  }

  lemma FinishKeepsOrdered(s: State, status: Status, now: nat, interval: nat, loaded: string, bound: nat)
    requires RunningIsQueued(s) && Ordered(s, bound) && Orderly(s, Finish(status, now, interval, loaded))
    ensures Ordered(Finished(s, status, now, interval, loaded), bound)
  {
    if s.current.Some? && !IsRead(s.current.value.direction) {
      if status == OK {
        SuccessKeepsOrdered(s.tasks.write.queue, s.written, s.current.value, bound);
      } else {
        FailureKeepsOrdered(s.tasks.write.queue, CoveredBy(s.current.value), LastId(s.written), bound);
      }
    }
  }

  lemma AddKeepsOrdered(s: State, t: Task, bound: nat)
    requires Ordered(s, bound) && t.taskid >= bound
    ensures Ordered(Added(s, t), t.taskid + 1)
  {
    if !IsRead(t.direction) {
      AscendingAppend(s.tasks.write.queue, t);
    }
  }

  lemma StepKeepsOrdered(s: State, e: Event, bound: nat)
    requires Inv(s) && Ordered(s, bound) && Orderly(s, e) && (e.Add? ==> e.task.taskid >= bound)
    ensures Ordered(Step(s, e), if e.Add? then e.task.taskid + 1 else bound)
  {
    match e
    case Add(t) => AddKeepsOrdered(s, t, bound);
    case Draw(interval) =>
    case Start(pass, now) =>
      if CanStart(s.tasks, pass, now) {
        StartsFromLane(s, pass, now);
      }
    case Finish(status, now, interval, loaded) => FinishKeepsOrdered(s, status, now, interval, loaded, bound);
    case Expire(now) =>
      LeftAscending(s.tasks.write.queue, LateWrite(s.tasks.write.running, now), LastId(s.written), bound);
  }

  /** The first number a run of ordered events has not reached. */
  function NextNumber(events: seq<Event>): nat {
    if events == [] then 1
    else if events[|events| - 1].Add? then events[|events| - 1].task.taskid + 1
    else NextNumber(events[..|events| - 1])
  }

  lemma {:induction false} NextNumberReached(events: seq<Event>)
    ensures NextNumber(events) == 1 || exists i | 0 <= i < |events| ::
      events[i].Add? && events[i].task.taskid + 1 == NextNumber(events)
  {
    if events != [] && !events[|events| - 1].Add? {
      var rest := events[..|events| - 1];
      NextNumberReached(rest);
      if NextNumber(rest) != 1 {
        var i :| 0 <= i < |rest| && rest[i].Add? && rest[i].task.taskid + 1 == NextNumber(rest);
        assert events[i] == rest[i];
      }
    }
  }

  lemma {:induction false} RunKeepsOrdered(events: seq<Event>)
    requires AllProper(events) && NumberedInOrder(events) && AllOrderly(events)
    ensures Ordered(Run(events), NextNumber(events))
  {
    if events != [] {
      var rest, last := events[..|events| - 1], events[|events| - 1];
      assert forall i | 0 <= i < |rest| :: rest[i] == events[i] && rest[..i] == events[..i];
      RunKeepsInv(rest);
      RunKeepsOrdered(rest);
      NextNumberReached(rest);
      assert Proper(last) && Orderly(Run(rest), last);
      StepKeepsOrdered(Run(rest), last, NextNumber(rest));
    }
  }

  /** If every success covers what is older, successful writes carry ever larger numbers. */
  lemma OrderlyWritesAscend(events: seq<Event>)
    requires AllProper(events) && NumberedInOrder(events) && AllOrderly(events)
    ensures Ascending(Run(events).written)
  {
    RunKeepsOrdered(events);
  }

  predicate OnlyWrites(events: seq<Event>) {
    forall i | 0 <= i < |events| && events[i].Add? && !IsRead(events[i].task.direction) ::
      events[i].task.direction == Write
  }

  predicate AllWrites(q: seq<Task>) {
    forall i | 0 <= i < |q| :: q[i].direction == Write
  }

  lemma LeftAllWrites(q: seq<Task>, rule: Rule)
    requires AllWrites(q)
    ensures AllWrites(Left(q, rule)) && AllWrites(Tried(q, rule))
  {
    LeftTakenMembers(q, rule);
    forall i | 0 <= i < |Left(q, rule)|
      ensures Left(q, rule)[i].direction == Write
    {
      assert Left(q, rule)[i] in q;
    }
  }

  lemma {:induction false} OnlyWritesQueued(events: seq<Event>)
    requires OnlyWrites(events)
    ensures AllWrites(Run(events).tasks.write.queue)
  {
    if events != [] {
      var rest, last := events[..|events| - 1], events[|events| - 1];
      assert forall i | 0 <= i < |rest| :: rest[i] == events[i];
      OnlyWritesQueued(rest);
      var s := Run(rest);
      match last
      case Add(t) =>
      case Draw(interval) =>
      case Start(pass, now) =>
      case Finish(status, now, interval, loaded) =>
        if s.current.Some? {
          LeftAllWrites(s.tasks.write.queue, CoveredBy(s.current.value));
        }
      case Expire(now) => LeftAllWrites(s.tasks.write.queue, LateWrite(s.tasks.write.running, now));
    }
  }

  /** With plain writes only, an older snapshot never succeeds after a newer one. */
  lemma SuccessfulWritesAscend(events: seq<Event>)
    requires AllProper(events) && NumberedInOrder(events) && OnlyWrites(events)
    ensures Ascending(Run(events).written)
  {
    forall i | 0 <= i < |events|
      ensures Orderly(Run(events[..i]), events[i])
    {
      var before := events[..i];
      RunKeepsInv(before);
      OnlyWritesQueued(before);
    }
    OrderlyWritesAscend(events);
  }

  // ----- where the order of successes breaks -----

  /** When the newest queued write succeeds, what it leaves queued is older, and exactly what it does not cover. */
  lemma NewestLeavesOlder(q: seq<Task>, current: Task)
    requires Ascending(q) && current in q && forall t | t in q :: t.taskid <= current.taskid
    ensures forall t | t in Left(q, CoveredBy(current)) :: t.taskid < current.taskid
    ensures Left(q, CoveredBy(current)) == [] <==> CoversOlder(q, current)
  {
    var left := Left(q, CoveredBy(current));
    LeftTakenMembers(q, CoveredBy(current));
    forall t | t in left
      ensures t.taskid < current.taskid
    {
      assert t in q && !Takes(CoveredBy(current), t);
      var a, b :| 0 <= a < |q| && q[a] == t && 0 <= b < |q| && q[b] == current;
    }
    if left != [] {
      assert left[0] in left;
      var a :| 0 <= a < |q| && q[a] == left[0];
    } else {
      assert forall i | 0 <= i < |q| :: q[i] in q;
    }
  }

  /**
   When the newest queued write succeeds, something is left to write exactly if something older was
   not covered, and then whatever write starts next is older.
   */
  lemma NextWriteIsOlder(s: State, now: nat, interval: nat, loaded: string, pass: nat, later: nat)
    requires Inv(s) && Ascending(s.tasks.write.queue)
    requires s.current.Some? && !IsRead(s.current.value.direction)
    requires forall t | t in s.tasks.write.queue :: t.taskid <= s.current.value.taskid
    ensures var s' := Finished(s, OK, now, interval, loaded);
      && (s'.tasks.write.queue == [] <==> CoversOlder(s.tasks.write.queue, s.current.value))
      && (PassWrites(pass) && CanStart(s'.tasks, pass, later) ==>
            var next := Started(s', pass, later).current;
            next.Some? && next.value.taskid < s.current.value.taskid)
  {
    var lane := FinishLane(s.tasks.write, CoveredBy(s.current.value), true, now);
    NewestLeavesOlder(s.tasks.write.queue, s.current.value);
    FinishLaneCached(s.tasks.write, CoveredBy(s.current.value), true, now);
    var tasks := Finished(s, OK, now, interval, loaded).tasks;
    assert tasks.write == lane;
    if PassWrites(pass) && CanStart(tasks, pass, later) {
      BidHasTask(tasks, pass, later);
      assert lane.queue[Newest(lane.queue, pass)] in lane.queue;
    }
  }

  lemma RunAppend(events: seq<Event>, e: Event)
    ensures Run(events + [e]) == Step(Run(events), e)
  {
    assert (events + [e])[..|events|] == events;
  }

  // ----- exactly when an older write lands after a newer one -----

  /** A time at which a lane has rested for a pass. */
  function Late(tasks: Tasks, pass: nat): nat {
    var lane := LaneOf(tasks, pass);
    lane.lastSuccess + Scaled(SuccessDelay(pass), tasks.interval)
    + lane.lastFail + Scaled(FailureDelay(pass, lane.fails), tasks.interval)
  }

  /** Whatever is queued can start sooner or later; a write can if nothing with precedence is queued. */
  lemma LaneStarts(tasks: Tasks, pass: nat) returns (start: nat, now: nat)
    requires Cached(tasks.read) && Cached(tasks.write) && !Busy(tasks) && (pass == 2 || pass == 3)
    requires LaneOf(tasks, pass).queue != []
    requires if pass == 3 then tasks.read.queue == [] else tasks.write.priorityDeadline == 0
    ensures (start == pass || start == 3 - pass) && CanStart(tasks, start, now)
  {
    now := Late(tasks, pass);
    LeastIsMinimum(LaneOf(tasks, pass).queue);
    PriorityPassIsReadyFirst(tasks, pass, now);
    start := if LaneOf(tasks, pass).priorityDeadline != 0 then 3 - pass else pass;
    assert Bid(tasks, start, now) != 0;
    if pass == 3 {
      assert Bid(tasks, 1, now) == 0 && Bid(tasks, 2, now) == 0;
    } else {
      assert Bid(tasks, 0, now) == 0;
    }
  }

  /** What starts in a pass is of its lane. */
  lemma StartsFromLane(s: State, pass: nat, now: nat)
    requires Inv(s) && CanStart(s.tasks, pass, now)
    ensures var s' := Started(s, pass, now);
      && s'.current.Some? && s'.current.value in LaneOf(s.tasks, pass).queue
      && IsRead(s'.current.value.direction) == !PassWrites(pass)
      && s'.tasks.read.queue == s.tasks.read.queue && s'.tasks.write.queue == s.tasks.write.queue
      && s'.tasks.write.priorityDeadline == s.tasks.write.priorityDeadline && s'.written == s.written
  {
    BidHasTask(s.tasks, pass, now);
    assert LaneOf(s.tasks, pass).queue[Newest(LaneOf(s.tasks, pass).queue, pass)] in LaneOf(s.tasks, pass).queue;
  }

  /** Once all reads have been answered, a queued write can start. */
  lemma WriteStarts(s: State) returns (pass: nat, now: nat)
    requires Inv(s) && s.current.None? && s.tasks.write.queue != [] && s.tasks.read.queue == []
    ensures PassWrites(pass) && CanStart(s.tasks, pass, now)
  {
    pass, now := LaneStarts(s.tasks, 3);
  }

  lemma {:induction false} LeftEverything(q: seq<Task>)
    ensures Left(q, Everything) == []
  {
    if q != [] {
      LeftEverything(q[..|q| - 1]);
    }
  }

  /** A successful read answers all reads, and leaves the writes as they are. */
  lemma ReadsDrain(s: State) returns (pass: nat, now: nat)
    requires Inv(s) && s.current.None? && s.tasks.read.queue != [] && s.tasks.write.priorityDeadline == 0
    ensures CanStart(s.tasks, pass, now)
    ensures var s' := Finished(Started(s, pass, now), OK, now, 100, "");
      && Inv(s') && s'.current.None? && s'.tasks.read.queue == [] && s'.tasks.write.queue == s.tasks.write.queue
      && s'.written == s.written
  {
    pass, now := LaneStarts(s.tasks, 2);
    StartsFromLane(s, pass, now);
    StartKeepsInv(s, pass, now);
    FinishKeepsInv(Started(s, pass, now), OK, now, 100, "");
    LeftEverything(s.tasks.read.queue);
  }

  /** When a priority write is queued, it can start before any read. */
  lemma PriorityWriteStarts(s: State) returns (now: nat)
    requires Inv(s) && s.current.None? && s.tasks.write.priorityDeadline != 0
    ensures CanStart(s.tasks, 0, now)
  {
    now := Late(s.tasks, 0);
  }

  lemma RunTwo(events: seq<Event>, a: Event, b: Event)
    ensures Run(events + [a, b]) == Step(Step(Run(events), a), b)
  {
    assert events + [a, b] == (events + [a]) + [b];
    RunAppend(events, a);
    RunAppend(events + [a], b);
  }

  predicate NoneAdded(events: seq<Event>) {
    forall i | 0 <= i < |events| :: !events[i].Add?
  }

  lemma StartedWriteLands(s: State, pass: nat, now: nat) returns (next: Task)
    requires Inv(s) && PassWrites(pass) && CanStart(s.tasks, pass, now)
    ensures next in s.tasks.write.queue &&
      Finished(Started(s, pass, now), OK, now, 100, "").written == s.written + [next]
  {
    StartsFromLane(s, pass, now);
    next := Started(s, pass, now).current.value;
  }

  function StartAndFinish(pass: nat, now: nat): seq<Event> {
    [Start(pass, now), Finish(OK, now, 100, "")]
  }

  /** If no read comes first, some queued write succeeds next. */
  lemma WriteLandsNext(events: seq<Event>) returns (more: seq<Event>, next: Task)
    requires Inv(Run(events)) && Run(events).current.None? && Run(events).tasks.write.queue != []
    requires Run(events).tasks.read.queue == [] || Run(events).tasks.write.priorityDeadline != 0
    ensures NoneAdded(more) && next in Run(events).tasks.write.queue
    ensures Run(events + more).written == Run(events).written + [next]
  {
    var pass, now := 0, 0;
    if Run(events).tasks.write.priorityDeadline != 0 {
      now := PriorityWriteStarts(Run(events));
    } else {
      pass, now := WriteStarts(Run(events));
    }
    more, next := WriteLandsAt(events, pass, now);
  }

  /** A run continued by a start and a successful finish. */
  lemma RunStartAndFinish(events: seq<Event>, pass: nat, now: nat)
    ensures Run(events + StartAndFinish(pass, now)) == Finished(Started(Run(events), pass, now), OK, now, 100, "")
    ensures NoneAdded(StartAndFinish(pass, now))
  {
    RunTwo(events, Start(pass, now), Finish(OK, now, 100, ""));
  }

  lemma WriteLandsAt(events: seq<Event>, pass: nat, now: nat) returns (more: seq<Event>, next: Task)
    requires Inv(Run(events)) && PassWrites(pass) && CanStart(Run(events).tasks, pass, now)
    ensures NoneAdded(more) && next in Run(events).tasks.write.queue
    ensures Run(events + more).written == Run(events).written + [next]
  {
    next := StartedWriteLands(Run(events), pass, now);
    more := StartAndFinish(pass, now);
    RunStartAndFinish(events, pass, now);
  }

  /** Reads first, and then a write. */
  lemma WriteLandsAfterReads(events: seq<Event>) returns (more: seq<Event>, next: Task)
    requires Inv(Run(events)) && Run(events).current.None? && Run(events).tasks.write.queue != []
    requires Run(events).tasks.read.queue != [] && Run(events).tasks.write.priorityDeadline == 0
    ensures NoneAdded(more) && next in Run(events).tasks.write.queue
    ensures Run(events + more).written == Run(events).written + [next]
  {
    var pass, now := ReadsDrain(Run(events));
    RunTwo(events, Start(pass, now), Finish(OK, now, 100, ""));
    more, next := WriteLandsAfter(events, StartAndFinish(pass, now));
  }

  lemma WriteLandsAfter(events: seq<Event>, first: seq<Event>) returns (more: seq<Event>, next: Task)
    requires NoneAdded(first) && SameWrites(Run(events + first), Run(events))
    requires Inv(Run(events + first)) && Run(events + first).current.None?
    requires Run(events + first).tasks.write.queue != [] && Run(events + first).tasks.read.queue == []
    ensures NoneAdded(more) && next in Run(events).tasks.write.queue
    ensures Run(events + more).written == Run(events).written + [next]
  {
    var rest;
    rest, next := WriteLandsNext(events + first);
    NoneAddedConcat(first, rest);
    more := first + rest;
    Associative(events, first, rest);
  }

  predicate SameWrites(s: State, t: State) {
    s.tasks.write.queue == t.tasks.write.queue && s.written == t.written
  }

  lemma NoneAddedConcat(a: seq<Event>, b: seq<Event>)
    requires NoneAdded(a) && NoneAdded(b)
    ensures NoneAdded(a + b)
  {
  }

  /** If no task is added, some queued write succeeds next in some continuation. */
  lemma SomeWriteLands(events: seq<Event>) returns (more: seq<Event>, next: Task)
    requires Inv(Run(events)) && Run(events).current.None? && Run(events).tasks.write.queue != []
    ensures NoneAdded(more) && next in Run(events).tasks.write.queue
    ensures Run(events + more).written == Run(events).written + [next]
  {
    if Run(events).tasks.write.priorityDeadline != 0 || Run(events).tasks.read.queue == [] {
      more, next := WriteLandsNext(events);
    } else {
      more, next := WriteLandsAfterReads(events);
    }
  }

  lemma NothingStarts(s: State, e: Event)
    requires Inv(s) && s.tasks.write.queue == [] && !e.Add?
    ensures Step(s, e).tasks.write.queue == [] && Step(s, e).written == s.written
  {
    if e.Start? && CanStart(s.tasks, e.pass, e.now) {
      StartsFromLane(s, e.pass, e.now);
    }
  }

  /** With no write queued and none added, none succeeds. */
  lemma {:induction false} NothingLands(events: seq<Event>, more: seq<Event>)
    requires AllProper(events + more) && AllProper(events) && NoneAdded(more)
    requires Run(events).tasks.write.queue == []
    ensures Run(events + more).tasks.write.queue == [] && Run(events + more).written == Run(events).written
  {
    if more == [] {
      assert events + more == events;
    } else {
      var before, last := more[..|more| - 1], more[|more| - 1];
      assert events + more == (events + before) + [last];
      assert forall i | 0 <= i < |events + before| :: (events + before)[i] == (events + more)[i];
      NothingLands(events, before);
      RunKeepsInv(events + before);
      RunAppend(events + before, last);
      NothingStarts(Run(events + before), last);
    }
  }

  ghost predicate LaterOutOfOrder(events: seq<Event>) {
    exists more: seq<Event> :: NoneAdded(more) && !Ascending(Run(events + more).written)
  }

  lemma {:induction false} NoneAddedIsProper(events: seq<Event>, more: seq<Event>)
    requires AllProper(events) && NoneAdded(more)
    ensures AllProper(events + more)
  {
    forall i | 0 <= i < |events + more|
      ensures Proper((events + more)[i])
    {
      if i >= |events| {
        assert (events + more)[i] == more[i - |events|];
      }
    }
  }

  /** After the newest queued write has succeeded, only older ones are queued: those it did not cover. */
  lemma AfterNewest(events: seq<Event>, now: nat, interval: nat, loaded: string)
    requires AllProper(events) && NumberedInOrder(events) && AllOrderly(events)
    requires NewestRuns(Run(events))
    ensures var s, s' := Run(events), Run(events + [Finish(OK, now, interval, loaded)]);
      && Inv(s') && s'.current.None? && s'.written == s.written + [s.current.value] && Ascending(s'.written)
      && (forall t | t in s'.tasks.write.queue :: t.taskid < s.current.value.taskid)
      && (s'.tasks.write.queue == [] <==> CoversOlder(s.tasks.write.queue, s.current.value))
  {
    var s, f := Run(events), Finish(OK, now, interval, loaded);
    RunKeepsInv(events);
    RunKeepsOrdered(events);
    RunAppend(events, f);
    StepKeepsInv(s, f);
    NewestLeavesOlder(s.tasks.write.queue, s.current.value);
    AscendsWith(s);
  }

  /** The newest of the queued writes is running. */
  predicate NewestRuns(s: State) {
    && s.current.Some? && !IsRead(s.current.value.direction)
    && forall t | t in s.tasks.write.queue :: t.taskid <= s.current.value.taskid
  }

  /**
   As long as every success has covered what was older: after the newest queued write succeeds, an older
   one can succeed after it exactly if it left something older uncovered.
   */
  lemma OutOfOrderIff(events: seq<Event>, now: nat, interval: nat, loaded: string)
    requires AllProper(events) && NumberedInOrder(events) && AllOrderly(events)
    requires NewestRuns(Run(events))
    ensures LaterOutOfOrder(events + [Finish(OK, now, interval, loaded)]) <==>
      !CoversOlder(Run(events).tasks.write.queue, Run(events).current.value)
  {
    var s, f := Run(events), Finish(OK, now, interval, loaded);
    var after := events + [f];
    AfterNewest(events, now, interval, loaded);
    if Run(after).tasks.write.queue == [] {
      forall more: seq<Event> | NoneAdded(more)
        ensures Ascending(Run(after + more).written)
      {
        NoneAddedIsProper(after, more);
        NothingLands(after, more);
      }
    } else {
      var more, next := SomeWriteLands(after);
      OlderBreaks(s.written, s.current.value, next);
    }
  }

  /** A success of a queued write keeps the order of those before. */
  lemma AscendsWith(s: State)
    requires s.current.Some? && s.current.value in s.tasks.write.queue
    requires Ascending(s.written) && Between(s.tasks.write.queue, LastId(s.written), s.current.value.taskid + 1)
    ensures Ascending(s.written + [s.current.value])
  {
    var b :| 0 <= b < |s.tasks.write.queue| && s.tasks.write.queue[b] == s.current.value;
    AscendingAppend(s.written, s.current.value);
  }

  lemma OlderBreaks(written: seq<Task>, newer: Task, older: Task)
    requires older.taskid < newer.taskid
    ensures !Ascending(written + [newer] + [older])
  {
    var all := written + [newer] + [older];
    assert all[|written|] == newer && all[|written| + 1] == older;
  }

  // ----- a deletion overtaken by an older write -----

  lemma AddToEmpty(t: Task)
    ensures AddToLane(EMPTY_LANE, t) == Lane([t], t.deadline, if t.priority then t.deadline else 0, 0, 0, 0, 0)
  {
  }

  lemma NewestOfOne(t: Task, pass: nat)
    requires Eligible(t, pass)
    ensures Newest([t], pass) == 0
  {
    assert [t][0] == t;
  }

  lemma NewestOfTwo(a: Task, b: Task, pass: nat)
    requires Eligible(b, pass) && a.taskid < b.taskid
    ensures Newest([a, b], pass) == 1
  {
    assert [a, b][0] == a && [a, b][1] == b;
  }

  lemma LeftLast(q: seq<Task>, rule: Rule)
    requires q != []
    ensures var n := |q| - 1; Left(q, rule) == Left(q[..n], rule) + if Takes(rule, q[n]) then [] else [q[n]]
  {
  }

  /** A newer deletion does not cover a write. */
  lemma LeftOfTwo(q: seq<Task>)
    requires |q| == 2 && q[0].taskid < q[1].taskid && q[0].direction == Write && q[1].direction == Delete
    ensures Left(q, CoveredBy(q[1])) == [q[0]]
  {
    var rule := CoveredBy(q[1]);
    LeftLast(q, rule);
    LeftLast(q[..1], rule);
    assert q[..1][..0] == [] && Left([], rule) == [];
  }

  lemma LeastOfOne(t: Task)
    ensures Least([t]) == t.deadline && LeastPriority([t]) == if t.priority then t.deadline else 0
  {
    assert [t][..0] == [];
  }

  /** A plain write and a newer plain deletion, as one owner may queue them. */
  predicate WriteThenDelete(w: Task, d: Task) {
    && 0 < w.taskid < d.taskid && 0 < w.deadline <= d.deadline
    && w.direction == Write && d.direction == Delete && !w.priority && !d.priority
  }

  lemma DeleteRuns(s: State, w: Task, d: Task, now: nat)
    requires WriteThenDelete(w, d)
    requires s.tasks == Tasks(EMPTY_LANE, Lane([w, d], w.deadline, 0, 0, 0, 0, 0), 100)
    ensures var s' := Finished(Started(s, 3, now), OK, now, 100, "");
      s'.tasks == Tasks(EMPTY_LANE, Lane([w], w.deadline, 0, 0, now, 0, 0), 100) && s'.written == s.written + [d]
  {
    NewestOfTwo(w, d, 3);
    LeftOfTwo([w, d]);
    LeastOfOne(w);
    assert CanStart(s.tasks, 3, now);
    assert Started(s, 3, now).current == Some(d);
  }

  lemma WriteRuns(s: State, w: Task, now: nat)
    requires w.direction == Write && !w.priority && w.deadline > 0
    requires s.tasks == Tasks(EMPTY_LANE, Lane([w], w.deadline, 0, 0, now, 0, 0), 100)
    ensures Finished(Started(s, 3, now + 10), OK, now + 10, 100, "").written == s.written + [w]
  {
    assert Scaled(SuccessDelay(3), 100) == 10;
    assert CanStart(s.tasks, 3, now + 10);
    NewestOfOne(w, 3);
    assert Started(s, 3, now + 10).current == Some(w);
  }

  lemma TwoQueued(w: Task, d: Task)
    requires WriteThenDelete(w, d)
    ensures var s := Run([Add(w)] + [Add(d)] + [Draw(100)]);
      s.tasks == Tasks(EMPTY_LANE, Lane([w, d], w.deadline, 0, 0, 0, 0, 0), 100) && s.written == []
  {
    AddToEmpty(w);
    RunAppend([], Add(w));
    assert [] + [Add(w)] == [Add(w)] && [w] + [d] == [w, d];
    RunAppend([Add(w)], Add(d));
    RunAppend([Add(w)] + [Add(d)], Draw(100));
  }

  function FirstEvents(w: Task, d: Task): seq<Event> {
    [Add(w)] + [Add(d)] + [Draw(100)]
  }

  function LastEvents(now: nat): seq<Event> {
    StartAndFinish(3, now) + StartAndFinish(3, now + 10)
  }

  lemma BothLand(first: seq<Event>, w: Task, d: Task, now: nat)
    requires WriteThenDelete(w, d) && Run(first).written == []
    requires Run(first).tasks == Tasks(EMPTY_LANE, Lane([w, d], w.deadline, 0, 0, 0, 0, 0), 100)
    ensures Run(first + LastEvents(now)).written == [d, w]
  {
    var a, b := StartAndFinish(3, now), StartAndFinish(3, now + 10);
    BothSteps(Run(first), w, d, now);
    RunStartAndFinish(first, 3, now);
    RunStartAndFinish(first + a, 3, now + 10);
    Associative(first, a, b);
  }

  lemma BothSteps(s: State, w: Task, d: Task, now: nat)
    requires WriteThenDelete(w, d) && s.written == []
    requires s.tasks == Tasks(EMPTY_LANE, Lane([w, d], w.deadline, 0, 0, 0, 0, 0), 100)
    ensures var s' := Finished(Started(s, 3, now), OK, now, 100, "");
      Finished(Started(s', 3, now + 10), OK, now + 10, 100, "").written == [d, w]
  {
    DeleteRuns(s, w, d, now);
    WriteRuns(Finished(Started(s, 3, now), OK, now, 100, ""), w, now);
  }

  lemma WriteLandsAfterDelete(w: Task, d: Task, now: nat)
    requires WriteThenDelete(w, d)
    ensures Run(FirstEvents(w, d) + LastEvents(now)).written == [d, w]
  {
    TwoQueued(w, d);
    BothLand(FirstEvents(w, d), w, d, now);
  }

  /** With a deletion in the queue the order does break: the older write lands on the deleted location. */
  lemma OlderWriteAfterDelete(w: Task, d: Task, now: nat)
    requires WriteThenDelete(w, d)
    ensures var events := FirstEvents(w, d) + LastEvents(now);
      AllProper(events) && NumberedInOrder(events) && Run(events).written == [d, w] && !Ascending(Run(events).written)
  {
    WriteLandsAfterDelete(w, d, now);
    var written := [d, w];
    assert written[0].taskid > written[1].taskid;
  }
}
