/**
 The database tasks of one location, as a state machine over values.

 Workers start, finish and expire tasks of a location one locked step at a time.  A successful
 write answers every older write it makes superfluous; a failed one leaves its task queued.
 */
module LocationQueue {
  import opened Wrappers
  import opened Numbers

  datatype Direction = Read | ReadIds | Write | Insert | Delete

  datatype Status = OK | ExecutionDeadline | WriteDeadlineReached | ReadFailed | WriteFailed

  datatype Task = Task(
    location: string,
    group: int,
    direction: Direction,
    deadline: nat,
    taskid: nat,
    priority: bool,
    executed: bool,
    data: string)

  datatype TaskResult = TaskResult(location: string, direction: Direction, taskid: nat, status: Status, data: string)

  /** A result and the group it is posted to. */
  datatype Answer = Answer(group: int, result: TaskResult)

  /** The reads or the writes of a location, with cached least deadlines (0 for none). */
  datatype Lane = Lane(
    queue: seq<Task>,
    deadline: nat,
    priorityDeadline: nat,
    running: nat,
    lastSuccess: nat,
    lastFail: nat,
    fails: nat)

  /** `interval` is the percentage by which delays between operations are scaled, 0 until drawn. */
  datatype Tasks = Tasks(read: Lane, write: Lane, interval: nat)

  const EMPTY_LANE := Lane([], 0, 0, 0, 0, 0, 0)

  const EMPTY := Tasks(EMPTY_LANE, EMPTY_LANE, 0)

  predicate IsRead(d: Direction) {
    d == Read || d == ReadIds
  }

  // ----- cached deadlines -----

  function Sooner(m: nat, d: nat): nat {
    if m == 0 || d < m then d else m
  }

  function Least(q: seq<Task>): nat {
    if q == [] then 0 else Sooner(Least(q[..|q| - 1]), q[|q| - 1].deadline)
  }

  function LeastPriority(q: seq<Task>): nat {
    if q == [] then 0
    else if q[|q| - 1].priority then Sooner(LeastPriority(q[..|q| - 1]), q[|q| - 1].deadline)
    else LeastPriority(q[..|q| - 1])
  }

  predicate AllTimed(q: seq<Task>) {
    forall i | 0 <= i < |q| :: q[i].deadline != 0
  }

  /** The cached value is the least deadline, and 0 exactly if there is no task. */
  lemma {:induction false} LeastIsMinimum(q: seq<Task>)
    requires AllTimed(q)
    ensures Least(q) == 0 <==> q == []
    ensures q != [] ==> exists i | 0 <= i < |q| :: q[i].deadline == Least(q)
    ensures forall i | 0 <= i < |q| :: Least(q) <= q[i].deadline
  {
    if q != [] {
      var rest, last := q[..|q| - 1], q[|q| - 1];
      LeastIsMinimum(rest);
      if Least(q) == last.deadline {
        assert q[|q| - 1].deadline == Least(q);
      } else {
        var i :| 0 <= i < |rest| && rest[i].deadline == Least(rest);
        assert q[i].deadline == Least(q);
      }
      assert forall i | 0 <= i < |rest| :: q[i] == rest[i];
    }
  }

  lemma {:induction false} LeastPriorityIsMinimum(q: seq<Task>)
    requires AllTimed(q)
    ensures LeastPriority(q) == 0 <==> forall i | 0 <= i < |q| :: !q[i].priority
    ensures LeastPriority(q) != 0 ==> exists i | 0 <= i < |q| :: q[i].priority && q[i].deadline == LeastPriority(q)
    ensures forall i | 0 <= i < |q| && q[i].priority :: LeastPriority(q) <= q[i].deadline
  {
    if q != [] {
      var rest, last := q[..|q| - 1], q[|q| - 1];
      LeastPriorityIsMinimum(rest);
      assert forall i | 0 <= i < |rest| :: q[i] == rest[i];
      if last.priority && LeastPriority(q) == last.deadline {
        assert q[|q| - 1].priority && q[|q| - 1].deadline == LeastPriority(q);
      } else if LeastPriority(q) != 0 {
        var i :| 0 <= i < |rest| && rest[i].priority && rest[i].deadline == LeastPriority(rest);
        assert q[i].priority && q[i].deadline == LeastPriority(q);
      }
    }
  }

  predicate Cached(lane: Lane) {
    AllTimed(lane.queue) && lane.deadline == Least(lane.queue) && lane.priorityDeadline == LeastPriority(lane.queue)
  }

  // ----- which tasks a step takes out of a lane -----

  datatype Rule =
    | Everything
    | CoveredBy(task: Task)
    | LateRead(running: nat, now: nat)
    | LateWrite(running: nat, now: nat)

  predicate Takes(rule: Rule, t: Task) {
    match rule
    case Everything => true
    case CoveredBy(task) =>
      t.taskid <= task.taskid && (t.direction == task.direction || (t.direction == Insert && task.direction == Write))
    case LateRead(running, now) => running == 0 && t.deadline <= now
    case LateWrite(running, now) => running < t.taskid && t.deadline <= now
  }

  function Left(q: seq<Task>, rule: Rule): seq<Task> {
    if q == [] then []
    else Left(q[..|q| - 1], rule) + if Takes(rule, q[|q| - 1]) then [] else [q[|q| - 1]]
  }

  function Taken(q: seq<Task>, rule: Rule): seq<Task> {
    if q == [] then []
    else Taken(q[..|q| - 1], rule) + if Takes(rule, q[|q| - 1]) then [q[|q| - 1]] else []
  }

  function Attempted(t: Task, rule: Rule): Task {
    if Takes(rule, t) then t.(executed := true) else t
  }

  /** The queue after a failed attempt: the tasks it was for count as executed. */
  function Tried(q: seq<Task>, rule: Rule): (r: seq<Task>)
    ensures |r| == |q|
    ensures forall i | 0 <= i < |q| :: r[i] == Attempted(q[i], rule)
  {
    if q == [] then [] else Tried(q[..|q| - 1], rule) + [Attempted(q[|q| - 1], rule)]
  }

  // ----- steps of a lane -----

  function WithQueue(lane: Lane, q: seq<Task>): Lane {
    lane.(queue := q, deadline := Least(q), priorityDeadline := LeastPriority(q))
  }

  function AddToLane(lane: Lane, t: Task): Lane {
    lane.(
      queue := lane.queue + [t],
      deadline := Sooner(lane.deadline, t.deadline),
      priorityDeadline := if t.priority then Sooner(lane.priorityDeadline, t.deadline) else lane.priorityDeadline)
  }

  function FinishLane(lane: Lane, rule: Rule, ok: bool, now: nat): Lane {
    if ok then WithQueue(lane, Left(lane.queue, rule)).(running := 0, lastSuccess := now, lastFail := 0, fails := 0)
    else
      var left := WithQueue(lane, Tried(lane.queue, rule));
      left.(running := 0, lastSuccess := 0, lastFail := now, fails := lane.fails + 1)
  }

  function DoneAnswer(current: Task, t: Task): Answer {
    Answer(t.group, TaskResult(current.location, current.direction, t.taskid, OK, current.data))
  }

  function DoneAnswers(current: Task, taken: seq<Task>): seq<Answer> {
    if taken == [] then []
    else DoneAnswers(current, taken[..|taken| - 1]) + [DoneAnswer(current, taken[|taken| - 1])]
  }

  function ExpiredAnswer(t: Task): Answer {
    var failed := if IsRead(t.direction) then ReadFailed else WriteFailed;
    Answer(t.group, TaskResult(t.location, t.direction, t.taskid,
      if t.executed then failed else ExecutionDeadline, if IsRead(t.direction) then "" else t.data))
  }

  function ExpiredAnswers(taken: seq<Task>): seq<Answer> {
    if taken == [] then [] else ExpiredAnswers(taken[..|taken| - 1]) + [ExpiredAnswer(taken[|taken| - 1])]
  }

  // ----- when an operation may start -----

  function Min(a: nat, b: nat): nat {
    if a < b then a else b
  }

  /** The four passes, in order of precedence: priority write, priority read, read, write. */
  predicate IsPass(pass: nat) {
    pass < 4
  }

  predicate PassWrites(pass: nat) {
    pass == 0 || pass == 3
  }

  predicate PassNeedsPriority(pass: nat) {
    pass == 0 || pass == 1
  }

  function SuccessDelay(pass: nat): nat {
    if pass < 2 then 2 else if pass == 2 then 3 else 10
  }

  function FailureDelay(pass: nat, fails: nat): nat {
    if pass < 2 then Min(1 + fails * 2, 20)
    else if pass == 2 then Min(1 + fails * 2, 30)
    else Min(9 + fails * fails, 300)
  }

  function Scaled(delay: nat, interval: nat): nat {
    var scaled := delay * interval / 100;
    if scaled < 1 then 1 else scaled
  }

  function LaneOf(tasks: Tasks, pass: nat): Lane {
    if PassWrites(pass) then tasks.write else tasks.read
  }

  predicate Rested(tasks: Tasks, pass: nat, now: nat) {
    var lane := LaneOf(tasks, pass);
    && (lane.lastSuccess == 0 || lane.lastSuccess + Scaled(SuccessDelay(pass), tasks.interval) <= now)
    && (lane.lastFail == 0 || lane.lastFail + Scaled(FailureDelay(pass, lane.fails), tasks.interval) <= now)
  }

  predicate Busy(tasks: Tasks) {
    tasks.read.running != 0 || tasks.write.running != 0
  }

  /** The deadline a location competes with in a pass, 0 if it does not take part. */
  function Bid(tasks: Tasks, pass: nat, now: nat): nat {
    var lane := LaneOf(tasks, pass);
    if Busy(tasks) || !Rested(tasks, pass, now) then 0
    else if PassNeedsPriority(pass) then lane.priorityDeadline
    else lane.deadline
  }

  predicate Eligible(t: Task, pass: nat) {
    PassNeedsPriority(pass) ==> t.priority
  }

  /** The position of the newest eligible task, or -1. */
  function Newest(q: seq<Task>, pass: nat): (best: int)
    ensures -1 <= best < |q|
    ensures best >= 0 ==> Eligible(q[best], pass)
    ensures forall i | 0 <= i < |q| && Eligible(q[i], pass) :: best >= 0 && q[i].taskid <= q[best].taskid
  {
    if q == [] then -1
    else
      var best := Newest(q[..|q| - 1], pass);
      assert forall i | 0 <= i < |q| - 1 :: q[..|q| - 1][i] == q[i];
      if Eligible(q[|q| - 1], pass) && (best == -1 || q[|q| - 1].taskid > q[best].taskid) then |q| - 1 else best
  }

  /** A location that bids in a pass has a task to run in it, and bids its least eligible deadline. */
  lemma BidHasTask(tasks: Tasks, pass: nat, now: nat)
    requires Cached(LaneOf(tasks, pass)) && Bid(tasks, pass, now) != 0
    ensures var q := LaneOf(tasks, pass).queue;
      && Newest(q, pass) >= 0
      && (exists i | 0 <= i < |q| :: Eligible(q[i], pass) && q[i].deadline == Bid(tasks, pass, now))
      && (forall i | 0 <= i < |q| && Eligible(q[i], pass) :: Bid(tasks, pass, now) <= q[i].deadline)
  {
    var q := LaneOf(tasks, pass).queue;
    LeastIsMinimum(q);
    LeastPriorityIsMinimum(q);
    if PassNeedsPriority(pass) {
      var i :| 0 <= i < |q| && q[i].priority && q[i].deadline == LeastPriority(q);
      assert Eligible(q[i], pass);
    } else {
      var i :| 0 <= i < |q| && q[i].deadline == Least(q);
      assert Eligible(q[i], pass);
    }
  }

  /** A write that may start without priority may also start with it: rests and scaling are monotonic. */
  lemma {:induction false} ScaledMonotone(a: nat, b: nat, interval: nat)
    requires a <= b
    ensures Scaled(a, interval) <= Scaled(b, interval)
  {
    assert a * interval <= b * interval;
  }

  lemma PriorityPassIsReadyFirst(tasks: Tasks, pass: nat, now: nat)
    requires pass == 2 || pass == 3
    requires Rested(tasks, pass, now)
    ensures Rested(tasks, 3 - pass, now)
  {
    var fails := LaneOf(tasks, pass).fails;
    assert FailureDelay(3 - pass, fails) <= FailureDelay(pass, fails) by {
      if fails >= 6 {
        assert fails * fails >= 6 * fails;
      }
    }
    ScaledMonotone(FailureDelay(3 - pass, fails), FailureDelay(pass, fails), tasks.interval);
    ScaledMonotone(SuccessDelay(3 - pass), SuccessDelay(pass), tasks.interval);
  }

  // ----- the location as a state machine -----

  /** `current` is the copy of the running task its worker holds; `added`, `answers` and `written` are history. */
  datatype State = State(
    tasks: Tasks,
    current: Option<Task>,
    added: seq<Task>,
    answers: seq<Answer>,
    written: seq<Task>)

  datatype Event =
    | Add(task: Task)
    | Draw(interval: nat)
    | Start(pass: nat, now: nat)
    | Finish(status: Status, now: nat, interval: nat, loaded: string)
    | Expire(now: nat)

  const INITIAL := State(EMPTY, None, [], [], [])

  function AddTask(tasks: Tasks, t: Task): Tasks {
    if IsRead(t.direction) then tasks.(read := AddToLane(tasks.read, t))
    else tasks.(write := AddToLane(tasks.write, t))
  }

  /** A location runs a task in a pass only if no earlier pass had a bid, its own included. */
  predicate CanStart(tasks: Tasks, pass: nat, now: nat) {
    IsPass(pass) && Bid(tasks, pass, now) != 0 && forall earlier | 0 <= earlier < pass :: Bid(tasks, earlier, now) == 0
  }

  function StartTask(tasks: Tasks, pass: nat): (Tasks, Option<Task>) {
    var lane := LaneOf(tasks, pass);
    var best := Newest(lane.queue, pass);
    if best < 0 then (tasks, None)
    else if PassWrites(pass) then (tasks.(write := lane.(running := lane.queue[best].taskid)), Some(lane.queue[best]))
    else (tasks.(read := lane.(running := lane.queue[best].taskid)), Some(lane.queue[best]))
  }

  function FinishRule(current: Task): Rule {
    if IsRead(current.direction) then Everything else CoveredBy(current)
  }

  function FinishTask(tasks: Tasks, current: Task, status: Status, now: nat, interval: nat): Tasks {
    if IsRead(current.direction) then
      tasks.(read := FinishLane(tasks.read, Everything, status == OK, now), interval := interval)
    else
      tasks.(write := FinishLane(tasks.write, CoveredBy(current), status == OK, now), interval := interval)
  }

  /** What the worker's copy holds once a read has loaded something into it. */
  function Loaded(t: Task, data: string): Task {
    if IsRead(t.direction) then t.(data := data) else t
  }

  function FinishAnswers(tasks: Tasks, current: Task, status: Status, loaded: string): seq<Answer> {
    if status != OK then []
    else
      var lane := if IsRead(current.direction) then tasks.read else tasks.write;
      DoneAnswers(Loaded(current, loaded), Taken(lane.queue, FinishRule(current)))
  }

  function ExpireTasks(tasks: Tasks, now: nat): Tasks {
    tasks.(
      read := WithQueue(tasks.read, Left(tasks.read.queue, LateRead(tasks.read.running, now))),
      write := WithQueue(tasks.write, Left(tasks.write.queue, LateWrite(tasks.write.running, now))))
  }

  function ExpireAnswers(tasks: Tasks, now: nat): seq<Answer> {
    ExpiredAnswers(Taken(tasks.read.queue, LateRead(tasks.read.running, now))) +
    ExpiredAnswers(Taken(tasks.write.queue, LateWrite(tasks.write.running, now)))
  }

  /** Whether the entry of a location is dropped after an expiry. */
  predicate Idle(tasks: Tasks, now: nat) {
    && tasks.read.queue == [] && tasks.write.queue == []
    && tasks.read.lastSuccess + 600 < now && tasks.read.lastFail + 600 < now
    && tasks.write.lastSuccess + 600 < now && tasks.write.lastFail + 600 < now
  }

  function Added(s: State, t: Task): State {
    s.(tasks := AddTask(s.tasks, t), added := s.added + [t])
  }

  function Drawn(s: State, interval: nat): State {
    if s.tasks.interval == 0 then s.(tasks := s.tasks.(interval := interval)) else s
  }

  function Started(s: State, pass: nat, now: nat): State {
    if !CanStart(s.tasks, pass, now) then s
    else
      var (tasks, current) := StartTask(s.tasks, pass);
      s.(tasks := tasks, current := current)
  }

  function Finished(s: State, status: Status, now: nat, interval: nat, loaded: string): State {
    if s.current.None? then s
    else
      var t := s.current.value;
      s.(tasks := FinishTask(s.tasks, t, status, now, interval),
         current := None,
         answers := s.answers + FinishAnswers(s.tasks, t, status, loaded),
         written := if status == OK && !IsRead(t.direction) then s.written + [t] else s.written)
  }

  function Purged(s: State, now: nat): State {
    var tasks := ExpireTasks(s.tasks, now);
    s.(tasks := if Idle(tasks, now) then EMPTY else tasks, answers := s.answers + ExpireAnswers(s.tasks, now))
  }

  function Step(s: State, e: Event): State {
    match e
    case Add(t) => Added(s, t)
    case Draw(interval) => Drawn(s, interval)
    case Start(pass, now) => Started(s, pass, now)
    case Finish(status, now, interval, loaded) => Finished(s, status, now, interval, loaded)
    case Expire(now) => Purged(s, now)
  }

  function Run(events: seq<Event>): State {
    if events == [] then INITIAL else Step(Run(events[..|events| - 1]), events[|events| - 1])
  }

  /** Callers number tasks from 1 and give each a deadline. */
  predicate Proper(e: Event) {
    e.Add? ==> e.task.taskid > 0 && e.task.deadline > 0
  }

  predicate AllProper(events: seq<Event>) {
    forall i | 0 <= i < |events| :: Proper(events[i])
  }

  // ----- the invariant -----

  predicate AllOf(q: seq<Task>, read: bool) {
    forall i | 0 <= i < |q| :: IsRead(q[i].direction) == read && q[i].taskid > 0
  }

  predicate LanesApart(tasks: Tasks) {
    AllOf(tasks.read.queue, true) && AllOf(tasks.write.queue, false)
  }

  /** At most one task runs, its worker's copy is of it, and it stays queued until its result is processed. */
  predicate RunningIsQueued(s: State) {
    match s.current
    case None => s.tasks.read.running == 0 && s.tasks.write.running == 0
    case Some(t) =>
      if IsRead(t.direction) then
        s.tasks.write.running == 0 && s.tasks.read.running == t.taskid && t in s.tasks.read.queue
      else
        s.tasks.read.running == 0 && s.tasks.write.running == t.taskid && t in s.tasks.write.queue
  }

  /** How many tasks of the queue are numbered `taskid` in `group`. */
  function Count(q: seq<Task>, group: int, taskid: nat): nat {
    if q == [] then 0
    else Count(q[..|q| - 1], group, taskid) + One(q[|q| - 1].group == group && q[|q| - 1].taskid == taskid)
  }

  function CountAnswers(answers: seq<Answer>, group: int, taskid: nat): nat {
    if answers == [] then 0
    else
      var last := answers[|answers| - 1];
      CountAnswers(answers[..|answers| - 1], group, taskid) + One(last.group == group && last.result.taskid == taskid)
  }

  /** Every task added is queued or answered, exactly once. */
  ghost predicate Conserved(s: State, group: int, taskid: nat) {
    Count(s.added, group, taskid) ==
      Count(s.tasks.read.queue, group, taskid) + Count(s.tasks.write.queue, group, taskid) +
      CountAnswers(s.answers, group, taskid)
  }

  ghost predicate Inv(s: State) {
    && Cached(s.tasks.read) && Cached(s.tasks.write)
    && LanesApart(s.tasks)
    && RunningIsQueued(s)
  }

  // ----- lemmas about queues -----

  lemma {:induction false} LeftTakenMembers(q: seq<Task>, rule: Rule)
    ensures forall t :: t in Left(q, rule) <==> t in q && !Takes(rule, t)
    ensures forall t :: t in Taken(q, rule) <==> t in q && Takes(rule, t)
  {
    if q != [] {
      LeftTakenMembers(q[..|q| - 1], rule);
      assert q == q[..|q| - 1] + [q[|q| - 1]];
    }
  }

  lemma CountAppend(q: seq<Task>, t: Task, group: int, taskid: nat)
    ensures Count(q + [t], group, taskid) == Count(q, group, taskid) + One(t.group == group && t.taskid == taskid)
  {
    assert (q + [t])[..|q|] == q;
  }

  lemma {:induction false} LeftTakenCount(q: seq<Task>, rule: Rule, group: int, taskid: nat)
    ensures Count(q, group, taskid) == Count(Left(q, rule), group, taskid) + Count(Taken(q, rule), group, taskid)
  {
    if q != [] {
      var rest, last := q[..|q| - 1], q[|q| - 1];
      var left, taken := Left(rest, rule), Taken(rest, rule);
      LeftTakenCount(rest, rule, group, taskid);
      if Takes(rule, last) {
        assert Left(q, rule) == left && Taken(q, rule) == taken + [last];
        CountAppend(taken, last, group, taskid);
      } else {
        assert Left(q, rule) == left + [last] && Taken(q, rule) == taken;
        CountAppend(left, last, group, taskid);
      }
    }
  }

  lemma {:induction false} TriedCount(q: seq<Task>, rule: Rule, group: int, taskid: nat)
    ensures Count(Tried(q, rule), group, taskid) == Count(q, group, taskid)
  {
    if q != [] {
      TriedCount(q[..|q| - 1], rule, group, taskid);
      CountAppend(Tried(q[..|q| - 1], rule), Attempted(q[|q| - 1], rule), group, taskid);
    }
  }

  lemma CountAnswersAppend(answers: seq<Answer>, a: Answer, group: int, taskid: nat)
    ensures CountAnswers(answers + [a], group, taskid) ==
      CountAnswers(answers, group, taskid) + One(a.group == group && a.result.taskid == taskid)
  {
    assert (answers + [a])[..|answers|] == answers;
  }

  lemma {:induction false} CountAnswersConcat(a: seq<Answer>, b: seq<Answer>, group: int, taskid: nat)
    ensures CountAnswers(a + b, group, taskid) == CountAnswers(a, group, taskid) + CountAnswers(b, group, taskid)
  {
    if b == [] {
      assert a + b == a;
    } else {
      CountAnswersConcat(a, b[..|b| - 1], group, taskid);
      assert a + b == (a + b[..|b| - 1]) + [b[|b| - 1]];
      CountAnswersAppend(a + b[..|b| - 1], b[|b| - 1], group, taskid);
    }
  }

  lemma {:induction false} DoneAnswersCount(current: Task, taken: seq<Task>, group: int, taskid: nat)
    ensures CountAnswers(DoneAnswers(current, taken), group, taskid) == Count(taken, group, taskid)
  {
    if taken != [] {
      var rest, last := taken[..|taken| - 1], taken[|taken| - 1];
      DoneAnswersCount(current, rest, group, taskid);
      CountAnswersAppend(DoneAnswers(current, rest), DoneAnswer(current, last), group, taskid);
    }
  }

  lemma {:induction false} ExpiredAnswersCount(taken: seq<Task>, group: int, taskid: nat)
    ensures CountAnswers(ExpiredAnswers(taken), group, taskid) == Count(taken, group, taskid)
  {
    if taken != [] {
      var rest, last := taken[..|taken| - 1], taken[|taken| - 1];
      ExpiredAnswersCount(rest, group, taskid);
      CountAnswersAppend(ExpiredAnswers(rest), ExpiredAnswer(last), group, taskid);
    }
  }

  // ----- every step answers what it removes -----

  lemma FinishConserves(s: State, status: Status, now: nat, interval: nat, loaded: string, group: int, taskid: nat)
    requires Conserved(s, group, taskid) && s.current.Some?
    ensures Conserved(Finished(s, status, now, interval, loaded), group, taskid)
  {
    var t := s.current.value;
    var rule := FinishRule(t);
    var q := if IsRead(t.direction) then s.tasks.read.queue else s.tasks.write.queue;
    if status == OK {
      LeftTakenCount(q, rule, group, taskid);
      DoneAnswersCount(Loaded(t, loaded), Taken(q, rule), group, taskid);
      CountAnswersConcat(s.answers, FinishAnswers(s.tasks, t, status, loaded), group, taskid);
    } else {
      TriedCount(q, rule, group, taskid);
      assert s.answers + [] == s.answers;
    }
  }

  lemma ExpireConserves(s: State, now: nat, group: int, taskid: nat)
    requires Conserved(s, group, taskid)
    ensures Conserved(Purged(s, now), group, taskid)
  {
    var late, lateWrite := LateRead(s.tasks.read.running, now), LateWrite(s.tasks.write.running, now);
    var takenReads, takenWrites := Taken(s.tasks.read.queue, late), Taken(s.tasks.write.queue, lateWrite);
    LeftTakenCount(s.tasks.read.queue, late, group, taskid);
    LeftTakenCount(s.tasks.write.queue, lateWrite, group, taskid);
    ExpiredAnswersCount(takenReads, group, taskid);
    ExpiredAnswersCount(takenWrites, group, taskid);
    CountAnswersConcat(ExpiredAnswers(takenReads), ExpiredAnswers(takenWrites), group, taskid);
    CountAnswersConcat(s.answers, ExpireAnswers(s.tasks, now), group, taskid);
  }

  lemma AddConserves(s: State, t: Task, group: int, taskid: nat)
    requires Conserved(s, group, taskid)
    ensures Conserved(Added(s, t), group, taskid)
  {
    CountAppend(s.added, t, group, taskid);
    if IsRead(t.direction) {
      CountAppend(s.tasks.read.queue, t, group, taskid);
    } else {
      CountAppend(s.tasks.write.queue, t, group, taskid);
    }
  }

  lemma StepConserves(s: State, e: Event, group: int, taskid: nat)
    requires Conserved(s, group, taskid)
    ensures Conserved(Step(s, e), group, taskid)
  {
    match e
    case Add(t) =>
      AddConserves(s, t, group, taskid);
    case Draw(interval) =>
    case Start(pass, now) =>
    case Finish(status, now, interval, loaded) =>
      if s.current.Some? {
        FinishConserves(s, status, now, interval, loaded, group, taskid);
      }
    case Expire(now) => ExpireConserves(s, now, group, taskid);
  }

  /** Through adds, coalescing successes, failures and expiry, no task loses its answer or gets two. */
  lemma {:induction false} AnsweredOnce(events: seq<Event>, group: int, taskid: nat)
    ensures Conserved(Run(events), group, taskid)
  {
    if events != [] {
      AnsweredOnce(events[..|events| - 1], group, taskid);
      StepConserves(Run(events[..|events| - 1]), events[|events| - 1], group, taskid);
    }
  }

  // ----- every step keeps the invariant -----

  lemma AddToLaneCached(lane: Lane, t: Task)
    requires Cached(lane) && t.deadline > 0
    ensures Cached(AddToLane(lane, t))
  {
    assert (lane.queue + [t])[..|lane.queue|] == lane.queue;
  }

  lemma AddKeepsInv(s: State, t: Task)
    requires Inv(s) && t.taskid > 0 && t.deadline > 0
    ensures Inv(Added(s, t))
  {
    AddToLaneCached(s.tasks.read, t);
    AddToLaneCached(s.tasks.write, t);
  }

  lemma StartKeepsInv(s: State, pass: nat, now: nat)
    requires Inv(s)
    ensures Inv(Started(s, pass, now))
  {
    if CanStart(s.tasks, pass, now) {
      BidHasTask(s.tasks, pass, now);
    }
  }

  lemma LeftTimed(q: seq<Task>, rule: Rule)
    requires AllTimed(q)
    ensures AllTimed(Left(q, rule))
  {
    LeftTakenMembers(q, rule);
    forall i | 0 <= i < |Left(q, rule)|
      ensures Left(q, rule)[i].deadline != 0
    {
      assert Left(q, rule)[i] in q;
    }
  }

  lemma FinishLaneCached(lane: Lane, rule: Rule, ok: bool, now: nat)
    requires Cached(lane)
    ensures Cached(FinishLane(lane, rule, ok, now))
  {
    LeftTimed(lane.queue, rule);
  }

  lemma LeftAllOf(q: seq<Task>, rule: Rule, read: bool)
    requires AllOf(q, read)
    ensures AllOf(Left(q, rule), read) && AllOf(Tried(q, rule), read)
  {
    LeftTakenMembers(q, rule);
    forall i | 0 <= i < |Left(q, rule)|
      ensures IsRead(Left(q, rule)[i].direction) == read && Left(q, rule)[i].taskid > 0
    {
      assert Left(q, rule)[i] in q;
    }
  }

  lemma FinishKeepsInv(s: State, status: Status, now: nat, interval: nat, loaded: string)
    requires Inv(s)
    ensures Inv(Finished(s, status, now, interval, loaded))
  {
    if s.current.Some? {
      var t := s.current.value;
      if IsRead(t.direction) {
        FinishLaneCached(s.tasks.read, Everything, status == OK, now);
        LeftAllOf(s.tasks.read.queue, Everything, true);
      } else {
        FinishLaneCached(s.tasks.write, CoveredBy(t), status == OK, now);
        LeftAllOf(s.tasks.write.queue, CoveredBy(t), false);
      }
    }
  }

  /** The running task is never expired, and its location's entry is not dropped under it. */
  lemma ExpireKeepsRunning(s: State, now: nat)
    requires RunningIsQueued(s) && LanesApart(s.tasks)
    ensures RunningIsQueued(Purged(s, now))
    ensures s.current.Some? ==> !Idle(ExpireTasks(s.tasks, now), now)
  {
    LeftTakenMembers(s.tasks.read.queue, LateRead(s.tasks.read.running, now));
    LeftTakenMembers(s.tasks.write.queue, LateWrite(s.tasks.write.running, now));
  }

  lemma ExpireKeepsInv(s: State, now: nat)
    requires Inv(s)
    ensures Inv(Purged(s, now))
  {
    ExpireKeepsRunning(s, now);
    LeftTimed(s.tasks.read.queue, LateRead(s.tasks.read.running, now));
    LeftTimed(s.tasks.write.queue, LateWrite(s.tasks.write.running, now));
    LeftAllOf(s.tasks.read.queue, LateRead(s.tasks.read.running, now), true);
    LeftAllOf(s.tasks.write.queue, LateWrite(s.tasks.write.running, now), false);
  }

  lemma StepKeepsInv(s: State, e: Event)
    requires Inv(s) && Proper(e)
    ensures Inv(Step(s, e))
  {
    match e
    case Add(t) => AddKeepsInv(s, t);
    case Draw(interval) =>
    case Start(pass, now) => StartKeepsInv(s, pass, now);
    case Finish(status, now, interval, loaded) => FinishKeepsInv(s, status, now, interval, loaded);
    case Expire(now) => ExpireKeepsInv(s, now);
  }

  lemma {:induction false} RunKeepsInv(events: seq<Event>)
    requires AllProper(events)
    ensures Inv(Run(events))
  {
    if events != [] {
      RunKeepsInv(events[..|events| - 1]);
      StepKeepsInv(Run(events[..|events| - 1]), events[|events| - 1]);
    }
  }
}
