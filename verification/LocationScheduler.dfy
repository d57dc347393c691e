/**
 The table of database tasks that the worker threads share.

 Each method runs under the table's lock, so it is one step.  It is proved to take, for every
 location, exactly the step of that location's state machine.
 */
module LocationScheduler {
  import opened Wrappers
  import opened LocationQueue
  import opened LocationResults

  /** What an attempt leaves of a queue: the tasks it did not settle, marked as executed where it failed. */
  function Unsettled(q: seq<Task>, rule: Rule, ok: bool): seq<Task> {
    if ok then Left(q, rule) else Tried(q, rule)
  }

  function Settled(q: seq<Task>, rule: Rule, ok: bool): seq<Task> {
    if ok then Taken(q, rule) else []
  }

  lemma SettledNext(q: seq<Task>, k: nat, rule: Rule, ok: bool)
    requires k < |q|
    ensures ok && Takes(rule, q[k]) ==>
      Unsettled(q[..k + 1], rule, ok) == Unsettled(q[..k], rule, ok) &&
      Settled(q[..k + 1], rule, ok) == Settled(q[..k], rule, ok) + [q[k]]
    ensures !(ok && Takes(rule, q[k])) ==>
      Unsettled(q[..k + 1], rule, ok) == Unsettled(q[..k], rule, ok) + [Attempted(q[k], rule)] &&
      Settled(q[..k + 1], rule, ok) == Settled(q[..k], rule, ok)
  {
    assert q[..k + 1][..k] == q[..k];
  }

  lemma LeastNext(q: seq<Task>, t: Task)
    ensures Least(q + [t]) == Sooner(Least(q), t.deadline)
    ensures LeastPriority(q + [t]) == if t.priority then Sooner(LeastPriority(q), t.deadline) else LeastPriority(q)
  {
    assert (q + [t])[..|q|] == q;
  }

  /**
   A pass over a queue: the tasks before `at` stay, their least deadlines are known, the others are
   to be looked at.
   */
  datatype Scan = Scan(queue: seq<Task>, at: nat, deadline: nat, priorityDeadline: nat)

  function Dropped(scan: Scan): Scan
    requires scan.at < |scan.queue|
  {
    scan.(queue := scan.queue[..scan.at] + scan.queue[scan.at + 1..])
  }

  function Kept(scan: Scan, t: Task): Scan
    requires scan.at < |scan.queue|
  {
    Scan(scan.queue[scan.at := t], scan.at + 1, Sooner(scan.deadline, t.deadline),
         if t.priority then Sooner(scan.priorityDeadline, t.deadline) else scan.priorityDeadline)
  }

  /** The pass has settled the first `k` tasks of the queue `whole`. */
  ghost predicate Scanned(whole: seq<Task>, rule: Rule, ok: bool, k: nat, scan: Scan) {
    && k <= |whole| && scan.at <= |scan.queue|
    && scan.queue[..scan.at] == Unsettled(whole[..k], rule, ok) && scan.queue[scan.at..] == whole[k..]
    && scan.deadline == Least(scan.queue[..scan.at]) && scan.priorityDeadline == LeastPriority(scan.queue[..scan.at])
  }

  lemma ScanStarts(whole: seq<Task>, rule: Rule, ok: bool)
    ensures Scanned(whole, rule, ok, 0, Scan(whole, 0, 0, 0)) && Settled(whole[..0], rule, ok) == []
  {
    assert whole[..0] == [];
  }

  lemma ScanDrops(whole: seq<Task>, rule: Rule, ok: bool, k: nat, scan: Scan)
    requires Scanned(whole, rule, ok, k, scan) && scan.at < |scan.queue| && ok && Takes(rule, scan.queue[scan.at])
    ensures k < |whole| && scan.queue[scan.at] == whole[k]
    ensures Scanned(whole, rule, ok, k + 1, Dropped(scan))
    ensures Settled(whole[..k + 1], rule, ok) == Settled(whole[..k], rule, ok) + [whole[k]]
  {
    var q, a, rest := scan.queue, scan.at, Dropped(scan).queue;
    assert q[a..][0] == whole[k..][0];
    assert rest[..a] == q[..a] && rest[a..] == q[a..][1..] && whole[k + 1..] == whole[k..][1..];
    SettledNext(whole, k, rule, ok);
  }

  lemma UpdateSplit(q: seq<Task>, a: nat, t: Task)
    requires a < |q|
    ensures q[a := t][..a + 1] == q[..a] + [t] && q[a := t][a + 1..] == q[a..][1..]
  {
  }

  lemma ScanKeeps(whole: seq<Task>, rule: Rule, ok: bool, k: nat, scan: Scan)
    requires Scanned(whole, rule, ok, k, scan) && scan.at < |scan.queue| && !(ok && Takes(rule, scan.queue[scan.at]))
    ensures k < |whole| && scan.queue[scan.at] == whole[k]
    ensures Scanned(whole, rule, ok, k + 1, Kept(scan, Attempted(scan.queue[scan.at], rule)))
    ensures Settled(whole[..k + 1], rule, ok) == Settled(whole[..k], rule, ok)
  {
    var q, a, t := scan.queue, scan.at, Attempted(scan.queue[scan.at], rule);
    assert q[a..][0] == whole[k..][0] && whole[k + 1..] == whole[k..][1..];
    UpdateSplit(q, a, t);
    SettledNext(whole, k, rule, ok);
    LeastNext(q[..a], t);
  }

  lemma ScanEnds(whole: seq<Task>, rule: Rule, ok: bool, k: nat, scan: Scan)
    requires Scanned(whole, rule, ok, k, scan) && scan.at == |scan.queue|
    ensures whole[..k] == whole && scan.queue == Unsettled(whole, rule, ok)
    ensures scan.deadline == Least(scan.queue) && scan.priorityDeadline == LeastPriority(scan.queue)
  {
    assert scan.queue[..scan.at] == scan.queue && scan.queue[scan.at..] == [] && |whole[k..]| == |whole| - k;
  }

  function WithScan(lane: Lane, scan: Scan): Lane {
    lane.(queue := scan.queue, deadline := scan.deadline, priorityDeadline := scan.priorityDeadline)
  }

  lemma ExpiredNext(before: seq<Answer>, taken: seq<Task>, t: Task)
    ensures (before + ExpiredAnswers(taken)) + [ExpiredAnswer(t)] == before + ExpiredAnswers(taken + [t])
  {
    assert (taken + [t])[..|taken|] == taken;
  }

  lemma DoneNext(before: seq<Answer>, current: Task, taken: seq<Task>, t: Task)
    ensures (before + DoneAnswers(current, taken)) + [DoneAnswer(current, t)] ==
      before + DoneAnswers(current, taken + [t])
  {
    assert (taken + [t])[..|taken|] == taken;
  }

  predicate AllAt(q: seq<Task>, location: string) {
    forall i | 0 <= i < |q| :: q[i].location == location
  }

  lemma LeftAllAt(q: seq<Task>, rule: Rule, location: string)
    requires AllAt(q, location)
    ensures AllAt(Left(q, rule), location) && AllAt(Tried(q, rule), location)
  {
    LeftTakenMembers(q, rule);
    forall i | 0 <= i < |Left(q, rule)|
      ensures Left(q, rule)[i].location == location
    {
      assert Left(q, rule)[i] in q;
    }
  }

  lemma PutTwice(m: map<string, seq<Answer>>, location: string, a: seq<Answer>, b: seq<Answer>)
    ensures m[location := a][location := b] == m[location := b]
  {
  }

  /** A location's entry in the table and what was posted for it are those of its state machine. */
  ghost predicate Consistent(s: State, tasks: Tasks, answers: seq<Answer>, location: string) {
    && Inv(s) && AllConserved(s) && s.tasks == tasks && s.answers == answers
    && AllAt(tasks.read.queue, location) && AllAt(tasks.write.queue, location)
  }

  /** Every task added at a location is queued or answered, exactly once. */
  ghost predicate AllConserved(s: State) {
    forall group: int, taskid: nat :: Conserved(s, group, taskid)
  }

  lemma StepAllConserved(s: State, e: Event)
    requires AllConserved(s)
    ensures AllConserved(Step(s, e))
  {
    forall group: int, taskid: nat
      ensures Conserved(Step(s, e), group, taskid)
    {
      StepConserves(s, e, group, taskid);
    }
  }

  predicate TasksAt(tasks: Tasks, location: string) {
    AllAt(tasks.read.queue, location) && AllAt(tasks.write.queue, location)
  }

  lemma StepStaysAt(s: State, e: Event, location: string)
    requires TasksAt(s.tasks, location) && (e.Add? ==> e.task.location == location)
    ensures TasksAt(Step(s, e).tasks, location)
  {
    match e
    case Add(t) =>
    case Draw(interval) =>
    case Start(pass, now) =>
    case Finish(status, now, interval, loaded) =>
      if s.current.Some? {
        LeftAllAt(s.tasks.read.queue, Everything, location);
        LeftAllAt(s.tasks.write.queue, CoveredBy(s.current.value), location);
      }
    case Expire(now) =>
      LeftAllAt(s.tasks.read.queue, LateRead(s.tasks.read.running, now), location);
      LeftAllAt(s.tasks.write.queue, LateWrite(s.tasks.write.running, now), location);
  }

  lemma StepConsistent(s: State, e: Event, location: string)
    requires Consistent(s, s.tasks, s.answers, location) && Proper(e) && (e.Add? ==> e.task.location == location)
    ensures Consistent(Step(s, e), Step(s, e).tasks, Step(s, e).answers, location)
  {
    StepKeepsInv(s, e);
    StepAllConserved(s, e);
    StepStaysAt(s, e, location);
  }

  function EntryIn(table: map<string, Tasks>, location: string): Tasks {
    if location in table then table[location] else EMPTY
  }

  function StateIn(states: map<string, State>, location: string): State {
    if location in states then states[location] else INITIAL
  }

  ghost predicate ConsistentAt(table: map<string, Tasks>, states: map<string, State>,
                               posted: map<string, seq<Answer>>, location: string)
  {
    Consistent(StateIn(states, location), EntryIn(table, location), AnswersIn(posted, location), location)
  }

  ghost predicate ConsistentTable(table: map<string, Tasks>, states: map<string, State>,
                                  posted: map<string, seq<Answer>>)
  {
    forall location :: ConsistentAt(table, states, posted, location)
  }

  function PutEntry(table: map<string, Tasks>, location: string, tasks: Tasks, erase: bool): map<string, Tasks> {
    if erase then table - {location} else table[location := tasks]
  }

  /** A step of one location leaves the others as they are. */
  lemma StepElsewhere(table: map<string, Tasks>, states: map<string, State>, posted: map<string, seq<Answer>>,
                      location: string, erase: bool, s: State)
    requires ConsistentTable(table, states, posted)
    requires Consistent(s, s.tasks, s.answers, location) && (erase ==> s.tasks == EMPTY)
    ensures ConsistentTable(PutEntry(table, location, s.tasks, erase), states[location := s],
      posted[location := s.answers])
  {
    var table', states', posted' := PutEntry(table, location, s.tasks, erase), states[location := s],
      posted[location := s.answers];
    forall other
      ensures ConsistentAt(table', states', posted', other)
    {
      assert ConsistentAt(table, states, posted, other);
    }
  }

  // ----- choosing the task to run -----

  /** The random percentage of a location is drawn when it first competes. */
  function DrawnTasks(tasks: Tasks, interval: nat): Tasks {
    if Busy(tasks) || tasks.interval != 0 then tasks else tasks.(interval := interval)
  }

  function DrawnState(s: State, known: bool, interval: nat): State {
    if !known || Busy(s.tasks) then s else Step(s, Draw(interval))
  }

  /** How a location is found once it has competed: with its percentage drawn, and otherwise as before. */
  ghost predicate DrawnAt(table: map<string, Tasks>, states: map<string, State>,
                          table0: map<string, Tasks>, states0: map<string, State>, draw: string -> nat, l: string)
  {
    && (l in table0 ==> l in table && table[l] == DrawnTasks(table0[l], 50 + draw(l)))
    && StateIn(states, l) == DrawnState(StateIn(states0, l), l in table0, 50 + draw(l))
  }

  ghost predicate SameAt(table: map<string, Tasks>, states: map<string, State>,
                         table0: map<string, Tasks>, states0: map<string, State>, l: string)
  {
    (l in table0 ==> l in table && table[l] == table0[l]) && StateIn(states, l) == StateIn(states0, l)
  }

  /** Locations have competed except those in `rest`. */
  ghost predicate DrawnExcept(table: map<string, Tasks>, states: map<string, State>,
                              table0: map<string, Tasks>, states0: map<string, State>, draw: string -> nat,
                              rest: set<string>)
  {
    && table.Keys == table0.Keys && rest <= table0.Keys
    && forall l ::
      if l in rest then SameAt(table, states, table0, states0, l) else DrawnAt(table, states, table0, states0, draw, l)
  }

  lemma DrawnNext(table: map<string, Tasks>, states: map<string, State>,
                  table': map<string, Tasks>, states': map<string, State>,
                  table0: map<string, Tasks>, states0: map<string, State>,
                  draw: string -> nat, rest: set<string>, location: string)
    requires DrawnExcept(table, states, table0, states0, draw, rest) && location in rest
    requires table' == table[location := DrawnTasks(table[location], 50 + draw(location))]
    requires states' == states[location := DrawnState(StateIn(states, location), true, 50 + draw(location))]
    ensures DrawnExcept(table', states', table0, states0, draw, rest - {location})
  {
    assert SameAt(table, states, table0, states0, location);
    forall l
      ensures if l in rest - {location} then SameAt(table', states', table0, states0, l)
              else DrawnAt(table', states', table0, states0, draw, l)
    {
      assert if l in rest then SameAt(table, states, table0, states0, l)
        else DrawnAt(table, states, table0, states0, draw, l);
    }
  }

  /** Before any location has competed. */
  lemma NothingScanned(table: map<string, Tasks>, states: map<string, State>, draw: string -> nat, pass: nat, now: nat)
    ensures DrawnExcept(table, states, table, states, draw, table.Keys)
    ensures LeastBidder(table, table.Keys - table.Keys, pass, now, "", 0)
  {
  }

  /** `best` is the location among `seen` with the least bid in a pass, "" if there is none. */
  ghost predicate LeastBidder(table: map<string, Tasks>, seen: set<string>, pass: nat, now: nat, best: string,
                              least: nat)
  {
    && (forall l | l in seen && l in table && Bid(table[l], pass, now) != 0 ::
      least != 0 && least <= Bid(table[l], pass, now))
    && (least == 0 ==> best == "")
    && (least != 0 ==> best != "" && best in seen && best in table && Bid(table[best], pass, now) == least)
  }

  lemma LeastBidderNext(table: map<string, Tasks>, tasks: Tasks, seen: set<string>, location: string,
                        pass: nat, now: nat, best: string, least: nat)
    requires LeastBidder(table, seen, pass, now, best, least) && location !in seen && location != ""
    ensures var bid := Bid(tasks, pass, now);
      if bid != 0 && (least == 0 || bid < least) then
        LeastBidder(table[location := tasks], seen + {location}, pass, now, location, bid)
      else LeastBidder(table[location := tasks], seen + {location}, pass, now, best, least)
  {
  }

  predicate NoBids(table: map<string, Tasks>, passes: nat, now: nat) {
    forall l, pass: nat | l in table && pass < passes :: Bid(table[l], pass, now) == 0
  }

  /** Competing again changes nothing. */
  lemma DrawnTwice(table: map<string, Tasks>, states: map<string, State>,
                   table1: map<string, Tasks>, states1: map<string, State>,
                   table0: map<string, Tasks>, states0: map<string, State>, draw: string -> nat)
    requires DrawnExcept(table1, states1, table0, states0, draw, {}) &&
      DrawnExcept(table, states, table1, states1, draw, {})
    ensures table == table1 && DrawnExcept(table, states, table0, states0, draw, {})
  {
    forall l
      ensures (l in table ==> table[l] == table1[l]) && StateIn(states, l) == StateIn(states1, l)
    {
      assert DrawnAt(table, states, table1, states1, draw, l) && DrawnAt(table1, states1, table0, states0, draw, l);
    }
    forall l
      ensures DrawnAt(table, states, table0, states0, draw, l)
    {
      assert DrawnAt(table1, states1, table0, states0, draw, l);
    }
  }

  lemma NoBidsNext(table: map<string, Tasks>, pass: nat, now: nat, least: nat)
    requires NoBids(table, pass, now) && LeastBidder(table, table.Keys, pass, now, "", least)
    ensures NoBids(table, pass + 1, now)
  {
    forall l, p: nat | l in table && p < pass + 1
      ensures Bid(table[l], p, now) == 0
    {
    }
  }

  lemma NewestNext(q: seq<Task>, k: nat, pass: nat)
    requires k < |q|
    ensures Newest(q[..k + 1], pass) ==
      if Eligible(q[k], pass) && (Newest(q[..k], pass) == -1 || q[k].taskid > q[Newest(q[..k], pass)].taskid) then k
      else Newest(q[..k], pass)
  {
    assert q[..k + 1][..k] == q[..k];
  }

  /** Scans a queue for the newest task that may run in the pass. */
  method FindNewest(q: seq<Task>, pass: nat) returns (best: int)
    ensures best == Newest(q, pass)
  {
    best := -1;
    for a := 0 to |q|
      invariant best == Newest(q[..a], pass)
    {
      NewestNext(q, a, pass);
      if !PassNeedsPriority(pass) || q[a].priority {
        if best == -1 || q[a].taskid > q[best].taskid {
          best := a;
        }
      }
    }
    assert q[..|q|] == q;
  }

  class Server {
    var table: map<string, Tasks>
    var results: map<int, seq<TaskResult>>
    /** Everything ever posted, by location. */
    ghost var posted: map<string, seq<Answer>>
    /** What groups have taken of the results posted to them. */
    ghost var taken: map<int, seq<TaskResult>>
    /** The state machines the locations are in. */
    ghost var states: map<string, State>

    /** No location has the empty name, which stands for none. */
    ghost predicate Valid()
      reads this
    {
      "" !in table && ConsistentTable(table, states, posted) && Linked()
    }

    /** The real lists of results are those of the answers. */
    ghost predicate Linked()
      reads this
    {
      Tied(taken, results, posted)
    }

    ghost function StateOf(location: string): State
      reads this
    {
      StateIn(states, location)
    }

    constructor ()
      ensures Valid() && table == map[]
    {
      table, results := map[], map[];
      posted, taken, states := map[], map[], map[];
    }

    method AddLocationDBTaskResult(group: int, r: TaskResult)
      requires Linked()
      modifies this`results, this`posted
      ensures Linked() && results == old(results)[group := Posted(ResultsIn(old(results), group), r)]
      ensures posted == old(posted)[r.location := AnswersIn(old(posted), r.location) + [Answer(group, r)]]
    {
      PostingTies(taken, results, posted, group, r);
      var before := if group in results then results[group] else [];
      var q := before + [r];
      if r.status == OK {
        var a := 0;
        while a < |q| - 1
          invariant 0 <= a <= |before| && |q| == |before| + 1 && q[|before|] == r
          invariant forall i | 0 <= i < a :: q[i] == Upgrade(r, before[i])
          invariant forall i | a <= i < |before| :: q[i] == before[i]
        {
          if q[a].location == r.location && q[a].direction == r.direction && q[a].status != OK {
            q := q[a := q[a].(status := OK, data := r.data)];
          }
          a := a + 1;
        }
        assert q == Posted(before, r);
      }
      results := results[group := q];
      posted := posted[r.location := AnswersIn(posted, r.location) + [Answer(group, r)]];
    }

    /**
     Puts back the entry of a location whose state machine has moved to `s`, or erases an empty one.
     Since the table was valid, only answers for that location have been posted.
     */
    method Store(location: string, tasks: Tasks, erase: bool, ghost s: State, ghost before: map<string, seq<Answer>>)
      requires Linked() && ConsistentTable(table, states, before) && posted == before[location := s.answers]
      requires Consistent(s, s.tasks, s.answers, location) && s.tasks == tasks && (erase ==> tasks == EMPTY)
      requires "" !in table && location != ""
      modifies this`table, this`states
      ensures Valid() && states == old(states)[location := s]
      ensures table == PutEntry(old(table), location, tasks, erase)
    {
      StepElsewhere(table, states, before, location, erase, s);
      table := if erase then table - {location} else table[location := tasks];
      states := states[location := s];
    }

    /** A group takes the results that wait for it. */
    method TakeResults(group: int) returns (r: seq<TaskResult>)
      requires Valid()
      modifies this`results, this`taken
      ensures Valid() && r == ResultsIn(old(results), group)
      ensures results == old(results)[group := []]
      ensures taken == old(taken)[group := ResultsIn(old(taken), group) + r]
    {
      TakingTies(taken, results, posted, group);
      r := if group in results then results[group] else [];
      taken := taken[group := Received(taken, results, group)];
      results := results[group := []];
    }

    /**
     Every task added at a location is queued there, or its group has received one result for it, exactly
     once; and the results are received in the order of the answers.
     */
    lemma ReceivedOnce(location: string, group: int, taskid: nat)
      requires Valid()
      ensures var s, ids := StateOf(location), IdsAt(Received(taken, results, group), location);
        && ids == IdsTo(s.answers, group)
        && Count(s.added, group, taskid) ==
             Count(s.tasks.read.queue, group, taskid) + Count(s.tasks.write.queue, group, taskid) + CountId(ids, taskid)
    {
      assert ConsistentAt(table, states, posted, location);
      assert TiedAt(taken, results, posted, group, location);
      assert Conserved(StateOf(location), group, taskid);
      IdsCountAnswers(StateOf(location).answers, group, taskid);
    }

    method AddLocationDBTask(location: string, task: Task)
      requires Valid() && location != "" && task.taskid > 0 && task.deadline > 0 && task.location == location
      modifies this`table, this`posted, this`states
      ensures Valid() && table == old(table)[location := AddTask(EntryIn(old(table), location), task)]
      ensures states == old(states)[location := Step(old(StateOf(location)), Add(task))]
    {
      ghost var s, before := StateOf(location), posted;
      assert ConsistentAt(table, states, posted, location);
      StepConsistent(s, Add(task), location);
      var tasks := if location in table then table[location] else EMPTY;
      if IsRead(task.direction) {
        tasks := tasks.(read := AddToLane(tasks.read, task));
      } else {
        tasks := tasks.(write := AddToLane(tasks.write, task));
      }
      SameAnswersTie(taken, results, posted, location);
      posted := posted[location := s.answers];
      Store(location, tasks, false, Step(s, Add(task)), before);
    }

    method PostExpired(t: Task, ghost location: string, ghost m: map<string, seq<Answer>>, ghost before: seq<Answer>,
                       ghost taken: seq<Task>)
      requires Linked() && posted == m[location := before + ExpiredAnswers(taken)] && t.location == location
      modifies this`results, this`posted
      ensures Linked() && posted == m[location := before + ExpiredAnswers(taken + [t])]
    {
      ExpiredNext(before, taken, t);
      PutTwice(m, t.location, before + ExpiredAnswers(taken), before + ExpiredAnswers(taken + [t]));
      AddLocationDBTaskResult(t.group, ExpiredAnswer(t).result);
    }

    method PostDone(current: Task, t: Task, ghost m: map<string, seq<Answer>>, ghost before: seq<Answer>,
                    ghost taken: seq<Task>)
      requires Linked() && posted == m[current.location := before + DoneAnswers(current, taken)]
      modifies this`results, this`posted
      ensures Linked() && posted == m[current.location := before + DoneAnswers(current, taken + [t])]
    {
      DoneNext(before, current, taken, t);
      PutTwice(m, current.location, before + DoneAnswers(current, taken), before + DoneAnswers(current, taken + [t]));
      AddLocationDBTaskResult(t.group, DoneAnswer(current, t).result);
    }

    /** Takes out of a lane what `rule` says has expired, answering it; the cached deadlines are rebuilt. */
    method ExpireLane(lane: Lane, rule: Rule, location: string, ghost m: map<string, seq<Answer>>,
                      ghost before: seq<Answer>)
      returns (r: Lane)
      requires Linked() && AllAt(lane.queue, location) && posted == m[location := before]
      modifies this`results, this`posted
      ensures r == WithQueue(lane, Unsettled(lane.queue, rule, true))
      ensures Linked() && posted == m[location := before + ExpiredAnswers(Settled(lane.queue, rule, true))]
    {
      var scan := Scan(lane.queue, 0, 0, 0);
      ghost var k: nat := 0;
      ScanStarts(lane.queue, rule, true);
      assert before + [] == before;
      while scan.at < |scan.queue|
        invariant Scanned(lane.queue, rule, true, k, scan)
        invariant Linked() && posted == m[location := before + ExpiredAnswers(Settled(lane.queue[..k], rule, true))]
        decreases |lane.queue| - k
      {
        var t := scan.queue[scan.at];
        if Takes(rule, t) {
          ScanDrops(lane.queue, rule, true, k, scan);
          PostExpired(t, location, m, before, Settled(lane.queue[..k], rule, true));
          scan := Dropped(scan);
        } else {
          ScanKeeps(lane.queue, rule, true, k, scan);
          scan := Kept(scan, t);
        }
        k := k + 1;
      }
      ScanEnds(lane.queue, rule, true, k, scan);
      r := WithScan(lane, scan);
    }

    method ExpireLanes(tasks: Tasks, location: string, now: nat, ghost m: map<string, seq<Answer>>,
                       ghost before: seq<Answer>)
      returns (r: Tasks)
      requires Linked() && TasksAt(tasks, location) && posted == m[location := before]
      modifies this`results, this`posted
      ensures r == ExpireTasks(tasks, now)
      ensures Linked() && posted == m[location := before + ExpireAnswers(tasks, now)]
    {
      var late, lateWrite := LateRead(tasks.read.running, now), LateWrite(tasks.write.running, now);
      ghost var a, b := ExpiredAnswers(Taken(tasks.read.queue, late)),
        ExpiredAnswers(Taken(tasks.write.queue, lateWrite));
      var read := ExpireLane(tasks.read, late, location, m, before);
      PutTwice(m, location, before + a, (before + a) + b);
      var write := ExpireLane(tasks.write, lateWrite, location, m, before + a);
      assert (before + a) + b == before + (a + b);
      r := tasks.(read := read, write := write);
    }

    /** Drops what expired at one location, and the whole entry if it has been idle for long. */
    method ExpireLocation(location: string, now: nat)
      requires Valid() && location in table
      modifies this`table, this`results, this`posted, this`states
      ensures Valid()
      ensures states == old(states)[location := Step(old(StateOf(location)), Expire(now))]
      ensures var tasks := ExpireTasks(old(table)[location], now);
        table == PutEntry(old(table), location, if Idle(tasks, now) then EMPTY else tasks, Idle(tasks, now))
    {
      ghost var s, before := StateOf(location), posted;
      assert ConsistentAt(table, states, posted, location);
      StepConsistent(s, Expire(now), location);
      SameAnswersTie(taken, results, posted, location);
      posted := posted[location := s.answers];
      var tasks := ExpireLanes(table[location], location, now, before, s.answers);
      var idle := Idle(tasks, now);
      Store(location, if idle then EMPTY else tasks, idle, Step(s, Expire(now)), before);
    }

    /** Drops what expired at every location. */
    method ClearExpiredDBTasks(now: nat)
      requires Valid()
      modifies this`table, this`results, this`posted, this`states
      ensures Valid()
      ensures forall l :: StateOf(l) == if l in old(table) then Step(old(StateOf(l)), Expire(now)) else old(StateOf(l))
    {
      var rest := table.Keys;
      while rest != {}
        invariant Valid() && rest <= old(table).Keys && rest <= table.Keys
        invariant forall l ::
          StateOf(l) == if l in old(table) && l !in rest then Step(old(StateOf(l)), Expire(now)) else old(StateOf(l))
        decreases |rest|
      {
        var location :| location in rest;
        rest := rest - {location};
        ExpireLocation(location, now);
      }
    }

    /** One more task of the queue `whole` is settled. */
    method SettleTask(scan: Scan, rule: Rule, current: Task, ok: bool, ghost whole: seq<Task>, ghost k: nat,
                      ghost m: map<string, seq<Answer>>, ghost before: seq<Answer>)
      returns (r: Scan)
      requires Scanned(whole, rule, ok, k, scan) && scan.at < |scan.queue|
      requires Linked() && posted == m[current.location := before + DoneAnswers(current, Settled(whole[..k], rule, ok))]
      modifies this`results, this`posted
      ensures k < |whole| && Scanned(whole, rule, ok, k + 1, r)
      ensures Linked() && posted ==
        m[current.location := before + DoneAnswers(current, Settled(whole[..k + 1], rule, ok))]
    {
      var t := scan.queue[scan.at];
      if ok && Takes(rule, t) {
        ScanDrops(whole, rule, ok, k, scan);
        PostDone(current, t, m, before, Settled(whole[..k], rule, ok));
        r := Dropped(scan);
      } else {
        ScanKeeps(whole, rule, ok, k, scan);
        r := Kept(scan, Attempted(t, rule));
      }
    }

    /** Settles the tasks of a queue one after another. */
    method SettleQueue(whole: seq<Task>, rule: Rule, current: Task, ok: bool, ghost m: map<string, seq<Answer>>,
                       ghost before: seq<Answer>)
      returns (scan: Scan, ghost k: nat)
      requires Linked() && posted == m[current.location := before]
      modifies this`results, this`posted
      ensures Scanned(whole, rule, ok, k, scan) && scan.at == |scan.queue|
      ensures Linked() && posted ==
        m[current.location := before + DoneAnswers(current, Settled(whole[..k], rule, ok))]
    {
      scan, k := Scan(whole, 0, 0, 0), 0;
      ScanStarts(whole, rule, ok);
      assert before + [] == before;
      while scan.at < |scan.queue|
        invariant Scanned(whole, rule, ok, k, scan)
        invariant Linked() && posted ==
          m[current.location := before + DoneAnswers(current, Settled(whole[..k], rule, ok))]
        decreases |whole| - k
      {
        scan := SettleTask(scan, rule, current, ok, whole, k, m, before);
        k := k + 1;
      }
    }

    /**
     Settles the tasks of a lane that an attempt with `current` was for: a success answers them, a
     failure leaves them queued as executed.  The cached deadlines are rebuilt.
     */
    method SettleLane(lane: Lane, rule: Rule, current: Task, ok: bool, ghost m: map<string, seq<Answer>>,
                      ghost before: seq<Answer>)
      returns (r: Lane)
      requires Linked() && posted == m[current.location := before]
      modifies this`results, this`posted
      ensures r == WithQueue(lane, Unsettled(lane.queue, rule, ok))
      ensures Linked() && posted == m[current.location := before + DoneAnswers(current, Settled(lane.queue, rule, ok))]
    {
      ghost var k;
      var scan;
      scan, k := SettleQueue(lane.queue, rule, current, ok, m, before);
      ScanEnds(lane.queue, rule, ok, k, scan);
      r := WithScan(lane, scan);
    }

    method SettleTasks(tasks: Tasks, current: Task, ghost t: Task, ghost loaded: string, status: Status, now: nat,
                       interval: nat,
                       ghost m: map<string, seq<Answer>>, ghost before: seq<Answer>)
      returns (r: Tasks)
      requires Linked() && current == Loaded(t, loaded) && posted == m[current.location := before]
      modifies this`results, this`posted
      ensures r == FinishTask(tasks, t, status, now, interval)
      ensures Linked() && posted == m[current.location := before + FinishAnswers(tasks, t, status, loaded)]
    {
      var ok := status == OK;
      if IsRead(current.direction) {
        var read := SettleLane(tasks.read, Everything, current, ok, m, before);
        read := if ok then read.(running := 0, lastSuccess := now, lastFail := 0, fails := 0)
                else read.(running := 0, lastSuccess := 0, lastFail := now, fails := read.fails + 1);
        r := tasks.(read := read, interval := interval);
      } else {
        var write := SettleLane(tasks.write, CoveredBy(current), current, ok, m, before);
        write := if ok then write.(running := 0, lastSuccess := now, lastFail := 0, fails := 0)
                 else write.(running := 0, lastSuccess := 0, lastFail := now, fails := write.fails + 1);
        r := tasks.(write := write, interval := interval);
      }
    }

    /** `current` is the worker's copy of the task that runs at its location; `draw` is the random number drawn. */
    method ProcessLocationDBTaskResult(current: Task, ghost t: Task, ghost loaded: string, status: Status, now: nat,
                                       draw: nat)
      requires Valid() && StateOf(t.location).current == Some(t) && current == Loaded(t, loaded) && draw <= 100
      modifies this`table, this`results, this`posted, this`states
      ensures Valid()
      ensures states == old(states)[t.location := Step(old(StateOf(t.location)),
        Finish(status, now, 50 + draw, loaded))]
    {
      var location := current.location;
      ghost var s, before := StateOf(location), posted;
      ghost var e := Finish(status, now, 50 + draw, loaded);
      assert ConsistentAt(table, states, posted, location);
      StepConsistent(s, e, location);
      SameAnswersTie(taken, results, posted, location);
      posted := posted[location := s.answers];
      var tasks := if location in table then table[location] else EMPTY;
      tasks := SettleTasks(tasks, current, t, loaded, status, now, 50 + draw, before, s.answers);
      Store(location, tasks, false, Step(s, e), before);
    }

    /** A location that competes for the first time draws its percentage. */
    method DrawInterval(location: string, draw: nat)
      requires Valid() && location in table && draw <= 100
      modifies this`table, this`posted, this`states
      ensures Valid() && table == old(table)[location := DrawnTasks(old(table)[location], 50 + draw)]
      ensures states == old(states)[location := DrawnState(old(StateOf(location)), true, 50 + draw)]
    {
      ghost var s, before := StateOf(location), posted;
      ghost var s' := DrawnState(s, true, 50 + draw);
      assert ConsistentAt(table, states, posted, location);
      StepConsistent(s, Draw(50 + draw), location);
      SameAnswersTie(taken, results, posted, location);
      posted := posted[location := s.answers];
      var tasks := table[location];
      if !Busy(tasks) {
        if tasks.interval == 0 {
          tasks := tasks.(interval := 50 + draw);
        }
      }
      Store(location, tasks, false, s', before);
    }

    /** One more location competes with the least bid so far. */
    method ScanLocation(location: string, pass: nat, now: nat, draw: string -> nat, best: string, min: nat,
                        ghost table0: map<string, Tasks>, ghost states0: map<string, State>, ghost rest: set<string>)
      returns (better: string, less: nat)
      requires Valid() && draw(location) <= 100 && location in rest
      requires DrawnExcept(table, states, table0, states0, draw, rest)
      requires LeastBidder(table, table.Keys - rest, pass, now, best, min)
      modifies this`table, this`posted, this`states
      ensures Valid() && DrawnExcept(table, states, table0, states0, draw, rest - {location})
      ensures LeastBidder(table, table.Keys - (rest - {location}), pass, now, better, less)
    {
      ghost var t, s, seen := table, states, table.Keys - rest;
      DrawInterval(location, draw(location));
      DrawnNext(t, s, table, states, table0, states0, draw, rest, location);
      var bid := Bid(table[location], pass, now);
      LeastBidderNext(t, table[location], seen, location, pass, now, best, min);
      better, less := best, min;
      if bid != 0 && (min == 0 || bid < min) {
        less := bid;
        better := location;
      }
      assert table.Keys - (rest - {location}) == seen + {location};
    }

    /** The location with the least bid in a pass, "" if there is none; `draw` gives the random numbers. */
    method ScanLocations(pass: nat, now: nat, draw: string -> nat) returns (best: string, ghost least: nat)
      requires Valid() && IsPass(pass) && forall l :: draw(l) <= 100
      modifies this`table, this`posted, this`states
      ensures Valid() && DrawnExcept(table, states, old(table), old(states), draw, {})
      ensures LeastBidder(table, table.Keys, pass, now, best, least)
    {
      var rest := table.Keys;
      var min: nat := 0;
      best := "";
      NothingScanned(table, states, draw, pass, now);
      while rest != {}
        invariant Valid() && DrawnExcept(table, states, old(table), old(states), draw, rest)
        invariant LeastBidder(table, table.Keys - rest, pass, now, best, min)
        decreases |rest|
      {
        var location :| location in rest;
        best, min := ScanLocation(location, pass, now, draw, best, min, old(table), old(states), rest);
        rest := rest - {location};
      }
      least := min;
      assert table.Keys - rest == table.Keys;
    }

    /** Runs the newest eligible task of a location that won a pass. */
    method StartNewest(location: string, pass: nat, now: nat) returns (task: Task)
      requires Valid() && location in table && CanStart(table[location], pass, now)
      modifies this`table, this`posted, this`states
      ensures Valid() && states == old(states)[location := Step(old(StateOf(location)), Start(pass, now))]
      ensures task.location == location && StateOf(location).current == Some(task)
    {
      ghost var s, before := StateOf(location), posted;
      assert ConsistentAt(table, states, posted, location);
      StepConsistent(s, Start(pass, now), location);
      SameAnswersTie(taken, results, posted, location);
      posted := posted[location := s.answers];
      var tasks := table[location];
      BidHasTask(tasks, pass, now);
      if PassWrites(pass) {
        var best := FindNewest(tasks.write.queue, pass);
        task := tasks.write.queue[best];
      } else {
        var best := FindNewest(tasks.read.queue, pass);
        task := tasks.read.queue[best];
      }
      if IsRead(task.direction) {
        tasks := tasks.(read := tasks.read.(running := task.taskid));
      } else {
        tasks := tasks.(write := tasks.write.(running := task.taskid));
      }
      Store(location, tasks, false, Step(s, Start(pass, now)), before);
    }

    /**
     Picks, in the first pass in which a location bids, the location with the least bid, and runs its
     newest eligible task; nothing runs only if no location bids in any pass.
     */
    method GetLocationDBTaskToRun(now: nat, draw: string -> nat)
      returns (task: Option<Task>, ghost drawn: map<string, Tasks>, ghost drawnStates: map<string, State>,
        ghost pass: nat)
      requires Valid() && forall l :: draw(l) <= 100
      modifies this`table, this`posted, this`states
      ensures Valid() && DrawnExcept(drawn, drawnStates, old(table), old(states), draw, {})
      ensures NoBids(drawn, pass, now)
      ensures task.None? ==> pass == 4 && table == drawn && states == drawnStates
      ensures task.Some? ==> var l := task.value.location;
        && l in drawn && IsPass(pass) && Bid(drawn[l], pass, now) != 0
        && (forall other | other in drawn && Bid(drawn[other], pass, now) != 0 ::
          Bid(drawn[l], pass, now) <= Bid(drawn[other], pass, now))
        && states == drawnStates[l := Step(StateIn(drawnStates, l), Start(pass, now))]
        && StateOf(l).current == task
    {
      var p: nat := 0;
      var best := "";
      ghost var least: nat := 0;
      drawn, drawnStates := table, states;
      while p < 4
        invariant p <= 4 && Valid() && table == drawn && states == drawnStates && best == ""
        invariant p == 0 ==> table == old(table) && states == old(states)
        invariant p > 0 ==> DrawnExcept(drawn, drawnStates, old(table), old(states), draw, {})
        invariant NoBids(drawn, p, now)
      {
        best, least := ScanLocations(p, now, draw);
        if p > 0 {
          DrawnTwice(table, states, drawn, drawnStates, old(table), old(states), draw);
        }
        drawn, drawnStates := table, states;
        if best != "" {
          break;
        }
        NoBidsNext(table, p, now, least);
        p := p + 1;
      }
      pass := p;
      if best == "" {
        return None, drawn, drawnStates, pass;
      }
      var t := StartNewest(best, p, now);
      task := Some(t);
    }
  }
}
