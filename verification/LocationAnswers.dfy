/**
 What each step of a location leaves queued and what it answers, told by deadlines, numbers and directions.

 The tasks that stay and the tasks that go are picked from the queues by plain comparisons, in their order.
 */
module LocationAnswers {
  import opened Wrappers
  import opened Sequences
  import opened LocationQueue

  // ----- queues as filtered -----

  lemma {:induction false} LeftIsFilter(q: seq<Task>, rule: Rule, stays: Task -> bool)
    requires forall i | 0 <= i < |q| :: stays(q[i]) <==> !Takes(rule, q[i])
    ensures Left(q, rule) == Filter(q, stays)
  {
    if q != [] {
      var rest := q[..|q| - 1];
      assert forall i | 0 <= i < |rest| :: rest[i] == q[i];
      LeftIsFilter(rest, rule, stays);
    }
  }

  lemma {:induction false} TakenIsFilter(q: seq<Task>, rule: Rule, goes: Task -> bool)
    requires forall i | 0 <= i < |q| :: goes(q[i]) <==> Takes(rule, q[i])
    ensures Taken(q, rule) == Filter(q, goes)
  {
    if q != [] {
      var rest := q[..|q| - 1];
      assert forall i | 0 <= i < |rest| :: rest[i] == q[i];
      TakenIsFilter(rest, rule, goes);
    }
  }

  // ----- expiry -----

  /**
   After an expiry the reads that are not yet due, and all of them while a read runs, are queued as before,
   and so are the writes that are not yet due or numbered up to the running one; no other task is.
   */
  lemma ExpiryLeaves(s: State, now: nat, readStays: Task -> bool, writeStays: Task -> bool)
    requires forall t: Task :: readStays(t) <==> s.tasks.read.running != 0 || t.deadline > now
    requires forall t: Task :: writeStays(t) <==> t.taskid <= s.tasks.write.running || t.deadline > now
    ensures var tasks := Step(s, Expire(now)).tasks;
      && tasks.read.queue == Filter(s.tasks.read.queue, readStays)
      && tasks.write.queue == Filter(s.tasks.write.queue, writeStays)
  {
    LeftIsFilter(s.tasks.read.queue, LateRead(s.tasks.read.running, now), readStays);
    LeftIsFilter(s.tasks.write.queue, LateWrite(s.tasks.write.running, now), writeStays);
  }

  // ----- which lane -----

  predicate Reading(q: seq<Task>) {
    forall t | t in q :: t.direction == Read || t.direction == ReadIds
  }

  predicate Writing(q: seq<Task>) {
    forall t | t in q :: t.direction == Write || t.direction == Insert || t.direction == Delete
  }

  /** A task that is added is queued last, behind the reads or behind the writes. */
  lemma AddedIsLast(s: State, t: Task)
    ensures var isRead := t.direction == Read || t.direction == ReadIds;
      var before, after := s.tasks, Step(s, Add(t)).tasks;
      && after.read.queue == (if isRead then before.read.queue + [t] else before.read.queue)
      && after.write.queue == (if isRead then before.write.queue else before.write.queue + [t])
      && Step(s, Add(t)).answers == s.answers && Step(s, Add(t)).current == s.current
  {
  }

  /** In every run the reads and the writes of a location are apart. */
  lemma ReadsAndWritesApart(events: seq<Event>)
    requires AllProper(events)
    ensures Reading(Run(events).tasks.read.queue) && Writing(Run(events).tasks.write.queue)
  {
    RunKeepsInv(events);
  }

  // ----- what an expiry answers -----

  predicate ExpiredReads(answers: seq<Answer>, from: nat, gone: seq<Task>) {
    && from + |gone| <= |answers|
    && forall i | 0 <= i < |gone| ::
      var t := gone[i];
      answers[from + i] == Answer(t.group, TaskResult(t.location, t.direction, t.taskid,
        if t.executed then ReadFailed else ExecutionDeadline, ""))
  }

  predicate ExpiredWrites(answers: seq<Answer>, from: nat, gone: seq<Task>) {
    && from + |gone| <= |answers|
    && forall i | 0 <= i < |gone| ::
      var t := gone[i];
      answers[from + i] == Answer(t.group, TaskResult(t.location, t.direction, t.taskid,
        if t.executed then WriteFailed else ExecutionDeadline, t.data))
  }

  lemma {:induction false} ExpiredAnswersAt(gone: seq<Task>)
    ensures |ExpiredAnswers(gone)| == |gone|
    ensures forall i | 0 <= i < |gone| :: ExpiredAnswers(gone)[i] == ExpiredAnswer(gone[i])
  {
    if gone != [] {
      ExpiredAnswersAt(gone[..|gone| - 1]);
    }
  }

  lemma ReadsExpire(before: seq<Answer>, gone: seq<Task>, after: seq<Answer>)
    requires Reading(gone)
    ensures ExpiredReads(before + ExpiredAnswers(gone) + after, |before|, gone) && |ExpiredAnswers(gone)| == |gone|
  {
    ExpiredAnswersAt(gone);
    assert forall i | 0 <= i < |gone| :: gone[i] in gone;
  }

  lemma WritesExpire(before: seq<Answer>, gone: seq<Task>)
    requires Writing(gone)
    ensures ExpiredWrites(before + ExpiredAnswers(gone), |before|, gone) && |ExpiredAnswers(gone)| == |gone|
  {
    ExpiredAnswersAt(gone);
    assert forall i | 0 <= i < |gone| :: gone[i] in gone;
  }

  lemma {:induction false} FilterMembers(q: seq<Task>, wanted: Task -> bool)
    ensures forall t :: t in Filter(q, wanted) <==> t in q && wanted(t)
  {
    if q != [] {
      FilterMembers(q[..|q| - 1], wanted);
      assert q == q[..|q| - 1] + [q[|q| - 1]];
    }
  }

  lemma BothExpire(before: seq<Answer>, lateReads: seq<Task>, lateWrites: seq<Task>)
    requires Reading(lateReads) && Writing(lateWrites)
    ensures var answers := before + (ExpiredAnswers(lateReads) + ExpiredAnswers(lateWrites));
      && |answers| == |before| + |lateReads| + |lateWrites| && answers[..|before|] == before
      && ExpiredReads(answers, |before|, lateReads) && ExpiredWrites(answers, |before| + |lateReads|, lateWrites)
  {
    Associative(before, ExpiredAnswers(lateReads), ExpiredAnswers(lateWrites));
    ReadsExpire(before, lateReads, ExpiredAnswers(lateWrites));
    WritesExpire(before + ExpiredAnswers(lateReads), lateWrites);
  }

  lemma LateReads(q: seq<Task>, running: nat, now: nat, goes: Task -> bool)
    requires Reading(q)
    requires forall t: Task :: goes(t) <==> running == 0 && t.deadline <= now
    ensures Taken(q, LateRead(running, now)) == Filter(q, goes) && Reading(Filter(q, goes))
  {
    TakenIsFilter(q, LateRead(running, now), goes);
    FilterMembers(q, goes);
  }

  lemma LateWrites(q: seq<Task>, running: nat, now: nat, goes: Task -> bool)
    requires Writing(q)
    requires forall t: Task :: goes(t) <==> t.taskid > running && t.deadline <= now
    ensures Taken(q, LateWrite(running, now)) == Filter(q, goes) && Writing(Filter(q, goes))
  {
    TakenIsFilter(q, LateWrite(running, now), goes);
    FilterMembers(q, goes);
  }

  /**
   An expiry answers exactly the tasks it removes, the reads before the writes: a task that was never tried
   has missed its deadline, one that was tried has failed.
   */
  lemma ExpiryAnswers(s: State, now: nat, readGoes: Task -> bool, writeGoes: Task -> bool)
    requires Reading(s.tasks.read.queue) && Writing(s.tasks.write.queue)
    requires forall t: Task :: readGoes(t) <==> s.tasks.read.running == 0 && t.deadline <= now
    requires forall t: Task :: writeGoes(t) <==> t.taskid > s.tasks.write.running && t.deadline <= now
    ensures var lateReads, lateWrites := Filter(s.tasks.read.queue, readGoes), Filter(s.tasks.write.queue, writeGoes);
      var answers := Step(s, Expire(now)).answers;
      && |answers| == |s.answers| + |lateReads| + |lateWrites| && answers[..|s.answers|] == s.answers
      && ExpiredReads(answers, |s.answers|, lateReads) && ExpiredWrites(answers, |s.answers| + |lateReads|, lateWrites)
  {
    var lateReads, lateWrites := Filter(s.tasks.read.queue, readGoes), Filter(s.tasks.write.queue, writeGoes);
    LateReads(s.tasks.read.queue, s.tasks.read.running, now, readGoes);
    LateWrites(s.tasks.write.queue, s.tasks.write.running, now, writeGoes);
    BothExpire(s.answers, lateReads, lateWrites);
  }

  /** An expiry leaves the rest of the location alone, or, if nothing is left, drops an entry unused for ten minutes. */
  lemma ExpiryDropsUnused(s: State, now: nat)
    ensures var before, after := s.tasks, Step(s, Expire(now)).tasks;
      var unused := after.read.queue == [] && after.write.queue == [] &&
        before.read.lastSuccess + 600 < now && before.read.lastFail + 600 < now &&
        before.write.lastSuccess + 600 < now && before.write.lastFail + 600 < now;
      if unused then after == Tasks(Lane([], 0, 0, 0, 0, 0, 0), Lane([], 0, 0, 0, 0, 0, 0), 0)
      else
        && after.interval == before.interval
        && after.read == before.read.(queue := after.read.queue, deadline := after.read.deadline,
          priorityDeadline := after.read.priorityDeadline)
        && after.write == before.write.(queue := after.write.queue, deadline := after.write.deadline,
          priorityDeadline := after.write.priorityDeadline)
  {
  }

  // ----- what a result answers -----

  predicate Successes(answers: seq<Answer>, from: nat, gone: seq<Task>, current: Task, data: string) {
    && from + |gone| <= |answers|
    && forall i | 0 <= i < |gone| ::
      answers[from + i] ==
        Answer(gone[i].group, TaskResult(current.location, current.direction, gone[i].taskid, OK, data))
  }

  lemma {:induction false} DoneAnswersAt(current: Task, gone: seq<Task>)
    ensures |DoneAnswers(current, gone)| == |gone|
    ensures forall i | 0 <= i < |gone| :: DoneAnswers(current, gone)[i] == DoneAnswer(current, gone[i])
  {
    if gone != [] {
      DoneAnswersAt(current, gone[..|gone| - 1]);
    }
  }

  lemma TasksSucceed(before: seq<Answer>, gone: seq<Task>, current: Task)
    ensures Successes(before + DoneAnswers(current, gone), |before|, gone, current, current.data)
    ensures |DoneAnswers(current, gone)| == |gone|
  {
    DoneAnswersAt(current, gone);
  }

  /**
   A successful write is the answer of the writes of its direction that are not newer, and of the insertions that
   are not newer than a plain write; all others stay queued in their order.
   */
  lemma SuccessfulWriteAnswers(s: State, now: nat, interval: nat, loaded: string, goes: Task -> bool,
      stays: Task -> bool)
    requires s.current.Some? && s.current.value.direction in {Write, Insert, Delete}
    requires var t := s.current.value;
      forall u: Task :: goes(u) <==>
        u.taskid <= t.taskid && (u.direction == t.direction || (u.direction == Insert && t.direction == Write))
    requires forall u: Task :: stays(u) <==> !goes(u)
    ensures var after, gone := Step(s, Finish(OK, now, interval, loaded)), Filter(s.tasks.write.queue, goes);
      && after.tasks.read == s.tasks.read && after.current.None?
      && after.tasks.write.queue == Filter(s.tasks.write.queue, stays)
      && |after.answers| == |s.answers| + |gone| && after.answers[..|s.answers|] == s.answers
      && Successes(after.answers, |s.answers|, gone, s.current.value, s.current.value.data)
  {
    var t := s.current.value;
    LeftIsFilter(s.tasks.write.queue, CoveredBy(t), stays);
    TakenIsFilter(s.tasks.write.queue, CoveredBy(t), goes);
    TasksSucceed(s.answers, Filter(s.tasks.write.queue, goes), t);
  }

  lemma {:induction false} NoneLeft(q: seq<Task>)
    ensures Left(q, Everything) == [] && Taken(q, Everything) == q
  {
    if q != [] {
      NoneLeft(q[..|q| - 1]);
    }
  }

  /** A successful read is the answer of every read that is queued. */
  lemma SuccessfulReadAnswersAll(s: State, now: nat, interval: nat, loaded: string)
    requires s.current.Some? && s.current.value.direction in {Read, ReadIds}
    ensures var after, gone := Step(s, Finish(OK, now, interval, loaded)), s.tasks.read.queue;
      && after.tasks.write == s.tasks.write && after.current.None? && after.tasks.read.queue == []
      && |after.answers| == |s.answers| + |gone| && after.answers[..|s.answers|] == s.answers
      && Successes(after.answers, |s.answers|, gone, s.current.value, loaded)
  {
    var t := s.current.value;
    NoneLeft(s.tasks.read.queue);
    TasksSucceed(s.answers, s.tasks.read.queue, t.(data := loaded));
  }

  /** After a failed read the reads are queued as before, all marked as tried, and none is answered. */
  lemma FailedReadAnswersNone(s: State, status: Status, now: nat, interval: nat, loaded: string)
    requires s.current.Some? && s.current.value.direction in {Read, ReadIds} && status != OK
    ensures var after, q := Step(s, Finish(status, now, interval, loaded)), s.tasks.read.queue;
      && after.answers == s.answers && after.current.None? && after.tasks.write == s.tasks.write
      && |after.tasks.read.queue| == |q|
      && forall i | 0 <= i < |q| :: after.tasks.read.queue[i] == q[i].(executed := true)
  {
    assert s.answers + [] == s.answers;
  }

  /** After a failed write the writes are queued as before, those it was for marked as tried, and none is answered. */
  lemma FailedWriteAnswersNone(s: State, status: Status, now: nat, interval: nat, loaded: string)
    requires s.current.Some? && s.current.value.direction in {Write, Insert, Delete} && status != OK
    ensures var after, q, t := Step(s, Finish(status, now, interval, loaded)), s.tasks.write.queue, s.current.value;
      && after.answers == s.answers && after.current.None? && after.tasks.read == s.tasks.read
      && |after.tasks.write.queue| == |q|
      && forall i | 0 <= i < |q| ::
        var tried := q[i].taskid <= t.taskid &&
          (q[i].direction == t.direction || (q[i].direction == Insert && t.direction == Write));
        after.tasks.write.queue[i] == q[i].(executed := q[i].executed || tried)
  {
    assert s.answers + [] == s.answers;
  }

  /**
   A result ends the run of its task and tells when its lane last succeeded or failed, and how often
   it failed since.
   */
  lemma ResultIsRemembered(s: State, status: Status, now: nat, interval: nat, loaded: string)
    requires s.current.Some?
    ensures var after, t := Step(s, Finish(status, now, interval, loaded)).tasks, s.current.value;
      var isRead := t.direction in {Read, ReadIds};
      var was, left := if isRead then s.tasks.read else s.tasks.write, if isRead then after.read else after.write;
      && left.running == 0 && after.interval == interval
      && (status == OK ==> left.lastSuccess == now && left.lastFail == 0 && left.fails == 0)
      && (status != OK ==> left.lastSuccess == 0 && left.lastFail == now && left.fails == was.fails + 1)
  {
  }

  // ----- what is started -----

  /**
   A rested location with nothing running competes with the least deadlines of its priority writes, its priority
   reads, all its reads and all its writes, in this order of passes; a busy one does not compete.
   */
  lemma BidsByPass(tasks: Tasks, now: nat)
    requires forall pass | 0 <= pass < 4 :: Rested(tasks, pass, now)
    ensures tasks.read.running == 0 && tasks.write.running == 0 ==>
      && Bid(tasks, 0, now) == tasks.write.priorityDeadline && Bid(tasks, 1, now) == tasks.read.priorityDeadline
      && Bid(tasks, 2, now) == tasks.read.deadline && Bid(tasks, 3, now) == tasks.write.deadline
    ensures tasks.read.running != 0 || tasks.write.running != 0 ==>
      forall pass | 0 <= pass < 4 :: Bid(tasks, pass, now) == 0
  {
  }

  predicate StartsNewest(q: seq<Task>, priority: bool, t: Task) {
    && t in q && (priority ==> t.priority)
    && forall i | 0 <= i < |q| && (priority ==> q[i].priority) :: q[i].taskid <= t.taskid
  }

  /** The first pass with a bid starts the newest task of its lane, among those with priority if it is for them. */
  lemma NewestIsStarted(s: State, pass: nat, now: nat)
    requires Inv(s) && CanStart(s.tasks, pass, now)
    ensures var s' := Step(s, Start(pass, now));
      && pass < 4 && s'.current.Some? && s'.answers == s.answers
      && var t := s'.current.value;
      && (pass == 0 ==> StartsNewest(s.tasks.write.queue, true, t))
      && (pass == 1 ==> StartsNewest(s.tasks.read.queue, true, t))
      && (pass == 2 ==> StartsNewest(s.tasks.read.queue, false, t))
      && (pass == 3 ==> StartsNewest(s.tasks.write.queue, false, t))
      && (if pass == 0 || pass == 3 then s'.tasks == s.tasks.(write := s.tasks.write.(running := t.taskid))
          else s'.tasks == s.tasks.(read := s.tasks.read.(running := t.taskid)))
  {
    BidHasTask(s.tasks, pass, now);
  }

  // ----- how long an operation waits -----

  /** After a success the passes wait 2, 2, 3 and 10 seconds, at a scale of a hundred percent. */
  lemma RestAfterSuccess(tasks: Tasks, now: nat)
    requires tasks.interval == 100
    requires tasks.read.lastSuccess != 0 && tasks.read.lastFail == 0
    requires tasks.write.lastSuccess != 0 && tasks.write.lastFail == 0
    ensures Rested(tasks, 0, now) <==> tasks.write.lastSuccess + 2 <= now
    ensures Rested(tasks, 1, now) <==> tasks.read.lastSuccess + 2 <= now
    ensures Rested(tasks, 2, now) <==> tasks.read.lastSuccess + 3 <= now
    ensures Rested(tasks, 3, now) <==> tasks.write.lastSuccess + 10 <= now
  {
  }

  lemma FailureDelays(fails: nat)
    ensures FailureDelay(0, fails) == FailureDelay(1, fails) == if fails < 10 then 1 + 2 * fails else 20
    ensures FailureDelay(2, fails) == if fails < 15 then 1 + 2 * fails else 30
    ensures FailureDelay(3, fails) == if fails <= 17 then 9 + fails * fails else 300
  {
    if fails >= 18 {
      assert fails * fails >= 18 * fails;
    } else {
      assert fails * fails <= 17 * fails;
    }
  }

  lemma ScaleOfHundred(delay: nat)
    requires delay >= 1
    ensures Scaled(delay, 100) == delay
  {
  }

  /** After failures they wait longer and longer, up to 20, 20, 30 and 300 seconds. */
  lemma RestAfterFailure(tasks: Tasks, now: nat)
    requires tasks.interval == 100
    requires tasks.read.lastSuccess == 0 && tasks.read.lastFail != 0
    requires tasks.write.lastSuccess == 0 && tasks.write.lastFail != 0
    ensures var r, w := tasks.read.fails, tasks.write.fails;
      && (Rested(tasks, 0, now) <==> tasks.write.lastFail + (if w < 10 then 1 + 2 * w else 20) <= now)
      && (Rested(tasks, 1, now) <==> tasks.read.lastFail + (if r < 10 then 1 + 2 * r else 20) <= now)
      && (Rested(tasks, 2, now) <==> tasks.read.lastFail + (if r < 15 then 1 + 2 * r else 30) <= now)
      && (Rested(tasks, 3, now) <==> tasks.write.lastFail + (if w <= 17 then 9 + w * w else 300) <= now)
  {
    FailureDelays(tasks.read.fails);
    FailureDelays(tasks.write.fails);
    ScaleOfHundred(FailureDelay(0, tasks.write.fails));
    ScaleOfHundred(FailureDelay(1, tasks.read.fails));
    ScaleOfHundred(FailureDelay(2, tasks.read.fails));
    ScaleOfHundred(FailureDelay(3, tasks.write.fails));
  }

  /** A delay is scaled by percent, rounded down, and never below a second. */
  lemma ScaledByPercent(delay: nat, interval: nat)
    ensures var scaled := Scaled(delay, interval);
      if delay * interval < 200 then scaled == 1 else 100 * scaled <= delay * interval < 100 * scaled + 100
  {
  }

  /** Without a success and without a failure there is nothing to wait for. */
  lemma UnusedIsRested(tasks: Tasks, pass: nat, now: nat)
    requires tasks.read.lastSuccess == tasks.read.lastFail == tasks.write.lastSuccess == tasks.write.lastFail == 0
    ensures Rested(tasks, pass, now)
  {
  }
}
