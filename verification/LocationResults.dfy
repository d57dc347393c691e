/**
 The results that are posted to groups, against the answers the state machines of locations give.
 */
module LocationResults {
  import opened Numbers
  import opened Sequences
  import opened LocationQueue

  // ----- posting -----

  /** A group's results with one more; a success also turns that location's earlier failures into successes. */
  function Posted(results: seq<TaskResult>, r: TaskResult): seq<TaskResult> {
    (if r.status == OK then Upgraded(results, r) else results) + [r]
  }

  predicate Upgrades(r: TaskResult, earlier: TaskResult) {
    r.status == OK && earlier.location == r.location && earlier.direction == r.direction && earlier.status != OK
  }

  function Upgrade(r: TaskResult, earlier: TaskResult): TaskResult {
    if Upgrades(r, earlier) then earlier.(status := OK, data := r.data) else earlier
  }

  function Upgraded(results: seq<TaskResult>, r: TaskResult): (q: seq<TaskResult>)
    ensures |q| == |results|
    ensures forall i | 0 <= i < |results| :: q[i] == Upgrade(r, results[i])
  {
    seq(|results|, i requires 0 <= i < |results| => Upgrade(r, results[i]))
  }

  /**
   A result is posted behind the earlier ones, which stay as they are, except that a success gives its data to the
   failures at its location and in its direction, and turns them into successes.
   */
  lemma PostedKeepsOthers(results: seq<TaskResult>, r: TaskResult, i: nat)
    requires i < |results|
    ensures |Posted(results, r)| == |results| + 1 && Posted(results, r)[|results|] == r
    ensures var q := results[i];
      Posted(results, r)[i] ==
        if r.status == OK && q.status != OK && q.location == r.location && q.direction == r.direction then
          TaskResult(q.location, q.direction, q.taskid, OK, r.data)
        else q
  {
  }

  // ----- results and answers -----

  function AnswersIn(posted: map<string, seq<Answer>>, location: string): seq<Answer> {
    if location in posted then posted[location] else []
  }

  function ResultsIn(results: map<int, seq<TaskResult>>, group: int): seq<TaskResult> {
    if group in results then results[group] else []
  }

  /** The tasks of a location that results are for, in order. */
  function IdsAt(results: seq<TaskResult>, location: string): seq<nat> {
    if results == [] then []
    else
      var n := |results| - 1;
      IdsAt(results[..n], location) + if results[n].location == location then [results[n].taskid] else []
  }

  /** The tasks of a group that are answered, in order. */
  function IdsTo(answers: seq<Answer>, group: int): seq<nat> {
    if answers == [] then []
    else
      var n := |answers| - 1;
      IdsTo(answers[..n], group) + if answers[n].group == group then [answers[n].result.taskid] else []
  }

  lemma IdsAtAppend(results: seq<TaskResult>, r: TaskResult, location: string)
    ensures IdsAt(results + [r], location) ==
      IdsAt(results, location) + if r.location == location then [r.taskid] else []
  {
    assert (results + [r])[..|results|] == results;
  }

  lemma IdsToAppend(answers: seq<Answer>, a: Answer, group: int)
    ensures IdsTo(answers + [a], group) == IdsTo(answers, group) + if a.group == group then [a.result.taskid] else []
  {
    assert (answers + [a])[..|answers|] == answers;
  }

  lemma {:induction false} IdsAtConcat(a: seq<TaskResult>, b: seq<TaskResult>, location: string)
    ensures IdsAt(a + b, location) == IdsAt(a, location) + IdsAt(b, location)
  {
    if b == [] {
      assert a + b == a;
    } else {
      var n := |b| - 1;
      assert (a + b)[..|a| + n] == a + b[..n];
      IdsAtConcat(a, b[..n], location);
    }
  }

  /** Results that differ only in what became of the tasks. */
  predicate SameTasks(a: seq<TaskResult>, b: seq<TaskResult>) {
    |a| == |b| && forall i | 0 <= i < |a| :: a[i].taskid == b[i].taskid && a[i].location == b[i].location
  }

  lemma {:induction false} SameTasksSameIds(a: seq<TaskResult>, b: seq<TaskResult>, location: string)
    requires SameTasks(a, b)
    ensures IdsAt(a, location) == IdsAt(b, location)
  {
    if a != [] {
      SameTasksSameIds(a[..|a| - 1], b[..|b| - 1], location);
    }
  }

  lemma PostedIds(results: seq<TaskResult>, r: TaskResult, location: string)
    ensures IdsAt(Posted(results, r), location) ==
      IdsAt(results, location) + if r.location == location then [r.taskid] else []
  {
    var earlier := if r.status == OK then Upgraded(results, r) else results;
    assert SameTasks(earlier, results);
    SameTasksSameIds(earlier, results, location);
    IdsAtAppend(earlier, r, location);
  }

  // ----- what groups have received -----

  /** The results a group has taken, and those that wait for it. */
  function Received(taken: map<int, seq<TaskResult>>, results: map<int, seq<TaskResult>>, group: int): seq<TaskResult> {
    ResultsIn(taken, group) + ResultsIn(results, group)
  }

  ghost predicate TiedAt(taken: map<int, seq<TaskResult>>, results: map<int, seq<TaskResult>>,
                         posted: map<string, seq<Answer>>, group: int, location: string)
  {
    IdsAt(Received(taken, results, group), location) == IdsTo(AnswersIn(posted, location), group)
  }

  /** Each group has received results for exactly the tasks of each location that were answered to it, in order. */
  ghost predicate Tied(taken: map<int, seq<TaskResult>>, results: map<int, seq<TaskResult>>,
                       posted: map<string, seq<Answer>>)
  {
    forall group: int, location: string :: TiedAt(taken, results, posted, group, location)
  }

  /** One more result is received. */
  lemma ReceivedMore(t: seq<TaskResult>, w: seq<TaskResult>, r: TaskResult, location: string)
    ensures IdsAt(t + Posted(w, r), location) ==
      IdsAt(t + w, location) + if r.location == location then [r.taskid] else []
  {
    var more := if r.location == location then [r.taskid] else [];
    IdsAtConcat(t, w, location);
    IdsAtConcat(t, Posted(w, r), location);
    PostedIds(w, r, location);
    Associative(IdsAt(t, location), IdsAt(w, location), more);
  }

  lemma AnsweredMore(answers: seq<Answer>, group: int, r: TaskResult, other: int)
    ensures IdsTo(answers + [Answer(group, r)], other) == IdsTo(answers, other) + if group == other then [r.taskid]
      else []
  {
    IdsToAppend(answers, Answer(group, r), other);
  }

  lemma PostingTiesAt(taken: map<int, seq<TaskResult>>, results: map<int, seq<TaskResult>>,
                      posted: map<string, seq<Answer>>, group: int, r: TaskResult, other: int, location: string)
    requires TiedAt(taken, results, posted, other, location)
    ensures TiedAt(taken, results[group := Posted(ResultsIn(results, group), r)],
                   posted[r.location := AnswersIn(posted, r.location) + [Answer(group, r)]], other, location)
  {
    var t, w, answers := ResultsIn(taken, other), ResultsIn(results, other), AnswersIn(posted, location);
    ReceivedMore(t, w, r, location);
    AnsweredMore(answers, group, r, other);
    assert IdsAt(t + w, location) + [] == IdsAt(t + w, location) && IdsTo(answers, other) + [] == IdsTo(answers, other);
  }

  lemma PostingTies(taken: map<int, seq<TaskResult>>, results: map<int, seq<TaskResult>>,
                    posted: map<string, seq<Answer>>, group: int, r: TaskResult)
    requires Tied(taken, results, posted)
    ensures Tied(taken, results[group := Posted(ResultsIn(results, group), r)],
                 posted[r.location := AnswersIn(posted, r.location) + [Answer(group, r)]])
  {
    var results' := results[group := Posted(ResultsIn(results, group), r)];
    var posted' := posted[r.location := AnswersIn(posted, r.location) + [Answer(group, r)]];
    forall other: int, location: string
      ensures TiedAt(taken, results', posted', other, location)
    {
      assert TiedAt(taken, results, posted, other, location);
      PostingTiesAt(taken, results, posted, group, r, other, location);
    }
  }

  lemma TakingTies(taken: map<int, seq<TaskResult>>, results: map<int, seq<TaskResult>>,
                   posted: map<string, seq<Answer>>, group: int)
    requires Tied(taken, results, posted)
    ensures Tied(taken[group := Received(taken, results, group)], results[group := []], posted)
  {
    var taken', results' := taken[group := Received(taken, results, group)], results[group := []];
    forall other: int, location: string
      ensures TiedAt(taken', results', posted, other, location)
    {
      assert TiedAt(taken, results, posted, other, location);
      assert Received(taken', results', other) == Received(taken, results, other);
    }
  }

  /** Only what is posted for locations matters. */
  lemma SameAnswersTie(taken: map<int, seq<TaskResult>>, results: map<int, seq<TaskResult>>,
                       posted: map<string, seq<Answer>>, location: string)
    requires Tied(taken, results, posted)
    ensures Tied(taken, results, posted[location := AnswersIn(posted, location)])
  {
    var posted' := posted[location := AnswersIn(posted, location)];
    forall group: int, other: string
      ensures TiedAt(taken, results, posted', group, other)
    {
      assert TiedAt(taken, results, posted, group, other);
    }
  }

  // ----- counting -----

  function CountId(ids: seq<nat>, taskid: nat): nat {
    if ids == [] then 0 else CountId(ids[..|ids| - 1], taskid) + One(ids[|ids| - 1] == taskid)
  }

  lemma CountIdAppend(ids: seq<nat>, id: nat, taskid: nat)
    ensures CountId(ids + [id], taskid) == CountId(ids, taskid) + One(id == taskid)
  {
    assert (ids + [id])[..|ids|] == ids;
  }

  /** A group receives a result for a task as often as the task is answered to it. */
  lemma {:induction false} IdsCountAnswers(answers: seq<Answer>, group: int, taskid: nat)
    ensures CountId(IdsTo(answers, group), taskid) == CountAnswers(answers, group, taskid)
  {
    if answers != [] {
      var n := |answers| - 1;
      IdsCountAnswers(answers[..n], group, taskid);
      CountIdAppend(IdsTo(answers[..n], group), answers[n].result.taskid, taskid);
      assert IdsTo(answers[..n], group) + [] == IdsTo(answers[..n], group);
    }
  }
}
