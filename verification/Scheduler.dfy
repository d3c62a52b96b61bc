/** The background scheduler (scheduler/engine.go) and the handlers that touch its table
    (scheduler/handler.go): a tick runs at most ten due tasks, oldest first, and no due task
    waits longer than the tasks ahead of it allow. */
module Scheduler {
  import opened Wrappers
  import opened Collections
  import opened Cron

  const BATCH := 10

  datatype Task = Task(cron: string, enabled: bool, nextRun: Option<int>, lastRun: Option<int>)

  type Tasks = map<int, Task>

  predicate Due(t: Task, now: int) {
    t.enabled && t.nextRun.Some? && t.nextRun.value <= now
  }

  function DueIds(tasks: Tasks, now: int): set<int> {
    set id | id in tasks && Due(tasks[id], now)
  }

  /** A result the query of a tick may return: the due tasks, oldest first, at most ten; ties in any order. */
  ghost predicate Selection(tasks: Tasks, now: int, picked: seq<int>) {
    && Distinct(picked) && Elems(picked) <= DueIds(tasks, now)
    && (|picked| == BATCH || (|picked| < BATCH && Elems(picked) == DueIds(tasks, now)))
    && (forall i, j :: 0 <= i < j < |picked| ==> NoLater(tasks, picked[i], picked[j]))
    && forall i, id :: 0 <= i < |picked| && id in DueIds(tasks, now) && id !in picked ==> NoLater(tasks, picked[i], id)
  }

  predicate NoLater(tasks: Tasks, a: int, b: int) {
    && a in tasks && b in tasks && tasks[a].nextRun.Some? && tasks[b].nextRun.Some?
    && tasks[a].nextRun.value <= tasks[b].nextRun.value
  }

  ghost function RanTask(t: Task, now: int, cal: Calendar): Task {
    t.(lastRun := Some(now), nextRun := Some(NextRun(t.cron, now, cal)))
  }

  // ----- what a run writes

  /** The wall clock at the minute meets all five fields of the expression. */
  ghost predicate Fires(cron: string, cal: Calendar, minute: int) {
    var fields := Fields(cron);
    && |fields| >= 5
    && FieldMatches(fields[0], cal(minute).minute) && FieldMatches(fields[1], cal(minute).hour)
    && FieldMatches(fields[2], cal(minute).day) && FieldMatches(fields[3], cal(minute).month)
    && FieldMatches(fields[4], cal(minute).weekday)
  }

  /** The minute starts after now, and no later than 525600 minutes after it; times are in nanoseconds. */
  predicate Soon(now: int, minute: int) {
    now < minute * 60_000_000_000 <= now + 525_600 * 60_000_000_000
  }

  /** The start of the first minute the expression fires at, or a day later when it does not fire soon. */
  ghost predicate NextTime(cron: string, now: int, cal: Calendar, time: int) {
    || (exists m :: time == m * 60_000_000_000 && FiresFirst(cron, now, cal, m))
    || (time == now + 86_400_000_000_000 && forall k :: Soon(now, k) ==> !Fires(cron, cal, k))
  }

  ghost predicate FiresFirst(cron: string, now: int, cal: Calendar, minute: int) {
    && Soon(now, minute) && Fires(cron, cal, minute)
    && forall k :: Soon(now, k) && k < minute ==> !Fires(cron, cal, k)
  }

  lemma SoonIsWithin(now: int, minute: int)
    ensures Soon(now, minute) <==> WithinSearch(now, minute)
  {
  }

  lemma FiresIsMatch(cron: string, cal: Calendar, minute: int)
    ensures Fires(cron, cal, minute) <==> |Fields(cron)| >= 5 && Matches(Fields(cron), cal(minute))
  {
    hide Fields, FieldMatches;
  }

  /** The time the search finds is the next time, and there is only one. */
  lemma NextTimeIs(cron: string, now: int, cal: Calendar, time: int)
    ensures NextTime(cron, now, cal, time) <==> time == NextRun(cron, now, cal)
  {
    hide Fields, FieldMatches, NextRun, Matches, Soon, Fires, WithinSearch;
    var fields := Fields(cron);
    var m := NextRunIsLeast(cron, now, cal);
    forall k
      ensures Soon(now, k) <==> WithinSearch(now, k)
      ensures Fires(cron, cal, k) <==> |fields| >= 5 && Matches(fields, cal(k))
    {
      SoonIsWithin(now, k);
      FiresIsMatch(cron, cal, k);
    }
    if |fields| >= 5 && SomeMatch(fields, now, cal) {
      EarlierIsLater(now, m);
      assert FiresFirst(cron, now, cal, m);
      assert Soon(now, m) && Fires(cron, cal, m);
      forall n | FiresFirst(cron, now, cal, n)
        ensures n == m
      {
      }
    }
  }

  lemma EarlierIsLater(now: int, m: int)
    requires Soon(now, m)
    ensures forall k :: Soon(now, k) ==> now < k * MINUTE
  {
  }

  /** What a run makes of a row: it ran now, runs again at the next time of its own expression, and
      is otherwise as it was. */
  ghost predicate Ran(before: Task, after: Task, now: int, cal: Calendar) {
    && after.cron == before.cron && after.enabled == before.enabled && after.lastRun == Some(now)
    && after.nextRun.Some? && NextTime(before.cron, now, cal, after.nextRun.value)
  }

  lemma RanTaskRan(t: Task, now: int, cal: Calendar)
    ensures Ran(t, RanTask(t, now, cal), now, cal)
  {
    hide NextTime, NextRun;
    NextTimeIs(t.cron, now, cal, NextRun(t.cron, now, cal));
  }

  /** The table after the picked tasks ran. */
  ghost function AfterRuns(tasks: Tasks, picked: set<int>, now: int, cal: Calendar): Tasks {
    map id | id in tasks :: if id in picked then RanTask(tasks[id], now, cal) else tasks[id]
  }

  ghost predicate SupportedAt(tasks: Tasks, id: int)
    requires id in tasks
  {
    Supported(Fields(tasks[id].cron))
  }

  ghost predicate AllSupported(tasks: Tasks) {
    forall id {:trigger SupportedAt(tasks, id)} :: id in tasks ==> SupportedAt(tasks, id)
  }

  lemma WriteSupported(tasks: Tasks, id: int, t: Task)
    requires AllSupported(tasks) && Supported(Fields(t.cron))
    ensures AllSupported(tasks[id := t])
  {
    var next := tasks[id := t];
    forall j | j in next
      ensures SupportedAt(next, j)
    {
      if j != id {
        assert SupportedAt(tasks, j);
      }
    }
  }

  lemma DeleteSupported(tasks: Tasks, id: int)
    requires AllSupported(tasks)
    ensures AllSupported(tasks - {id})
  {
    forall j | j in tasks - {id}
      ensures SupportedAt(tasks - {id}, j)
    {
      assert SupportedAt(tasks, j);
    }
  }

  datatype Execution = Execution(task: int, startedAt: int)

  function Started(picked: seq<int>, now: int): seq<Execution> {
    seq(|picked|, i requires 0 <= i < |picked| => Execution(picked[i], now))
  }

  lemma RunsStep(tasks: Tasks, picked: seq<int>, i: nat, now: int, cal: Calendar)
    requires Distinct(picked) && i < |picked| && picked[i] in tasks
    ensures var before := AfterRuns(tasks, Elems(picked[..i]), now, cal);
            picked[i] in before &&
            AfterRuns(tasks, Elems(picked[..i + 1]), now, cal) ==
                before[picked[i] := RanTask(before[picked[i]], now, cal)]
  {
    assert picked[..i + 1] == picked[..i] + [picked[i]];
    DistinctPrefix(picked, i, i);
  }

  class Engine {
    var tasks: Tasks
    var executions: seq<Execution>
    const cal: Calendar

    constructor (cal: Calendar)
      ensures tasks == map[] && executions == [] && this.cal == cal
    {
      this.cal := cal;
      tasks, executions := map[], [];
    }

    ghost predicate Valid()
      reads this
    {
      ValidCalendar(cal) && AllSupported(tasks)
    }

    /** The query of a tick. */
    method SelectDue(now: int) returns (picked: seq<int>)
      ensures Selection(tasks, now, picked)
    {
      var waiting := DueIds(tasks, now);
      picked := [];
      while waiting != {} && |picked| < BATCH
        invariant waiting == DueIds(tasks, now) - Elems(picked) && Elems(picked) <= DueIds(tasks, now)
        invariant |picked| <= BATCH && Distinct(picked)
        invariant forall i, j :: 0 <= i < j < |picked| ==> NoLater(tasks, picked[i], picked[j])
        invariant forall i, id :: 0 <= i < |picked| && id in waiting ==> NoLater(tasks, picked[i], id)
        decreases waiting
      {
        OldestExists(tasks, waiting);
        var id :| id in waiting && forall j :: j in waiting ==> NoLater(tasks, id, j);
        picked := picked + [id];
        waiting := waiting - {id};
      }
      forall id | id in DueIds(tasks, now) && id !in picked
        ensures id in waiting
      {
        assert id !in Elems(picked);
      }
    }

    /** Runs one task and moves its next run past now. */
    method RunOne(id: int, now: int)
      requires ValidCalendar(cal) && id in tasks && SupportedAt(tasks, id)
      modifies this
      ensures old(Valid()) ==> Valid()
      ensures tasks == old(tasks)[id := RanTask(old(tasks)[id], now, cal)]
      ensures Ran(old(tasks)[id], tasks[id], now, cal)
      ensures executions == old(executions) + [Execution(id, now)]
    {
      hide Ran, Fields, NextRun, Supported, ValidCalendar, AllSupported;
      RanTaskRan(tasks[id], now, cal);
      executions := executions + [Execution(id, now)];
      if AllSupported(tasks) {
        WriteSupported(tasks, id, RanTask(tasks[id], now, cal));
      }
      var next := NextCronTime(tasks[id].cron, now, cal);
      tasks := tasks[id := tasks[id].(lastRun := Some(now), nextRun := Some(next))];
    }

    /** Runs the picked tasks one after the other. */
    method RunAll(picked: seq<int>, now: int)
      requires Valid() && Distinct(picked) && forall i :: 0 <= i < |picked| ==> picked[i] in tasks
      modifies this
      ensures Valid() && tasks == AfterRuns(old(tasks), Elems(picked), now, cal)
      ensures executions == old(executions) + Started(picked, now)
    {
      ghost var before, log := tasks, executions;
      assert picked[..0] == [];
      for i := 0 to |picked|
        invariant Valid() && tasks == AfterRuns(before, Elems(picked[..i]), now, cal)
        invariant executions == log + Started(picked[..i], now)
      {
        RunsStep(before, picked, i, now, cal);
        assert picked[..i + 1] == picked[..i] + [picked[i]];
        assert SupportedAt(tasks, picked[i]);
        RunOne(picked[i], now);
      }
      assert picked[..|picked|] == picked;
    }

    method Tick(now: int) returns (picked: seq<int>)
      requires Valid()
      modifies this
      ensures Valid() && Selection(old(tasks), now, picked)
      ensures tasks == AfterRuns(old(tasks), Elems(picked), now, cal)
      ensures forall id :: id in picked ==> id in old(tasks) && id in tasks && Ran(old(tasks)[id], tasks[id], now, cal)
      ensures executions == old(executions) + Started(picked, now)
    {
      hide Ran, RanTask;
      picked := SelectDue(now);
      forall id | id in picked
        ensures id in tasks && Ran(tasks[id], RanTask(tasks[id], now, cal), now, cal)
      {
        assert id in Elems(picked);
        RanTaskRan(tasks[id], now, cal);
      }
      forall i | 0 <= i < |picked|
        ensures picked[i] in tasks
      {
        assert picked[i] in Elems(picked);
      }
      RunAll(picked, now);
    }

    /** The handler that runs a task by hand. */
    method RunTask(id: int, now: int) returns (found: bool)
      requires ValidCalendar(cal) && (id in tasks ==> SupportedAt(tasks, id))
      modifies this
      ensures (old(Valid()) ==> Valid()) && found == (id in old(tasks))
      ensures tasks == if found then old(tasks)[id := RanTask(old(tasks)[id], now, cal)] else old(tasks)
      ensures found ==> Ran(old(tasks)[id], tasks[id], now, cal)
      ensures executions == old(executions) + if found then [Execution(id, now)] else []
    {
      found := id in tasks;
      if found {
        RunOne(id, now);
      }
    }

    /** A new task is enabled and has no next run yet. */
    method CreateTask(id: int, name: string, cron: string) returns (created: bool)
      requires id !in tasks
      modifies this`tasks
      ensures old(Valid()) && Supported(Fields(cron)) ==> Valid()
      ensures created == (name != "")
      ensures tasks == if created then old(tasks)[id := Task(cron, true, None, None)] else old(tasks)
    {
      if name == "" {
        return false;
      }
      if AllSupported(tasks) && Supported(Fields(cron)) {
        WriteSupported(tasks, id, Task(cron, true, None, None));
      }
      tasks := tasks[id := Task(cron, true, None, None)];
      created := true;
    }

    /** Editing the expression leaves the next run as it is. */
    method UpdateTask(id: int, cron: string) returns (found: bool)
      modifies this`tasks
      ensures old(Valid()) && Supported(Fields(cron)) ==> Valid()
      ensures found == (id in old(tasks))
      ensures tasks == if found then old(tasks)[id := old(tasks)[id].(cron := cron)] else old(tasks)
    {
      found := id in tasks;
      if found {
        if AllSupported(tasks) && Supported(Fields(cron)) {
          WriteSupported(tasks, id, tasks[id].(cron := cron));
        }
        tasks := tasks[id := tasks[id].(cron := cron)];
      }
    }

    method DeleteTask(id: int)
      modifies this`tasks
      ensures old(Valid()) ==> Valid()
      ensures tasks == old(tasks) - {id}
    {
      if AllSupported(tasks) {
        DeleteSupported(tasks, id);
      }
      tasks := tasks - {id};
    }
  }

  lemma {:induction false} OldestExists(tasks: Tasks, ids: set<int>)
    requires ids != {} && forall id :: id in ids ==> id in tasks && tasks[id].nextRun.Some?
    ensures exists id :: id in ids && forall j :: j in ids ==> NoLater(tasks, id, j)
    decreases |ids|
  {
    var x := Member(ids);
    var rest := ids - {x};
    if rest == {} {
      forall j | j in ids
        ensures NoLater(tasks, x, j)
      {
        assert j !in rest;
      }
    } else {
      OldestExists(tasks, rest);
      var y :| y in rest && forall j :: j in rest ==> NoLater(tasks, y, j);
      var oldest := if NoLater(tasks, x, y) then x else y;
      forall j | j in ids
        ensures NoLater(tasks, oldest, j)
      {
        assert j == x || j in rest;
      }
    }
  }

  /** What the query of a tick selects: rows enabled and due, at most ten, in the order of their next
      run, all of them if they are fewer than ten, and none later than one it leaves. */
  lemma SelectionMeans(tasks: Tasks, now: int, picked: seq<int>)
    requires Selection(tasks, now, picked)
    ensures |picked| <= 10
    ensures forall id :: id in picked ==> id in tasks && tasks[id].enabled && tasks[id].nextRun.Some? &&
                                          tasks[id].nextRun.value <= now
    ensures forall i, j :: 0 <= i < j < |picked| ==>
              picked[i] != picked[j] && tasks[picked[i]].nextRun.value <= tasks[picked[j]].nextRun.value
    ensures forall id :: id in tasks && tasks[id].enabled && tasks[id].nextRun.Some? &&
                         tasks[id].nextRun.value <= now && id !in picked ==>
              |picked| == 10 && forall i :: 0 <= i < 10 ==> tasks[picked[i]].nextRun.value <= tasks[id].nextRun.value
  {
    forall id | id in picked
      ensures id in DueIds(tasks, now)
    {
      assert id in Elems(picked);
    }
    forall id | id in DueIds(tasks, now) && id !in picked
      ensures |picked| == 10 && forall i :: 0 <= i < 10 ==> NoLater(tasks, picked[i], id)
    {
      assert id !in Elems(picked);
    }
  }

  // ----- bounded waiting

  datatype Event =
    | Tick(now: int, picked: seq<int>)
    | RunByHand(id: int, now: int)
    | Create(id: int, cron: string)
    | Update(id: int, cron: string)
    | Delete(id: int)

  ghost function Apply(tasks: Tasks, e: Event, cal: Calendar): Tasks {
    match e
    case Tick(now, picked) => AfterRuns(tasks, Elems(picked), now, cal)
    case RunByHand(id, now) => if id in tasks then tasks[id := RanTask(tasks[id], now, cal)] else tasks
    case Create(id, cron) => tasks[id := Task(cron, true, None, None)]
    case Update(id, cron) => if id in tasks then tasks[id := tasks[id].(cron := cron)] else tasks
    case Delete(id) => tasks - {id}
  }

  /** An event that may happen at or after time. */
  ghost predicate Possible(tasks: Tasks, e: Event, time: int) {
    match e
    case Tick(now, picked) => now >= time && Selection(tasks, now, picked)
    case RunByHand(_, now) => now >= time
    case Create(id, _) => id !in tasks
    case Update(_, _) => true
    case Delete(_) => true
  }

  function TimeAfter(e: Event, time: int): int {
    match e
    case Tick(now, _) => now
    case RunByHand(_, now) => now
    case _ => time
  }

  /** A history from a table and a time on, with a clock that does not run backwards. */
  ghost predicate History(tasks: Tasks, events: seq<Event>, time: int, cal: Calendar)
    decreases |events|
  {
    events == [] ||
    (Possible(tasks, events[0], time) && History(Apply(tasks, events[0], cal), events[1..],
        TimeAfter(events[0], time), cal))
  }

  predicate Runs(e: Event, id: int) {
    (e.Tick? && id in e.picked) || (e.RunByHand? && e.id == id)
  }

  predicate HasRun(events: seq<Event>, id: int) {
    exists i :: 0 <= i < |events| && Runs(events[i], id)
  }

  function Ticks(events: seq<Event>): nat {
    if events == [] then 0 else (if events[0].Tick? then 1 else 0) + Ticks(events[1..])
  }

  /** The tasks that are no later than id, itself included. */
  function Ahead(tasks: Tasks, id: int): set<int>
    requires id in tasks && tasks[id].nextRun.Some?
  {
    set j | j in tasks && tasks[j].enabled && tasks[j].nextRun.Some? &&
        tasks[j].nextRun.value <= tasks[id].nextRun.value
  }

  /** What one event does to a due task that it neither runs nor deletes: the task stays due, no
      task overtakes it, and a tick takes ten tasks from ahead of it. */
  lemma WaitingStep(tasks: Tasks, e: Event, id: int, time: int, cal: Calendar)
    requires id in tasks && Due(tasks[id], time) && Possible(tasks, e, time)
    requires !Runs(e, id) && e != Delete(id)
    ensures var next := Apply(tasks, e, cal);
            && id in next && Due(next[id], TimeAfter(e, time))
            && Ahead(next, id) <= Ahead(tasks, id)
            && |Ahead(next, id)| + (if e.Tick? then BATCH else 0) <= |Ahead(tasks, id)|
  {
    var next := Apply(tasks, e, cal);
    match e {
      case Tick(now, picked) =>
        assert id in DueIds(tasks, now) && id !in picked;
        forall j | j in Elems(picked)
          ensures j in Ahead(tasks, id) && j !in Ahead(next, id)
        {
          var i :| 0 <= i < |picked| && picked[i] == j;
          assert j in DueIds(tasks, now) && NoLater(tasks, picked[i], id);
          NextRunIsLater(tasks[j].cron, now, cal);
        }
        DistinctCardinality(picked);
        SubsetCardinality(Ahead(next, id), Ahead(tasks, id) - Elems(picked));
      case RunByHand(other, now) =>
        if other in tasks {
          NextRunIsLater(tasks[other].cron, now, cal);
        }
        SubsetCardinality(Ahead(next, id), Ahead(tasks, id));
      case Create(_, _) => SubsetCardinality(Ahead(next, id), Ahead(tasks, id));
      case Update(_, _) => SubsetCardinality(Ahead(next, id), Ahead(tasks, id));
      case Delete(_) => SubsetCardinality(Ahead(next, id), Ahead(tasks, id));
    }
  }

  lemma {:induction false} NotRunYet(tasks: Tasks, events: seq<Event>, id: int, time: int, cal: Calendar)
    requires id in tasks && Due(tasks[id], time) && History(tasks, events, time, cal)
    requires !HasRun(events, id) && Delete(id) !in events
    ensures BATCH * Ticks(events) < |Ahead(tasks, id)|
    decreases |events|
  {
    if events == [] {
      assert id in Ahead(tasks, id);
    } else {
      var e, rest := events[0], events[1..];
      assert !Runs(e, id);
      forall i | 0 <= i < |rest|
        ensures !Runs(rest[i], id)
      {
        assert rest[i] == events[i + 1];
      }
      WaitingStep(tasks, e, id, time, cal);
      NotRunYet(Apply(tasks, e, cal), rest, id, TimeAfter(e, time), cal);
    }
  }

  /** Bounded waiting: a due task with m tasks no later than it, itself included, has run by the
      time of the tick number ceil(m / 10), whatever else is created, edited, deleted or run. */
  lemma BoundedWaiting(tasks: Tasks, events: seq<Event>, id: int, time: int, cal: Calendar)
    requires id in tasks && Due(tasks[id], time) && History(tasks, events, time, cal)
    requires Delete(id) !in events
    requires Ticks(events) >= (|Ahead(tasks, id)| + BATCH - 1) / BATCH
    ensures HasRun(events, id)
  {
    if !HasRun(events, id) {
      NotRunYet(tasks, events, id, time, cal);
    }
  }

  // ----- the times a history leaves

  ghost function TableAfter(tasks: Tasks, events: seq<Event>, cal: Calendar): Tasks {
    if events == [] then tasks
    else Apply(TableAfter(tasks, events[..|events| - 1], cal), events[|events| - 1], cal)
  }

  /** The event may change the times of the row. */
  predicate Retimes(e: Event, id: int) {
    Runs(e, id) || e == Delete(id) || (e.Create? && e.id == id)
  }

  lemma RunTimes(tasks: Tasks, e: Event, id: int, cal: Calendar)
    requires id in tasks && Runs(e, id)
    ensures id in Apply(tasks, e, cal) && Ran(tasks[id], Apply(tasks, e, cal)[id], e.now, cal)
  {
    hide NextTime, NextRun;
    RanTaskRan(tasks[id], e.now, cal);
    assert e.Tick? ==> id in Elems(e.picked);
  }

  lemma OthersKeepTimes(tasks: Tasks, e: Event, id: int, cal: Calendar)
    requires id in tasks && !Retimes(e, id)
    ensures id in Apply(tasks, e, cal)
    ensures Apply(tasks, e, cal)[id] == tasks[id].(cron := Apply(tasks, e, cal)[id].cron)
    ensures !(e.Update? && e.id == id) ==> Apply(tasks, e, cal)[id] == tasks[id]
  {
    hide NextRun;
  }

  /** A row keeps the times of its last run, whatever happens to it short of deleting it: when it
      runs next was decided by the expression it had when it ran last. */
  lemma {:induction false} LastRunDecides(tasks: Tasks, events: seq<Event>, i: nat, id: int, cal: Calendar)
    requires i < |events| && Runs(events[i], id) && id in TableAfter(tasks, events[..i], cal)
    requires forall j :: i < j < |events| ==> !Retimes(events[j], id)
    ensures id in TableAfter(tasks, events, cal)
    ensures var before, after := TableAfter(tasks, events[..i], cal)[id], TableAfter(tasks, events, cal)[id];
            && Ran(before, after.(cron := before.cron), events[i].now, cal)
            && ((forall j :: i < j < |events| ==> !(events[j].Update? && events[j].id == id)) ==>
                Ran(before, after, events[i].now, cal))
    decreases |events|
  {
    hide Apply, NextTime;
    var n := |events| - 1;
    if i == n {
      RunTimes(TableAfter(tasks, events[..i], cal), events[i], id, cal);
    } else {
      assert events[..n][..i] == events[..i];
      LastRunDecides(tasks, events[..n], i, id, cal);
      OthersKeepTimes(TableAfter(tasks, events[..n], cal), events[n], id, cal);
    }
  }

  /** A row with a next run has run, and its next run is after its last. */
  ghost predicate RunsAfterLast(t: Task) {
    && (t.nextRun.Some? <==> t.lastRun.Some?)
    && (t.nextRun.Some? ==> t.nextRun.value > t.lastRun.value)
  }

  ghost predicate TimesInOrder(tasks: Tasks) {
    forall id :: id in tasks ==> RunsAfterLast(tasks[id])
  }

  /** From an empty table on, a row has a next run exactly when it has run, and then a later one. */
  lemma {:induction false} TimesStayInOrder(tasks: Tasks, events: seq<Event>, cal: Calendar)
    requires TimesInOrder(tasks)
    ensures TimesInOrder(TableAfter(tasks, events, cal))
  {
    hide NextRun;
    if events != [] {
      var n := |events| - 1;
      TimesStayInOrder(tasks, events[..n], cal);
      var before := TableAfter(tasks, events[..n], cal);
      forall t, now
        ensures RunsAfterLast(RanTask(t, now, cal))
      {
        NextRunIsLater(t.cron, now, cal);
      }
    }
  }
}
