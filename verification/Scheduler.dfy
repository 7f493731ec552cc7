// The aging scheduler of kernel/sched/sched.c on one core, with one thread per task.
module Scheduler {
  import opened Common

  type Pid = nat

  // size_t counters wrap at 2^64; TASK_MAX_PRIORITY is the largest value.
  const MAX: nat := 0xffff_ffff_ffff_ffff

  function Inc(n: nat): nat { if n >= MAX then 0 else n + 1 }

  datatype Status = Running | Waiting | Yield

  // struct sched_task with its only thread: status, idle_cnt, and the same two fields of the thread.
  datatype Task = Task(status: Status, idle: nat, thread: Status, threadIdle: nat)

  datatype State = State(tasks: map<Pid, Task>, core: Option<Pid>)

  // ----- choosing -----

  function Age(t: Task): Task { t.(idle := Inc(t.idle)) }

  ghost function Aged(tasks: map<Pid, Task>): map<Pid, Task> {
    map p | p in tasks :: Age(tasks[p])
  }

  predicate Ready(t: Task) { t.status == Waiting && t.idle > 0 }

  // The result of find_next_task on the aged tasks: a ready task of the largest idle count, if any is ready.
  ghost predicate IsNext(aged: map<Pid, Task>, next: Option<Pid>) {
    match next
    case None => forall q | q in aged :: !Ready(aged[q])
    case Some(p) =>
      p in aged && Ready(aged[p]) && forall q | q in aged && Ready(aged[q]) :: aged[q].idle <= aged[p].idle
  }

  // ----- the steps -----

  // find_next_thread on the chosen task can run its thread.
  predicate ThreadReady(t: Task) { t.thread == Waiting && Inc(t.threadIdle) > 0 }

  // What reschedule does to the task it takes off the core.
  function Preempted(t: Task): Task {
    t.(status := if t.status == Yield then Yield else Waiting, thread := if t.thread == Yield then Yield else Waiting)
  }

  // What a switch leaves of a task that it does not start: off the core it waits, unless it has yielded.
  predicate Stopped(before: Task, after: Task, onCore: bool) {
    && after.idle == before.idle && after.threadIdle == before.threadIdle
    && (before.status == Yield || !onCore ==> after.status == before.status)
    && (before.status != Yield && onCore ==> after.status == Waiting)
    && (before.thread == Yield || !onCore ==> after.thread == before.thread)
    && (before.thread != Yield && onCore ==> after.thread == Waiting)
  }

  function Preempt(tasks: map<Pid, Task>, core: Option<Pid>): map<Pid, Task> {
    match core
    case None => tasks
    case Some(c) => if c in tasks then tasks[c := Preempted(tasks[c])] else tasks
  }

  // The tick puts a task on the core.
  ghost predicate Dispatches(s: State, next: Option<Pid>) {
    next.Some? && next.value in s.tasks && ThreadReady(s.tasks[next.value]) && (s.core.Some? ==>
      s.core.value in s.tasks)
  }

  // reschedule, once find_next_task has returned `next`.
  ghost function Tick(s: State, next: Option<Pid>): State {
    var aged := Aged(s.tasks);
    if next.None? || next.value !in aged then s.(tasks := aged)
    else if !Dispatches(s, next) then
      s.(tasks := aged[next.value := aged[next.value].(threadIdle := Inc(aged[next.value].threadIdle))])
    else
      State(Preempt(aged, s.core)[next.value := Task(Running, 0, Running, 0)], next)
  }

  datatype Event =
    | TimerTick(next: Option<Pid>)
    | Dequeue(p: Pid)
    | Requeue(p: Pid)
    | Spawn(p: Pid, status: Status)
    | Exit

  ghost predicate Enabled(s: State, e: Event) {
    match e
    case TimerTick(next) => IsNext(Aged(s.tasks), next)
    case Dequeue(p) => p in s.tasks
    case Requeue(p) => p in s.tasks
    case Spawn(p, status) => p !in s.tasks && status != Running && s.core != Some(p)
    case Exit => s.core.Some?
  }

  ghost function Next(s: State, e: Event): State
    requires Enabled(s, e)
  {
    match e
    case TimerTick(next) => Tick(s, next)
    case Dequeue(p) => s.(tasks := s.tasks[p := s.tasks[p].(status := Yield, thread := Yield)])
    case Requeue(p) => s.(tasks := s.tasks[p := Task(Waiting, MAX, Waiting, MAX)])
    case Spawn(p, status) => s.(tasks := s.tasks[p := Task(status, 0, Waiting, 0)])
    case Exit => State(s.tasks - {s.core.value}, None)
  }

  // ----- the invariant -----

  ghost predicate TaskOk(s: State, p: Pid)
    requires p in s.tasks
  {
    var t := s.tasks[p];
    && t.idle <= MAX && t.threadIdle <= MAX
    && (t.status == Waiting ==> t.thread == Waiting)
    && (t.status == Running || t.thread == Running ==> s.core == Some(p))
    && (s.core == Some(p) && t.status == Yield ==> t.thread == Yield)
    && (s.core == Some(p) && t.status == Running ==> t.thread == Running)
  }

  ghost predicate Inv(s: State) {
    && (s.core.Some? ==> s.core.value in s.tasks)
    && forall p | p in s.tasks :: TaskOk(s, p)
  }

  lemma StepKeeps(s: State, e: Event)
    requires Inv(s) && Enabled(s, e)
    ensures Inv(Next(s, e))
  {
    var t := Next(s, e);
    forall p | p in t.tasks
      ensures TaskOk(t, p)
    {
      if p in s.tasks { assert TaskOk(s, p); }
      if e.TimerTick? && s.core.Some? { assert TaskOk(s, s.core.value); }
    }
  }

  // At most one task is running, the core's own.
  lemma OneRunning(s: State, p: Pid, q: Pid)
    requires Inv(s) && p in s.tasks && q in s.tasks
    requires s.tasks[p].status == Running && s.tasks[q].status == Running
    ensures p == q && s.core == Some(p)
  {
    assert TaskOk(s, p) && TaskOk(s, q);
  }

  // ----- bounded waiting -----

  // The idle count a task will have when find_next_task compares it.
  function Eff(t: Task): nat { Inc(t.idle) }

  // The tasks that would be compared as at least as idle as task `w`.
  ghost function Ahead(s: State, w: Pid): set<Pid>
    requires w in s.tasks
  {
    set q | q in s.tasks && q != w && Eff(s.tasks[q]) >= Eff(s.tasks[w])
  }

  // Those of them, and `w` itself, whose thread counter is at its maximum: they cost one extra tick.
  ghost function Lagging(s: State, w: Pid): set<Pid>
    requires w in s.tasks
  {
    set q | q in s.tasks && (q == w || Eff(s.tasks[q]) >= Eff(s.tasks[w])) && s.tasks[q].threadIdle == MAX
  }

  // Task `w` waits, with a counter that is neither fresh nor about to wrap.
  ghost predicate Waits(s: State, w: Pid) {
    w in s.tasks && s.tasks[w].status == Waiting && 1 <= s.tasks[w].idle < MAX - 1
  }

  ghost predicate Touches(e: Event, w: Pid) {
    match e
    case TimerTick(next) => false
    case Dequeue(p) => p == w
    case Requeue(p) => p == w
    case Spawn(p, _) => false
    case Exit => false
  }

  // A tick that runs some other task takes that task out of the way and lets none in.
  lemma DispatchShrinks(s: State, next: Option<Pid>, w: Pid)
    requires Inv(s) && Waits(s, w) && IsNext(Aged(s.tasks), next) && Dispatches(s, next) && next != Some(w)
    ensures var t := Tick(s, next);
      && w in t.tasks && t.tasks[w].status == Waiting && t.tasks[w].idle == s.tasks[w].idle + 1
      && Ahead(t, w) <= Ahead(s, w) - {next.value} && next.value in Ahead(s, w)
      && Lagging(t, w) <= Lagging(s, w)
  {
    var aged := Aged(s.tasks);
    assert aged[w] == Age(s.tasks[w]) && Ready(aged[w]);
    assert aged[next.value] == Age(s.tasks[next.value]);
    var t := Tick(s, next);
    forall q | q in t.tasks
      ensures q in s.tasks
      ensures q == next.value || t.tasks[q].idle == Eff(s.tasks[q])
      ensures q == next.value || t.tasks[q].threadIdle == s.tasks[q].threadIdle
    {
      assert aged[q] == Age(s.tasks[q]);
    }
  }

  // A tick that runs nothing was spent on a thread counter at its maximum, which is then at 0.
  lemma LostTickShrinks(s: State, next: Option<Pid>, w: Pid)
    requires Inv(s) && Waits(s, w) && IsNext(Aged(s.tasks), next) && !Dispatches(s, next)
    ensures var t := Tick(s, next);
      && w in t.tasks && t.tasks[w].status == Waiting && t.tasks[w].idle == s.tasks[w].idle + 1
      && Ahead(t, w) <= Ahead(s, w)
      && next.Some? && next.value in Lagging(s, w) && Lagging(t, w) <= Lagging(s, w) - {next.value}
  {
    var aged := Aged(s.tasks);
    assert aged[w] == Age(s.tasks[w]) && Ready(aged[w]);
    var p := next.value;
    assert aged[p] == Age(s.tasks[p]) && TaskOk(s, p);
    var t := Tick(s, next);
    forall q | q in t.tasks
      ensures q in s.tasks
      ensures t.tasks[q].idle == Eff(s.tasks[q])
      ensures q == p || t.tasks[q].threadIdle == s.tasks[q].threadIdle
    {
      assert aged[q] == Age(s.tasks[q]);
    }
  }

  // Nothing that happens between ticks puts a task ahead of `w`: new tasks start at 0, requeued ones wrap to 0.
  lemma OtherShrinks(s: State, e: Event, w: Pid)
    requires Inv(s) && Waits(s, w) && Enabled(s, e) && !e.TimerTick? && !Touches(e, w) && (e.Exit? ==>
      s.core != Some(w))
    ensures var t := Next(s, e);
      && w in t.tasks && t.tasks[w] == s.tasks[w]
      && Ahead(t, w) <= Ahead(s, w) && Lagging(t, w) <= Lagging(s, w)
  {}

  // ----- whole runs -----

  ghost predicate IsRun(run: seq<State>, events: seq<Event>) {
    && |run| == |events| + 1 && Inv(run[0])
    && forall i | 0 <= i < |events| :: StepAt(run, events, i)
  }

  ghost predicate StepAt(run: seq<State>, events: seq<Event>, i: nat)
    requires |run| == |events| + 1 && i < |events|
  {
    Enabled(run[i], events[i]) && run[i + 1] == Next(run[i], events[i])
  }

  function Ticks(events: seq<Event>): nat {
    if events == [] then 0 else Ticks(events[..|events| - 1]) + if events[|events| - 1].TimerTick? then 1 else 0
  }

  // How many of the first `n` events put a task on the core.
  ghost function Dispatched(run: seq<State>, events: seq<Event>, n: nat): nat
    requires n <= |events| < |run|
  {
    if n == 0 then 0
    else
      var one := if events[n - 1].TimerTick? && Dispatches(run[n - 1], events[n - 1].next) then 1 else 0;
      Dispatched(run, events, n - 1) + one
  }

  // Event `i` starts task `w`.
  ghost predicate Starts(run: seq<State>, events: seq<Event>, i: nat, w: Pid)
    requires i < |events| < |run|
  {
    events[i].TimerTick? && events[i].next == Some(w) && Dispatches(run[i], events[i].next)
  }

  // Event `i` leaves `w` alone: it is not dequeued, requeued or ended.
  ghost predicate LeavesAlone(run: seq<State>, events: seq<Event>, i: nat, w: Pid)
    requires i < |events| < |run|
  {
    !Touches(events[i], w) && (events[i].Exit? ==> run[i].core != Some(w))
  }

  ghost predicate Budget(run: seq<State>, events: seq<Event>, n: nat, w: Pid)
    requires n <= |events| < |run| && w in run[0].tasks
  {
    && Inv(run[n]) && w in run[n].tasks && run[n].tasks[w].status == Waiting
    && run[n].tasks[w].idle == run[0].tasks[w].idle + Ticks(events[..n])
    && Dispatched(run, events, n) + |Ahead(run[n], w)| <= |Ahead(run[0], w)|
    && Ticks(events[..n]) + |Ahead(run[n], w)| + |Lagging(run[n], w)| <= |Ahead(run[0], w)| + |Lagging(run[0], w)|
  }

  lemma StepBudget(s: State, e: Event, w: Pid)
    requires Inv(s) && Enabled(s, e) && Waits(s, w) && !Touches(e, w) && (e.Exit? ==> s.core != Some(w))
    requires !(e.TimerTick? && e.next == Some(w) && Dispatches(s, e.next))
    ensures var t := Next(s, e); var tick := if e.TimerTick? then 1 else 0;
      && Inv(t) && w in t.tasks && t.tasks[w].status == Waiting && t.tasks[w].idle == s.tasks[w].idle + tick
      && (if e.TimerTick? && Dispatches(s, e.next) then 1 else 0) + |Ahead(t, w)| <= |Ahead(s, w)|
      && tick + |Ahead(t, w)| + |Lagging(t, w)| <= |Ahead(s, w)| + |Lagging(s, w)|
  {
    StepKeeps(s, e);
    var t := Next(s, e);
    if e.TimerTick? {
      var p := e.next;
      if Dispatches(s, p) {
        DispatchShrinks(s, p, w);
        SubsetSize(Ahead(t, w), Ahead(s, w) - {p.value});
        SubsetSize(Lagging(t, w), Lagging(s, w));
      } else {
        LostTickShrinks(s, p, w);
        SubsetSize(Ahead(t, w), Ahead(s, w));
        SubsetSize(Lagging(t, w), Lagging(s, w) - {p.value});
      }
    } else {
      OtherShrinks(s, e, w);
      SubsetSize(Ahead(t, w), Ahead(s, w));
      SubsetSize(Lagging(t, w), Lagging(s, w));
    }
  }

  // The counter of `w` stays clear of the wrap for as long as the wait can last.
  ghost predicate Fresh(s: State, w: Pid) {
    && w in s.tasks && s.tasks[w].status == Waiting && s.tasks[w].idle >= 1
    && s.tasks[w].idle + |Ahead(s, w)| + |Lagging(s, w)| < MAX - 1
  }

  // While `w` waits, every dispatch uses up a task ahead of it and every tick a task or a lagging thread.
  lemma {:induction false} WaitingBudget(run: seq<State>, events: seq<Event>, n: nat, w: Pid)
    requires IsRun(run, events) && n <= |events| && Fresh(run[0], w)
    requires forall i | 0 <= i < n :: LeavesAlone(run, events, i, w) && !Starts(run, events, i, w)
    ensures Budget(run, events, n, w)
  {
    if n == 0 {
      assert events[..0] == [];
    } else {
      WaitingBudget(run, events, n - 1, w);
      assert LeavesAlone(run, events, n - 1, w) && !Starts(run, events, n - 1, w);
      assert StepAt(run, events, n - 1);
      StepBudget(run[n - 1], events[n - 1], w);
      assert events[..n][..n - 1] == events[..n - 1];
    }
  }

  // Bounded waiting: a waiting task that nobody dequeues, requeues or ends is started before more than
  // |Ahead| other dispatches happen, which is at most the number of other tasks.
  lemma StartsWithinDispatches(run: seq<State>, events: seq<Event>, w: Pid)
    requires IsRun(run, events) && Fresh(run[0], w)
    requires forall i | 0 <= i < |events| :: LeavesAlone(run, events, i, w)
    requires Dispatched(run, events, |events|) >= |run[0].tasks|
    ensures exists i :: 0 <= i < |events| && Starts(run, events, i, w)
  {
    if forall i | 0 <= i < |events| :: !Starts(run, events, i, w) {
      WaitingBudget(run, events, |events|, w);
      SubsetSize(Ahead(run[0], w), run[0].tasks.Keys - {w});
    }
  }

  // In timer ticks: at most two per task in the list, because a requeued thread's counter can cost a tick.
  lemma StartsWithinTicks(run: seq<State>, events: seq<Event>, w: Pid)
    requires IsRun(run, events) && Fresh(run[0], w)
    requires forall i | 0 <= i < |events| :: LeavesAlone(run, events, i, w)
    requires Ticks(events) >= 2 * |run[0].tasks|
    ensures exists i :: 0 <= i < |events| && Starts(run, events, i, w)
  {
    if forall i | 0 <= i < |events| :: !Starts(run, events, i, w) {
      WaitingBudget(run, events, |events|, w);
      assert events[..|events|] == events;
      SubsetSize(Ahead(run[0], w), run[0].tasks.Keys - {w});
      SubsetSize(Lagging(run[0], w), run[0].tasks.Keys);
    }
  }

  // Where the wait begins: a requeued task wraps to 0 on its first tick and is passed over; a task at 0 is
  // either started by the next tick or left at 1.
  lemma FirstTicks(s: State, next: Option<Pid>, w: Pid)
    requires Inv(s) && w in s.tasks && s.tasks[w].status == Waiting && IsNext(Aged(s.tasks), next)
    ensures s.tasks[w].idle == MAX ==> next != Some(w) && w in Tick(s, next).tasks && Tick(s, next).tasks[w].idle == 0
    ensures s.tasks[w].idle == 0 ==>
      && next.Some?
      && ((Dispatches(s, next) && next == Some(w)) || (w in Tick(s, next).tasks && Tick(s, next).tasks[w].idle == 1))
  {
    var aged := Aged(s.tasks);
    assert aged[w] == Age(s.tasks[w]);
  }

  // ----- waits that begin anywhere -----

  // A waiting task that is left alone and not started counts every tick, and wraps.
  lemma StepIdle(s: State, e: Event, w: Pid)
    requires Inv(s) && Enabled(s, e) && w in s.tasks && s.tasks[w].status == Waiting
    requires !Touches(e, w) && (e.Exit? ==> s.core != Some(w))
    requires !(e.TimerTick? && e.next == Some(w) && Dispatches(s, e.next))
    ensures var t := Next(s, e);
      && Inv(t) && w in t.tasks && t.tasks[w].status == Waiting
      && t.tasks[w].idle == if e.TimerTick? then Inc(s.tasks[w].idle) else s.tasks[w].idle
  {
    StepKeeps(s, e);
    assert TaskOk(s, w);
  }

  // The counter k ticks on.
  function Later(idle: nat, k: nat): nat { if k == 0 then idle else Inc(Later(idle, k - 1)) }

  lemma {:induction false} LaterIs(idle: nat, k: nat)
    requires idle <= MAX && k <= MAX
    ensures Later(idle, k) == if idle + k <= MAX then idle + k else idle + k - MAX - 1
  {
    if k > 0 { LaterIs(idle, k - 1); }
  }

  lemma {:induction false} IdleAfter(run: seq<State>, events: seq<Event>, n: nat, w: Pid)
    requires IsRun(run, events) && n <= |events| && w in run[0].tasks && run[0].tasks[w].status == Waiting
    requires forall i | 0 <= i < n :: LeavesAlone(run, events, i, w) && !Starts(run, events, i, w)
    ensures Inv(run[n]) && w in run[n].tasks && run[n].tasks[w].status == Waiting
    ensures run[n].tasks[w].idle == Later(run[0].tasks[w].idle, Ticks(events[..n]))
  {
    if n == 0 {
      assert events[..0] == [];
    } else {
      IdleAfter(run, events, n - 1, w);
      assert LeavesAlone(run, events, n - 1, w) && !Starts(run, events, n - 1, w);
      assert StepAt(run, events, n - 1);
      StepIdle(run[n - 1], events[n - 1], w);
      assert events[..n][..n - 1] == events[..n - 1];
    }
  }

  // The ticks before the bound applies: none for a counter in the middle, one from 0, two from the maximum, and for a
  // counter about to wrap those up to the maximum as well.
  ghost function Lead(s: State, w: Pid): nat
    requires w in s.tasks && s.tasks[w].idle <= MAX
  {
    if s.tasks[w].idle == 0 then 1 else if Fresh(s, w) then 0 else MAX - s.tasks[w].idle + 2
  }

  lemma AheadSize(s: State, w: Pid)
    requires w in s.tasks
    ensures |Ahead(s, w)| + 1 <= |s.tasks| && |Lagging(s, w)| <= |s.tasks|
  {
    SubsetSize(Ahead(s, w), s.tasks.Keys - {w});
    SubsetSize(Lagging(s, w), s.tasks.Keys);
  }

  lemma LeadBound(s: State, w: Pid)
    requires w in s.tasks && s.tasks[w].idle <= MAX && s.tasks[w].status == Waiting
    ensures Lead(s, w) <= 2 * |s.tasks| + 2
    ensures s.tasks[w].idle == 0 ==> Lead(s, w) == 1
    ensures s.tasks[w].idle == MAX ==> Lead(s, w) == 2
  {
    AheadSize(s, w);
  }

  // After those ticks the counter is 1, or was in the middle from the start.
  lemma LeadsToFresh(run: seq<State>, events: seq<Event>, j: nat, w: Pid)
    requires IsRun(run, events) && j <= |events| && w in run[0].tasks && run[0].tasks[w].status == Waiting
    requires run[0].tasks[w].idle <= MAX && Ticks(events[..j]) == Lead(run[0], w) && 2 * |run[0].tasks| + 2 < MAX
    requires forall i | 0 <= i < j :: LeavesAlone(run, events, i, w) && !Starts(run, events, i, w)
    requires 2 * |run[j].tasks| + 1 < MAX && (Lead(run[0], w) == 0 ==> j == 0)
    ensures Inv(run[j]) && Fresh(run[j], w)
  {
    IdleAfter(run, events, j, w);
    LeadBound(run[0], w);
    LaterIs(run[0].tasks[w].idle, Lead(run[0], w));
    AheadSize(run[j], w);
  }

  lemma TailRun(run: seq<State>, events: seq<Event>, j: nat)
    requires IsRun(run, events) && j <= |events| && Inv(run[j])
    ensures IsRun(run[j..], events[j..])
  {
    var r, e := run[j..], events[j..];
    forall i | 0 <= i < |e|
      ensures StepAt(r, e, i)
    {
      assert StepAt(run, events, j + i);
    }
  }

  // The tail of a run in which `w` is left alone, from a state where its counter is clear of the wrap.
  lemma TailStarts(run: seq<State>, events: seq<Event>, j: nat, w: Pid) returns (i: nat)
    requires IsRun(run, events) && j <= |events| && Inv(run[j]) && Fresh(run[j], w)
    requires forall i | j <= i < |events| :: LeavesAlone(run, events, i, w)
    requires Dispatched(run[j..], events[j..], |events| - j) >= |run[j].tasks|
      || Ticks(events[j..]) >= 2 * |run[j].tasks|
    ensures i < |events| && Starts(run, events, i, w)
  {
    TailRun(run, events, j);
    var r, e := run[j..], events[j..];
    forall i | 0 <= i < |e|
      ensures LeavesAlone(r, e, i, w)
    {
      assert LeavesAlone(run, events, j + i, w);
    }
    if Ticks(e) >= 2 * |r[0].tasks| {
      StartsWithinTicks(r, e, w);
    } else {
      StartsWithinDispatches(r, e, w);
    }
    var k :| 0 <= k < |e| && Starts(r, e, k, w);
    i := j + k;
  }

  // Bounded waiting from any counter value, in dispatches and in ticks: the tasks are counted when the lead is over.
  lemma StartsFromAny(run: seq<State>, events: seq<Event>, j: nat, w: Pid)
    requires IsRun(run, events) && j <= |events| && w in run[0].tasks && run[0].tasks[w].status == Waiting
    requires forall i | 0 <= i < |events| :: LeavesAlone(run, events, i, w)
    requires run[0].tasks[w].idle <= MAX && Ticks(events[..j]) == Lead(run[0], w) && (Lead(run[0], w) == 0 ==> j == 0)
    requires 2 * |run[0].tasks| + 2 < MAX && 2 * |run[j].tasks| + 1 < MAX
    requires Dispatched(run[j..], events[j..], |events| - j) >= |run[j].tasks|
      || Ticks(events[j..]) >= 2 * |run[j].tasks|
    ensures exists i :: 0 <= i < |events| && Starts(run, events, i, w)
  {
    if forall i | 0 <= i < j :: !Starts(run, events, i, w) {
      LeadsToFresh(run, events, j, w);
      var i := TailStarts(run, events, j, w);
    }
  }

  lemma {:induction false} TicksSplit(events: seq<Event>, j: nat)
    requires j <= |events|
    ensures Ticks(events) == Ticks(events[..j]) + Ticks(events[j..])
  {
    if j == |events| {
      assert events[..j] == events && events[j..] == [];
    } else {
      var init := events[..|events| - 1];
      TicksSplit(init, j);
      assert init[..j] == events[..j] && init[j..] == events[j..][..|events| - j - 1];
    }
  }

  // A prefix with a given number of ticks.
  lemma {:induction false} TickPrefix(events: seq<Event>, k: nat) returns (j: nat)
    requires k <= Ticks(events)
    ensures j <= |events| && Ticks(events[..j]) == k && (k == 0 ==> j == 0)
  {
    if k == 0 {
      j := 0;
    } else if Ticks(events) == k {
      j := |events|;
      assert events[..j] == events;
    } else {
      var init := events[..|events| - 1];
      j := TickPrefix(init, k);
      assert init[..j] == events[..j];
    }
  }

  // While there are at most n tasks, any waiting task that is left alone is started within 4 * n + 2 ticks, whatever
  // its counter; within 2 * n + 2 from 0 or from the maximum.
  lemma StartsWithin(run: seq<State>, events: seq<Event>, w: Pid, n: nat)
    requires IsRun(run, events) && w in run[0].tasks && run[0].tasks[w].status == Waiting
    requires forall i | 0 <= i < |events| :: LeavesAlone(run, events, i, w)
    requires (forall i | 0 <= i < |run| :: |run[i].tasks| <= n) && 2 * n + 2 < MAX
    requires Ticks(events) >= 4 * n + 2 || (run[0].tasks[w].idle in {0, MAX} && Ticks(events) >= 2 * n + 2)
    ensures exists i :: 0 <= i < |events| && Starts(run, events, i, w)
  {
    assert TaskOk(run[0], w) && |run[0].tasks| <= n;
    LeadBound(run[0], w);
    var j := TickPrefix(events, Lead(run[0], w));
    TicksSplit(events, j);
    assert |run[j].tasks| <= n;
    StartsFromAny(run, events, j, w);
  }

  // ----- who waits and who does not -----

  ghost predicate Starting(s: State, e: Event, w: Pid) {
    e.TimerTick? && e.next == Some(w) && Dispatches(s, e.next)
  }

  ghost predicate Ending(s: State, e: Event, w: Pid) { e.Exit? && s.core == Some(w) }

  // The status of a task after each event. Only a requeue ends a yield; only a tick starts a task, which then waited,
  // and puts the one on the core back to waiting, unless that one has yielded.
  lemma StatusAfter(s: State, e: Event, w: Pid)
    requires Inv(s) && Enabled(s, e) && w in s.tasks && !Ending(s, e, w)
    ensures w in Next(s, e).tasks
    ensures var before, after := s.tasks[w].status, Next(s, e).tasks[w].status;
      if e == Dequeue(w) then after == Yield
      else if e == Requeue(w) then after == Waiting
      else if Starting(s, e, w) then before == Waiting && after == Running && Next(s, e).core == Some(w)
      else if e.TimerTick? && Dispatches(s, e.next) && before == Running then after == Waiting
      else after == before
  {
    assert TaskOk(s, w);
    if e.TimerTick? { assert Aged(s.tasks)[w] == Age(s.tasks[w]); }
  }

  // The counters after each event: a start clears them, a requeue sets them to the maximum, a tick ages the task.
  lemma IdleAfterEvent(s: State, e: Event, w: Pid)
    requires Inv(s) && Enabled(s, e) && w in s.tasks && !Ending(s, e, w)
    ensures w in Next(s, e).tasks
    ensures var before, after := s.tasks[w].idle, Next(s, e).tasks[w].idle;
      if Starting(s, e, w) then after == 0
      else if e == Requeue(w) then after == MAX
      else if e.TimerTick? then after == Inc(before)
      else after == before
  {
    if e.TimerTick? { assert Aged(s.tasks)[w] == Age(s.tasks[w]); }
  }

  // The same for its thread, which is aged only when its task is chosen.
  lemma ThreadAfter(s: State, e: Event, w: Pid)
    requires Inv(s) && Enabled(s, e) && w in s.tasks && !Ending(s, e, w)
    ensures w in Next(s, e).tasks
    ensures var before, after := s.tasks[w].thread, Next(s, e).tasks[w].thread;
      if e == Dequeue(w) then after == Yield
      else if e == Requeue(w) then after == Waiting
      else if Starting(s, e, w) then before == Waiting && after == Running
      else if e.TimerTick? && Dispatches(s, e.next) && before == Running then after == Waiting
      else after == before
    ensures var before, after := s.tasks[w].threadIdle, Next(s, e).tasks[w].threadIdle;
      if Starting(s, e, w) then after == 0
      else if e == Requeue(w) then after == MAX
      else if e == TimerTick(Some(w)) then after == Inc(before)
      else after == before
  {
    assert TaskOk(s, w);
    if e.TimerTick? { assert Aged(s.tasks)[w] == Age(s.tasks[w]); }
  }

  // New tasks and ended ones, and nobody else.
  lemma Population(s: State, e: Event)
    requires Enabled(s, e)
    ensures var t := Next(s, e);
      match e
      case Spawn(p, status) => t.tasks.Keys == s.tasks.Keys + {p} && t.tasks[p].status == status && t.tasks[p].idle == 0
      case Exit => t.tasks.Keys == s.tasks.Keys - {s.core.value} && t.core == None
      case _ => t.tasks.Keys == s.tasks.Keys
  {}

  lemma {:induction false} RunInv(run: seq<State>, events: seq<Event>, n: nat)
    requires IsRun(run, events) && n <= |events|
    ensures Inv(run[n])
  {
    if n > 0 {
      RunInv(run, events, n - 1);
      assert StepAt(run, events, n - 1);
      StepKeeps(run[n - 1], events[n - 1]);
    }
  }

  // Nobody requeues or ends `w` from event i on, up to event j.
  ghost predicate LeftOff(run: seq<State>, events: seq<Event>, w: Pid, i: nat, j: nat)
    requires |run| == |events| + 1 && j <= |events|
  {
    forall m | i <= m < j :: events[m] != Requeue(w) && !Ending(run[m], events[m], w)
  }

  // A task that has yielded stays off the core as long as nobody requeues it.
  lemma {:induction false} StaysOff(run: seq<State>, events: seq<Event>, w: Pid, i: nat, j: nat)
    requires IsRun(run, events) && i <= j <= |events| && LeftOff(run, events, w, i, j)
    requires w in run[i].tasks && run[i].tasks[w].status == Yield
    ensures w in run[j].tasks && run[j].tasks[w].status == Yield
    ensures forall m | i <= m < j :: !Starts(run, events, m, w)
  {
    if i < j {
      StaysOff(run, events, w, i, j - 1);
      RunInv(run, events, j - 1);
      assert StepAt(run, events, j - 1) && events[j - 1] != Requeue(w) && !Ending(run[j - 1], events[j - 1], w);
      StatusAfter(run[j - 1], events[j - 1], w);
    }
  }

  // Dequeued is off the core: from there on the task is not started before a requeue.
  lemma DequeuedStaysOff(run: seq<State>, events: seq<Event>, w: Pid, i: nat, j: nat)
    requires IsRun(run, events) && i < j <= |events| && events[i] == Dequeue(w) && LeftOff(run, events, w, i + 1, j)
    ensures w in run[j].tasks && run[j].tasks[w].status == Yield
    ensures forall m | i <= m < j :: !Starts(run, events, m, w)
  {
    RunInv(run, events, i);
    assert StepAt(run, events, i);
    StatusAfter(run[i], events[i], w);
    StaysOff(run, events, w, i + 1, j);
  }

  // What StartsWithin says of the run from state i on.
  lemma StartsAfter(run: seq<State>, events: seq<Event>, w: Pid, i: nat, n: nat) returns (m: nat)
    requires IsRun(run, events) && i <= |events| && w in run[i].tasks && run[i].tasks[w].status == Waiting
    requires forall m | i <= m < |events| :: LeavesAlone(run, events, m, w)
    requires (forall m | i <= m < |run| :: |run[m].tasks| <= n) && 2 * n + 2 < MAX
    requires Ticks(events[i..]) >= 4 * n + 2 || (run[i].tasks[w].idle in {0, MAX} && Ticks(events[i..]) >= 2 * n + 2)
    ensures i <= m < |events| && Starts(run, events, m, w)
  {
    RunInv(run, events, i);
    TailRun(run, events, i);
    var r, e := run[i..], events[i..];
    forall j | 0 <= j < |e|
      ensures LeavesAlone(r, e, j, w)
    {
      assert LeavesAlone(run, events, i + j, w);
    }
    forall j | 0 <= j < |r|
      ensures |r[j].tasks| <= n
    {
      assert r[j] == run[i + j];
    }
    StartsWithin(r, e, w, n);
    var j :| 0 <= j < |e| && Starts(r, e, j, w);
    m := i + j;
  }

  // A requeued task waits, and is started within 2 * n + 2 ticks if it is then left alone.
  lemma RequeuedStarts(run: seq<State>, events: seq<Event>, w: Pid, i: nat, n: nat) returns (m: nat)
    requires IsRun(run, events) && i < |events| && events[i] == Requeue(w)
    requires forall m | i + 1 <= m < |events| :: LeavesAlone(run, events, m, w)
    requires (forall m | i + 1 <= m < |run| :: |run[m].tasks| <= n) && 2 * n + 2 < MAX
    requires Ticks(events[i + 1..]) >= 2 * n + 2
    ensures i < m < |events| && Starts(run, events, m, w)
  {
    RunInv(run, events, i);
    assert StepAt(run, events, i);
    StatusAfter(run[i], events[i], w);
    IdleAfterEvent(run[i], events[i], w);
    m := StartsAfter(run, events, w, i + 1, n);
  }

  // So is a new task that is to wait.
  lemma SpawnedStarts(run: seq<State>, events: seq<Event>, w: Pid, i: nat, n: nat) returns (m: nat)
    requires IsRun(run, events) && i < |events| && events[i] == Spawn(w, Waiting)
    requires forall m | i + 1 <= m < |events| :: LeavesAlone(run, events, m, w)
    requires (forall m | i + 1 <= m < |run| :: |run[m].tasks| <= n) && 2 * n + 2 < MAX
    requires Ticks(events[i + 1..]) >= 2 * n + 2
    ensures i < m < |events| && Starts(run, events, m, w)
  {
    assert StepAt(run, events, i);
    Population(run[i], events[i]);
    m := StartsAfter(run, events, w, i + 1, n);
  }

  // And a running task that another one replaces comes back within 4 * n + 2 ticks.
  lemma ReplacedStarts(run: seq<State>, events: seq<Event>, w: Pid, i: nat, n: nat) returns (m: nat)
    requires IsRun(run, events) && i < |events| && w in run[i].tasks && run[i].tasks[w].status == Running
    requires events[i].TimerTick? && Dispatches(run[i], events[i].next)
    requires forall m | i + 1 <= m < |events| :: LeavesAlone(run, events, m, w)
    requires (forall m | i + 1 <= m < |run| :: |run[m].tasks| <= n) && 2 * n + 2 < MAX
    requires Ticks(events[i + 1..]) >= 4 * n + 2
    ensures i < m < |events| && Starts(run, events, m, w)
  {
    RunInv(run, events, i);
    assert StepAt(run, events, i);
    StatusAfter(run[i], events[i], w);
    m := StartsAfter(run, events, w, i + 1, n);
  }

  // ----- the scheduler's own data -----

  datatype Thread = Thread(status: Status, idle: nat)

  // find_next_thread: ages every thread of the table and picks the first waiting one with the greatest counter.
  method ScanThreads(threads: seq<Thread>) returns (aged: seq<Thread>, ret: Option<nat>)
    ensures |aged| == |threads|
    ensures forall i | 0 <= i < |threads| :: aged[i] == Thread(threads[i].status, Inc(threads[i].idle))
    ensures ret.None? ==> forall i | 0 <= i < |aged| && aged[i].status == Waiting :: aged[i].idle == 0
    ensures ret.Some? ==> ret.value < |aged| && aged[ret.value].status == Waiting && aged[ret.value].idle > 0
    ensures ret.Some? ==>
      forall i | 0 <= i < |aged| && aged[i].status == Waiting :: aged[i].idle <= aged[ret.value].idle
    ensures ret.Some? ==>
      forall i | 0 <= i < ret.value && aged[i].status == Waiting :: aged[i].idle < aged[ret.value].idle
  {
    aged, ret := [], None;
    var cnt := 0;
    for i := 0 to |threads|
      invariant |aged| == i && forall j | 0 <= j < i :: aged[j] == Thread(threads[j].status, Inc(threads[j].idle))
      invariant ret.None? ==> cnt == 0
      invariant ret.Some? ==> ret.value < i && aged[ret.value].status == Waiting && cnt == aged[ret.value].idle > 0
      invariant ret.Some? ==> forall j | 0 <= j < ret.value && aged[j].status == Waiting :: aged[j].idle < cnt
      invariant forall j | 0 <= j < i && aged[j].status == Waiting :: aged[j].idle <= cnt
    {
      var thread := Thread(threads[i].status, Inc(threads[i].idle));
      aged := aged + [thread];
      if thread.status == Waiting && cnt < thread.idle {
        cnt := thread.idle;
        ret := Some(i);
      }
    }
  }

  // The first i tasks of the table are aged, the others not yet.
  ghost predicate AgedTo(before: map<Pid, Task>, now: map<Pid, Task>, order: seq<Pid>, i: nat) {
    && now.Keys == before.Keys && i <= |order|
    && (forall j | 0 <= j < |order| :: order[j] in before)
    && (forall j | 0 <= j < i :: now[order[j]] == Age(before[order[j]]))
    && (forall j | i <= j < |order| :: now[order[j]] == before[order[j]])
  }

  ghost predicate AllDifferent(order: seq<Pid>) {
    forall i, j | 0 <= i < j < |order| :: order[i] != order[j]
  }

  lemma AgedNext(before: map<Pid, Task>, now: map<Pid, Task>, order: seq<Pid>, i: nat)
    requires AgedTo(before, now, order, i) && AllDifferent(order) && i < |order|
    ensures AgedTo(before, now[order[i] := Age(now[order[i]])], order, i + 1)
  {}

  lemma AgedAll(before: map<Pid, Task>, now: map<Pid, Task>, order: seq<Pid>)
    requires AgedTo(before, now, order, |order|) && forall p | p in before :: p in order
    ensures now == Aged(before)
  {}

  // Among the first i tasks, `ret` at place `at` is the first ready one with the greatest counter, which is `cnt`.
  ghost predicate Best(now: map<Pid, Task>, order: seq<Pid>, i: nat, ret: Option<Pid>, at: nat, cnt: int) {
    && i <= |order| && (forall j | 0 <= j < i :: AtMost(now, order[j], cnt))
    && (ret.None? ==> cnt == 0)
    && (ret.Some? ==>
          && at < i && order[at] == ret.value
          && order[at] in now && Ready(now[order[at]]) && now[order[at]].idle == cnt
          && forall j | 0 <= j < at :: AtMost(now, order[j], cnt - 1))
  }

  ghost predicate AtMost(now: map<Pid, Task>, p: Pid, cnt: int) {
    p in now && (Ready(now[p]) ==> now[p].idle <= cnt)
  }

  lemma BestStays(now: map<Pid, Task>, order: seq<Pid>, i: nat, ret: Option<Pid>, at: nat, cnt: int, t: Task)
    requires Best(now, order, i, ret, at, cnt) && AllDifferent(order) && i < |order|
    ensures Best(now[order[i] := t], order, i, ret, at, cnt)
  {
    var now' := now[order[i] := t];
    forall j | 0 <= j < i
      ensures order[j] in now && now'[order[j]] == now[order[j]]
    {
      assert AtMost(now, order[j], cnt);
    }
  }

  // The comparison for task i.
  lemma BestNext(now: map<Pid, Task>, order: seq<Pid>, i: nat, ret: Option<Pid>, at: nat, cnt: int)
    requires Best(now, order, i, ret, at, cnt) && i < |order| && order[i] in now
    ensures var t := now[order[i]];
      if t.status == Waiting && cnt < t.idle then Best(now, order, i + 1, Some(order[i]), i, t.idle)
      else Best(now, order, i + 1, ret, at, cnt)
  {
    var t := now[order[i]];
    forall j | 0 <= j < i
      ensures cnt < t.idle ==> AtMost(now, order[j], t.idle - 1) && AtMost(now, order[j], t.idle)
    {
      assert AtMost(now, order[j], cnt);
    }
  }

  lemma BestIsFirst(now: map<Pid, Task>, order: seq<Pid>, ret: Option<Pid>, at: nat, cnt: int)
    requires Best(now, order, |order|, ret, at, cnt) && ret.Some?
    ensures forall j | 0 <= j < at :: order[j] in now && (Ready(now[order[j]]) ==> now[order[j]].idle < cnt)
  {
    forall j | 0 <= j < at
      ensures order[j] in now && (Ready(now[order[j]]) ==> now[order[j]].idle < cnt)
    {
      assert AtMost(now, order[j], cnt - 1);
    }
  }

  lemma BestIsNext(now: map<Pid, Task>, order: seq<Pid>, ret: Option<Pid>, at: nat, cnt: int)
    requires Best(now, order, |order|, ret, at, cnt) && forall p | p in now :: p in order
    ensures IsNext(now, ret)
  {
    forall p | p in now && Ready(now[p])
      ensures now[p].idle <= cnt
    {
      var j :| 0 <= j < |order| && order[j] == p;
      assert AtMost(now, order[j], cnt);
    }
  }

  // The task put on the core is overwritten, so its thread's ageing does not show.
  lemma PreemptThenPut(tasks: map<Pid, Task>, core: Option<Pid>, p: Pid, t: Task, u: Task)
    requires p in tasks
    ensures Preempt(tasks[p := t], core)[p := u] == Preempt(tasks, core)[p := u]
  {}

  class Core {
    var tasks: map<Pid, Task>
    var core: Option<Pid>

    ghost function Abstract(): State
      reads this
    {
      State(tasks, core)
    }

    // find_next_task: one pass over the task table in slot order, incrementing every counter on the way.
    method FindNextTask(order: seq<Pid>) returns (ret: Option<Pid>, ghost at: nat)
      requires (forall p :: p in order <==> p in tasks) && AllDifferent(order)
      modifies this`tasks
      ensures tasks == Aged(old(tasks)) && IsNext(tasks, ret)
      ensures ret.Some? ==> at < |order| && order[at] == ret.value
      ensures ret.Some? ==>
        forall j | 0 <= j < at && Ready(tasks[order[j]]) :: tasks[order[j]].idle < tasks[ret.value].idle
    {
      ret, at := None, 0;
      var cnt := 0;
      for i := 0 to |order|
        invariant AgedTo(old(tasks), tasks, order, i) && Best(tasks, order, i, ret, at, cnt)
      {
        var p := order[i];
        AgedNext(old(tasks), tasks, order, i);
        BestStays(tasks, order, i, ret, at, cnt, Age(tasks[p]));
        tasks := tasks[p := Age(tasks[p])];
        BestNext(tasks, order, i, ret, at, cnt);
        if tasks[p].status == Waiting && cnt < tasks[p].idle {
          cnt := tasks[p].idle;
          ret := Some(p);
          at := i;
        }
      }
      AgedAll(old(tasks), tasks, order);
      BestIsNext(tasks, order, ret, at, cnt);
      if ret.Some? { BestIsFirst(tasks, order, ret, at, cnt); }
    }

    // sched_dequeue: the task and its thread have yielded.
    method Dequeue(p: Pid)
      requires p in tasks
      modifies this`tasks
      ensures tasks.Keys == old(tasks).Keys && tasks[p].status == Yield && tasks[p].thread == Yield
      ensures Abstract() == Next(old(Abstract()), Event.Dequeue(p))
    {
      tasks := tasks[p := tasks[p].(status := Yield)];
      tasks := tasks[p := tasks[p].(thread := Yield)];
    }

    // sched_requeue: they wait, with their counters at the maximum.
    method Requeue(p: Pid)
      requires p in tasks
      modifies this`tasks
      ensures tasks.Keys == old(tasks).Keys && tasks[p].status == Waiting && tasks[p].thread == Waiting
      ensures tasks[p].idle == MAX && tasks[p].threadIdle == MAX
      ensures Abstract() == Next(old(Abstract()), Event.Requeue(p))
    {
      tasks := tasks[p := tasks[p].(status := Waiting, idle := MAX)];
      tasks := tasks[p := tasks[p].(thread := Waiting, threadIdle := MAX)];
    }

    // The part of reschedule that takes the last task off the core and puts the next one on.
    method SwitchTo(p: Pid)
      requires p in tasks && (core.Some? ==> core.value in tasks)
      modifies this
      ensures core == Some(p) && tasks == Preempt(old(tasks), old(core))[p := Task(Running, 0, Running, 0)]
      ensures forall w | w in old(tasks) && w != p ::
        w in tasks && Stopped(old(tasks)[w], tasks[w], old(core) == Some(w))
    {
      if core.Some? {
        var last := core.value;
        if tasks[last].thread != Yield {
          tasks := tasks[last := tasks[last].(thread := Waiting)];
        }
        if tasks[last].status != Yield {
          tasks := tasks[last := tasks[last].(status := Waiting)];
        }
        assert tasks == Preempt(old(tasks), core);
      }
      core := Some(p);
      tasks := tasks[p := tasks[p].(threadIdle := 0, idle := 0)];
      tasks := tasks[p := tasks[p].(status := Running, thread := Running)];
    }

    // find_next_thread on the chosen task, whose thread table holds one thread.
    method FindNextThread(p: Pid) returns (found: bool)
      requires p in tasks
      modifies this`tasks
      ensures tasks == old(tasks)[p := old(tasks)[p].(threadIdle := Inc(old(tasks)[p].threadIdle))]
      ensures found == ThreadReady(old(tasks)[p])
    {
      var aged, ret := ScanThreads([Thread(tasks[p].thread, tasks[p].threadIdle)]);
      tasks := tasks[p := tasks[p].(threadIdle := aged[0].idle)];
      found := ret.Some?;
    }

    // reschedule, as far as tasks and the core are concerned. `switched` tells whether another context was loaded.
    method Reschedule(order: seq<Pid>) returns (switched: bool, ghost next: Option<Pid>)
      requires (forall p :: p in order <==> p in tasks) && AllDifferent(order)
      modifies this
      ensures Enabled(old(Abstract()), TimerTick(next)) && Abstract() == Next(old(Abstract()), TimerTick(next))
      ensures switched == Dispatches(old(Abstract()), next)
      ensures forall w | w in old(tasks) && old(tasks)[w].status == Yield :: w in tasks && tasks[w].status == Yield
      ensures switched ==> core == next && next.value in tasks && tasks[next.value] == Task(Running, 0, Running, 0)
    {
      ghost var at;
      var nextTask;
      nextTask, at := FindNextTask(order);
      next := nextTask;
      if nextTask.None? {
        return false, next;
      }
      assert tasks[nextTask.value] == Age(old(tasks)[nextTask.value]);
      var found := FindNextThread(nextTask.value);
      if !found || (core.Some? && core.value !in tasks) {
        return false, next;
      }
      PreemptThenPut(Aged(old(tasks)), core, nextTask.value, tasks[nextTask.value], Task(Running, 0, Running, 0));
      SwitchTo(nextTask.value);
      return true, next;
    }
  }
}
