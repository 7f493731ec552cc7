// The timer list of the interval timer (kernel/drivers/pit.c): timespec arithmetic, and the scan that counts timers
// down and removes the expired ones from the list it is walking.
module Timers {
  const TIMER_HZ: int := 1_000_000_000

  // TIMER_HZ / PIT_FREQ nanoseconds
  const TICK: int := 1_000_000

  datatype Timespec = Timespec(sec: int, nsec: int)

  const INTERVAL := Timespec(0, TICK)

  function Nanos(t: Timespec): int {
    t.sec * TIMER_HZ + t.nsec
  }

  // timespec_add carries only when the sum exceeds a second, so a full second of nanoseconds is a legal value.
  predicate Normal(t: Timespec) {
    t.sec >= 0 && 0 <= t.nsec <= TIMER_HZ
  }

  function TimespecAdd(a: Timespec, b: Timespec): (r: Timespec)
    ensures Nanos(r) == Nanos(a) + Nanos(b)
    ensures Normal(a) && Normal(b) ==> Normal(r)
  {
    var nsec := a.nsec + b.nsec;
    if nsec > TIMER_HZ then Timespec(a.sec + b.sec + 1, nsec - TIMER_HZ) else Timespec(a.sec + b.sec, nsec)
  }

  // Subtraction of nanoseconds, stopping at zero.
  function TimespecSub(a: Timespec, b: Timespec): (r: Timespec)
    ensures Normal(a) && Normal(b) ==> Normal(r)
    ensures Normal(a) && Normal(b) ==> Nanos(r) == if Nanos(a) >= Nanos(b) then Nanos(a) - Nanos(b) else 0
  {
    var nsec, sec := a.nsec - b.nsec, a.sec - b.sec;
    var borrowed := if nsec < 0 then Timespec(sec - 1, nsec + TIMER_HZ) else Timespec(sec, nsec);
    if borrowed.sec < 0 then Timespec(0, 0) else borrowed
  }

  datatype Timer = Timer(id: nat, left: Timespec)

  predicate AllNormal(l: seq<Timer>) {
    forall i | 0 <= i < |l| :: Normal(l[i].left)
  }

  // The number of scans that must reach a timer before it expires.
  function Need(left: Timespec): (n: int)
    ensures Normal(left) ==> n >= 1
  {
    if Nanos(left) == 0 then 1 else Ceiling(Nanos(left))
  }

  function Ceiling(d: int): int {
    (d + 999_999) / 1_000_000
  }

  lemma NeedShrinks(left: Timespec)
    requires Normal(left)
    ensures var next := TimespecSub(left, INTERVAL);
      && (next == Timespec(0, 0) <==> Need(left) == 1)
      && (next != Timespec(0, 0) ==> Need(next) == Need(left) - 1)
  {
    var d, r := Nanos(left), Nanos(TimespecSub(left, INTERVAL));
    assert r == if d >= 1_000_000 then d - 1_000_000 else 0;
    CeilingShrinks(d);
  }

  lemma CeilingShrinks(d: int)
    ensures 0 < d ==> (Ceiling(d) == 1 <==> d <= 1_000_000)
    ensures Ceiling(d - 1_000_000) == Ceiling(d) - 1
  {}

  // ----- one scan -----

  datatype Pass = Pass(kept: seq<Timer>, fired: seq<nat>)

  // Removing the timer at hand moves its successor into the place the scan has just left.
  function Scan(l: seq<Timer>): Pass {
    if l == [] then Pass([], [])
    else
      var left := TimespecSub(l[0].left, INTERVAL);
      if left == Timespec(0, 0) then
        if |l| == 1 then Pass([], [l[0].id])
        else
          var rest := Scan(l[2..]);
          Pass([l[1]] + rest.kept, [l[0].id] + rest.fired)
      else
        var rest := Scan(l[1..]);
        Pass([Timer(l[0].id, left)] + rest.kept, rest.fired)
  }

  function Ids(l: seq<Timer>): multiset<nat> {
    if l == [] then multiset{} else multiset{l[0].id} + Ids(l[1..])
  }

  lemma {:induction false} ScanNormal(l: seq<Timer>)
    requires AllNormal(l)
    ensures AllNormal(Scan(l).kept)
  {
    if l != [] {
      assert Normal(l[0].left);
      if TimespecSub(l[0].left, INTERVAL) == Timespec(0, 0) {
        if |l| > 1 { ScanNormal(l[2..]); }
      } else {
        ScanNormal(l[1..]);
      }
    }
  }

  lemma IdsFirst(t: Timer, l: seq<Timer>)
    ensures Ids([t] + l) == multiset{t.id} + Ids(l)
  {
    assert ([t] + l)[1..] == l;
  }

  lemma IdsTwo(l: seq<Timer>)
    requires |l| > 1
    ensures Ids(l) == multiset{l[0].id} + (multiset{l[1].id} + Ids(l[2..]))
  {
    assert l[1..] == [l[1]] + l[2..];
    IdsFirst(l[1], l[2..]);
  }

  lemma FiredFirst(id: nat, fired: seq<nat>)
    ensures multiset([id] + fired) == multiset{id} + multiset(fired)
  {}

  lemma Regroup(a: nat, b: nat, kept: multiset<nat>, fired: multiset<nat>)
    ensures (multiset{b} + kept) + (multiset{a} + fired) == multiset{a} + (multiset{b} + (kept + fired))
  {}

  // A scan neither loses nor repeats a timer.
  lemma {:induction false} ScanConserves(l: seq<Timer>)
    ensures Ids(Scan(l).kept) + multiset(Scan(l).fired) == Ids(l)
  {
    if l != [] {
      var left := TimespecSub(l[0].left, INTERVAL);
      if left != Timespec(0, 0) {
        ScanConserves(l[1..]);
        IdsFirst(Timer(l[0].id, left), Scan(l[1..]).kept);
      } else if |l| > 1 {
        var rest := Scan(l[2..]);
        ScanConserves(l[2..]);
        IdsTwo(l);
        IdsFirst(l[1], rest.kept);
        FiredFirst(l[0].id, rest.fired);
        Regroup(l[0].id, l[1].id, Ids(rest.kept), multiset(rest.fired));
      }
    }
  }

  // The scan place by place: a timer fires when its time is up and the timer before it does not fire.
  predicate Fires(l: seq<Timer>, p: nat)
    requires p < |l|
  {
    TimespecSub(l[p].left, INTERVAL) == Timespec(0, 0) && !(p > 0 && Fires(l, p - 1))
  }

  lemma {:induction false} FiresBeyond(l: seq<Timer>, k: nat, p: nat)
    requires 0 < k <= p < |l| && !Fires(l, k - 1)
    ensures Fires(l, p) == Fires(l[k..], p - k)
  {
    if k < p { FiresBeyond(l, k, p - 1); }
  }

  // After the first timer kept, the scan goes on with the rest of the list.
  lemma ScanRest(l: seq<Timer>)
    requires l != [] && (Fires(l, 0) ==> |l| > 1)
    ensures var rest := Scan(l[if Fires(l, 0) then 2 else 1..]);
      && |Scan(l).kept| == 1 + |rest.kept| && (forall i | 0 <= i < |rest.kept| :: Scan(l).kept[i + 1] == rest.kept[i])
      && (forall x | x in rest.fired :: x in Scan(l).fired)
  {
    if Fires(l, 0) {
      var rest := Scan(l[2..]);
      assert Scan(l) == Pass([l[1]] + rest.kept, [l[0].id] + rest.fired);
      Prepended(l[1], rest.kept);
      Prepended(l[0].id, rest.fired);
    } else {
      var rest := Scan(l[1..]);
      var first := Timer(l[0].id, TimespecSub(l[0].left, INTERVAL));
      assert Scan(l) == Pass([first] + rest.kept, rest.fired);
      Prepended(first, rest.kept);
    }
  }

  lemma Prepended<T>(x: T, s: seq<T>)
    ensures |[x] + s| == 1 + |s| && (forall i | 0 <= i < |s| :: ([x] + s)[i + 1] == s[i])
    ensures forall y | y in s :: y in [x] + s
  {}

  // Timer t, once at place p, is at place q after the scan, or has fired if q is -1.
  ghost predicate Fate(pass: Pass, t: Timer, p: nat, q: int, fires: bool, skipped: bool) {
    && -1 <= q <= p && q < |pass.kept| && (q == -1 <==> fires)
    && (q == -1 ==> Need(t.left) == 1 && t.id in pass.fired)
    && (q >= 0 ==> pass.kept[q].id == t.id)
    && (q >= 0 && skipped ==> pass.kept[q] == t && q < p)
    && (q >= 0 && !skipped ==> Need(pass.kept[q].left) == Need(t.left) - 1)
  }

  predicate Skipped(l: seq<Timer>, p: nat)
    requires p < |l|
  {
    p > 0 && Fires(l, p - 1)
  }

  lemma FateShift(rest: Pass, pass: Pass, t: Timer, k: nat, p: nat, r: int, fires: bool, skipped: bool)
    requires 0 < k <= p && Fate(rest, t, p - k, r, fires, skipped) && |pass.kept| == 1 + |rest.kept|
    requires forall i | 0 <= i < |rest.kept| :: pass.kept[i + 1] == rest.kept[i]
    requires forall x | x in rest.fired :: x in pass.fired
    ensures Fate(pass, t, p, if r == -1 then -1 else r + 1, fires, skipped)
  {}

  // Behind what the scan does first, the rest of the list fares as it would alone.
  lemma FateBehind(l: seq<Timer>, k: nat, p: nat)
    requires 0 < k <= p < |l| && !Fires(l, k - 1)
    ensures Fires(l, p) == Fires(l[k..], p - k) && Skipped(l, p) == Skipped(l[k..], p - k)
  {
    FiresBeyond(l, k, p);
    if k < p { FiresBeyond(l, k, p - 1); }
  }

  // What one scan does to the timer at place p: it fires; or it is passed over, exactly when the timer before it
  // fires; or it is counted down. q is its new place, -1 if it fired; it never moves back.
  lemma {:induction false} ScanAt(l: seq<Timer>, p: nat) returns (q: int)
    requires AllNormal(l) && p < |l|
    ensures Fate(Scan(l), l[p], p, q, Fires(l, p), Skipped(l, p))
  {
    if p == 0 || (Fires(l, 0) && p == 1) {
      NeedShrinks(l[0].left);
      q := if p == 0 && Fires(l, 0) then -1 else 0;
    } else {
      var k := if Fires(l, 0) then 2 else 1;
      assert !Fires(l, k - 1);
      var r := ScanAt(l[k..], p - k);
      FateBehind(l, k, p);
      ScanRest(l);
      FateShift(Scan(l[k..]), Scan(l), l[p], k, p, r, Fires(l, p), Skipped(l, p));
      q := if r == -1 then -1 else r + 1;
    }
  }

  lemma {:induction false} IdAt(l: seq<Timer>, p: nat)
    requires p < |l|
    ensures l[p].id in Ids(l)
  {
    if p > 0 { IdAt(l[1..], p - 1); }
  }

  lemma {:induction false} IdsAppend(l: seq<Timer>, t: Timer)
    ensures Ids(l + [t]) == Ids(l) + multiset{t.id}
  {
    if l != [] {
      IdsAppend(l[1..], t);
      assert (l + [t])[1..] == l[1..] + [t];
    }
  }

  // ----- runs -----

  datatype State = State(timers: seq<Timer>, fired: multiset<nat>, realtime: Timespec, monotonic: Timespec)

  datatype Event = Tick | Arm(timer: Timer)

  function Next(s: State, e: Event): State {
    match e
    case Tick =>
      var p := Scan(s.timers);
      State(p.kept, s.fired + multiset(p.fired), TimespecAdd(s.realtime, INTERVAL), TimespecAdd(s.monotonic, INTERVAL))
    case Arm(t) => s.(timers := s.timers + [t])
  }

  // Every timer is armed once; its duration is a proper one.
  predicate Enabled(s: State, e: Event) {
    e.Arm? ==> Normal(e.timer.left) && e.timer.id !in Ids(s.timers) + s.fired
  }

  ghost predicate Once(m: multiset<nat>) {
    forall x :: m[x] <= 1
  }

  lemma OnceAdd(m: multiset<nat>, x: nat)
    requires Once(m) && x !in m
    ensures Once(m + multiset{x})
  {}

  // No timer is on the list twice, has fired twice, or is on the list after firing.
  ghost predicate Inv(s: State) {
    AllNormal(s.timers) && Once(Ids(s.timers) + s.fired)
  }

  lemma ArmKeeps(s: State, t: Timer)
    requires Inv(s) && Enabled(s, Arm(t))
    ensures Inv(Next(s, Arm(t)))
  {
    IdsAppend(s.timers, t);
    OnceAdd(Ids(s.timers) + s.fired, t.id);
    assert Ids(s.timers + [t]) + s.fired == (Ids(s.timers) + s.fired) + multiset{t.id};
  }

  lemma TickKeeps(s: State)
    requires Inv(s)
    ensures Inv(Next(s, Tick))
  {
    ScanNormal(s.timers);
    ScanConserves(s.timers);
    var p := Scan(s.timers);
    assert Ids(p.kept) + (s.fired + multiset(p.fired)) == Ids(s.timers) + s.fired;
  }

  ghost predicate IsRun(run: seq<State>, events: seq<Event>) {
    && |run| == |events| + 1
    && Inv(run[0])
    && forall i | 0 <= i < |events| :: StepAt(run, events, i)
  }

  ghost predicate StepAt(run: seq<State>, events: seq<Event>, i: nat)
    requires |run| == |events| + 1 && i < |events|
  {
    Enabled(run[i], events[i]) && run[i + 1] == Next(run[i], events[i])
  }

  lemma {:induction false} RunKeeps(run: seq<State>, events: seq<Event>, n: nat)
    requires IsRun(run, events) && n <= |events|
    ensures Inv(run[n])
  {
    if n > 0 {
      RunKeeps(run, events, n - 1);
      var s, e := run[n - 1], events[n - 1];
      assert StepAt(run, events, n - 1);
      if e.Tick? { TickKeeps(s); } else { ArmKeeps(s, e.timer); }
    }
  }

  function Ticks(events: seq<Event>, n: nat, m: nat): nat
    requires n <= m <= |events|
  {
    if n == m then 0 else Ticks(events, n, m - 1) + if events[m - 1].Tick? then 1 else 0
  }

  // The clocks count ticks exactly.
  lemma {:induction false} ClocksExact(run: seq<State>, events: seq<Event>, n: nat)
    requires IsRun(run, events) && n <= |events|
    ensures Nanos(run[n].realtime) == Nanos(run[0].realtime) + Ticks(events, 0, n) * TICK
    ensures Nanos(run[n].monotonic) == Nanos(run[0].monotonic) + Ticks(events, 0, n) * TICK
  {
    if n > 0 {
      ClocksExact(run, events, n - 1);
      assert StepAt(run, events, n - 1);
      assert Nanos(INTERVAL) == TICK;
    }
  }

  // Every tick brings the timer nearer to the front or to its end, and only counting it down brings it to its end.
  lemma {:induction false} Tracked(run: seq<State>, events: seq<Event>, n: nat, p: nat, m: nat) returns (q: int)
    requires IsRun(run, events) && n <= m <= |events| && p < |run[n].timers|
    ensures -1 <= q < |run[m].timers|
    ensures var t := run[n].timers[p];
      var k := Ticks(events, n, m);
      && (q == -1 ==> t.id in run[m].fired && Need(t.left) <= k)
      && (q >= 0 ==> var u := run[m].timers[q];
          u.id == t.id && Need(t.left) <= Need(u.left) + k && Need(u.left) + q + k <= Need(t.left) + p)
    decreases m
  {
    if n == m {
      q := p;
    } else {
      q := Tracked(run, events, n, p, m - 1);
      var s := run[m - 1];
      RunKeeps(run, events, m - 1);
      assert StepAt(run, events, m - 1);
      if q >= 0 && events[m - 1].Tick? {
        q := ScanAt(s.timers, q);
      }
    }
  }

  // Arming puts the timer behind all others, with its whole duration, and moves no other.
  lemma ArmedLast(s: State, t: Timer)
    ensures var r := Next(s, Arm(t));
      && |r.timers| == |s.timers| + 1 && r.timers[|s.timers|] == t
      && (forall i | 0 <= i < |s.timers| :: r.timers[i] == s.timers[i])
      && r.fired == s.fired && r.realtime == s.realtime && r.monotonic == s.monotonic
  {}

  // A timer with p others ahead of it and D nanoseconds left fires no sooner than tick max(1, D / TICK rounded up)
  // and no more than p ticks after that, and it fires once.
  lemma FiresOnTime(run: seq<State>, events: seq<Event>, n: nat, p: nat, m: nat)
    requires IsRun(run, events) && n <= m <= |events| && p < |run[n].timers|
    ensures var t := run[n].timers[p];
      var k := Ticks(events, n, m);
      && run[m].fired[t.id] <= 1
      && (k < Need(t.left) ==> run[m].fired[t.id] == 0)
      && (k >= Need(t.left) + p ==> run[m].fired[t.id] == 1)
  {
    var q := Tracked(run, events, n, p, m);
    RunKeeps(run, events, m);
    RunKeeps(run, events, n);
    var t := run[n].timers[p];
    assert (Ids(run[m].timers) + run[m].fired)[t.id] <= 1;
    if q >= 0 {
      IdAt(run[m].timers, q);
      assert Normal(run[m].timers[q].left);
    }
  }

  // From the moment it is armed, a timer fires after max(1, D / TICK rounded up) ticks at the earliest and at most as
  // many ticks later as timers were on the list, once.
  lemma FiresAfterArm(run: seq<State>, events: seq<Event>, n: nat, m: nat)
    requires IsRun(run, events) && n < m <= |events| && events[n].Arm?
    ensures var t := events[n].timer;
      var k := Ticks(events, n + 1, m);
      && run[m].fired[t.id] <= 1
      && (k < Need(t.left) ==> run[m].fired[t.id] == 0)
      && (k >= Need(t.left) + |run[n].timers| ==> run[m].fired[t.id] == 1)
  {
    assert StepAt(run, events, n);
    ArmedLast(run[n], events[n].timer);
    FiresOnTime(run, events, n + 1, |run[n].timers|, m);
  }

  // ----- the code -----

  // One round of the scan at index i.
  lemma ScanStep(l: seq<Timer>, i: nat)
    requires i < |l|
    ensures var left := TimespecSub(l[i].left, INTERVAL);
      var p := Scan(l[i..]);
      if left != Timespec(0, 0) then
        var l' := l[i := Timer(l[i].id, left)];
        && l[..i] + p.kept == l'[..i + 1] + Scan(l'[i + 1..]).kept
        && p.fired == Scan(l'[i + 1..]).fired
      else
        var l' := l[..i] + l[i + 1..];
        && (i + 1 <= |l'| ==> l[..i] + p.kept == l'[..i + 1] + Scan(l'[i + 1..]).kept)
        && (i + 1 <= |l'| ==> p.fired == [l[i].id] + Scan(l'[i + 1..]).fired)
        && (i + 1 > |l'| ==> l[..i] + p.kept == l' && p.fired == [l[i].id])
  {
    var left := TimespecSub(l[i].left, INTERVAL);
    if left != Timespec(0, 0) {
      assert l[i := Timer(l[i].id, left)][i + 1..] == l[i..][1..];
    } else if i + 1 < |l| {
      assert (l[..i] + l[i + 1..])[i + 1..] == l[i..][2..];
    }
  }

  // The scan has come to index i of the list as it is now.
  ghost predicate Reached(goal: Pass, l: seq<Timer>, i: nat, fired: seq<nat>) {
    i <= |l| + 1 &&
    if i <= |l| then goal.kept == l[..i] + Scan(l[i..]).kept && goal.fired == fired + Scan(l[i..]).fired
    else goal == Pass(l, fired)
  }

  lemma ReachedNext(goal: Pass, l: seq<Timer>, i: nat, fired: seq<nat>)
    requires i < |l| && Reached(goal, l, i, fired)
    ensures var left := TimespecSub(l[i].left, INTERVAL);
      if left != Timespec(0, 0) then Reached(goal, l[i := Timer(l[i].id, left)], i + 1, fired)
      else Reached(goal, l[..i] + l[i + 1..], i + 1, fired + [l[i].id])
  {
    ScanStep(l, i);
    var left := TimespecSub(l[i].left, INTERVAL);
    var l' := l[..i] + l[i + 1..];
    if left == Timespec(0, 0) && i + 1 <= |l'| {
      assert fired + ([l[i].id] + Scan(l'[i + 1..]).fired) == (fired + [l[i].id]) + Scan(l'[i + 1..]).fired;
    }
  }

  lemma ReachedEnd(goal: Pass, l: seq<Timer>, i: nat, fired: seq<nat>)
    requires i >= |l| && Reached(goal, l, i, fired)
    ensures goal == Pass(l, fired)
  {
    if i == |l| { assert l[..i] == l && l[i..] == [] && fired + [] == fired && l + [] == l; }
  }

  class Pit {
    var timers: seq<Timer>
    var realtime: Timespec
    var monotonic: Timespec
    ghost var expired: multiset<nat>   // the timers whose triggers were fired

    ghost function Abstract(): State
      reads this
    {
      State(timers, expired, realtime, monotonic)
    }

    // pit_handler. `fired` lists the timers whose triggers it fires.
    method Handler() returns (fired: seq<nat>)
      modifies this
      ensures timers == Scan(old(timers)).kept && fired == Scan(old(timers)).fired
      ensures realtime == TimespecAdd(old(realtime), INTERVAL)
      ensures monotonic == TimespecAdd(old(monotonic), INTERVAL)
      ensures Abstract() == Next(old(Abstract()), Tick)
    {
      realtime := TimespecAdd(realtime, INTERVAL);
      monotonic := TimespecAdd(monotonic, INTERVAL);
      fired := Expire();
      expired := expired + multiset(fired);
    }

    // Its loop, which removes from the list it walks.
    method Expire() returns (fired: seq<nat>)
      modifies this`timers
      ensures timers == Scan(old(timers)).kept && fired == Scan(old(timers)).fired
    {
      fired := [];
      ghost var goal := Scan(timers);
      var i := 0;
      while i < |timers|
        invariant 0 <= i && Reached(goal, timers, i, fired)
        decreases |timers| + 1 - i
      {
        ReachedNext(goal, timers, i, fired);
        ghost var l := timers;
        var left := TimespecSub(timers[i].left, INTERVAL);
        timers := timers[i := Timer(timers[i].id, left)];
        if left == Timespec(0, 0) {
          fired := fired + [timers[i].id];
          timers := timers[..i] + timers[i + 1..];
        }
        assert left == Timespec(0, 0) ==> timers == l[..i] + l[i + 1..];
        i := i + 1;
      }
      ReachedEnd(goal, timers, i, fired);
    }

    // The list side of event_create_timer.
    method Create(t: Timer)
      modifies this`timers
      ensures timers == old(timers) + [t] && Abstract() == Next(old(Abstract()), Arm(t))
    {
      timers := timers + [t];
    }
  }
}
