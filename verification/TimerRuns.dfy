/** Whole runs of the scheduler: tickn against tick1, and every timer against an ideal timer of its own. */
module TimerRuns {
  import opened TimerSpec
  import opened Words

  // ---------------------------------------------------------------- tickn is n times tick1

  function Ticks<D>(react: React<D>, s: Sched<D>, n: nat): (r: Sched<D>)
    requires Inv(s)
    ensures Inv(r) && Now(r) == Now(s) + n
    decreases n
  {
    if n == 0 then s else Ticks(react, Tick1(react, s), n - 1)
  }

  /** Short of the countdown, ticking only counts down. */
  lemma {:induction false} TicksShort<D>(react: React<D>, s: Sched<D>, n: nat)
    requires Inv(s) && n < s.currCountdown
    ensures Ticks(react, s, n) == s.(currCountdown := s.currCountdown - n)
    decreases n
  {
    hide CountdownEvent;
    if n > 0 { TicksShort(react, Tick1(react, s), n - 1); }
  }

  lemma {:induction false} TicksAdd<D>(react: React<D>, s: Sched<D>, m: nat, n: nat)
    requires Inv(s)
    ensures Ticks(react, s, m + n) == Ticks(react, Ticks(react, s, m), n)
    decreases m
  {
    hide Core, Tick1;
    if m > 0 { TicksAdd(react, Tick1(react, s), m - 1, n); }
  }

  /** Batching is invisible: the same final state, with the same callbacks at the same ticks in its log. */
  lemma {:induction false} TickNIsTicks<D>(react: React<D>, s: Sched<D>, n: nat)
    requires Inv(s)
    ensures TickN(react, s, n) == Ticks(react, s, n)
    decreases n
  {
    hide CountdownEvent;
    var c := s.currCountdown;
    if n >= c {
      TicksAdd(react, s, c - 1, n - (c - 1));
      TicksShort(react, s, c - 1);
      var s1 := s.(currCountdown := 1);
      assert Ticks(react, s, c - 1) == s1;
      assert Tick1(react, s1) == CountdownEvent(react, s.(currCountdown := 0));
      assert Ticks(react, s1, n - (c - 1)) == Ticks(react, Tick1(react, s1), n - c);
      TickNIsTicks(react, Tick1(react, s1), n - c);
    } else {
      TicksShort(react, s, n);
    }
  }

  // ---------------------------------------------------------------- reading the log

  /** The ticks at which callback i was called. */
  function Fires(log: seq<Event>, i: nat): seq<int> {
    if log == [] then []
    else
      var e := log[|log| - 1];
      Fires(log[..|log| - 1], i) + if e.Fired? && e.index == i then [e.tick] else []
  }

  /** How many calls touched timer slot i. */
  function Touches(log: seq<Event>, i: nat): nat {
    if log == [] then 0
    else
      var e := log[|log| - 1];
      Touches(log[..|log| - 1], i) + if e.Did? && e.slot == i then 1 else 0
  }

  lemma LogStep(log: seq<Event>, e: Event, i: nat)
    ensures Fires(log + [e], i) == Fires(log, i) + if e.Fired? && e.index == i then [e.tick] else []
    ensures Touches(log + [e], i) == Touches(log, i) + if e.Did? && e.slot == i then 1 else 0
  {
    assert (log + [e])[..|log|] == log;
  }

  // ---------------------------------------------------------------- the ideal timer

  /** The callback of a timer at its fire time; none if it has no callback. */
  function CallAt(t: Timer): seq<int> {
    if t.funct == NoHandler then [] else [t.timeToFire]
  }

  /** A timer on its own, up to and including tick `now`: what it has become, and when it fired. */
  function Evolve(t: Timer, now: int): (r: (Timer, seq<int>))
    requires t.active ==> t.period >= MIN_PERIOD
    ensures r.0.active ==> r.0.period >= MIN_PERIOD
    decreases if t.active then 1 else 0, now - t.timeToFire
  {
    if !t.active || t.timeToFire > now then (t, [])
    else if !t.continuous then (t.(active := false), CallAt(t))
    else
      var (t', fires) := Evolve(t.(timeToFire := t.timeToFire + t.period), now);
      (t', CallAt(t) + fires)
  }

  lemma {:induction false} EvolveChain(t: Timer, a: int, b: int)
    requires a <= b && (t.active ==> t.period >= MIN_PERIOD)
    ensures Evolve(t, b).0 == Evolve(Evolve(t, a).0, b).0
    ensures Evolve(t, b).1 == Evolve(t, a).1 + Evolve(Evolve(t, a).0, b).1
    decreases if t.active then 1 else 0, a - t.timeToFire
  {
    if t.active && t.timeToFire <= a && t.continuous {
      var u := t.(timeToFire := t.timeToFire + t.period);
      EvolveChain(u, a, b);
      var (u', fires) := Evolve(u, a);
      assert Evolve(t, a) == (u', CallAt(t) + fires);
      assert CallAt(t) + (fires + Evolve(u', b).1) == (CallAt(t) + fires) + Evolve(u', b).1;
    }
  }

  /** A continuous timer armed at tick t0 with period p fires at t0+p, t0+2p, ...: floor((now - t0) / p) times. */
  lemma {:induction false} ContinuousSchedule(t: Timer, t0: int, now: int)
    requires t.active && t.continuous && t.funct != NoHandler && t.period >= MIN_PERIOD
    requires t.timeToFire == t0 + t.period && t0 <= now
    ensures var fires := Evolve(t, now).1;
      && |fires| == (now - t0) / t.period
      && forall k :: 0 <= k < |fires| ==> fires[k] == t0 + (k + 1) * t.period
    decreases now - t0
  {
    var p := t.period;
    if t.timeToFire > now {
      assert 0 <= now - t0 < p;
      SmallQuotient(now - t0, p);
    } else {
      var next := t.(timeToFire := t.timeToFire + p);
      ContinuousSchedule(next, t0 + p, now);
      QuotientStep(now - t0, p);
      var rest := Evolve(next, now).1;
      var fires := Evolve(t, now).1;
      assert fires == [t.timeToFire] + rest;
      forall k | 0 <= k < |fires| ensures fires[k] == t0 + (k + 1) * p {
        if k > 0 {
          assert fires[k] == rest[k - 1] == (t0 + p) + k * p;
          assert (k + 1) * p == k * p + p;
        }
      }
    }
  }

  lemma SmallQuotient(x: int, p: int)
    requires 0 <= x < p
    ensures x / p == 0
  {
  }

  lemma QuotientStep(x: int, p: int)
    requires p >= 1 && x >= p
    ensures x / p == (x - p) / p + 1
  {
    var q, r := (x - p) / p, (x - p) % p;
    assert x - p == q * p + r;
    assert x == (q + 1) * p + r;
    DivideUnique(x, p, q + 1, r);
  }

  // ---------------------------------------------------------------- a timer left alone

  /** From s to s', slot i was touched or it did exactly what t does on its own up to `now`. */
  ghost predicate Tracks<D>(s: Sched<D>, s': Sched<D>, i: nat, next: Timer, fires: seq<int>)
    requires i < |s.timer| && i < |s'.timer|
  {
    && Touches(s.log, i) <= Touches(s'.log, i)
    && (Touches(s.log, i) == Touches(s'.log, i) ==>
          s'.timer[i] == next && Fires(s'.log, i) == Fires(s.log, i) + fires)
  }

  lemma PeriodOk<D>(s: Sched<D>, i: nat)
    requires Core(s) && i < MAX_TIMERS
    ensures |s.timer| == MAX_TIMERS && (s.timer[i].active ==> s.timer[i].period >= MIN_PERIOD)
  {
    assert TimerOk(s.timer[i], i, s.numTimers, s.ticksTotal + s.currCountdownPeriod);
  }

  lemma ApplyTracks<D>(s: Sched<D>, op: Op, i: nat)
    requires Inv(s) && i < MAX_TIMERS
    ensures Inv(Apply(s, op)) && Tracks(s, Apply(s, op), i, s.timer[i], [])
  {
    ApplyKeeps(s, op);
    LogStep(s.log, Did(Now(s), op, Target(s, op)), i);
  }

  lemma {:induction false} ApplyAllTracks<D>(s: Sched<D>, ops: seq<Op>, i: nat)
    requires Inv(s) && i < MAX_TIMERS
    ensures Tracks(s, ApplyAll(s, ops), i, s.timer[i], [])
    decreases ops
  {
    if ops != [] {
      ApplyTracks(s, ops[0], i);
      ApplyAllTracks(Apply(s, ops[0]), ops[1..], i);
    }
  }

  lemma InvokeTracks<D>(react: React<D>, s: Sched<D>, j: nat, i: nat)
    requires Inv(s) && j < MAX_TIMERS && i < MAX_TIMERS
    ensures Tracks(s, Invoke(react, s, j), i, s.timer[i], if j == i then [Now(s)] else [])
  {
    var s1 := s.(triggeredTimer := j, log := s.log + [Fired(Now(s), j)]);
    LogStep(s.log, Fired(Now(s), j), i);
    if s.timer[j].funct != NullTimer {
      var (dev, ops) := react(s.dev, s1, j);
      ApplyAllTracks(s1.(dev := dev), ops, i);
    }
  }

  lemma {:induction false} CallbacksTrack<D>(react: React<D>, s: Sched<D>, triggered: seq<bool>, j: nat, i: nat)
    requires Inv(s) && j <= |triggered| <= MAX_TIMERS && i < MAX_TIMERS
    ensures Tracks(s, Callbacks(react, s, triggered, j), i, s.timer[i],
                   if j <= i < |triggered| && triggered[i] && s.timer[i].funct != NoHandler then [Now(s)] else [])
    decreases |triggered| - j
  {
    hide Core, Invoke;
    PeriodOk(s, i);
    if j < |triggered| {
      if triggered[j] && s.timer[j].funct != NoHandler {
        InvokeTracks(react, s, j, i);
        CallbacksTrack(react, Invoke(react, s, j), triggered, j + 1, i);
      } else {
        CallbacksTrack(react, s, triggered, j + 1, i);
      }
    }
  }

  /** From s to s', slot i was touched or it kept to the schedule of its own timer. */
  ghost predicate OnSchedule<D>(s: Sched<D>, s': Sched<D>, i: nat)
    requires i < |s.timer| && i < |s'.timer|
  {
    var t := s.timer[i];
    && (t.active ==> t.period >= MIN_PERIOD)
    && Tracks(s, s', i, Evolve(t, Now(s')).0, Evolve(t, Now(s')).1)
  }

  /** One event does to an untouched timer what its own clock does at that tick. */
  lemma EventOnSchedule<D>(react: React<D>, s: Sched<D>, i: nat)
    requires Core(s) && s.currCountdown == 0 && i < MAX_TIMERS
    ensures OnSchedule(s, CountdownEvent(react, s), i)
  {
    hide Callbacks;
    assert TimerOk(s.timer[i], i, s.numTimers, s.ticksTotal + s.currCountdownPeriod);
    ElapseKeeps(s);
    CallbacksTrack(react, Elapse(s), Triggered(s.timer, s.numTimers, Now(s)), 0, i);
    var t := s.timer[i];
    assert CallAt(t) + [] == CallAt(t);
    assert Evolve(t, Now(s)) == (FireOne(t, Now(s)), if Due(t, Now(s)) then CallAt(t) else []);
  }

  lemma Tick1OnSchedule<D>(react: React<D>, s: Sched<D>, i: nat)
    requires Inv(s) && i < MAX_TIMERS
    ensures OnSchedule(s, Tick1(react, s), i)
  {
    hide CountdownEvent;
    assert TimerOk(s.timer[i], i, s.numTimers, s.ticksTotal + s.currCountdownPeriod);
    if s.currCountdown == 1 { EventOnSchedule(react, s.(currCountdown := 0), i); }
  }

  lemma Standstill<D>(s: Sched<D>, i: nat)
    requires Inv(s) && i < MAX_TIMERS
    ensures OnSchedule(s, s, i)
  {
    assert TimerOk(s.timer[i], i, s.numTimers, s.ticksTotal + s.currCountdownPeriod);
  }

  lemma CallOnSchedule<D>(s: Sched<D>, op: Op, i: nat)
    requires Inv(s) && i < MAX_TIMERS
    ensures Inv(Apply(s, op)) && OnSchedule(s, Apply(s, op), i)
  {
    hide Apply, Fires, Touches;
    assert TimerOk(s.timer[i], i, s.numTimers, s.ticksTotal + s.currCountdownPeriod);
    ApplyKeeps(s, op);
    ApplyTracks(s, op, i);
  }

  /** Two stretches of a run, one after the other. */
  lemma Chain<D>(s: Sched<D>, s1: Sched<D>, s2: Sched<D>, i: nat)
    requires i < |s.timer| && i < |s1.timer| && i < |s2.timer| && Now(s1) <= Now(s2)
    requires OnSchedule(s, s1, i) && OnSchedule(s1, s2, i)
    ensures OnSchedule(s, s2, i)
  {
    hide Evolve, Fires, Touches;
    EvolveChain(s.timer[i], Now(s1), Now(s2));
  }

  // ---------------------------------------------------------------- runs

  datatype Act = Tick | TickMany(n: nat) | Call(op: Op)

  /** One thing the rest of the emulator does between events. */
  function Do<D>(react: React<D>, s: Sched<D>, act: Act): (r: Sched<D>)
    requires Inv(s)
    ensures Inv(r) && Now(r) >= Now(s)
  {
    match act
    case Tick => Tick1(react, s)
    case TickMany(n) => TickN(react, s, n)
    case Call(op) => ApplyKeeps(s, op); Apply(s, op)
  }

  /** Every run keeps the invariant: no active timer is ever overdue, the countdown is at least 1 and at most
      its period, and the clock only moves forward. */
  function Run<D>(react: React<D>, s: Sched<D>, acts: seq<Act>): (r: Sched<D>)
    requires Inv(s)
    ensures Inv(r) && Now(r) >= Now(s)
    decreases acts
  {
    if acts == [] then s else Run(react, Do(react, s, acts[0]), acts[1..])
  }

  lemma InitInv<D>(dev: D)
    ensures Inv(Init(dev)) && Now(Init(dev)) == 0
    ensures var s := Init(dev);
      && |s.timer| == 64 && s.numTimers == 1 && s.currCountdown == s.currCountdownPeriod == 0xffff_ffff
      && s.timer[0] == Timer(true, 0xffff_ffff, 0xffff_ffff, true, true, NullTimer)
      && forall i :: 1 <= i < 64 ==> !s.timer[i].inUse && !s.timer[i].active
  {
  }

  lemma Slots<D>(s: Sched<D>)
    requires Core(s)
    ensures |s.timer| == MAX_TIMERS
  {
  }

  lemma {:induction false} TicksOnSchedule<D>(react: React<D>, s: Sched<D>, n: nat, i: nat)
    requires Inv(s) && i < MAX_TIMERS
    ensures |s.timer| == |Ticks(react, s, n).timer| == MAX_TIMERS && OnSchedule(s, Ticks(react, s, n), i)
    decreases n
  {
    hide Core, Tick1, OnSchedule;
    Slots(s);
    if n == 0 {
      Standstill(s, i);
    } else {
      var s1 := Tick1(react, s);
      Slots(s1);
      Tick1OnSchedule(react, s, i);
      TicksOnSchedule(react, s1, n - 1, i);
      Chain(s, s1, Ticks(react, s, n), i);
    }
  }

  lemma DoOnSchedule<D>(react: React<D>, s: Sched<D>, act: Act, i: nat)
    requires Inv(s) && i < MAX_TIMERS
    ensures |s.timer| == |Do(react, s, act).timer| == MAX_TIMERS && OnSchedule(s, Do(react, s, act), i)
  {
    hide Core, Tick1, TickN, Apply, OnSchedule;
    Slots(s);
    Slots(Do(react, s, act));
    match act
    case Tick => Tick1OnSchedule(react, s, i);
    case TickMany(n) => TickNIsTicks(react, s, n); TicksOnSchedule(react, s, n, i);
    case Call(op) => CallOnSchedule(s, op, i);
  }

  /** Whatever the run does with ticks and with other timers, and whatever the callbacks do, a slot that no
      call touched holds exactly what its timer would have become on its own, and its callback was called at
      exactly the ticks of its own schedule: never late, never early, never twice. */
  lemma {:induction false} LeftAloneFiresOnSchedule<D>(react: React<D>, s: Sched<D>, acts: seq<Act>, i: nat)
    requires Inv(s) && i < MAX_TIMERS
    ensures |s.timer| == |Run(react, s, acts).timer| == MAX_TIMERS && OnSchedule(s, Run(react, s, acts), i)
    decreases acts
  {
    hide Core, Do, OnSchedule;
    Slots(s);
    if acts == [] {
      Standstill(s, i);
    } else {
      var s1 := Do(react, s, acts[0]);
      DoOnSchedule(react, s, acts[0], i);
      LeftAloneFiresOnSchedule(react, s1, acts[1..], i);
      Chain(s, s1, Run(react, s, acts), i);
    }
  }

  // ---------------------------------------------------------------- a timer armed and then left alone

  /** When a timer armed at tick t0 with period p has fired by tick `now`: floor((now - t0) / p) times, at t0+p,
      t0+2p and so on; a one-shot timer once, at t0+p. */
  function Schedule(t0: int, p: nat, continuous: bool, now: int): seq<int>
    requires p >= 1 && t0 <= now
  {
    if continuous then seq((now - t0) / p, k requires 0 <= k => t0 + (k + 1) * p)
    else if now < t0 + p then [] else [t0 + p]
  }

  /** The timer was armed at tick t0. */
  predicate Armed(t: Timer, t0: int, p: nat, continuous: bool) {
    t.active && t.funct != NoHandler && t.period == p >= 1 && t.timeToFire == t0 + p && t.continuous == continuous
  }

  lemma EvolveIsSchedule(t: Timer, t0: int, now: int)
    requires Armed(t, t0, t.period, t.continuous) && t0 <= now
    ensures Evolve(t, now).1 == Schedule(t0, t.period, t.continuous, now)
  {
    if t.continuous { ContinuousSchedule(t, t0, now); }
  }

  /** The call starts a timer that has a callback: it registers an active one, or activates one. */
  predicate Arms<D>(s: Sched<D>, op: Op)
    requires Core(s)
  {
    match op
    case Register(funct, _, _, active) => active && funct.Device? && s.numTimers < 64
    case Activate(i, _, _) => 1 <= i < s.numTimers && s.timer[i].funct != NoHandler
    case _ => false
  }

  lemma ArmKeeps<D>(s: Sched<D>, op: Op)
    requires Inv(s) && Arms(s, op)
    ensures var s0, i := Apply(s, op), Target(s, op);
      && Inv(s0) && Now(s0) == Now(s) && 1 <= i < MAX_TIMERS && |s0.timer| == MAX_TIMERS
      && s0.log == s.log + [Did(Now(s), op, i)]
      && Fires(s0.log, i) == Fires(s.log, i)
      && Armed(s0.timer[i], Now(s), if op.ticks >= 1 then op.ticks else 1, op.continuous)
  {
    ApplyKeeps(s, op);
    LogStep(s.log, Did(Now(s), op, Target(s, op)), Target(s, op));
  }

  /** Armed between two events and then left alone, a timer has fired exactly on its schedule. */
  lemma ArmedFires<D>(react: React<D>, s: Sched<D>, op: Op, acts: seq<Act>)
    requires Inv(s) && Arms(s, op)
    ensures var s0, i := Apply(s, op), Target(s, op);
      && Inv(s0) && 1 <= i < MAX_TIMERS
      && var s', period := Run(react, s0, acts), if op.ticks >= 1 then op.ticks else 1;
         && Now(s) <= Now(s')
         && (Touches(s'.log, i) == Touches(s0.log, i) ==>
               Fires(s'.log, i) == Fires(s.log, i) + Schedule(Now(s), period, op.continuous, Now(s')))
  {
    ArmKeeps(s, op);
    hide Core, Run, Fires, Touches, Apply, Target, Arms;
    var s0, i := Apply(s, op), Target(s, op);
    var s' := Run(react, s0, acts);
    LeftAloneFiresOnSchedule(react, s0, acts, i);
    EvolveIsSchedule(s0.timer[i], Now(s), Now(s'));
  }

  /** What is left of a run inside a callback: the calls that this callback still makes, the callbacks of the
      same event from slot k on, and then the rest of the run. */
  function Finish<D>(
    react: React<D>, s: Sched<D>, ops: seq<Op>, triggered: seq<bool>, k: nat, acts: seq<Act>): (r: Sched<D>)
    requires Inv(s) && k <= |triggered| <= MAX_TIMERS
    ensures Inv(r) && Now(r) >= Now(s)
  {
    Run(react, Callbacks(react, ApplyAll(s, ops).(triggeredTimer := 0), triggered, k), acts)
  }

  lemma {:induction false} ApplyAllAppend<D>(s: Sched<D>, a: seq<Op>, b: seq<Op>)
    requires Inv(s)
    ensures ApplyAll(s, a + b) == ApplyAll(ApplyAll(s, a), b)
    decreases a
  {
    hide Core, Apply;
    if a == [] {
      assert a + b == b;
    } else {
      ApplyKeeps(s, a[0]);
      assert (a + b)[1..] == a[1..] + b;
      ApplyAllAppend(Apply(s, a[0]), a[1..], b);
    }
  }

  /** The scheduler as callback k starts, with the calls it is going to make. */
  function Enter<D>(react: React<D>, s: Sched<D>, k: nat): (r: (Sched<D>, seq<Op>))
    requires Inv(s)
    ensures Inv(r.0) && Now(r.0) == Now(s)
  {
    var s1 := s.(triggeredTimer := k, log := s.log + [Fired(Now(s), k)]);
    var (dev, ops) := react(s.dev, s1, k);
    (s1.(dev := dev), ops)
  }

  /** Every call of a callback has such a rest: the event goes on behind any of the calls of callback k. */
  lemma CallbackMoment<D>(
    react: React<D>, s: Sched<D>, triggered: seq<bool>, k: nat, before: seq<Op>, op: Op, after: seq<Op>)
    requires Inv(s) && k < |triggered| <= MAX_TIMERS && |s.timer| == MAX_TIMERS
    requires triggered[k] && s.timer[k].funct.Device? && Enter(react, s, k).1 == before + [op] + after
    ensures var s1 := ApplyAll(Enter(react, s, k).0, before);
      && Inv(Apply(s1, op))
      && Callbacks(react, s, triggered, k) == Finish(react, Apply(s1, op), after, triggered, k + 1, [])
  {
    hide Core, Apply, ApplyAll;
    EnteredCall(react, s, k);
    var (s1, ops) := Enter(react, s, k);
    hide Enter, Invoke;
    CallsSplit(s1, before, op, after);
    assert ops == before + ([op] + after);
    var s2 := Apply(ApplyAll(s1, before), op);
    assert Finish(react, s2, after, triggered, k + 1, [])
        == Callbacks(react, ApplyAll(s2, after).(triggeredTimer := 0), triggered, k + 1);
  }

  lemma EnteredCall<D>(react: React<D>, s: Sched<D>, k: nat)
    requires Inv(s) && k < MAX_TIMERS && |s.timer| == MAX_TIMERS && s.timer[k].funct.Device?
    ensures var (s1, ops) := Enter(react, s, k); Invoke(react, s, k) == ApplyAll(s1, ops).(triggeredTimer := 0)
  {
    hide Core, ApplyAll;
  }

  lemma CallsSplit<D>(s: Sched<D>, before: seq<Op>, op: Op, after: seq<Op>)
    requires Inv(s)
    ensures var s1 := ApplyAll(s, before);
      Inv(Apply(s1, op)) && ApplyAll(s, before + ([op] + after)) == ApplyAll(Apply(s1, op), after)
  {
    hide Core, Apply;
    ApplyAllAppend(s, before, [op] + after);
    ApplyKeeps(ApplyAll(s, before), op);
    assert ([op] + after)[1..] == after;
  }

  lemma RestOfEvent<D>(
    react: React<D>, s: Sched<D>, ops: seq<Op>, triggered: seq<bool>, k: nat, i: nat)
    requires Inv(s) && k <= |triggered| <= MAX_TIMERS && i < MAX_TIMERS && |s.timer| == MAX_TIMERS
    ensures var s1 := ApplyAll(s, ops).(triggeredTimer := 0);
      && Inv(s1)
      && var s2 := Callbacks(react, s1, triggered, k);
         && |s2.timer| == MAX_TIMERS
         && Tracks(s, s2, i, s.timer[i], Pending(s, triggered, k, i))
  {
    hide Core, ApplyAll, Callbacks, Fires, Touches;
    var s1 := ApplyAll(s, ops);
    var s2 := s1.(triggeredTimer := 0);
    SameTimers(s1, s2);
    Slots(s1);
    ApplyAllTracks(s, ops, i);
    CallbacksTrack(react, s2, triggered, k, i);
    Slots(Callbacks(react, s2, triggered, k));
  }

  /** The call of timer i that is still to come in this event when the callbacks from slot k on are left: the
      snapshot of the due timers decides, and whether the timer has a callback. */
  function Pending<D>(s: Sched<D>, triggered: seq<bool>, k: nat, i: nat): seq<int>
    requires i < |s.timer|
  {
    if k <= i < |triggered| && triggered[i] && s.timer[i].funct != NoHandler then [Now(s)] else []
  }

  /** Armed inside a callback and then left alone, a timer fires on its schedule from that tick on. It is called
      once more before, at that very tick, if and only if it was also due in this event and its slot has not had
      its turn: the snapshot of the due timers is not changed by the arming. */
  lemma ArmedInCallbackFires<D>(
    react: React<D>, s: Sched<D>, op: Op, ops: seq<Op>, triggered: seq<bool>, k: nat, acts: seq<Act>)
    requires Inv(s) && Arms(s, op) && k <= |triggered| <= MAX_TIMERS
    ensures var s0, i := Apply(s, op), Target(s, op);
      && Inv(s0) && 1 <= i < MAX_TIMERS
      && var s' := Finish(react, s0, ops, triggered, k, acts);
         var period := if op.ticks >= 1 then op.ticks else 1;
         && Now(s) <= Now(s')
         && (Touches(s'.log, i) == Touches(s0.log, i) ==>
               Fires(s'.log, i) == Fires(s.log, i)
                 + (if k <= i < |triggered| && triggered[i] then [Now(s)] else [])
                 + Schedule(Now(s), period, op.continuous, Now(s')))
  {
    hide Core, Run, Fires, Touches, Apply, Target, Arms, ApplyAll, Callbacks;
    ArmKeeps(s, op);
    var s0, i := Apply(s, op), Target(s, op);
    RestOfEvent(react, s0, ops, triggered, k, i);
    var s3 := Callbacks(react, ApplyAll(s0, ops).(triggeredTimer := 0), triggered, k);
    LeftAloneFiresOnSchedule(react, s3, acts, i);
    EvolveIsSchedule(s0.timer[i], Now(s), Now(Run(react, s3, acts)));
  }

  // ---------------------------------------------------------------- a timer stopped, and then left alone

  /** While an inactive timer is left alone, it stays inactive and is not called. */
  lemma InactiveIsSilent<D>(react: React<D>, s: Sched<D>, acts: seq<Act>, i: nat)
    requires Inv(s) && i < MAX_TIMERS && |s.timer| == MAX_TIMERS && !s.timer[i].active
    ensures var s' := Run(react, s, acts);
      Touches(s'.log, i) == Touches(s.log, i) ==>
        |s'.timer| == MAX_TIMERS && s'.timer[i] == s.timer[i] && Fires(s'.log, i) == Fires(s.log, i)
  {
    hide Core, Run, Fires, Touches;
    LeftAloneFiresOnSchedule(react, s, acts, i);
  }

  /** The same from inside a callback on, but for the call that the snapshot still owes. */
  lemma InactiveIsSilentAfter<D>(
    react: React<D>, s: Sched<D>, ops: seq<Op>, triggered: seq<bool>, k: nat, acts: seq<Act>, i: nat)
    requires Inv(s) && k <= |triggered| <= MAX_TIMERS
    requires i < MAX_TIMERS && |s.timer| == MAX_TIMERS && !s.timer[i].active
    ensures var s' := Finish(react, s, ops, triggered, k, acts);
      Touches(s'.log, i) == Touches(s.log, i) ==>
        && |s'.timer| == MAX_TIMERS && s'.timer[i] == s.timer[i]
        && Fires(s'.log, i) == Fires(s.log, i) + Pending(s, triggered, k, i)
  {
    hide Core, Run, Fires, Touches, ApplyAll, Callbacks, Pending;
    RestOfEvent(react, s, ops, triggered, k, i);
    LeftAloneFiresOnSchedule(react, Callbacks(react, ApplyAll(s, ops).(triggeredTimer := 0), triggered, k), acts, i);
  }

  lemma DeactivateStops<D>(s: Sched<D>, i: nat)
    requires Inv(s) && 1 <= i < s.numTimers
    ensures var s0 := Apply(s, Deactivate(i));
      && Inv(s0) && Now(s0) == Now(s) && i < MAX_TIMERS && |s.timer| == |s0.timer| == MAX_TIMERS
      && s0.timer == s.timer[i := s.timer[i].(active := false)]
      && Fires(s0.log, i) == Fires(s.log, i)
      && s0.log == s.log + [Did(Now(s), Deactivate(i), i)] && s0.currCountdown == s.currCountdown
  {
    ApplyKeeps(s, Deactivate(i));
    LogStep(s.log, Did(Now(s), Deactivate(i), i), i);
  }

  /** Deactivated between two events and then left alone, a timer is not called any more. */
  lemma DeactivatedStops<D>(react: React<D>, s: Sched<D>, i: nat, acts: seq<Act>)
    requires Inv(s) && 1 <= i < s.numTimers
    ensures var s0 := Apply(s, Deactivate(i));
      && Inv(s0)
      && var s' := Run(react, s0, acts);
         Touches(s'.log, i) == Touches(s0.log, i) ==> Fires(s'.log, i) == Fires(s.log, i)
  {
    hide Core, Run, Fires, Touches, Apply;
    DeactivateStops(s, i);
    InactiveIsSilent(react, Apply(s, Deactivate(i)), acts, i);
  }

  /** Deactivated inside a callback and then left alone, a timer is called once more if and only if it was due in
      the same event, has a callback, and has not had its turn; and then never again. */
  lemma DeactivatedInCallbackStops<D>(
    react: React<D>, s: Sched<D>, i: nat, ops: seq<Op>, triggered: seq<bool>, k: nat, acts: seq<Act>)
    requires Inv(s) && 1 <= i < s.numTimers && k <= |triggered| <= MAX_TIMERS
    ensures var s0 := Apply(s, Deactivate(i));
      && Inv(s0) && i < |s.timer|
      && var s' := Finish(react, s0, ops, triggered, k, acts);
         Touches(s'.log, i) == Touches(s0.log, i) ==>
           Fires(s'.log, i) == Fires(s.log, i)
             + if k <= i < |triggered| && triggered[i] && s.timer[i].funct != NoHandler then [Now(s)] else []
  {
    hide Core, Run, Fires, Touches, Apply, Finish;
    DeactivateStops(s, i);
    InactiveIsSilentAfter(react, Apply(s, Deactivate(i)), ops, triggered, k, acts, i);
  }

  // ---------------------------------------------------------------- which slot a registration gets

  /** A full table refuses. Otherwise the timer goes, as it was asked for, into the lowest slot after the null
      timer's that is not in use, or else behind the last one, and the call returns that slot. An active one cuts
      the countdown down to its period if it was longer. */
  lemma RegisterExactly<D>(s: Sched<D>, funct: Handler, ticks: nat, continuous: bool, active: bool)
    requires Inv(s)
    ensures var (s', i) := RegisterTimer(s, funct, ticks, continuous, active);
      && |s.timer| == 64 && i == Target(s, Register(funct, ticks, continuous, active))
      && if s.numTimers >= 64 then i == -1 && s' == s
         else
           && 1 <= i <= s.numTimers && (i < s.numTimers ==> !s.timer[i].inUse)
           && (forall k :: 1 <= k < i ==> s.timer[k].inUse)
           && (var p := if ticks >= 1 then ticks else 1;
               && s'.timer == s.timer[i := Timer(true, p, Now(s) + p, active, continuous, funct)]
               && s'.currCountdown == (if active && p < s.currCountdown then p else s.currCountdown)
               && Now(s') == Now(s) && s'.ticksTotal == s.ticksTotal)
           && s'.numTimers == if i == s.numTimers then i + 1 else s.numTimers
  {
    LowestFree(s.timer, s.numTimers, 1);
  }

  lemma {:induction false} LowestFree(ts: seq<Timer>, numTimers: nat, i: nat)
    requires i <= numTimers <= |ts|
    ensures forall k :: i <= k < FreeTimer(ts, numTimers, i) ==> ts[k].inUse
    decreases numTimers - i
  {
    if i < numTimers && ts[i].inUse { LowestFree(ts, numTimers, i + 1); }
  }

  /** Activating a timer in 1 .. numTimers - 1 sets its period, its fire time, and whether it repeats; its callback
      and all other timers stay as they are. The countdown is cut down to the period if it was longer. Other indices are
      ignored. */
  lemma ActivateExactly<D>(s: Sched<D>, i: nat, ticks: nat, continuous: bool)
    requires Inv(s)
    ensures |s.timer| == 64
    ensures var s', p := Apply(s, Activate(i, ticks, continuous)), if ticks >= 1 then ticks else 1;
      if 1 <= i < s.numTimers then
        && s'.timer == s.timer[i := Timer(s.timer[i].inUse, p, Now(s) + p, true, continuous, s.timer[i].funct)]
        && s'.currCountdown == (if p < s.currCountdown then p else s.currCountdown)
        && Now(s') == Now(s) && s'.ticksTotal == s.ticksTotal
      else s'.timer == s.timer && s'.currCountdown == s.currCountdown
  {
  }

  /** A timer that is registered inactive is not called while it is left alone. */
  lemma RegisteredInactiveIsSilent<D>(
    react: React<D>, s: Sched<D>, funct: Handler, ticks: nat, continuous: bool, acts: seq<Act>)
    requires Inv(s) && s.numTimers < 64
    ensures var op := Register(funct, ticks, continuous, false);
      var s0, i := Apply(s, op), Target(s, op);
      && Inv(s0) && 1 <= i < 64
      && var s' := Run(react, s0, acts);
         Touches(s'.log, i) == Touches(s0.log, i) ==> Fires(s'.log, i) == Fires(s.log, i)
  {
    var op := Register(funct, ticks, continuous, false);
    RegisterExactly(s, funct, ticks, continuous, false);
    ApplyKeeps(s, op);
    LogStep(s.log, Did(Now(s), op, Target(s, op)), Target(s, op));
    hide Core, Run, Fires, Touches, RegisterTimer, Target;
    InactiveIsSilent(react, Apply(s, op), acts, Target(s, op));
  }

  /** An inactive timer can be unregistered, an active one cannot; its slot is then the next to be given out, as
      soon as all lower ones are in use, if and only if the table was not full or it was the last slot. */
  lemma FreedSlotIsReused<D>(s: Sched<D>, i: nat, funct: Handler, ticks: nat, continuous: bool, active: bool)
    requires Inv(s) && 1 <= i < s.numTimers
    ensures |s.timer| == 64 && Inv(Apply(s, Unregister(i)))
    ensures s.timer[i].active ==> Apply(s, Unregister(i)).timer == s.timer
    ensures !s.timer[i].active ==>
      var t := Apply(s, Unregister(i)).timer[i]; !t.inUse && !t.active && t.funct == NoHandler
    ensures !s.timer[i].active && (forall k :: 1 <= k < i ==> s.timer[k].inUse) ==>
      (RegisterTimer(Apply(s, Unregister(i)), funct, ticks, continuous, active).1 == i <==>
         s.numTimers < 64 || i == 63)
  {
    ApplyKeeps(s, Unregister(i));
    var s1 := Apply(s, Unregister(i));
    RegisterExactly(s1, funct, ticks, continuous, active);
    hide RegisterTimer;
    if !s.timer[i].active && (forall k :: 1 <= k < i ==> s.timer[k].inUse) {
      assert forall k :: 1 <= k < i ==> s1.timer[k].inUse;
    }
  }

  // ---------------------------------------------------------------- the callbacks of one event

  /** The calls of an event from slot k on that the log `after` adds to the log `before`: each slot at most once,
      in increasing order. */
  ghost predicate InOrder(before: seq<Event>, after: seq<Event>, k: nat) {
    && |before| <= |after| && after[..|before|] == before
    && (forall j :: |before| <= j < |after| && after[j].Fired? ==> after[j].index >= k)
    && (forall j, j' :: |before| <= j < j' < |after| && after[j].Fired? && after[j'].Fired? ==>
          after[j].index < after[j'].index)
  }

  /** No calls of callbacks are among the entries that `after` adds. */
  ghost predicate OnlyCalls(before: seq<Event>, after: seq<Event>) {
    && |before| <= |after| && after[..|before|] == before
    && forall j :: |before| <= j < |after| ==> after[j].Did?
  }

  lemma {:induction false} ApplyAllOnlyCalls<D>(s: Sched<D>, ops: seq<Op>)
    requires Inv(s)
    ensures OnlyCalls(s.log, ApplyAll(s, ops).log)
    decreases ops
  {
    hide Core;
    if ops != [] {
      ApplyKeeps(s, ops[0]);
      ApplyAllOnlyCalls(Apply(s, ops[0]), ops[1..]);
    }
  }

  /** Callback k is called with triggeredTimer set to k, which is reset after it. */
  lemma InvokeCalls<D>(react: React<D>, s: Sched<D>, k: nat)
    requires Inv(s) && k < MAX_TIMERS && |s.timer| == MAX_TIMERS
    ensures var s1 := s.log + [Fired(Now(s), k)];
      OnlyCalls(s1, Invoke(react, s, k).log) && Invoke(react, s, k).triggeredTimer == 0
    ensures s.timer[k].funct.Device? ==> Enter(react, s, k).0.triggeredTimer == k
  {
    var (s1, ops) := Enter(react, s, k);
    if s.timer[k].funct != NullTimer { ApplyAllOnlyCalls(s1, ops); }
    hide Core, ApplyAll;
  }

  /** The callbacks of one event are called in increasing order of their slots. */
  lemma {:induction false} CallbacksInOrder<D>(react: React<D>, s: Sched<D>, triggered: seq<bool>, k: nat)
    requires Inv(s) && k <= |triggered| <= MAX_TIMERS
    ensures InOrder(s.log, Callbacks(react, s, triggered, k).log, k)
    decreases |triggered| - k
  {
    hide Core, Invoke;
    Slots(s);
    if k < |triggered| {
      if triggered[k] && s.timer[k].funct != NoHandler {
        InvokeCalls(react, s, k);
        CallbacksInOrder(react, Invoke(react, s, k), triggered, k + 1);
        OrderExtends(s.log, Fired(Now(s), k), Invoke(react, s, k).log, Callbacks(react, s, triggered, k).log, k);
      } else {
        CallbacksInOrder(react, s, triggered, k + 1);
      }
    }
  }

  lemma OrderExtends(before: seq<Event>, e: Event, middle: seq<Event>, after: seq<Event>, k: nat)
    requires e.Fired? && e.index == k && OnlyCalls(before + [e], middle) && InOrder(middle, after, k + 1)
    ensures InOrder(before, after, k)
  {
    var n := |before|;
    assert after[..|middle|] == middle && middle[..n + 1] == before + [e];
    assert after[..n + 1] == middle[..n + 1];
    assert after[..n] == (before + [e])[..n];
    assert after[n] == e;
    forall j | n < j < |middle| ensures after[j].Did? {
      assert after[j] == middle[j];
    }
  }

  /** One countdownEvent calls every slot at most once, in increasing order. */
  lemma EventInOrder<D>(react: React<D>, s: Sched<D>)
    requires Core(s) && s.currCountdown == 0
    ensures InOrder(s.log, CountdownEvent(react, s).log, 0)
  {
    hide Callbacks, InOrder;
    ElapseKeeps(s);
    CallbacksInOrder(react, Elapse(s), Triggered(s.timer, s.numTimers, Now(s)), 0);
  }
}
