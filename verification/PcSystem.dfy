/** The scheduler as the program keeps it: one timer array and a few counters, updated in place. Every method
    is proved to turn the state into what the function of TimerSpec says. */
module PcSystem {
  import opened TimerSpec
  import opened UsecClock
  import opened Words

  class PcSystem<D> {
    const react: React<D>
    const timer: array<Timer>
    var numTimers: nat
    var triggeredTimer: nat
    var currCountdown: nat
    var currCountdownPeriod: nat
    var ticksTotal: nat
    var lastTimeUsec: nat
    var usecSinceLast: nat
    var dev: D
    var log: seq<Event>

    function State(): Sched<D>
      reads this, timer
    {
      Sched(timer[..], numTimers, triggeredTimer, currCountdown, currCountdownPeriod, ticksTotal, dev, log)
    }

    ghost predicate Valid()
      reads this, timer
    {
      Inv(State())
    }

    /** The constructor followed by initialize. */
    constructor (react: React<D>, dev: D)
      ensures Valid() && this.react == react && State() == Init(dev)
      ensures lastTimeUsec == 0 && usecSinceLast == 0
    {
      this.react := react;
      timer := new Timer[MAX_TIMERS](_ => Timer(false, 0, 0, false, false, NoHandler));
      numTimers, triggeredTimer, ticksTotal := 1, 0, 0;
      currCountdown, currCountdownPeriod := NULL_TIMER_INTERVAL, NULL_TIMER_INTERVAL;
      lastTimeUsec, usecSinceLast := 0, 0;
      this.dev := dev;
      log := [];
      new;
      timer[0] := Timer(true, NULL_TIMER_INTERVAL, NULL_TIMER_INTERVAL, true, true, NullTimer);
      assert timer[..] == Init(dev).timer;
    }

    // -------------------------------------------------------------- calls

    method Note(tick: int, op: Op, slot: int)
      modifies this`log
      ensures log == old(log) + [Did(tick, op, slot)]
    {
      log := log + [Did(tick, op, slot)];
    }

    /** Bring the next event forward if this timer must fire before the current countdown ends. */
    method SkewCountdown(ticks: nat)
      modifies this`currCountdown, this`currCountdownPeriod
      ensures State() == Skew(old(State()), ticks)
    {
      if ticks < currCountdown {
        currCountdownPeriod := Bit32(currCountdownPeriod - (currCountdown - Bit32(ticks)));
        currCountdown := Bit32(ticks);
      }
    }

    method SetTimer(i: nat, t: Timer)
      requires i < timer.Length
      modifies timer
      ensures State() == old(State()).(timer := old(State()).timer[i := t])
    {
      ghost var before := timer[..];
      timer[i] := t;
      assert timer[..] == before[i := t];
    }

    /** The first free slot after the null timer's, or the bound. */
    method FindSlot() returns (i: nat)
      requires 1 <= numTimers <= timer.Length
      ensures i == FreeTimer(timer[..], numTimers, 1)
    {
      i := 1;
      while i < numTimers && timer[i].inUse
        invariant 1 <= i <= numTimers
        invariant FreeTimer(timer[..], numTimers, i) == FreeTimer(timer[..], numTimers, 1)
      {
        i := i + 1;
      }
    }

    method InstallTimer(i: nat, t: Timer)
      requires i < timer.Length
      modifies this`numTimers, this`currCountdown, this`currCountdownPeriod, timer
      ensures State() == Install(old(State()), i, t)
    {
      SetTimer(i, t);
      if t.active { SkewCountdown(t.period); }
      if i == numTimers { numTimers := numTimers + 1; }
    }

    /** Fill the first free slot, if there is one. */
    method AddTimer(funct: Handler, ticks: nat, continuous: bool, active: bool) returns (id: int)
      requires Valid()
      modifies this`numTimers, this`currCountdown, this`currCountdownPeriod, timer
      ensures (State(), id) == RegisterTimer(old(State()), funct, ticks, continuous, active)
    {
      assert timer.Length == MAX_TIMERS && 1 <= numTimers <= MAX_TIMERS;
      hide Core, FreeTimer, Install;
      var period := if ticks < MIN_PERIOD then MIN_PERIOD else ticks;
      var i := FindSlot();
      if numTimers >= MAX_TIMERS { return -1; }
      var timeToFire := ticksTotal + (currCountdownPeriod - currCountdown) + period;
      InstallTimer(i, Timer(true, period, timeToFire, active, continuous, funct));
      return i;
    }

    /** register_timer_ticks. */
    method RegisterTimerTicks(funct: Handler, ticks: nat, continuous: bool, active: bool) returns (id: int)
      requires Valid()
      modifies this, timer
      ensures Valid() && id == RegisterTimer(old(State()), funct, ticks, continuous, active).1
      ensures State() == Apply(old(State()), Register(funct, ticks, continuous, active))
      ensures unchanged(`lastTimeUsec, `usecSinceLast)
    {
      ghost var s := State();
      var now := ticksTotal + (currCountdownPeriod - currCountdown);
      ApplyKeeps(s, Register(funct, ticks, continuous, active));
      hide Core, FreeTimer, Install;
      id := AddTimer(funct, ticks, continuous, active);
      Note(now, Register(funct, ticks, continuous, active), id);
    }

    /** activate_timer_ticks. */
    method ActivateTimerTicks(i: nat, ticks: nat, continuous: bool)
      requires Valid()
      modifies this, timer
      ensures Valid() && State() == Apply(old(State()), Activate(i, ticks, continuous))
      ensures unchanged(`lastTimeUsec, `usecSinceLast)
    {
      ghost var s := State();
      var now := ticksTotal + (currCountdownPeriod - currCountdown);
      ApplyKeeps(s, Activate(i, ticks, continuous));
      assert |s.timer| == MAX_TIMERS && 1 <= s.numTimers <= MAX_TIMERS;
      hide Core;
      if 1 <= i < numTimers {
        var period := if ticks < MIN_PERIOD then MIN_PERIOD else ticks;
        SetTimer(i, timer[i].(period := period, timeToFire := now + period, active := true, continuous := continuous));
        SkewCountdown(period);
        Note(now, Activate(i, ticks, continuous), i);
      } else {
        Note(now, Activate(i, ticks, continuous), -1);
      }
    }

    /** deactivate_timer. */
    method DeactivateTimer(i: nat)
      requires Valid()
      modifies this, timer
      ensures Valid() && State() == Apply(old(State()), Deactivate(i))
      ensures unchanged(`lastTimeUsec, `usecSinceLast)
    {
      ghost var s := State();
      var now := ticksTotal + (currCountdownPeriod - currCountdown);
      ApplyKeeps(s, Deactivate(i));
      assert |s.timer| == MAX_TIMERS && 1 <= s.numTimers <= MAX_TIMERS;
      hide Core;
      if 1 <= i < numTimers {
        SetTimer(i, timer[i].(active := false));
        Note(now, Deactivate(i), i);
      } else {
        Note(now, Deactivate(i), -1);
      }
    }

    /** unregisterTimer. */
    method UnregisterTimer(i: nat) returns (ok: bool)
      requires Valid()
      modifies this, timer
      ensures Valid() && State() == Apply(old(State()), Unregister(i))
      ensures ok == (Indexes(old(State()), i) && !old(timer[..])[i].active)
      ensures unchanged(`lastTimeUsec, `usecSinceLast)
    {
      ghost var s := State();
      var now := ticksTotal + (currCountdownPeriod - currCountdown);
      ApplyKeeps(s, Unregister(i));
      assert |s.timer| == MAX_TIMERS && 1 <= s.numTimers <= MAX_TIMERS;
      hide Core;
      if 1 <= i < numTimers && !timer[i].active {
        SetTimer(i, Timer(false, MAX_BIT64S, MAX_BIT64S, false, false, NoHandler));
        if i == numTimers - 1 { numTimers := numTimers - 1; }
        Note(now, Unregister(i), i);
        return true;
      }
      Note(now, Unregister(i), -1);
      return false;
    }

    method Perform(op: Op)
      requires Valid()
      modifies this, timer
      ensures Valid() && State() == Apply(old(State()), op)
      ensures unchanged(`lastTimeUsec, `usecSinceLast)
    {
      match op
      case Register(f, n, c, a) => var _ := RegisterTimerTicks(f, n, c, a);
      case Activate(i, n, c) => ActivateTimerTicks(i, n, c);
      case Deactivate(i) => DeactivateTimer(i);
      case Unregister(i) => var _ := UnregisterTimer(i);
    }

    // -------------------------------------------------------------- countdownEvent

    /** Rearm or retire timer i if it is due at tick `now`. */
    method ServiceTimer(i: nat, now: nat) returns (due: bool)
      requires i < timer.Length
      modifies timer
      ensures due == Due(old(timer[i]), now)
      ensures timer[..] == old(timer[..])[i := FireOne(old(timer[i]), now)]
    {
      ghost var before := timer[..];
      due := timer[i].active && timer[i].timeToFire == now;
      if due {
        if !timer[i].continuous {
          timer[i] := timer[i].(active := false);
        } else {
          timer[i] := timer[i].(timeToFire := timer[i].timeToFire + timer[i].period);
        }
      }
      assert timer[..] == before[i := timer[i]];
    }

    /** The first loop of countdownEvent, at tick `now`: rearm or retire the due timers, note which they were,
        and find the earliest fire time left. */
    method ServiceTimers(now: nat) returns (triggered: array<bool>, first: nat, last: nat, minTimeToFire: int)
      requires 1 <= numTimers <= timer.Length
      modifies timer
      ensures fresh(triggered) && triggered.Length == numTimers
      ensures triggered[..] == Triggered(old(timer[..]), numTimers, now)
      ensures timer[..] == FireAll(old(timer[..]), numTimers, now)
      ensures minTimeToFire == MinTimeToFire(timer[..], numTimers)
      ensures forall k :: 0 <= k < numTimers && triggered[k] ==> first <= k <= last
      ensures first <= last ==> last < numTimers
    {
      hide FireOne, Due, Earlier, MinTimeToFire;
      ghost var ts := timer[..];
      first, last, minTimeToFire := numTimers, 0, NEVER;
      MinNone(timer[..]);
      triggered := new bool[numTimers](_ => false);
      var i := 0;
      while i < numTimers
        invariant 0 <= i <= numTimers && triggered.Length == numTimers
        invariant forall k :: 0 <= k < i ==> triggered[k] == Due(ts[k], now)
        invariant forall k :: 0 <= k < timer.Length ==> timer[k] == if k < i then FireOne(ts[k], now) else ts[k]
        invariant minTimeToFire == MinTimeToFire(timer[..], i)
        invariant forall k :: 0 <= k < i && triggered[k] ==> first <= k <= last
        invariant first <= last ==> last < i
      {
        ghost var before := timer[..];
        var due := ServiceTimer(i, now);
        MinPrefix(before, timer[..], i);
        MinNext(timer[..], i);
        triggered[i] := due;
        if due {
          if i < first { first := i; }
          last := i;
        }
        if timer[i].active && Earlier(timer[i].timeToFire, minTimeToFire) { minTimeToFire := timer[i].timeToFire; }
        i := i + 1;
      }
    }

    /** The second loop: call back the due timers from first to last. */
    method CallTimers(triggered: array<bool>, first: nat, last: nat)
      requires Valid() && timer != triggered as object
      requires triggered.Length <= MAX_TIMERS && (first <= last ==> last < triggered.Length)
      requires forall k :: 0 <= k < triggered.Length && triggered[k] ==> first <= k <= last
      modifies this, timer
      ensures Valid() && State() == Callbacks(react, old(State()), triggered[..], 0)
      ensures unchanged(`lastTimeUsec, `usecSinceLast)
    {
      hide Core, Invoke;
      ghost var s, trig := State(), triggered[..];
      if first > last {
        NoCallbacks(react, s, trig, 0);
        return;
      }
      SkipCallbacks(react, s, trig, 0, first);
      var i := first;
      while i <= last
        invariant first <= i <= last + 1
        invariant Valid() && Callbacks(react, State(), trig, i) == Callbacks(react, s, trig, 0)
        invariant unchanged(`lastTimeUsec, `usecSinceLast)
      {
        TimerCount();
        if triggered[i] && timer[i].funct != NoHandler { InvokeTimer(i); }
        i := i + 1;
      }
      NoCallbacks(react, State(), trig, i);
    }

    lemma TimerCount()
      requires Valid()
      ensures timer.Length == MAX_TIMERS
    {
    }

    /** Call one callback: the device code runs and makes its calls back into the scheduler. */
    method InvokeTimer(i: nat)
      requires Valid() && i < MAX_TIMERS
      modifies this, timer
      ensures Valid() && State() == Invoke(react, old(State()), i)
      ensures unchanged(`lastTimeUsec, `usecSinceLast)
    {
      hide Core, ApplyAll;
      TimerCount();
      ghost var s := State();
      triggeredTimer := i;
      log := log + [Fired(ticksTotal + (currCountdownPeriod - currCountdown), i)];
      if timer[i].funct != NullTimer {
        var (dev', ops) := react(dev, State(), i);
        dev := dev';
        SameTimers(s, State());
        PerformAll(ops);
      }
      ghost var s1 := State();
      triggeredTimer := 0;
      if s.timer[i].funct == NullTimer { SameTimers(s, State()); } else { SameTimers(s1, State()); }
    }

    method PerformAll(ops: seq<Op>)
      requires Valid()
      modifies this, timer
      ensures Valid() && State() == ApplyAll(old(State()), ops)
      ensures unchanged(`lastTimeUsec, `usecSinceLast)
    {
      hide Core, Apply;
      ghost var s := State();
      var k := 0;
      while k < |ops|
        invariant 0 <= k <= |ops|
        invariant Valid() && ApplyAll(State(), ops[k..]) == ApplyAll(s, ops)
        invariant unchanged(`lastTimeUsec, `usecSinceLast)
      {
        assert ops[k..][1..] == ops[k + 1..];
        Perform(ops[k]);
        k := k + 1;
      }
    }

    /** Everything countdownEvent does before the callbacks. */
    method ElapseTimers() returns (triggered: array<bool>, first: nat, last: nat)
      requires 1 <= numTimers <= timer.Length
      modifies this`ticksTotal, this`currCountdown, this`currCountdownPeriod, timer
      ensures State() == Elapse(old(State()))
      ensures fresh(triggered) && triggered.Length == numTimers
      ensures triggered[..] == Triggered(old(timer[..]), numTimers, ticksTotal)
      ensures forall k :: 0 <= k < numTimers && triggered[k] ==> first <= k <= last
      ensures first <= last ==> last < numTimers
    {
      hide MinTimeToFire, FireAll, Triggered;
      ticksTotal := ticksTotal + currCountdownPeriod;
      var minTimeToFire;
      triggered, first, last, minTimeToFire := ServiceTimers(ticksTotal);
      currCountdownPeriod := Bit32(minTimeToFire - ticksTotal);
      currCountdown := currCountdownPeriod;
    }

    /** countdownEvent. */
    method CountdownEvent()
      requires Core(State()) && currCountdown == 0
      modifies this, timer
      ensures Valid() && State() == TimerSpec.CountdownEvent(react, old(State()))
      ensures unchanged(`lastTimeUsec, `usecSinceLast)
    {
      hide Core, Elapse, Triggered, Callbacks;
      ghost var s := State();
      ElapseKeeps(s);
      TimerBounds(s);
      var triggered, first, last := ElapseTimers();
      CallTimers(triggered, first, last);
    }

    // -------------------------------------------------------------- ticking

    method Tick1()
      requires Valid()
      modifies this, timer
      ensures Valid() && State() == TimerSpec.Tick1(react, old(State()))
      ensures unchanged(`lastTimeUsec, `usecSinceLast)
    {
      hide TimerSpec.CountdownEvent;
      currCountdown := Bit32(currCountdown - 1);
      if currCountdown == 0 { CountdownEvent(); }
    }

    method TickN(n: nat)
      requires Valid()
      modifies this, timer
      ensures Valid() && State() == TimerSpec.TickN(react, old(State()), n)
      ensures unchanged(`lastTimeUsec, `usecSinceLast)
    {
      hide TimerSpec.CountdownEvent;
      ghost var s := State();
      var left: int := n;
      while left >= currCountdown
        invariant 0 <= left && Valid() && TimerSpec.TickN(react, State(), left) == TimerSpec.TickN(react, s, n)
        invariant unchanged(`lastTimeUsec, `usecSinceLast)
        decreases left
      {
        left := left - currCountdown;
        currCountdown := 0;
        CountdownEvent();
      }
      currCountdown := currCountdown - left;
    }

    // -------------------------------------------------------------- time_usec_sequential

    /** `now` stands for time_usec(). The difference is taken modulo 2^64. */
    method TimeUsecSequential(now: nat) returns (r: nat)
      modifies `lastTimeUsec, `usecSinceLast
      ensures (lastTimeUsec, usecSinceLast) == SequentialStep(old(lastTimeUsec), old(usecSinceLast), now)
      ensures r == lastTimeUsec + usecSinceLast
    {
      if now != lastTimeUsec {
        var diff := Bit64(now - lastTimeUsec);
        lastTimeUsec := now;
        usecSinceLast := if diff >= usecSinceLast then 0 else usecSinceLast - diff;
      }
      usecSinceLast := usecSinceLast + 1;
      r := now + usecSinceLast;
    }
  }

  lemma TimerBounds<D>(s: Sched<D>)
    requires Core(s)
    ensures 1 <= s.numTimers <= MAX_TIMERS == |s.timer| && Elapse(s).numTimers == s.numTimers
    ensures Elapse(s).ticksTotal == s.ticksTotal + s.currCountdownPeriod
  {
  }

  /** The minimum over the first n timers looks at no other. */
  lemma {:induction false} MinPrefix(ts: seq<Timer>, ts': seq<Timer>, n: nat)
    requires n <= |ts| == |ts'| && ts[..n] == ts'[..n]
    ensures MinTimeToFire(ts, n) == MinTimeToFire(ts', n)
  {
    if n > 0 {
      assert ts[n - 1] == ts[..n][n - 1] == ts'[..n][n - 1] == ts'[n - 1];
      assert ts[..n - 1] == ts[..n][..n - 1] == ts'[..n][..n - 1] == ts'[..n - 1];
      MinPrefix(ts, ts', n - 1);
    }
  }

  lemma MinNext(ts: seq<Timer>, n: nat)
    requires n < |ts|
    ensures MinTimeToFire(ts, n + 1) ==
      if ts[n].active && Earlier(ts[n].timeToFire, MinTimeToFire(ts, n)) then ts[n].timeToFire else MinTimeToFire(ts, n)
  {
  }

  lemma MinNone(ts: seq<Timer>)
    ensures MinTimeToFire(ts, 0) == NEVER
  {
  }

  lemma {:induction false} SkipCallbacks<D>(react: React<D>, s: Sched<D>, triggered: seq<bool>, i: nat, j: nat)
    requires Inv(s) && i <= j <= |triggered| <= MAX_TIMERS
    requires forall k :: i <= k < j ==> !triggered[k]
    ensures Callbacks(react, s, triggered, i) == Callbacks(react, s, triggered, j)
    decreases j - i
  {
    if i < j { SkipCallbacks(react, s, triggered, i + 1, j); }
  }

  lemma NoCallbacks<D>(react: React<D>, s: Sched<D>, triggered: seq<bool>, i: nat)
    requires Inv(s) && i <= |triggered| <= MAX_TIMERS
    requires forall k :: i <= k < |triggered| ==> !triggered[k]
    ensures Callbacks(react, s, triggered, i) == s
  {
    SkipCallbacks(react, s, triggered, i, |triggered|);
  }
}
