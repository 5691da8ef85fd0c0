/** The timer delivery framework as a value: what each call makes of the scheduler's state. Absolute times are
    unbounded; the hot countdown and its period are 32-bit words, and every narrowing is written out. */
module TimerSpec {
  import opened Words

  const MAX_TIMERS: nat := 64
  const NULL_TIMER_INTERVAL: nat := 0xffffffff
  const MIN_PERIOD: nat := 1
  const NEVER: int := -1
  const MAX_BIT64S: nat := 0x7fff_ffff_ffff_ffff

  /** A callback: none, the null timer's (which does nothing), or a device's. */
  datatype Handler = NoHandler | NullTimer | Device(id: nat)

  datatype Timer = Timer(
    inUse: bool, period: nat, timeToFire: nat, active: bool, continuous: bool, funct: Handler)

  datatype Op =
    | Register(funct: Handler, ticks: nat, continuous: bool, active: bool)
    | Activate(index: nat, ticks: nat, continuous: bool)
    | Deactivate(index: nat)
    | Unregister(index: nat)

  /** What happened, at an absolute tick: a callback, or a call that changed a timer slot (-1 if it changed none). */
  datatype Event = Fired(tick: int, index: nat) | Did(tick: int, op: Op, slot: int)

  datatype Sched<D> = Sched(
    timer: seq<Timer>,
    numTimers: nat,
    triggeredTimer: nat,
    currCountdown: nat,
    currCountdownPeriod: nat,
    ticksTotal: nat,
    dev: D,              // the state of the devices, which only callbacks read and change
    log: seq<Event>)

  /** Device code: what callback i does when it fires, as the calls it makes back into the scheduler. */
  type React<!D> = (D, Sched<D>, nat) -> (D, seq<Op>)

  /** time_ticks. */
  function Now<D>(s: Sched<D>): int {
    s.ticksTotal + (s.currCountdownPeriod - s.currCountdown)
  }

  function Init<D>(dev: D): Sched<D> {
    var free := Timer(false, 0, 0, false, false, NoHandler);
    var heartbeat := Timer(true, NULL_TIMER_INTERVAL, NULL_TIMER_INTERVAL, true, true, NullTimer);
    Sched(seq(MAX_TIMERS, i => free)[0 := heartbeat], 1, 0, NULL_TIMER_INTERVAL, NULL_TIMER_INTERVAL, 0, dev, [])
  }

  // ---------------------------------------------------------------- invariant

  /** An active timer in slot i repeats sensibly and fires no earlier than the end of the countdown. */
  predicate TimerOk(t: Timer, i: nat, numTimers: nat, countdownEnd: nat) {
    t.active ==> i < numTimers && t.period >= MIN_PERIOD && countdownEnd <= t.timeToFire
  }

  /** Holds whenever the countdown may have run out: no active timer is overdue, and the null timer keeps the
      next event within a 32-bit distance. */
  ghost predicate Core<D>(s: Sched<D>) {
    && |s.timer| == MAX_TIMERS && 1 <= s.numTimers <= MAX_TIMERS
    && s.currCountdown <= s.currCountdownPeriod <= NULL_TIMER_INTERVAL
    && 1 <= s.currCountdownPeriod
    && s.timer[0].active && s.timer[0].continuous && s.timer[0].inUse
    && s.timer[0].period == NULL_TIMER_INTERVAL && s.timer[0].funct == NullTimer
    && s.timer[0].timeToFire <= s.ticksTotal + NULL_TIMER_INTERVAL
    && forall i :: 0 <= i < MAX_TIMERS ==> TimerOk(s.timer[i], i, s.numTimers, s.ticksTotal + s.currCountdownPeriod)
  }

  /** Holds between events: the countdown has not run out either. */
  ghost predicate Inv<D>(s: Sched<D>) {
    Core(s) && 1 <= s.currCountdown
  }

  // ---------------------------------------------------------------- calls

  /** The first slot from i on that is not in use, or the bound. */
  function FreeTimer(ts: seq<Timer>, numTimers: nat, i: nat): (r: nat)
    requires i <= numTimers <= |ts|
    ensures i <= r <= numTimers
    ensures r < numTimers ==> !ts[r].inUse
    decreases numTimers - i
  {
    if i == numTimers || !ts[i].inUse then i else FreeTimer(ts, numTimers, i + 1)
  }

  function AtLeastMin(ticks: nat): nat {
    if ticks < MIN_PERIOD then MIN_PERIOD else ticks
  }

  /** Bring the next event forward if a timer must fire before the current countdown ends. */
  function Skew<D>(s: Sched<D>, ticks: nat): Sched<D> {
    if ticks < s.currCountdown then
      s.(currCountdownPeriod := Bit32(s.currCountdownPeriod - (s.currCountdown - Bit32(ticks))),
         currCountdown := Bit32(ticks))
    else s
  }

  /** Put a timer into a slot, which may be the first one beyond the bound. */
  function Install<D>(s: Sched<D>, i: nat, t: Timer): Sched<D>
    requires i < |s.timer|
  {
    var s1 := s.(timer := s.timer[i := t], numTimers := if i == s.numTimers then i + 1 else s.numTimers);
    if t.active then Skew(s1, t.period) else s1
  }

  /** register_timer_ticks; the id is -1 when the table is full. */
  function RegisterTimer<D>(s: Sched<D>, funct: Handler, ticks: nat, continuous: bool, active: bool)
    : (r: (Sched<D>, int))
    requires Core(s)
  {
    var i := FreeTimer(s.timer, s.numTimers, 1);
    if s.numTimers >= MAX_TIMERS then (s, -1 as int)
    else
      var t := Timer(true, AtLeastMin(ticks), Now(s) + AtLeastMin(ticks), active, continuous, funct);
      (Install(s, i, t), i)
  }

  predicate Indexes<D>(s: Sched<D>, i: nat) {
    1 <= i < s.numTimers
  }

  /** activate_timer_ticks. The null timer and slots beyond the bound are not for callers. */
  function ActivateTimer<D>(s: Sched<D>, i: nat, ticks: nat, continuous: bool): Sched<D>
    requires Core(s)
  {
    if !Indexes(s, i) then s
    else
      var t := s.timer[i].(period := AtLeastMin(ticks), timeToFire := Now(s) + AtLeastMin(ticks),
                           active := true, continuous := continuous);
      Skew(s.(timer := s.timer[i := t]), AtLeastMin(ticks))
  }

  function DeactivateTimer<D>(s: Sched<D>, i: nat): Sched<D>
    requires Core(s)
  {
    if !Indexes(s, i) then s else s.(timer := s.timer[i := s.timer[i].(active := false)])
  }

  /** unregisterTimer; an active timer is refused. */
  function UnregisterTimer<D>(s: Sched<D>, i: nat): Sched<D>
    requires Core(s)
  {
    if !Indexes(s, i) || s.timer[i].active then s
    else
      s.(timer := s.timer[i := Timer(false, MAX_BIT64S, MAX_BIT64S, false, false, NoHandler)],
         numTimers := if i == s.numTimers - 1 then i else s.numTimers)
  }

  /** The slot a call touches; -1 if it is refused. */
  function Target<D>(s: Sched<D>, op: Op): int
    requires Core(s)
  {
    match op
    case Register(_, _, _, _) => if s.numTimers >= MAX_TIMERS then -1 else FreeTimer(s.timer, s.numTimers, 1)
    case Unregister(i) => if Indexes(s, i) && !s.timer[i].active then i else -1
    case _ => if Indexes(s, op.index) then op.index else -1
  }

  function Apply<D>(s: Sched<D>, op: Op): Sched<D>
    requires Core(s)
  {
    var s' := match op
      case Register(f, n, c, a) => RegisterTimer(s, f, n, c, a).0
      case Activate(i, n, c) => ActivateTimer(s, i, n, c)
      case Deactivate(i) => DeactivateTimer(s, i)
      case Unregister(i) => UnregisterTimer(s, i);
    s'.(log := s'.log + [Did(Now(s), op, Target(s, op))])
  }

  /** No call makes a timer overdue, moves the clock, or stops the countdown. */
  lemma ApplyKeeps<D>(s: Sched<D>, op: Op)
    requires Inv(s)
    ensures Inv(Apply(s, op)) && Now(Apply(s, op)) == Now(s) && Apply(s, op).ticksTotal == s.ticksTotal
  {
    var s' := Apply(s, op);
    var end, end' := s.ticksTotal + s.currCountdownPeriod, s'.ticksTotal + s'.currCountdownPeriod;
    forall i | 0 <= i < MAX_TIMERS ensures TimerOk(s'.timer[i], i, s'.numTimers, end') {
      assert TimerOk(s.timer[i], i, s.numTimers, end);
    }
  }

  /** The invariant does not depend on the devices, the log or the timer being called. */
  lemma SameTimers<D>(s: Sched<D>, s': Sched<D>)
    requires Inv(s) && s' == s.(triggeredTimer := s'.triggeredTimer, dev := s'.dev, log := s'.log)
    ensures Inv(s')
  {
  }

  // ---------------------------------------------------------------- countdownEvent

  predicate Due(t: Timer, now: int) {
    t.active && t.timeToFire == now
  }

  /** What the first loop does to one timer. */
  function FireOne(t: Timer, now: int): Timer {
    if !Due(t, now) then t
    else if t.continuous then t.(timeToFire := t.timeToFire + t.period)
    else t.(active := false)
  }

  /** The earliest fire time of the first n timers that are active; NEVER, which stands for the largest 64-bit
      value, if there is none. */
  function MinTimeToFire(ts: seq<Timer>, n: nat): (m: int)
    requires n <= |ts|
    ensures m == NEVER || exists i :: 0 <= i < n && ts[i].active && ts[i].timeToFire == m
    ensures forall i :: 0 <= i < n && ts[i].active ==> m != NEVER && m <= ts[i].timeToFire
  {
    if n == 0 then NEVER
    else if ts[n - 1].active && Earlier(ts[n - 1].timeToFire, MinTimeToFire(ts, n - 1)) then ts[n - 1].timeToFire
    else MinTimeToFire(ts, n - 1)
  }

  predicate Earlier(t: int, m: int) {
    m == NEVER || t < m
  }

  /** The snapshot of the timers that are due. */
  function Triggered(ts: seq<Timer>, numTimers: nat, now: int): seq<bool>
    requires numTimers <= |ts|
  {
    seq(numTimers, i requires 0 <= i < |ts| => Due(ts[i], now))
  }

  function FireAll(ts: seq<Timer>, numTimers: nat, now: int): (r: seq<Timer>)
    ensures |r| == |ts|
  {
    seq(|ts|, i requires 0 <= i < |ts| => if i < numTimers then FireOne(ts[i], now) else ts[i])
  }

  /** The first half of countdownEvent: advance the clock, rearm or retire the due timers, and set the next
      countdown. */
  function Elapse<D>(s: Sched<D>): Sched<D>
    requires s.numTimers <= |s.timer|
  {
    var now := s.ticksTotal + s.currCountdownPeriod;
    var ts := FireAll(s.timer, s.numTimers, now);
    var countdown := Bit32(MinTimeToFire(ts, s.numTimers) - now);
    s.(ticksTotal := now, timer := ts, currCountdown := countdown, currCountdownPeriod := countdown)
  }

  lemma ElapseKeeps<D>(s: Sched<D>)
    requires Core(s) && s.currCountdown == 0
    ensures Inv(Elapse(s)) && Now(Elapse(s)) == Now(s)
    ensures Elapse(s).ticksTotal + Elapse(s).currCountdown == MinTimeToFire(Elapse(s).timer, s.numTimers)
  {
    var s' := Elapse(s);
    var now := s'.ticksTotal;
    forall i | 0 <= i < MAX_TIMERS
      ensures s'.timer[i].active ==> i < s.numTimers && s'.timer[i].period >= MIN_PERIOD && now < s'.timer[i].timeToFire
    {
      assert TimerOk(s.timer[i], i, s.numTimers, now);
    }
    assert s'.timer[0].active && s'.timer[0].timeToFire <= now + NULL_TIMER_INTERVAL by {
      assert TimerOk(s.timer[0], 0, s.numTimers, now);
    }
    assert MinTimeToFire(s'.timer, s.numTimers) <= s'.timer[0].timeToFire;
  }

  /** The call of one due timer's callback, with the calls it makes. */
  function Invoke<D>(react: React<D>, s: Sched<D>, i: nat): (r: Sched<D>)
    requires Inv(s) && i < MAX_TIMERS
    ensures Inv(r) && Now(r) == Now(s) && r.ticksTotal == s.ticksTotal
  {
    var s1 := s.(triggeredTimer := i, log := s.log + [Fired(Now(s), i)]);
    if s.timer[i].funct == NullTimer then s1.(triggeredTimer := 0)
    else
      var (dev, ops) := react(s.dev, s1, i);
      ApplyAll(s1.(dev := dev), ops).(triggeredTimer := 0)
  }

  function ApplyAll<D>(s: Sched<D>, ops: seq<Op>): (r: Sched<D>)
    requires Inv(s)
    ensures Inv(r) && Now(r) == Now(s) && r.ticksTotal == s.ticksTotal
    decreases ops
  {
    if ops == [] then s
    else
      ApplyKeeps(s, ops[0]);
      ApplyAll(Apply(s, ops[0]), ops[1..])
  }

  /** The second loop of countdownEvent, over the snapshot from slot i on. A due timer whose callback pointer
      was cleared by an earlier callback is skipped; one that was merely deactivated is still called. */
  function Callbacks<D>(react: React<D>, s: Sched<D>, triggered: seq<bool>, i: nat): (r: Sched<D>)
    requires Inv(s) && i <= |triggered| <= MAX_TIMERS
    ensures Inv(r) && Now(r) == Now(s) && r.ticksTotal == s.ticksTotal
    decreases |triggered| - i
  {
    if i == |triggered| then s
    else if triggered[i] && s.timer[i].funct != NoHandler then Callbacks(react, Invoke(react, s, i), triggered, i + 1)
    else Callbacks(react, s, triggered, i + 1)
  }

  function CountdownEvent<D>(react: React<D>, s: Sched<D>): (r: Sched<D>)
    requires Core(s) && s.currCountdown == 0
    ensures Inv(r) && Now(r) == Now(s)
  {
    ElapseKeeps(s);
    Callbacks(react, Elapse(s), Triggered(s.timer, s.numTimers, Now(s)), 0)
  }

  // ---------------------------------------------------------------- ticking

  function Tick1<D>(react: React<D>, s: Sched<D>): (r: Sched<D>)
    requires Inv(s)
    ensures Inv(r) && Now(r) == Now(s) + 1
  {
    var s1 := s.(currCountdown := Bit32(s.currCountdown - 1));
    if s1.currCountdown == 0 then CountdownEvent(react, s1) else s1
  }

  function TickN<D>(react: React<D>, s: Sched<D>, n: nat): (r: Sched<D>)
    requires Inv(s)
    ensures Inv(r) && Now(r) == Now(s) + n
    decreases n
  {
    if n >= s.currCountdown then
      TickN(react, CountdownEvent(react, s.(currCountdown := 0)), n - s.currCountdown)
    else s.(currCountdown := s.currCountdown - n)
  }
}
