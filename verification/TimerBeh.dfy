/**
 The timer behaviour: start, stop, pause, resume and the trigger thread over one kernel event.

 A run interleaves calls, clock advances, the kernel firing the event (`Fire`) and the
 trigger thread taking its turn (`Thread`).  Firing makes the thread runnable (`woken`);
 other processes may still call the timer at the same instant before the thread runs.
*/
module TimerBeh {
  import opened Common
  import opened Kernel

  datatype State = State(
    now: Time,
    load: Time, start: Time, resumeDelay: Time, trigger: Time,
    triggered: bool, reload: bool, continuous: bool, paused: bool,
    pending: Option<Time>, woken: bool)

  datatype Op =
    | Start(delay: Time) | Stop | Pause(delay: Time) | Resume(delay: Time) | Reset
    | SetLoad(t: Time) | SetReload(on: bool) | SetContinuous(on: bool) | TestAndClear
    | Advance(d: Time) | Fire | Thread

  const FRESH: State := State(0, 0, 0, 0, 0, false, false, false, false, None, false)

  /** Subtraction of 64-bit times, which wraps below zero. */
  function Minus(a: Time, b: Time): Time {
    if b <= a then a - b else (a - b) % TWO64
  }

  // ---------------------------------------------------------------- one step

  function AfterResume(s: State, delay: Time): State {
    var trigger := s.now + delay + s.resumeDelay;
    s.(paused := false, trigger := trigger, start := Minus(trigger, s.load),
       pending := Notify(s.pending, s.now + s.resumeDelay + delay), resumeDelay := 0)
  }

  function AfterStart(s: State, delay: Time): State {
    if s.paused then AfterResume(s, 0)
    else s.(start := s.now + delay, trigger := s.now + delay + s.load,
            pending := Notify(s.pending, s.now + s.load + delay))
  }

  /** One turn of the trigger thread: back to waiting if the timer is paused or stopped. */
  function AfterThread(s: State): State {
    if s.paused || s.trigger == 0 then s.(woken := false)
    else
      var u := s.(woken := false, triggered := true, start := if s.reload && s.load != 0 then s.now else s.start);
      if s.continuous then u.(trigger := s.now + s.load, pending := Notify(s.pending, s.now + s.load))
      else u.(trigger := 0)
  }

  function Step(s: State, op: Op): State {
    match op
    case Start(delay) => AfterStart(s, delay)
    case Stop => s.(pending := None, trigger := 0, paused := false, resumeDelay := 0)
    case Pause(delay) => s.(paused := true, pending := None, resumeDelay := Minus(s.trigger, s.now + delay))
    case Resume(delay) => AfterResume(s, delay)
    case Reset => FRESH.(now := s.now, woken := s.woken)
    case SetLoad(t) => s.(load := t)
    case SetReload(on) => s.(reload := on)
    case SetContinuous(on) => s.(continuous := on)
    case TestAndClear => s.(triggered := false)
    case Advance(d) => s.(now := s.now + d)
    case Fire => s.(pending := None, woken := true)
    case Thread => AfterThread(s)
  }

  /** The assertions the code makes on the way. */
  predicate Asserts(s: State, op: Op) {
    match op
    case Start(_) => if s.paused then s.resumeDelay != 0 else s.load > 0
    case Resume(_) => s.paused && s.resumeDelay != 0
    case Thread => s.paused || s.trigger == 0 || (s.trigger == s.now && (s.continuous ==> s.load > 0))
    case _ => true
  }

  predicate Running(s: State) {
    !s.paused && s.trigger != 0
  }

  /** What callers may do when, and what the kernel does when. */
  predicate Allowed(s: State, op: Op) {
    match op
    case Start(_) => s.paused || (s.trigger == 0 && !s.woken && s.load > 0)
    case Pause(delay) => Running(s) && s.now + delay < s.trigger
    case Resume(_) => s.paused
    case SetLoad(_) => s.trigger == 0
    case Advance(d) => !s.woken && (s.pending.Some? ==> s.now + d <= s.pending.value)
    case Fire => s.pending == Some(s.now)
    case Thread => s.woken
    case _ => true
  }

  // ---------------------------------------------------------------- the event follows the trigger time

  /** The event is pending exactly when the timer runs and has not just fired, and then at the trigger time. */
  predicate InStep(s: State) {
    && s.pending == (if Running(s) && !s.woken then Some(s.trigger) else None)
    && (Running(s) ==> s.now <= s.trigger && s.load > 0)
    && (s.woken && s.trigger != 0 ==> !s.paused && s.trigger == s.now)
    && (s.paused ==> s.trigger != 0 && s.resumeDelay > 0 && s.load > 0)
    && (!s.paused ==> s.resumeDelay == 0)
  }

  lemma StepInStep(s: State, op: Op)
    requires InStep(s) && Allowed(s, op)
    ensures Asserts(s, op) && InStep(Step(s, op))
  {
  }

  /** In a reachable state only two calls fail an assertion: starting without a load delay, and resuming unpaused. */
  lemma AssertsExactly(s: State, op: Op)
    requires InStep(s) && (op.Thread? ==> s.woken)
    ensures Asserts(s, op) <==> (op.Start? ==> s.paused || s.load > 0) && (op.Resume? ==> s.paused)
  {
  }

  function Run(s: State, ops: seq<Op>): State
    decreases |ops|
  {
    if ops == [] then s else Run(Step(s, ops[0]), ops[1..])
  }

  predicate AllowedRun(s: State, ops: seq<Op>)
    decreases |ops|
  {
    ops == [] || (Allowed(s, ops[0]) && AllowedRun(Step(s, ops[0]), ops[1..]))
  }

  predicate AssertsHold(s: State, ops: seq<Op>)
    decreases |ops|
  {
    ops == [] || (Asserts(s, ops[0]) && AssertsHold(Step(s, ops[0]), ops[1..]))
  }

  /** In every reachable state event and trigger time agree, and no assertion ever fails. */
  lemma {:induction false} RunInStep(s: State, ops: seq<Op>)
    requires InStep(s) && AllowedRun(s, ops)
    ensures AssertsHold(s, ops) && InStep(Run(s, ops))
    decreases |ops|
  {
    if ops != [] {
      StepInStep(s, ops[0]);
      RunInStep(Step(s, ops[0]), ops[1..]);
    }
  }

  lemma StartInStep(s: State, delay: Time)
    requires InStep(s) && !s.paused && s.load > 0
    ensures InStep(Step(s, Start(delay))) <==>
            !s.woken && (s.pending.Some? ==> s.now + delay + s.load <= s.pending.value)
  {
  }

  /**
   After starting an unpaused timer no assertion can fail in any later run exactly when the thread
   has no turn outstanding and the new trigger time is not later than a pending notification.
  */
  lemma StartExactly(s: State, delay: Time)
    requires InStep(s) && !s.paused && s.load > 0
    ensures (forall ops :: AllowedRun(Step(s, Start(delay)), ops) ==> AssertsHold(Step(s, Start(delay)), ops)) <==>
            !s.woken && (s.pending.Some? ==> s.now + delay + s.load <= s.pending.value)
  {
    var u := Step(s, Start(delay));
    StartInStep(s, delay);
    if InStep(u) {
      forall ops | AllowedRun(u, ops) ensures AssertsHold(u, ops) {
        RunInStep(u, ops);
      }
    } else {
      var ops := FailingRun(u);
      assert AllowedRun(u, ops) && !AssertsHold(u, ops);
    }
  }

  /** The thread takes its turn too early: at once, or at the earlier notification. */
  lemma FailingRun(u: State) returns (ops: seq<Op>)
    requires !u.paused && u.trigger > u.now
    requires u.woken || (u.pending.Some? && u.now <= u.pending.value < u.trigger)
    ensures AllowedRun(u, ops) && !AssertsHold(u, ops)
  {
    if u.woken {
      ops := [Thread];
      assert ops[1..] == [];
    } else {
      var d := u.pending.value - u.now;
      ops := [Advance(d), Fire, Thread];
      var u1 := Step(u, Advance(d));
      var u2 := Step(u1, Fire);
      assert ops[1..] == [Fire, Thread] && ops[1..][1..] == [Thread];
      assert Allowed(u, ops[0]) && Allowed(u1, Fire) && Allowed(u2, Thread) && !Asserts(u2, Thread);
      assert !AssertsHold(u2, ops[1..][1..]) && AllowedRun(u2, ops[1..][1..]);
    }
  }

  /** Stopping and starting again in the instant the event fired, before the thread runs, breaks its assertion. */
  lemma RestartRace()
    ensures var due := Step(Step(Step(FRESH, SetLoad(5)), Start(0)), Advance(5));
            var s := Step(Step(Step(due, Fire), Stop), Start(0));
            Allowed(due, Fire) && Allowed(Step(due, Fire), Stop) && s.woken && !Asserts(s, Thread)
  {
  }

  // ---------------------------------------------------------------- time measured by the timer

  /** One trigger: when, after how much time by the stopwatch, and the load delay then. */
  datatype Firing = Firing(at: Time, ran: int, load: Time)

  /**
   A run with a stopwatch that only counts while the timer runs, and counters.  A delay argument
   moves the instant of the call: it is taken off at a start or resume and added at a pause.
  */
  datatype Trace = Trace(s: State, ran: int, log: seq<Firing>, starts: nat, answers: nat, unseen: nat)

  predicate Triggers(s: State, op: Op) {
    op.Thread? && Running(s)
  }

  function Observe(t: Trace, op: Op): Trace {
    var s := t.s;
    Trace(Step(s, op),
          if Triggers(s, op) then 0
          else if op.Start? && !s.paused then 0 - op.delay
          else if op.Advance? && Running(s) then t.ran + op.d
          else if op.Pause? then t.ran + op.delay
          else if op.Resume? then t.ran - op.delay
          else t.ran,
          if Triggers(s, op) then t.log + [Firing(s.now, t.ran, s.load)] else t.log,
          if op.Start? && !s.paused then t.starts + 1 else t.starts,
          if op.TestAndClear? && s.triggered then t.answers + 1 else t.answers,
          if op.TestAndClear? || op.Reset? then 0 else if Triggers(s, op) then t.unseen + 1 else t.unseen)
  }

  function Watch(t: Trace, ops: seq<Op>): Trace
    decreases |ops|
  {
    if ops == [] then t else Watch(Observe(t, ops[0]), ops[1..])
  }

  const BEGIN: Trace := Trace(FRESH, 0, [], 0, 0, 0)

  ghost predicate Timed(t: Trace) {
    && InStep(t.s)
    && (Running(t.s) ==> t.ran + (t.s.trigger - t.s.now) == t.s.load)
    && (t.s.paused ==> t.ran + t.s.resumeDelay == t.s.load)
    && (forall k :: 0 <= k < |t.log| ==> t.log[k].ran == t.log[k].load)
  }

  lemma ObserveTimed(t: Trace, op: Op)
    requires Timed(t) && Allowed(t.s, op)
    ensures Timed(Observe(t, op))
  {
    StepInStep(t.s, op);
  }

  lemma {:induction false} WatchTimed(t: Trace, ops: seq<Op>)
    requires Timed(t) && AllowedRun(t.s, ops)
    ensures Timed(Watch(t, ops))
    decreases |ops|
  {
    if ops != [] {
      ObserveTimed(t, ops[0]);
      WatchTimed(Observe(t, ops[0]), ops[1..]);
    }
  }

  /**
   However a run starts, pauses and resumes, with or without delay arguments, the stopwatch shows
   the load delay at every trigger: with none, the unpaused time since the start or the last trigger.
  */
  lemma ElapsedIsLoadDelay(ops: seq<Op>)
    requires AllowedRun(FRESH, ops)
    ensures var log := Watch(BEGIN, ops).log; forall k :: 0 <= k < |log| ==> log[k].ran == log[k].load
  {
    WatchTimed(BEGIN, ops);
  }

  // ---------------------------------------------------------------- periodic and one-shot

  /** Nothing but time passes: no caller starts, stops, pauses or reconfigures the timer. */
  predicate Undisturbed(op: Op) {
    op.Advance? || op.Fire? || op.Thread? || op.TestAndClear? || op.SetReload?
  }

  ghost predicate Periodic(t: Trace, s0: Time, load: Time) {
    && InStep(t.s) && t.s.continuous && Running(t.s) && t.s.load == load > 0
    && t.s.trigger == s0 + (|t.log| + 1) * load
    && s0 + |t.log| * load <= t.s.now
    && (forall k :: 0 <= k < |t.log| ==> t.log[k].at == s0 + (k + 1) * load)
  }

  lemma ObservePeriodic(t: Trace, op: Op, s0: Time, load: Time)
    requires Periodic(t, s0, load) && Allowed(t.s, op) && Undisturbed(op)
    ensures Periodic(Observe(t, op), s0, load)
  {
    StepInStep(t.s, op);
    var n := |t.log|;
    assert (n + 2) * load == (n + 1) * load + load;
  }

  lemma {:induction false} WatchPeriodic(t: Trace, ops: seq<Op>, s0: Time, load: Time)
    requires Periodic(t, s0, load) && AllowedRun(t.s, ops) && forall k :: 0 <= k < |ops| ==> Undisturbed(ops[k])
    ensures Periodic(Watch(t, ops), s0, load)
    decreases |ops|
  {
    if ops != [] {
      ObservePeriodic(t, ops[0], s0, load);
      WatchPeriodic(Observe(t, ops[0]), ops[1..], s0, load);
    }
  }

  /**
   A continuous timer started at s0 and left alone has triggered at s0 + load, s0 + 2 load, ...
   and nowhere else, with no drift and none missed: the next trigger is never in the past.
  */
  lemma TriggersPeriodically(s: State, ops: seq<Op>)
    requires InStep(s) && s.continuous && !s.paused && Allowed(s, Start(0))
    requires AllowedRun(Step(s, Start(0)), ops) && forall k :: 0 <= k < |ops| ==> Undisturbed(ops[k])
    ensures var t := Watch(Trace(Step(s, Start(0)), 0, [], 0, 0, 0), ops);
            (forall k :: 0 <= k < |t.log| ==> t.log[k].at == s.now + (k + 1) * s.load) &&
            s.now + |t.log| * s.load <= t.s.now <= s.now + (|t.log| + 1) * s.load
  {
    StepInStep(s, Start(0));
    WatchPeriodic(Trace(Step(s, Start(0)), 0, [], 0, 0, 0), ops, s.now, s.load);
  }

  ghost predicate OneShot(t: Trace) {
    !t.s.continuous && |t.log| + (if t.s.trigger != 0 then 1 else 0) <= t.starts
  }

  /** With no continuous mode, every trigger has its own start. */
  lemma {:induction false} OneTriggerPerStart(t: Trace, ops: seq<Op>)
    requires OneShot(t) && InStep(t.s) && AllowedRun(t.s, ops)
    requires forall k :: 0 <= k < |ops| ==> ops[k] != SetContinuous(true)
    ensures OneShot(Watch(t, ops)) && |Watch(t, ops).log| <= Watch(t, ops).starts
    decreases |ops|
  {
    if ops != [] {
      StepInStep(t.s, ops[0]);
      OneTriggerPerStart(Observe(t, ops[0]), ops[1..]);
    }
  }

  /** The trigger flag is up exactly when there was a trigger since it was last asked or reset. */
  lemma {:induction false} FlagExactly(t: Trace, ops: seq<Op>)
    requires t.s.triggered <==> t.unseen > 0
    ensures Watch(t, ops).s.triggered <==> Watch(t, ops).unseen > 0
    decreases |ops|
  {
    if ops != [] {
      FlagExactly(Observe(t, ops[0]), ops[1..]);
    }
  }

  /** The trigger flag answers true at most once per trigger. */
  lemma {:induction false} OneAnswerPerTrigger(t: Trace, ops: seq<Op>)
    requires t.answers + (if t.s.triggered then 1 else 0) <= |t.log|
    ensures var r := Watch(t, ops); r.answers + (if r.s.triggered then 1 else 0) <= |r.log|
    decreases |ops|
  {
    if ops != [] {
      OneAnswerPerTrigger(Observe(t, ops[0]), ops[1..]);
    }
  }

  // ---------------------------------------------------------------- the start time

  /** A load delay after the recorded start lies the trigger; a pause keeps that recoverable. */
  predicate StartTracks(s: State) {
    && (Running(s) ==> s.start + s.load == s.trigger)
    && (s.paused ==> s.load <= s.now + s.resumeDelay)
  }

  /** A continuous trigger with reload off, or a pause whose delay argument reaches back before the recorded start. */
  predicate LosesStart(s: State, op: Op) {
    (Triggers(s, op) && s.continuous && !s.reload) || (op.Pause? && op.delay > s.start)
  }

  /** The recorded start stays right, whatever the delay arguments, exactly until one of these. */
  lemma StartTracksExactly(s: State, op: Op)
    requires InStep(s) && StartTracks(s) && Allowed(s, op)
    ensures StartTracks(Step(s, op)) <==> !LosesStart(s, op)
  {
    StepInStep(s, op);
  }

  /** The recorded start is right now and after every further step. */
  predicate TracksThroughout(s: State, ops: seq<Op>)
    decreases |ops|
  {
    StartTracks(s) && (ops == [] || TracksThroughout(Step(s, ops[0]), ops[1..]))
  }

  predicate EverLosesStart(s: State, ops: seq<Op>)
    decreases |ops|
  {
    ops != [] && (LosesStart(s, ops[0]) || EverLosesStart(Step(s, ops[0]), ops[1..]))
  }

  /** Over a whole run the recorded start stays right exactly if no step of it loses it. */
  lemma {:induction false} StartTracksThroughout(s: State, ops: seq<Op>)
    requires InStep(s) && StartTracks(s) && AllowedRun(s, ops)
    ensures TracksThroughout(s, ops) <==> !EverLosesStart(s, ops)
    decreases |ops|
  {
    if ops != [] {
      StepInStep(s, ops[0]);
      StartTracksExactly(s, ops[0]);
      if StartTracks(Step(s, ops[0])) {
        StartTracksThroughout(Step(s, ops[0]), ops[1..]);
      }
    }
  }

  /** A trigger with reload on records the trigger time as the start; with it off the start is kept. */
  lemma TriggerStart(s: State)
    requires InStep(s) && Triggers(s, Thread) && s.woken
    ensures Step(s, Thread).start == if s.reload then s.trigger else s.start
  {
  }

  // ---------------------------------------------------------------- what each call leaves alone

  /** Time passes, and each setting is changed by its setter and cleared by a reset, and by nothing else. */
  lemma SettingsExactly(s: State, op: Op)
    ensures var r := Step(s, op);
            r.now == s.now + (if op.Advance? then op.d else 0) &&
            r.load == (if op.SetLoad? then op.t else if op.Reset? then 0 else s.load) &&
            r.reload == (if op.SetReload? then op.on else !op.Reset? && s.reload) &&
            r.continuous == (if op.SetContinuous? then op.on else !op.Reset? && s.continuous)
    ensures !op.Start? && !op.Resume? && !op.Thread? && !op.Reset? ==> Step(s, op).start == s.start
  {
  }

  /** After a reset the timer is idle with everything cleared, however it stood; only a turn already owed remains. */
  lemma ResetExactly(s: State)
    ensures var r := Step(s, Reset);
            r.start == r.resumeDelay == r.trigger == 0 && r.load == 0 &&
            !r.triggered && !r.reload && !r.continuous && !r.paused && r.pending == None && r.woken == s.woken
  {
  }

  // ---------------------------------------------------------------- queries

  function TimeLeft(s: State, delay: Time): Time {
    if s.trigger > s.now + delay then s.trigger - (s.now + delay) else 0
  }

  predicate IsRunning(s: State, delay: Time) {
    !s.paused && s.trigger != 0 && (TimeLeft(s, delay) > 0 || s.continuous)
  }

  /** Except in the instant of a trigger, running means an event is pending, and the time left is the time to it. */
  lemma RunningExactly(s: State)
    requires InStep(s) && !s.woken && s.pending != Some(s.now)
    ensures IsRunning(s, 0) <==> s.pending.Some?
    ensures s.pending.Some? ==> s.now + TimeLeft(s, 0) == s.pending.value
  {
  }

  /** Asking with a delay is asking that much later. */
  lemma QueriesAhead(s: State, delay: Time)
    ensures TimeLeft(s, delay) == TimeLeft(Step(s, Advance(delay)), 0)
    ensures IsRunning(s, delay) <==> IsRunning(Step(s, Advance(delay)), 0)
  {
  }

  // ---------------------------------------------------------------- the timer

  /** The original's object; `now` is the simulation time of the call, `pending` and `woken` belong to its event. */
  class Timer {
    var loadDelay: Time
    var startTime: Time
    var resumeDelay: Time
    var triggerTime: Time
    var triggered: bool
    var reload: bool
    var continuous: bool
    var paused: bool
    var pending: Option<Time>
    var woken: bool

    constructor ()
      ensures AsState(0) == FRESH && Valid(0)
    {
      loadDelay, startTime, resumeDelay, triggerTime := 0, 0, 0, 0;
      triggered, reload, continuous, paused := false, false, false, false;
      pending, woken := None, false;
    }

    function AsState(now: Time): State
      reads this
    {
      State(now, loadDelay, startTime, resumeDelay, triggerTime, triggered, reload, continuous, paused, pending, woken)
    }

    /** Event and trigger time agree, as after every call the timer's callers may make. */
    predicate Valid(now: Time)
      reads this
    {
      InStep(AsState(now))
    }

    /** `ok` tells whether the assertions on the way held. */
    method DoStart(now: Time, delay: Time) returns (ok: bool)
      modifies this
      ensures old(Valid(now)) && Allowed(old(AsState(now)), Start(delay)) ==> Valid(now)
      ensures AsState(now) == Step(old(AsState(now)), Start(delay))
      ensures ok <==> Asserts(old(AsState(now)), Start(delay))
    {
      if paused {
        ok := DoResume(now, 0);
      } else {
        startTime := now + delay;
        ok := loadDelay > 0;
        triggerTime := startTime + loadDelay;
        pending := Notify(pending, now + (loadDelay + delay));
      }
    }

    method DoStop(now: Time)
      modifies this
      ensures old(Valid(now)) && Allowed(old(AsState(now)), Stop) ==> Valid(now)
      ensures AsState(now) == Step(old(AsState(now)), Stop)
    {
      pending := None;
      triggerTime := 0;
      paused := false;
      resumeDelay := 0;
    }

    method DoPause(now: Time, delay: Time)
      modifies this
      ensures old(Valid(now)) && Allowed(old(AsState(now)), Pause(delay)) ==> Valid(now)
      ensures AsState(now) == Step(old(AsState(now)), Pause(delay))
    {
      paused := true;
      pending := None;
      resumeDelay := Minus(triggerTime, now + delay);
    }

    method DoResume(now: Time, delay: Time) returns (ok: bool)
      modifies this
      ensures old(Valid(now)) && Allowed(old(AsState(now)), Resume(delay)) ==> Valid(now)
      ensures AsState(now) == Step(old(AsState(now)), Resume(delay))
      ensures ok <==> Asserts(old(AsState(now)), Resume(delay))
    {
      ok := paused && resumeDelay != 0;
      paused := false;
      triggerTime := now + delay + resumeDelay;
      startTime := Minus(triggerTime, loadDelay);
      pending := Notify(pending, now + (resumeDelay + delay));
      resumeDelay := 0;
    }

    /** One turn of the trigger thread, from its wake-up to its next wait. */
    method TriggerThread(now: Time) returns (ok: bool)
      modifies this
      ensures old(Valid(now)) && Allowed(old(AsState(now)), Thread) ==> Valid(now)
      ensures AsState(now) == Step(old(AsState(now)), Thread)
      ensures ok <==> Asserts(old(AsState(now)), Thread)
    {
      ok := true;
      woken := false;
      if paused || triggerTime == 0 {
        return;
      }
      ok := triggerTime == now;
      triggered := true;
      if reload && loadDelay != 0 {
        startTime := now;
      }
      if continuous {
        ok := ok && loadDelay > 0;
        triggerTime := now + loadDelay;
        pending := Notify(pending, now + loadDelay);
      } else {
        triggerTime := 0;
      }
    }

    method DoReset(now: Time)
      modifies this
      ensures old(Valid(now)) && Allowed(old(AsState(now)), Reset) ==> Valid(now)
      ensures AsState(now) == Step(old(AsState(now)), Reset)
    {
      pending := None;
      loadDelay, startTime, resumeDelay, triggerTime := 0, 0, 0, 0;
      triggered, reload, continuous, paused := false, false, false, false;
    }

    method TestAndClearTriggered(now: Time) returns (result: bool)
      modifies this`triggered
      ensures old(Valid(now)) && Allowed(old(AsState(now)), TestAndClear) ==> Valid(now)
      ensures result == old(triggered) && AsState(now) == Step(old(AsState(now)), TestAndClear)
    {
      result := triggered;
      triggered := false;
    }

    method SetLoadDelay(now: Time, t: Time)
      modifies this`loadDelay
      ensures old(Valid(now)) && Allowed(old(AsState(now)), SetLoad(t)) ==> Valid(now)
      ensures AsState(now) == Step(old(AsState(now)), SetLoad(t))
    {
      loadDelay := t;
    }
  }
}
