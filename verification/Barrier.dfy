/**
  The time-slot barrier of src/timer.c.

  One timer thread and any number of devices (the CPUs and the loader) move in lockstep.  Every
  device owns two flags, `done` and `fsh`, an `event_lock` under which it raises them and a
  `timer_lock` under which the timer clears `done`.  The model is a step relation at the grain of
  single lock operations, flag accesses and signals; an interleaving is a sequence of actions.
  POSIX allows a condition wait to return without a signal, so spurious wake-ups are actions too.
*/
module Barrier {

  datatype Holder = Nobody | ByTimer | ByDevice

  /** Where a device thread stands. */
  datatype DeviceLoc =
    | Working       // between two calls into the timer: inside a slot
    | RaiseEnter    // next_slot: about to lock event_lock
    | RaiseHeld     // about to set done
    | RaiseSignal   // about to signal event_cond
    | RaiseLeave    // about to unlock event_lock
    | WaitEnter     // about to lock timer_lock (first time, or on waking up)
    | WaitTest      // about to test done
    | WaitAsleep    // in pthread_cond_wait on timer_cond, timer_lock released
    | WaitLeave     // about to unlock timer_lock and return from next_slot
    | DetachEnter   // detach_event: about to lock event_lock
    | DetachHeld    // about to set fsh
    | DetachSignal  // about to signal event_cond
    | DetachLeave   // about to unlock event_lock
    | Detached      // thread has ended

  /** `begun` counts the calls of next_slot; nothing in the protocol reads it. */
  datatype Device = Device(
    loc: DeviceLoc, done: bool, fsh: bool, eventLock: Holder, timerLock: Holder, begun: nat)

  /** Where the timer thread stands; `k` is the cursor into the device list. */
  datatype TimerLoc =
    | Top
    | CollectEnter(k: nat)   // about to lock event_lock of device k (first time, or on waking up)
    | CollectTest(k: nat)    // about to test done and fsh
    | CollectAsleep(k: nat)  // in pthread_cond_wait on event_cond, event_lock released
    | CollectCount(k: nat)   // about to count device k and unlock
    | Tick                   // about to increase _time
    | ReleaseEnter(k: nat)   // about to lock timer_lock of device k
    | ReleaseHeld(k: nat)    // about to clear done
    | ReleaseSignal(k: nat)  // about to signal timer_cond
    | ReleaseLeave(k: nat)   // about to unlock timer_lock
    | Decide                 // about to compare the two counters
    | Exited

  datatype State = State(
    time: nat, tloc: TimerLoc, fsh: nat, event: nat, stop: bool, devs: seq<Device>)

  datatype Action =
    | TimerRuns             // the timer executes its next operation
    | DeviceRuns(i: nat)    // device i executes its next operation inside next_slot or detach_event
    | CallNext(i: nat)      // device i calls next_slot
    | CallDetach(i: nat)    // device i calls detach_event
    | TimerWakes            // spurious wake-up of the timer
    | DeviceWakes(i: nat)   // spurious wake-up of device i
    | StopTimer             // main sets timer_stop after joining every device thread

  /** All devices attached, nobody started yet. */
  function Init(n: nat): State {
    State(0, Top, 0, 0, false, seq(n, _ => Device(Working, false, false, Nobody, Nobody, 0)))
  }

  predicate InDetach(l: DeviceLoc) {
    l.DetachEnter? || l.DetachHeld? || l.DetachSignal? || l.DetachLeave? || l.Detached?
  }

  // ----- one operation of each thread

  predicate TimerEnabled(s: State) {
    match s.tloc
    case CollectEnter(k) => k >= |s.devs| || s.devs[k].eventLock == Nobody
    case CollectAsleep(_) => false
    case ReleaseEnter(k) => k >= |s.devs| || s.devs[k].timerLock == Nobody
    case Exited => false
    case Top => true
    case Tick => true
    case Decide => true
    case CollectTest(k) => k < |s.devs|
    case CollectCount(k) => k < |s.devs|
    case ReleaseHeld(k) => k < |s.devs|
    case ReleaseSignal(k) => k < |s.devs|
    case ReleaseLeave(k) => k < |s.devs|
  }

  function SetDev(s: State, i: nat, d: Device): State
    requires i < |s.devs|
  {
    s.(devs := s.devs[i := d])
  }

  function TimerRun(s: State): State
    requires TimerEnabled(s)
  {
    match s.tloc
    case Top =>
      if s.stop then s.(tloc := Exited) else s.(tloc := CollectEnter(0), fsh := 0, event := 0)
    case CollectEnter(k) =>
      if k >= |s.devs| then s.(tloc := Tick)
      else SetDev(s, k, s.devs[k].(eventLock := ByTimer)).(tloc := CollectTest(k))
    case CollectTest(k) =>
      if !s.devs[k].done && !s.devs[k].fsh
      then SetDev(s, k, s.devs[k].(eventLock := Nobody)).(tloc := CollectAsleep(k))
      else s.(tloc := CollectCount(k))
    case CollectCount(k) =>
      SetDev(s, k, s.devs[k].(eventLock := Nobody)).(
      tloc := CollectEnter(k + 1),
      fsh := if s.devs[k].fsh then s.fsh + 1 else s.fsh,
      event := s.event + 1)
    case Tick => s.(tloc := ReleaseEnter(0), time := s.time + 1)
    case ReleaseEnter(k) =>
      if k >= |s.devs| then s.(tloc := Decide)
      else SetDev(s, k, s.devs[k].(timerLock := ByTimer)).(tloc := ReleaseHeld(k))
    case ReleaseHeld(k) => SetDev(s, k, s.devs[k].(done := false)).(tloc := ReleaseSignal(k))
    case ReleaseSignal(k) =>
      var d := s.devs[k];
      SetDev(s, k, if d.loc.WaitAsleep? then d.(loc := WaitEnter) else d).(tloc := ReleaseLeave(k))
    case ReleaseLeave(k) =>
      SetDev(s, k, s.devs[k].(timerLock := Nobody)).(tloc := ReleaseEnter(k + 1))
    case Decide => s.(tloc := if s.fsh == s.event then Exited else Top)
  }

  predicate DeviceEnabled(s: State, i: nat)
    requires i < |s.devs|
  {
    var d := s.devs[i];
    match d.loc
    case RaiseEnter => d.eventLock == Nobody
    case DetachEnter => d.eventLock == Nobody
    case WaitEnter => d.timerLock == Nobody
    case Working => false
    case WaitAsleep => false
    case Detached => false
    case _ => true
  }

  /** Signalling event_cond of device `i` wakes the timer if it sleeps there. */
  function SignalTimer(s: State, i: nat): State {
    if s.tloc == CollectAsleep(i) then s.(tloc := CollectEnter(i)) else s
  }

  function DeviceRun(s: State, i: nat): State
    requires i < |s.devs| && DeviceEnabled(s, i)
  {
    var d := s.devs[i];
    match d.loc
    case RaiseEnter => SetDev(s, i, d.(loc := RaiseHeld, eventLock := ByDevice))
    case RaiseHeld => SetDev(s, i, d.(loc := RaiseSignal, done := true))
    case RaiseSignal => SignalTimer(SetDev(s, i, d.(loc := RaiseLeave)), i)
    case RaiseLeave => SetDev(s, i, d.(loc := WaitEnter, eventLock := Nobody))
    case WaitEnter => SetDev(s, i, d.(loc := WaitTest, timerLock := ByDevice))
    case WaitTest =>
      SetDev(s, i, if d.done then d.(loc := WaitAsleep, timerLock := Nobody) else d.(loc := WaitLeave))
    case WaitLeave => SetDev(s, i, d.(loc := Working, timerLock := Nobody))
    case DetachEnter => SetDev(s, i, d.(loc := DetachHeld, eventLock := ByDevice))
    case DetachHeld => SetDev(s, i, d.(loc := DetachSignal, fsh := true))
    case DetachSignal => SignalTimer(SetDev(s, i, d.(loc := DetachLeave)), i)
    case DetachLeave => SetDev(s, i, d.(loc := Detached, eventLock := Nobody))
  }

  predicate AllDetached(s: State) {
    forall i :: 0 <= i < |s.devs| ==> s.devs[i].loc.Detached?
  }

  predicate Enabled(s: State, a: Action) {
    match a
    case TimerRuns => TimerEnabled(s)
    case DeviceRuns(i) => i < |s.devs| && DeviceEnabled(s, i)
    case CallNext(i) => i < |s.devs| && s.devs[i].loc.Working?
    case CallDetach(i) => i < |s.devs| && s.devs[i].loc.Working?
    case TimerWakes => s.tloc.CollectAsleep?
    case DeviceWakes(i) => i < |s.devs| && s.devs[i].loc.WaitAsleep?
    case StopTimer => AllDetached(s)
  }

  function Apply(s: State, a: Action): State
    requires Enabled(s, a)
  {
    match a
    case TimerRuns => TimerRun(s)
    case DeviceRuns(i) => DeviceRun(s, i)
    case CallNext(i) =>
      SetDev(s, i, s.devs[i].(loc := RaiseEnter, begun := s.devs[i].begun + 1))
    case CallDetach(i) => SetDev(s, i, s.devs[i].(loc := DetachEnter))
    case TimerWakes => s.(tloc := CollectEnter(s.tloc.k))
    case DeviceWakes(i) => SetDev(s, i, s.devs[i].(loc := WaitEnter))
    case StopTimer => s.(stop := true)
  }

  /** `s` is reached from `s0` by the interleaving `run`. */
  predicate Reaches(s0: State, run: seq<Action>, s: State)
    decreases |run|
  {
    if run == [] then s0 == s
    else Enabled(s0, run[0]) && Reaches(Apply(s0, run[0]), run[1..], s)
  }

  // ----- the invariant

  /** Device `i` has been counted in this round and the clock has not moved yet. */
  predicate Passed(t: TimerLoc, i: nat) {
    match t
    case CollectEnter(k) => i < k
    case CollectTest(k) => i < k
    case CollectAsleep(k) => i < k
    case CollectCount(k) => i <= k
    case Tick => true
    case _ => false
  }

  /** The clock has moved and `done` of device `i` has not been cleared yet. */
  predicate Ticked(t: TimerLoc, i: nat) {
    match t
    case ReleaseEnter(k) => k <= i
    case ReleaseHeld(k) => k <= i
    case ReleaseSignal(k) => k < i
    case ReleaseLeave(k) => k < i
    case _ => false
  }

  predicate TimerHoldsEvent(t: TimerLoc, i: nat) {
    t == CollectTest(i) || t == CollectCount(i)
  }

  predicate TimerHoldsTimer(t: TimerLoc, i: nat) {
    t == ReleaseHeld(i) || t == ReleaseSignal(i) || t == ReleaseLeave(i)
  }

  predicate DeviceHoldsEvent(l: DeviceLoc) {
    l.RaiseHeld? || l.RaiseSignal? || l.RaiseLeave? || l.DetachHeld? || l.DetachSignal? || l.DetachLeave?
  }

  predicate DeviceHoldsTimer(l: DeviceLoc) {
    l.WaitTest? || l.WaitLeave?
  }

  /** Each mutex is held by the thread whose program location says so, and by that one only. */
  predicate LocksOk(t: TimerLoc, i: nat, d: Device) {
    && (d.eventLock == ByTimer <==> TimerHoldsEvent(t, i))
    && (d.eventLock == ByDevice <==> DeviceHoldsEvent(d.loc))
    && (d.timerLock == ByTimer <==> TimerHoldsTimer(t, i))
    && (d.timerLock == ByDevice <==> DeviceHoldsTimer(d.loc))
  }

  /** What each location of a device says about its flags and its slot count. */
  predicate DeviceOk(time: nat, t: TimerLoc, i: nat, d: Device) {
    && (d.fsh <==> d.loc.DetachSignal? || d.loc.DetachLeave? || d.loc.Detached?)
    && (d.done ==>
          && (d.loc.RaiseSignal? || d.loc.RaiseLeave? || d.loc.WaitEnter? || d.loc.WaitTest? || d.loc.WaitAsleep?)
          && d.begun == (if Ticked(t, i) then time else time + 1))
    && (!d.done && !d.fsh ==>
          && !Passed(t, i) && !Ticked(t, i)
          && !d.loc.RaiseSignal? && !d.loc.RaiseLeave?
          && d.begun == (if d.loc.RaiseEnter? || d.loc.RaiseHeld? then time + 1 else time))
    && (Passed(t, i) || Ticked(t, i) ==>
          d.fsh || d.loc.WaitEnter? || d.loc.WaitTest? || d.loc.WaitAsleep?)
  }

  /** Neither side sleeps on a condition that already holds, unless the signal is on its way. */
  predicate NoLostWakeUp(t: TimerLoc, i: nat, d: Device) {
    && (t == CollectAsleep(i) ==> (!d.done && !d.fsh) || d.loc.RaiseSignal? || d.loc.DetachSignal?)
    && (d.loc.WaitAsleep? ==> d.done || t == ReleaseSignal(i))
    && (t == CollectCount(i) ==> d.done || d.fsh)
    && (t == ReleaseSignal(i) ==> !d.done && (d.fsh || d.loc.WaitEnter? || d.loc.WaitAsleep?))
    && (t == ReleaseLeave(i) ==> !d.done && (d.fsh || d.loc.WaitEnter?))
  }

  /** The cursor stays inside the list and `event` counts the devices it has passed. */
  predicate CursorOk(s: State) {
    var n := |s.devs|;
    && s.fsh <= s.event <= n
    && match s.tloc
       case CollectEnter(k) => k <= n && s.event == k
       case CollectTest(k) => k < n && s.event == k
       case CollectAsleep(k) => k < n && s.event == k
       case CollectCount(k) => k < n && s.event == k
       case ReleaseEnter(k) => k <= n && s.event == n
       case ReleaseHeld(k) => k < n && s.event == n
       case ReleaseSignal(k) => k < n && s.event == n
       case ReleaseLeave(k) => k < n && s.event == n
       case Tick => s.event == n
       case Decide => s.event == n
       case Top => true
       case Exited => true
  }

  /** Equal counters, or a timer that is gone or told to go, mean that devices have finished. */
  predicate CountsOk(s: State) {
    && (s.fsh == s.event ==> forall j :: 0 <= j < s.event && j < |s.devs| ==> s.devs[j].fsh)
    && (s.tloc.Exited? || s.stop ==> forall j :: 0 <= j < |s.devs| ==> s.devs[j].fsh)
  }

  predicate DevInv(s: State, i: nat)
    requires i < |s.devs|
  {
    && LocksOk(s.tloc, i, s.devs[i])
    && DeviceOk(s.time, s.tloc, i, s.devs[i])
    && NoLostWakeUp(s.tloc, i, s.devs[i])
  }

  predicate Inv(s: State) {
    && CursorOk(s)
    && CountsOk(s)
    && forall i :: 0 <= i < |s.devs| ==> DevInv(s, i)
  }

  lemma InitInv(n: nat)
    ensures Inv(Init(n))
  {
  }

  /** The timer is busy with device `i`. */
  predicate At(t: TimerLoc, i: nat) {
    match t
    case CollectEnter(k) => i == k
    case CollectTest(k) => i == k
    case CollectAsleep(k) => i == k
    case CollectCount(k) => i == k
    case ReleaseEnter(k) => i == k
    case ReleaseHeld(k) => i == k
    case ReleaseSignal(k) => i == k
    case ReleaseLeave(k) => i == k
    case _ => false
  }

  lemma TimerRunKeepsOthers(s: State, i: nat)
    requires CursorOk(s) && TimerEnabled(s) && i < |s.devs| && DevInv(s, i)
    requires !At(s.tloc, i)
    ensures |TimerRun(s).devs| == |s.devs| && DevInv(TimerRun(s), i)
  {
    var s' := TimerRun(s);
    assert s'.devs[i] == s.devs[i];
    assert !TimerHoldsEvent(s'.tloc, i) && !TimerHoldsTimer(s'.tloc, i);
    if s.tloc.Tick? {
      assert s'.time == s.time + 1 && Passed(s.tloc, i) && Ticked(s'.tloc, i);
    } else {
      assert s'.time == s.time;
      assert Passed(s'.tloc, i) == Passed(s.tloc, i) && Ticked(s'.tloc, i) == Ticked(s.tloc, i);
    }
  }

  lemma TimerRunKeepsCurrent(s: State, i: nat)
    requires CursorOk(s) && TimerEnabled(s) && i < |s.devs| && DevInv(s, i)
    requires At(s.tloc, i)
    ensures |TimerRun(s).devs| == |s.devs| && DevInv(TimerRun(s), i)
  {
  }

  lemma TimerRunKeepsCounts(s: State)
    requires CursorOk(s) && CountsOk(s) && TimerEnabled(s)
    ensures CursorOk(TimerRun(s)) && CountsOk(TimerRun(s))
  {
  }

  lemma DeviceRunKeepsItself(s: State, j: nat)
    requires j < |s.devs| && DeviceEnabled(s, j) && DevInv(s, j)
    ensures |DeviceRun(s, j).devs| == |s.devs| && DevInv(DeviceRun(s, j), j)
  {
  }

  lemma DeviceRunKeepsOthers(s: State, j: nat, i: nat)
    requires j < |s.devs| && DeviceEnabled(s, j) && i < |s.devs| && i != j && DevInv(s, i)
    ensures |DeviceRun(s, j).devs| == |s.devs| && DevInv(DeviceRun(s, j), i)
  {
    var s' := DeviceRun(s, j);
    assert s'.devs[i] == s.devs[i] && s'.time == s.time;
    assert s'.tloc == s.tloc || (s.tloc == CollectAsleep(j) && s'.tloc == CollectEnter(j));
  }

  lemma DeviceRunKeepsCounts(s: State, j: nat)
    requires CursorOk(s) && CountsOk(s) && j < |s.devs| && DeviceEnabled(s, j)
    ensures CursorOk(DeviceRun(s, j)) && CountsOk(DeviceRun(s, j))
  {
  }

  lemma TimerRunKeepsInv(s: State)
    requires Inv(s) && TimerEnabled(s)
    ensures |TimerRun(s).devs| == |s.devs| && Inv(TimerRun(s))
  {
    TimerRunKeepsCounts(s);
    forall i | 0 <= i < |s.devs| ensures |TimerRun(s).devs| == |s.devs| && DevInv(TimerRun(s), i) {
      assert DevInv(s, i);
      if At(s.tloc, i) { TimerRunKeepsCurrent(s, i); } else { TimerRunKeepsOthers(s, i); }
    }
  }

  lemma DeviceRunKeepsInv(s: State, j: nat)
    requires Inv(s) && j < |s.devs| && DeviceEnabled(s, j)
    ensures |DeviceRun(s, j).devs| == |s.devs| && Inv(DeviceRun(s, j))
  {
    DeviceRunKeepsCounts(s, j);
    forall i | 0 <= i < |s.devs| ensures |DeviceRun(s, j).devs| == |s.devs| && DevInv(DeviceRun(s, j), i) {
      assert DevInv(s, i);
      if i == j { DeviceRunKeepsItself(s, j); } else { DeviceRunKeepsOthers(s, j, i); }
    }
  }

  /** Every action of every thread keeps the invariant. */
  lemma StepKeepsInv(s: State, a: Action)
    requires Inv(s) && Enabled(s, a)
    ensures |Apply(s, a).devs| == |s.devs| && Inv(Apply(s, a))
  {
    match a
    case TimerRuns => TimerRunKeepsInv(s);
    case DeviceRuns(j) => DeviceRunKeepsInv(s, j);
    case _ => OtherStepKeepsInv(s, a);
  }

  lemma OtherStepKeepsInv(s: State, a: Action)
    requires Inv(s) && Enabled(s, a) && !a.TimerRuns? && !a.DeviceRuns?
    ensures |Apply(s, a).devs| == |s.devs| && Inv(Apply(s, a))
  {
    forall i | 0 <= i < |s.devs|
      ensures DevInv(Apply(s, a), i) && (a.StopTimer? ==> s.devs[i].fsh)
    {
      assert DevInv(s, i);
    }
  }

  lemma {:induction false} RunKeepsInv(s0: State, run: seq<Action>, s: State)
    requires Inv(s0) && Reaches(s0, run, s)
    ensures Inv(s) && |s.devs| == |s0.devs|
    decreases |run|
  {
    if run != [] {
      StepKeepsInv(s0, run[0]);
      RunKeepsInv(Apply(s0, run[0]), run[1..], s);
    }
  }

  // ----- safety over every interleaving

  /** `_time` moves by one, and only when every device has finished or waits at the barrier. */
  lemma ClockWaitsForDevices(n: nat, run: seq<Action>, s: State, a: Action)
    requires Reaches(Init(n), run, s) && Enabled(s, a)
    requires Apply(s, a).time != s.time
    ensures Apply(s, a).time == s.time + 1
    ensures forall i :: 0 <= i < n && i < |s.devs| && !s.devs[i].fsh ==>
              s.devs[i].done && (s.devs[i].loc.WaitEnter? || s.devs[i].loc.WaitTest? || s.devs[i].loc.WaitAsleep?)
  {
    InitInv(n);
    RunKeepsInv(Init(n), run, s);
    forall i | 0 <= i < |s.devs| && !s.devs[i].fsh
      ensures s.devs[i].done && (s.devs[i].loc.WaitEnter? || s.devs[i].loc.WaitTest? || s.devs[i].loc.WaitAsleep?)
    {
      assert DevInv(s, i) && Passed(s.tloc, i);
    }
  }

  /** A device that has not detached has begun `_time` or `_time + 1` slots, and exactly `_time` while it works. */
  lemma SlotsBegun(n: nat, run: seq<Action>, s: State, i: nat)
    requires Reaches(Init(n), run, s) && i < n
    ensures |s.devs| == n
    ensures !s.devs[i].fsh ==> s.devs[i].begun == s.time || s.devs[i].begun == s.time + 1
    ensures s.devs[i].loc.Working? ==> s.devs[i].begun == s.time
  {
    InitInv(n);
    RunKeepsInv(Init(n), run, s);
    assert DevInv(s, i);
  }

  /** A sleeper always waits for something that has not happened, unless its signal is about to be sent. */
  lemma SleepersAreAwaited(n: nat, run: seq<Action>, s: State, i: nat)
    requires Reaches(Init(n), run, s) && i < n
    ensures |s.devs| == n
    ensures s.tloc == CollectAsleep(i) ==>
              (!s.devs[i].done && !s.devs[i].fsh) || s.devs[i].loc.RaiseSignal? || s.devs[i].loc.DetachSignal?
    ensures s.devs[i].loc.WaitAsleep? ==> s.devs[i].done || s.tloc == ReleaseSignal(i)
  {
    InitInv(n);
    RunKeepsInv(Init(n), run, s);
    assert DevInv(s, i);
  }

  /** The timer leaves its loop, by `break` or by `timer_stop`, only after every device has detached. */
  lemma TimerLeavesLast(n: nat, run: seq<Action>, s: State)
    requires Reaches(Init(n), run, s)
    requires s.tloc.Exited? || (s.tloc.Decide? && s.fsh == s.event)
    ensures forall i :: 0 <= i < |s.devs| ==> s.devs[i].fsh
  {
    InitInv(n);
    RunKeepsInv(Init(n), run, s);
  }

  // ----- progress

  /** Operations the protocol performs by itself: no call from a device, no spurious wake-up. */
  predicate Internal(a: Action) { a.TimerRuns? || a.DeviceRuns? }

  predicate AllInternal(run: seq<Action>) {
    forall j :: 0 <= j < |run| ==> Internal(run[j])
  }

  /** Nothing can move until a device calls next_slot or detach_event. */
  predicate Quiescent(s: State) {
    && !TimerEnabled(s)
    && forall i :: 0 <= i < |s.devs| ==> !DeviceEnabled(s, i)
  }

  /** Absence of deadlock: the protocol only ever waits for a device that is inside its slot. */
  lemma QuiescentMeansDevicesWork(s: State)
    requires Inv(s) && Quiescent(s)
    ensures forall i :: 0 <= i < |s.devs| ==>
              var d := s.devs[i]; d.loc.Working? || d.loc.Detached? || (d.loc.WaitAsleep? && d.done)
    ensures (exists i :: 0 <= i < |s.devs| && s.devs[i].loc.Working?) || (AllDetached(s) && s.tloc.Exited?)
    ensures s.tloc.Exited? || (s.tloc.CollectAsleep? && s.tloc.k < |s.devs| && s.devs[s.tloc.k].loc.Working?)
  {
    forall i | 0 <= i < |s.devs|
      ensures var d := s.devs[i];
              (d.loc.Working? || d.loc.Detached? || (d.loc.WaitAsleep? && d.done)) && (d.fsh ==> d.loc.Detached?)
    {
      assert DevInv(s, i) && !DeviceEnabled(s, i);
    }
    if !s.tloc.Exited? {
      assert s.tloc.k < |s.devs|;
      assert DevInv(s, s.tloc.k) && !DeviceEnabled(s, s.tloc.k);
    }
  }

  /** How many operations a device can still perform before it needs its owner or the timer. */
  function DeviceWork(d: Device): nat {
    match d.loc
    case Working => 0
    case WaitLeave => 1
    case WaitTest => if d.done then 5 else 2
    case WaitEnter => if d.done then 6 else 3
    case WaitAsleep => 4
    case RaiseLeave => 7
    case RaiseSignal => 8
    case RaiseHeld => 9
    case RaiseEnter => 10
    case Detached => 0
    case DetachLeave => 1
    case DetachSignal => 2
    case DetachHeld => 3
    case DetachEnter => 4
  }

  function TotalWork(devs: seq<Device>): nat {
    if devs == [] then 0 else TotalWork(devs[..|devs| - 1]) + DeviceWork(devs[|devs| - 1])
  }

  lemma {:induction false} TotalWorkUpdate(devs: seq<Device>, i: nat, d: Device)
    requires i < |devs|
    ensures TotalWork(devs[i := d]) == TotalWork(devs) - DeviceWork(devs[i]) + DeviceWork(d)
    decreases |devs|
  {
    var last := |devs| - 1;
    if i == last {
      assert devs[i := d][..last] == devs[..last];
    } else {
      assert devs[i := d][..last] == devs[..last][i := d];
      TotalWorkUpdate(devs[..last], i, d);
    }
  }

  lemma {:induction false} TotalWorkBound(devs: seq<Device>)
    ensures TotalWork(devs) <= 10 * |devs|
    decreases |devs|
  {
    if devs != [] {
      TotalWorkBound(devs[..|devs| - 1]);
    }
  }

  /** Distance of the timer from its next tick, counted in its own operations. */
  function TimerWork(s: State): int {
    var n := |s.devs|;
    match s.tloc
    case Exited => 0
    case Tick => 1
    case CollectEnter(k) =>
      if k >= n then 2 else 2 + 6 * (n - 1 - k) + (if s.devs[k].done || s.devs[k].fsh then 3 else 6)
    case CollectTest(k) =>
      if k >= n then 2 else 2 + 6 * (n - 1 - k) + (if s.devs[k].done || s.devs[k].fsh then 2 else 5)
    case CollectAsleep(k) => 2 + 6 * (n - 1 - k) + 4
    case CollectCount(k) => 2 + 6 * (n - 1 - k) + 1
    case Top => 6 * n + 3
    case Decide => 6 * n + 4
    case ReleaseEnter(k) => 6 * n + 5 + 4 * (n - k)
    case ReleaseHeld(k) => 6 * n + 5 + 4 * (n - 1 - k) + 3
    case ReleaseSignal(k) => 6 * n + 5 + 4 * (n - 1 - k) + 2
    case ReleaseLeave(k) => 6 * n + 5 + 4 * (n - 1 - k) + 1
  }

  predicate Live(s: State, i: nat)
    requires i < |s.devs|
  {
    !InDetach(s.devs[i].loc)
  }

  predicate AnyLive(s: State) {
    exists i :: 0 <= i < |s.devs| && Live(s, i)
  }

  /** Every device that is not leaving has called next_slot in the current slot. */
  predicate AllArrived(s: State) {
    forall i :: 0 <= i < |s.devs| && Live(s, i) ==> s.devs[i].begun == s.time + 1
  }

  predicate AfterTick(t: TimerLoc) {
    t.ReleaseEnter? || t.ReleaseHeld? || t.ReleaseSignal? || t.ReleaseLeave? || t.Decide?
  }

  /** How often the clock can still move before some device has to call. */
  function TicksLeft(s: State): (t: nat)
    ensures t <= 2
  {
    if s.tloc.Exited? then 0
    else if AnyLive(s) then if AllArrived(s) then 1 else 0
    else if AfterTick(s.tloc) then if s.fsh == s.event then 0 else 1
    else if s.tloc.Top? || s.fsh == s.event then 1 else 2
  }

  /** Operations set aside for `ticks` more ticks with `n` devices. */
  function Reserve(ticks: nat, n: nat): nat {
    if ticks == 0 then 0 else if ticks == 1 then 10 * n + 5 else 20 * n + 10
  }

  function Measure(s: State): int {
    Reserve(TicksLeft(s), |s.devs|) + TimerWork(s) + TotalWork(s.devs)
  }

  lemma DeviceRunUsesWork(s: State, j: nat)
    requires j < |s.devs| && DeviceEnabled(s, j) && DevInv(s, j)
    ensures var s' := DeviceRun(s, j);
            && |s'.devs| == |s.devs| && s'.devs == s.devs[j := s'.devs[j]]
            && DeviceWork(s'.devs[j]) < DeviceWork(s.devs[j])
  {
  }

  lemma DeviceRunHelpsTimer(s: State, j: nat)
    requires CursorOk(s) && j < |s.devs| && DeviceEnabled(s, j) && DevInv(s, j)
    ensures TimerWork(DeviceRun(s, j)) <= TimerWork(s)
  {
    var s' := DeviceRun(s, j);
    assert s'.devs[j].done || s'.devs[j].fsh || !(s.devs[j].done || s.devs[j].fsh);
    assert s'.tloc != s.tloc ==> s.devs[j].loc.RaiseSignal? || s.devs[j].loc.DetachSignal?;
  }

  lemma DeviceRunShrinksMeasure(s: State, j: nat)
    requires Inv(s) && j < |s.devs| && DeviceEnabled(s, j)
    ensures Measure(DeviceRun(s, j)) < Measure(s)
  {
    assert DevInv(s, j);
    DeviceRunUsesWork(s, j);
    TotalWorkUpdate(s.devs, j, DeviceRun(s, j).devs[j]);
    DeviceRunHelpsTimer(s, j);
    DeviceRunKeepsTicks(s, j);
  }

  lemma DeviceRunKeepsTicks(s: State, j: nat)
    requires Inv(s) && j < |s.devs| && DeviceEnabled(s, j)
    ensures TicksLeft(DeviceRun(s, j)) == TicksLeft(s)
  {
    var s' := DeviceRun(s, j);
    assert DevInv(s, j);
    SameLive(s, s');
  }

  /** Liveness of a device and its slot count decide TicksLeft, not where exactly it stands. */
  lemma SameLive(s: State, s': State)
    requires |s.devs| == |s'.devs| && s.time == s'.time
    requires forall i :: 0 <= i < |s.devs| ==> Live(s, i) == Live(s', i) && s.devs[i].begun == s'.devs[i].begun
    ensures AnyLive(s) == AnyLive(s') && AllArrived(s) == AllArrived(s')
  {
    if AnyLive(s) {
      var i :| 0 <= i < |s.devs| && Live(s, i);
      assert Live(s', i);
    }
    if AnyLive(s') {
      var i :| 0 <= i < |s'.devs| && Live(s', i);
      assert Live(s, i);
    }
  }

  lemma TickUsesOneUp(s: State)
    requires Inv(s) && s.tloc.Tick?
    ensures TicksLeft(TimerRun(s)) == TicksLeft(s) - 1
  {
    var s' := TimerRun(s);
    forall i | 0 <= i < |s.devs| ensures Live(s, i) == Live(s', i) && (Live(s, i) ==> s.devs[i].begun == s.time + 1) {
      assert DevInv(s, i) && Passed(s.tloc, i);
    }
    assert AnyLive(s) == AnyLive(s') by {
      if AnyLive(s) { var i :| 0 <= i < |s.devs| && Live(s, i); assert Live(s', i); }
      if AnyLive(s') { var i :| 0 <= i < |s'.devs| && Live(s', i); assert Live(s, i); }
    }
    if AnyLive(s) {
      var i :| 0 <= i < |s.devs| && Live(s, i);
      assert Live(s', i) && s'.devs[i].begun != s'.time + 1;
    }
  }

  lemma TimerRunKeepsTicks(s: State)
    requires Inv(s) && TimerEnabled(s) && !s.tloc.Tick?
    ensures TicksLeft(TimerRun(s)) <= TicksLeft(s)
  {
    var s' := TimerRun(s);
    SameLive(s, s');
    if s.tloc.CollectCount? {
      assert DevInv(s, s.tloc.k);
      assert Live(s, s.tloc.k) || s.devs[s.tloc.k].fsh;
    }
  }

  lemma TimerRunShrinksMeasure(s: State)
    requires Inv(s) && TimerEnabled(s)
    ensures Measure(TimerRun(s)) < Measure(s)
  {
    var s' := TimerRun(s);
    TimerRunAdvances(s);
    TimerRunHelpsDevices(s);
    if s.tloc.Tick? {
      TickUsesOneUp(s);
    } else {
      TimerRunKeepsTicks(s);
    }
  }

  lemma TimerRunAdvances(s: State)
    requires CursorOk(s) && TimerEnabled(s)
    ensures |TimerRun(s).devs| == |s.devs|
    ensures s.tloc.Tick? ==> TimerWork(TimerRun(s)) == TimerWork(s) + 10 * |s.devs| + 4
    ensures !s.tloc.Tick? ==> TimerWork(TimerRun(s)) < TimerWork(s)
  {
  }

  lemma TimerRunHelpsDevices(s: State)
    requires Inv(s) && TimerEnabled(s)
    ensures TotalWork(TimerRun(s).devs) <= TotalWork(s.devs)
  {
    var s' := TimerRun(s);
    if s'.devs != s.devs {
      var k := s.tloc.k;
      assert DevInv(s, k);
      assert s'.devs == s.devs[k := s'.devs[k]];
      TotalWorkUpdate(s.devs, k, s'.devs[k]);
    }
  }

  lemma TimerWorkBound(s: State)
    requires CursorOk(s)
    ensures 0 <= TimerWork(s) <= 10 * |s.devs| + 5
  {
  }

  lemma MeasureBound(s: State)
    requires Inv(s)
    ensures 0 <= Measure(s) <= 40 * |s.devs| + 15
  {
    TotalWorkBound(s.devs);
    TimerWorkBound(s);
  }

  /** Left to itself the protocol comes to rest within a number of operations linear in the number of devices. */
  lemma {:induction false} InternalRunsAreShort(s0: State, run: seq<Action>, s: State)
    requires Inv(s0) && Reaches(s0, run, s) && AllInternal(run)
    ensures Inv(s) && |run| <= Measure(s0) - Measure(s)
    ensures |run| <= 40 * |s0.devs| + 15
    decreases |run|
  {
    RunKeepsInv(s0, run, s);
    if run != [] {
      var a := run[0];
      assert Internal(a);
      StepKeepsInv(s0, a);
      if a.TimerRuns? { TimerRunShrinksMeasure(s0); } else { DeviceRunShrinksMeasure(s0, a.i); }
      InternalRunsAreShort(Apply(s0, a), run[1..], s);
    }
    MeasureBound(s0);
    MeasureBound(s);
  }

  /** What an internal run leaves alone. */
  lemma {:induction false} InternalRunFrame(s0: State, run: seq<Action>, s: State)
    requires Inv(s0) && Reaches(s0, run, s) && AllInternal(run)
    ensures |s.devs| == |s0.devs| && s.time >= s0.time
    ensures forall i :: 0 <= i < |s.devs| ==>
              Live(s, i) == Live(s0, i) && s.devs[i].begun == s0.devs[i].begun
    decreases |run|
  {
    if run != [] {
      var a := run[0];
      assert Internal(a);
      StepKeepsInv(s0, a);
      ProtocolFrame(s0, a);
      InternalRunFrame(Apply(s0, a), run[1..], s);
    }
  }

  /** No device is taken out of its slot or made to leave, no slot is counted, and the clock is not turned back. */
  predicate KeepsSlots(s: State, s': State) {
    && |s'.devs| == |s.devs| && s'.time >= s.time
    && forall i :: 0 <= i < |s.devs| ==>
         && s'.devs[i].begun == s.devs[i].begun
         && Live(s', i) == Live(s, i)
         && (s.devs[i].loc.Working? ==> s'.devs[i].loc.Working?)
  }

  lemma TimerRunFrame(s: State)
    requires TimerEnabled(s)
    ensures KeepsSlots(s, TimerRun(s))
  {
  }

  lemma DeviceRunFrame(s: State, j: nat)
    requires j < |s.devs| && DeviceEnabled(s, j)
    ensures KeepsSlots(s, DeviceRun(s, j))
  {
    var s' := DeviceRun(s, j);
    assert s'.devs == s.devs[j := s'.devs[j]] && s'.time == s.time;
  }

  /** The protocol never takes a device out of its slot and never counts a slot by itself. */
  lemma ProtocolFrame(s: State, a: Action)
    requires Enabled(s, a) && !a.CallNext? && !a.CallDetach?
    ensures KeepsSlots(s, Apply(s, a))
  {
    match a
    case TimerRuns => TimerRunFrame(s);
    case DeviceRuns(j) => DeviceRunFrame(s, j);
    case _ =>
  }

  /**
    Every slot ends.  Once every device that is not leaving has called next_slot, the protocol, whatever
    the interleaving, comes to rest, and when it rests the clock has moved by exactly one and every such
    device is back inside a slot; if all devices are leaving, the timer has exited instead.
  */
  lemma EverySlotEnds(n: nat, before: seq<Action>, s0: State, run: seq<Action>, s: State)
    requires Reaches(Init(n), before, s0) && AllArrived(s0)
    requires Reaches(s0, run, s) && AllInternal(run) && Quiescent(s)
    ensures |run| <= 40 * n + 15 && |s.devs| == |s0.devs| == n
    ensures AnyLive(s0) ==> s.time == s0.time + 1
    ensures forall i :: 0 <= i < n && Live(s0, i) ==> s.devs[i].loc.Working?
    ensures !AnyLive(s0) ==> AllDetached(s) && s.tloc.Exited?
  {
    InitInv(n);
    RunKeepsInv(Init(n), before, s0);
    RunKeepsInv(s0, run, s);
    InternalRunsAreShort(s0, run, s);
    InternalRunFrame(s0, run, s);
    QuiescentMeansDevicesWork(s);
    if w :| 0 <= w < |s.devs| && s.devs[w].loc.Working? {
      assert Live(s, w) && Live(s0, w) && DevInv(s, w);
      assert s.time == s0.time + 1;
      forall i | 0 <= i < n && Live(s0, i) ensures s.devs[i].loc.Working? {
        assert Live(s, i) && DevInv(s, i);
      }
    }
  }

  /** A state of rest is always reached: there is no livelock and no way to get stuck. */
  lemma {:induction false} ComesToRest(s: State) returns (run: seq<Action>, s': State)
    requires Inv(s)
    ensures Reaches(s, run, s') && AllInternal(run) && Quiescent(s')
    decreases Measure(s)
  {
    MeasureBound(s);
    if Quiescent(s) {
      run, s' := [], s;
    } else {
      var a;
      if TimerEnabled(s) {
        a := TimerRuns;
        TimerRunShrinksMeasure(s);
      } else {
        var i :| 0 <= i < |s.devs| && DeviceEnabled(s, i);
        a := DeviceRuns(i);
        DeviceRunShrinksMeasure(s, i);
      }
      StepKeepsInv(s, a);
      var rest;
      rest, s' := ComesToRest(Apply(s, a));
      run := [a] + rest;
      assert run[1..] == rest;
    }
  }

  // ----- what a thread built on the barrier can rely on

  /** Inside a slot the clock stands at the number of slots the device has begun. */
  lemma WorkingOnTime(s: State, i: nat)
    requires Inv(s) && i < |s.devs| && s.devs[i].loc.Working?
    ensures s.devs[i].begun == s.time
  {
    assert DevInv(s, i);
  }
}
