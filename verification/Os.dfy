/**
  The loader and CPU threads of src/os.c running over the scheduler and the time-slot barrier.

  Device 0 of the barrier is the loader, device c+1 is CPU c.  A worker thread moves only while its
  device is inside a slot; between two worker steps any thread and the protocol itself may move.
  Queue operations are atomic because the source performs them under queue_lock.  The log records what
  the threads do; `place` says where each process is; neither is read by a step.
*/
module Os {
  import B = Barrier
  import opened Common
  import opened Sched

  datatype Prog = Prog(prio: nat, priority: nat, size: nat)

  /** What read_config and load deliver. */
  datatype Config = Config(timeSlot: int, cpus: nat, start: seq<nat>, progs: seq<Prog>)

  ghost predicate ConfigOk(cfg: Config) {
    |cfg.start| == |cfg.progs| && forall p :: 0 <= p < |cfg.progs| ==> cfg.progs[p].prio < MAX_PRIO
  }

  datatype CpuLoc =
    | CTop      // top of the loop
    | CGet      // a process was freed or put back, about to call get_proc
    | CRecheck  // "recheck process status after loading new process"
    | CRun      // about to call run
    | CNext     // one instruction done, about to call next_slot
    | CIdle     // nothing to run, about to call next_slot
    | CStop     // nothing to run and the loader is done, about to detach
    | CGone

  datatype Cpu = Cpu(loc: CpuLoc, proc: Option<nat>, timeLeft: int)

  datatype LoaderLoc = LTest | LAdd | LNext | LFinish | LGone

  datatype Place = Unborn | Ready | OnCpu(c: nat) | Finished | Dropped

  datatype Event =
    | Admit(p: nat, slot: nat)
    | HandOver(c: nat, p: nat)  // get_proc returns the process
    | Dispatch(c: nat, p: nat)
    | Exec(c: nat, slot: nat, p: nat)
    | Requeue(c: nat, p: nat)
    | Finish(c: nat, p: nat)

  datatype State = State(
    bar: B.State, ld: LoaderLoc, i: nat, done: bool, cpus: seq<Cpu>,
    levels: Levels, pc: seq<nat>, place: seq<Place>, log: seq<Event>)

  function PcbOf(cfg: Config, p: nat): Pcb
    requires p < |cfg.progs|
  {
    Pcb(p, cfg.progs[p].prio, cfg.progs[p].priority)
  }

  function Init(cfg: Config): State {
    State(B.Init(cfg.cpus + 1), LTest, 0, false, seq(cfg.cpus, _ => Cpu(CTop, None, 0)),
          EmptyLevels(), seq(|cfg.progs|, _ => 0), seq(|cfg.progs|, _ => Unborn), [])
  }

  /** Fields have the shapes the configuration gives them. */
  ghost predicate Shape(cfg: Config, s: State) {
    && ConfigOk(cfg)
    && |s.bar.devs| == cfg.cpus + 1 && |s.cpus| == cfg.cpus
    && |s.pc| == |s.place| == |cfg.progs| && s.i <= |cfg.progs|
    && (s.ld.LAdd? ==> s.i < |cfg.progs|)
    && (forall c :: 0 <= c < |s.cpus| && s.cpus[c].proc.Some? ==> s.cpus[c].proc.value < |cfg.progs|)
    && (forall c :: 0 <= c < |s.cpus| && (s.cpus[c].loc.CRun? || s.cpus[c].loc.CNext?) ==> s.cpus[c].proc.Some?)
    && (forall l, x :: 0 <= l < MAX_PRIO && x in s.levels[l] ==> x.pid < |cfg.progs|)
  }

  // ----- steps

  /** The thread of device `d` is inside a slot. */
  predicate InSlot(s: State, d: nat) {
    d < |s.bar.devs| && s.bar.devs[d].loc.Working?
  }

  function CallNext(s: State, d: nat): State
    requires InSlot(s, d)
  {
    s.(bar := B.Apply(s.bar, B.CallNext(d)))
  }

  function CallDetach(s: State, d: nat): State
    requires InSlot(s, d)
  {
    s.(bar := B.Apply(s.bar, B.CallDetach(d)))
  }

  predicate LoaderEnabled(s: State) { InSlot(s, 0) && !s.ld.LGone? }

  /** put_proc or add_proc of process `p`, and where that leaves it. */
  ghost function Enlist(cfg: Config, s: State, p: nat): State
    requires Shape(cfg, s) && p < |cfg.progs|
  {
    var x := PcbOf(cfg, p);
    var full := |s.levels[x.prio]| >= MAX_QUEUE_SIZE;
    s.(levels := Put(s.levels, x), place := s.place[p := if full then Dropped else Ready])
  }

  ghost function LoaderRun(cfg: Config, s: State): State
    requires Shape(cfg, s) && LoaderEnabled(s)
  {
    match s.ld
    case LTest =>
      if s.i == |cfg.progs| then s.(ld := LFinish, done := true)
      else if s.bar.time < cfg.start[s.i] then CallNext(s, 0)
      else s.(ld := LAdd)
    case LAdd =>
      Enlist(cfg, s, s.i).(log := s.log + [Admit(s.i, s.bar.time)], i := s.i + 1, ld := LNext)
    case LNext => CallNext(s, 0).(ld := LTest)
    case LFinish => CallDetach(s, 0).(ld := LGone)
  }

  predicate CpuEnabled(s: State, c: nat) {
    c < |s.cpus| && InSlot(s, c + 1) && !s.cpus[c].loc.CGone?
  }

  /** The CPU is going to call get_proc in its next step. */
  predicate AboutToFetch(u: Cpu) { u.loc.CGet? || (u.loc.CTop? && u.proc.None?) }

  function SetCpu(s: State, c: nat, u: Cpu): State
    requires c < |s.cpus|
  {
    s.(cpus := s.cpus[c := u])
  }

  /** get_proc on behalf of CPU `c`, which goes on at `found` or `missing`. */
  ghost function Fetch(cfg: Config, s: State, c: nat, found: CpuLoc, missing: CpuLoc): State
    requires Shape(cfg, s) && c < |s.cpus|
  {
    match Get(s.levels).1
    case None => SetCpu(s, c, s.cpus[c].(loc := missing))
    case Some(x) =>
      if x.pid < |s.place| then
        SetCpu(s, c, s.cpus[c].(loc := found, proc := Some(x.pid))).(
        levels := Get(s.levels).0, place := s.place[x.pid := OnCpu(c)], log := s.log + [HandOver(c, x.pid)])
      else s
  }

  /** The process of CPU `c` has reached the end of its code and is freed. */
  ghost function Retire(s: State, c: nat, p: nat): State
    requires c < |s.cpus| && p < |s.place|
  {
    SetCpu(s, c, Cpu(CGet, None, 0)).(place := s.place[p := Finished], log := s.log + [Finish(c, p)])
  }

  /** The quantum of CPU `c` is used up and its process goes back to the ready queues. */
  ghost function PutBack(cfg: Config, s: State, c: nat, p: nat): State
    requires Shape(cfg, s) && c < |s.cpus| && p < |s.place|
  {
    SetCpu(Enlist(cfg, s, p), c, Cpu(CGet, None, 0)).(log := s.log + [Requeue(c, p)])
  }

  ghost function StartQuantum(cfg: Config, s: State, c: nat, p: nat): State
    requires c < |s.cpus|
  {
    SetCpu(s, c, s.cpus[c].(loc := CRun, timeLeft := cfg.timeSlot)).(log := s.log + [Dispatch(c, p)])
  }

  /** run on a process that has an instruction left. */
  ghost function Execute(s: State, c: nat, p: nat): State
    requires c < |s.cpus| && p < |s.pc|
  {
    SetCpu(s, c, s.cpus[c].(loc := CNext, timeLeft := s.cpus[c].timeLeft - 1)).(
    pc := s.pc[p := s.pc[p] + 1], log := s.log + [Exec(c, s.bar.time, p)])
  }

  ghost function CpuRun(cfg: Config, s: State, c: nat): State
    requires Shape(cfg, s) && CpuEnabled(s, c)
  {
    var u := s.cpus[c];
    match u.loc
    case CTop =>
      (match u.proc
       case None => Fetch(cfg, s, c, CRecheck, CIdle)
       case Some(p) =>
         if s.pc[p] == cfg.progs[p].size then Retire(s, c, p)
         else if u.timeLeft == 0 then PutBack(cfg, s, c, p)
         else SetCpu(s, c, u.(loc := CRecheck)))
    case CGet => Fetch(cfg, s, c, CRecheck, CRecheck)
    case CRecheck =>
      (match u.proc
       case None => SetCpu(s, c, u.(loc := if s.done then CStop else CIdle))
       case Some(p) =>
         if u.timeLeft == 0 then StartQuantum(cfg, s, c, p) else SetCpu(s, c, u.(loc := CRun)))
    case CRun =>
      var p := u.proc.value;
      if s.pc[p] < cfg.progs[p].size then Execute(s, c, p)
      else SetCpu(s, c, u.(loc := CNext, timeLeft := u.timeLeft - 1))
    case CNext => CallNext(SetCpu(s, c, u.(loc := CTop)), c + 1)
    case CIdle => CallNext(SetCpu(s, c, u.(loc := CTop)), c + 1)
    case CStop => CallDetach(SetCpu(s, c, u.(loc := CGone)), c + 1)
  }

  datatype Action =
    | Protocol(a: B.Action)  // the timer, or a device inside next_slot or detach_event
    | LoaderRuns
    | CpuRuns(c: nat)

  predicate Enabled(s: State, a: Action) {
    match a
    case Protocol(b) => !b.CallNext? && !b.CallDetach? && B.Enabled(s.bar, b)
    case LoaderRuns => LoaderEnabled(s)
    case CpuRuns(c) => CpuEnabled(s, c)
  }

  ghost function Apply(cfg: Config, s: State, a: Action): State
    requires Shape(cfg, s) && Enabled(s, a)
  {
    match a
    case Protocol(b) => s.(bar := B.Apply(s.bar, b))
    case LoaderRuns => LoaderRun(cfg, s)
    case CpuRuns(c) => CpuRun(cfg, s, c)
  }

  ghost predicate Reaches(cfg: Config, s0: State, run: seq<Action>, s: State)
    decreases |run|
  {
    if run == [] then s0 == s
    else Shape(cfg, s0) && Enabled(s0, run[0]) && Reaches(cfg, Apply(cfg, s0, run[0]), run[1..], s)
  }

  // ----- what the log has to satisfy

  /** The slot in which process `p` is admitted. */
  function AdmissionSlot(start: seq<nat>, p: nat): nat
    requires p < |start|
  {
    if p == 0 then start[0] else Max(start[p], AdmissionSlot(start, p - 1) + 1)
  }

  function Max(a: nat, b: nat): nat { if a < b then b else a }

  function Admitted(log: seq<Event>): nat {
    if log == [] then 0
    else Admitted(log[..|log| - 1]) + (if log[|log| - 1].Admit? then 1 else 0)
  }

  /** Instructions executed by CPU `c` since its last dispatch. */
  function SinceDispatch(log: seq<Event>, c: nat): nat {
    if log == [] then 0
    else match log[|log| - 1]
      case Dispatch(d, _) => if d == c then 0 else SinceDispatch(log[..|log| - 1], c)
      case Exec(d, _, _) => SinceDispatch(log[..|log| - 1], c) + (if d == c then 1 else 0)
      case _ => SinceDispatch(log[..|log| - 1], c)
  }

  /** The process CPU `c` has been dispatched on and has neither put back nor finished. */
  function OnDuty(log: seq<Event>, c: nat): Option<nat> {
    if log == [] then None
    else match log[|log| - 1]
      case Dispatch(d, p) => if d == c then Some(p) else OnDuty(log[..|log| - 1], c)
      case Requeue(d, _) => if d == c then None else OnDuty(log[..|log| - 1], c)
      case Finish(d, _) => if d == c then None else OnDuty(log[..|log| - 1], c)
      case _ => OnDuty(log[..|log| - 1], c)
  }

  /** Instructions of process `p` executed so far. */
  function Executed(log: seq<Event>, p: nat): nat {
    if log == [] then 0
    else Executed(log[..|log| - 1], p) + (if log[|log| - 1].Exec? && log[|log| - 1].p == p then 1 else 0)
  }

  predicate HasFinished(log: seq<Event>, p: nat) {
    exists k :: 0 <= k < |log| && log[k].Finish? && log[k].p == p
  }

  /** What an event has to satisfy after the history `pre`. */
  ghost predicate EventOk(cfg: Config, pre: seq<Event>, e: Event) {
    match e
    case Admit(p, t) =>
      |cfg.start| == |cfg.progs| && p == Admitted(pre) && p < |cfg.start| && t == AdmissionSlot(cfg.start, p)
    case HandOver(c, p) => OnDuty(pre, c) == None && !HasFinished(pre, p)
    case Dispatch(c, p) => OnDuty(pre, c) == None && !HasFinished(pre, p)
    case Exec(c, t, p) =>
      && OnDuty(pre, c) == Some(p) && !HasFinished(pre, p)
      && (cfg.timeSlot >= 1 ==> SinceDispatch(pre, c) < cfg.timeSlot)
      && (forall k :: 0 <= k < |pre| && pre[k].Exec? && (pre[k].c == c || pre[k].p == p) ==> pre[k].slot < t)
    case Requeue(c, p) =>
      && OnDuty(pre, c) == Some(p) && !HasFinished(pre, p)
      && SinceDispatch(pre, c) == cfg.timeSlot && cfg.timeSlot >= 1
      && p < |cfg.progs| && Executed(pre, p) < cfg.progs[p].size
    case Finish(c, p) =>
      && OnDuty(pre, c) == Some(p) && !HasFinished(pre, p)
      && p < |cfg.progs| && Executed(pre, p) == cfg.progs[p].size
  }

  ghost predicate LogOk(cfg: Config, log: seq<Event>) {
    forall k :: 0 <= k < |log| ==> EventOk(cfg, log[..k], log[k])
  }

  lemma LogExtend(cfg: Config, log: seq<Event>, e: Event)
    requires LogOk(cfg, log) && EventOk(cfg, log, e)
    ensures LogOk(cfg, log + [e])
  {
    forall k | 0 <= k < |log + [e]| ensures EventOk(cfg, (log + [e])[..k], (log + [e])[k]) {
      if k < |log| {
        assert (log + [e])[..k] == log[..k];
      } else {
        assert (log + [e])[..k] == log;
      }
    }
  }

  /** How the counters over the log move when an event is appended. */
  lemma LogCounts(log: seq<Event>, e: Event, c: nat, p: nat)
    ensures Admitted(log + [e]) == Admitted(log) + (if e.Admit? then 1 else 0)
    ensures Executed(log + [e], p) == Executed(log, p) + (if e.Exec? && e.p == p then 1 else 0)
    ensures SinceDispatch(log + [e], c) ==
            if e.Dispatch? && e.c == c then 0
            else SinceDispatch(log, c) + (if e.Exec? && e.c == c then 1 else 0)
    ensures OnDuty(log + [e], c) ==
            if e.Dispatch? && e.c == c then Some(e.p)
            else if (e.Requeue? || e.Finish?) && e.c == c then None
            else OnDuty(log, c)
    ensures HasFinished(log + [e], p) <==> HasFinished(log, p) || (e.Finish? && e.p == p)
  {
    assert (log + [e])[..|log|] == log;
    if HasFinished(log, p) {
      var k :| 0 <= k < |log| && log[k].Finish? && log[k].p == p;
      assert (log + [e])[k] == log[k];
    }
    if e.Finish? && e.p == p {
      assert (log + [e])[|log|] == e;
    }
  }

  // ----- the invariant

  function Begun(s: State, d: nat): nat
    requires d < |s.bar.devs|
  {
    s.bar.devs[d].begun
  }

  /** The earliest slot the loader can be in while process `p` is the next to admit. */
  function EarliestSlot(start: seq<nat>, p: nat): nat
    requires p <= |start|
  {
    if p == 0 then 0 else AdmissionSlot(start, p - 1) + 1
  }

  ghost predicate LoaderInv(cfg: Config, s: State)
    requires Shape(cfg, s)
  {
    && Admitted(s.log) == s.i
    && match s.ld
       case LTest =>
         s.i < |cfg.progs| ==> EarliestSlot(cfg.start, s.i) <= Begun(s, 0) <= AdmissionSlot(cfg.start, s.i)
       case LAdd => Begun(s, 0) == AdmissionSlot(cfg.start, s.i)
       case LNext => s.i > 0 && Begun(s, 0) == AdmissionSlot(cfg.start, s.i - 1)
       case LFinish => s.i == |cfg.progs|
       case LGone => s.i == |cfg.progs|
  }

  /** Every queued block is the block of a ready process, on its own level, once. */
  ghost predicate QueueInv(cfg: Config, s: State)
    requires Shape(cfg, s)
  {
    && (forall l :: 0 <= l < MAX_PRIO ==> NoDuplicates(s.levels[l]))
    && (forall l, x :: 0 <= l < MAX_PRIO && x in s.levels[l] ==>
          x == PcbOf(cfg, x.pid) && x.prio == l && s.place[x.pid].Ready?)
    && (forall p :: 0 <= p < |s.place| && s.place[p].Ready? ==>
          PcbOf(cfg, p) in s.levels[cfg.progs[p].prio])
  }

  ghost predicate PlaceInv(cfg: Config, s: State)
    requires Shape(cfg, s)
  {
    && (forall p :: 0 <= p < |s.place| ==> (s.place[p].Unborn? <==> p >= s.i))
    && (forall c :: 0 <= c < |s.cpus| && s.cpus[c].proc.Some? ==> s.place[s.cpus[c].proc.value] == OnCpu(c))
    && (forall p :: 0 <= p < |s.place| && s.place[p].OnCpu? ==>
          s.place[p].c < |s.cpus| && s.cpus[s.place[p].c].proc == Some(p))
  }

  ghost predicate CpuInv(cfg: Config, s: State, c: nat)
    requires Shape(cfg, s) && c < |s.cpus|
  {
    var u := s.cpus[c];
    && (u.proc.None? ==> u.timeLeft == 0)
    && (cfg.timeSlot >= 1 ==> u.timeLeft >= 0 && (u.loc.CRun? ==> u.timeLeft > 0))
    && (cfg.timeSlot < 1 && u.proc.Some? ==> u.timeLeft <= 0 && (u.loc.CTop? || u.loc.CNext? ==> u.timeLeft < 0))
    && OnDuty(s.log, c) == (if u.loc.CRecheck? && u.timeLeft == 0 then None else u.proc)
    && (u.loc.CGet? || u.loc.CIdle? || u.loc.CStop? || u.loc.CGone? ==> u.proc.None?)
    && (u.proc.Some? ==>
          var p := u.proc.value;
          && (u.loc.CRecheck? || u.loc.CRun? ==> s.pc[p] < cfg.progs[p].size || cfg.progs[p].size == 0)
          && (cfg.progs[p].size > 0 && (u.loc.CRecheck? ==> u.timeLeft != 0) ==>
                SinceDispatch(s.log, c) + u.timeLeft == cfg.timeSlot))
  }

  ghost predicate ProcInv(cfg: Config, s: State, p: nat)
    requires Shape(cfg, s) && p < |s.pc|
  {
    && s.pc[p] <= cfg.progs[p].size
    && Executed(s.log, p) == s.pc[p]
    && (HasFinished(s.log, p) <==> s.place[p].Finished?)
    && (s.place[p].Unborn? ==> s.pc[p] == 0)
    && (s.place[p].Ready? ==> s.pc[p] < cfg.progs[p].size || cfg.progs[p].size == 0)
    && (s.place[p].Finished? ==> s.pc[p] == cfg.progs[p].size)
  }

  /** CPU `c` has executed in slot `t` and may be about to leave that slot. */
  predicate Behind(s: State, c: nat, t: nat)
    requires c < |s.cpus| && c + 1 < |s.bar.devs|
  {
    t < Begun(s, c + 1) || (t == Begun(s, c + 1) && s.cpus[c].loc.CNext?)
  }

  /** An instruction in the log lies behind its CPU, its process and the clock. */
  ghost predicate ExecOk(cfg: Config, s: State, e: Event)
    requires Shape(cfg, s)
  {
    e.Exec? ==>
      && e.c < |s.cpus| && e.p < |s.place|
      && e.slot <= s.bar.time
      && Behind(s, e.c, e.slot)
      && !s.place[e.p].Unborn?
      && (s.place[e.p].Ready? ==> e.slot < s.bar.time)
      && (s.place[e.p].OnCpu? ==> s.place[e.p].c < |s.cpus| && Behind(s, s.place[e.p].c, e.slot))
  }

  ghost predicate SlotInv(cfg: Config, s: State)
    requires Shape(cfg, s)
  {
    forall k :: 0 <= k < |s.log| ==> ExecOk(cfg, s, s.log[k])
  }

  /** Where the loader and the processes are. */
  ghost predicate Whereabouts(cfg: Config, s: State) {
    Shape(cfg, s) && LoaderInv(cfg, s) && QueueInv(cfg, s) && PlaceInv(cfg, s)
  }

  /** What the log says about them. */
  ghost predicate History(cfg: Config, s: State)
    requires Shape(cfg, s)
  {
    && (forall c :: 0 <= c < |s.cpus| ==> CpuInv(cfg, s, c))
    && (forall p :: 0 <= p < |s.pc| ==> ProcInv(cfg, s, p))
    && SlotInv(cfg, s)
    && LogOk(cfg, s.log)
  }

  /** Everything but the invariant of the barrier itself. */
  ghost predicate Core(cfg: Config, s: State) {
    Whereabouts(cfg, s) && History(cfg, s)
  }

  ghost predicate Inv(cfg: Config, s: State) {
    B.Inv(s.bar) && Core(cfg, s)
  }

  lemma {:induction false} InitInv(cfg: Config)
    requires ConfigOk(cfg)
    ensures Inv(cfg, Init(cfg))
  {
    B.InitInv(cfg.cpus + 1);
  }

  lemma ProtocolKeepsInv(cfg: Config, s: State, b: B.Action)
    requires Inv(cfg, s) && !b.CallNext? && !b.CallDetach? && B.Enabled(s.bar, b)
    ensures Inv(cfg, s.(bar := B.Apply(s.bar, b)))
  {
    B.StepKeepsInv(s.bar, b);
    B.ProtocolFrame(s.bar, b);
    ClockKeepsCore(cfg, s, B.Apply(s.bar, b));
  }

  /** The clock may advance as long as no slot is counted. */
  lemma ClockKeepsCore(cfg: Config, s: State, b: B.State)
    requires Core(cfg, s) && |b.devs| == |s.bar.devs| && s.bar.time <= b.time
    requires forall d :: 0 <= d < |b.devs| ==> b.devs[d].begun == s.bar.devs[d].begun
    ensures Core(cfg, s.(bar := b))
  {
    var s' := s.(bar := b);
    forall c | 0 <= c < |s.cpus| ensures CpuInv(cfg, s', c) { assert CpuInv(cfg, s, c); }
    forall p | 0 <= p < |s.pc| ensures ProcInv(cfg, s', p) { assert ProcInv(cfg, s, p); }
    forall k | 0 <= k < |s.log| ensures ExecOk(cfg, s', s.log[k]) { assert ExecOk(cfg, s, s.log[k]); }
  }

  // ----- steps that touch only the barrier and the control state of one thread

  /** A worker's call moves no other device and leaves the clock alone. */
  lemma CallFrame(b: B.State, a: B.Action, d: nat)
    requires a == B.CallNext(d) || a == B.CallDetach(d)
    requires B.Enabled(b, a)
    ensures var b' := B.Apply(b, a);
            && |b'.devs| == |b.devs| && b'.time == b.time
            && b'.devs[d].begun == b.devs[d].begun + (if a.CallNext? then 1 else 0)
            && forall i :: 0 <= i < |b.devs| && i != d ==> b'.devs[i].begun == b.devs[i].begun
  {
  }

  /** The barrier after a step of the thread of device `d`, which may have called into it. */
  ghost predicate BarMoves(b: B.State, b': B.State, d: nat) {
    && |b'.devs| == |b.devs| && b'.time == b.time && d < |b.devs|
    && b.devs[d].begun <= b'.devs[d].begun
    && forall i :: 0 <= i < |b.devs| && i != d ==> b'.devs[i].begun == b.devs[i].begun
  }

  lemma CallMovesBar(b: B.State, a: B.Action, d: nat)
    requires B.Inv(b) && (a == B.CallNext(d) || a == B.CallDetach(d)) && B.Enabled(b, a)
    ensures B.Inv(B.Apply(b, a)) && BarMoves(b, B.Apply(b, a), d)
    ensures a.CallNext? ==> B.Apply(b, a).devs[d].begun == b.devs[d].begun + 1
  {
    B.StepKeepsInv(b, a);
    CallFrame(b, a, d);
  }

  lemma LoaderControl(cfg: Config, s: State, s': State)
    requires Core(cfg, s)
    requires s' == s.(bar := s'.bar, ld := s'.ld, done := s'.done)
    requires BarMoves(s.bar, s'.bar, 0) && Shape(cfg, s') && LoaderInv(cfg, s')
    ensures Core(cfg, s')
  {
    forall c | 0 <= c < |s.cpus| ensures CpuInv(cfg, s', c) { assert CpuInv(cfg, s, c); }
    forall p | 0 <= p < |s.pc| ensures ProcInv(cfg, s', p) { assert ProcInv(cfg, s, p); }
    forall k | 0 <= k < |s.log| ensures ExecOk(cfg, s', s.log[k]) { assert ExecOk(cfg, s, s.log[k]); }
  }

  /** A step of CPU `c` that keeps its process, writes nothing and touches no queue. */
  ghost predicate ControlStep(s: State, s': State, c: nat) {
    && c < |s.cpus| && |s'.cpus| == |s.cpus|
    && s' == s.(bar := s'.bar, cpus := s.cpus[c := s'.cpus[c]])
    && s'.cpus[c].proc == s.cpus[c].proc
    && BarMoves(s.bar, s'.bar, c + 1)
    && (s.cpus[c].loc.CNext? ==> s'.bar.devs[c + 1].begun > s.bar.devs[c + 1].begun)
  }

  lemma ControlWhereabouts(cfg: Config, s: State, s': State, c: nat)
    requires Whereabouts(cfg, s) && ControlStep(s, s', c) && Shape(cfg, s')
    ensures Whereabouts(cfg, s')
  {
  }

  lemma BehindStays(s: State, s': State, c: nat, d: nat, t: nat)
    requires ControlStep(s, s', c) && |s.bar.devs| == |s.cpus| + 1 && d < |s.cpus| && Behind(s, d, t)
    ensures Behind(s', d, t)
  {
    if d != c { assert s'.cpus[d] == s.cpus[d]; }
  }

  lemma ControlSlots(cfg: Config, s: State, s': State, c: nat)
    requires Shape(cfg, s) && SlotInv(cfg, s) && ControlStep(s, s', c) && Shape(cfg, s')
    ensures SlotInv(cfg, s')
  {
    forall k | 0 <= k < |s.log| && s.log[k].Exec? ensures ExecOk(cfg, s', s.log[k]) {
      var e := s.log[k];
      assert ExecOk(cfg, s, e);
      BehindStays(s, s', c, e.c, e.slot);
      if s.place[e.p].OnCpu? { BehindStays(s, s', c, s.place[e.p].c, e.slot); }
    }
  }

  lemma ControlHistory(cfg: Config, s: State, s': State, c: nat)
    requires Shape(cfg, s) && History(cfg, s) && ControlStep(s, s', c) && Shape(cfg, s')
    requires CpuInv(cfg, s', c)
    ensures History(cfg, s')
  {
    ControlSlots(cfg, s, s', c);
    forall d | 0 <= d < |s.cpus| ensures CpuInv(cfg, s', d) { assert CpuInv(cfg, s, d); }
    forall p | 0 <= p < |s.pc| ensures ProcInv(cfg, s', p) { assert ProcInv(cfg, s, p); }
  }

  lemma CpuControl(cfg: Config, s: State, s': State, c: nat)
    requires Core(cfg, s) && ControlStep(s, s', c) && Shape(cfg, s') && CpuInv(cfg, s', c)
    ensures Core(cfg, s')
  {
    ControlWhereabouts(cfg, s, s', c);
    ControlHistory(cfg, s, s', c);
  }

  /** The loader waits for its next process and never oversleeps its admission slot. */
  lemma LoaderWaits(cfg: Config, s: State)
    requires Core(cfg, s) && InSlot(s, 0) && Begun(s, 0) == s.bar.time
    requires s.ld.LTest? && s.i < |cfg.progs|
    ensures s.bar.time >= cfg.start[s.i] ==> Begun(s, 0) == AdmissionSlot(cfg.start, s.i)
    ensures s.bar.time < cfg.start[s.i] ==> Begun(s, 0) < AdmissionSlot(cfg.start, s.i)
  {
  }

  lemma LoaderControlStep(cfg: Config, s: State)
    requires Inv(cfg, s) && LoaderEnabled(s) && !s.ld.LAdd?
    ensures Inv(cfg, LoaderRun(cfg, s))
  {
    match s.ld
    case LTest => LoaderTestStep(cfg, s);
    case LNext => LoaderNextStep(cfg, s);
    case LFinish => LoaderDetachStep(cfg, s);
  }

  /** The loader compares the clock with the start of its next process. */
  lemma LoaderTestStep(cfg: Config, s: State)
    requires Inv(cfg, s) && LoaderEnabled(s) && s.ld.LTest?
    ensures Inv(cfg, LoaderRun(cfg, s))
  {
    var s' := LoaderRun(cfg, s);
    B.WorkingOnTime(s.bar, 0);
    if s.i < |cfg.progs| {
      LoaderWaits(cfg, s);
      if s.bar.time < cfg.start[s.i] { CallMovesBar(s.bar, B.CallNext(0), 0); }
    }
    LoaderControl(cfg, s, s');
  }

  /** The loader's call into the barrier after an admission. */
  lemma LoaderNextStep(cfg: Config, s: State)
    requires Inv(cfg, s) && LoaderEnabled(s) && s.ld.LNext?
    ensures Inv(cfg, LoaderRun(cfg, s))
  {
    B.WorkingOnTime(s.bar, 0);
    CallMovesBar(s.bar, B.CallNext(0), 0);
    LoaderControl(cfg, s, LoaderRun(cfg, s));
  }

  /** The loader leaves. */
  lemma LoaderDetachStep(cfg: Config, s: State)
    requires Inv(cfg, s) && LoaderEnabled(s) && s.ld.LFinish?
    ensures Inv(cfg, LoaderRun(cfg, s))
  {
    CallMovesBar(s.bar, B.CallDetach(0), 0);
    LoaderControl(cfg, s, LoaderRun(cfg, s));
  }

  /** The calls into the barrier at the end of a round of the CPU loop. */
  lemma CpuCallStep(cfg: Config, s: State, c: nat)
    requires Inv(cfg, s) && CpuEnabled(s, c)
    requires s.cpus[c].loc.CNext? || s.cpus[c].loc.CIdle? || s.cpus[c].loc.CStop?
    ensures Inv(cfg, CpuRun(cfg, s, c))
  {
    if s.cpus[c].loc.CStop? { CpuDetachStep(cfg, s, c); } else { CpuNextStep(cfg, s, c); }
  }

  lemma CpuNextStep(cfg: Config, s: State, c: nat)
    requires Inv(cfg, s) && CpuEnabled(s, c) && (s.cpus[c].loc.CNext? || s.cpus[c].loc.CIdle?)
    ensures Inv(cfg, CpuRun(cfg, s, c))
  {
    CallMovesBar(s.bar, B.CallNext(c + 1), c + 1);
    assert CpuInv(cfg, s, c);
    CpuControl(cfg, s, CpuRun(cfg, s, c), c);
  }

  lemma CpuDetachStep(cfg: Config, s: State, c: nat)
    requires Inv(cfg, s) && CpuEnabled(s, c) && s.cpus[c].loc.CStop?
    ensures Inv(cfg, CpuRun(cfg, s, c))
  {
    CallMovesBar(s.bar, B.CallDetach(c + 1), c + 1);
    assert CpuInv(cfg, s, c);
    CpuControl(cfg, s, CpuRun(cfg, s, c), c);
  }

  /** Steps of a CPU that only move its location and its time left. */
  lemma CpuLocal(cfg: Config, s: State, c: nat, u': Cpu)
    requires Core(cfg, s) && c < |s.cpus| && u'.proc == s.cpus[c].proc
    requires !s.cpus[c].loc.CNext? && c + 1 < |s.bar.devs|
    requires Shape(cfg, SetCpu(s, c, u')) && CpuInv(cfg, SetCpu(s, c, u'), c)
    ensures Core(cfg, SetCpu(s, c, u'))
  {
    CpuControl(cfg, s, SetCpu(s, c, u'), c);
  }

  // ----- steps that write to the log

  lemma CpusAfterEvent(cfg: Config, s: State, s': State, c: nat, e: Event)
    requires Shape(cfg, s) && Shape(cfg, s') && c < |s.cpus| && |s'.cpus| == |s.cpus|
    requires s'.cpus == s.cpus[c := s'.cpus[c]] && s'.log == s.log + [e] && !e.Admit? && e.c == c
    requires forall d :: 0 <= d < |s.cpus| ==> CpuInv(cfg, s, d)
    requires forall d :: 0 <= d < |s.cpus| && d != c && s.cpus[d].proc.Some? ==>
               s'.pc[s.cpus[d].proc.value] == s.pc[s.cpus[d].proc.value]
    requires CpuInv(cfg, s', c)
    ensures forall d :: 0 <= d < |s'.cpus| ==> CpuInv(cfg, s', d)
  {
    forall d | 0 <= d < |s.cpus| ensures CpuInv(cfg, s', d) {
      assert CpuInv(cfg, s, d);
      LogCounts(s.log, e, d, 0);
    }
  }

  lemma ProcsAfterEvent(cfg: Config, s: State, s': State, p: nat, e: Event)
    requires Shape(cfg, s) && Shape(cfg, s') && p < |s.pc| && s'.log == s.log + [e]
    requires e.Exec? || e.Finish? ==> e.p == p
    requires forall q :: 0 <= q < |s.pc| && q != p ==> s'.pc[q] == s.pc[q] && s'.place[q] == s.place[q]
    requires forall q :: 0 <= q < |s.pc| ==> ProcInv(cfg, s, q)
    requires ProcInv(cfg, s', p)
    ensures forall q :: 0 <= q < |s'.pc| ==> ProcInv(cfg, s', q)
  {
    forall q | 0 <= q < |s.pc| ensures ProcInv(cfg, s', q) {
      assert ProcInv(cfg, s, q);
      LogCounts(s.log, e, 0, q);
    }
  }

  lemma ExecsAfterEvent(cfg: Config, s: State, s': State, c: nat, e: Event)
    requires Shape(cfg, s) && Shape(cfg, s') && SlotInv(cfg, s) && c < |s.cpus|
    requires s'.bar == s.bar && s'.log == s.log + [e] && ExecOk(cfg, s', e)
    requires !s.cpus[c].loc.CNext? && s'.cpus == s.cpus[c := s'.cpus[c]]
    requires forall k :: 0 <= k < |s.log| && s.log[k].Exec? && s.log[k].p < |s.place| ==>
               var q := s'.place[s.log[k].p];
               q == s.place[s.log[k].p] || q.Finished? || q.Dropped? || (q.Ready? && s.log[k].slot < s.bar.time)
    ensures SlotInv(cfg, s')
  {
    forall k | 0 <= k < |s'.log| ensures ExecOk(cfg, s', s'.log[k]) {
      if k < |s.log| { assert ExecOk(cfg, s, s.log[k]); }
    }
  }

  lemma DispatchWhereabouts(cfg: Config, s: State, c: nat)
    requires Whereabouts(cfg, s) && c < |s.cpus| && s.cpus[c].proc.Some?
    ensures Whereabouts(cfg, StartQuantum(cfg, s, c, s.cpus[c].proc.value))
  {
    LogCounts(s.log, Dispatch(c, s.cpus[c].proc.value), 0, 0);
  }

  lemma DispatchHistory(cfg: Config, s: State, s': State, c: nat, p: nat)
    requires Whereabouts(cfg, s) && History(cfg, s) && c < |s.cpus| && Shape(cfg, s')
    requires s.cpus[c].loc.CRecheck? && s.cpus[c].proc == Some(p) && s.cpus[c].timeLeft == 0
    requires s' == StartQuantum(cfg, s, c, p)
    ensures History(cfg, s')
  {
    var e := Dispatch(c, p);
    assert ProcInv(cfg, s, p) && CpuInv(cfg, s, c);
    LogCounts(s.log, e, c, p);
    LogExtend(cfg, s.log, e);
    CpusAfterEvent(cfg, s, s', c, e);
    ProcsAfterEvent(cfg, s, s', p, e);
    ExecsAfterEvent(cfg, s, s', c, e);
  }

  /** Every instruction logged for this CPU or for its process lies in an earlier slot. */
  ghost predicate SlotsBehind(s: State, c: nat)
    requires c < |s.cpus|
  {
    forall k :: 0 <= k < |s.log| && s.log[k].Exec? ==>
      s.log[k].c == c || Some(s.log[k].p) == s.cpus[c].proc ==> s.log[k].slot < s.bar.time
  }

  lemma EarlierSlots(cfg: Config, s: State, c: nat)
    requires Inv(cfg, s) && CpuEnabled(s, c) && !s.cpus[c].loc.CNext?
    ensures Begun(s, c + 1) == s.bar.time && SlotsBehind(s, c)
  {
    B.WorkingOnTime(s.bar, c + 1);
    forall k | 0 <= k < |s.log| && s.log[k].Exec?
      ensures s.log[k].c == c || Some(s.log[k].p) == s.cpus[c].proc ==> s.log[k].slot < s.bar.time
    {
      assert ExecOk(cfg, s, s.log[k]);
    }
  }

  lemma ExecWhereabouts(cfg: Config, s: State, c: nat)
    requires Whereabouts(cfg, s) && c < |s.cpus| && s.cpus[c].proc.Some?
    ensures Whereabouts(cfg, Execute(s, c, s.cpus[c].proc.value))
  {
    LogCounts(s.log, Exec(c, s.bar.time, s.cpus[c].proc.value), 0, 0);
  }

  lemma ExecHistory(cfg: Config, s: State, s': State, c: nat, p: nat)
    requires Whereabouts(cfg, s) && History(cfg, s) && c < |s.cpus| && Shape(cfg, s')
    requires s.cpus[c].loc.CRun? && s.cpus[c].proc == Some(p) && s.pc[p] < cfg.progs[p].size
    requires c + 1 < |s.bar.devs| && Begun(s, c + 1) == s.bar.time && SlotsBehind(s, c)
    requires s' == Execute(s, c, p)
    ensures History(cfg, s')
  {
    var e := Exec(c, s.bar.time, p);
    assert s.place[p] == OnCpu(c) && ProcInv(cfg, s, p) && CpuInv(cfg, s, c);
    LogCounts(s.log, e, c, p);
    assert EventOk(cfg, s.log, e);
    LogExtend(cfg, s.log, e);
    CpusAfterEvent(cfg, s, s', c, e);
    ProcsAfterEvent(cfg, s, s', p, e);
    ExecsAfterEvent(cfg, s, s', c, e);
  }

  lemma RetireWhereabouts(cfg: Config, s: State, c: nat)
    requires Whereabouts(cfg, s) && c < |s.cpus| && s.cpus[c].proc.Some?
    ensures Whereabouts(cfg, Retire(s, c, s.cpus[c].proc.value))
  {
    var p := s.cpus[c].proc.value;
    assert s.place[p] == OnCpu(c);
    LogCounts(s.log, Finish(c, p), 0, 0);
  }

  lemma RetireHistory(cfg: Config, s: State, s': State, c: nat, p: nat)
    requires Whereabouts(cfg, s) && History(cfg, s) && c < |s.cpus| && Shape(cfg, s')
    requires s.cpus[c].loc.CTop? && s.cpus[c].proc == Some(p) && s.pc[p] == cfg.progs[p].size
    requires s' == Retire(s, c, p)
    ensures History(cfg, s')
  {
    var e := Finish(c, p);
    assert s.place[p] == OnCpu(c) && ProcInv(cfg, s, p) && CpuInv(cfg, s, c);
    LogCounts(s.log, e, c, p);
    LogExtend(cfg, s.log, e);
    CpusAfterEvent(cfg, s, s', c, e);
    ProcsAfterEvent(cfg, s, s', p, e);
    ExecsAfterEvent(cfg, s, s', c, e);
  }

  // ----- steps that touch the ready queues

  /** get_proc removes one block and nothing else. */
  lemma GetTakesOne(ls: Levels)
    requires forall l :: 0 <= l < MAX_PRIO ==> NoDuplicates(ls[l])
    ensures Get(ls).1.None? ==> Get(ls).0 == ls
    ensures Get(ls).1.Some? ==>
              exists l :: 0 <= l < MAX_PRIO && Get(ls).1.value in ls[l] && TakenFrom(ls, Get(ls).0, l, Get(ls).1.value)
  {
    var l := FirstLevel(ls, 0);
    if l < MAX_PRIO {
      var q, j := ls[l], Highest(ls[l]);
      RemoveKeepsTheRest(q, j);
      assert TakenFrom(ls, Get(ls).0, l, q[j]);
    }
  }

  ghost predicate TakenFrom(ls: Levels, ls': Levels, l: nat, x: Pcb)
    requires l < MAX_PRIO
  {
    && (forall k :: 0 <= k < MAX_PRIO && k != l ==> ls'[k] == ls[k])
    && NoDuplicates(ls'[l])
    && (forall y :: y in ls'[l] <==> y in ls[l] && y != x)
  }

  lemma RemoveKeepsTheRest<T>(q: seq<T>, j: nat)
    requires NoDuplicates(q) && j < |q|
    ensures NoDuplicates(RemoveAt(q, j))
    ensures forall y :: y in RemoveAt(q, j) <==> y in q && y != q[j]
  {
    var r := RemoveAt(q, j);
    forall y | y in q && y != q[j] ensures y in r {
      var k :| 0 <= k < |q| && q[k] == y;
      assert r[if k < j then k else k - 1] == y;
    }
  }

  /** The state after get_proc has handed process `p` to CPU `c`. */
  predicate HandedTo(s: State, s': State, c: nat, p: nat)
    requires c < |s.cpus|
  {
    && p < |s.place|
    && s' == s.(levels := s'.levels, place := s.place[p := OnCpu(c)], log := s.log + [HandOver(c, p)],
                cpus := s.cpus[c := s.cpus[c].(loc := CRecheck, proc := Some(p))])
  }

  /** What a call of get_proc does: nothing, or it hands over a ready process from the level of its prio. */
  lemma FetchCases(cfg: Config, s: State, c: nat, missing: CpuLoc)
    requires Whereabouts(cfg, s) && c < |s.cpus| && s.cpus[c].proc.None?
    ensures var s' := Fetch(cfg, s, c, CRecheck, missing); var r := Get(s.levels).1;
            && (r.None? ==> s' == SetCpu(s, c, s.cpus[c].(loc := missing)))
            && (r.Some? ==>
                  && HandedTo(s, s', c, r.value.pid) && s.place[r.value.pid].Ready?
                  && r.value == PcbOf(cfg, r.value.pid) && r.value.prio < MAX_PRIO
                  && r.value in s.levels[r.value.prio]
                  && TakenFrom(s.levels, s'.levels, r.value.prio, r.value))
  {
    GetTakesOne(s.levels);
  }

  lemma FetchWhereabouts(cfg: Config, s: State, c: nat, missing: CpuLoc)
    requires Whereabouts(cfg, s) && c < |s.cpus| && s.cpus[c].proc.None?
    requires missing.CIdle? || missing.CRecheck?
    ensures Whereabouts(cfg, Fetch(cfg, s, c, CRecheck, missing))
  {
    FetchCases(cfg, s, c, missing);
    var s' := Fetch(cfg, s, c, CRecheck, missing);
    match Get(s.levels).1
    case None => MissWhereabouts(cfg, s, c, missing);
    case Some(x) => TakenWhereabouts(cfg, s, s', c, x.prio, x);
  }

  lemma MissWhereabouts(cfg: Config, s: State, c: nat, missing: CpuLoc)
    requires Whereabouts(cfg, s) && c < |s.cpus| && !missing.CRun? && !missing.CNext?
    ensures Whereabouts(cfg, SetCpu(s, c, s.cpus[c].(loc := missing)))
  {
  }

  lemma TakenWhereabouts(cfg: Config, s: State, s': State, c: nat, l: nat, x: Pcb)
    requires Whereabouts(cfg, s) && c < |s.cpus| && s.cpus[c].proc.None? && l < MAX_PRIO
    requires x in s.levels[l] && TakenFrom(s.levels, s'.levels, l, x) && x.pid < |s.place|
    requires HandedTo(s, s', c, x.pid)
    ensures Whereabouts(cfg, s')
  {
    assert s.place[x.pid].Ready?;
    forall k, y | 0 <= k < MAX_PRIO && y in s'.levels[k]
      ensures y.pid < |s.place| && y == PcbOf(cfg, y.pid) && y.prio == k && s'.place[y.pid].Ready?
    {
      assert y in s.levels[k];
    }
    assert QueueInv(cfg, s') by {
      forall p | 0 <= p < |s'.place| && s'.place[p].Ready?
        ensures PcbOf(cfg, p) in s'.levels[cfg.progs[p].prio]
      {
        assert p != x.pid && PcbOf(cfg, p) in s.levels[cfg.progs[p].prio];
      }
    }
  }

  lemma TakenHistory(cfg: Config, s: State, s': State, c: nat, p: nat)
    requires Whereabouts(cfg, s) && History(cfg, s) && c < |s.cpus| && Shape(cfg, s')
    requires s.cpus[c].proc.None? && !s.cpus[c].loc.CNext? && Begun(s, c + 1) == s.bar.time
    requires HandedTo(s, s', c, p) && s.place[p].Ready?
    ensures History(cfg, s')
  {
    TakenCpus(cfg, s, s', c, p);
    TakenExecs(cfg, s, s', c, p);
    TakenProcs(cfg, s, s', c, p);
    assert CpuInv(cfg, s, c) && ProcInv(cfg, s, p);
    LogExtend(cfg, s.log, HandOver(c, p));
  }

  lemma TakenProcs(cfg: Config, s: State, s': State, c: nat, p: nat)
    requires Whereabouts(cfg, s) && History(cfg, s) && c < |s.cpus| && Shape(cfg, s')
    requires HandedTo(s, s', c, p) && s.place[p].Ready?
    ensures forall q :: 0 <= q < |s'.pc| ==> ProcInv(cfg, s', q)
  {
    forall q | 0 <= q < |s.pc| ensures ProcInv(cfg, s', q) {
      assert ProcInv(cfg, s, q);
      LogCounts(s.log, HandOver(c, p), c, q);
    }
  }

  lemma TakenExecs(cfg: Config, s: State, s': State, c: nat, p: nat)
    requires Whereabouts(cfg, s) && SlotInv(cfg, s) && c < |s.cpus| && Shape(cfg, s')
    requires s.cpus[c].proc.None? && !s.cpus[c].loc.CNext? && Begun(s, c + 1) == s.bar.time
    requires HandedTo(s, s', c, p) && s.place[p].Ready?
    ensures SlotInv(cfg, s')
  {
    forall k | 0 <= k < |s'.log| ensures ExecOk(cfg, s', s'.log[k]) {
      if k < |s.log| { assert ExecOk(cfg, s, s.log[k]); }
    }
  }

  lemma TakenCpus(cfg: Config, s: State, s': State, c: nat, p: nat)
    requires Whereabouts(cfg, s) && History(cfg, s) && c < |s.cpus| && Shape(cfg, s')
    requires s.cpus[c].proc.None? && HandedTo(s, s', c, p) && s.place[p].Ready?
    ensures forall d :: 0 <= d < |s'.cpus| ==> CpuInv(cfg, s', d)
  {
    assert CpuInv(cfg, s, c) && ProcInv(cfg, s, p);
    forall d | 0 <= d < |s.cpus| ensures CpuInv(cfg, s', d) {
      assert CpuInv(cfg, s, d);
      LogCounts(s.log, HandOver(c, p), d, p);
    }
  }

  lemma FetchKeepsCore(cfg: Config, s: State, c: nat, missing: CpuLoc)
    requires Core(cfg, s) && c < |s.cpus| && s.cpus[c].proc.None? && !s.cpus[c].loc.CNext?
    requires (missing.CIdle? || missing.CRecheck?) && Begun(s, c + 1) == s.bar.time
    ensures Core(cfg, Fetch(cfg, s, c, CRecheck, missing))
  {
    FetchCases(cfg, s, c, missing);
    FetchWhereabouts(cfg, s, c, missing);
    match Get(s.levels).1
    case None =>
      assert CpuInv(cfg, s, c);
      CpuLocal(cfg, s, c, s.cpus[c].(loc := missing));
    case Some(x) => TakenHistory(cfg, s, Fetch(cfg, s, c, CRecheck, missing), c, x.pid);
  }

  /** Enqueueing a process that is in no queue keeps the queues in order, dropped or not. */
  lemma EnlistQueues(cfg: Config, s: State, p: nat)
    requires Shape(cfg, s) && QueueInv(cfg, s) && p < |s.place| && !s.place[p].Ready?
    ensures Shape(cfg, Enlist(cfg, s, p)) && QueueInv(cfg, Enlist(cfg, s, p))
  {
    var x := PcbOf(cfg, p);
    var s' := Enlist(cfg, s, p);
    var q := s.levels[x.prio];
    assert x !in q;
    assert NoDuplicates(s'.levels[x.prio]);
    forall l, y | 0 <= l < MAX_PRIO && y in s'.levels[l]
      ensures y.pid < |s.place| && y == PcbOf(cfg, y.pid) && y.prio == l && s'.place[y.pid].Ready?
    {
      assert y in s.levels[l] || (y == x && l == x.prio && |q| < MAX_QUEUE_SIZE);
    }
    forall r | 0 <= r < |s'.place| && s'.place[r].Ready?
      ensures PcbOf(cfg, r) in s'.levels[cfg.progs[r].prio]
    {
      assert r == p || PcbOf(cfg, r) in s.levels[cfg.progs[r].prio];
      if r == p { assert s'.levels[x.prio] == q + [x]; }
    }
  }

  lemma PutBackWhereabouts(cfg: Config, s: State, c: nat, p: nat)
    requires Whereabouts(cfg, s) && c < |s.cpus| && s.cpus[c].proc == Some(p)
    ensures Whereabouts(cfg, PutBack(cfg, s, c, p))
  {
    assert s.place[p] == OnCpu(c);
    EnlistQueues(cfg, s, p);
    LogCounts(s.log, Requeue(c, p), 0, 0);
    PutBackPlaces(cfg, s, c, p);
  }

  lemma PutBackPlaces(cfg: Config, s: State, c: nat, p: nat)
    requires Shape(cfg, s) && PlaceInv(cfg, s) && c < |s.cpus| && s.cpus[c].proc == Some(p)
    ensures Shape(cfg, PutBack(cfg, s, c, p)) && PlaceInv(cfg, PutBack(cfg, s, c, p))
  {
    assert s.place[p] == OnCpu(c);
  }

  lemma PutBackHistory(cfg: Config, s: State, s': State, c: nat, p: nat)
    requires Whereabouts(cfg, s) && History(cfg, s) && c < |s.cpus| && Shape(cfg, s')
    requires s.cpus[c].loc.CTop? && s.cpus[c].proc == Some(p) && s.cpus[c].timeLeft == 0
    requires s.pc[p] != cfg.progs[p].size && SlotsBehind(s, c)
    requires s' == PutBack(cfg, s, c, p)
    ensures History(cfg, s')
  {
    var e := Requeue(c, p);
    assert s.place[p] == OnCpu(c) && ProcInv(cfg, s, p) && CpuInv(cfg, s, c);
    LogCounts(s.log, e, c, p);
    assert EventOk(cfg, s.log, e);
    LogExtend(cfg, s.log, e);
    CpusAfterEvent(cfg, s, s', c, e);
    ProcsAfterEvent(cfg, s, s', p, e);
    ExecsAfterEvent(cfg, s, s', c, e);
  }

  lemma AdmitWhereabouts(cfg: Config, s: State)
    requires Whereabouts(cfg, s) && InSlot(s, 0) && s.ld.LAdd?
    ensures Whereabouts(cfg, LoaderRun(cfg, s))
  {
    assert s.place[s.i].Unborn?;
    EnlistQueues(cfg, s, s.i);
    LogCounts(s.log, Admit(s.i, s.bar.time), 0, 0);
    var s' := LoaderRun(cfg, s);
    var s1 := Enlist(cfg, s, s.i);
    assert s'.levels == s1.levels && s'.place == s1.place;
  }

  lemma AdmitHistory(cfg: Config, s: State, s': State)
    requires Whereabouts(cfg, s) && History(cfg, s) && Shape(cfg, s')
    requires InSlot(s, 0) && s.ld.LAdd? && Begun(s, 0) == s.bar.time && s' == LoaderRun(cfg, s)
    ensures History(cfg, s')
  {
    var e := Admit(s.i, s.bar.time);
    assert s.place[s.i].Unborn? && ProcInv(cfg, s, s.i);
    LogExtend(cfg, s.log, e);
    forall c | 0 <= c < |s.cpus| ensures CpuInv(cfg, s', c) {
      assert CpuInv(cfg, s, c);
      LogCounts(s.log, e, c, 0);
    }
    LogCounts(s.log, e, 0, s.i);
    ProcsAfterEvent(cfg, s, s', s.i, e);
    forall k | 0 <= k < |s'.log| ensures ExecOk(cfg, s', s'.log[k]) {
      if k < |s.log| { assert ExecOk(cfg, s, s.log[k]); }
    }
  }

  // ----- every step keeps the invariant

  lemma LoaderKeepsInv(cfg: Config, s: State)
    requires Inv(cfg, s) && LoaderEnabled(s)
    ensures Inv(cfg, LoaderRun(cfg, s))
  {
    if s.ld.LAdd? {
      B.WorkingOnTime(s.bar, 0);
      AdmitWhereabouts(cfg, s);
      AdmitHistory(cfg, s, LoaderRun(cfg, s));
    } else {
      LoaderControlStep(cfg, s);
    }
  }

  lemma CpuTopKeepsCore(cfg: Config, s: State, c: nat)
    requires Core(cfg, s) && CpuEnabled(s, c) && s.cpus[c].loc.CTop?
    requires Begun(s, c + 1) == s.bar.time && SlotsBehind(s, c)
    ensures Core(cfg, CpuRun(cfg, s, c))
  {
    var s' := CpuRun(cfg, s, c);
    match s.cpus[c].proc
    case None =>
      FetchKeepsCore(cfg, s, c, CIdle);
    case Some(p) =>
      if s.pc[p] == cfg.progs[p].size {
        RetireWhereabouts(cfg, s, c);
        RetireHistory(cfg, s, s', c, p);
      } else if s.cpus[c].timeLeft == 0 {
        PutBackWhereabouts(cfg, s, c, p);
        PutBackHistory(cfg, s, s', c, p);
      } else {
        assert ProcInv(cfg, s, p) && CpuInv(cfg, s, c);
        CpuLocal(cfg, s, c, s.cpus[c].(loc := CRecheck));
      }
  }

  lemma CpuRecheckKeepsCore(cfg: Config, s: State, c: nat)
    requires Core(cfg, s) && CpuEnabled(s, c) && s.cpus[c].loc.CRecheck?
    ensures Core(cfg, CpuRun(cfg, s, c))
  {
    var u, s' := s.cpus[c], CpuRun(cfg, s, c);
    assert CpuInv(cfg, s, c);
    match u.proc
    case None => CpuLocal(cfg, s, c, u.(loc := if s.done then CStop else CIdle));
    case Some(p) =>
      if u.timeLeft == 0 {
        DispatchWhereabouts(cfg, s, c);
        DispatchHistory(cfg, s, s', c, p);
      } else {
        CpuLocal(cfg, s, c, u.(loc := CRun));
      }
  }

  lemma CpuRunKeepsCore(cfg: Config, s: State, c: nat)
    requires Core(cfg, s) && CpuEnabled(s, c) && s.cpus[c].loc.CRun?
    requires Begun(s, c + 1) == s.bar.time && SlotsBehind(s, c)
    ensures Core(cfg, CpuRun(cfg, s, c))
  {
    var u, s' := s.cpus[c], CpuRun(cfg, s, c);
    var p := u.proc.value;
    if s.pc[p] < cfg.progs[p].size {
      ExecWhereabouts(cfg, s, c);
      ExecHistory(cfg, s, s', c, p);
    } else {
      assert CpuInv(cfg, s, c);
      CpuLocal(cfg, s, c, u.(loc := CNext, timeLeft := u.timeLeft - 1));
    }
  }

  lemma CpuKeepsInv(cfg: Config, s: State, c: nat)
    requires Inv(cfg, s) && CpuEnabled(s, c)
    ensures Inv(cfg, CpuRun(cfg, s, c))
  {
    var u := s.cpus[c];
    if u.loc.CNext? || u.loc.CIdle? || u.loc.CStop? {
      CpuCallStep(cfg, s, c);
    } else {
      EarlierSlots(cfg, s, c);
      match u.loc
      case CTop => CpuTopKeepsCore(cfg, s, c);
      case CRecheck => CpuRecheckKeepsCore(cfg, s, c);
      case CRun => CpuRunKeepsCore(cfg, s, c);
      case CGet =>
        assert CpuInv(cfg, s, c);
        FetchKeepsCore(cfg, s, c, CRecheck);
    }
  }

  /** Every step of every thread keeps the invariant. */
  lemma StepKeepsInv(cfg: Config, s: State, a: Action)
    requires Inv(cfg, s) && Enabled(s, a)
    ensures Inv(cfg, Apply(cfg, s, a))
  {
    match a
    case Protocol(b) => ProtocolKeepsInv(cfg, s, b);
    case LoaderRuns => LoaderKeepsInv(cfg, s);
    case CpuRuns(c) => CpuKeepsInv(cfg, s, c);
  }

  lemma {:induction false} RunKeepsInv(cfg: Config, s0: State, run: seq<Action>, s: State)
    requires Inv(cfg, s0) && Reaches(cfg, s0, run, s)
    ensures Inv(cfg, s)
    decreases |run|
  {
    if run != [] {
      StepKeepsInv(cfg, s0, run[0]);
      RunKeepsInv(cfg, Apply(cfg, s0, run[0]), run[1..], s);
    }
  }

  // ----- the main results

  lemma ReachableInv(cfg: Config, run: seq<Action>, s: State)
    requires ConfigOk(cfg) && Reaches(cfg, Init(cfg), run, s)
    ensures Inv(cfg, s)
  {
    InitInv(cfg);
    RunKeepsInv(cfg, Init(cfg), run, s);
  }

  /** A log in order admits process 0, 1, 2, ... each in its slot. */
  lemma {:induction false} AdmissionsInOrder(cfg: Config, log: seq<Event>, p: nat)
    requires LogOk(cfg, log) && p < Admitted(log)
    ensures p < |cfg.start| && Admit(p, AdmissionSlot(cfg.start, p)) in log
    decreases |log|
  {
    var last := |log| - 1;
    var pre := log[..last];
    assert EventOk(cfg, pre, log[last]);
    assert LogOk(cfg, pre) by {
      forall k | 0 <= k < |pre| ensures EventOk(cfg, pre[..k], pre[k]) {
        assert pre[..k] == log[..k] && EventOk(cfg, log[..k], log[k]);
      }
    }
    if p < Admitted(pre) {
      AdmissionsInOrder(cfg, pre, p);
    }
  }

  /**
    Deterministic admission.  In every interleaving of loader, CPUs and timer the processes admitted so
    far are 0 .. i-1, and process p was admitted in slot max(start[p], slot of p-1 plus 1) and no other.
  */
  lemma DeterministicAdmission(cfg: Config, run: seq<Action>, s: State)
    requires ConfigOk(cfg) && Reaches(cfg, Init(cfg), run, s)
    ensures s.i <= |cfg.start|
    ensures forall p :: 0 <= p < s.i ==> Admit(p, AdmissionSlot(cfg.start, p)) in s.log
    ensures forall k :: 0 <= k < |s.log| && s.log[k].Admit? ==>
              s.log[k].p < s.i && s.log[k].slot == AdmissionSlot(cfg.start, s.log[k].p)
  {
    ReachableInv(cfg, run, s);
    forall p | 0 <= p < s.i ensures Admit(p, AdmissionSlot(cfg.start, p)) in s.log {
      AdmissionsInOrder(cfg, s.log, p);
    }
    forall k | 0 <= k < |s.log| && s.log[k].Admit?
      ensures s.log[k].p < s.i && s.log[k].slot == AdmissionSlot(cfg.start, s.log[k].p)
    {
      assert EventOk(cfg, s.log[..k], s.log[k]);
      AdmittedPrefix(s.log, k);
    }
  }

  lemma {:induction false} AdmittedPrefix(log: seq<Event>, k: nat)
    requires k < |log|
    ensures Admitted(log[..k]) + (if log[k].Admit? then 1 else 0) <= Admitted(log)
    decreases |log|
  {
    var pre := log[..|log| - 1];
    if k < |log| - 1 {
      AdmittedPrefix(pre, k);
      assert pre[..k] == log[..k];
    } else {
      assert log[..k] == pre;
    }
  }

  // ----- process conservation

  ghost predicate Queued(s: State, p: nat) {
    exists l, x :: 0 <= l < MAX_PRIO && x in s.levels[l] && x.pid == p
  }

  ghost predicate Held(s: State, p: nat) {
    exists c :: 0 <= c < |s.cpus| && s.cpus[c].proc == Some(p)
  }

  ghost predicate NoneDropped(s: State) {
    forall p :: 0 <= p < |s.place| ==> !s.place[p].Dropped?
  }

  function Pids(q: Queue): set<nat> {
    set i | 0 <= i < |q| :: q[i].pid
  }

  /** Pigeonhole: blocks that differ only in their pid and do not repeat. */
  lemma {:induction false} DistinctPids(q: Queue)
    requires NoDuplicates(q)
    requires forall i, j :: 0 <= i < |q| && 0 <= j < |q| && q[i].pid == q[j].pid ==> q[i] == q[j]
    ensures |Pids(q)| == |q|
    decreases |q|
  {
    if q != [] {
      var last := |q| - 1;
      DistinctPids(q[..last]);
      assert Pids(q) == Pids(q[..last]) + {q[last].pid};
    } else {
      assert Pids(q) == {};
    }
  }

  lemma {:induction false} BelowSize(n: nat, a: set<nat>)
    requires forall x :: x in a ==> x < n
    ensures |a| <= n
  {
    if n > 0 {
      BelowSize(n - 1, a - {n - 1});
      assert a <= (a - {n - 1}) + {n - 1};
    } else {
      assert a == {};
    }
  }

  /** With at most ten processes loaded, a process outside the queues always finds room on its level. */
  lemma RoomForOne(cfg: Config, s: State, p: nat)
    requires Shape(cfg, s) && QueueInv(cfg, s) && |cfg.progs| <= MAX_QUEUE_SIZE
    requires p < |s.place| && !s.place[p].Ready?
    ensures |s.levels[cfg.progs[p].prio]| < MAX_QUEUE_SIZE
  {
    var q := s.levels[cfg.progs[p].prio];
    assert forall i :: 0 <= i < |q| ==> q[i] in q;
    DistinctPids(q);
    var all := Pids(q) + {p};
    assert p !in Pids(q);
    BelowSize(|cfg.progs|, all);
  }

  lemma LoaderDropsNone(cfg: Config, s: State)
    requires Whereabouts(cfg, s) && LoaderEnabled(s) && |cfg.progs| <= MAX_QUEUE_SIZE && NoneDropped(s)
    ensures NoneDropped(LoaderRun(cfg, s))
  {
    if s.ld.LAdd? { RoomForOne(cfg, s, s.i); }
  }

  lemma CpuDropsNone(cfg: Config, s: State, c: nat)
    requires Whereabouts(cfg, s) && CpuEnabled(s, c) && |cfg.progs| <= MAX_QUEUE_SIZE && NoneDropped(s)
    ensures NoneDropped(CpuRun(cfg, s, c))
  {
    if s.cpus[c].proc.Some? {
      var p := s.cpus[c].proc.value;
      assert s.place[p] == OnCpu(c);
      RoomForOne(cfg, s, p);
    }
  }

  lemma StepDropsNone(cfg: Config, s: State, a: Action)
    requires Whereabouts(cfg, s) && Enabled(s, a) && |cfg.progs| <= MAX_QUEUE_SIZE && NoneDropped(s)
    ensures NoneDropped(Apply(cfg, s, a))
  {
    match a
    case Protocol(_) =>
    case LoaderRuns => LoaderDropsNone(cfg, s);
    case CpuRuns(c) => CpuDropsNone(cfg, s, c);
  }

  lemma {:induction false} RunDropsNone(cfg: Config, s0: State, run: seq<Action>, s: State)
    requires Inv(cfg, s0) && Reaches(cfg, s0, run, s) && |cfg.progs| <= MAX_QUEUE_SIZE && NoneDropped(s0)
    ensures NoneDropped(s)
    decreases |run|
  {
    if run != [] {
      StepKeepsInv(cfg, s0, run[0]);
      StepDropsNone(cfg, s0, run[0]);
      RunDropsNone(cfg, Apply(cfg, s0, run[0]), run[1..], s);
    }
  }

  /**
    Process conservation.  With any number of CPUs and at most ten loaded processes, every admitted process
    is at all times in a ready queue, held by a CPU or finished, and only one of the three.
  */
  lemma ProcessConservation(cfg: Config, run: seq<Action>, s: State, p: nat)
    requires ConfigOk(cfg) && Reaches(cfg, Init(cfg), run, s) && |cfg.progs| <= MAX_QUEUE_SIZE && p < s.i
    ensures Queued(s, p) || Held(s, p) || HasFinished(s.log, p)
    ensures !(Queued(s, p) && Held(s, p)) && !(Queued(s, p) && HasFinished(s.log, p))
    ensures !(Held(s, p) && HasFinished(s.log, p))
  {
    ReachableInv(cfg, run, s);
    InitInv(cfg);
    RunDropsNone(cfg, Init(cfg), run, s);
    assert ProcInv(cfg, s, p);
    match s.place[p]
    case Ready => assert PcbOf(cfg, p) in s.levels[cfg.progs[p].prio];
    case OnCpu(c) => assert s.cpus[c].proc == Some(p);
    case Finished =>
  }

  /** No process runs on two CPUs, and none is queued twice, whatever the number of processes. */
  lemma NoProcessTwice(cfg: Config, run: seq<Action>, s: State)
    requires ConfigOk(cfg) && Reaches(cfg, Init(cfg), run, s)
    ensures forall c, d | 0 <= c < |s.cpus| && 0 <= d < |s.cpus| ::
              s.cpus[c].proc.Some? && s.cpus[c].proc == s.cpus[d].proc ==> c == d
    ensures forall l, m, i, j | 0 <= l < MAX_PRIO && 0 <= m < MAX_PRIO
                && 0 <= i < |s.levels[l]| && 0 <= j < |s.levels[m]| ::
              s.levels[l][i].pid == s.levels[m][j].pid ==> l == m && i == j
  {
    ReachableInv(cfg, run, s);
    forall l, m, i, j | 0 <= l < MAX_PRIO && 0 <= m < MAX_PRIO && 0 <= i < |s.levels[l]| && 0 <= j < |s.levels[m]|
      && s.levels[l][i].pid == s.levels[m][j].pid
      ensures l == m && i == j
    {
      assert s.levels[l][i] in s.levels[l] && s.levels[m][j] in s.levels[m];
    }
  }

  // ----- quantum discipline

  /** Along a log in order no CPU is ever beyond its quantum. */
  lemma {:induction false} WithinQuantum(cfg: Config, log: seq<Event>, c: nat)
    requires LogOk(cfg, log) && cfg.timeSlot >= 1
    ensures SinceDispatch(log, c) <= cfg.timeSlot
    decreases |log|
  {
    if log != [] {
      var before := log[..|log| - 1];
      assert EventOk(cfg, before, log[|log| - 1]);
      assert forall k :: 0 <= k < |before| ==> before[..k] == log[..k];
      WithinQuantum(cfg, before, c);
    }
  }

  /**
    Quantum discipline.  With a time slot of at least one, a dispatch executes exactly time_slot instructions
    unless its process finishes first: no instruction is executed once the quantum is used up, and a process is
    put back exactly when its CPU has executed time_slot instructions of it since the dispatch and it has
    instructions left (with a smaller time slot it never is).  A process finishes having executed exactly its
    code size, and is never heard of again.
  */
  lemma QuantumDiscipline(cfg: Config, run: seq<Action>, s: State, k: nat)
    requires ConfigOk(cfg) && Reaches(cfg, Init(cfg), run, s) && k < |s.log|
    ensures s.log[k].Requeue? ==>
              && OnDuty(s.log[..k], s.log[k].c) == Some(s.log[k].p)
              && SinceDispatch(s.log[..k], s.log[k].c) == cfg.timeSlot && cfg.timeSlot >= 1
              && s.log[k].p < |cfg.progs| && Executed(s.log[..k], s.log[k].p) < cfg.progs[s.log[k].p].size
    ensures s.log[k].Finish? ==>
              && s.log[k].p < |cfg.progs|
              && Executed(s.log[..k], s.log[k].p) == Executed(s.log, s.log[k].p) == cfg.progs[s.log[k].p].size
              && forall j :: k < j < |s.log| ==> s.log[j].Admit? || s.log[j].p != s.log[k].p
    ensures s.log[k].Exec? ==>
              && OnDuty(s.log[..k], s.log[k].c) == Some(s.log[k].p)
              && (cfg.timeSlot >= 1 ==> SinceDispatch(s.log[..k], s.log[k].c) < cfg.timeSlot)
    ensures cfg.timeSlot >= 1 ==> forall c: nat :: SinceDispatch(s.log[..k], c) <= cfg.timeSlot
  {
    ReachableInv(cfg, run, s);
    assert EventOk(cfg, s.log[..k], s.log[k]);
    if cfg.timeSlot >= 1 {
      assert forall j :: 0 <= j < k ==> s.log[..k][..j] == s.log[..j];
      forall c: nat ensures SinceDispatch(s.log[..k], c) <= cfg.timeSlot { WithinQuantum(cfg, s.log[..k], c); }
    }
    if s.log[k].Finish? {
      var p := s.log[k].p;
      assert HasFinished(s.log, p) && ProcInv(cfg, s, p);
      forall j | k < j < |s.log| ensures s.log[j].Admit? || s.log[j].p != p {
        assert s.log[..j][k] == s.log[k];
        assert EventOk(cfg, s.log[..j], s.log[j]);
      }
    }
  }

  /** At most one instruction per CPU per slot, and at most one per process per slot. */
  lemma OneInstructionPerSlot(cfg: Config, run: seq<Action>, s: State, j: nat, k: nat)
    requires ConfigOk(cfg) && Reaches(cfg, Init(cfg), run, s) && j < k < |s.log|
    requires s.log[j].Exec? && s.log[k].Exec? && (s.log[j].c == s.log[k].c || s.log[j].p == s.log[k].p)
    ensures s.log[j].slot < s.log[k].slot <= s.bar.time
  {
    ReachableInv(cfg, run, s);
    assert EventOk(cfg, s.log[..k], s.log[k]);
    assert s.log[..k][j] == s.log[j];
    assert ExecOk(cfg, s, s.log[k]);
  }
}
