/**
  How the simulation ends (src/os.c): a CPU that stops leaves no process behind.

  A CPU stops only after a fetch in which it had just freed or put back a process, and it reads the loader's flag
  after that fetch.  What makes this safe is the barrier: the loader admits its last process and raises the flag
  in different slots, and the clock does not move while a CPU is inside its slot.
*/
module Shutdown {
  import B = Barrier
  import opened Common
  import opened Os
  import S = Sched

  /** The CPU found nothing and is about to read the loader's flag. */
  predicate Doubtful(u: Cpu) { u.loc.CRecheck? && u.proc.None? }

  predicate Stopped(u: Cpu) { u.loc.CStop? || u.loc.CGone? }

  predicate Alive(u: Cpu) { !Stopped(u) && !Doubtful(u) }

  /** The loader cannot raise its flag before the current slot is over. */
  predicate LoaderBusy(cfg: Config, s: State)
    requires |s.bar.devs| > 0
  {
    !s.done && (s.i < |cfg.progs| || s.ld.LNext? || (s.ld.LTest? && Begun(s, 0) == s.bar.time + 1))
  }

  /** CPU `c` is going to call get_proc again. */
  predicate WillLook(cfg: Config, s: State, c: nat)
    requires |s.bar.devs| > 0
  {
    c < |s.cpus| && (Alive(s.cpus[c]) || (Doubtful(s.cpus[c]) && InSlot(s, c + 1) && LoaderBusy(cfg, s)))
  }

  predicate SomeReady(s: State) { exists p :: 0 <= p < |s.place| && s.place[p].Ready? }

  predicate SomeoneLooks(cfg: Config, s: State)
    requires |s.bar.devs| > 0
  {
    exists c: nat :: c < |s.cpus| && WillLook(cfg, s, c)
  }

  /** What the threads have agreed on so far. */
  predicate Agreed(cfg: Config, s: State) {
    && |s.bar.devs| == |s.cpus| + 1 && |s.cpus| > 0
    && (s.done <==> s.ld.LFinish? || s.ld.LGone?)
    && (forall c :: 0 <= c < |s.cpus| && Stopped(s.cpus[c]) ==> s.done)
    && (forall c :: 0 <= c < |s.cpus| && Doubtful(s.cpus[c]) ==> InSlot(s, c + 1))
  }

  /** As long as a process is ready, some CPU is going to look for it. */
  predicate LookInv(cfg: Config, s: State) {
    Agreed(cfg, s) && (SomeReady(s) ==> SomeoneLooks(cfg, s))
  }

  lemma InitLooks(cfg: Config)
    requires cfg.cpus > 0
    ensures LookInv(cfg, Init(cfg))
  {
  }

  // ----- the barrier

  /** The clock stands still while a device is inside its slot. */
  lemma SlotHoldsClock(b: B.State, a: B.Action, d: nat)
    requires B.Inv(b) && B.Enabled(b, a) && d < |b.devs| && b.devs[d].loc.Working?
    ensures B.Apply(b, a).time == b.time
  {
    assert B.DevInv(b, d);
  }

  lemma ProtocolLeavesLooker(cfg: Config, s: State, b: B.Action, c: nat)
    requires Enabled(s, Protocol(b)) && B.Inv(s.bar) && |s.bar.devs| == |s.cpus| + 1 && WillLook(cfg, s, c)
    ensures |B.Apply(s.bar, b).devs| == |s.bar.devs| && WillLook(cfg, s.(bar := B.Apply(s.bar, b)), c)
  {
    B.ProtocolFrame(s.bar, b);
    if InSlot(s, c + 1) { SlotHoldsClock(s.bar, b, c + 1); }
  }

  lemma ProtocolLooks(cfg: Config, s: State, b: B.Action)
    requires Inv(cfg, s) && LookInv(cfg, s) && Enabled(s, Protocol(b))
    ensures LookInv(cfg, s.(bar := B.Apply(s.bar, b)))
  {
    var s' := s.(bar := B.Apply(s.bar, b));
    B.ProtocolFrame(s.bar, b);
    if SomeReady(s') {
      assert SomeReady(s);
      var c: nat :| c < |s.cpus| && WillLook(cfg, s, c);
      ProtocolLeavesLooker(cfg, s, b, c);
    }
  }

  // ----- the loader

  /** The loader's own steps keep what has been agreed on. */
  lemma LoaderAgrees(cfg: Config, s: State)
    requires Shape(cfg, s) && Agreed(cfg, s) && LoaderEnabled(s)
    ensures Agreed(cfg, LoaderRun(cfg, s)) && LoaderRun(cfg, s).cpus == s.cpus
  {
  }

  /** The step that raises the flag finds no CPU that relies on the loader being busy. */
  lemma LoaderLeavesLooker(cfg: Config, s: State, c: nat)
    requires Shape(cfg, s) && Agreed(cfg, s) && LoaderEnabled(s) && !s.ld.LAdd? && Begun(s, 0) == s.bar.time
    requires WillLook(cfg, s, c)
    ensures WillLook(cfg, LoaderRun(cfg, s), c)
  {
  }

  lemma LoaderLooks(cfg: Config, s: State)
    requires Inv(cfg, s) && LookInv(cfg, s) && LoaderEnabled(s)
    ensures LookInv(cfg, LoaderRun(cfg, s))
  {
    var s' := LoaderRun(cfg, s);
    B.WorkingOnTime(s.bar, 0);
    LoaderAgrees(cfg, s);
    if SomeReady(s') {
      if s.ld.LAdd? {
        assert WillLook(cfg, s', 0);
      } else {
        assert SomeReady(s);
        var c: nat :| c < |s.cpus| && WillLook(cfg, s, c);
        LoaderLeavesLooker(cfg, s, c);
      }
    }
  }

  // ----- the CPUs

  /** What a step of CPU `c` leaves alone. */
  predicate OthersSame(s: State, s': State, c: nat) {
    && |s'.cpus| == |s.cpus| && (forall d :: 0 <= d < |s.cpus| && d != c ==> s'.cpus[d] == s.cpus[d])
    && |s'.bar.devs| == |s.bar.devs| && s'.bar.time == s.bar.time
    && (forall d :: 0 <= d < |s.bar.devs| && d != c + 1 ==> s'.bar.devs[d] == s.bar.devs[d])
    && s'.ld == s.ld && s'.i == s.i && s'.done == s.done
  }

  lemma FetchFrame(cfg: Config, s: State, c: nat)
    requires Whereabouts(cfg, s) && CpuEnabled(s, c) && AboutToFetch(s.cpus[c]) && s.cpus[c].proc.None?
    ensures OthersSame(s, CpuRun(cfg, s, c), c)
  {
    FetchCases(cfg, s, c, if s.cpus[c].loc.CTop? then CIdle else CRecheck);
  }

  lemma OtherFrame(cfg: Config, s: State, c: nat)
    requires Shape(cfg, s) && CpuEnabled(s, c) && !AboutToFetch(s.cpus[c])
    ensures OthersSame(s, CpuRun(cfg, s, c), c)
  {
  }

  /** Where a step from `s` to `s'` leaves the CPU itself. */
  predicate Outcome(s: State, s': State, c: nat)
    requires c < |s.cpus|
  {
    && c < |s'.cpus|
    && (Alive(s'.cpus[c])
        || (Doubtful(s'.cpus[c]) && !SomeReady(s') && InSlot(s', c + 1))
        || (Stopped(s'.cpus[c]) && s.done && !Alive(s.cpus[c]) && s'.place == s.place))
  }

  lemma FetchOutcome(cfg: Config, s: State, c: nat)
    requires Whereabouts(cfg, s) && CpuEnabled(s, c) && AboutToFetch(s.cpus[c]) && s.cpus[c].proc.None?
    ensures Outcome(s, CpuRun(cfg, s, c), c)
  {
    if S.Get(s.levels).1.None? { NoneFound(cfg, s); } else { SomeFound(cfg, s, c); }
  }

  lemma SomeFound(cfg: Config, s: State, c: nat)
    requires Whereabouts(cfg, s) && CpuEnabled(s, c) && AboutToFetch(s.cpus[c]) && s.cpus[c].proc.None?
    requires S.Get(s.levels).1.Some?
    ensures var s' := CpuRun(cfg, s, c); |s'.cpus| == |s.cpus| && Alive(s'.cpus[c])
  {
    FetchCases(cfg, s, c, if s.cpus[c].loc.CTop? then CIdle else CRecheck);
  }

  lemma OtherOutcome(cfg: Config, s: State, c: nat)
    requires Shape(cfg, s) && Agreed(cfg, s) && CpuEnabled(s, c) && !AboutToFetch(s.cpus[c])
    ensures Outcome(s, CpuRun(cfg, s, c), c)
  {
  }

  /** get_proc returns nothing only if no process is ready. */
  lemma NoneFound(cfg: Config, s: State)
    requires Shape(cfg, s) && QueueInv(cfg, s) && S.Get(s.levels).1.None?
    ensures !SomeReady(s)
  {
    assert forall l :: 0 <= l < S.MAX_PRIO ==> s.levels[l] == [];
  }

  lemma LooksAfter(cfg: Config, s: State, s': State, c: nat)
    requires LookInv(cfg, s) && c < |s.cpus| && InSlot(s, c + 1) && OthersSame(s, s', c) && Outcome(s, s', c)
    ensures LookInv(cfg, s')
  {
    if SomeReady(s') {
      if Alive(s'.cpus[c]) {
        assert WillLook(cfg, s', c);
      } else {
        assert SomeReady(s);
        var d: nat :| d < |s.cpus| && WillLook(cfg, s, d);
        assert WillLook(cfg, s', d);
      }
    }
  }

  lemma CpuLooks(cfg: Config, s: State, c: nat)
    requires Inv(cfg, s) && LookInv(cfg, s) && CpuEnabled(s, c)
    ensures LookInv(cfg, CpuRun(cfg, s, c))
  {
    assert CpuInv(cfg, s, c);
    if AboutToFetch(s.cpus[c]) {
      FetchFrame(cfg, s, c);
      FetchOutcome(cfg, s, c);
    } else {
      OtherFrame(cfg, s, c);
      OtherOutcome(cfg, s, c);
    }
    LooksAfter(cfg, s, CpuRun(cfg, s, c), c);
  }

  lemma StepLooks(cfg: Config, s: State, a: Action)
    requires Inv(cfg, s) && LookInv(cfg, s) && Enabled(s, a)
    ensures LookInv(cfg, Apply(cfg, s, a))
  {
    match a
    case Protocol(b) => ProtocolLooks(cfg, s, b);
    case LoaderRuns => LoaderLooks(cfg, s);
    case CpuRuns(c) => CpuLooks(cfg, s, c);
  }

  lemma {:induction false} RunLooks(cfg: Config, s0: State, run: seq<Action>, s: State)
    requires Inv(cfg, s0) && LookInv(cfg, s0) && Reaches(cfg, s0, run, s)
    ensures LookInv(cfg, s)
    decreases |run|
  {
    if run != [] {
      StepKeepsInv(cfg, s0, run[0]);
      StepLooks(cfg, s0, run[0]);
      RunLooks(cfg, Apply(cfg, s0, run[0]), run[1..], s);
    }
  }

  /**
    Nobody is stranded.  In every interleaving with at least one CPU, once every CPU has stopped all processes have
    been admitted and every process has finished, unless a full queue has dropped it; with at most ten processes
    every process has finished.
  */
  lemma NobodyStranded(cfg: Config, run: seq<Action>, s: State)
    requires ConfigOk(cfg) && cfg.cpus > 0 && Reaches(cfg, Init(cfg), run, s)
    requires forall c :: 0 <= c < |s.cpus| ==> Stopped(s.cpus[c])
    ensures s.i == |cfg.progs| == |s.place|
    ensures forall p: nat :: p < |cfg.progs| ==> HasFinished(s.log, p) || s.place[p].Dropped?
    ensures |cfg.progs| <= S.MAX_QUEUE_SIZE ==> forall p: nat :: p < |cfg.progs| ==> HasFinished(s.log, p)
  {
    InitInv(cfg);
    InitLooks(cfg);
    RunKeepsInv(cfg, Init(cfg), run, s);
    RunLooks(cfg, Init(cfg), run, s);
    if |cfg.progs| <= S.MAX_QUEUE_SIZE { RunDropsNone(cfg, Init(cfg), run, s); }
    assert Stopped(s.cpus[0]);
    forall c | 0 <= c < |s.cpus| ensures s.cpus[c].proc.None? { assert CpuInv(cfg, s, c); }
    forall p: nat | p < |cfg.progs| ensures HasFinished(s.log, p) || s.place[p].Dropped? {
      assert ProcInv(cfg, s, p) && !SomeReady(s);
    }
  }
}
