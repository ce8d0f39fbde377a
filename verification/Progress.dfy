/**
  Nobody dawdles (src/os.c): between two calls into the barrier every thread takes a bounded number of steps, a CPU
  that holds a process executes an instruction in every slot, and a CPU stops only after it has served a process.
*/
module Progress {
  import B = Barrier
  import opened Common
  import opened Os
  import opened Shutdown
  import S = Sched

  // ----- steps between two calls into the barrier

  /** How many steps a CPU can take before its next call, that call included. */
  function CpuRank(u: Cpu): nat {
    match u.loc
    case CTop => 5
    case CGet => 4
    case CRecheck => 3
    case CRun => 2
    case CNext => 1
    case CIdle => 1
    case CStop => 1
    case CGone => 0
  }

  function LoaderRank(l: LoaderLoc): nat {
    match l
    case LTest => 3
    case LAdd => 2
    case LNext => 1
    case LFinish => 1
    case LGone => 0
  }

  function CpuSteps(run: seq<Action>, c: nat): nat {
    if run == [] then 0 else (if run[0] == CpuRuns(c) then 1 else 0) + CpuSteps(run[1..], c)
  }

  function LoaderSteps(run: seq<Action>): nat {
    if run == [] then 0 else (if run[0].LoaderRuns? then 1 else 0) + LoaderSteps(run[1..])
  }

  /** Device `d` has counted no slot, or one if it called next_slot. */
  lemma ProtocolCounts(s: State, b: B.Action)
    requires Enabled(s, Protocol(b))
    ensures var b' := B.Apply(s.bar, b);
            |b'.devs| == |s.bar.devs| && forall d :: 0 <= d < |b'.devs| ==> b'.devs[d].begun == s.bar.devs[d].begun
  {
    B.ProtocolFrame(s.bar, b);
  }

  lemma CpuRankFalls(cfg: Config, s: State, c: nat)
    requires Inv(cfg, s) && CpuEnabled(s, c)
    ensures var s' := CpuRun(cfg, s, c);
            && OthersSame(s, s', c) && Begun(s', c + 1) >= Begun(s, c + 1)
            && CpuRank(s'.cpus[c]) + 1 <= CpuRank(s.cpus[c]) + 5 * (Begun(s', c + 1) - Begun(s, c + 1))
  {
    assert CpuInv(cfg, s, c);
    if AboutToFetch(s.cpus[c]) {
      FetchFrame(cfg, s, c);
      FetchRank(cfg, s, c);
    } else {
      OtherFrame(cfg, s, c);
      OtherRank(cfg, s, c);
    }
  }

  lemma FetchRank(cfg: Config, s: State, c: nat)
    requires Whereabouts(cfg, s) && CpuEnabled(s, c) && AboutToFetch(s.cpus[c]) && s.cpus[c].proc.None?
    ensures var s' := CpuRun(cfg, s, c);
            |s'.cpus| == |s.cpus| && CpuRank(s'.cpus[c]) < CpuRank(s.cpus[c]) && s'.bar == s.bar
  {
    FetchCases(cfg, s, c, if s.cpus[c].loc.CTop? then CIdle else CRecheck);
  }

  lemma OtherRank(cfg: Config, s: State, c: nat)
    requires Shape(cfg, s) && CpuEnabled(s, c) && !AboutToFetch(s.cpus[c])
    ensures var s' := CpuRun(cfg, s, c);
            && |s'.cpus| == |s.cpus| && |s'.bar.devs| == |s.bar.devs|
            && Begun(s', c + 1) == Begun(s, c + 1) + (if s.cpus[c].loc.CNext? || s.cpus[c].loc.CIdle? then 1 else 0)
            && CpuRank(s'.cpus[c]) ==
               (if s.cpus[c].loc.CNext? || s.cpus[c].loc.CIdle? then 5 else CpuRank(s'.cpus[c]))
            && (!(s.cpus[c].loc.CNext? || s.cpus[c].loc.CIdle?) ==> CpuRank(s'.cpus[c]) < CpuRank(s.cpus[c]))
  {
  }

  /** A CPU that does not move keeps its rank and its slot count. */
  lemma CpuUntouched(cfg: Config, s: State, a: Action, c: nat)
    requires Inv(cfg, s) && Enabled(s, a) && c < |s.cpus| && a != CpuRuns(c)
    ensures var s' := Apply(cfg, s, a);
            && |s'.cpus| == |s.cpus| && |s'.bar.devs| == |s.bar.devs|
            && s'.cpus[c] == s.cpus[c] && Begun(s', c + 1) == Begun(s, c + 1)
  {
    match a
    case Protocol(b) => ProtocolCounts(s, b);
    case LoaderRuns =>
    case CpuRuns(d) => CpuRankFalls(cfg, s, d);
  }

  /**
    In every interleaving a CPU takes at most five steps of its own for every call into the barrier: whatever the
    others do, it reaches next_slot, or detaches, after at most four steps.
  */
  lemma {:induction false} CpuMovesOn(cfg: Config, s0: State, run: seq<Action>, s: State, c: nat)
    requires Inv(cfg, s0) && Reaches(cfg, s0, run, s) && c < |s0.cpus|
    ensures |s.cpus| == |s0.cpus| && |s.bar.devs| == |s0.bar.devs| == |s.cpus| + 1
    ensures Begun(s, c + 1) >= Begun(s0, c + 1)
    ensures CpuSteps(run, c) + CpuRank(s.cpus[c]) <= CpuRank(s0.cpus[c]) + 5 * (Begun(s, c + 1) - Begun(s0, c + 1))
    decreases |run|
  {
    if run != [] {
      var s1 := Apply(cfg, s0, run[0]);
      StepKeepsInv(cfg, s0, run[0]);
      if run[0] == CpuRuns(c) { CpuRankFalls(cfg, s0, c); } else { CpuUntouched(cfg, s0, run[0], c); }
      CpuMovesOn(cfg, s1, run[1..], s, c);
    }
  }

  lemma LoaderRankFalls(cfg: Config, s: State)
    requires Shape(cfg, s) && LoaderEnabled(s)
    ensures var s' := LoaderRun(cfg, s);
            && |s'.bar.devs| == |s.bar.devs| && Begun(s', 0) >= Begun(s, 0)
            && LoaderRank(s'.ld) + 1 <= LoaderRank(s.ld) + 3 * (Begun(s', 0) - Begun(s, 0))
  {
  }

  lemma LoaderUntouched(cfg: Config, s: State, a: Action)
    requires Inv(cfg, s) && Enabled(s, a) && !a.LoaderRuns?
    ensures var s' := Apply(cfg, s, a);
            |s'.bar.devs| == |s.bar.devs| && s'.ld == s.ld && Begun(s', 0) == Begun(s, 0)
  {
    match a
    case Protocol(b) => ProtocolCounts(s, b);
    case CpuRuns(d) => CpuRankFalls(cfg, s, d);
  }

  /** The loader takes at most three steps of its own for every call into the barrier. */
  lemma {:induction false} LoaderMovesOn(cfg: Config, s0: State, run: seq<Action>, s: State)
    requires Inv(cfg, s0) && Reaches(cfg, s0, run, s)
    ensures |s.bar.devs| == |s0.bar.devs| > 0 && Begun(s, 0) >= Begun(s0, 0)
    ensures LoaderSteps(run) + LoaderRank(s.ld) <= LoaderRank(s0.ld) + 3 * (Begun(s, 0) - Begun(s0, 0))
    decreases |run|
  {
    if run != [] {
      StepKeepsInv(cfg, s0, run[0]);
      if run[0].LoaderRuns? { LoaderRankFalls(cfg, s0); } else { LoaderUntouched(cfg, s0, run[0]); }
      LoaderMovesOn(cfg, Apply(cfg, s0, run[0]), run[1..], s);
    }
  }

  // ----- admission happens

  lemma {:induction false} SlotsAscend(start: seq<nat>, p: nat, q: nat)
    requires p <= q < |start|
    ensures AdmissionSlot(start, p) <= AdmissionSlot(start, q)
    decreases q
  {
    if p < q { SlotsAscend(start, p, q - 1); }
  }

  /** Once the loader has begun a later slot, or left, a process is admitted, and was in its own slot. */
  lemma AdmittedOnTime(cfg: Config, run: seq<Action>, s: State, p: nat)
    requires ConfigOk(cfg) && Reaches(cfg, Init(cfg), run, s) && p < |cfg.start|
    requires |s.bar.devs| > 0 && (Begun(s, 0) > AdmissionSlot(cfg.start, p) || s.ld.LGone?)
    ensures Admit(p, AdmissionSlot(cfg.start, p)) in s.log
  {
    ReachableInv(cfg, run, s);
    if s.i <= p {
      SlotsAscend(cfg.start, s.i, p);
      if s.i > 0 { SlotsAscend(cfg.start, s.i - 1, p); }
    }
    DeterministicAdmission(cfg, run, s);
  }

  // ----- work in every slot

  /** A fetch finds a process exactly when one is ready. */
  lemma FetchFindsIffReady(cfg: Config, s: State, c: nat)
    requires Whereabouts(cfg, s) && CpuEnabled(s, c) && AboutToFetch(s.cpus[c]) && s.cpus[c].proc.None?
    ensures var s' := CpuRun(cfg, s, c); |s'.cpus| == |s.cpus| && (s'.cpus[c].proc.Some? <==> SomeReady(s))
  {
    FetchCases(cfg, s, c, if s.cpus[c].loc.CTop? then CIdle else CRecheck);
    if S.Get(s.levels).1.None? { NoneFound(cfg, s); }
  }

  /** A CPU that found nothing detaches if the loader has raised its flag, and calls next_slot otherwise. */
  lemma DoubtIsResolved(cfg: Config, s: State, c: nat)
    requires Shape(cfg, s) && CpuEnabled(s, c) && Doubtful(s.cpus[c])
    ensures var u := CpuRun(cfg, s, c).cpus; |u| == |s.cpus| && u[c].loc == if s.done then CStop else CIdle
  {
  }

  /** CPU `c` has been handed a process before. */
  predicate Served(log: seq<Event>, c: nat) {
    exists k :: 0 <= k < |log| && log[k].HandOver? && log[k].c == c
  }

  /** The last thing CPU `c` has done to a process. */
  function LastOf(log: seq<Event>, c: nat): Option<Event> {
    if log == [] then None
    else
      var e := log[|log| - 1];
      if !e.Admit? && e.c == c then Some(e) else LastOf(log[..|log| - 1], c)
  }

  /** The CPU has just freed or put back a process and has not found another one. */
  predicate Between(u: Cpu) { u.loc.CGet? || Doubtful(u) || Stopped(u) }

  /** What CPU `c` has done when it stands where it stands. */
  ghost predicate DoneSoFar(cfg: Config, s: State, c: nat)
    requires Shape(cfg, s) && c < |s.cpus|
  {
    var u := s.cpus[c];
    && (u.loc.CNext? ==>
          cfg.progs[u.proc.value].size == 0 || Exec(c, Begun(s, c + 1), u.proc.value) in s.log)
    && (u.proc.Some? || Between(u) ==> Served(s.log, c))
    && (Between(u) ==> var e := LastOf(s.log, c); e.Some? && (e.value.Requeue? || e.value.Finish?))
  }

  ghost predicate WorkInv(cfg: Config, s: State)
    requires Shape(cfg, s)
  {
    forall c :: 0 <= c < |s.cpus| ==> DoneSoFar(cfg, s, c)
  }

  lemma LogGrows(log: seq<Event>, e: Event, c: nat)
    ensures Served(log, c) ==> Served(log + [e], c)
    ensures e.HandOver? && e.c == c ==> Served(log + [e], c)
    ensures LastOf(log + [e], c) == if !e.Admit? && e.c == c then Some(e) else LastOf(log, c)
    ensures forall x :: x in log ==> x in log + [e]
  {
    assert (log + [e])[..|log|] == log;
    if Served(log, c) {
      var k :| 0 <= k < |log| && log[k].HandOver? && log[k].c == c;
      assert (log + [e])[k] == log[k];
    }
    if e.HandOver? && e.c == c { assert (log + [e])[|log|] == e; }
  }

  /** A step that does not move CPU `c` and logs nothing about it. */
  lemma KeepsDone(cfg: Config, s: State, s': State, c: nat)
    requires Shape(cfg, s) && Shape(cfg, s') && c < |s.cpus| && DoneSoFar(cfg, s, c)
    requires |s'.cpus| == |s.cpus| && s'.cpus[c] == s.cpus[c] && Begun(s', c + 1) == Begun(s, c + 1)
    requires s'.log == s.log ||
             (|s'.log| > 0 && s'.log == s.log + [s'.log[|s'.log| - 1]]
              && (s'.log[|s'.log| - 1].Admit? || s'.log[|s'.log| - 1].c != c))
    ensures DoneSoFar(cfg, s', c)
  {
    if s'.log != s.log { LogGrows(s.log, s'.log[|s'.log| - 1], c); }
  }

  /** What a step of CPU `c` writes to the log: at most one event, about itself. */
  predicate OwnEvent(s: State, s': State, c: nat) {
    s'.log == s.log ||
    (|s'.log| > 0 && s'.log == s.log + [s'.log[|s'.log| - 1]]
     && !s'.log[|s'.log| - 1].Admit? && s'.log[|s'.log| - 1].c == c)
  }

  lemma FetchDone(cfg: Config, s: State, c: nat)
    requires Whereabouts(cfg, s) && CpuEnabled(s, c) && AboutToFetch(s.cpus[c]) && s.cpus[c].proc.None?
    requires DoneSoFar(cfg, s, c) && Shape(cfg, CpuRun(cfg, s, c))
    ensures var s' := CpuRun(cfg, s, c); |s'.cpus| == |s.cpus| && DoneSoFar(cfg, s', c) && OwnEvent(s, s', c)
  {
    FetchCases(cfg, s, c, if s.cpus[c].loc.CTop? then CIdle else CRecheck);
    if S.Get(s.levels).1.Some? { LogGrows(s.log, HandOver(c, S.Get(s.levels).1.value.pid), c); }
  }

  lemma OtherDone(cfg: Config, s: State, c: nat)
    requires Shape(cfg, s) && CpuEnabled(s, c) && !AboutToFetch(s.cpus[c]) && CpuInv(cfg, s, c)
    requires DoneSoFar(cfg, s, c) && Shape(cfg, CpuRun(cfg, s, c)) && Begun(s, c + 1) == s.bar.time
    ensures var s' := CpuRun(cfg, s, c); |s'.cpus| == |s.cpus| && DoneSoFar(cfg, s', c) && OwnEvent(s, s', c)
  {
    var s' := CpuRun(cfg, s, c);
    if s'.log != s.log { LogGrows(s.log, s'.log[|s'.log| - 1], c); }
  }

  lemma CpuKeepsWork(cfg: Config, s: State, c: nat)
    requires Inv(cfg, s) && WorkInv(cfg, s) && CpuEnabled(s, c)
    ensures Shape(cfg, CpuRun(cfg, s, c)) && WorkInv(cfg, CpuRun(cfg, s, c))
  {
    var s' := CpuRun(cfg, s, c);
    StepKeepsInv(cfg, s, CpuRuns(c));
    B.WorkingOnTime(s.bar, c + 1);
    assert CpuInv(cfg, s, c) && DoneSoFar(cfg, s, c);
    CpuRankFalls(cfg, s, c);
    if AboutToFetch(s.cpus[c]) { FetchDone(cfg, s, c); } else { OtherDone(cfg, s, c); }
    forall d | 0 <= d < |s.cpus| ensures DoneSoFar(cfg, s', d) {
      if d != c { KeepsDone(cfg, s, s', d); }
    }
  }

  lemma StepKeepsWork(cfg: Config, s: State, a: Action)
    requires Inv(cfg, s) && WorkInv(cfg, s) && Enabled(s, a)
    ensures Shape(cfg, Apply(cfg, s, a)) && WorkInv(cfg, Apply(cfg, s, a))
  {
    StepKeepsInv(cfg, s, a);
    if a.CpuRuns? {
      CpuKeepsWork(cfg, s, a.c);
    } else {
      var s' := Apply(cfg, s, a);
      forall c | 0 <= c < |s.cpus| ensures |s'.cpus| == |s.cpus| && DoneSoFar(cfg, s', c) {
        CpuUntouched(cfg, s, a, c);
        KeepsDone(cfg, s, s', c);
      }
      assert |s'.cpus| == |s.cpus|;
    }
  }

  lemma {:induction false} RunKeepsWork(cfg: Config, s0: State, run: seq<Action>, s: State)
    requires Inv(cfg, s0) && WorkInv(cfg, s0) && Reaches(cfg, s0, run, s)
    ensures Shape(cfg, s) && WorkInv(cfg, s)
    decreases |run|
  {
    if run != [] {
      StepKeepsInv(cfg, s0, run[0]);
      StepKeepsWork(cfg, s0, run[0]);
      RunKeepsWork(cfg, Apply(cfg, s0, run[0]), run[1..], s);
    }
  }

  lemma ReachableWork(cfg: Config, run: seq<Action>, s: State)
    requires ConfigOk(cfg) && Reaches(cfg, Init(cfg), run, s)
    ensures Shape(cfg, s) && WorkInv(cfg, s)
  {
    InitInv(cfg);
    assert WorkInv(cfg, Init(cfg));
    RunKeepsWork(cfg, Init(cfg), run, s);
  }

  /** A CPU that holds a process calls next_slot only after it has executed an instruction of it in this slot. */
  lemma WorksInEverySlot(cfg: Config, run: seq<Action>, s: State, c: nat)
    requires ConfigOk(cfg) && Reaches(cfg, Init(cfg), run, s) && c < |s.cpus| && s.cpus[c].loc.CNext?
    ensures |s.bar.devs| == |s.cpus| + 1 && s.cpus[c].proc.Some? && s.cpus[c].proc.value < |cfg.progs|
    ensures var p := s.cpus[c].proc.value; cfg.progs[p].size == 0 || Exec(c, Begun(s, c + 1), p) in s.log
  {
    ReachableWork(cfg, run, s);
    assert DoneSoFar(cfg, s, c);
  }

  /**
    A CPU stops only after it has just finished or put back a process, without having been handed another one.  So
    a CPU that was never handed a process never stops.
  */
  lemma StopsAfterServing(cfg: Config, run: seq<Action>, s: State, c: nat)
    requires ConfigOk(cfg) && Reaches(cfg, Init(cfg), run, s) && c < |s.cpus| && Stopped(s.cpus[c])
    ensures LastOf(s.log, c).Some? && (LastOf(s.log, c).value.Requeue? || LastOf(s.log, c).value.Finish?)
    ensures exists k :: 0 <= k < |s.log| && s.log[k].HandOver? && s.log[k].c == c
  {
    ReachableWork(cfg, run, s);
    assert DoneSoFar(cfg, s, c);
  }
}
