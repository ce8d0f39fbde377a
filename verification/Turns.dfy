/**
  Whose turn it is in a run of the simulator (src/os.c over src/sched.c): the ready queues always hold the line that
  can be read off the history, so processes of equal rank are served in turn in every interleaving.
*/
module Turns {
  import opened Common
  import opened Os
  import opened S = Sched

  /** The line without process `p`. */
  function Without(line: seq<Pcb>, p: nat): seq<Pcb> {
    if line == [] then []
    else
      var last := |line| - 1;
      Without(line[..last], p) + (if line[last].pid == p then [] else [line[last]])
  }

  /** Process `p` goes to the end of the line, unless ten processes of its prio stand there already. */
  function Join(cfg: Config, line: seq<Pcb>, p: nat): seq<Pcb> {
    if p < |cfg.progs| && |OfLevel(line, cfg.progs[p].prio)| < MAX_QUEUE_SIZE
    then line + [Pcb(p, cfg.progs[p].prio, cfg.progs[p].priority)]
    else line
  }

  /** A process joins when it is admitted or put back, and leaves when it is handed over. */
  function LineAfter(cfg: Config, line: seq<Pcb>, e: Event): seq<Pcb> {
    if e.Admit? || e.Requeue? then Join(cfg, line, e.p)
    else if e.HandOver? then Without(line, e.p)
    else line
  }

  /** Who is waiting, read off the history. */
  function LineOf(cfg: Config, log: seq<Event>): seq<Pcb> {
    if log == [] then [] else LineAfter(cfg, LineOf(cfg, log[..|log| - 1]), log[|log| - 1])
  }

  lemma LineExtend(cfg: Config, log: seq<Event>, e: Event)
    ensures LineOf(cfg, log + [e]) == LineAfter(cfg, LineOf(cfg, log), e)
  {
    assert (log + [e])[..|log|] == log;
  }

  ghost predicate UniquePids(line: seq<Pcb>) {
    forall i, j :: 0 <= i < j < |line| ==> line[i].pid != line[j].pid
  }

  lemma {:induction false} WithoutNobody(line: seq<Pcb>, p: nat)
    requires forall i :: 0 <= i < |line| ==> line[i].pid != p
    ensures Without(line, p) == line
    decreases |line|
  {
    if line != [] {
      WithoutNobody(line[..|line| - 1], p);
    }
  }

  lemma {:induction false} WithoutOne(line: seq<Pcb>, j: nat)
    requires UniquePids(line) && j < |line|
    ensures Without(line, line[j].pid) == RemoveAt(line, j)
    decreases |line|
  {
    var last := |line| - 1;
    if j == last {
      WithoutNobody(line[..last], line[j].pid);
    } else {
      WithoutOne(line[..last], j);
      assert RemoveAt(line, j) == RemoveAt(line[..last], j) + [line[last]];
    }
  }

  // ----- the queues hold the line

  /** What the history says about the line at one moment, and about every hand-over so far. */
  ghost predicate LineInv(cfg: Config, s: State) {
    && Represents(s.levels, LineOf(cfg, s.log)) && UniquePids(LineOf(cfg, s.log))
    && ServedInOrder(cfg, s.log)
  }

  /** Every process handed over was the one whose turn it was, and nobody ever stood in the line twice. */
  ghost predicate ServedInOrder(cfg: Config, log: seq<Event>) {
    forall k :: 0 <= k < |log| ==> ServedAt(cfg, log, k)
  }

  ghost predicate ServedAt(cfg: Config, log: seq<Event>, k: nat)
    requires k < |log|
  {
    var line := LineOf(cfg, log[..k]);
    UniquePids(line) && (log[k].HandOver? ==> line != [] && log[k].p == line[Next(line)].pid)
  }

  lemma ServedExtend(cfg: Config, log: seq<Event>, e: Event)
    requires ServedInOrder(cfg, log) && UniquePids(LineOf(cfg, log))
    requires e.HandOver? ==> var line := LineOf(cfg, log); line != [] && e.p == line[Next(line)].pid
    ensures ServedInOrder(cfg, log + [e])
  {
    var log' := log + [e];
    forall k | 0 <= k < |log'| ensures ServedAt(cfg, log', k) {
      assert log'[..k] == log[..k];
      if k == |log| { assert log[..k] == log; } else { assert ServedAt(cfg, log, k); }
    }
  }

  /** Whoever stands in the line is ready. */
  lemma InLineIsReady(cfg: Config, s: State, i: nat)
    requires Shape(cfg, s) && QueueInv(cfg, s) && Represents(s.levels, LineOf(cfg, s.log))
    requires i < |LineOf(cfg, s.log)|
    ensures var x := LineOf(cfg, s.log)[i]; x.pid < |s.place| && s.place[x.pid].Ready?
  {
    var line := LineOf(cfg, s.log);
    OfLevelMembers(line, line[i].prio);
    assert line[i] in s.levels[line[i].prio];
  }

  /** A process that is not ready joins the line where its block joins the queues. */
  lemma JoinRepresents(cfg: Config, s: State, p: nat)
    requires Shape(cfg, s) && QueueInv(cfg, s) && Represents(s.levels, LineOf(cfg, s.log))
    requires UniquePids(LineOf(cfg, s.log)) && p < |s.place| && !s.place[p].Ready?
    ensures var line := Join(cfg, LineOf(cfg, s.log), p);
            Represents(Enlist(cfg, s, p).levels, line) && UniquePids(line)
  {
    var line := LineOf(cfg, s.log);
    PutRefinesLine(s.levels, line, PcbOf(cfg, p));
    forall i | 0 <= i < |line| ensures line[i].pid != p { InLineIsReady(cfg, s, i); }
  }

  /** The process get_proc returns is the one whose turn it is. */
  lemma HandOverRepresents(cfg: Config, s: State)
    requires Represents(s.levels, LineOf(cfg, s.log)) && UniquePids(LineOf(cfg, s.log)) && Get(s.levels).1.Some?
    ensures var line, x := LineOf(cfg, s.log), Get(s.levels).1.value;
            && line != [] && x == line[Next(line)]
            && Represents(Get(s.levels).0, Without(line, x.pid)) && UniquePids(Without(line, x.pid))
  {
    var line := LineOf(cfg, s.log);
    GetRefinesLine(s.levels, line);
    WithoutOne(line, Next(line));
  }

  /** A step that adds to the log an event which concerns no queue, or none at all. */
  lemma QuietLine(cfg: Config, s: State, s': State)
    requires LineInv(cfg, s) && s'.levels == s.levels
    requires s'.log == s.log ||
             (|s'.log| > 0 && s'.log == s.log + [s'.log[|s'.log| - 1]]
              && var e := s'.log[|s'.log| - 1]; e.Dispatch? || e.Exec? || e.Finish?)
    ensures LineInv(cfg, s')
  {
    if s'.log != s.log {
      var e := s'.log[|s'.log| - 1];
      LineExtend(cfg, s.log, e);
      ServedExtend(cfg, s.log, e);
    }
  }

  lemma JoinLine(cfg: Config, s: State, s': State, p: nat, e: Event)
    requires LineInv(cfg, s) && Shape(cfg, s) && QueueInv(cfg, s) && p < |s.place| && !s.place[p].Ready?
    requires s'.levels == Enlist(cfg, s, p).levels && s'.log == s.log + [e]
    requires (e.Admit? || e.Requeue?) && e.p == p
    ensures LineInv(cfg, s')
  {
    JoinRepresents(cfg, s, p);
    LineExtend(cfg, s.log, e);
    ServedExtend(cfg, s.log, e);
  }

  lemma HandOverLine(cfg: Config, s: State, s': State, c: nat)
    requires LineInv(cfg, s) && Get(s.levels).1.Some?
    requires s'.levels == Get(s.levels).0 && s'.log == s.log + [HandOver(c, Get(s.levels).1.value.pid)]
    ensures LineInv(cfg, s')
  {
    HandOverRepresents(cfg, s);
    LineExtend(cfg, s.log, HandOver(c, Get(s.levels).1.value.pid));
    ServedExtend(cfg, s.log, HandOver(c, Get(s.levels).1.value.pid));
  }

  lemma LoaderKeepsLine(cfg: Config, s: State)
    requires Inv(cfg, s) && LineInv(cfg, s) && LoaderEnabled(s)
    ensures LineInv(cfg, LoaderRun(cfg, s))
  {
    var s' := LoaderRun(cfg, s);
    if s.ld.LAdd? {
      JoinLine(cfg, s, s', s.i, Admit(s.i, s.bar.time));
    } else {
      QuietLine(cfg, s, s');
    }
  }

  lemma FetchKeepsLine(cfg: Config, s: State, c: nat)
    requires Whereabouts(cfg, s) && LineInv(cfg, s) && CpuEnabled(s, c) && AboutToFetch(s.cpus[c])
    requires s.cpus[c].proc.None?
    ensures LineInv(cfg, CpuRun(cfg, s, c))
  {
    var s' := CpuRun(cfg, s, c);
    FetchCases(cfg, s, c, if s.cpus[c].loc.CTop? then CIdle else CRecheck);
    if Get(s.levels).1.Some? { HandOverLine(cfg, s, s', c); } else { QuietLine(cfg, s, s'); }
  }

  lemma OtherKeepsLine(cfg: Config, s: State, c: nat)
    requires Whereabouts(cfg, s) && LineInv(cfg, s) && CpuEnabled(s, c) && !AboutToFetch(s.cpus[c])
    ensures LineInv(cfg, CpuRun(cfg, s, c))
  {
    var s', u := CpuRun(cfg, s, c), s.cpus[c];
    if u.loc.CTop? && s.pc[u.proc.value] != cfg.progs[u.proc.value].size && u.timeLeft == 0 {
      JoinLine(cfg, s, s', u.proc.value, Requeue(c, u.proc.value));
    } else {
      QuietLine(cfg, s, s');
    }
  }

  lemma StepKeepsLine(cfg: Config, s: State, a: Action)
    requires Inv(cfg, s) && LineInv(cfg, s) && Enabled(s, a)
    ensures LineInv(cfg, Apply(cfg, s, a))
  {
    match a
    case Protocol(_) => QuietLine(cfg, s, Apply(cfg, s, a));
    case LoaderRuns => LoaderKeepsLine(cfg, s);
    case CpuRuns(c) =>
      assert CpuInv(cfg, s, c);
      if AboutToFetch(s.cpus[c]) { FetchKeepsLine(cfg, s, c); } else { OtherKeepsLine(cfg, s, c); }
  }

  lemma InitLine(cfg: Config)
    ensures LineInv(cfg, Init(cfg))
  {
  }

  lemma {:induction false} RunKeepsLine(cfg: Config, s0: State, run: seq<Action>, s: State)
    requires Inv(cfg, s0) && LineInv(cfg, s0) && Reaches(cfg, s0, run, s)
    ensures LineInv(cfg, s)
    decreases |run|
  {
    if run != [] {
      StepKeepsInv(cfg, s0, run[0]);
      StepKeepsLine(cfg, s0, run[0]);
      RunKeepsLine(cfg, Apply(cfg, s0, run[0]), run[1..], s);
    }
  }

  lemma ReachableLine(cfg: Config, run: seq<Action>, s: State)
    requires ConfigOk(cfg) && Reaches(cfg, Init(cfg), run, s)
    ensures LineInv(cfg, s)
  {
    InitInv(cfg);
    InitLine(cfg);
    RunKeepsLine(cfg, Init(cfg), run, s);
  }

  /** Process `p` is the first of the line by (prio, priority, arrival). */
  ghost predicate ItsTurn(line: seq<Pcb>, p: nat) {
    exists j :: 0 <= j < |line| && IsNext(line, j) && line[j].pid == p
  }

  lemma ServedWasNext(cfg: Config, log: seq<Event>, k: nat)
    requires ServedInOrder(cfg, log) && k < |log| && log[k].HandOver?
    ensures ItsTurn(LineOf(cfg, log[..k]), log[k].p)
  {
    assert ServedAt(cfg, log, k);
    var line := LineOf(cfg, log[..k]);
    assert IsNext(line, Next(line));
  }

  /**
    The queues hold the line.  In every interleaving each level holds, in order, the processes of its prio that the
    history says are waiting, and every hand-over so far went to the process whose turn it was.
  */
  lemma QueuesHoldTheLine(cfg: Config, run: seq<Action>, s: State)
    requires ConfigOk(cfg) && Reaches(cfg, Init(cfg), run, s)
    ensures forall l :: 0 <= l < MAX_PRIO ==> s.levels[l] == OfLevel(LineOf(cfg, s.log), l)
    ensures forall k :: 0 <= k < |s.log| && s.log[k].HandOver? ==> ItsTurn(LineOf(cfg, s.log[..k]), s.log[k].p)
  {
    ReachableLine(cfg, run, s);
    forall k | 0 <= k < |s.log| && s.log[k].HandOver? ensures ItsTurn(LineOf(cfg, s.log[..k]), s.log[k].p) {
      ServedWasNext(cfg, s.log, k);
    }
  }

  // ----- round robin

  /** The number of hand-overs from event `a` up to, but not including, event `b`. */
  function HandOvers(log: seq<Event>, a: nat, b: nat): nat
    requires a <= b <= |log|
    decreases b
  {
    if a == b then 0 else HandOvers(log, a, b - 1) + (if log[b - 1].HandOver? then 1 else 0)
  }

  /** From event `a` up to event `b` nobody smaller than `x` joins the line. */
  ghost predicate NobodySmallerJoins(cfg: Config, log: seq<Event>, a: nat, b: nat, x: Pcb)
    requires b <= |log|
  {
    forall i :: a <= i < b && (log[i].Admit? || log[i].Requeue?) && log[i].p < |cfg.progs| ==>
      !Before(PcbOf(cfg, log[i].p), x)
  }

  ghost predicate NobodySmaller(line: seq<Pcb>, x: Pcb) {
    forall i :: 0 <= i < |line| ==> !Before(line[i], x)
  }

  /** One hand-over takes an equal from in front. */
  lemma TurnComesCloser(line: seq<Pcb>, j: nat, p: nat)
    requires UniquePids(line) && j < |line| && NobodySmaller(line, line[j]) && Ahead(line, j) > 0
    requires p == line[Next(line)].pid
    ensures var line' := Without(line, p);
            && 0 < j <= |line'| && line'[j - 1] == line[j] && Ahead(line', j - 1) == Ahead(line, j) - 1
            && NobodySmaller(line', line[j])
  {
    GetServesInTurn(line, j);
    WithoutOne(line, Next(line));
  }

  /** Position `j` of the line is held by `x`, behind `n` equals and nobody smaller. */
  ghost predicate Stands(line: seq<Pcb>, j: nat, x: Pcb, n: int) {
    j < |line| && line[j] == x && NobodySmaller(line, x) && Ahead(line, j) == n
  }

  /** Where the process stands after the events up to `b`, as long as its turn has not come. */
  lemma {:induction false} StandsAt(cfg: Config, log: seq<Event>, a: nat, j: nat, b: nat, x: Pcb, n: int)
    returns (j': nat)
    requires a <= b <= |log| && ServedInOrder(cfg, log) && Stands(LineOf(cfg, log[..a]), j, x, n)
    requires NobodySmallerJoins(cfg, log, a, b, x) && HandOvers(log, a, b) <= n
    ensures Stands(LineOf(cfg, log[..b]), j', x, n - HandOvers(log, a, b))
    decreases b
  {
    if a == b {
      j' := j;
    } else {
      var k := StandsAt(cfg, log, a, j, b - 1, x, n);
      assert ServedAt(cfg, log, b - 1);
      assert log[..b] == log[..b - 1] + [log[b - 1]];
      j' := StandsAfter(cfg, log[..b - 1], log[b - 1], k, x, n - HandOvers(log, a, b - 1));
    }
  }

  lemma StandsAfter(cfg: Config, log: seq<Event>, e: Event, k: nat, x: Pcb, n: int) returns (j': nat)
    requires UniquePids(LineOf(cfg, log)) && Stands(LineOf(cfg, log), k, x, n)
    requires e.HandOver? ==> e.p == LineOf(cfg, log)[Next(LineOf(cfg, log))].pid && n > 0
    requires (e.Admit? || e.Requeue?) && e.p < |cfg.progs| ==> !Before(PcbOf(cfg, e.p), x)
    ensures Stands(LineOf(cfg, log + [e]), j', x, n - (if e.HandOver? then 1 else 0))
  {
    var line := LineOf(cfg, log);
    LineExtend(cfg, log, e);
    if e.HandOver? {
      TurnComesCloser(line, k, e.p);
      j' := k - 1;
    } else {
      j' := k;
      assert LineOf(cfg, log + [e])[..k] == line[..k];
    }
  }

  /**
    Round robin.  In every interleaving, a process that stands in the line after the first `a` events with k equals in
    front, while nobody smaller waits or joins, still waits until hand-over number k+1 from there, and that hand-over,
    event `t`, is its own.
  */
  lemma RoundRobinInRuns(cfg: Config, run: seq<Action>, s: State, a: nat, j: nat, t: nat)
    requires ConfigOk(cfg) && Reaches(cfg, Init(cfg), run, s) && a <= t < |s.log|
    requires j < |LineOf(cfg, s.log[..a])|
    requires var line := LineOf(cfg, s.log[..a]);
             && NobodySmaller(line, line[j]) && NobodySmallerJoins(cfg, s.log, a, t, line[j])
             && HandOvers(s.log, a, t) == Ahead(line, j)
    requires s.log[t].HandOver?
    ensures s.log[t].p == LineOf(cfg, s.log[..a])[j].pid
    ensures LineOf(cfg, s.log[..a])[j] in LineOf(cfg, s.log[..t])
  {
    ReachableLine(cfg, run, s);
    var line := LineOf(cfg, s.log[..a]);
    var k := StandsAt(cfg, s.log, a, j, t, line[j], Ahead(line, j));
    assert ServedAt(cfg, s.log, t);
    GetServesInTurn(LineOf(cfg, s.log[..t]), k);
  }
}
