/**
  What whole runs of the paged machine show to its users: the order in which pages enter and leave, the swap slots
  they go to, what the heap of each process is, and what every read and write answers.  Everything here is told
  from the operations of the run and from the page tables before and after each of them.
*/
module Runs {
  import opened Common
  import opened Pte
  import opened Paging
  import opened Refinement
  import R = Regions

  // ----- the order of replacement

  /** The pages that enter by one operation: those an allocation maps, in ascending order, or the one faulted in. */
  ghost function EntersAt(m: Machine, op: Op, m': Machine, pid: nat): seq<nat>
    requires Shape(m)
  {
    if op.Alloc? && op.pid == pid && pid in m.procs && R.ValidId(op.rgid) && op.size > 0 then
      match GrowthOf(m, op)
      case NoGrowth => []
      case MapPages(start, count) => if start >= 0 && 0 <= count <= |m.ram.free| then Range(start, count) else []
    else if (op.Read? || op.Write?) && op.pid == pid
            && !Mapped(m, pid, op.addr / PAGE_SIZE) && Mapped(m', pid, op.addr / PAGE_SIZE) then
      [op.addr / PAGE_SIZE]
    else []
  }

  /** The page was resident and has been evicted. */
  ghost predicate TurnsOut(m: Machine, m': Machine, pid: nat, p: nat) {
    && Mapped(m, pid, p) && m.procs[pid].pgd[p].Resident?
    && Mapped(m', pid, p) && m'.procs[pid].pgd[p].Evicted?
  }

  ghost function LeavesAt(m: Machine, m': Machine, pid: nat): seq<nat> {
    if exists p: nat :: TurnsOut(m, m', pid, p) then
      var p: nat :| TurnsOut(m, m', pid, p); [p]
    else []
  }

  ghost function EnteredPages(frames: nat, slots: nat, ops: seq<Op>, pid: nat): seq<nat>
    requires Legal(frames, slots, ops)
    decreases |ops|
  {
    if ops == [] then []
    else
      var before := ops[..|ops| - 1];
      EnteredPages(frames, slots, before, pid)
      + EntersAt(Run(frames, slots, before), ops[|ops| - 1], Run(frames, slots, ops), pid)
  }

  ghost function VictimPages(frames: nat, slots: nat, ops: seq<Op>, pid: nat): seq<nat>
    requires Legal(frames, slots, ops)
    decreases |ops|
  {
    if ops == [] then []
    else
      var before := ops[..|ops| - 1];
      VictimPages(frames, slots, before, pid) + LeavesAt(Run(frames, slots, before), Run(frames, slots, ops), pid)
  }

  function FifoOf(m: Machine, pid: nat): seq<nat> { if pid in m.procs then m.procs[pid].fifo else [] }

  lemma ReverseConcat<T>(a: seq<T>, b: seq<T>)
    ensures Reverse(a + b) == Reverse(b) + Reverse(a)
  {
  }

  lemma ReverseTwice<T>(a: seq<T>)
    ensures Reverse(Reverse(a)) == a
  {
  }

  lemma AddLater(a: seq<nat>, b: seq<nat>, c: seq<nat>)
    ensures (a + b) + c == a + (b + c)
  {
  }

  lemma {:induction false} MapOrder(entered: seq<nat>, victims: seq<nat>, fifo: seq<nat>, added: seq<nat>)
    requires entered == victims + Reverse(fifo)
    ensures entered + added == victims + Reverse(Reverse(added) + fifo)
  {
    ReverseConcat(Reverse(added), fifo);
    ReverseTwice(added);
    AddLater(victims, Reverse(fifo), added);
  }

  lemma {:induction false} FaultOrder(entered: seq<nat>, victims: seq<nat>, fifo: seq<nat>, pgn: nat)
    requires entered == victims + Reverse(fifo) && fifo != []
    ensures var last := |fifo| - 1;
            entered + [pgn] == (victims + [fifo[last]]) + Reverse([pgn] + fifo[..last])
  {
    var last := |fifo| - 1;
    assert fifo == fifo[..last] + [fifo[last]];
    ReverseConcat(fifo[..last], [fifo[last]]);
    ReverseConcat([pgn], fifo[..last]);
    assert Reverse([fifo[last]]) == [fifo[last]] && Reverse([pgn]) == [pgn];
  }

  /** What a step adds to both histories keeps them in agreement with the list. */
  ghost predicate OrderKept(m: Machine, op: Op, m': Machine, pid: nat)
    requires Shape(m)
  {
    forall entered, victims :: entered == victims + Reverse(FifoOf(m, pid)) ==>
      entered + EntersAt(m, op, m', pid) == (victims + LeavesAt(m, m', pid)) + Reverse(FifoOf(m', pid))
  }

  /** Nothing enters and nothing leaves. */
  lemma QuietOrder(m: Machine, op: Op, m': Machine, pid: nat)
    requires Shape(m) && FifoOf(m', pid) == FifoOf(m, pid) && EntersAt(m, op, m', pid) == []
    requires forall p: nat :: !TurnsOut(m, m', pid, p)
    ensures OrderKept(m, op, m', pid)
  {
    forall entered, victims | entered == victims + Reverse(FifoOf(m, pid))
      ensures entered + EntersAt(m, op, m', pid) == (victims + LeavesAt(m, m', pid)) + Reverse(FifoOf(m', pid))
    {
      assert entered + [] == entered && victims + [] == victims;
    }
  }

  lemma GrowthOrder(m: Machine, op: Op, m': Machine, pid: nat, added: seq<nat>)
    requires Shape(m) && FifoOf(m', pid) == Reverse(added) + FifoOf(m, pid) && EntersAt(m, op, m', pid) == added
    requires forall p: nat :: !TurnsOut(m, m', pid, p)
    ensures OrderKept(m, op, m', pid)
  {
    forall entered, victims | entered == victims + Reverse(FifoOf(m, pid))
      ensures entered + EntersAt(m, op, m', pid) == (victims + LeavesAt(m, m', pid)) + Reverse(FifoOf(m', pid))
    {
      MapOrder(entered, victims, FifoOf(m, pid), added);
      assert victims + [] == victims;
    }
  }

  lemma SwapOrder(m: Machine, op: Op, m': Machine, pid: nat, pgn: nat)
    requires Shape(m) && FifoOf(m, pid) != [] && EntersAt(m, op, m', pid) == [pgn]
    requires FifoOf(m', pid) == [pgn] + FifoOf(m, pid)[..|FifoOf(m, pid)| - 1]
    requires forall p: nat :: TurnsOut(m, m', pid, p) <==> p == FifoOf(m, pid)[|FifoOf(m, pid)| - 1]
    ensures OrderKept(m, op, m', pid)
  {
    var fifo := FifoOf(m, pid);
    assert TurnsOut(m, m', pid, fifo[|fifo| - 1]);
    forall entered, victims | entered == victims + Reverse(fifo)
      ensures entered + EntersAt(m, op, m', pid) == (victims + LeavesAt(m, m', pid)) + Reverse(FifoOf(m', pid))
    {
      FaultOrder(entered, victims, fifo, pgn);
    }
  }

  lemma AllocOrder(m: Machine, op: Op, pid: nat)
    requires Inv(m) && op.Alloc? && Allowed(m, op)
    ensures OrderKept(m, op, Step(m, op).0, pid)
  {
    var m' := Step(m, op).0;
    assert ProcInv(m.procs[op.pid]);
    GrowthFacts(m.procs[op.pid].heap, op.rgid, op.size);
    AllocTurnsNone(m, op, pid);
    if pid == op.pid && GrowthOf(m, op).MapPages? && GrowthOf(m, op).count <= |m.ram.free| {
      var g := GrowthOf(m, op);
      assert |TakeFrames(m.ram.free, g.count).1| == g.count;
      GrowthOrder(m, op, m', pid, Range(g.start, g.count));
    } else {
      QuietOrder(m, op, m', pid);
    }
  }

  lemma AllocTurnsNone(m: Machine, op: Op, pid: nat)
    requires Shape(m) && op.Alloc? && Allowed(m, op)
    ensures forall p: nat :: !TurnsOut(m, Step(m, op).0, pid, p)
  {
  }

  /** A touch: either nothing moves, or the oldest page leaves and the touched page enters. */
  lemma TouchOrder(m: Machine, op: Op, pid: nat, m': Machine)
    requires Inv(m) && (op.Read? || op.Write?) && Allowed(m, op)
    requires m'.procs == Touch(m, op.pid, op.addr / PAGE_SIZE).procs
    ensures OrderKept(m, op, m', pid)
  {
    var pgn := op.addr / PAGE_SIZE;
    if pid == op.pid && CanFault(m.procs[pid], m.ram, m.swap, pgn) {
      FaultParts(m, pid, pgn);
      FaultTurnsVictim(m, pid, pgn, m');
      SwapOrder(m, op, m', pid, pgn);
    } else {
      QuietOrder(m, op, m', pid);
    }
  }

  lemma FaultTurnsVictim(m: Machine, pid: nat, pgn: nat, m': Machine)
    requires Inv(m) && pid in m.procs && CanFault(m.procs[pid], m.ram, m.swap, pgn)
    requires m'.procs == Touch(m, pid, pgn).procs
    ensures var pr := m.procs[pid];
            forall p: nat :: TurnsOut(m, m', pid, p) <==> p == pr.fifo[|pr.fifo| - 1]
  {
    FaultParts(m, pid, pgn);
  }

  lemma StepOrder(m: Machine, op: Op, pid: nat)
    requires Inv(m) && Allowed(m, op)
    ensures OrderKept(m, op, Step(m, op).0, pid)
  {
    match op
    case Alloc(_, _, _) => AllocOrder(m, op, pid);
    case Read(_, _) => TouchOrder(m, op, pid, Step(m, op).0);
    case Write(_, _, _) => TouchOrder(m, op, pid, Step(m, op).0);
    case Release(_, _) => QuietOrder(m, op, Step(m, op).0, pid);
    case Load(_) => QuietOrder(m, op, Step(m, op).0, pid);
  }

  /**
    FIFO replacement.  Over every run the pages of a process that turn from resident to evicted do so in the order
    in which they entered, and the list holds exactly the resident pages, each once: those that have entered and
    not left, the youngest first.
  */
  lemma {:induction false} FifoReplacement(frames: nat, slots: nat, ops: seq<Op>, m: Machine, pid: nat)
    requires Legal(frames, slots, ops) && m == Run(frames, slots, ops)
    ensures EnteredPages(frames, slots, ops, pid) == VictimPages(frames, slots, ops, pid) + Reverse(FifoOf(m, pid))
    ensures VictimPages(frames, slots, ops, pid) <= EnteredPages(frames, slots, ops, pid)
    ensures pid in m.procs ==>
              && NoDuplicates(m.procs[pid].fifo)
              && forall p :: 0 <= p < |m.procs[pid].pgd| ==>
                   (p in m.procs[pid].fifo <==> m.procs[pid].pgd[p].Resident?)
    decreases |ops|
  {
    RunInv(frames, slots, ops);
    if pid in m.procs { assert ProcInv(m.procs[pid]); }
    if ops != [] {
      var before := ops[..|ops| - 1];
      FifoReplacement(frames, slots, before, Run(frames, slots, before), pid);
      RunInv(frames, slots, before);
      StepOrder(Run(frames, slots, before), ops[|ops| - 1], pid);
    }
  }

  // ----- the slots of swap

  ghost predicate Evicts(m: Machine, m': Machine) {
    exists pid: nat, p: nat :: TurnsOut(m, m', pid, p)
  }

  /** How many pages, of whatever process, a run has evicted. */
  ghost function Evictions(frames: nat, slots: nat, ops: seq<Op>): nat
    requires Legal(frames, slots, ops)
    decreases |ops|
  {
    if ops == [] then 0
    else
      var before := ops[..|ops| - 1];
      Evictions(frames, slots, before) + (if Evicts(Run(frames, slots, before), Run(frames, slots, ops)) then 1 else 0)
  }

  /** A step that evicts takes the first free slot for the one page it evicts; any other step leaves the slots. */
  ghost predicate TakesFirstSlot(m: Machine, m': Machine) {
    if Evicts(m, m') then
      && m.swap.free != [] && m'.swap.free == m.swap.free[1..]
      && forall pid: nat, p: nat :: TurnsOut(m, m', pid, p) ==> m'.procs[pid].pgd[p] == Evicted(0, m.swap.free[0])
    else m'.swap.free == m.swap.free
  }

  lemma TouchTakesSlot(m: Machine, op: Op, m': Machine)
    requires Inv(m) && (op.Read? || op.Write?) && Allowed(m, op)
    requires var t := Touch(m, op.pid, op.addr / PAGE_SIZE); m'.procs == t.procs && m'.swap == t.swap
    ensures TakesFirstSlot(m, m')
  {
    var pgn := op.addr / PAGE_SIZE;
    if CanFault(m.procs[op.pid], m.ram, m.swap, pgn) {
      FaultParts(m, op.pid, pgn);
      FaultTurnsVictim(m, op.pid, pgn, m');
      assert TurnsOut(m, m', op.pid, m.procs[op.pid].fifo[|m.procs[op.pid].fifo| - 1]);
    }
  }

  lemma StepTakesSlot(m: Machine, op: Op)
    requires Inv(m) && Allowed(m, op)
    ensures TakesFirstSlot(m, Step(m, op).0)
  {
    if op.Read? || op.Write? {
      TouchTakesSlot(m, op, Step(m, op).0);
    } else if op.Alloc? {
      forall pid: nat, p: nat ensures !TurnsOut(m, Step(m, op).0, pid, p) { AllocTurnsNone(m, op, pid); }
    }
  }

  /** The free slots are those from `k` on, in ascending order. */
  predicate FreeFrom(m: Machine, k: nat, slots: nat) {
    k <= slots && m.swap.free == Range(k, slots - k)
  }

  lemma NextSlot(m: Machine, m': Machine, k: nat, slots: nat)
    requires TakesFirstSlot(m, m') && FreeFrom(m, k, slots)
    ensures FreeFrom(m', k + (if Evicts(m, m') then 1 else 0), slots)
  {
  }

  lemma EvictedNext(m: Machine, op: Op, pid: nat, p: nat, k: nat, slots: nat)
    requires Inv(m) && Allowed(m, op) && FreeFrom(m, k, slots)
    requires TurnsOut(m, Step(m, op).0, pid, p)
    ensures Step(m, op).0.procs[pid].pgd[p] == Evicted(0, k)
  {
    StepTakesSlot(m, op);
    assert Evicts(m, Step(m, op).0);
  }

  /** Slots are handed out in ascending order, one for each page evicted, and never come back. */
  lemma {:induction false} SwapFillsInOrder(frames: nat, slots: nat, ops: seq<Op>)
    requires Legal(frames, slots, ops)
    ensures FreeFrom(Run(frames, slots, ops), Evictions(frames, slots, ops), slots)
    decreases |ops|
  {
    if ops == [] {
      assert FreeFrom(Boot(frames, slots), 0, slots);
    } else {
      var before := ops[..|ops| - 1];
      SwapFillsInOrder(frames, slots, before);
      RunInv(frames, slots, before);
      StepTakesSlot(Run(frames, slots, before), ops[|ops| - 1]);
      NextSlot(Run(frames, slots, before), Run(frames, slots, ops), Evictions(frames, slots, before), slots);
    }
  }

  /** The page that a run evicts after `k` others, of whatever process, goes to slot `k`. */
  lemma EvictedToSlot(frames: nat, slots: nat, ops: seq<Op>, op: Op, pid: nat, p: nat)
    requires Legal(frames, slots, ops) && Shape(Run(frames, slots, ops)) && Allowed(Run(frames, slots, ops), op)
    requires TurnsOut(Run(frames, slots, ops), Step(Run(frames, slots, ops), op).0, pid, p)
    ensures Step(Run(frames, slots, ops), op).0.procs[pid].pgd[p] == Evicted(0, Evictions(frames, slots, ops))
  {
    RunInv(frames, slots, ops);
    SwapFillsInOrder(frames, slots, ops);
    EvictedNext(Run(frames, slots, ops), op, pid, p, Evictions(frames, slots, ops), slots);
  }

  // ----- the heap of each process

  /** The allocations and frees of one process. */
  function RegionOps(ops: seq<Op>, pid: nat): seq<R.Op> {
    if ops == [] then []
    else
      var rest := RegionOps(ops[..|ops| - 1], pid);
      match ops[|ops| - 1]
      case Alloc(q, rgid, size) => if q == pid then rest + [R.AllocOp(rgid, size)] else rest
      case Release(q, rgid) => if q == pid then rest + [R.FreeOp(rgid)] else rest
      case _ => rest
  }

  predicate ValidOps(ops: seq<R.Op>) { forall i :: 0 <= i < |ops| ==> R.ValidOp(ops[i]) }

  /** How one operation moves the heap of a process. */
  lemma StepHeap(m: Machine, op: Op, pid: nat)
    requires Inv(m) && Allowed(m, op) && pid in m.procs
    ensures var m' := Step(m, op).0;
            && pid in m'.procs
            && m'.procs[pid].heap ==
               (match op
                case Alloc(q, rgid, size) =>
                  if q == pid then R.Alloc(m.procs[pid].heap, rgid, size).0 else m.procs[pid].heap
                case Release(q, rgid) =>
                  if q == pid then R.Release(m.procs[pid].heap, rgid).0 else m.procs[pid].heap
                case _ => m.procs[pid].heap)
  {
    if op.Read? || op.Write? { TouchHeap(m, op.pid, op.addr / PAGE_SIZE); }
  }

  /**
    The heap of a process after a run is what its own allocations and frees make of an empty heap, whatever the
    other processes and all reads and writes do; what is proved of region runs holds of it.
  */
  lemma {:induction false} HeapsAreRegionRuns(frames: nat, slots: nat, ops: seq<Op>, pid: nat)
    requires Legal(frames, slots, ops)
    ensures ValidOps(RegionOps(ops, pid))
    ensures var m := Run(frames, slots, ops);
            if pid in m.procs then m.procs[pid].heap == R.Run(R.InitHeap(), RegionOps(ops, pid))
            else RegionOps(ops, pid) == []
    decreases |ops|
  {
    if ops != [] {
      var before, op := ops[..|ops| - 1], ops[|ops| - 1];
      HeapsAreRegionRuns(frames, slots, before, pid);
      RunInv(frames, slots, before);
      var m := Run(frames, slots, before);
      if pid in m.procs {
        StepHeap(m, op, pid);
        var rest := RegionOps(before, pid);
        assert RegionOps(ops, pid) != rest ==> RegionOps(ops, pid)[..|rest|] == rest;
      } else {
        StepOther(m, op, pid);
      }
    }
  }

  lemma StepOther(m: Machine, op: Op, pid: nat)
    requires Shape(m) && Allowed(m, op) && pid !in m.procs
    ensures pid in Step(m, op).0.procs ==> op == Op.Load(pid) && Step(m, op).0.procs[pid] == NewProc()
    ensures op.Alloc? || op.Release? ==> op.pid != pid
  {
    if op.Read? || op.Write? { TouchHeap(m, op.pid, op.addr / PAGE_SIZE); }
  }

  /** After every run a free succeeds exactly if the last request for the identifier has not been freed since. */
  lemma FreeAnswers(frames: nat, slots: nat, ops: seq<Op>, pid: nat, rgid: int)
    requires Legal(frames, slots, ops) && Shape(Run(frames, slots, ops))
    requires Allowed(Run(frames, slots, ops), Release(pid, rgid))
    ensures ValidOps(RegionOps(ops, pid))
    ensures Step(Run(frames, slots, ops), Release(pid, rgid)).1 ==
            Ret(if R.LiveSize(RegionOps(ops, pid), rgid) > 0 then 0 else -1)
  {
    HeapsAreRegionRuns(frames, slots, ops, pid);
    R.SymbolSizes(RegionOps(ops, pid), rgid);
    R.ReleaseFrees(Run(frames, slots, ops).procs[pid].heap, rgid);
  }

  // ----- what reads and writes answer

  /**
    What a read answers, told from the state it leads to.  If the page is resident there, the answer is the byte
    of that page; if it is evicted, a byte of the frame its slot number aliases; if it is still unmapped, the read
    fails, and then no page of the process was resident and nothing has changed.
  */
  lemma ReadAnswers(m: Machine, pid: nat, addr: nat)
    requires Inv(m) && Allowed(m, Op.Read(pid, addr))
    ensures var (m', out) := Step(m, Op.Read(pid, addr)); var p := addr / PAGE_SIZE;
            && pid in m'.procs && |m'.procs[pid].pgd| == MAX_PGN
            && match m'.procs[pid].pgd[p]
               case Resident(_) => out == Data(Contents(m', pid, p)[addr % PAGE_SIZE])
               case Evicted(_, slot) =>
                 && 32 * slot % MAX_FRAMES < |m.ram.pages| && m' == m
                 && out == Data(m.ram.pages[32 * slot % MAX_FRAMES][addr % PAGE_SIZE])
               case Absent(_) => out == Ret(-1) && m' == m && m.procs[pid].fifo == []
  {
    TouchedPage(m, pid, addr);
    var m', p := Touch(m, pid, addr / PAGE_SIZE), addr / PAGE_SIZE;
    if m'.procs[pid].pgd[p].Evicted? {
      TouchOutcome(m, pid, p);
      EvictedRead(m, pid, addr);
    }
  }

  /** A write answers 0 exactly when it leaves its page mapped, and -1 only when nothing has changed. */
  lemma WriteAnswers(m: Machine, pid: nat, addr: nat, v: Byte)
    requires Inv(m) && Allowed(m, Op.Write(pid, addr, v))
    ensures var (m', out) := Step(m, Op.Write(pid, addr, v));
            && out == Ret(if Mapped(m', pid, addr / PAGE_SIZE) then 0 else -1)
            && (!Mapped(m', pid, addr / PAGE_SIZE) ==> m' == m && m.procs[pid].fifo == [])
  {
    TouchedPage(m, pid, addr);
    TouchOutcome(m, pid, addr / PAGE_SIZE);
  }

  /**
    Over runs: a read of a page that was faulted in by operation `k`, the faulting read included, returns the last
    byte its process wrote there since, or that of slot 0, as long as the page is resident.
  */
  lemma FaultedReads(frames: nat, slots: nat, ops: seq<Op>, k: nat, pid: nat, addr: nat)
    requires k < |ops| && Legal(frames, slots, ops) && Legal(frames, slots, ops[..k])
    requires ops[|ops| - 1] == Op.Read(pid, addr)
    requires Shape(Run(frames, slots, ops[..k])) && Allowed(Run(frames, slots, ops[..k]), ops[k])
    requires FaultsIn(Run(frames, slots, ops[..k]), ops[k], pid, addr / PAGE_SIZE)
    requires NoneAstray(frames, slots, ops, k + 1) && NeverMapped(frames, slots, ops, k + 1, pid, addr / PAGE_SIZE)
    ensures var m, m' := Run(frames, slots, ops[..|ops| - 1]), Run(frames, slots, ops);
            && Shape(m) && Allowed(m, Op.Read(pid, addr)) && Mapped(m', pid, addr / PAGE_SIZE)
            && (m'.procs[pid].pgd[addr / PAGE_SIZE].Resident? ==>
                  Step(m, Op.Read(pid, addr)) ==
                  (m', Data(LastWrite(ops, k, pid, addr, PageAt(m'.swap, 0)[addr % PAGE_SIZE]))))
  {
    RunInv(frames, slots, ops[..|ops| - 1]);
    FaultedPagesAreFlat(frames, slots, ops, k, pid, addr / PAGE_SIZE, addr % PAGE_SIZE);
    ReadOfFlat(Run(frames, slots, ops[..|ops| - 1]), ops, k, pid, addr);
  }

  lemma ReadOfFlat(m: Machine, ops: seq<Op>, k: nat, pid: nat, addr: nat)
    requires Inv(m) && Allowed(m, Op.Read(pid, addr))
    requires FlatSince(Step(m, Op.Read(pid, addr)).0, ops, k, pid, addr / PAGE_SIZE, addr % PAGE_SIZE)
    ensures var (m', out) := Step(m, Op.Read(pid, addr));
            m'.procs[pid].pgd[addr / PAGE_SIZE].Resident? ==>
              out == Data(LastWrite(ops, k, pid, addr, PageAt(m'.swap, 0)[addr % PAGE_SIZE]))
  {
    ReadAnswers(m, pid, addr);
    SplitAddress(addr, addr / PAGE_SIZE, addr % PAGE_SIZE);
  }
}
