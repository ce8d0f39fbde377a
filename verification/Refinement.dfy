/**
  Paged memory refines flat memory: what the pages of each process contain over whole runs of allocations,
  frees, reads, writes and faults by any number of processes.
*/
module Refinement {
  import opened Common
  import opened Pte
  import opened Paging
  import R = Regions

  ghost predicate Mapped(m: Machine, pid: nat, p: nat) {
    pid in m.procs && p < |m.procs[pid].pgd| && !m.procs[pid].pgd[p].Absent?
  }

  function PageAt(d: Device, f: nat): Page {
    if f < |d.pages| then d.pages[f] else ZERO_PAGE
  }

  /** The abstract contents of a mapped page: its frame while resident, its swap slot once evicted. */
  ghost function Contents(m: Machine, pid: nat, p: nat): Page
    requires Mapped(m, pid, p)
  {
    match m.procs[pid].pgd[p]
    case Resident(f) => PageAt(m.ram, f)
    case Evicted(_, s) => PageAt(m.swap, s)
  }

  ghost predicate SameContents(m: Machine, m': Machine, q: nat, p: nat) {
    Mapped(m, q, p) ==> Mapped(m', q, p) && Contents(m', q, p) == Contents(m, q, p)
  }

  // ----- faults

  /** Different mapped pages never share a frame or a slot. */
  lemma NoSharing(procs: Procs, ro: seq<Owner>, so: seq<Owner>, q: nat, p: nat, r: nat, t: nat)
    requires ResidentOwned(procs, ro) && EvictedOwned(procs, so)
    requires q in procs && r in procs && p < MAX_PGN && t < MAX_PGN
    requires !procs[q].pgd[p].Absent? && !(q == r && p == t)
    ensures procs[q].pgd[p] != procs[r].pgd[t]
  {
  }

  ghost predicate IsVictim(m: Machine, pid: nat, q: nat, p: nat)
    requires pid in m.procs && m.procs[pid].fifo != []
  {
    q == pid && p == m.procs[pid].fifo[|m.procs[pid].fifo| - 1]
  }

  lemma KeepsFrame(m: Machine, pid: nat, pgn: nat, q: nat, p: nat)
    requires pid in m.procs && CanFault(m.procs[pid], m.ram, m.swap, pgn) && Mapped(m, q, p) && !IsVictim(m, pid, q, p)
    requires var pr := m.procs[pid];
             m.procs[q].pgd[p].Resident? && m.procs[q].pgd[p].fpn != FrameRead(pr.pgd[pr.fifo[|pr.fifo| - 1]])
    ensures SameContents(m, Touch(m, pid, pgn), q, p)
  {
  }

  lemma KeepsSlot(m: Machine, pid: nat, pgn: nat, q: nat, p: nat)
    requires pid in m.procs && CanFault(m.procs[pid], m.ram, m.swap, pgn) && Mapped(m, q, p) && !IsVictim(m, pid, q, p)
    requires m.procs[q].pgd[p].Evicted? && m.procs[q].pgd[p].slot != m.swap.free[0]
    ensures SameContents(m, Touch(m, pid, pgn), q, p)
  {
  }

  /** A resident page that is neither the victim nor the target keeps its frame, and nobody writes there. */
  lemma FaultLeavesResident(m: Machine, pid: nat, pgn: nat, q: nat, p: nat)
    requires Inv(m) && pid in m.procs && CanFault(m.procs[pid], m.ram, m.swap, pgn)
    requires Mapped(m, q, p) && m.procs[q].pgd[p].Resident? && !IsVictim(m, pid, q, p)
    ensures SameContents(m, Touch(m, pid, pgn), q, p)
  {
    FaultParts(m, pid, pgn);
    var pr := m.procs[pid];
    var vic := pr.fifo[|pr.fifo| - 1];
    NoSharing(m.procs, m.ramOwner, m.swapOwner, q, p, pid, vic);
    KeepsFrame(m, pid, pgn, q, p);
  }

  /** An evicted page keeps its slot, which is not the one the fault takes. */
  lemma FaultLeavesEvicted(m: Machine, pid: nat, pgn: nat, q: nat, p: nat)
    requires Inv(m) && pid in m.procs && CanFault(m.procs[pid], m.ram, m.swap, pgn)
    requires Mapped(m, q, p) && m.procs[q].pgd[p].Evicted?
    ensures SameContents(m, Touch(m, pid, pgn), q, p)
  {
    FaultParts(m, pid, pgn);
    assert m.swapOwner[m.procs[q].pgd[p].slot] == UsedBy(q, p);
    KeepsSlot(m, pid, pgn, q, p);
  }

  /** The victim's page goes to the first free slot, and the target's page comes from its recorded slot. */
  lemma FaultMovesPages(m: Machine, pid: nat, pgn: nat)
    requires Inv(m) && pid in m.procs && CanFault(m.procs[pid], m.ram, m.swap, pgn)
    ensures var m' := Touch(m, pid, pgn); var pr := m.procs[pid]; var vic := pr.fifo[|pr.fifo| - 1];
            && pid in m'.procs && vic < |m'.procs[pid].pgd|
            && m'.procs[pid].pgd[vic] == Evicted(0, m.swap.free[0])
            && SameContents(m, m', pid, vic)
            && Mapped(m', pid, pgn)
            && (pr.pgd[pgn].slot !in m.swap.free ==> Contents(m', pid, pgn) == PageAt(m.swap, pr.pgd[pgn].slot))
  {
    FaultParts(m, pid, pgn);
    assert m.swap.free[0] in m.swap.free;
  }

  /**
    Eviction preserves contents.  The fault branch leaves the abstract contents of every mapped page of every
    process as it was, the victim's now being in the slot its entry names, and gives the target the contents of
    its recorded slot whenever that slot is not on the free list.
  */
  lemma FaultKeepsContents(m: Machine, pid: nat, pgn: nat)
    requires Inv(m) && pid in m.procs && CanFault(m.procs[pid], m.ram, m.swap, pgn)
    ensures var m' := Touch(m, pid, pgn); var pr := m.procs[pid]; var vic := pr.fifo[|pr.fifo| - 1];
            && (forall q: nat, p: nat :: SameContents(m, m', q, p))
            && (forall q: nat, p: nat :: Mapped(m', q, p) ==> Mapped(m, q, p) || (q == pid && p == pgn))
            && pid in m'.procs && vic < |m'.procs[pid].pgd|
            && m'.procs[pid].pgd[vic] == Evicted(0, m.swap.free[0])
            && Mapped(m', pid, pgn)
            && (pr.pgd[pgn].slot !in m.swap.free ==> Contents(m', pid, pgn) == PageAt(m.swap, pr.pgd[pgn].slot))
  {
    FaultMovesPages(m, pid, pgn);
    var m' := Touch(m, pid, pgn);
    forall q: nat, p: nat ensures SameContents(m, m', q, p) {
      if Mapped(m, q, p) && !IsVictim(m, pid, q, p) {
        if m.procs[q].pgd[p].Resident? {
          FaultLeavesResident(m, pid, pgn, q, p);
        } else {
          FaultLeavesEvicted(m, pid, pgn, q, p);
        }
      }
    }
    FaultMapsOnly(m, pid, pgn);
  }

  lemma FaultMapsOnly(m: Machine, pid: nat, pgn: nat)
    requires Shape(m) && pid in m.procs && CanFault(m.procs[pid], m.ram, m.swap, pgn)
    requires !m.procs[pid].pgd[m.procs[pid].fifo[|m.procs[pid].fifo| - 1]].Absent?
    ensures forall q: nat, p: nat :: Mapped(Touch(m, pid, pgn), q, p) ==> Mapped(m, q, p) || (q == pid && p == pgn)
  {
  }

  // ----- the other operations

  /** The machine after a store into frame `f`. */
  function Store(m: Machine, f: nat, off: nat, v: Byte): Machine
    requires f < |m.ram.pages| && off < PAGE_SIZE
  {
    m.(ram := m.ram.(pages := StoreAt(m.ram.pages, f, off, v)))
  }

  /** A store changes one byte of every page that is in the frame, and no other page. */
  lemma StoreContents(m: Machine, f: nat, off: nat, v: Byte, q: nat, p: nat)
    requires f < |m.ram.pages| && off < PAGE_SIZE && Mapped(m, q, p)
    ensures Mapped(Store(m, f, off, v), q, p)
    ensures Contents(Store(m, f, off, v), q, p) ==
            if m.procs[q].pgd[p] == Resident(f) then Contents(m, q, p)[off := v] else Contents(m, q, p)
  {
  }

  /** A touch: pages keep their contents, and at most the touched page becomes mapped, filled from slot 0. */
  lemma TouchContents(m: Machine, pid: nat, pgn: nat)
    requires Inv(m) && pid in m.procs
    ensures var m' := Touch(m, pid, pgn);
            && (forall q: nat, p: nat :: SameContents(m, m', q, p))
            && (forall q: nat, p: nat :: Mapped(m', q, p) && !Mapped(m, q, p) ==>
                  q == pid && p == pgn && m'.procs[q].pgd[p].Resident? && Contents(m', q, p) == PageAt(m'.swap, 0))
  {
    if CanFault(m.procs[pid], m.ram, m.swap, pgn) {
      FaultKeepsContents(m, pid, pgn);
      FaultFillsFromZero(m, pid, pgn);
    }
  }

  lemma FaultFillsFromZero(m: Machine, pid: nat, pgn: nat)
    requires Inv(m) && pid in m.procs && CanFault(m.procs[pid], m.ram, m.swap, pgn)
    ensures var m' := Touch(m, pid, pgn);
            && Mapped(m', pid, pgn) && !Mapped(m, pid, pgn)
            && m'.procs[pid].pgd[pgn].Resident? && Contents(m', pid, pgn) == PageAt(m'.swap, 0)
  {
    FaultParts(m, pid, pgn);
  }

  /** Mapping moves no page outside the range it maps. */
  lemma GrowKeepsOld(m: Machine, pid: nat, start: nat, n: nat)
    requires pid in m.procs && |m.procs[pid].pgd| == MAX_PGN
    ensures forall q: nat, p: nat | !(n <= |m.ram.free| && q == pid && start <= p < start + n) ::
              && SameContents(m, Grow(m, pid, start, n), q, p)
              && (Mapped(Grow(m, pid, start, n), q, p) ==> Mapped(m, q, p))
  {
  }

  /** The page is in a frame that was free before, and holds what that frame held. */
  ghost predicate FromFree(ram: Device, m': Machine, q: nat, p: nat)
    requires Mapped(m', q, p)
  {
    var e := m'.procs[q].pgd[p];
    e.Resident? && e.fpn in ram.free && Contents(m', q, p) == PageAt(ram, e.fpn)
  }

  /** Pages that an allocation maps come from the free list, and are not cleared. */
  lemma GrowMapsFree(m: Machine, pid: nat, start: nat, n: nat)
    requires pid in m.procs && NoDuplicates(m.ram.free) && n <= |m.ram.free| && start + n <= |m.procs[pid].pgd|
    ensures var m' := Grow(m, pid, start, n);
            forall p: nat | start <= p < start + n :: Mapped(m', pid, p) && FromFree(m.ram, m', pid, p)
  {
    var m' := Grow(m, pid, start, n);
    TakeFramesFacts(m.ram.free, n);
    var frames := TakeFrames(m.ram.free, n).1;
    forall p: nat | start <= p < start + n ensures Mapped(m', pid, p) && FromFree(m.ram, m', pid, p) {
      assert m'.procs[pid].pgd[p] == Resident(frames[p - start]);
      assert frames[p - start] in frames;
    }
  }

  lemma HeapOnly(m: Machine, pid: nat, heap: R.Heap)
    requires pid in m.procs
    ensures var m' := m.(procs := m.procs[pid := m.procs[pid].(heap := heap)]);
            forall q: nat, p: nat :: SameContents(m, m', q, p) && (Mapped(m', q, p) ==> Mapped(m, q, p))
  {
  }

  /** The operation is a write through a present entry that names the frame in which the page is. */
  ghost predicate Hits(m: Machine, op: Op, q: nat, p: nat) {
    && op.Write? && Mapped(m, op.pid, op.addr / PAGE_SIZE) && Mapped(m, q, p)
    && m.procs[q].pgd[p] == Resident(FrameRead(m.procs[op.pid].pgd[op.addr / PAGE_SIZE]))
  }

  /** The page after the write, if the operation is one. */
  function Written(page: Page, op: Op): Page {
    if op.Write? then page[op.addr % PAGE_SIZE := op.v] else page
  }

  /**
    What one operation does to a page.  A page that an allocation maps holds what its frame held.  Any other
    mapped page changes by a write that hits it and by nothing else.  An unmapped page becomes mapped only by an
    access of its own process, and is then filled from slot 0.
  */
  ghost predicate PageStep(m: Machine, op: Op, m': Machine, q: nat, p: nat)
    requires Shape(m)
  {
    if MapsPage(m, op, q, p) then Mapped(m', q, p) && FromFree(m.ram, m', q, p)
    else if Mapped(m, q, p) then
      && Mapped(m', q, p)
      && Contents(m', q, p) == if Hits(m, op, q, p) then Written(Contents(m, q, p), op) else Contents(m, q, p)
    else
      Mapped(m', q, p) ==> SameAccess(op, q, p) && Contents(m', q, p) == Written(PageAt(m'.swap, 0), op)
  }

  lemma AllocPages(m: Machine, op: Op)
    requires Inv(m) && op.Alloc? && Allowed(m, op)
    ensures forall q: nat, p: nat :: PageStep(m, op, Step(m, op).0, q, p)
  {
    var pr := m.procs[op.pid];
    assert ProcInv(pr);
    var (heap, growth) := R.Alloc(pr.heap, op.rgid, op.size);
    GrowthFacts(pr.heap, op.rgid, op.size);
    HeapOnly(m, op.pid, heap);
    if growth.MapPages? {
      var m1 := m.(procs := m.procs[op.pid := pr.(heap := heap)]);
      AllocGrows(m, m1, op, growth.start, growth.count);
    }
  }

  lemma AllocGrows(m: Machine, m1: Machine, op: Op, start: nat, n: nat)
    requires Shape(m) && op.Alloc? && op.pid in m1.procs && |m1.procs[op.pid].pgd| == MAX_PGN
    requires NoDuplicates(m1.ram.free) && m1.ram == m.ram && start + n <= MAX_PGN
    requires forall q: nat, p: nat ::
               MapsPage(m, op, q, p) <==> n <= |m.ram.free| && q == op.pid && start <= p < start + n
    requires forall q: nat, p: nat :: SameContents(m, m1, q, p) && (Mapped(m1, q, p) ==> Mapped(m, q, p))
    ensures forall q: nat, p: nat :: PageStep(m, op, Grow(m1, op.pid, start, n), q, p)
  {
    var m' := Grow(m1, op.pid, start, n);
    GrowKeepsOld(m1, op.pid, start, n);
    if n <= |m.ram.free| { GrowMapsFree(m1, op.pid, start, n); }
    forall q: nat, p: nat ensures PageStep(m, op, m', q, p) {
      assert SameContents(m, m1, q, p);
    }
  }

  /** What a touch does to a page. */
  ghost predicate TouchStep(m: Machine, op: Op, m1: Machine, q: nat, p: nat) {
    && SameContents(m, m1, q, p)
    && (Mapped(m1, q, p) && !Mapped(m, q, p) ==> SameAccess(op, q, p) && Contents(m1, q, p) == PageAt(m1.swap, 0))
  }

  /** Which pages are in the frame a write goes to, told before the touch. */
  lemma HitAfterTouch(m: Machine, op: Op, q: nat, p: nat)
    requires Inv(m) && op.Write? && Allowed(m, op) && Mapped(m, q, p)
    ensures var pgn := op.addr / PAGE_SIZE; var m1 := Touch(m, op.pid, pgn);
            && Mapped(m1, q, p) && op.pid in m1.procs && pgn < |m1.procs[op.pid].pgd|
            && (!m1.procs[op.pid].pgd[pgn].Absent? ==>
                  (m1.procs[q].pgd[p] == Resident(FrameRead(m1.procs[op.pid].pgd[pgn])) <==> Hits(m, op, q, p)))
  {
    var pgn := op.addr / PAGE_SIZE;
    TouchedPage(m, op.pid, op.addr);
    TouchContents(m, op.pid, pgn);
    var m1 := Touch(m, op.pid, pgn);
    assert SameContents(m, m1, q, p);
    if m.procs[op.pid].pgd[pgn].Absent? {
      if !m1.procs[op.pid].pgd[pgn].Absent? {
        NoSharing(m1.procs, m1.ramOwner, m1.swapOwner, q, p, op.pid, pgn);
      }
    } else {
      TouchOutcome(m, op.pid, pgn);
    }
  }

  /** A touch and then a store into the frame of the entry, seen by one page. */
  lemma TouchThenStore(m: Machine, m1: Machine, op: Op, f: nat, q: nat, p: nat)
    requires Shape(m) && op.Write? && f < |m1.ram.pages| && TouchStep(m, op, m1, q, p)
    requires Mapped(m, q, p) ==> (m1.procs[q].pgd[p] == Resident(f) <==> Hits(m, op, q, p))
    requires Mapped(m1, q, p) && !Mapped(m, q, p) ==> m1.procs[q].pgd[p] == Resident(f)
    ensures PageStep(m, op, Store(m1, f, op.addr % PAGE_SIZE, op.v), q, p)
  {
    if Mapped(m1, q, p) { StoreContents(m1, f, op.addr % PAGE_SIZE, op.v, q, p); }
  }

  /** The touch alone, when the page has no entry to write through. */
  lemma TouchOnly(m: Machine, m1: Machine, op: Op, q: nat, p: nat)
    requires Shape(m) && (op.Read? || op.Write?) && TouchStep(m, op, m1, q, p)
    requires op.Write? ==> !Mapped(m1, op.pid, op.addr / PAGE_SIZE) && !Mapped(m, op.pid, op.addr / PAGE_SIZE)
    ensures PageStep(m, op, m1, q, p)
  {
  }

  lemma WritePages(m: Machine, op: Op)
    requires Inv(m) && op.Write? && Allowed(m, op)
    ensures forall q: nat, p: nat :: PageStep(m, op, Step(m, op).0, q, p)
  {
    var pgn := op.addr / PAGE_SIZE;
    TouchedPage(m, op.pid, op.addr);
    TouchContents(m, op.pid, pgn);
    var m1, m' := Touch(m, op.pid, pgn), Step(m, op).0;
    WriteIsStore(m, m1, op.pid, op.addr, op.v);
    var e := m1.procs[op.pid].pgd[pgn];
    assert SameContents(m, m1, op.pid, pgn);
    forall q: nat, p: nat ensures PageStep(m, op, m', q, p) {
      assert SameContents(m, m1, q, p);
      if e.Absent? {
        TouchOnly(m, m1, op, q, p);
      } else {
        if Mapped(m, q, p) { HitAfterTouch(m, op, q, p); }
        TouchThenStore(m, m1, op, FrameRead(e), q, p);
      }
    }
  }

  lemma ReadPages(m: Machine, op: Op)
    requires Inv(m) && op.Read? && Allowed(m, op)
    ensures forall q: nat, p: nat :: PageStep(m, op, Step(m, op).0, q, p)
  {
    TouchContents(m, op.pid, op.addr / PAGE_SIZE);
    var m1 := Touch(m, op.pid, op.addr / PAGE_SIZE);
    forall q: nat, p: nat ensures PageStep(m, op, m1, q, p) {
      assert SameContents(m, m1, q, p);
      TouchOnly(m, m1, op, q, p);
    }
  }

  lemma LoadPages(m: Machine, op: Op)
    requires Shape(m) && op.Load? && Allowed(m, op)
    ensures forall q: nat, p: nat :: PageStep(m, op, Step(m, op).0, q, p)
  {
  }

  /**
    No operation of any process changes a page in any other way than PageStep says, accesses beyond the limit and
    to evicted pages included.
  */
  lemma StepPages(m: Machine, op: Op)
    requires Inv(m) && Allowed(m, op)
    ensures forall q: nat, p: nat :: PageStep(m, op, Step(m, op).0, q, p)
  {
    match op
    case Alloc(_, _, _) => AllocPages(m, op);
    case Write(_, _, _) => WritePages(m, op);
    case Read(pid, addr) => ReadPages(m, op);
    case Release(pid, rgid) => HeapOnly(m, pid, R.Release(m.procs[pid].heap, rgid).0);
    case Load(pid) => LoadPages(m, op);
  }

  /** As long as the page it names has not been evicted, a write hits that page and no other. */
  lemma HitsItsOwn(m: Machine, op: Op, q: nat, p: nat)
    requires Inv(m) && op.Write? && Allowed(m, op) && NotAstray(m, op) && Mapped(m, q, p)
    ensures Hits(m, op, q, p) <==> q == op.pid && p == op.addr / PAGE_SIZE
  {
    var pgn := op.addr / PAGE_SIZE;
    if Mapped(m, op.pid, pgn) && !(q == op.pid && p == pgn) {
      NoSharing(m.procs, m.ramOwner, m.swapOwner, q, p, op.pid, pgn);
    }
  }

  // ----- whole runs

  /** A run from power-on in which every operation is allowed when its turn comes. */
  ghost predicate Legal(frames: nat, slots: nat, ops: seq<Op>)
    decreases |ops|, 0
  {
    if ops == [] then frames <= MAX_FRAMES && slots <= MAX_SLOTS
    else
      var last := |ops| - 1;
      && Legal(frames, slots, ops[..last])
      && Shape(Run(frames, slots, ops[..last])) && Allowed(Run(frames, slots, ops[..last]), ops[last])
  }

  ghost function Run(frames: nat, slots: nat, ops: seq<Op>): Machine
    requires Legal(frames, slots, ops)
    decreases |ops|, 1
  {
    if ops == [] then Boot(frames, slots)
    else Step(Run(frames, slots, ops[..|ops| - 1]), ops[|ops| - 1]).0
  }

  /** The last byte that process `pid` wrote at `addr` from operation `k` on, or `init`. */
  function LastWrite(ops: seq<Op>, k: nat, pid: nat, addr: nat, init: Byte): Byte {
    if |ops| <= k then init
    else
      var op := ops[|ops| - 1];
      if op.Write? && op.pid == pid && op.addr == addr then op.v else LastWrite(ops[..|ops| - 1], k, pid, addr, init)
  }

  /** The run never accesses page `p` of `pid` while it is unmapped. */
  ghost predicate NeverFaulted(frames: nat, slots: nat, ops: seq<Op>, pid: nat, p: nat)
    requires Legal(frames, slots, ops)
    decreases |ops|
  {
    ops == [] ||
    (var before := ops[..|ops| - 1];
     && NeverFaulted(frames, slots, before, pid, p)
     && (SameAccess(ops[|ops| - 1], pid, p) ==> Mapped(Run(frames, slots, before), pid, p)))
  }

  lemma {:induction false} RunInv(frames: nat, slots: nat, ops: seq<Op>)
    requires Legal(frames, slots, ops)
    ensures Inv(Run(frames, slots, ops))
    decreases |ops|
  {
    if ops == [] {
      BootInv(frames, slots);
    } else {
      RunInv(frames, slots, ops[..|ops| - 1]);
      StepKeepsInv(Run(frames, slots, ops[..|ops| - 1]), ops[|ops| - 1]);
    }
  }

  /** From operation `k` on no write of the run goes to a page that has been evicted before. */
  ghost predicate NoneAstray(frames: nat, slots: nat, ops: seq<Op>, k: nat)
    requires Legal(frames, slots, ops)
    decreases |ops|
  {
    |ops| <= k ||
    (var before := ops[..|ops| - 1];
     NoneAstray(frames, slots, before, k) && NotAstray(Run(frames, slots, before), ops[|ops| - 1]))
  }

  /** From operation `k` on no allocation of the run maps page `p` of `pid`. */
  ghost predicate NeverMapped(frames: nat, slots: nat, ops: seq<Op>, k: nat, pid: nat, p: nat)
    requires Legal(frames, slots, ops)
    decreases |ops|
  {
    |ops| <= k ||
    (var before := ops[..|ops| - 1];
     && NeverMapped(frames, slots, before, k, pid, p)
     && !MapsPage(Run(frames, slots, before), ops[|ops| - 1], pid, p))
  }

  lemma {:induction false} RunKeepsZero(frames: nat, slots: nat, ops: seq<Op>)
    requires Legal(frames, slots, ops) && NoneAstray(frames, slots, ops, 0)
    ensures FreshZero(Run(frames, slots, ops).ram)
    decreases |ops|
  {
    if ops == [] {
      BootInv(frames, slots);
    } else {
      RunKeepsZero(frames, slots, ops[..|ops| - 1]);
      RunInv(frames, slots, ops[..|ops| - 1]);
      StepKeepsZero(Run(frames, slots, ops[..|ops| - 1]), ops[|ops| - 1]);
    }
  }

  /** The limit never falls, and pages that an allocation maps lie below the new limit. */
  lemma StepLimit(m: Machine, op: Op, pid: nat, p: nat)
    requires Inv(m) && Allowed(m, op) && pid in m.procs
    ensures var m' := Step(m, op).0;
            && pid in m'.procs && m'.procs[pid].heap.vmEnd >= m.procs[pid].heap.vmEnd
            && (MapsPage(m, op, pid, p) ==>
                  m.procs[pid].heap.vmEnd / PAGE_SIZE <= p < m'.procs[pid].heap.vmEnd / PAGE_SIZE)
  {
    assert ProcInv(m.procs[pid]);
    if op.Alloc? && op.pid == pid { GrowthFacts(m.procs[pid].heap, op.rgid, op.size); }
    if op.Read? || op.Write? { TouchHeap(m, op.pid, op.addr / PAGE_SIZE); }
  }

  lemma TouchHeap(m: Machine, pid: nat, pgn: nat)
    requires pid in m.procs
    ensures var m' := Touch(m, pid, pgn);
            m'.procs.Keys == m.procs.Keys && forall q :: q in m.procs ==> m'.procs[q].heap == m.procs[q].heap
  {
  }

  ghost predicate BelowLimit(m: Machine, pid: nat, p: nat) {
    Mapped(m, pid, p) ==> p < m.procs[pid].heap.vmEnd / PAGE_SIZE
  }

  /** The byte a flat memory would hold, in a page below the limit. */
  ghost predicate FlatAt(m: Machine, ops: seq<Op>, pid: nat, p: nat, off: nat)
    requires off < PAGE_SIZE
  {
    && BelowLimit(m, pid, p)
    && (Mapped(m, pid, p) ==> Contents(m, pid, p)[off] == LastWrite(ops, 0, pid, p * PAGE_SIZE + off, 0))
    && (!Mapped(m, pid, p) ==> LastWrite(ops, 0, pid, p * PAGE_SIZE + off, 0) == 0)
  }

  lemma LimitStep(m: Machine, op: Op, pid: nat, p: nat)
    requires Inv(m) && Allowed(m, op) && BelowLimit(m, pid, p) && (SameAccess(op, pid, p) ==> Mapped(m, pid, p))
    requires PageStep(m, op, Step(m, op).0, pid, p)
    ensures BelowLimit(Step(m, op).0, pid, p) && !(MapsPage(m, op, pid, p) && Mapped(m, pid, p))
  {
    if pid in m.procs { StepLimit(m, op, pid, p); }
  }

  /** One step of a mapped page that is not mapped again, under writes that stay with their own page. */
  lemma MappedStep(m: Machine, m': Machine, op: Op, pid: nat, p: nat, off: nat)
    requires Shape(m) && off < PAGE_SIZE && PageStep(m, op, m', pid, p)
    requires Mapped(m, pid, p) && !MapsPage(m, op, pid, p)
    requires Hits(m, op, pid, p) <==> op.Write? && SameAccess(op, pid, p)
    ensures Mapped(m', pid, p)
    ensures Contents(m', pid, p)[off] ==
            if op.Write? && op.pid == pid && op.addr == p * PAGE_SIZE + off then op.v else Contents(m, pid, p)[off]
  {
    if op.Write? { SplitAddress(op.addr, p, off); }
  }

  lemma FlatStep(m: Machine, before: seq<Op>, ops: seq<Op>, pid: nat, p: nat, off: nat)
    requires off < PAGE_SIZE && ops != [] && before == ops[..|ops| - 1] && FlatAt(m, before, pid, p, off)
    requires Inv(m) && Allowed(m, ops[|ops| - 1]) && FreshZero(m.ram)
    requires var op := ops[|ops| - 1];
             && PageStep(m, op, Step(m, op).0, pid, p)
             && (SameAccess(op, pid, p) ==> Mapped(m, pid, p))
             && (Mapped(m, pid, p) ==> (Hits(m, op, pid, p) <==> op.Write? && SameAccess(op, pid, p)))
    ensures FlatAt(Step(m, ops[|ops| - 1]).0, ops, pid, p, off)
  {
    var op := ops[|ops| - 1];
    var m' := Step(m, op).0;
    LimitStep(m, op, pid, p);
    if Mapped(m, pid, p) {
      MappedStep(m, m', op, pid, p, off);
    } else {
      if op.Write? { SplitAddress(op.addr, p, off); }
      if Mapped(m', pid, p) { FreshPage(m.ram, m'.procs[pid].pgd[p].fpn); }
    }
  }

  lemma FreshPage(d: Device, f: nat)
    requires FreshZero(d) && f in d.free
    ensures PageAt(d, f) == ZERO_PAGE
  {
  }

  /**
    Paged memory refines flat memory.  After every run without a write to an evicted page, with any amount of
    eviction going on, each byte of a page that was never faulted in is the last byte its own process wrote
    there, or 0.
  */
  lemma {:induction false} PagesAreFlat(frames: nat, slots: nat, ops: seq<Op>, pid: nat, p: nat, off: nat)
    requires Legal(frames, slots, ops) && NoneAstray(frames, slots, ops, 0)
    requires NeverFaulted(frames, slots, ops, pid, p) && off < PAGE_SIZE
    ensures FlatAt(Run(frames, slots, ops), ops, pid, p, off)
    decreases |ops|
  {
    if ops != [] {
      var before, op := ops[..|ops| - 1], ops[|ops| - 1];
      var m := Run(frames, slots, before);
      PagesAreFlat(frames, slots, before, pid, p, off);
      RunInv(frames, slots, before);
      RunKeepsZero(frames, slots, before);
      StepPages(m, op);
      if op.Write? && Mapped(m, pid, p) { HitsItsOwn(m, op, pid, p); }
      FlatStep(m, before, ops, pid, p, off);
    }
  }

  /** The operation faults the page in. */
  ghost predicate FaultsIn(m: Machine, op: Op, pid: nat, p: nat)
    requires Shape(m) && Allowed(m, op)
  {
    SameAccess(op, pid, p) && !Mapped(m, pid, p) && Mapped(Step(m, op).0, pid, p)
  }

  /** Every byte of page `p` is the last byte its process wrote there from operation `k` on, or that of slot 0. */
  ghost predicate FlatSince(m: Machine, ops: seq<Op>, k: nat, pid: nat, p: nat, off: nat)
    requires off < PAGE_SIZE
  {
    && 0 !in m.swap.free && Mapped(m, pid, p)
    && Contents(m, pid, p)[off] == LastWrite(ops, k, pid, p * PAGE_SIZE + off, PageAt(m.swap, 0)[off])
  }

  lemma FaultStarts(m: Machine, ops: seq<Op>, pid: nat, p: nat, off: nat)
    requires off < PAGE_SIZE && ops != [] && Inv(m) && SlotZeroFirst(m.swap)
    requires Allowed(m, ops[|ops| - 1]) && FaultsIn(m, ops[|ops| - 1], pid, p)
    ensures FlatSince(Step(m, ops[|ops| - 1]).0, ops, |ops| - 1, pid, p, off)
  {
    var op := ops[|ops| - 1];
    StepPages(m, op);
    TouchLeavesZero(m, op, pid, p);
    var m' := Step(m, op).0;
    assert PageStep(m, op, m', pid, p);
    SplitAddress(op.addr, p, off);
    assert LastWrite(ops[..|ops| - 1], |ops| - 1, pid, p * PAGE_SIZE + off, PageAt(m'.swap, 0)[off]) ==
           PageAt(m'.swap, 0)[off];
  }

  lemma TouchLeavesZero(m: Machine, op: Op, pid: nat, p: nat)
    requires Inv(m) && SlotZeroFirst(m.swap) && Allowed(m, op) && FaultsIn(m, op, pid, p)
    ensures 0 !in Step(m, op).0.swap.free
  {
    if CanFault(m.procs[pid], m.ram, m.swap, p) { FaultSlotsLeft(m, pid, p); }
  }

  /**
    The same for a page that was faulted in, by operation `k`.  As long as no evicted page is written and no
    allocation maps the page again, each of its bytes is the last byte its process wrote there since, or the byte
    of slot 0, whether the page is still resident or not.
  */
  lemma {:induction false} FaultedPagesAreFlat(frames: nat, slots: nat, ops: seq<Op>, k: nat,
        pid: nat, p: nat, off: nat)
    requires k < |ops| && Legal(frames, slots, ops) && Legal(frames, slots, ops[..k]) && off < PAGE_SIZE
    requires Shape(Run(frames, slots, ops[..k])) && Allowed(Run(frames, slots, ops[..k]), ops[k])
    requires FaultsIn(Run(frames, slots, ops[..k]), ops[k], pid, p)
    requires NoneAstray(frames, slots, ops, k + 1) && NeverMapped(frames, slots, ops, k + 1, pid, p)
    ensures FlatSince(Run(frames, slots, ops), ops, k, pid, p, off)
    decreases |ops|
  {
    var before, op := ops[..|ops| - 1], ops[|ops| - 1];
    var m := Run(frames, slots, before);
    RunInv(frames, slots, before);
    RunSlotZero(frames, slots, before);
    if k == |ops| - 1 {
      FaultStarts(m, ops, pid, p, off);
    } else {
      assert before[..k] == ops[..k];
      FaultedPagesAreFlat(frames, slots, before, k, pid, p, off);
      SinceStep(m, before, ops, k, pid, p, off);
    }
  }

  lemma SinceStep(m: Machine, before: seq<Op>, ops: seq<Op>, k: nat, pid: nat, p: nat, off: nat)
    requires off < PAGE_SIZE && k < |ops| && before == ops[..|ops| - 1] && FlatSince(m, before, k, pid, p, off)
    requires Inv(m) && SlotZeroFirst(m.swap) && Allowed(m, ops[|ops| - 1])
    requires NotAstray(m, ops[|ops| - 1]) && !MapsPage(m, ops[|ops| - 1], pid, p)
    ensures FlatSince(Step(m, ops[|ops| - 1]).0, ops, k, pid, p, off)
  {
    var op := ops[|ops| - 1];
    StepPages(m, op);
    if op.Write? { HitsItsOwn(m, op, pid, p); }
    MappedStep(m, Step(m, op).0, op, pid, p, off);
    StepKeepsSlotZero(m, op);
  }

  lemma SplitAddress(addr: nat, p: nat, off: nat)
    requires off < PAGE_SIZE
    ensures addr == p * PAGE_SIZE + off <==> addr / PAGE_SIZE == p && addr % PAGE_SIZE == off
  {
  }

  /** What a read of a resident page returns after such a run, and that it changes nothing. */
  lemma ReadsLastWrite(frames: nat, slots: nat, ops: seq<Op>, pid: nat, addr: nat, m: Machine)
    requires Legal(frames, slots, ops) && NoneAstray(frames, slots, ops, 0) && m == Run(frames, slots, ops)
    requires NeverFaulted(frames, slots, ops, pid, addr / PAGE_SIZE)
    requires Mapped(m, pid, addr / PAGE_SIZE) && m.procs[pid].pgd[addr / PAGE_SIZE].Resident?
    ensures ReadByte(m, pid, addr) == (m, Data(LastWrite(ops, 0, pid, addr, 0)))
  {
    RunInv(frames, slots, ops);
    PagesAreFlat(frames, slots, ops, pid, addr / PAGE_SIZE, addr % PAGE_SIZE);
    SplitAddress(addr, addr / PAGE_SIZE, addr % PAGE_SIZE);
    ResidentRead(m, pid, addr);
  }

  lemma ResidentRead(m: Machine, pid: nat, addr: nat)
    requires Inv(m) && Mapped(m, pid, addr / PAGE_SIZE) && m.procs[pid].pgd[addr / PAGE_SIZE].Resident?
    ensures ReadByte(m, pid, addr) == (m, Data(Contents(m, pid, addr / PAGE_SIZE)[addr % PAGE_SIZE]))
  {
  }

  // ----- evicted pages

  /**
    pg_getpage never faults on an evicted page, because its present bit stays set: the frame it uses is made of
    the low bits of the slot number.  A write to a present page therefore reaches that page exactly when the
    page is resident.  (The low bits must name a frame that exists: otherwise the source accesses memory outside
    its storage.)
  */
  lemma WriteLandsIffResident(m: Machine, pid: nat, addr: nat, v: Byte)
    requires Inv(m) && Mapped(m, pid, addr / PAGE_SIZE)
    requires FrameRead(m.procs[pid].pgd[addr / PAGE_SIZE]) < |m.ram.pages|
    requires v != Contents(m, pid, addr / PAGE_SIZE)[addr % PAGE_SIZE]
    ensures var p := addr / PAGE_SIZE; var m' := WriteByte(m, pid, addr, v).0;
            Mapped(m', pid, p) && (Contents(m', pid, p)[addr % PAGE_SIZE] == v <==> m.procs[pid].pgd[p].Resident?)
  {
  }

  /** The page as it would be with another byte at `off`, in its frame or in its slot. */
  ghost function WithByte(m: Machine, pid: nat, p: nat, off: nat, v: Byte): Machine
    requires Inv(m) && Mapped(m, pid, p) && off < PAGE_SIZE
    ensures Mapped(WithByte(m, pid, p, off, v), pid, p)
    ensures Contents(WithByte(m, pid, p, off, v), pid, p) == Contents(m, pid, p)[off := v]
  {
    match m.procs[pid].pgd[p]
    case Resident(f) => m.(ram := m.ram.(pages := StoreAt(m.ram.pages, f, off, v)))
    case Evicted(_, s) => m.(swap := m.swap.(pages := StoreAt(m.swap.pages, s, off, v)))
  }

  /** A read of an evicted page returns a byte of frame 32 * slot mod 8192, whoever owns it. */
  lemma EvictedRead(m: Machine, pid: nat, addr: nat)
    requires Inv(m) && Mapped(m, pid, addr / PAGE_SIZE) && m.procs[pid].pgd[addr / PAGE_SIZE].Evicted?
    requires FrameRead(m.procs[pid].pgd[addr / PAGE_SIZE]) < |m.ram.pages|
    ensures var f := 32 * m.procs[pid].pgd[addr / PAGE_SIZE].slot % MAX_FRAMES;
            f < |m.ram.pages| && ReadByte(m, pid, addr) == (m, Data(m.ram.pages[f][addr % PAGE_SIZE]))
  {
    var e := m.procs[pid].pgd[addr / PAGE_SIZE];
    assert e.typ == 0 && FrameRead(e) == 32 * e.slot % MAX_FRAMES;
  }

  /** A read of a mapped page returns the byte of that page, whatever it is, exactly when the page is resident. */
  lemma ReadsOwnPageIffResident(m: Machine, pid: nat, addr: nat)
    requires Inv(m) && Mapped(m, pid, addr / PAGE_SIZE)
    requires FrameRead(m.procs[pid].pgd[addr / PAGE_SIZE]) < |m.ram.pages|
    ensures (forall v: Byte ::
               ReadByte(WithByte(m, pid, addr / PAGE_SIZE, addr % PAGE_SIZE, v), pid, addr).1 == Data(v))
            <==> m.procs[pid].pgd[addr / PAGE_SIZE].Resident?
  {
    if m.procs[pid].pgd[addr / PAGE_SIZE].Resident? {
      forall v: Byte
        ensures ReadByte(WithByte(m, pid, addr / PAGE_SIZE, addr % PAGE_SIZE, v), pid, addr).1 == Data(v)
      {
        ResidentReadFollows(m, pid, addr, v);
      }
    } else {
      EvictedReadIgnores(m, pid, addr, 0);
      EvictedReadIgnores(m, pid, addr, 1);
    }
  }

  lemma ResidentReadFollows(m: Machine, pid: nat, addr: nat, v: Byte)
    requires Inv(m) && Mapped(m, pid, addr / PAGE_SIZE) && m.procs[pid].pgd[addr / PAGE_SIZE].Resident?
    ensures ReadByte(WithByte(m, pid, addr / PAGE_SIZE, addr % PAGE_SIZE, v), pid, addr).1 == Data(v)
  {
  }

  lemma EvictedReadIgnores(m: Machine, pid: nat, addr: nat, v: Byte)
    requires Inv(m) && Mapped(m, pid, addr / PAGE_SIZE) && m.procs[pid].pgd[addr / PAGE_SIZE].Evicted?
    ensures ReadByte(WithByte(m, pid, addr / PAGE_SIZE, addr % PAGE_SIZE, v), pid, addr).1 == ReadByte(m, pid, addr).1
  {
  }

  /** A write to an evicted page lands in frame 32 * slot mod 8192, whoever owns it. */
  lemma EvictedWriteGoesAstray(m: Machine, pid: nat, addr: nat, v: Byte, q: nat, r: nat)
    requires Inv(m) && Mapped(m, pid, addr / PAGE_SIZE) && m.procs[pid].pgd[addr / PAGE_SIZE].Evicted?
    requires Mapped(m, q, r) && m.procs[q].pgd[r] == Resident(32 * m.procs[pid].pgd[addr / PAGE_SIZE].slot % MAX_FRAMES)
    ensures var m' := WriteByte(m, pid, addr, v).0;
            Mapped(m', q, r) && Contents(m', q, r) == Contents(m, q, r)[addr % PAGE_SIZE := v]
  {
    var e := m.procs[pid].pgd[addr / PAGE_SIZE];
    assert e.typ == 0 && FrameRead(e) == 32 * e.slot % MAX_FRAMES;
    assert m.procs[q].pgd[r].fpn < |m.ram.pages|;
  }

  // ----- what a page that could not be mapped contains after its fault

  /** The recorded slot of a page that was never mapped is slot 0, so a fault fills it from there. */
  lemma FaultReadsSlotZero(m: Machine, pid: nat, pgn: nat)
    requires Inv(m) && SlotZeroFirst(m.swap)
    requires pid in m.procs && CanFault(m.procs[pid], m.ram, m.swap, pgn)
    ensures var m' := Touch(m, pid, pgn);
            Mapped(m', pid, pgn) && Contents(m', pid, pgn) == PageAt(m'.swap, 0) && 0 !in m'.swap.free
  {
    FaultParts(m, pid, pgn);
    FaultSlotsLeft(m, pid, pgn);
  }

  /** The first fault of all copies the victim's page into the target. */
  lemma FirstFaultCopiesVictim(m: Machine, pid: nat, pgn: nat)
    requires Inv(m) && SlotZeroFirst(m.swap) && 0 in m.swap.free
    requires pid in m.procs && CanFault(m.procs[pid], m.ram, m.swap, pgn)
    ensures var vic := m.procs[pid].fifo[|m.procs[pid].fifo| - 1];
            && Mapped(m, pid, vic) && Mapped(Touch(m, pid, pgn), pid, pgn)
            && Contents(Touch(m, pid, pgn), pid, pgn) == Contents(m, pid, vic)
  {
    FaultParts(m, pid, pgn);
  }

  /** From the first fault on, slot 0 keeps the page it received, and every later fault reads it again. */
  lemma {:induction false} SlotZeroFrozen(frames: nat, slots: nat, ops: seq<Op>, k: nat)
    requires Legal(frames, slots, ops) && k <= |ops| && Legal(frames, slots, ops[..k])
    requires 0 !in Run(frames, slots, ops[..k]).swap.free
    ensures var m, m' := Run(frames, slots, ops[..k]), Run(frames, slots, ops);
            0 !in m'.swap.free && PageAt(m'.swap, 0) == PageAt(m.swap, 0)
    decreases |ops|
  {
    if k == |ops| {
      assert ops[..k] == ops;
    } else {
      var before := ops[..|ops| - 1];
      assert before[..k] == ops[..k];
      SlotZeroFrozen(frames, slots, before, k);
      RunInv(frames, slots, before);
      RunSlotZero(frames, slots, before);
      StepKeepsSlotZero(Run(frames, slots, before), ops[|ops| - 1]);
    }
  }

  lemma {:induction false} RunSlotZero(frames: nat, slots: nat, ops: seq<Op>)
    requires Legal(frames, slots, ops)
    ensures SlotZeroFirst(Run(frames, slots, ops).swap)
    decreases |ops|
  {
    if ops != [] {
      RunSlotZero(frames, slots, ops[..|ops| - 1]);
      RunInv(frames, slots, ops[..|ops| - 1]);
      StepKeepsSlotZero(Run(frames, slots, ops[..|ops| - 1]), ops[|ops| - 1]);
    }
  }

  lemma FaultSlotsLeft(m: Machine, pid: nat, pgn: nat)
    requires SlotZeroFirst(m.swap) && NoDuplicates(m.swap.free) && pid in m.procs
    requires CanFault(m.procs[pid], m.ram, m.swap, pgn)
    ensures 0 !in Touch(m, pid, pgn).swap.free
  {
    assert forall i :: 0 <= i < |m.swap.free[1..]| ==> m.swap.free[1..][i] == m.swap.free[i + 1];
  }

  ghost predicate SlotZeroFirst(d: Device) { 0 in d.free ==> d.free[0] == 0 }

  lemma StepKeepsSlotZero(m: Machine, op: Op)
    requires Inv(m) && Allowed(m, op) && SlotZeroFirst(m.swap)
    ensures var m' := Step(m, op).0;
            && SlotZeroFirst(m'.swap)
            && (0 !in m.swap.free ==> 0 !in m'.swap.free && PageAt(m'.swap, 0) == PageAt(m.swap, 0))
  {
    match op
    case Read(pid, addr) => TouchKeepsSlotZero(m, pid, addr / PAGE_SIZE);
    case Write(pid, addr, _) => TouchKeepsSlotZero(m, pid, addr / PAGE_SIZE);
    case Alloc(_, _, _) =>
    case Release(_, _) =>
    case Load(_) =>
  }

  lemma TouchKeepsSlotZero(m: Machine, pid: nat, pgn: nat)
    requires NoDuplicates(m.swap.free) && SlotZeroFirst(m.swap) && pid in m.procs
    ensures var m' := Touch(m, pid, pgn);
            && SlotZeroFirst(m'.swap)
            && (0 !in m.swap.free ==> 0 !in m'.swap.free && PageAt(m'.swap, 0) == PageAt(m.swap, 0))
  {
    if CanFault(m.procs[pid], m.ram, m.swap, pgn) {
      FaultSlotsLeft(m, pid, pgn);
      assert m.swap.free[0] in m.swap.free;
    }
  }

  // ----- frames over whole runs

  /** The allocation finds too few free frames. */
  ghost predicate FailsToMap(m: Machine, op: Op)
    requires Shape(m)
  {
    op.Alloc? && op.pid in m.procs && R.ValidId(op.rgid) && op.size > 0
    && GrowthOf(m, op).MapPages? && GrowthOf(m, op).count > |m.ram.free|
  }

  /** A failed allocation changes no page table, only uses up the free list, and answers 0 all the same. */
  lemma FailedAllocation(m: Machine, op: Op)
    requires Inv(m) && Allowed(m, op) && FailsToMap(m, op)
    ensures var (m', out) := Step(m, op);
            && m'.ram == m.ram.(free := []) && m'.swap == m.swap && out == Ret(0)
            && m'.procs.Keys == m.procs.Keys
            && forall q :: q in m.procs ==> m'.procs[q].pgd == m.procs[q].pgd && m'.procs[q].fifo == m.procs[q].fifo
  {
    assert ProcInv(m.procs[op.pid]);
    GrowthFacts(m.procs[op.pid].heap, op.rgid, op.size);
  }

  ghost predicate NothingLost(m: Machine) {
    forall f :: 0 <= f < |m.ramOwner| ==> !m.ramOwner[f].LostFrame?
  }

  /** An allocation loses frames exactly when it fails after having popped some. */
  lemma AllocLoses(m: Machine, op: Op)
    requires Inv(m) && op.Alloc? && Allowed(m, op)
    ensures NothingLost(Step(m, op).0) <==> NothingLost(m) && (FailsToMap(m, op) ==> m.ram.free == [])
  {
    assert ProcInv(m.procs[op.pid]);
    GrowthFacts(m.procs[op.pid].heap, op.rgid, op.size);
    var g := GrowthOf(m, op);
    if g.MapPages? {
      if g.count <= |m.ram.free| {
        TakeFramesFacts(m.ram.free, g.count);
        OwnLosesNothing(m.ram, m.ramOwner, op.pid, g.start, TakeFrames(m.ram.free, g.count).1);
      } else {
        LosesFree(m.ram, m.ramOwner);
      }
    }
  }

  lemma OwnLosesNothing(d: Device, owner: seq<Owner>, pid: nat, start: nat, frames: seq<nat>)
    requires FreeListOk(d, owner) && forall f :: f in frames ==> f in d.free
    ensures forall f :: 0 <= f < |owner| ==>
              (owner[f].LostFrame? <==> OwnFrames(owner, pid, start, frames)[f].LostFrame?)
  {
  }

  lemma LosesFree(d: Device, owner: seq<Owner>)
    requires FreeListOk(d, owner)
    ensures d.free == [] ==> LoseFrames(owner, d.free) == owner
    ensures d.free != [] ==> d.free[0] < |owner| && LoseFrames(owner, d.free)[d.free[0]].LostFrame?
    ensures forall f :: 0 <= f < |owner| && owner[f].LostFrame? ==> LoseFrames(owner, d.free)[f].LostFrame?
  {
    if d.free != [] { assert d.free[0] in d.free; }
  }

  lemma TouchLosesNothing(m: Machine, pid: nat, pgn: nat)
    requires Inv(m) && pid in m.procs
    ensures NothingLost(Touch(m, pid, pgn)) <==> NothingLost(m)
  {
    if CanFault(m.procs[pid], m.ram, m.swap, pgn) {
      FaultParts(m, pid, pgn);
      var pr := m.procs[pid];
      var f := pr.pgd[pr.fifo[|pr.fifo| - 1]].fpn;
      assert Touch(m, pid, pgn).ramOwner == m.ramOwner[f := UsedBy(pid, pgn)];
      assert forall g :: 0 <= g < |m.ramOwner| && g != f ==> m.ramOwner[g] == m.ramOwner[f := UsedBy(pid, pgn)][g];
    }
  }

  /** Only a failing allocation that finds free frames loses any, and what is lost stays lost. */
  lemma StepLoses(m: Machine, op: Op)
    requires Inv(m) && Allowed(m, op)
    ensures NothingLost(Step(m, op).0) <==> NothingLost(m) && (FailsToMap(m, op) ==> m.ram.free == [])
  {
    match op
    case Alloc(_, _, _) => AllocLoses(m, op);
    case Write(pid, addr, _) => TouchLosesNothing(m, pid, addr / PAGE_SIZE);
    case Read(pid, addr) => TouchLosesNothing(m, pid, addr / PAGE_SIZE);
    case Release(_, _) =>
    case Load(_) =>
  }

  /** Every allocation of the run that failed found the free list empty. */
  ghost predicate FailuresFoundNone(frames: nat, slots: nat, ops: seq<Op>)
    requires Legal(frames, slots, ops)
    decreases |ops|
  {
    ops == [] ||
    (var before := ops[..|ops| - 1];
     var m := Run(frames, slots, before);
     FailuresFoundNone(frames, slots, before) && (FailsToMap(m, ops[|ops| - 1]) ==> m.ram.free == []))
  }

  lemma {:induction false} RunLosesNothing(frames: nat, slots: nat, ops: seq<Op>)
    requires Legal(frames, slots, ops)
    ensures NothingLost(Run(frames, slots, ops)) <==> FailuresFoundNone(frames, slots, ops)
    decreases |ops|
  {
    if ops != [] {
      RunLosesNothing(frames, slots, ops[..|ops| - 1]);
      RunInv(frames, slots, ops[..|ops| - 1]);
      StepLoses(Run(frames, slots, ops[..|ops| - 1]), ops[|ops| - 1]);
    }
  }

  ghost predicate NamedBy(procs: Procs, f: nat) {
    exists q, p :: q in procs && 0 <= p < MAX_PGN && procs[q].pgd[p] == Resident(f)
  }

  /** Resident entries name frames of the device that are off the free list, no two the same one. */
  ghost predicate FramesOwned(procs: Procs, d: Device) {
    && NoDuplicates(d.free)
    && (forall q, p :: q in procs && 0 <= p < MAX_PGN && procs[q].pgd[p].Resident? ==>
          procs[q].pgd[p].fpn < |d.pages| && procs[q].pgd[p].fpn !in d.free)
    && (forall q, p, r, t | q in procs && r in procs && 0 <= p < MAX_PGN && 0 <= t < MAX_PGN ::
          procs[q].pgd[p].Resident? && procs[q].pgd[p] == procs[r].pgd[t] ==> q == r && p == t)
  }

  lemma OwnedFrames(procs: Procs, d: Device, owner: seq<Owner>)
    requires FreeListOk(d, owner) && ResidentOwned(procs, owner)
    ensures FramesOwned(procs, d)
  {
    forall q, p | q in procs && 0 <= p < MAX_PGN && procs[q].pgd[p].Resident?
      ensures procs[q].pgd[p].fpn < |d.pages| && procs[q].pgd[p].fpn !in d.free
    {
      assert owner[procs[q].pgd[p].fpn] == UsedBy(q, p);
      assert forall i :: 0 <= i < |d.free| ==> owner[d.free[i]].FreeFrame?;
    }
  }

  /** A frame that is neither free nor lost is named, and a lost frame is neither free nor named. */
  lemma FreeOrNamed(procs: Procs, d: Device, owner: seq<Owner>, f: nat)
    requires FreeListOk(d, owner) && ResidentOwned(procs, owner) && OwnerResident(procs, owner) && f < |owner|
    ensures f in d.free || NamedBy(procs, f) <==> !owner[f].LostFrame?
  {
    if owner[f].UsedBy? {
      assert procs[owner[f].pid].pgd[owner[f].pgn] == Resident(f);
    }
    if f in d.free {
      var i :| 0 <= i < |d.free| && d.free[i] == f;
    }
  }

  /**
    Frame ownership.  After every run the free list has no duplicates, and resident entries of all processes name
    distinct frames in range and off the list.  Every frame is either free or named by a resident entry if and
    only if every allocation that failed found the free list empty.
  */
  lemma FrameOwnership(frames: nat, slots: nat, ops: seq<Op>, m: Machine)
    requires Legal(frames, slots, ops) && m == Run(frames, slots, ops)
    ensures Shape(m) && FramesOwned(m.procs, m.ram)
    ensures (forall f: nat | f < |m.ram.pages| :: f in m.ram.free || NamedBy(m.procs, f))
            <==> FailuresFoundNone(frames, slots, ops)
  {
    RunInv(frames, slots, ops);
    OwnedFrames(m.procs, m.ram, m.ramOwner);
    RunLosesNothing(frames, slots, ops);
    forall f: nat | f < |m.ram.pages|
      ensures f in m.ram.free || NamedBy(m.procs, f) <==> !m.ramOwner[f].LostFrame?
    {
      FreeOrNamed(m.procs, m.ram, m.ramOwner, f);
    }
  }

  /** Mapping shape: page start+i is bound to the (n-1-i)-th frame popped, and nothing else changes. */
  lemma MappingShape(m: Machine, pid: nat, start: nat, n: nat)
    requires Shape(m) && pid in m.procs && n <= |m.ram.free| && start + n <= MAX_PGN
    ensures var m' := Grow(m, pid, start, n);
            && (forall p :: start <= p < start + n ==>
                  m'.procs[pid].pgd[p] == Resident(m.ram.free[n - 1 - (p - start)]))
            && (forall p :: 0 <= p < MAX_PGN && !(start <= p < start + n) ==>
                  m'.procs[pid].pgd[p] == m.procs[pid].pgd[p])
            && (forall q :: q in m.procs && q != pid ==> m'.procs[q] == m.procs[q])
            && m'.ram.free == m.ram.free[n..]
  {
    var frames := TakeFrames(m.ram.free, n).1;
    assert forall i :: 0 <= i < n ==> frames[i] == m.ram.free[n - 1 - i];
  }

  // ----- when the list stays free of duplicates

  /** Mapping keeps the list free of duplicates exactly when it maps no page that is in the list. */
  lemma GrowKeepsListIff(m: Machine, pid: nat, start: nat, n: nat)
    requires pid in m.procs && n <= |m.ram.free| && NoDuplicates(m.procs[pid].fifo)
    ensures NoDuplicates(Grow(m, pid, start, n).procs[pid].fifo)
            <==> forall p :: start <= p < start + n ==> p !in m.procs[pid].fifo
  {
    var added := Reverse(Range(start, n));
    AddedPages(start, n);
    NoneInCommon(added, m.procs[pid].fifo);
    assert Grow(m, pid, start, n).procs[pid].fifo == added + m.procs[pid].fifo;
  }

  lemma AddedPages(start: nat, n: nat)
    ensures NoDuplicates(Reverse(Range(start, n)))
    ensures forall p :: p in Reverse(Range(start, n)) <==> start <= p < start + n
  {
    var added := Reverse(Range(start, n));
    assert forall i :: 0 <= i < n ==> added[i] == start + n - 1 - i;
    forall p | start <= p < start + n ensures p in added { assert added[start + n - 1 - p] == p; }
  }

  lemma NoneInCommon(a: seq<nat>, b: seq<nat>)
    requires NoDuplicates(a) && NoDuplicates(b)
    ensures NoDuplicates(a + b) <==> forall x :: x in a ==> x !in b
  {
    if x :| x in a && x in b {
      var i :| 0 <= i < |a| && a[i] == x;
      var j :| 0 <= j < |b| && b[j] == x;
      assert (a + b)[i] == (a + b)[|a| + j];
    } else {
      forall i, j | 0 <= i < j < |a + b| ensures (a + b)[i] != (a + b)[j] {
        assert i < |a| <= j ==> a[i] in a && b[j - |a|] in b;
      }
    }
  }

  /** A fault and then a growth keep the list free of duplicates exactly when the growth leaves out the faulted page. */
  lemma FaultThenGrowIff(m: Machine, pid: nat, pgn: nat, start: nat, n: nat)
    requires Inv(m) && pid in m.procs && CanFault(m.procs[pid], m.ram, m.swap, pgn) && n <= |m.ram.free|
    requires forall p :: start <= p < start + n ==> p !in m.procs[pid].fifo
    ensures var m1 := Touch(m, pid, pgn);
            pid in m1.procs &&
            (NoDuplicates(Grow(m1, pid, start, n).procs[pid].fifo) <==> !(start <= pgn < start + n))
  {
    FaultKeepsInv(m, pid, pgn);
    var m1 := Touch(m, pid, pgn);
    assert ProcInv(m1.procs[pid]);
    GrowKeepsListIff(m1, pid, start, n);
    assert m1.procs[pid].fifo == [pgn] + m.procs[pid].fifo[..|m.procs[pid].fifo| - 1];
  }

  /** In a reachable state an allocation keeps the list free of duplicates exactly when it is allowed. */
  lemma AllocKeepsListIff(m: Machine, op: Op)
    requires Inv(m) && op.Alloc? && op.pid in m.procs && R.ValidId(op.rgid) && op.size > 0
    requires R.Alloc(m.procs[op.pid].heap, op.rgid, op.size).0.vmEnd <= MAX_PGN * PAGE_SIZE
    ensures var m' := AllocRegion(m, op.pid, op.rgid, op.size);
            op.pid in m'.procs && (NoDuplicates(m'.procs[op.pid].fifo) <==> Allowed(m, op))
  {
    var pr := m.procs[op.pid];
    assert ProcInv(pr);
    var (heap, g) := R.Alloc(pr.heap, op.rgid, op.size);
    GrowthFacts(pr.heap, op.rgid, op.size);
    if g.MapPages? && g.count <= |m.ram.free| {
      var m1 := m.(procs := m.procs[op.pid := pr.(heap := heap)]);
      GrowKeepsListIff(m1, op.pid, g.start, g.count);
      assert AllocRegion(m, op.pid, op.rgid, op.size) == Grow(m1, op.pid, g.start, g.count);
      ListedIsResident(pr, g.start, g.count);
      assert forall p: nat :: MapsPage(m, op, op.pid, p) <==> g.start <= p < g.start + g.count;
    }
  }

  lemma ListedIsResident(pr: Proc, start: nat, n: nat)
    requires |pr.pgd| == MAX_PGN && FifoExact(pr.pgd, pr.fifo) && start + n <= MAX_PGN
    ensures (forall p :: start <= p < start + n ==> p !in pr.fifo) <==>
            (forall p :: start <= p < start + n ==> !pr.pgd[p].Resident?)
  {
  }
}
