/**
  Paged memory with eviction (src/libmem.c, src/mm.c, src/mm-memphy.c) on values: any number of processes
  share the frames of RAM and the slots of one swap device.

  Storage is seen frame by frame; entries are seen through Pte.Decode.  `ramOwner` and `swapOwner` record who
  was given a frame or a slot and are read by no operation.
*/
module Paging {
  import opened Common
  import opened Pte
  import R = Regions

  type Byte = b: int | -128 <= b < 128

  type Page = p: seq<Byte> | |p| == PAGE_SIZE witness ZeroBytes(PAGE_SIZE)

  function ZeroBytes(n: nat): (s: seq<Byte>)
    ensures |s| == n && forall i :: 0 <= i < n ==> s[i] == 0
  {
    if n == 0 then [] else [0] + ZeroBytes(n - 1)
  }

  const ZERO_PAGE: Page := ZeroBytes(PAGE_SIZE)

  /** A storage device: its frames and its list of free frames, head first. */
  datatype Device = Device(pages: seq<Page>, free: seq<nat>)

  /** `fifo` is the linked list of resident pages, newest first. */
  datatype Proc = Proc(
    pgd: seq<Entry>, fifo: seq<nat>, heap: R.Heap)

  datatype Owner = FreeFrame | LostFrame | UsedBy(pid: nat, pgn: nat)

  datatype Machine = Machine(
    ram: Device, swap: Device, procs: map<nat, Proc>, ramOwner: seq<Owner>, swapOwner: seq<Owner>)

  function UpTo(n: nat): (s: seq<nat>)
    ensures |s| == n && forall i :: 0 <= i < n ==> s[i] == i
  {
    if n == 0 then [] else UpTo(n - 1) + [n - 1]
  }

  /** init_memphy: zeroed storage, all frames free in ascending order. */
  function Format(frames: nat): Device {
    Device(seq(frames, _ => ZERO_PAGE), UpTo(frames))
  }

  function Boot(frames: nat, slots: nat): Machine {
    Machine(Format(frames), Format(slots), map[], seq(frames, _ => FreeFrame), seq(slots, _ => FreeFrame))
  }

  /** init_mm. */
  function NewProc(): Proc {
    Proc(seq(MAX_PGN, _ => Absent(0)), [], R.InitHeap())
  }

  // ----- mapping

  function Reverse<T>(s: seq<T>): (r: seq<T>)
    ensures |r| == |s| && forall i :: 0 <= i < |s| ==> r[i] == s[|s| - 1 - i]
  {
    if s == [] then [] else Reverse(s[1..]) + [s[0]]
  }

  /** alloc_pages_range pushes each frame it pops on the head of its list; it fails half way if frames run out. */
  function TakeFrames(free: seq<nat>, n: nat): (bool, seq<nat>, seq<nat>) {
    if n <= |free| then (true, Reverse(free[..n]), free[n..]) else (false, [], [])
  }

  /** The page table after vmap_page_range has bound page start+i to the i-th frame of the list. */
  function MapRange(pgd: seq<Entry>, start: nat, frames: seq<nat>): (r: seq<Entry>)
    ensures |r| == |pgd|
  {
    seq(|pgd|, p requires 0 <= p < |pgd| =>
      if start <= p < start + |frames| then Resident(frames[p - start]) else pgd[p])
  }

  function Range(start: nat, n: nat): (s: seq<nat>)
    ensures |s| == n && forall i :: 0 <= i < n ==> s[i] == start + i
  {
    if n == 0 then [] else Range(start, n - 1) + [start + n - 1]
  }

  /** vmap_page_range on a process. */
  function MapPages(pr: Proc, start: nat, frames: seq<nat>): Proc {
    pr.(pgd := MapRange(pr.pgd, start, frames),
        fifo := Reverse(Range(start, |frames|)) + pr.fifo)
  }

  function IndexOf(s: seq<nat>, x: nat): (i: nat)
    requires x in s
    ensures i < |s| && s[i] == x
  {
    if s[0] == x then 0 else 1 + IndexOf(s[1..], x)
  }

  function OwnFrames(owner: seq<Owner>, pid: nat, start: nat, frames: seq<nat>): (r: seq<Owner>)
    ensures |r| == |owner|
  {
    seq(|owner|, f requires 0 <= f < |owner| =>
      if f in frames then UsedBy(pid, start + IndexOf(frames, f)) else owner[f])
  }

  function LoseFrames(owner: seq<Owner>, frames: seq<nat>): (r: seq<Owner>)
    ensures |r| == |owner|
  {
    seq(|owner|, f requires 0 <= f < |owner| => if f in frames then LostFrame else owner[f])
  }

  /** vm_map_ram: all the pages or none; the frames popped before a failure are never given back. */
  function GrowPages(pr: Proc, free: seq<nat>, start: nat, n: nat): (Proc, seq<nat>) {
    var (ok, frames, rest) := TakeFrames(free, n);
    (if ok then MapPages(pr, start, frames) else pr, rest)
  }

  /** The same on the machine. */
  function Grow(m: Machine, pid: nat, start: nat, n: nat): Machine
    requires pid in m.procs
  {
    var (pr, rest) := GrowPages(m.procs[pid], m.ram.free, start, n);
    m.(ram := m.ram.(free := rest), procs := m.procs[pid := pr],
       ramOwner := if n <= |m.ram.free| then OwnFrames(m.ramOwner, pid, start, TakeFrames(m.ram.free, n).1)
                   else LoseFrames(m.ramOwner, m.ram.free))
  }

  function ApplyGrowth(pr: Proc, free: seq<nat>, growth: R.Growth): (Proc, seq<nat>) {
    match growth
    case NoGrowth => (pr, free)
    case MapPages(start, count) =>
      if start >= 0 && count >= 0 then GrowPages(pr, free, start, count) else (pr, free)
  }

  // ----- page access

  predicate CanFault(pr: Proc, ram: Device, swap: Device, pgn: nat) {
    && pgn < |pr.pgd| && pr.pgd[pgn].Absent? && pr.fifo != [] && swap.free != []
    && (var vic := pr.fifo[|pr.fifo| - 1]; vic < |pr.pgd| && FrameRead(pr.pgd[vic]) < |ram.pages|)
    && swap.free[0] < |swap.pages| && pr.pgd[pgn].slot < |swap.pages|
  }

  /** The fault branch of pg_getpage: the oldest page moves to the first free slot, the target takes its frame. */
  function FaultIn(pr: Proc, ram: Device, swap: Device, pgn: nat): (Proc, Device, Device)
    requires CanFault(pr, ram, swap, pgn)
  {
    var last := |pr.fifo| - 1;
    var vic := pr.fifo[last];
    var frame := FrameRead(pr.pgd[vic]);
    var slot := swap.free[0];
    var swap1 := swap.pages[slot := ram.pages[frame]];
    (pr.(pgd := pr.pgd[vic := Evicted(0, slot)][pgn := Resident(frame)],
         fifo := [pgn] + pr.fifo[..last]),
     ram.(pages := ram.pages[frame := swap1[pr.pgd[pgn].slot]]),
     Device(swap1, swap.free[1..]))
  }

  /** pg_getpage: a fault if the present bit is clear and a victim exists. */
  function Touch(m: Machine, pid: nat, pgn: nat): Machine
    requires pid in m.procs
  {
    var pr := m.procs[pid];
    if CanFault(pr, m.ram, m.swap, pgn) then
      var vic := pr.fifo[|pr.fifo| - 1];
      var frame, slot := FrameRead(pr.pgd[vic]), m.swap.free[0];
      var (pr', ram', swap') := FaultIn(pr, m.ram, m.swap, pgn);
      Machine(ram', swap', m.procs[pid := pr'],
              if frame < |m.ramOwner| then m.ramOwner[frame := UsedBy(pid, pgn)] else m.ramOwner,
              if slot < |m.swapOwner| then m.swapOwner[slot := UsedBy(pid, vic)] else m.swapOwner)
    else m
  }

  datatype Out = Ret(code: int) | Data(value: Byte)

  function StoreAt(pages: seq<Page>, f: nat, off: nat, v: Byte): seq<Page>
    requires f < |pages| && off < PAGE_SIZE
  {
    pages[f := pages[f][off := v]]
  }

  /** The read that follows a touch; -1 if the page has no frame in RAM. */
  function FetchFrom(pr: Proc, ram: Device, addr: nat): Out
    requires addr / PAGE_SIZE < |pr.pgd|
  {
    var e := pr.pgd[addr / PAGE_SIZE];
    if !e.Absent? && FrameRead(e) < |ram.pages| then Data(ram.pages[FrameRead(e)][addr % PAGE_SIZE]) else Ret(-1)
  }

  /** The write that follows a touch. */
  function StoreTo(pr: Proc, ram: Device, addr: nat, v: Byte): (Device, Out)
    requires addr / PAGE_SIZE < |pr.pgd|
  {
    var e := pr.pgd[addr / PAGE_SIZE];
    if !e.Absent? && FrameRead(e) < |ram.pages|
    then (ram.(pages := StoreAt(ram.pages, FrameRead(e), addr % PAGE_SIZE, v)), Ret(0))
    else (ram, Ret(-1))
  }

  /** pg_getval. */
  function ReadByte(m: Machine, pid: nat, addr: nat): (Machine, Out)
    requires pid in m.procs && addr / PAGE_SIZE < |m.procs[pid].pgd|
  {
    var m1 := Touch(m, pid, addr / PAGE_SIZE);
    (m1, FetchFrom(m1.procs[pid], m1.ram, addr))
  }

  /** pg_setval. */
  function WriteByte(m: Machine, pid: nat, addr: nat, v: Byte): (Machine, Out)
    requires pid in m.procs && addr / PAGE_SIZE < |m.procs[pid].pgd|
  {
    var m1 := Touch(m, pid, addr / PAGE_SIZE);
    var (ram, out) := StoreTo(m1.procs[pid], m1.ram, addr, v);
    (m1.(ram := ram), out)
  }

  // ----- operations of the processes

  datatype Op =
    | Load(pid: nat)
    | Alloc(pid: nat, rgid: int, size: nat)
    | Release(pid: nat, rgid: int)
    | Read(pid: nat, addr: nat)
    | Write(pid: nat, addr: nat, v: Byte)

  predicate Shape(m: Machine) {
    forall pid :: pid in m.procs ==> |m.procs[pid].pgd| == MAX_PGN && R.WellFormed(m.procs[pid].heap)
  }

  /** The growth the heap of `pid` asks for when it allocates. */
  function GrowthOf(m: Machine, op: Op): R.Growth
    requires Shape(m) && op.Alloc? && op.pid in m.procs && R.ValidId(op.rgid) && op.size > 0
  {
    R.Alloc(m.procs[op.pid].heap, op.rgid, op.size).1
  }

  /** __alloc: the heap changes whether or not the pages could be mapped. */
  function AllocRegion(m: Machine, pid: nat, rgid: int, size: nat): Machine
    requires Shape(m) && pid in m.procs && R.ValidId(rgid) && size > 0
  {
    var (heap, growth) := R.Alloc(m.procs[pid].heap, rgid, size);
    var m1 := m.(procs := m.procs[pid := m.procs[pid].(heap := heap)]);
    match growth
    case NoGrowth => m1
    case MapPages(start, count) => if start >= 0 && count >= 0 then Grow(m1, pid, start, count) else m1
  }

  /** The operation is an allocation that maps the page. */
  predicate MapsPage(m: Machine, op: Op, pid: nat, p: nat)
    requires Shape(m)
  {
    && op.Alloc? && op.pid == pid && pid in m.procs && R.ValidId(op.rgid) && op.size > 0
    && var g := GrowthOf(m, op); g.MapPages? && g.count <= |m.ram.free| && g.start <= p < g.start + g.count
  }

  predicate SameAccess(op: Op, pid: nat, pgn: nat) {
    (op.Read? || op.Write?) && op.pid == pid && op.addr / PAGE_SIZE == pgn
  }

  /**
    What a process may do: load once, allocate positive sizes inside the 22-bit address space without mapping a
    resident page again, and access any address, with a free swap slot if a victim is needed.  Pages beyond the
    limit may be accessed, and so may evicted pages as long as the frame number read from their entry exists.
  */
  predicate Allowed(m: Machine, op: Op)
    requires Shape(m)
  {
    match op
    case Load(pid) => pid !in m.procs
    case Alloc(pid, rgid, size) =>
      pid in m.procs && R.ValidId(rgid) && size > 0
      && R.Alloc(m.procs[pid].heap, rgid, size).0.vmEnd <= MAX_PGN * PAGE_SIZE
      && forall p: nat :: MapsPage(m, op, pid, p) && p < MAX_PGN ==> !m.procs[pid].pgd[p].Resident?
    case Release(pid, rgid) => pid in m.procs && R.ValidId(rgid)
    case Read(pid, addr) => pid in m.procs && AccessOk(m, m.procs[pid], addr)
    case Write(pid, addr, _) => pid in m.procs && AccessOk(m, m.procs[pid], addr)
  }

  predicate AccessOk(m: Machine, pr: Proc, addr: nat)
    requires |pr.pgd| == MAX_PGN
  {
    && addr < MAX_PGN * PAGE_SIZE
    && (pr.pgd[addr / PAGE_SIZE].Evicted? ==> FrameRead(pr.pgd[addr / PAGE_SIZE]) < |m.ram.pages|)
    && (pr.pgd[addr / PAGE_SIZE].Absent? && pr.fifo != [] ==> m.swap.free != [])
  }

  function Step(m: Machine, op: Op): (Machine, Out)
    requires Shape(m) && Allowed(m, op)
  {
    match op
    case Load(pid) => (m.(procs := m.procs[pid := NewProc()]), Ret(0))
    case Alloc(pid, rgid, size) => (AllocRegion(m, pid, rgid, size), Ret(0))
    case Release(pid, rgid) =>
      var (heap, ret) := R.Release(m.procs[pid].heap, rgid);
      (m.(procs := m.procs[pid := m.procs[pid].(heap := heap)]), Ret(ret))
    case Read(pid, addr) => ReadByte(m, pid, addr)
    case Write(pid, addr, v) => WriteByte(m, pid, addr, v)
  }

  // ----- the invariant

  ghost predicate FreeListOk(d: Device, owner: seq<Owner>) {
    && |owner| == |d.pages|
    && NoDuplicates(d.free)
    && (forall i :: 0 <= i < |d.free| ==> d.free[i] < |owner| && owner[d.free[i]].FreeFrame?)
    && (forall f :: 0 <= f < |owner| && owner[f].FreeFrame? ==> f in d.free)
  }

  type Procs = ps: map<nat, Proc> | forall pid :: pid in ps ==> |ps[pid].pgd| == MAX_PGN witness map[]

  /** The frame of every resident entry is recorded as used by that entry. */
  ghost predicate ResidentOwned(procs: Procs, owner: seq<Owner>) {
    forall pid, p :: pid in procs && 0 <= p < MAX_PGN && procs[pid].pgd[p].Resident? ==>
      var f := procs[pid].pgd[p].fpn; f < |owner| && owner[f] == UsedBy(pid, p)
  }

  /** Every frame recorded as used is named by that entry. */
  ghost predicate OwnerResident(procs: Procs, owner: seq<Owner>) {
    forall f :: 0 <= f < |owner| && owner[f].UsedBy? ==>
      var o := owner[f]; o.pid in procs && o.pgn < MAX_PGN && procs[o.pid].pgd[o.pgn] == Resident(f)
  }

  /** The slot of every evicted entry is recorded as used by that entry. */
  ghost predicate EvictedOwned(procs: Procs, owner: seq<Owner>) {
    forall pid, p :: pid in procs && 0 <= p < MAX_PGN && procs[pid].pgd[p].Evicted? ==>
      var e := procs[pid].pgd[p]; e.typ == 0 && e.slot < |owner| && owner[e.slot] == UsedBy(pid, p)
  }

  /** Free frames hold zeros; a stray write through an evicted entry can end this. */
  ghost predicate FreshZero(d: Device) {
    forall i :: 0 <= i < |d.free| && d.free[i] < |d.pages| ==> d.pages[d.free[i]] == ZERO_PAGE
  }

  /** The list holds exactly the resident pages, each once. */
  ghost predicate FifoExact(pgd: seq<Entry>, fifo: seq<nat>) {
    && NoDuplicates(fifo)
    && (forall i :: 0 <= i < |fifo| ==> fifo[i] < |pgd| && pgd[fifo[i]].Resident?)
    && (forall p :: 0 <= p < |pgd| && pgd[p].Resident? ==> p in fifo)
  }

  ghost predicate HeapOk(h: R.Heap) {
    R.RegionsOk(h) && 0 <= h.vmEnd <= MAX_PGN * PAGE_SIZE && h.vmEnd % PAGE_SIZE == 0
  }

  /** Absent entries record slot 0. */
  predicate SlotsZero(pgd: seq<Entry>) {
    forall p :: 0 <= p < |pgd| && pgd[p].Absent? ==> pgd[p].slot == 0
  }

  ghost predicate ProcInv(pr: Proc) {
    HeapOk(pr.heap) && SlotsZero(pr.pgd) && FifoExact(pr.pgd, pr.fifo)
  }

  ghost predicate AllProcs(procs: Procs) {
    forall pid :: pid in procs ==> ProcInv(procs[pid])
  }

  ghost predicate Inv(m: Machine) {
    && Shape(m)
    && |m.ram.pages| <= MAX_FRAMES && |m.swap.pages| <= MAX_SLOTS
    && FreeListOk(m.ram, m.ramOwner) && FreeListOk(m.swap, m.swapOwner)
    && ResidentOwned(m.procs, m.ramOwner) && OwnerResident(m.procs, m.ramOwner)
    && EvictedOwned(m.procs, m.swapOwner)
    && AllProcs(m.procs)
  }

  lemma FormatOk(n: nat)
    ensures FreeListOk(Format(n), seq(n, _ => FreeFrame)) && FreshZero(Format(n))
  {
    forall f | 0 <= f < n ensures f in UpTo(n) { assert UpTo(n)[f] == f; }
  }

  lemma BootInv(frames: nat, slots: nat)
    requires frames <= MAX_FRAMES && slots <= MAX_SLOTS
    ensures Inv(Boot(frames, slots)) && FreshZero(Boot(frames, slots).ram)
  {
    FormatOk(frames);
    FormatOk(slots);
  }

  // ----- operations that leave page tables alone

  lemma NewProcInv()
    ensures |NewProc().pgd| == MAX_PGN && ProcInv(NewProc())
  {
    R.InitRegions();
    var h := NewProc().heap;
    assert h == R.InitHeap() && R.RegionsOk(h);
  }

  /** Replacing one process by one with the invariant. */
  lemma SetProc(procs: Procs, pid: nat, pr: Proc)
    requires AllProcs(procs) && |pr.pgd| == MAX_PGN && ProcInv(pr)
    ensures AllProcs(procs[pid := pr])
  {
  }

  /** A process whose page table is unchanged, or starts empty, names the same frames and slots. */
  lemma SamePages(procs: Procs, pid: nat, pr: Proc, ro: seq<Owner>, so: seq<Owner>)
    requires ResidentOwned(procs, ro) && OwnerResident(procs, ro) && EvictedOwned(procs, so)
    requires |pr.pgd| == MAX_PGN
    requires if pid in procs then pr.pgd == procs[pid].pgd else forall p :: 0 <= p < MAX_PGN ==> pr.pgd[p].Absent?
    ensures var ps := procs[pid := pr]; ResidentOwned(ps, ro) && OwnerResident(ps, ro) && EvictedOwned(ps, so)
  {
  }

  lemma LoadKeepsInv(m: Machine, pid: nat)
    requires Inv(m) && pid !in m.procs
    ensures Inv(m.(procs := m.procs[pid := NewProc()]))
  {
    NewProcInv();
    SetProc(m.procs, pid, NewProc());
    SamePages(m.procs, pid, NewProc(), m.ramOwner, m.swapOwner);
  }

  /** A change of the heap bookkeeping. */
  lemma HeapKeepsInv(m: Machine, pid: nat, heap: R.Heap)
    requires Inv(m) && pid in m.procs && HeapOk(heap)
    ensures Inv(m.(procs := m.procs[pid := m.procs[pid].(heap := heap)]))
  {
    var pr := m.procs[pid];
    assert ProcInv(pr);
    SetProc(m.procs, pid, pr.(heap := heap));
    SamePages(m.procs, pid, pr.(heap := heap), m.ramOwner, m.swapOwner);
  }

  // ----- mapping keeps the invariant

  /** Frames popped together are distinct, free until then, and gone from the free list. */
  lemma TakeFramesFacts(free: seq<nat>, n: nat)
    requires NoDuplicates(free) && n <= |free|
    ensures var (ok, frames, rest) := TakeFrames(free, n);
            && ok && |frames| == n && NoDuplicates(frames) && NoDuplicates(rest)
            && (forall i :: 0 <= i < n ==> frames[i] == free[n - 1 - i])
            && (forall f :: f in free <==> f in frames || f in rest)
            && (forall f :: !(f in frames && f in rest))
  {
    var (ok, frames, rest) := TakeFrames(free, n);
    forall f | f in free ensures f in frames || f in rest {
      var i :| 0 <= i < |free| && free[i] == f;
      if i < n { assert frames[n - 1 - i] == f; } else { assert rest[i - n] == f; }
    }
  }

  lemma OwnFramesAt(owner: seq<Owner>, pid: nat, start: nat, frames: seq<nat>, i: nat)
    requires NoDuplicates(frames) && i < |frames| && frames[i] < |owner|
    ensures OwnFrames(owner, pid, start, frames)[frames[i]] == UsedBy(pid, start + i)
  {
    assert frames[i] in frames;
    var j := IndexOf(frames, frames[i]);
    assert frames[j] == frames[i];
  }

  lemma GrowFreeList(d: Device, owner: seq<Owner>, pid: nat, start: nat,
        frames: seq<nat>, rest: seq<nat>)
    requires FreeListOk(d, owner) && NoDuplicates(rest)
    requires forall f :: f in d.free <==> f in frames || f in rest
    requires forall f :: !(f in frames && f in rest)
    ensures FreeListOk(d.(free := rest), OwnFrames(owner, pid, start, frames))
    ensures forall i :: 0 <= i < |frames| ==> frames[i] < |owner| && owner[frames[i]].FreeFrame?
  {
    assert forall f :: f in d.free ==> f < |owner| && owner[f].FreeFrame?;
    assert forall i :: 0 <= i < |rest| ==> rest[i] in rest;
    assert forall i :: 0 <= i < |frames| ==> frames[i] in frames;
  }

  lemma RestIsZero(d: Device, rest: seq<nat>)
    requires FreshZero(d) && forall f :: f in rest ==> f in d.free
    ensures FreshZero(d.(free := rest))
  {
    assert forall i :: 0 <= i < |rest| ==> rest[i] in rest;
  }

  lemma GrowOwners(procs: Procs, owner: seq<Owner>, pid: nat, start: nat, frames: seq<nat>)
    requires ResidentOwned(procs, owner) && OwnerResident(procs, owner) && pid in procs
    requires NoDuplicates(frames) && start + |frames| <= MAX_PGN
    requires forall i :: 0 <= i < |frames| ==> frames[i] < |owner| && owner[frames[i]].FreeFrame?
    requires forall p :: start <= p < start + |frames| ==> !procs[pid].pgd[p].Resident?
    ensures var ps := procs[pid := MapPages(procs[pid], start, frames)]; var o := OwnFrames(owner, pid, start, frames);
            ResidentOwned(ps, o) && OwnerResident(ps, o)
  {
    var n := |frames|;
    var ps := procs[pid := MapPages(procs[pid], start, frames)];
    var o := OwnFrames(owner, pid, start, frames);
    forall q, p | q in ps && 0 <= p < MAX_PGN && ps[q].pgd[p].Resident?
      ensures var f := ps[q].pgd[p].fpn; f < |o| && o[f] == UsedBy(q, p)
    {
      if q == pid && start <= p < start + n {
        OwnFramesAt(owner, pid, start, frames, p - start);
      } else {
        assert ps[q].pgd[p] == procs[q].pgd[p];
      }
    }
    forall f | 0 <= f < |o| && o[f].UsedBy?
      ensures o[f].pid in ps && o[f].pgn < MAX_PGN && ps[o[f].pid].pgd[o[f].pgn] == Resident(f)
    {
      if f in frames { assert frames[IndexOf(frames, f)] == f; }
    }
  }

  lemma GrowEvicted(procs: Procs, so: seq<Owner>, pid: nat, start: nat, frames: seq<nat>)
    requires EvictedOwned(procs, so) && pid in procs
    ensures EvictedOwned(procs[pid := MapPages(procs[pid], start, frames)], so)
  {
  }

  lemma MapFifo(pgd: seq<Entry>, fifo: seq<nat>, start: nat, frames: seq<nat>)
    requires FifoExact(pgd, fifo) && start + |frames| <= |pgd|
    requires forall p :: start <= p < start + |frames| ==> !pgd[p].Resident?
    ensures FifoExact(MapRange(pgd, start, frames), Reverse(Range(start, |frames|)) + fifo)
  {
    var n := |frames|;
    var pgd', added := MapRange(pgd, start, frames), Reverse(Range(start, n));
    assert forall i :: 0 <= i < n ==> added[i] == start + n - 1 - i;
    assert forall i :: 0 <= i < |fifo| ==> !(start <= fifo[i] < start + n);
    forall p | 0 <= p < |pgd'| && pgd'[p].Resident? ensures p in added + fifo {
      if start <= p < start + n {
        assert added[start + n - 1 - p] == p;
      } else {
        assert p in fifo;
      }
    }
  }

  lemma MapPagesInv(pr: Proc, start: nat, frames: seq<nat>)
    requires |pr.pgd| == MAX_PGN && ProcInv(pr) && start + |frames| <= MAX_PGN
    requires forall p :: start <= p < start + |frames| ==> !pr.pgd[p].Resident?
    ensures ProcInv(MapPages(pr, start, frames))
  {
    MapFifo(pr.pgd, pr.fifo, start, frames);
  }

  lemma LoseKeeps(d: Device, owner: seq<Owner>, procs: Procs)
    requires FreeListOk(d, owner) && ResidentOwned(procs, owner) && OwnerResident(procs, owner)
    ensures var o := LoseFrames(owner, d.free);
            FreeListOk(d.(free := []), o) && ResidentOwned(procs, o) && OwnerResident(procs, o)
  {
    var o := LoseFrames(owner, d.free);
    forall f | 0 <= f < |owner| && f in d.free ensures owner[f].FreeFrame? {
      var i :| 0 <= i < |d.free| && d.free[i] == f;
    }
    assert forall f :: 0 <= f < |o| && o[f].UsedBy? ==> o[f] == owner[f];
  }

  lemma GrowKeepsInv(m: Machine, pid: nat, start: nat, n: nat)
    requires Inv(m) && pid in m.procs && start + n <= MAX_PGN
    requires n <= |m.ram.free| ==> forall p :: start <= p < start + n ==> !m.procs[pid].pgd[p].Resident?
    ensures Inv(Grow(m, pid, start, n))
  {
    assert ProcInv(m.procs[pid]);
    if n <= |m.ram.free| {
      var frames := TakeFrames(m.ram.free, n).1;
      TakeFramesFacts(m.ram.free, n);
      GrowFreeList(m.ram, m.ramOwner, pid, start, frames, TakeFrames(m.ram.free, n).2);
      GrowOwners(m.procs, m.ramOwner, pid, start, frames);
      GrowEvicted(m.procs, m.swapOwner, pid, start, frames);
      MapPagesInv(m.procs[pid], start, frames);
      SetProc(m.procs, pid, MapPages(m.procs[pid], start, frames));
    } else {
      LoseKeeps(m.ram, m.ramOwner, m.procs);
      assert m.procs[pid := m.procs[pid]] == m.procs;
    }
  }

  lemma AlignIsPages(size: nat)
    ensures R.Align(size) % PAGE_SIZE == 0
  {
  }

  /** What an allocation does to the limit, and which pages it asks for. */
  lemma GrowthFacts(h: R.Heap, rgid: int, size: nat)
    requires R.WellFormed(h) && R.ValidId(rgid) && size > 0 && h.vmEnd >= 0 && h.vmEnd % PAGE_SIZE == 0
    ensures var (h', g) := R.Alloc(h, rgid, size);
            && h'.vmEnd >= h.vmEnd && h'.vmEnd % PAGE_SIZE == 0
            && (g.NoGrowth? ==> h'.vmEnd == h.vmEnd)
            && (g.MapPages? ==> g.start == h.vmEnd / PAGE_SIZE && g.count >= 0)
            && (g.MapPages? ==> h'.vmEnd / PAGE_SIZE == g.start + g.count)
  {
    AlignIsPages(size);
    AlignIsPages(R.Align(size));
  }

  lemma AllocKeepsInv(m: Machine, pid: nat, rgid: int, size: nat)
    requires Inv(m) && Allowed(m, Alloc(pid, rgid, size))
    ensures Inv(AllocRegion(m, pid, rgid, size))
  {
    var pr := m.procs[pid];
    assert ProcInv(pr);
    var (heap, growth) := R.Alloc(pr.heap, rgid, size);
    R.AllocKeepsRegions(pr.heap, rgid, size);
    GrowthFacts(pr.heap, rgid, size);
    HeapKeepsInv(m, pid, heap);
    if growth.MapPages? {
      assert forall p: nat :: MapsPage(m, Alloc(pid, rgid, size), pid, p) <==>
                growth.count <= |m.ram.free| && growth.start <= p < growth.start + growth.count;
      GrowKeepsInv(m.(procs := m.procs[pid := pr.(heap := heap)]), pid, growth.start, growth.count);
    }
  }

  // ----- faults keep the invariant

  /** In a reachable state an access to an absent page finds its victim, a slot and slot 0. */
  lemma FaultReady(m: Machine, pid: nat, pgn: nat)
    requires Inv(m) && pid in m.procs && pgn < MAX_PGN && m.procs[pid].pgd[pgn].Absent?
    requires m.procs[pid].fifo != [] && m.swap.free != []
    ensures CanFault(m.procs[pid], m.ram, m.swap, pgn)
  {
    assert ProcInv(m.procs[pid]);
    assert m.swap.free[0] < |m.swapOwner|;
  }

  /** What the fault branch works on. */
  lemma FaultParts(m: Machine, pid: nat, pgn: nat)
    requires Inv(m) && pid in m.procs && CanFault(m.procs[pid], m.ram, m.swap, pgn)
    ensures var pr := m.procs[pid]; var vic := pr.fifo[|pr.fifo| - 1];
            && vic < MAX_PGN && vic != pgn && pr.pgd[vic].Resident? && pr.pgd[vic].fpn < |m.ram.pages|
            && m.ramOwner[pr.pgd[vic].fpn] == UsedBy(pid, vic)
            && m.swap.free[0] < |m.swapOwner| && m.swapOwner[m.swap.free[0]].FreeFrame?
            && pr.pgd[pgn].slot == 0
  {
    assert ProcInv(m.procs[pid]);
  }

  lemma FaultFifo(pgd: seq<Entry>, fifo: seq<nat>, pgn: nat, frame: nat, slot: nat)
    requires FifoExact(pgd, fifo) && fifo != [] && pgn < |pgd| && pgd[pgn].Absent?
    ensures var last := |fifo| - 1;
            FifoExact(pgd[fifo[last] := Evicted(0, slot)][pgn := Resident(frame)], [pgn] + fifo[..last])
  {
    var last := |fifo| - 1;
    var vic, kept := fifo[last], fifo[..last];
    var pgd' := pgd[vic := Evicted(0, slot)][pgn := Resident(frame)];
    forall p | 0 <= p < |pgd'| && pgd'[p].Resident? ensures p in [pgn] + kept {
      if p != pgn {
        assert p in fifo;
        var i :| 0 <= i < |fifo| && fifo[i] == p;
        assert i < last && kept[i] == p;
      }
    }
  }

  lemma FaultProcInv(pr: Proc, ram: Device, swap: Device, pgn: nat)
    requires |pr.pgd| == MAX_PGN && ProcInv(pr) && CanFault(pr, ram, swap, pgn)
    ensures |FaultIn(pr, ram, swap, pgn).0.pgd| == MAX_PGN && ProcInv(FaultIn(pr, ram, swap, pgn).0)
  {
    FaultFifo(pr.pgd, pr.fifo, pgn, FrameRead(pr.pgd[pr.fifo[|pr.fifo| - 1]]), swap.free[0]);
  }

  /** The frame changes hands from the victim to the target. */
  lemma FaultOwners(procs: Procs, ro: seq<Owner>, pid: nat, pr': Proc, vic: nat, pgn: nat, slot: nat)
    requires ResidentOwned(procs, ro) && OwnerResident(procs, ro) && pid in procs
    requires vic < MAX_PGN && pgn < MAX_PGN && vic != pgn
    requires procs[pid].pgd[vic].Resident? && procs[pid].pgd[pgn].Absent?
    requires pr'.pgd == procs[pid].pgd[vic := Evicted(0, slot)][pgn := Resident(procs[pid].pgd[vic].fpn)]
    ensures var f := procs[pid].pgd[vic].fpn;
            && f < |ro| && ResidentOwned(procs[pid := pr'], ro[f := UsedBy(pid, pgn)])
            && OwnerResident(procs[pid := pr'], ro[f := UsedBy(pid, pgn)])
  {
    var f := procs[pid].pgd[vic].fpn;
    var ps, o := procs[pid := pr'], ro[f := UsedBy(pid, pgn)];
    forall q, p | q in ps && 0 <= p < MAX_PGN && ps[q].pgd[p].Resident?
      ensures var g := ps[q].pgd[p].fpn; g < |o| && o[g] == UsedBy(q, p)
    {
      if !(q == pid && (p == pgn || p == vic)) { assert ps[q].pgd[p] == procs[q].pgd[p]; }
    }
  }

  /** The slot is taken by the victim. */
  lemma FaultSlots(procs: Procs, so: seq<Owner>, pid: nat, pr': Proc, vic: nat, pgn: nat, slot: nat)
    requires EvictedOwned(procs, so) && pid in procs && slot < |so| && so[slot].FreeFrame?
    requires vic < MAX_PGN && pgn < MAX_PGN && vic != pgn && procs[pid].pgd[vic].Resident?
    requires pr'.pgd == procs[pid].pgd[vic := Evicted(0, slot)][pgn := Resident(procs[pid].pgd[vic].fpn)]
    ensures EvictedOwned(procs[pid := pr'], so[slot := UsedBy(pid, vic)])
  {
    var ps := procs[pid := pr'];
    forall q, p | q in ps && 0 <= p < MAX_PGN && ps[q].pgd[p].Evicted?
      ensures var e := ps[q].pgd[p];
              e.typ == 0 && e.slot < |so| && so[slot := UsedBy(pid, vic)][e.slot] == UsedBy(q, p)
    {
      if !(q == pid && p == vic) { assert ps[q].pgd[p] == procs[q].pgd[p]; }
    }
  }

  lemma PopSlot(d: Device, owner: seq<Owner>, page: Page, user: Owner)
    requires FreeListOk(d, owner) && d.free != [] && d.free[0] < |d.pages| && user.UsedBy?
    ensures FreeListOk(Device(d.pages[d.free[0] := page], d.free[1..]), owner[d.free[0] := user])
  {
    var o := owner[d.free[0] := user];
    assert forall i :: 0 <= i < |d.free[1..]| ==> d.free[1..][i] == d.free[i + 1];
    forall f | 0 <= f < |o| && o[f].FreeFrame? ensures f in d.free[1..] {
      assert f in d.free;
      var i :| 0 <= i < |d.free| && d.free[i] == f;
      assert d.free[1..][i - 1] == f;
    }
  }

  lemma UseFrame(d: Device, owner: seq<Owner>, f: nat, page: Page, user: Owner)
    requires FreeListOk(d, owner) && f < |d.pages| && owner[f].UsedBy? && user.UsedBy?
    ensures FreeListOk(d.(pages := d.pages[f := page]), owner[f := user])
  {
    assert f !in d.free;
    assert forall i :: 0 <= i < |d.free| ==> d.free[i] in d.free;
  }

  /** After a fault both free lists still hold exactly the free frames. */
  lemma FaultLists(m: Machine, pid: nat, pgn: nat)
    requires Inv(m) && pid in m.procs && CanFault(m.procs[pid], m.ram, m.swap, pgn)
    ensures var m' := Touch(m, pid, pgn); FreeListOk(m'.ram, m'.ramOwner) && FreeListOk(m'.swap, m'.swapOwner)
    ensures |Touch(m, pid, pgn).ram.pages| == |m.ram.pages| && |Touch(m, pid, pgn).swap.pages| == |m.swap.pages|
  {
    FaultParts(m, pid, pgn);
    var pr := m.procs[pid];
    var vic := pr.fifo[|pr.fifo| - 1];
    var frame := pr.pgd[vic].fpn;
    PopSlot(m.swap, m.swapOwner, m.ram.pages[frame], UsedBy(pid, vic));
    UseFrame(m.ram, m.ramOwner, frame, Touch(m, pid, pgn).ram.pages[frame], UsedBy(pid, pgn));
  }

  /** After a fault the page tables still agree with the owners. */
  lemma FaultTables(m: Machine, pid: nat, pgn: nat)
    requires Inv(m) && pid in m.procs && CanFault(m.procs[pid], m.ram, m.swap, pgn)
    ensures Shape(Touch(m, pid, pgn))
    ensures var m' := Touch(m, pid, pgn);
            ResidentOwned(m'.procs, m'.ramOwner) && OwnerResident(m'.procs, m'.ramOwner)
            && EvictedOwned(m'.procs, m'.swapOwner)
  {
    FaultParts(m, pid, pgn);
    var pr := m.procs[pid];
    var vic, slot := pr.fifo[|pr.fifo| - 1], m.swap.free[0];
    var pr' := FaultIn(pr, m.ram, m.swap, pgn).0;
    FaultOwners(m.procs, m.ramOwner, pid, pr', vic, pgn, slot);
    FaultSlots(m.procs, m.swapOwner, pid, pr', vic, pgn, slot);
  }

  lemma FaultKeepsInv(m: Machine, pid: nat, pgn: nat)
    requires Inv(m) && pid in m.procs && CanFault(m.procs[pid], m.ram, m.swap, pgn)
    ensures Inv(Touch(m, pid, pgn))
  {
    FaultLists(m, pid, pgn);
    FaultTables(m, pid, pgn);
    var pr := m.procs[pid];
    assert ProcInv(pr);
    FaultProcInv(pr, m.ram, m.swap, pgn);
    SetProc(m.procs, pid, FaultIn(pr, m.ram, m.swap, pgn).0);
  }

  lemma TouchKeepsInv(m: Machine, pid: nat, pgn: nat)
    requires Inv(m) && pid in m.procs && pgn < MAX_PGN
    ensures Inv(Touch(m, pid, pgn))
  {
    if CanFault(m.procs[pid], m.ram, m.swap, pgn) { FaultKeepsInv(m, pid, pgn); }
  }

  /**
    After a touch the page is in a frame of its own, unless it was evicted, or absent with no victim.  In any
    case the frame number read from a present entry exists.
  */
  lemma TouchedPage(m: Machine, pid: nat, addr: nat)
    requires Inv(m) && pid in m.procs && AccessOk(m, m.procs[pid], addr)
    ensures var pgn := addr / PAGE_SIZE; var m' := Touch(m, pid, pgn);
            && Inv(m') && pid in m'.procs
            && (m'.procs[pid].pgd[pgn].Absent? <==> m.procs[pid].pgd[pgn].Absent? && m.procs[pid].fifo == [])
            && (m'.procs[pid].pgd[pgn].Evicted? <==> m.procs[pid].pgd[pgn].Evicted?)
            && (m'.procs[pid].pgd[pgn].Resident? ==>
                  m'.procs[pid].pgd[pgn].fpn < |m'.ramOwner|
                  && m'.ramOwner[m'.procs[pid].pgd[pgn].fpn] == UsedBy(pid, pgn))
            && (!m'.procs[pid].pgd[pgn].Absent? ==> FrameRead(m'.procs[pid].pgd[pgn]) < |m'.ram.pages|)
  {
    var pgn := addr / PAGE_SIZE;
    TouchKeepsInv(m, pid, pgn);
    if m.procs[pid].pgd[pgn].Absent? && m.procs[pid].fifo != [] {
      FaultReady(m, pid, pgn);
    }
    TouchOutcome(m, pid, pgn);
  }

  lemma TouchOutcome(m: Machine, pid: nat, pgn: nat)
    requires Shape(m) && pid in m.procs && pgn < MAX_PGN
    ensures pid in Touch(m, pid, pgn).procs && |Touch(m, pid, pgn).procs[pid].pgd| == MAX_PGN
    ensures !CanFault(m.procs[pid], m.ram, m.swap, pgn) ==> Touch(m, pid, pgn) == m
    ensures CanFault(m.procs[pid], m.ram, m.swap, pgn) ==> Touch(m, pid, pgn).procs[pid].pgd[pgn].Resident?
  {
  }

  lemma StoreKeepsInv(m: Machine, f: nat, off: nat, v: Byte)
    requires Inv(m) && f < |m.ram.pages| && off < PAGE_SIZE
    ensures Inv(m.(ram := m.ram.(pages := StoreAt(m.ram.pages, f, off, v))))
  {
  }

  /** pg_setval is a touch and then a store into the frame read from the entry, if it is present. */
  lemma WriteIsStore(m: Machine, m1: Machine, pid: nat, addr: nat, v: Byte)
    requires pid in m.procs && addr / PAGE_SIZE < |m.procs[pid].pgd| && m1 == Touch(m, pid, addr / PAGE_SIZE)
    requires pid in m1.procs && addr / PAGE_SIZE < |m1.procs[pid].pgd|
    requires var e := m1.procs[pid].pgd[addr / PAGE_SIZE]; e.Absent? || FrameRead(e) < |m1.ram.pages|
    ensures var e := m1.procs[pid].pgd[addr / PAGE_SIZE];
            WriteByte(m, pid, addr, v).0 ==
            if e.Absent? then m1
            else m1.(ram := m1.ram.(pages := StoreAt(m1.ram.pages, FrameRead(e), addr % PAGE_SIZE, v)))
  {
  }

  lemma WriteKeepsInv(m: Machine, pid: nat, addr: nat, v: Byte)
    requires Inv(m) && pid in m.procs && AccessOk(m, m.procs[pid], addr)
    ensures Inv(WriteByte(m, pid, addr, v).0)
  {
    TouchedPage(m, pid, addr);
    var pgn := addr / PAGE_SIZE;
    var m1 := Touch(m, pid, pgn);
    if !m1.procs[pid].pgd[pgn].Absent? {
      StoreKeepsInv(m1, FrameRead(m1.procs[pid].pgd[pgn]), addr % PAGE_SIZE, v);
    }
  }

  lemma ReleaseKeepsInv(m: Machine, pid: nat, rgid: int)
    requires Inv(m) && pid in m.procs && R.ValidId(rgid)
    ensures Inv(m.(procs := m.procs[pid := m.procs[pid].(heap := R.Release(m.procs[pid].heap, rgid).0)]))
  {
    assert ProcInv(m.procs[pid]);
    R.ReleaseKeepsRegions(m.procs[pid].heap, rgid);
    HeapKeepsInv(m, pid, R.Release(m.procs[pid].heap, rgid).0);
  }

  /** Every allowed operation of every process keeps the invariant. */
  lemma StepKeepsInv(m: Machine, op: Op)
    requires Inv(m) && Allowed(m, op)
    ensures Inv(Step(m, op).0)
  {
    match op
    case Load(pid) => LoadKeepsInv(m, pid);
    case Alloc(pid, rgid, size) => AllocKeepsInv(m, pid, rgid, size);
    case Release(pid, rgid) => ReleaseKeepsInv(m, pid, rgid);
    case Read(pid, addr) => TouchedPage(m, pid, addr);
    case Write(pid, addr, v) => WriteKeepsInv(m, pid, addr, v);
  }

  // ----- free frames hold zeros

  /** The operation does not write to a page that has been evicted. */
  predicate NotAstray(m: Machine, op: Op)
    requires Shape(m) && Allowed(m, op)
  {
    op.Write? ==> !m.procs[op.pid].pgd[op.addr / PAGE_SIZE].Evicted?
  }

  lemma TouchKeepsZero(m: Machine, pid: nat, pgn: nat)
    requires Inv(m) && pid in m.procs && FreshZero(m.ram)
    ensures FreshZero(Touch(m, pid, pgn).ram)
  {
    if CanFault(m.procs[pid], m.ram, m.swap, pgn) {
      FaultParts(m, pid, pgn);
      var pr := m.procs[pid];
      UsedIsNotFree(m.ram, m.ramOwner, pr.pgd[pr.fifo[|pr.fifo| - 1]].fpn);
    }
  }

  lemma UsedIsNotFree(d: Device, owner: seq<Owner>, f: nat)
    requires FreeListOk(d, owner) && f < |owner| && owner[f].UsedBy?
    ensures forall i :: 0 <= i < |d.free| ==> d.free[i] != f
  {
  }

  lemma WriteKeepsZero(m: Machine, op: Op)
    requires Inv(m) && op.Write? && Allowed(m, op) && NotAstray(m, op) && FreshZero(m.ram)
    ensures FreshZero(Step(m, op).0.ram)
  {
    var pgn := op.addr / PAGE_SIZE;
    TouchedPage(m, op.pid, op.addr);
    TouchKeepsZero(m, op.pid, pgn);
    var m1 := Touch(m, op.pid, pgn);
    WriteIsStore(m, m1, op.pid, op.addr, op.v);
    var e := m1.procs[op.pid].pgd[pgn];
    if e.Resident? {
      UsedIsNotFree(m1.ram, m1.ramOwner, e.fpn);
      StoreKeepsZero(m1.ram, e.fpn, op.addr % PAGE_SIZE, op.v);
    }
  }

  lemma StoreKeepsZero(d: Device, f: nat, off: nat, v: Byte)
    requires FreshZero(d) && f < |d.pages| && off < PAGE_SIZE && forall i :: 0 <= i < |d.free| ==> d.free[i] != f
    ensures FreshZero(d.(pages := StoreAt(d.pages, f, off, v)))
  {
  }

  lemma AllocKeepsZero(m: Machine, op: Op)
    requires Inv(m) && op.Alloc? && Allowed(m, op) && FreshZero(m.ram)
    ensures FreshZero(Step(m, op).0.ram)
  {
    assert ProcInv(m.procs[op.pid]);
    GrowthFacts(m.procs[op.pid].heap, op.rgid, op.size);
    var growth := GrowthOf(m, op);
    if growth.MapPages? && growth.count <= |m.ram.free| {
      TakeFramesFacts(m.ram.free, growth.count);
      RestIsZero(m.ram, TakeFrames(m.ram.free, growth.count).2);
    }
  }

  /** Free frames stay zeroed as long as nobody writes to an evicted page. */
  lemma StepKeepsZero(m: Machine, op: Op)
    requires Inv(m) && Allowed(m, op) && NotAstray(m, op) && FreshZero(m.ram)
    ensures FreshZero(Step(m, op).0.ram)
  {
    match op
    case Alloc(_, _, _) => AllocKeepsZero(m, op);
    case Write(_, _, _) => WriteKeepsZero(m, op);
    case Read(pid, addr) => TouchKeepsZero(m, pid, addr / PAGE_SIZE);
    case Release(_, _) =>
    case Load(_) =>
  }
}
