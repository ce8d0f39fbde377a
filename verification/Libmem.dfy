/**
  The whole memory of the simulator: one RAM, one swap device and the memory managers of the loaded processes,
  updated in place by the library calls of src/libmem.c.  Every call is proved to be the step of Paging.Machine
  with the same name, so all that Paging and Refinement prove about runs holds of this code.
*/
module Libmem {
  import opened Common
  import opened Pte
  import opened Paging
  import opened Memphy
  import opened Mm
  import R = Regions

  class Memory {
    const mram: MemphyStruct
    const mswp: MemphyStruct
    var procs: map<nat, MmStruct>

    ghost function Managers(): set<object>
      reads this
    {
      (set pid | pid in procs :: procs[pid] as object) + (set pid | pid in procs :: procs[pid].pgd as object) +
      (set pid | pid in procs :: procs[pid].symrgtbl as object)
    }

    ghost predicate Distinct()
      reads this
    {
      forall p, q :: p in procs && q in procs && p != q ==>
        procs[p] != procs[q] && procs[p].pgd != procs[q].pgd && procs[p].symrgtbl != procs[q].symrgtbl
    }

    ghost predicate Holds(pid: nat, pr: Proc)
      requires pid in procs
      reads this, Managers()
    {
      procs[pid].Valid() && procs[pid].View() == pr
    }

    /** The devices and the memory managers hold what the machine `m` says. */
    ghost predicate Shows(m: Machine)
      reads this, mram, mram.storage, mswp, mswp.storage, Managers()
    {
      && SeparateDevices(mram, mswp) && Distinct()
      && m.ram == mram.View() && m.swap == mswp.View() && m.procs.Keys == procs.Keys
      && forall pid :: pid in procs ==> Holds(pid, m.procs[pid])
    }

    /** The same for every manager but that of `pid`. */
    ghost predicate OthersShow(m: Machine, pid: nat)
      reads this, Managers()
    {
      Distinct() && m.procs.Keys == procs.Keys && forall q :: q in procs && q != pid ==> Holds(q, m.procs[q])
    }

    constructor (ramSize: nat, swapSize: nat)
      requires ramSize / PAGE_SIZE <= MAX_FRAMES && swapSize / PAGE_SIZE <= MAX_SLOTS
      ensures Shows(Boot(ramSize / PAGE_SIZE, swapSize / PAGE_SIZE))
      ensures fresh(mram) && fresh(mram.storage) && fresh(mswp) && fresh(mswp.storage) && procs == map[]
    {
      mram := new MemphyStruct(ramSize);
      mswp := new MemphyStruct(swapSize);
      procs := map[];
    }

    method Load(pid: nat, ghost m: Machine)
      requires Shows(m) && pid !in procs
      modifies this
      ensures Shows(m.(procs := m.procs[pid := NewProc()]))
      ensures pid in procs && procs == old(procs)[pid := procs[pid]]
      ensures fresh(procs[pid]) && fresh(procs[pid].pgd) && fresh(procs[pid].symrgtbl)
    {
      var mm := new MmStruct();
      Insert(pid, mm, m);
    }

    method Insert(pid: nat, mm: MmStruct, ghost m: Machine)
      requires Shows(m) && pid !in procs && mm.Valid()
      requires forall q :: q in procs ==> procs[q] != mm && procs[q].pgd != mm.pgd && procs[q].symrgtbl != mm.symrgtbl
      modifies this
      ensures Shows(m.(procs := m.procs[pid := mm.View()]))
      ensures procs == old(procs)[pid := mm]
    {
      procs := procs[pid := mm];
    }

    /** Objects of other processes are not touched by a call for `pid`. */
    twostate lemma OthersUntouched(new m: Machine, pid: nat)
      requires old(Shows(m)) && unchanged(this)
      requires forall q :: q in procs && q != pid ==>
                 unchanged(procs[q]) && unchanged(procs[q].pgd) && unchanged(procs[q].symrgtbl)
      ensures OthersShow(m, pid)
    {
      forall q | q in procs && q != pid ensures Holds(q, m.procs[q]) {
        SameView(procs[q]);
      }
    }

    twostate lemma SameView(mm: MmStruct)
      requires unchanged(mm) && unchanged(mm.pgd) && unchanged(mm.symrgtbl)
      ensures mm.View() == old(mm.View()) && mm.Valid() == old(mm.Valid())
    {
    }

    /** One process and the devices have changed, as `m'` says. */
    lemma OneChanged(m: Machine, m': Machine, pid: nat)
      requires pid in procs && OthersShow(m, pid) && pid in m'.procs && Holds(pid, m'.procs[pid])
      requires m'.procs == m.procs[pid := m'.procs[pid]]
      requires SeparateDevices(mram, mswp) && m'.ram == mram.View() && m'.swap == mswp.View()
      ensures Shows(m')
    {
    }

    /** liballoc. */
    method LibAlloc(pid: nat, size: nat, rgid: int, ghost m: Machine) returns (ret: int)
      requires Shows(m) && pid in procs && Inv(m) && Allowed(m, Alloc(pid, rgid, size))
      modifies procs[pid], procs[pid].pgd, procs[pid].symrgtbl, mram`free
      ensures Shows(Step(m, Alloc(pid, rgid, size)).0) && ret == 0
    {
      FreeInRange(m.ram, m.ramOwner);
      AllocIsLocal(m, pid, rgid, size);
      ret := AllocFor(pid, size, rgid, m, AllocRegion(m, pid, rgid, size));
    }

    /** __alloc for one process, which takes the machine from `m` to `m'`. */
    method AllocFor(pid: nat, size: nat, rgid: int, ghost m: Machine, ghost m': Machine) returns (ret: int)
      requires Shows(m) && pid in procs && R.ValidId(rgid) && size > 0 && FramesOk(mram.free)
      requires R.Alloc(m.procs[pid].heap, rgid, size).0.vmEnd <= MAX_PGN * PAGE_SIZE
      requires AllocatesTo(m, pid, rgid, size, m')
      modifies procs[pid], procs[pid].pgd, procs[pid].symrgtbl, mram`free
      ensures Shows(m')
      ensures ret == 0
    {
      ret := procs[pid].Alloc(mram, rgid, size);
      OthersUntouched(m, pid);
      OneChanged(m, m', pid);
    }

    /** libfree. */
    method LibFree(pid: nat, rgid: int, ghost m: Machine) returns (ret: int)
      requires Shows(m) && pid in procs && R.ValidId(rgid) && Shape(m)
      modifies procs[pid], procs[pid].symrgtbl
      ensures Shows(Step(m, Release(pid, rgid)).0) && Ret(ret) == Step(m, Release(pid, rgid)).1
    {
      ret := procs[pid].Free(rgid);
      OthersUntouched(m, pid);
      OneChanged(m, Step(m, Release(pid, rgid)).0, pid);
    }

    /** A byte read by a process through pg_getval. */
    method Read(pid: nat, addr: nat, ghost m: Machine) returns (ret: int, data: Byte)
      requires Shows(m) && pid in procs && Inv(m) && Allowed(m, Op.Read(pid, addr))
      modifies procs[pid], procs[pid].pgd, mram.storage, mswp.storage, mswp`free
      ensures Shows(Step(m, Op.Read(pid, addr)).0)
      ensures (if ret == 0 then Data(data) else Ret(ret)) == Step(m, Op.Read(pid, addr)).1
    {
      AccessReady(m, pid, addr);
      TouchIsLocal(m, pid, addr / PAGE_SIZE);
      ret, data := ReadFor(pid, addr, m, Touch(m, pid, addr / PAGE_SIZE));
    }

    method ReadFor(pid: nat, addr: nat, ghost m: Machine, ghost m': Machine) returns (ret: int, data: Byte)
      requires Shows(m) && pid in procs && addr < MAX_PGN * PAGE_SIZE && Ready(m.procs[pid], m.ram, m.swap, addr)
      requires TouchesTo(m, pid, addr / PAGE_SIZE, m')
      modifies procs[pid], procs[pid].pgd, mram.storage, mswp.storage, mswp`free
      ensures Shows(m') && |m'.procs[pid].pgd| == MAX_PGN
      ensures (if ret == 0 then Data(data) else Ret(ret)) == FetchFrom(m'.procs[pid], m'.ram, addr)
    {
      ret, data := procs[pid].PgGetVal(mram, mswp, addr);
      OthersUntouched(m, pid);
      OneChanged(m, m', pid);
    }

    /** A byte written by a process through pg_setval. */
    method Write(pid: nat, addr: nat, v: Byte, ghost m: Machine) returns (ret: int)
      requires Shows(m) && pid in procs && Inv(m) && Allowed(m, Op.Write(pid, addr, v))
      modifies procs[pid], procs[pid].pgd, mram.storage, mswp.storage, mswp`free
      ensures Shows(Step(m, Op.Write(pid, addr, v)).0) && Ret(ret) == Step(m, Op.Write(pid, addr, v)).1
    {
      AccessReady(m, pid, addr);
      TouchIsLocal(m, pid, addr / PAGE_SIZE);
      WriteParts(m, pid, addr, v);
      ret := WriteFor(pid, addr, v, m, Touch(m, pid, addr / PAGE_SIZE));
    }

    method WriteFor(pid: nat, addr: nat, v: Byte, ghost m: Machine, ghost m1: Machine) returns (ret: int)
      requires Shows(m) && pid in procs && addr < MAX_PGN * PAGE_SIZE && Ready(m.procs[pid], m.ram, m.swap, addr)
      requires TouchesTo(m, pid, addr / PAGE_SIZE, m1)
      modifies procs[pid], procs[pid].pgd, mram.storage, mswp.storage, mswp`free
      ensures |m1.procs[pid].pgd| == MAX_PGN
      ensures var (ram, out) := StoreTo(m1.procs[pid], m1.ram, addr, v); Shows(m1.(ram := ram)) && Ret(ret) == out
    {
      ret := procs[pid].PgSetVal(mram, mswp, addr, v);
      OthersUntouched(m, pid);
      OneChanged(m, m1.(ram := mram.View()), pid);
    }
  }

  lemma WriteParts(m: Machine, pid: nat, addr: nat, v: Byte)
    requires Shape(m) && Allowed(m, Op.Write(pid, addr, v))
    ensures var touched := Touch(m, pid, addr / PAGE_SIZE);
            pid in touched.procs && |touched.procs[pid].pgd| == MAX_PGN &&
            var (ram, out) := StoreTo(touched.procs[pid], touched.ram, addr, v);
            Step(m, Op.Write(pid, addr, v)) == (touched.(ram := ram), out)
  {
    TouchOutcome(m, pid, addr / PAGE_SIZE);
  }

  lemma AccessReady(m: Machine, pid: nat, addr: nat)
    requires Inv(m) && pid in m.procs && AccessOk(m, m.procs[pid], addr)
    ensures Ready(m.procs[pid], m.ram, m.swap, addr)
  {
    if m.procs[pid].pgd[addr / PAGE_SIZE].Absent? && m.procs[pid].fifo != [] {
      FaultReady(m, pid, addr / PAGE_SIZE);
    }
  }

  /** From `m` to `m'` one process and the devices have changed, as the fault branch says. */
  ghost predicate TouchesTo(m: Machine, pid: nat, pgn: nat, m': Machine)
    requires pid in m.procs
  {
    var (pr, ram, swap) := Faulted(m.procs[pid], m.ram, m.swap, pgn);
    m' == Machine(ram, swap, m.procs[pid := pr], m'.ramOwner, m'.swapOwner)
  }

  lemma TouchIsLocal(m: Machine, pid: nat, pgn: nat)
    requires pid in m.procs
    ensures TouchesTo(m, pid, pgn, Touch(m, pid, pgn))
  {
  }

  /** From `m` to `m'` one process and the free list of RAM have changed, as __alloc says. */
  ghost predicate AllocatesTo(m: Machine, pid: nat, rgid: int, size: nat, m': Machine)
    requires pid in m.procs && R.WellFormed(m.procs[pid].heap) && R.ValidId(rgid) && size > 0
  {
    var (heap, growth) := R.Alloc(m.procs[pid].heap, rgid, size);
    var (pr, free) := ApplyGrowth(m.procs[pid].(heap := heap), m.ram.free, growth);
    m' == Machine(m.ram.(free := free), m.swap, m.procs[pid := pr], m'.ramOwner, m.swapOwner)
  }

  lemma AllocIsLocal(m: Machine, pid: nat, rgid: int, size: nat)
    requires Shape(m) && pid in m.procs && R.ValidId(rgid) && size > 0
    ensures AllocatesTo(m, pid, rgid, size, AllocRegion(m, pid, rgid, size))
  {
  }

  lemma FreeInRange(d: Device, owner: seq<Owner>)
    requires FreeListOk(d, owner) && |d.pages| <= MAX_FRAMES
    ensures FramesOk(d.free)
  {
  }
}
