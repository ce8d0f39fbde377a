/**
  The memory manager of one process (src/mm.c, src/mm-vm.c, src/libmem.c) as the source writes it: packed
  entries changed in place, lists walked and cut, frames taken from a shared device.  Each method is proved
  against the functions of Paging and Regions, whose properties over whole runs are proved there.
*/
module Mm {
  import opened Bits
  import opened Common
  import opened Pte
  import opened Paging
  import opened Memphy
  import R = Regions

  function DecodeAll(words: seq<Word>): (t: seq<Entry>)
    ensures |t| == |words|
  {
    seq(|words|, i requires 0 <= i < |words| => Decode(words[i]))
  }

  /** One iteration of the mapping loop. */
  function MapOne(pr: Proc, pgn: nat, fpn: nat): Proc
    requires pgn < |pr.pgd|
  {
    pr.(pgd := pr.pgd[pgn := Resident(fpn)], fifo := [pgn] + pr.fifo)
  }

  lemma MapNone(pr: Proc, start: nat)
    ensures MapPages(pr, start, []) == pr
  {
    assert MapRange(pr.pgd, start, []) == pr.pgd;
    assert Reverse(Range(start, 0)) + pr.fifo == pr.fifo;
  }

  lemma MapNext(pr: Proc, start: nat, frames: seq<nat>, k: nat)
    requires k < |frames| && start + k < |pr.pgd|
    ensures MapOne(MapPages(pr, start, frames[..k]), start + k, frames[k]) == MapPages(pr, start, frames[..k + 1])
  {
    MapRangeNext(pr.pgd, start, frames, k);
    FifoNext(start, k, pr.fifo);
  }

  lemma MapRangeNext(t: seq<Entry>, start: nat, frames: seq<nat>, k: nat)
    requires k < |frames| && start + k < |t|
    ensures MapRange(t, start, frames[..k])[start + k := Resident(frames[k])] == MapRange(t, start, frames[..k + 1])
  {
  }

  lemma FifoNext(start: nat, k: nat, fifo: seq<nat>)
    ensures [start + k] + (Reverse(Range(start, k)) + fifo) == Reverse(Range(start, k + 1)) + fifo
  {
    assert [start + k] + Reverse(Range(start, k)) == Reverse(Range(start, k + 1));
  }

  lemma TakeStep(free: seq<nat>, k: nat)
    requires k < |free|
    ensures [free[k]] + Reverse(free[..k]) == Reverse(free[..k + 1])
  {
  }

  predicate FramesOk(frames: seq<nat>) { forall i :: 0 <= i < |frames| ==> frames[i] < MAX_FRAMES }

  predicate AllPresent(t: seq<Entry>, pages: seq<nat>) {
    forall i :: 0 <= i < |pages| ==> pages[i] < |t| && !t[pages[i]].Absent?
  }

  predicate NonNegative(rgs: seq<R.Region>) {
    forall i :: 0 <= i < |rgs| ==> R.Empty(rgs[i]) || rgs[i].start >= 0
  }

  function Found(rg: R.Region): Option<R.Region> { if rg.start == -1 then None else Some(rg) }

  lemma FramesInRange(free: seq<nat>, n: nat)
    requires n <= |free| && FramesOk(free)
    ensures FramesOk(TakeFrames(free, n).1)
  {
  }

  /** PAGING_PGN and PAGING_OFFST of an address. */
  method SplitAddr(addr: nat) returns (pgn: nat, off: nat)
    ensures pgn == addr / PAGE_SIZE % MAX_PGN && off == addr % PAGE_SIZE
  {
    AddressFields(addr);
    pgn, off := Pgn(addr), Offset(addr);
  }

  /** alloc_pages_range. */
  method AllocPagesRange(ram: MemphyStruct, reqPgnum: nat) returns (ok: bool, frmLst: seq<nat>)
    modifies ram`free
    ensures ok == TakeFrames(old(ram.free), reqPgnum).0 && ram.free == TakeFrames(old(ram.free), reqPgnum).2
    ensures ok ==> frmLst == TakeFrames(old(ram.free), reqPgnum).1
  {
    frmLst := [];
    var pgit := 0;
    while pgit < reqPgnum
      invariant 0 <= pgit <= reqPgnum && pgit <= |old(ram.free)|
      invariant ram.free == old(ram.free)[pgit..] && frmLst == Reverse(old(ram.free)[..pgit])
    {
      var found, fpn := ram.GetFreeFp();
      if !found {
        return false, frmLst;
      }
      TakeStep(old(ram.free), pgit);
      frmLst := [fpn] + frmLst;
      pgit := pgit + 1;
    }
    ok := true;
  }

  lemma GrowthPresent(pr: Proc, free: seq<nat>, start: nat, n: nat)
    requires AllPresent(pr.pgd, pr.fifo) && start + n <= |pr.pgd|
    ensures var pr' := GrowPages(pr, free, start, n).0; AllPresent(pr'.pgd, pr'.fifo)
  {
  }

  lemma NothingTaken(list: seq<R.Region>, size: nat)
    requires size > 0 && R.Carve(list, size).1 == None
    ensures R.Carve(list, size).0 == list
  {
    R.CarveIsChoice(list, size);
    R.NothingCarved(list, size);
  }

  class MmStruct {
    const pgd: array<Word>
    const symrgtbl: array<R.Region>
    var fifoPgn: seq<nat>
    var vmFreerg: seq<R.Region>
    var vmEnd: int
    var sbrk: int

    ghost function Table(): (t: seq<Entry>)
      reads this, pgd
    {
      DecodeAll(pgd[..])
    }

    ghost function Heap(): R.Heap
      reads this, symrgtbl
    {
      R.Heap(vmFreerg, symrgtbl[..], vmEnd, sbrk)
    }

    ghost function View(): Proc
      reads this, pgd, symrgtbl
    {
      Proc(Table(), fifoPgn, Heap())
    }

    /** Listed pages are present, and no live or free region starts below address 0. */
    ghost predicate Valid()
      reads this, pgd, symrgtbl
    {
      && pgd.Length == MAX_PGN && symrgtbl.Length == R.TABLE_SIZE
      && NonNegative(vmFreerg) && NonNegative(symrgtbl[..]) && sbrk >= 0 && vmEnd >= 0
      && AllPresent(Table(), fifoPgn)
    }

    /** init_mm, on zeroed memory. */
    constructor ()
      ensures fresh(pgd) && fresh(symrgtbl) && Valid() && View() == NewProc()
    {
      pgd := new Word[MAX_PGN](_ => ZERO);
      symrgtbl := new R.Region[R.TABLE_SIZE](_ => R.Region(0, 0));
      fifoPgn, vmEnd, sbrk := [], 0, 0;
      vmFreerg := [R.Region(0, 0)];
      new;
      ZeroDecodes();
    }

    // ----- page table and list of resident pages

    /** pte_set_fpn on the entry of page `pgn`. */
    method SetEntryFpn(pgn: nat, fpn: nat)
      requires pgn < pgd.Length && fpn < MAX_FRAMES
      modifies pgd
      ensures Table() == old(Table())[pgn := Resident(fpn)]
    {
      EntryRoundTrip(pgd[pgn], fpn, 0);
      pgd[pgn] := SetFpn(pgd[pgn], fpn);
    }

    /** pte_set_swap on the entry of page `pgn`. */
    method SetEntrySwap(pgn: nat, typ: nat, slot: nat)
      requires pgn < pgd.Length && typ < MAX_TYPES && slot < MAX_SLOTS
      modifies pgd
      ensures Table() == old(Table())[pgn := Evicted(typ, slot)]
    {
      EntryRoundTrip(pgd[pgn], slot, typ);
      pgd[pgn] := SetSwap(pgd[pgn], typ, slot);
    }

    /** enlist_pgn_node. */
    method EnlistPgnNode(pgn: nat)
      modifies `fifoPgn
      ensures fifoPgn == [pgn] + old(fifoPgn)
    {
      fifoPgn := [pgn] + fifoPgn;
    }

    /** find_victim_page: unlinks the last node of the list. */
    method FindVictimPage() returns (ret: int, pgn: int)
      modifies `fifoPgn
      ensures old(fifoPgn) == [] ==> ret == -1 && pgn == -1 && fifoPgn == []
      ensures old(fifoPgn) != [] ==>
                var last := |old(fifoPgn)| - 1;
                && ret == 0 && pgn == old(fifoPgn)[last] && fifoPgn == old(fifoPgn)[..last]
    {
      if fifoPgn == [] {
        return -1, -1;
      } else if |fifoPgn| == 1 {
        pgn := fifoPgn[0];
        fifoPgn := [];
        return 0, pgn;
      }
      var prev, pg := 0, 1;
      while pg + 1 < |fifoPgn|
        invariant pg == prev + 1 && 1 <= pg < |fifoPgn|
      {
        pg := pg + 1;
        prev := prev + 1;
      }
      pgn := fifoPgn[pg];
      fifoPgn := fifoPgn[..prev + 1];
      ret := 0;
    }

    method MapPage(pgn: nat, fpn: nat)
      requires pgn < pgd.Length && fpn < MAX_FRAMES
      modifies pgd, `fifoPgn
      ensures View() == MapOne(old(View()), pgn, fpn)
    {
      SetEntryFpn(pgn, fpn);
      EnlistPgnNode(pgn);
    }

    /** The loop of vmap_page_range: it ends when the pages or the frames run out. */
    method MapFrames(startPgn: nat, pgnum: nat, frames: seq<nat>) returns (pgit: nat)
      requires pgd.Length == MAX_PGN && startPgn + pgnum <= MAX_PGN
      requires forall i :: 0 <= i < |frames| ==> frames[i] < MAX_FRAMES
      modifies pgd, `fifoPgn
      ensures pgit == if pgnum <= |frames| then pgnum else |frames|
      ensures View() == MapPages(old(View()), startPgn, frames[..pgit])
    {
      ghost var pr := View();
      pgit := 0;
      MapNone(pr, startPgn);
      assert frames[..0] == [];
      while pgit < pgnum && pgit < |frames|
        invariant 0 <= pgit <= pgnum && pgit <= |frames|
        invariant View() == MapPages(pr, startPgn, frames[..pgit])
      {
        MapNext(pr, startPgn, frames, pgit);
        MapPage(startPgn + pgit, frames[pgit]);
        pgit := pgit + 1;
      }
    }

    /** vmap_page_range: maps as many pages as there are frames and returns the region they form. */
    method VmapPageRange(addr: nat, pgnum: nat, frames: seq<nat>) returns (rg: R.Region)
      requires pgd.Length == MAX_PGN && addr < MAX_PGN * PAGE_SIZE && addr / PAGE_SIZE + pgnum <= MAX_PGN
      requires forall i :: 0 <= i < |frames| ==> frames[i] < MAX_FRAMES
      modifies pgd, `fifoPgn
      ensures var k := if pgnum <= |frames| then pgnum else |frames|;
              && View() == MapPages(old(View()), addr / PAGE_SIZE, frames[..k])
              && rg == R.Region(addr, addr + k * PAGE_SIZE)
    {
      var startPgn, _ := SplitAddr(addr);
      var pgit := MapFrames(startPgn, pgnum, frames);
      rg := R.Region(addr, addr + pgit * PAGE_SIZE);
    }

    /** vm_map_ram. */
    method VmMapRam(ram: MemphyStruct, mapstart: nat, incpgnum: nat) returns (ret: int, rg: R.Region)
      requires pgd.Length == MAX_PGN
      requires mapstart < MAX_PGN * PAGE_SIZE && mapstart / PAGE_SIZE + incpgnum <= MAX_PGN
      requires FramesOk(ram.free)
      modifies pgd, `fifoPgn, ram`free
      ensures (View(), ram.free) == (GrowPages(old(View()), old(ram.free), mapstart / PAGE_SIZE, incpgnum))
      ensures ret == (if incpgnum <= |old(ram.free)| then 0 else -1)
      ensures ret == 0 ==> rg == R.Region(mapstart, mapstart + incpgnum * PAGE_SIZE)
    {
      rg := R.Region(0, 0);
      var ok, frmLst := AllocPagesRange(ram, incpgnum);
      if !ok {
        return -1, rg;
      }
      FramesInRange(old(ram.free), incpgnum);
      rg := VmapPageRange(mapstart, incpgnum, frmLst);
      assert frmLst[..incpgnum] == frmLst;
      ret := 0;
    }

    // ----- regions

    /** get_vm_area_node_at_brk. */
    method GetVmAreaNodeAtBrk(alignedsz: nat) returns (area: R.Region)
      modifies `sbrk
      ensures area == R.Region(old(sbrk), old(sbrk) + alignedsz) && sbrk == area.end
    {
      area := R.Region(sbrk, sbrk + alignedsz);
      sbrk := area.end;
    }

    /** inc_vma_limit: the break moves first, then the limit, and only then are the pages mapped. */
    method IncVmaLimit(ram: MemphyStruct, incSz: nat) returns (ret: int)
      requires Valid() && incSz > 0 && R.IncLimit(Heap(), incSz).0.vmEnd <= MAX_PGN * PAGE_SIZE
      requires FramesOk(ram.free)
      modifies pgd, `fifoPgn, `sbrk, `vmEnd, ram`free
      ensures Valid()
      ensures var (h, growth) := R.IncLimit(old(Heap()), incSz);
              (View(), ram.free) == ApplyGrowth(old(View()).(heap := h), old(ram.free), growth)
    {
      var incAmt := R.Align(incSz);
      var incnumpage := incAmt / PAGE_SIZE;
      var area := GetVmAreaNodeAtBrk(incAmt);
      var oldEnd := vmEnd;
      if R.Overlaps(vmEnd, area.start, area.end) {
        return -1;
      }
      vmEnd := oldEnd + incAmt;
      assert Heap() == R.IncLimit(old(Heap()), incSz).0;
      GrowthPresent(View(), ram.free, oldEnd / PAGE_SIZE, incnumpage);
      var newrg;
      ret, newrg := VmMapRam(ram, oldEnd, incnumpage);
    }

    /** get_free_vmrg_area: walks the list, splitting or unlinking regions in place. */
    method GetFreeVmrgArea(size: nat) returns (ret: int, newrg: R.Region)
      requires size > 0 && NonNegative(vmFreerg)
      modifies `vmFreerg
      ensures NonNegative(vmFreerg)
      ensures (vmFreerg, if ret == 0 then Some(newrg) else None) == R.Carve(old(vmFreerg), size)
      ensures ret == 0 || ret == -1
      ensures ret == 0 ==> newrg.start >= 0
    {
      newrg := R.Region(-1, -1);
      if vmFreerg == [] {
        return -1, newrg;
      }
      var rgit := 0;
      while rgit < |vmFreerg|
        invariant 0 <= rgit <= |vmFreerg| && NonNegative(vmFreerg) && newrg.start >= -1
        invariant R.Walk(vmFreerg, rgit, size, Found(newrg)) == R.Carve(old(vmFreerg), size)
        decreases |vmFreerg| - rgit, if rgit < |vmFreerg| then R.Len(vmFreerg[rgit]) else 0
      {
        var rg := vmFreerg[rgit];
        if rg.start + size <= rg.end {
          newrg := R.Region(rg.start, rg.start + size);
          if rg.start + size < rg.end {
            vmFreerg := vmFreerg[rgit := R.Region(rg.start + size, rg.end)];
            return 0, newrg;
          } else if rgit + 1 < |vmFreerg| {
            vmFreerg := vmFreerg[..rgit] + vmFreerg[rgit + 1..];
          } else {
            vmFreerg := vmFreerg[rgit := R.Region(rg.end, rg.end)];
          }
        } else {
          rgit := rgit + 1;
        }
      }
      ret := if newrg.start == -1 then -1 else 0;
    }

    /** __alloc for area 0: the identifier 30 passes the bounds check but lies outside the table. */
    method Alloc(ram: MemphyStruct, rgid: int, size: nat) returns (ret: int)
      requires Valid() && FramesOk(ram.free) && size > 0 && rgid != R.TABLE_SIZE
      requires R.ValidId(rgid) ==> R.Alloc(Heap(), rgid, size).0.vmEnd <= MAX_PGN * PAGE_SIZE
      modifies this, pgd, symrgtbl, ram`free
      ensures Valid()
      ensures R.ValidId(rgid) ==>
                var (heap, growth) := R.Alloc(old(Heap()), rgid, size);
                ret == 0 && (View(), ram.free) == ApplyGrowth(old(View()).(heap := heap), old(ram.free), growth)
      ensures !R.ValidId(rgid) ==> ret == -1 && View() == old(View()) && ram.free == old(ram.free)
    {
      if rgid < 0 || rgid > R.TABLE_SIZE {
        return -1;
      }
      var found, rgnode := GetFreeVmrgArea(size);
      if found == 0 {
        symrgtbl[rgid] := rgnode;
        return 0;
      }
      NothingTaken(old(vmFreerg), size);
      assert R.Heap(vmFreerg, symrgtbl[..], vmEnd, sbrk) == old(Heap());
      AllocAtBreak(ram, rgid, size);
      ret := 0;
    }

    method SetSymbol(rgid: nat, rg: R.Region)
      requires Valid() && R.ValidId(rgid) && rg.start >= 0
      modifies symrgtbl
      ensures Valid() && symrgtbl[..] == old(symrgtbl[..])[rgid := rg]
    {
      symrgtbl[rgid] := rg;
    }

    /** The part of __alloc that takes the region from the break. */
    method AllocAtBreak(ram: MemphyStruct, rgid: nat, size: nat)
      requires Valid() && FramesOk(ram.free) && size > 0 && R.ValidId(rgid)
      requires R.Carve(vmFreerg, size) == (vmFreerg, None)
      requires R.Alloc(Heap(), rgid, size).0.vmEnd <= MAX_PGN * PAGE_SIZE
      modifies this, pgd, symrgtbl, ram`free
      ensures Valid()
      ensures var (heap, growth) := R.Alloc(old(Heap()), rgid, size);
              (View(), ram.free) == ApplyGrowth(old(View()).(heap := heap), old(ram.free), growth)
    {
      var incSz := R.Align(size);
      R.AlignFacts(size);
      var oldSbrk := sbrk;
      var gapSize := vmEnd - oldSbrk;
      if gapSize >= size {
        sbrk := sbrk + size;
        SetSymbol(rgid, R.Region(oldSbrk, oldSbrk + size));
      } else {
        var grown := IncVmaLimit(ram, incSz);
        SetSymbol(rgid, R.Region(oldSbrk, oldSbrk + size));
        sbrk := sbrk + size;
      }
    }

    /** __free: enlist_vm_freerg_list refuses an empty region, but the symbol is cleared either way. */
    method Free(rgid: int) returns (ret: int)
      requires Valid() && rgid != R.TABLE_SIZE
      modifies `vmFreerg, symrgtbl
      ensures Valid()
      ensures R.ValidId(rgid) ==>
                (View(), ret) == (old(View()).(heap := R.Release(old(Heap()), rgid).0), R.Release(old(Heap()), rgid).1)
      ensures !R.ValidId(rgid) ==> ret == -1 && View() == old(View())
    {
      if rgid < 0 || rgid > R.TABLE_SIZE {
        return -1;
      }
      var freeReg := symrgtbl[rgid];
      symrgtbl[rgid] := R.Region(-1, -1);
      if freeReg.start >= freeReg.end {
        return -1;
      }
      vmFreerg := [freeReg] + vmFreerg;
      ret := 0;
    }

    // ----- page access

    method Present(pgn: nat) returns (b: bool)
      requires pgn < pgd.Length
      ensures b <==> !Table()[pgn].Absent?
    {
      ReadsAgree(pgd[pgn]);
      b := IsPresent(pgd[pgn]);
    }

    /** PAGING_FPN of an entry. */
    method EntryFpn(pgn: nat) returns (fpn: nat)
      requires pgn < pgd.Length && !Table()[pgn].Absent?
      ensures fpn == FrameRead(Table()[pgn]) && fpn < MAX_FRAMES
    {
      ReadsAgree(pgd[pgn]);
      FrameReadBound(pgd[pgn]);
      fpn := GetFpn(pgd[pgn]);
    }

    /** PAGING_PTE_SWP of an entry that is not present. */
    method EntrySlot(pgn: nat) returns (slot: nat)
      requires pgn < pgd.Length && Table()[pgn].Absent?
      ensures slot == Table()[pgn].slot
    {
      ReadsAgree(pgd[pgn]);
      slot := GetSwp(pgd[pgn]);
    }

    /** pg_getpage, with a free swap slot whenever there is a victim to move out. */
    method PgGetPage(ram: MemphyStruct, swap: MemphyStruct, pgn: nat) returns (ret: int, fpn: nat)
      requires Valid() && SeparateDevices(ram, swap)
      requires pgn < MAX_PGN && Table()[pgn].Absent? && fifoPgn != [] ==> CanFault(View(), ram.View(), swap.View(), pgn)
      modifies pgd, `fifoPgn, ram.storage, swap.storage, swap`free
      ensures Valid()
      ensures ret == 0 <==> pgn < MAX_PGN && !(old(Table())[pgn].Absent? && old(fifoPgn) == [])
      ensures ret == 0 || ret == -1
      ensures (View(), ram.View(), swap.View()) ==
              old(if pgn < MAX_PGN then Faulted(View(), ram.View(), swap.View(), pgn)
                  else (View(), ram.View(), swap.View()))
      ensures ret == 0 ==> !Table()[pgn].Absent? && fpn == FrameRead(Table()[pgn])
    {
      fpn := 0;
      if pgn >= MAX_PGN {
        return -1, fpn;
      }
      var present := Present(pgn);
      if !present {
        if fifoPgn == [] {
          var r, vic := FindVictimPage();
          return -1, fpn;
        }
        SwapIn(ram, swap, pgn);
      }
      fpn := EntryFpn(pgn);
      ret := 0;
    }

    /** The first half of pg_getval and pg_setval: the frame and the offset of an address. */
    method Translate(ram: MemphyStruct, swap: MemphyStruct, addr: nat) returns (got: int, fpn: nat, off: nat)
      requires Valid() && SeparateDevices(ram, swap)
      requires addr < MAX_PGN * PAGE_SIZE && Ready(View(), ram.View(), swap.View(), addr)
      modifies pgd, `fifoPgn, ram.storage, swap.storage, swap`free
      ensures Valid()
      ensures (View(), ram.View(), swap.View()) == old(Faulted(View(), ram.View(), swap.View(), addr / PAGE_SIZE))
      ensures off == addr % PAGE_SIZE && got == if Table()[addr / PAGE_SIZE].Absent? then -1 else 0
      ensures got == 0 ==> fpn == FrameRead(Table()[addr / PAGE_SIZE]) && fpn < ram.storage.Length / PAGE_SIZE
    {
      ReadyFrame(View(), ram.View(), swap.View(), addr);
      var pgn;
      pgn, off := SplitAddr(addr);
      got, fpn := PgGetPage(ram, swap, pgn);
    }

    /** pg_getval. */
    method PgGetVal(ram: MemphyStruct, swap: MemphyStruct, addr: nat) returns (ret: int, data: Byte)
      requires Valid() && SeparateDevices(ram, swap)
      requires addr < MAX_PGN * PAGE_SIZE && Ready(View(), ram.View(), swap.View(), addr)
      modifies pgd, `fifoPgn, ram.storage, swap.storage, swap`free
      ensures Valid()
      ensures (View(), ram.View(), swap.View()) == old(Faulted(View(), ram.View(), swap.View(), addr / PAGE_SIZE))
      ensures (if ret == 0 then Data(data) else Ret(ret)) == FetchFrom(View(), ram.View(), addr)
    {
      data := 0;
      var got, fpn, off := Translate(ram, swap, addr);
      if got != 0 {
        return -1, data;
      }
      ByteOfFrame(ram.storage[..], fpn, off);
      data := ram.Read(fpn * PAGE_SIZE + off);
      ret := 0;
    }

    /** pg_setval. */
    method PgSetVal(ram: MemphyStruct, swap: MemphyStruct, addr: nat, value: Byte) returns (ret: int)
      requires Valid() && SeparateDevices(ram, swap)
      requires addr < MAX_PGN * PAGE_SIZE && Ready(View(), ram.View(), swap.View(), addr)
      modifies pgd, `fifoPgn, ram.storage, swap.storage, swap`free
      ensures Valid()
      ensures var (pr, ram1, swap1) := old(Faulted(View(), ram.View(), swap.View(), addr / PAGE_SIZE));
              View() == pr && swap.View() == swap1 && (ram.View(), Ret(ret)) == StoreTo(pr, ram1, addr, value)
    {
      var got, fpn, off := Translate(ram, swap, addr);
      if got != 0 {
        return -1;
      }
      StoreInFrame(ram.storage[..], fpn, off, value);
      ram.Write(fpn * PAGE_SIZE + off, value);
      ret := 0;
    }

    /** The body of the fault branch of pg_getpage. */
    method SwapIn(ram: MemphyStruct, swap: MemphyStruct, pgn: nat)
      requires Valid() && SeparateDevices(ram, swap) && CanFault(View(), ram.View(), swap.View(), pgn)
      modifies pgd, `fifoPgn, ram.storage, swap.storage, swap`free
      ensures Valid()
      ensures (View(), ram.View(), swap.View()) == old(FaultIn(View(), ram.View(), swap.View(), pgn))
    {
      FaultPresent(View(), ram.View(), swap.View(), pgn);
      var tgtfpn := EntrySlot(pgn);
      var vicpgn, vicframeNum := TakeVictim();
      var ok, swpfpn := swap.GetFreeFp();
      ExchangeFrames(ram, vicframeNum, swap, swpfpn, tgtfpn);
      Rebind(vicpgn, swpfpn, pgn, vicframeNum);
    }

    /** The victim leaves the list; its frame is read from its entry. */
    method TakeVictim() returns (vicpgn: nat, vicframeNum: nat)
      requires fifoPgn != [] && AllPresent(Table(), fifoPgn)
      modifies `fifoPgn
      ensures var last := |old(fifoPgn)| - 1;
              && vicpgn == old(fifoPgn)[last] && fifoPgn == old(fifoPgn)[..last]
              && vicpgn < |Table()| && vicframeNum == FrameRead(Table()[vicpgn]) && vicframeNum < MAX_FRAMES
    {
      var r, victim := FindVictimPage();
      vicpgn := victim;
      vicframeNum := EntryFpn(vicpgn);
    }

    method Rebind(vicpgn: nat, slot: nat, pgn: nat, frame: nat)
      requires vicpgn < pgd.Length && pgn < pgd.Length && slot < MAX_SLOTS && frame < MAX_FRAMES
      modifies pgd, `fifoPgn
      ensures Table() == old(Table())[vicpgn := Evicted(0, slot)][pgn := Resident(frame)]
      ensures fifoPgn == [pgn] + old(fifoPgn)
    {
      SetEntrySwap(vicpgn, 0, slot);
      SetEntryFpn(pgn, frame);
      EnlistPgnNode(pgn);
    }
  }

  /** The two copies of the fault branch: out to `slot`, then in from `tgt`. */
  method ExchangeFrames(ram: MemphyStruct, frame: nat, swap: MemphyStruct, slot: nat, tgt: nat)
    requires SeparateDevices(ram, swap) && frame < ram.storage.Length / PAGE_SIZE
    requires slot < swap.storage.Length / PAGE_SIZE && tgt < swap.storage.Length / PAGE_SIZE
    modifies ram.storage, swap.storage
    ensures var swap1 := old(swap.View()).pages[slot := old(ram.View()).pages[frame]];
            && swap.View() == old(swap.View()).(pages := swap1)
            && ram.View() == old(ram.View()).(pages := old(ram.View()).pages[frame := swap1[tgt]])
  {
    SwapCpPage(ram, frame, swap, slot);
    SwapCpPage(swap, tgt, ram, frame);
  }

  lemma FaultPresent(pr: Proc, ram: Device, swap: Device, pgn: nat)
    requires AllPresent(pr.pgd, pr.fifo) && CanFault(pr, ram, swap, pgn)
    ensures var pr' := FaultIn(pr, ram, swap, pgn).0; AllPresent(pr'.pgd, pr'.fifo)
  {
  }

  /** The page of `addr` has a frame inside RAM, or can be given one, or there is no page to move out. */
  predicate Ready(pr: Proc, ram: Device, swap: Device, addr: nat)
    requires addr < MAX_PGN * PAGE_SIZE
  {
    && |pr.pgd| == MAX_PGN
    && var e := pr.pgd[addr / PAGE_SIZE];
       if e.Absent? then pr.fifo == [] || CanFault(pr, ram, swap, addr / PAGE_SIZE) else FrameRead(e) < |ram.pages|
  }

  /** A touch seen by one process and the two devices. */
  function Faulted(pr: Proc, ram: Device, swap: Device, pgn: nat): (Proc, Device, Device) {
    if CanFault(pr, ram, swap, pgn) then FaultIn(pr, ram, swap, pgn) else (pr, ram, swap)
  }

  /** The frame number read after a touch exists. */
  lemma ReadyFrame(pr: Proc, ram: Device, swap: Device, addr: nat)
    requires addr < MAX_PGN * PAGE_SIZE && Ready(pr, ram, swap, addr)
    ensures var (pr', ram', _) := Faulted(pr, ram, swap, addr / PAGE_SIZE);
            && |pr'.pgd| == MAX_PGN && |ram'.pages| == |ram.pages|
            && (pr'.pgd[addr / PAGE_SIZE].Absent? <==> pr.pgd[addr / PAGE_SIZE].Absent? && pr.fifo == [])
            && (!pr'.pgd[addr / PAGE_SIZE].Absent? ==> FrameRead(pr'.pgd[addr / PAGE_SIZE]) < |ram.pages|)
  {
  }

  /** The devices of the machine do not alias and fit the fields of an entry. */
  ghost predicate SeparateDevices(ram: MemphyStruct, swap: MemphyStruct) {
    && ram != swap && ram.storage != swap.storage
    && ram.storage.Length / PAGE_SIZE <= MAX_FRAMES && swap.storage.Length / PAGE_SIZE <= MAX_SLOTS
  }

  lemma FrameReadBound(pte: Word)
    ensures GetFpn(pte) < MAX_FRAMES
  {
    GetFields(pte);
    EvictedFrame(pte);
  }
}
