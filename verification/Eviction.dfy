/**
  A run that shows why reads and writes are only claimed for resident pages: one frame, one slot, one process.
  The process writes 7 to its first page, a second request fails to map, and touching the unmapped page evicts
  the first one.  From then on both pages use frame 0.
*/
module Eviction {
  import opened Common
  import opened Pte
  import opened Paging
  import opened Refinement
  import R = Regions

  const FIRST := 0    // an address in page 0
  const SECOND := 256 // an address in page 1

  const LOAD := Op.Load(0)
  const MAP := Op.Alloc(0, 0, 256)
  const WRITE := Op.Write(0, FIRST, 7)
  const FAIL := Op.Alloc(0, 1, 256)
  const EVICT := Op.Write(0, SECOND, 9)

  /** The parts of the state that matter here: page tables, lists and sizes, with `n` frames and one slot. */
  ghost predicate Scene(m: Machine, n: nat, heap: R.Heap, first: Entry, second: Entry,
        fifo: seq<nat>, ram: seq<nat>, swap: seq<nat>)
  {
    && Shape(m) && 0 in m.procs && |m.ram.pages| == n && |m.swap.pages| == 1
    && m.ram.free == ram && m.swap.free == swap
    && m.procs[0].heap == heap && m.procs[0].fifo == fifo
    && m.procs[0].pgd[0] == first && m.procs[0].pgd[1] == second
  }

  function Syms(): seq<R.Region> { R.InitHeap().syms }

  function Heap0(): R.Heap { R.InitHeap() }

  function Heap1(): R.Heap { R.Heap([R.Region(0, 0)], Syms()[0 := R.Region(0, 256)], 256, 512) }

  function Heap2(): R.Heap {
    R.Heap([R.Region(0, 0)], Syms()[0 := R.Region(0, 256)][1 := R.Region(512, 768)], 512, 1024)
  }

  lemma NothingFits(h: R.Heap)
    requires h.free == [R.Region(0, 0)]
    ensures R.Carve(h.free, 256) == (h.free, None)
  {
    assert R.Walk(h.free, 1, 256, None) == (h.free, None);
  }

  lemma FirstRequest()
    ensures R.Alloc(Heap0(), 0, 256) == (Heap1(), R.MapPages(0, 1))
  {
    NothingFits(Heap0());
  }

  lemma SecondRequest()
    ensures R.Alloc(Heap1(), 1, 256) == (Heap2(), R.MapPages(1, 1))
  {
    NothingFits(Heap1());
  }

  lemma LoadScene(m: Machine, n: nat)
    requires n == 1 || n == 2
    requires m == Boot(n, 1)
    ensures Shape(m) && Allowed(m, LOAD)
    ensures Scene(Step(m, LOAD).0, n, Heap0(), Absent(0), Absent(0), [], [0] + UpTo(n)[1..], [0])
  {
    assert UpTo(1) == [0] && UpTo(2) == [0, 1];
    assert UpTo(n) == [0] + UpTo(n)[1..];
  }

  lemma MapScene(m: Machine, n: nat, rest: seq<nat>)
    requires Scene(m, n, Heap0(), Absent(0), Absent(0), [], [0] + rest, [0])
    ensures Allowed(m, MAP)
    ensures Scene(Step(m, MAP).0, n, Heap1(), Resident(0), Absent(0), [0], rest, [0])
  {
    FirstRequest();
    GrowScene(m.(procs := m.procs[0 := m.procs[0].(heap := Heap1())]), n, rest);
  }

  lemma GrowScene(m: Machine, n: nat, rest: seq<nat>)
    requires Scene(m, n, Heap1(), Absent(0), Absent(0), [], [0] + rest, [0])
    ensures Scene(Grow(m, 0, 0, 1), n, Heap1(), Resident(0), Absent(0), [0], rest, [0])
  {
    TakeOne(0, rest);
    MapOnePage(m.procs[0], 0, 0);
  }

  lemma TakeOne(f: nat, rest: seq<nat>)
    ensures TakeFrames([f] + rest, 1) == (true, [f], rest)
  {
    assert ([f] + rest)[..1] == [f];
    assert Reverse([f]) == [f];
  }

  lemma MapOnePage(pr: Proc, p: nat, f: nat)
    requires |pr.pgd| == MAX_PGN && p < MAX_PGN
    ensures var pr' := MapPages(pr, p, [f]);
            && |pr'.pgd| == MAX_PGN && pr'.pgd == pr.pgd[p := Resident(f)]
            && pr'.fifo == [p] + pr.fifo && pr'.heap == pr.heap
  {
    assert Reverse(Range(p, 1)) == [p];
  }

  lemma WriteScene(m: Machine)
    requires Scene(m, 1, Heap1(), Resident(0), Absent(0), [0], [], [0])
    ensures Allowed(m, WRITE)
    ensures Scene(Step(m, WRITE).0, 1, Heap1(), Resident(0), Absent(0), [0], [], [0])
  {
  }

  lemma FailScene(m: Machine)
    requires Scene(m, 1, Heap1(), Resident(0), Absent(0), [0], [], [0])
    ensures Allowed(m, FAIL)
    ensures Scene(Step(m, FAIL).0, 1, Heap2(), Resident(0), Absent(0), [0], [], [0])
  {
    SecondRequest();
  }

  /** Touching page 1 while it is absent moves page 0 to slot 0. */
  lemma EvictScene(m: Machine, n: nat, heap: R.Heap, rest: seq<nat>)
    requires n >= 1 && Scene(m, n, heap, Resident(0), Absent(0), [0], rest, [0])
    ensures var m' := WriteByte(m, 0, SECOND, 9).0;
            Scene(m', n, heap, Evicted(0, 0), Resident(0), [1], rest, []) && m'.ram.pages[0][0] == 9
  {
    assert CanFault(m.procs[0], m.ram, m.swap, 1);
  }

  /** One more operation at the end of a run; it does not access page 0 while that page is unmapped or evicted. */
  lemma Then(ops: seq<Op>, op: Op)
    requires Legal(1, 1, ops) && NeverFaulted(1, 1, ops, 0, 0) && NoneAstray(1, 1, ops, 0)
    requires Shape(Run(1, 1, ops)) && Allowed(Run(1, 1, ops), op) && NotAstray(Run(1, 1, ops), op)
    requires SameAccess(op, 0, 0) ==> Mapped(Run(1, 1, ops), 0, 0)
    ensures Legal(1, 1, ops + [op]) && Run(1, 1, ops + [op]) == Step(Run(1, 1, ops), op).0
    ensures NeverFaulted(1, 1, ops + [op], 0, 0) && NoneAstray(1, 1, ops + [op], 0)
    ensures LastWrite(ops + [op], 0, 0, FIRST, 0) ==
            if op.Write? && op.pid == 0 && op.addr == FIRST then op.v else LastWrite(ops, 0, 0, FIRST, 0)
  {
    assert (ops + [op])[..|ops + [op]| - 1] == ops;
  }

  lemma Mapped4(ops: seq<Op>)
    requires ops == [LOAD] + [MAP] + [WRITE] + [FAIL]
    ensures Legal(1, 1, ops) && NeverFaulted(1, 1, ops, 0, 0) && NoneAstray(1, 1, ops, 0)
    ensures LastWrite(ops, 0, 0, FIRST, 0) == 7
    ensures Scene(Run(1, 1, ops), 1, Heap2(), Resident(0), Absent(0), [0], [], [0])
  {
    LoadScene(Run(1, 1, []), 1);
    Then([], LOAD);
    assert [] + [LOAD] == [LOAD] && UpTo(1)[1..] == [];
    MapScene(Run(1, 1, [LOAD]), 1, []);
    Then([LOAD], MAP);
    WriteScene(Run(1, 1, [LOAD] + [MAP]));
    Then([LOAD] + [MAP], WRITE);
    FailScene(Run(1, 1, [LOAD] + [MAP] + [WRITE]));
    Then([LOAD] + [MAP] + [WRITE], FAIL);
  }

  /**
    After this legal run, in which no write goes to an evicted page, the process may read the address where it
    last wrote 7, and reads 9.
  */
  lemma EvictedReadIsWrong(ops: seq<Op>)
    requires ops == [LOAD] + [MAP] + [WRITE] + [FAIL] + [EVICT]
    ensures Legal(1, 1, ops) && NeverFaulted(1, 1, ops, 0, 0) && NoneAstray(1, 1, ops, 0)
    ensures LastWrite(ops, 0, 0, FIRST, 0) == 7
    ensures var m := Run(1, 1, ops);
            Shape(m) && Allowed(m, Op.Read(0, FIRST)) && Step(m, Op.Read(0, FIRST)) == (m, Data(9))
  {
    var before := [LOAD] + [MAP] + [WRITE] + [FAIL];
    Mapped4(before);
    EvictScene(Run(1, 1, before), 1, Heap2(), []);
    assert Allowed(Run(1, 1, before), EVICT);
    Then(before, EVICT);
    ReadAfter(Run(1, 1, ops));
  }

  lemma ReadAfter(m: Machine)
    requires Scene(m, 1, Heap2(), Evicted(0, 0), Resident(0), [1], [], []) && m.ram.pages[0][0] == 9
    ensures Allowed(m, Op.Read(0, FIRST)) && Step(m, Op.Read(0, FIRST)) == (m, Data(9))
  {
  }

  // ----- a resident page mapped again

  /**
    Why an allocation must not map a resident page.  With two frames, page 1 is written while the limit is still
    its first address, and faulted in; the next request maps it again and the list names it twice.
  */
  lemma MappedTwiceIsQueuedTwice(ops: seq<Op>)
    requires ops == [LOAD] + [MAP] + [EVICT]
    ensures Legal(2, 1, ops)
    ensures var m := Run(2, 1, ops);
            && Shape(m) && 0 in m.procs && m.procs[0].fifo == [1]
            && !Allowed(m, FAIL) && AllocRegion(m, 0, 1, 256).procs[0].fifo == [1, 1]
  {
    LoadAndMap();
    var m := Run(2, 1, [LOAD] + [MAP]);
    EvictScene(m, 2, Heap1(), [1]);
    assert Allowed(m, EVICT);
    assert ops[..2] == [LOAD] + [MAP];
    MapAgain(Run(2, 1, ops));
  }

  lemma MapAgain(m: Machine)
    requires Scene(m, 2, Heap1(), Evicted(0, 0), Resident(0), [1], [1], [])
    ensures !Allowed(m, FAIL) && AllocRegion(m, 0, 1, 256).procs[0].fifo == [1, 1]
  {
    SecondRequest();
    TakeOne(1, []);
    assert [1] + [] == [1];
    MapOnePage(m.procs[0].(heap := Heap2()), 1, 1);
    assert MapsPage(m, FAIL, 0, 1);
  }

  lemma LoadAndMap()
    ensures Legal(2, 1, [LOAD] + [MAP])
    ensures Scene(Run(2, 1, [LOAD] + [MAP]), 2, Heap1(), Resident(0), Absent(0), [0], [1], [0])
  {
    LoadScene(Run(2, 1, []), 2);
    assert [LOAD][..0] == [] && ([LOAD] + [MAP])[..1] == [LOAD];
    assert UpTo(2)[1..] == [1];
    MapScene(Run(2, 1, [LOAD]), 2, [1]);
  }
}
