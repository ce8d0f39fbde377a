/**
  The region allocator of src/libmem.c and src/mm-vm.c for one process (memory area 0), on values.

  The heap is the free-region list, the symbol table, the end of the mapped area and the break.  Allocations
  have positive sizes; when a search for size 0 ends is the subject of ZeroSearchEndsIff.  Addresses are
  mathematical integers.
*/
module Regions {
  import opened Common

  const TABLE_SIZE := 30  // PAGING_MAX_SYMTBL_SZ

  datatype Region = Region(start: int, end: int)

  function Len(r: Region): int { r.end - r.start }

  predicate Empty(r: Region) { r.start >= r.end }

  predicate Contains(r: Region, a: int) { r.start <= a < r.end }

  predicate Disjoint(r: Region, s: Region) {
    Empty(r) || Empty(s) || r.end <= s.start || s.end <= r.start
  }

  // ----- the free list search

  /** What the walk over the list from position `i` does: `best` is the last exact fit passed so far. */
  function Walk(list: seq<Region>, i: nat, size: int, best: Option<Region>): (seq<Region>, Option<Region>)
    requires i <= |list| && size > 0
    decreases |list| - i, if i < |list| then Len(list[i]) else 0
  {
    if i == |list| then (list, best)
    else
      var r := list[i];
      var taken := Region(r.start, r.start + size);
      if r.start + size < r.end then (list[i := Region(r.start + size, r.end)], Some(taken))
      else if r.start + size == r.end then
        if i + 1 < |list| then Walk(list[..i] + list[i + 1..], i, size, Some(taken))
        else (list[i := Region(r.end, r.end)], Some(taken))
      else Walk(list, i + 1, size, best)
  }

  /** get_free_vmrg_area on a whole list. */
  function Carve(list: seq<Region>, size: int): (seq<Region>, Option<Region>)
    requires size > 0
  {
    Walk(list, 0, size, None)
  }

  predicate ExactFit(r: Region, size: int) { Len(r) == size }

  /** The list the walk leaves, by recursion on the list. */
  function Leftover(list: seq<Region>, size: int): seq<Region> {
    if list == [] then []
    else
      var r, rest := list[0], list[1..];
      if Len(r) > size then [Region(r.start + size, r.end)] + rest
      else if Len(r) < size then [r] + Leftover(rest, size)
      else if rest == [] then [Region(r.end, r.end)]
      else Leftover(rest, size)
  }

  // ----- the search one iteration at a time, for size 0 as well

  datatype Search = At(list: seq<Region>, i: nat, best: Option<Region>) | Done(list: seq<Region>, best: Option<Region>)

  /** One pass through the body of the loop of get_free_vmrg_area. */
  function Iterate(list: seq<Region>, i: nat, size: nat, best: Option<Region>): (r: Search)
    requires i <= |list|
    ensures r.At? ==> r.i <= |r.list|
  {
    if i == |list| then Done(list, best)
    else
      var r := list[i];
      var taken := Region(r.start, r.start + size);
      if r.start + size < r.end then Done(list[i := Region(r.start + size, r.end)], Some(taken))
      else if r.start + size == r.end then
        if i + 1 < |list| then At(list[..i] + list[i + 1..], i, Some(taken))
        else At(list[i := Region(r.end, r.end)], i, Some(taken))
      else At(list, i + 1, best)
  }

  /** For positive sizes the loop, iterated, does what the walk says. */
  lemma WalkIterates(list: seq<Region>, i: nat, size: nat, best: Option<Region>)
    requires i <= |list| && size > 0
    ensures Walk(list, i, size, best) ==
            match Iterate(list, i, size, best)
            case Done(l, b) => (l, b)
            case At(l, j, b) => Walk(l, j, size, b)
  {
    if 0 <= i == |list| - 1 && list[i].start + size == list[i].end {
      var e := list[i].end;
      assert Walk(list[i := Region(e, e)], i + 1, size, Some(list[i])) == (list[i := Region(e, e)], Some(list[i]));
    }
  }

  function After(list: seq<Region>, i: nat, size: nat, best: Option<Region>, n: nat): Search
    requires i <= |list|
    decreases n
  {
    if n == 0 then At(list, i, best)
    else
      match Iterate(list, i, size, best)
      case Done(l, b) => Done(l, b)
      case At(l, j, b) => After(l, j, size, b, n - 1)
  }

  ghost predicate Ends(list: seq<Region>, size: nat) {
    exists n: nat :: After(list, 0, size, None, n).Done?
  }

  /** From position `i` on no region has an address, and the last one is an exact fit for size 0. */
  predicate Stuck(list: seq<Region>, i: nat) {
    i < |list| && (forall k :: i <= k < |list| ==> Len(list[k]) <= 0) && Len(list[|list| - 1]) == 0
  }

  lemma {:induction false} StuckForever(list: seq<Region>, i: nat, best: Option<Region>, n: nat)
    requires Stuck(list, i)
    ensures After(list, i, 0, best, n).At?
    decreases n
  {
    if n > 0 {
      var next := Iterate(list, i, 0, best);
      assert Stuck(next.list, next.i);
      StuckForever(next.list, next.i, next.best, n - 1);
    }
  }

  /** An iteration leads into such a state only from such a state. */
  lemma StuckBefore(list: seq<Region>, i: nat, best: Option<Region>)
    requires i <= |list| && Iterate(list, i, 0, best).At?
    ensures var next := Iterate(list, i, 0, best);
            (Stuck(next.list, next.i) ==> Stuck(list, i)) && |next.list| - next.i <= |list| - i
    ensures !Stuck(list, i) ==>
              var next := Iterate(list, i, 0, best); |next.list| - next.i < |list| - i
  {
    var next := Iterate(list, i, 0, best);
    if Len(list[i]) == 0 && i + 1 < |list| {
      assert next.list == list[..i] + list[i + 1..];
      assert forall k :: i < k < |list| ==> list[k] == next.list[k - 1];
    }
  }

  lemma {:induction false} ZeroSearchEnds(list: seq<Region>, i: nat, best: Option<Region>) returns (n: nat)
    requires i <= |list| && !Stuck(list, i)
    ensures After(list, i, 0, best, n).Done?
    decreases |list| - i
  {
    var next := Iterate(list, i, 0, best);
    if next.Done? {
      n := 1;
    } else {
      StuckBefore(list, i, best);
      var rest := ZeroSearchEnds(next.list, next.i, next.best);
      n := rest + 1;
    }
  }

  /**
    A search for size 0 ends exactly when the list is empty, holds a region with an address, or has a last region
    of negative length.  So it does not end on the list a process starts with.
  */
  lemma ZeroSearchEndsIff(list: seq<Region>)
    ensures Ends(list, 0) <==>
            list == [] || (exists k :: 0 <= k < |list| && Len(list[k]) > 0) || Len(list[|list| - 1]) < 0
    ensures !Ends(InitHeap().free, 0)
  {
    if Stuck(list, 0) {
      forall n: nat ensures After(list, 0, 0, None, n).At? { StuckForever(list, 0, None, n); }
    } else {
      var n := ZeroSearchEnds(list, 0, None);
      var last := |list| - 1;
      assert last >= 0 && Len(list[last]) >= 0 ==> exists k :: 0 <= k < |list| && Len(list[k]) > 0;
    }
    forall n: nat ensures After(InitHeap().free, 0, 0, None, n).At? { StuckForever(InitHeap().free, 0, None, n); }
  }

  // ----- an independent description of the block that is returned

  /** Position of the first region strictly larger than `size`, or the length of the list. */
  function FirstLarger(list: seq<Region>, size: int): (j: nat)
    ensures j <= |list| && (forall i :: 0 <= i < j ==> Len(list[i]) <= size) && (j < |list| ==> Len(list[j]) > size)
  {
    if list == [] then 0 else if Len(list[0]) > size then 0 else 1 + FirstLarger(list[1..], size)
  }

  /** Position of the last exact fit, or the length of the list. */
  function LastExact(list: seq<Region>, size: int): (j: nat)
    ensures j <= |list|
    ensures j == |list| ==> forall i :: 0 <= i < |list| ==> !ExactFit(list[i], size)
    ensures j < |list| ==> ExactFit(list[j], size) && forall i :: j < i < |list| ==> !ExactFit(list[i], size)
  {
    if list == [] then 0
    else
      var j := LastExact(list[1..], size);
      if j < |list| - 1 then j + 1 else if ExactFit(list[0], size) then 0 else |list|
  }

  /** The region a request of `size` receives: a prefix of the first larger region, or else the last exact fit. */
  function Choice(list: seq<Region>, size: int): Option<Region> {
    var j := FirstLarger(list, size);
    if j < |list| then Some(Region(list[j].start, list[j].start + size))
    else
      var e := LastExact(list, size);
      if e < |list| then Some(list[e]) else None
  }

  lemma ChoiceStep(list: seq<Region>, size: int)
    requires size > 0 && list != []
    ensures Len(list[0]) > size ==> Choice(list, size) == Some(Region(list[0].start, list[0].start + size))
    ensures Len(list[0]) == size ==>
              Choice(list, size) == if Choice(list[1..], size) == None then Some(list[0]) else Choice(list[1..], size)
    ensures Len(list[0]) < size ==> Choice(list, size) == Choice(list[1..], size)
  {
  }

  lemma WalkCut(pre: seq<Region>, list: seq<Region>, size: int, best: Option<Region>)
    requires size > 0 && list != [] && Len(list[0]) > size
    ensures Walk(pre + list, |pre|, size, best) ==
            (pre + ([Region(list[0].start + size, list[0].end)] + list[1..]),
             Some(Region(list[0].start, list[0].start + size)))
  {
    var r, all := list[0], pre + list;
    assert all[|pre|] == r;
    assert all[|pre| := Region(r.start + size, r.end)] == pre + ([Region(r.start + size, r.end)] + list[1..]);
  }

  lemma WalkSkip(pre: seq<Region>, list: seq<Region>, size: int, best: Option<Region>)
    requires size > 0 && list != [] && Len(list[0]) < size
    ensures Walk(pre + list, |pre|, size, best) == Walk((pre + [list[0]]) + list[1..], |pre| + 1, size, best)
  {
    assert (pre + list)[|pre|] == list[0];
    assert pre + list == (pre + [list[0]]) + list[1..];
  }

  /** The walk on an exact fit: it unlinks the region, or empties it in place when it is the last one. */
  lemma WalkExact(pre: seq<Region>, list: seq<Region>, size: int, best: Option<Region>)
    requires size > 0 && list != [] && Len(list[0]) == size
    ensures |list| > 1 ==> Walk(pre + list, |pre|, size, best) == Walk(pre + list[1..], |pre|, size, Some(list[0]))
    ensures |list| == 1 ==>
              Walk(pre + list, |pre|, size, best) == (pre + [Region(list[0].end, list[0].end)], Some(list[0]))
  {
    var r, all := list[0], pre + list;
    assert all[|pre|] == r && Region(r.start, r.start + size) == r;
    if |list| > 1 {
      assert all[..|pre|] + all[|pre| + 1..] == pre + list[1..];
    } else {
      assert all[|pre| := Region(r.end, r.end)] == pre + [Region(r.end, r.end)];
    }
  }

  /** Regions the walk has already passed stay in front; from there on it does what the description says. */
  lemma {:induction false} WalkShift(pre: seq<Region>, list: seq<Region>, size: int, best: Option<Region>)
    requires size > 0
    ensures Walk(pre + list, |pre|, size, best) ==
            (pre + Leftover(list, size), if Choice(list, size) == None then best else Choice(list, size))
    decreases |list|
  {
    if list == [] {
      assert pre + list == pre == pre + Leftover(list, size);
    } else {
      var r, rest := list[0], list[1..];
      ChoiceStep(list, size);
      if Len(r) > size {
        WalkCut(pre, list, size, best);
      } else if Len(r) < size {
        WalkSkip(pre, list, size, best);
        WalkShift(pre + [r], rest, size, best);
        assert (pre + [r]) + Leftover(rest, size) == pre + ([r] + Leftover(rest, size));
      } else {
        WalkExact(pre, list, size, best);
        if rest != [] { WalkShift(pre, rest, size, Some(r)); }
      }
    }
  }

  /** The walk that cuts and unlinks as it goes leaves and returns what the description says. */
  lemma CarveIsChoice(list: seq<Region>, size: int)
    requires size > 0
    ensures Carve(list, size) == (Leftover(list, size), Choice(list, size))
  {
    assert [] + list == list;
    WalkShift([], list, size, None);
    assert [] + Leftover(list, size) == Leftover(list, size);
  }

  /** A request is served from the list exactly when some free region is long enough. */
  lemma FoundIffFits(list: seq<Region>, size: int)
    requires size > 0
    ensures Carve(list, size).1.Some? <==> exists i :: 0 <= i < |list| && Len(list[i]) >= size
    ensures Carve(list, size).1.Some? ==> Len(Carve(list, size).1.value) == size
  {
    CarveIsChoice(list, size);
    var j, e := FirstLarger(list, size), LastExact(list, size);
    if j < |list| {
      assert Len(list[j]) >= size;
    } else if e < |list| {
      assert Len(list[e]) >= size;
    }
  }

  // ----- which addresses are free

  predicate Free(list: seq<Region>, a: int) {
    exists i :: 0 <= i < |list| && Contains(list[i], a)
  }

  /** `a` lies in an exact fit the walk passes before it stops. */
  predicate Passed(list: seq<Region>, size: int, a: int) {
    exists i :: 0 <= i < FirstLarger(list, size) && ExactFit(list[i], size) && Contains(list[i], a)
  }

  /** The regions of a list are pairwise disjoint. */
  predicate Separate(list: seq<Region>) {
    forall i, j :: 0 <= i < j < |list| ==> Disjoint(list[i], list[j])
  }

  lemma FreeStep(list: seq<Region>, a: int)
    requires list != []
    ensures Free(list, a) <==> Contains(list[0], a) || Free(list[1..], a)
  {
    if i :| 0 <= i < |list| && Contains(list[i], a) {
      if i > 0 { assert list[1..][i - 1] == list[i]; }
    }
    if i :| 0 <= i < |list[1..]| && Contains(list[1..][i], a) {
      assert list[i + 1] == list[1..][i];
    }
  }

  lemma PassedStep(list: seq<Region>, size: int, a: int)
    requires list != []
    ensures Passed(list, size, a) <==>
            Len(list[0]) <= size && ((ExactFit(list[0], size) && Contains(list[0], a)) || Passed(list[1..], size, a))
  {
    var rest := list[1..];
    if i :| 0 <= i < FirstLarger(list, size) && ExactFit(list[i], size) && Contains(list[i], a) {
      if i > 0 { assert rest[i - 1] == list[i]; }
    }
    if Len(list[0]) <= size {
      if i :| 0 <= i < FirstLarger(rest, size) && ExactFit(rest[i], size) && Contains(rest[i], a) {
        assert list[i + 1] == rest[i];
      }
    }
  }

  predicate Chosen(list: seq<Region>, size: int, a: int) {
    Choice(list, size).Some? && Contains(Choice(list, size).value, a)
  }

  /** What is returned, and what is passed, was free. */
  lemma ChosenWasFree(list: seq<Region>, size: int, a: int)
    requires size > 0
    ensures Chosen(list, size, a) || Passed(list, size, a) ==> Free(list, a)
  {
    if Chosen(list, size, a) {
      var j, e := FirstLarger(list, size), LastExact(list, size);
      assert Contains(list[if j < |list| then j else e], a);
    }
  }

  /**
    A search takes from the free addresses the block it returns and the exact fits it passes on the way, and
    nothing else (the passed fits are lost when a larger region is met later).
  */
  lemma {:induction false} CarveTakes(list: seq<Region>, size: int, a: int)
    requires size > 0 && Separate(list)
    ensures Free(Leftover(list, size), a) <==> Free(list, a) && !Passed(list, size, a) && !Chosen(list, size, a)
    decreases |list|
  {
    if list != [] {
      var r, rest := list[0], list[1..];
      assert Separate(rest);
      CarveTakes(rest, size, a);
      FreeStep(list, a);
      PassedStep(list, size, a);
      ChoiceStep(list, size);
      ChosenWasFree(rest, size, a);
      HeadApart(list, a);
      var left := Leftover(list, size);
      if left != [] { FreeStep(left, a); }
      if Len(r) > size {
        assert left[1..] == rest;
      } else if Len(r) < size {
        assert left[1..] == Leftover(rest, size);
      }
    }
  }

  lemma HeadApart(list: seq<Region>, a: int)
    requires list != [] && Separate(list)
    ensures !(Contains(list[0], a) && Free(list[1..], a))
  {
    if i :| 0 <= i < |list[1..]| && Contains(list[1..][i], a) {
      assert list[i + 1] == list[1..][i] && Disjoint(list[0], list[i + 1]);
    }
  }

  // ----- separation is kept by a search

  lemma DisjointMeans(r: Region, s: Region)
    ensures Disjoint(r, s) <==> forall a :: !(Contains(r, a) && Contains(s, a))
  {
    if !Disjoint(r, s) {
      var a := if r.start < s.start then s.start else r.start;
      assert Contains(r, a) && Contains(s, a);
    }
  }

  /** All regions of the list keep away from `t`. */
  predicate Apart(list: seq<Region>, t: Region) {
    forall i :: 0 <= i < |list| ==> Disjoint(list[i], t)
  }

  /** All regions of the list are empty or lie in [0, limit). */
  predicate Within(list: seq<Region>, limit: int) {
    forall i :: 0 <= i < |list| ==> Empty(list[i]) || (0 <= list[i].start && list[i].end <= limit)
  }

  lemma {:induction false} LeftoverKeeps(list: seq<Region>, size: int, t: Region, limit: int)
    requires size > 0
    ensures Apart(list, t) ==> Apart(Leftover(list, size), t)
    ensures Within(list, limit) ==> Within(Leftover(list, size), limit)
    decreases |list|
  {
    if list != [] {
      var rest, left := list[1..], Leftover(list, size);
      assert Apart(list, t) ==> Disjoint(list[0], t) && Apart(rest, t);
      assert Within(list, limit) ==> Within([list[0]], limit) && Within(rest, limit);
      LeftoverKeeps(rest, size, t, limit);
      assert |left| > 0 && Len(list[0]) != size ==>
          left[1..] == if Len(list[0]) > size then rest else Leftover(rest, size);
      assert forall i :: 1 <= i < |left| ==> left[i] == left[1..][i - 1];
    }
  }

  lemma {:induction false} LeftoverSeparate(list: seq<Region>, size: int)
    requires size > 0 && Separate(list)
    ensures Separate(Leftover(list, size))
    decreases |list|
  {
    if list != [] {
      var rest, left := list[1..], Leftover(list, size);
      LeftoverSeparate(rest, size);
      if Len(list[0]) != size {
        assert left[1..] == if Len(list[0]) > size then rest else Leftover(rest, size);
        assert Apart(rest, left[0]);
        LeftoverKeeps(rest, size, left[0], 0);
        assert forall i :: 1 <= i < |left| ==> left[i] == left[1..][i - 1];
      }
    }
  }

  /** The block returned lies in the heap, keeps away from what its region kept away from and from what is left. */
  lemma ChoiceKeeps(list: seq<Region>, size: int, t: Region, limit: int)
    requires size > 0 && Choice(list, size).Some?
    ensures var r := Choice(list, size).value;
            && Len(r) == size
            && (Apart(list, t) ==> Disjoint(r, t))
            && (Within(list, limit) ==> 0 <= r.start && r.end <= limit)
            && (Separate(list) ==> Apart(Leftover(list, size), r))
  {
    var r, left := Choice(list, size).value, Leftover(list, size);
    var j, e := FirstLarger(list, size), LastExact(list, size);
    assert Disjoint(list[if j < |list| then j else e], t) ==> Disjoint(r, t);
    if Separate(list) {
      forall k | 0 <= k < |left| ensures Disjoint(left[k], r) {
        DisjointMeans(left[k], r);
        forall a ensures !(Contains(left[k], a) && Contains(r, a)) {
          CarveTakes(list, size, a);
        }
      }
    }
  }

  // ----- the heap of a process

  /** DIV_ROUND_UP(size, PAGING_PAGESZ) * PAGING_PAGESZ, for positive sizes. */
  function Align(size: nat): nat { (size + PAGE_SIZE - 1) / PAGE_SIZE * PAGE_SIZE }

  datatype Heap = Heap(free: seq<Region>, syms: seq<Region>, vmEnd: int, sbrk: int)

  /** What __alloc asks the pager to map: `count` pages from `start`. */
  datatype Growth = NoGrowth | MapPages(start: int, count: int)

  /** init_mm: one empty free region, a zeroed symbol table. */
  function InitHeap(): Heap {
    Heap([Region(0, 0)], seq(TABLE_SIZE, _ => Region(0, 0)), 0, 0)
  }

  /** validate_overlap_vm_area against the one area [0, vmEnd). */
  predicate Overlaps(vmEnd: int, start: int, end: int) {
    vmEnd != 0 &&
    (0 <= start <= vmEnd || 0 <= end <= vmEnd || (start <= 0 && vmEnd <= end) || (0 <= start && end <= vmEnd))
  }

  /** inc_vma_limit: the break always moves, the limit only if the overlap check passes. */
  function IncLimit(h: Heap, incSize: nat): (Heap, Growth) {
    var amount := Align(incSize);
    var h1 := h.(sbrk := h.sbrk + amount);
    if Overlaps(h.vmEnd, h.sbrk, h.sbrk + amount) then (h1, NoGrowth)
    else (h1.(vmEnd := h.vmEnd + amount), MapPages(h.vmEnd / PAGE_SIZE, amount / PAGE_SIZE))
  }

  predicate ValidId(rgid: int) { 0 <= rgid < TABLE_SIZE }

  predicate WellFormed(h: Heap) { |h.syms| == TABLE_SIZE }

  /** __alloc for area 0. */
  function Alloc(h: Heap, rgid: int, size: nat): (Heap, Growth)
    requires WellFormed(h) && ValidId(rgid) && size > 0
  {
    match Carve(h.free, size)
    case (left, Some(r)) => (h.(free := left, syms := h.syms[rgid := r]), NoGrowth)
    case (left, None) =>
      var brk := h.sbrk;
      var h0 := h.(free := left);
      if h.vmEnd - brk >= size then
        (h0.(sbrk := brk + size, syms := h.syms[rgid := Region(brk, brk + size)]), NoGrowth)
      else
        var (h1, g) := IncLimit(h0, Align(size));
        (h1.(syms := h.syms[rgid := Region(brk, brk + size)], sbrk := h1.sbrk + size), g)
  }

  /** __free: the region goes to the head of the list unless it is empty, and the symbol is cleared either way. */
  function Release(h: Heap, rgid: int): (Heap, int)
    requires WellFormed(h) && ValidId(rgid)
  {
    var r := h.syms[rgid];
    var h1 := h.(syms := h.syms[rgid := Region(-1, -1)]);
    if Empty(r) then (h1, -1) else (h1.(free := [r] + h.free), 0)
  }

  /** All live regions and all free regions are pairwise disjoint and below the break. */
  predicate RegionsOk(h: Heap) {
    && WellFormed(h)
    && Separate(h.syms) && Separate(h.free)
    && (forall i :: 0 <= i < TABLE_SIZE ==> Apart(h.free, h.syms[i]))
    && Within(h.syms, h.sbrk) && Within(h.free, h.sbrk) && h.sbrk >= 0
  }

  lemma InitRegions()
    ensures RegionsOk(InitHeap())
  {
  }

  /** A region that keeps away from everything may take the place of any symbol. */
  lemma SetSymbol(h: Heap, h': Heap, rgid: int, r: Region)
    requires RegionsOk(h) && ValidId(rgid) && h'.syms == h.syms[rgid := r]
    requires Separate(h'.free) && Within(h'.free, h'.sbrk) && h'.sbrk >= h.sbrk
    requires forall i :: 0 <= i < TABLE_SIZE ==> Apart(h'.free, h.syms[i])
    requires Apart(h.syms, r) && Apart(h'.free, r) && (Empty(r) || (0 <= r.start && r.end <= h'.sbrk))
    ensures RegionsOk(h')
  {
  }

  lemma CarvedRegions(h: Heap, h': Heap, rgid: int, size: nat)
    requires RegionsOk(h) && ValidId(rgid) && size > 0 && Choice(h.free, size).Some?
    requires h' == h.(free := Leftover(h.free, size), syms := h.syms[rgid := Choice(h.free, size).value])
    ensures RegionsOk(h')
  {
    var r := Choice(h.free, size).value;
    LeftoverSeparate(h.free, size);
    LeftoverKeeps(h.free, size, r, h.sbrk);
    ChoiceKeeps(h.free, size, r, h.sbrk);
    forall i | 0 <= i < TABLE_SIZE ensures Apart(h'.free, h.syms[i]) && Disjoint(h.syms[i], r) {
      LeftoverKeeps(h.free, size, h.syms[i], 0);
      ChoiceKeeps(h.free, size, h.syms[i], 0);
    }
    SetSymbol(h, h', rgid, r);
  }

  lemma AllocKeepsRegions(h: Heap, rgid: int, size: nat)
    requires RegionsOk(h) && ValidId(rgid) && size > 0
    ensures RegionsOk(Alloc(h, rgid, size).0)
  {
    CarveIsChoice(h.free, size);
    var h' := Alloc(h, rgid, size).0;
    if Choice(h.free, size).Some? {
      CarvedRegions(h, h', rgid, size);
    } else {
      NothingCarved(h.free, size);
      SetSymbol(h, h', rgid, Region(h.sbrk, h.sbrk + size));
    }
  }

  /** A search that fails leaves the list as it was. */
  lemma {:induction false} NothingCarved(list: seq<Region>, size: int)
    requires size > 0 && Choice(list, size) == None
    ensures Leftover(list, size) == list
    decreases |list|
  {
    if list != [] {
      ChoiceStep(list, size);
      NothingCarved(list[1..], size);
    }
  }

  lemma ReleaseKeepsRegions(h: Heap, rgid: int)
    requires RegionsOk(h) && ValidId(rgid)
    ensures RegionsOk(Release(h, rgid).0)
  {
    var r, h' := h.syms[rgid], Release(h, rgid).0;
    assert Apart(h.free, r);
    if !Empty(r) {
      assert forall i :: 1 <= i < |h'.free| ==> h'.free[i] == h.free[i - 1];
      forall i | 0 <= i < TABLE_SIZE ensures Apart(h'.free, h'.syms[i]) {
        assert Apart(h.free, h.syms[i]);
      }
    }
  }

  /** Freeing the same identifier again is refused and changes nothing any more. */
  lemma DoubleFree(h: Heap, rgid: int)
    requires WellFormed(h) && ValidId(rgid)
    ensures Release(Release(h, rgid).0, rgid) == (Release(h, rgid).0, -1)
  {
    var h1 := Release(h, rgid).0;
    assert h1.syms[rgid := Region(-1, -1)] == h1.syms;
  }

  // ----- what an allocation and a free do to the symbols and to the free addresses

  /** The region a request receives has the requested length, and was free or lies at the old break. */
  lemma AllocSymbol(h: Heap, rgid: int, size: nat)
    requires WellFormed(h) && ValidId(rgid) && size > 0
    ensures var h' := Alloc(h, rgid, size).0;
            && WellFormed(h') && Len(h'.syms[rgid]) == size
            && (h'.syms[rgid].start == h.sbrk || forall a :: Contains(h'.syms[rgid], a) ==> Free(h.free, a))
            && (Choice(h.free, size).Some? ==> h'.syms[rgid] == Choice(h.free, size).value)
            && (Choice(h.free, size).None? ==> h'.syms[rgid].start == h.sbrk)
            && forall i :: 0 <= i < TABLE_SIZE && i != rgid ==> h'.syms[i] == h.syms[i]
  {
    CarveIsChoice(h.free, size);
    FoundIffFits(h.free, size);
    if Choice(h.free, size).Some? {
      forall a | Contains(Choice(h.free, size).value, a) ensures Free(h.free, a) { ChosenWasFree(h.free, size, a); }
    }
  }

  /** After an allocation the addresses it returned, and the exact fits passed on the way, are free no more. */
  lemma AllocFrees(h: Heap, rgid: int, size: nat, a: int)
    requires RegionsOk(h) && ValidId(rgid) && size > 0
    ensures var h' := Alloc(h, rgid, size).0;
            Free(h'.free, a) <==> Free(h.free, a) && !Contains(h'.syms[rgid], a) && !Passed(h.free, size, a)
  {
    CarveIsChoice(h.free, size);
    CarveTakes(h.free, size, a);
    if Choice(h.free, size).None? && Free(h.free, a) {
      var i :| 0 <= i < |h.free| && Contains(h.free[i], a);
      assert h.free[i].end <= h.sbrk;
    }
  }

  /** A free makes exactly the addresses of the region free, clears the symbol, and fails on an empty region. */
  lemma ReleaseFrees(h: Heap, rgid: int)
    requires WellFormed(h) && ValidId(rgid)
    ensures var (h', ret) := Release(h, rgid);
            && (forall a :: Free(h'.free, a) <==> Free(h.free, a) || Contains(h.syms[rgid], a))
            && h'.syms == h.syms[rgid := Region(-1, -1)] && h'.sbrk == h.sbrk && h'.vmEnd == h.vmEnd
            && ret == if Len(h.syms[rgid]) > 0 then 0 else -1
  {
    var h' := Release(h, rgid).0;
    forall a ensures Free(h'.free, a) <==> Free(h.free, a) || Contains(h.syms[rgid], a) {
      if !Empty(h.syms[rgid]) {
        FreeStep(h'.free, a);
        assert h'.free[1..] == h.free;
      }
    }
  }

  /** A freed region is reused: a request that fits into it never grows the area, and a shorter one gets its prefix. */
  lemma FreedIsReused(h: Heap, rgid: int, id: int, size: nat)
    requires WellFormed(h) && ValidId(rgid) && ValidId(id) && 0 < size <= Len(h.syms[rgid])
    ensures var h1 := Release(h, rgid).0; var (h2, g) := Alloc(h1, id, size);
            && g == NoGrowth && h2.vmEnd == h.vmEnd && h2.sbrk == h.sbrk
            && (size < Len(h.syms[rgid]) ==>
                  h2.syms[id] == Region(h.syms[rgid].start, h.syms[rgid].start + size))
  {
    var h1 := Release(h, rgid).0;
    assert h1.free[0] == h.syms[rgid];
    FoundIffFits(h1.free, size);
    CarveIsChoice(h1.free, size);
    ChoiceStep(h1.free, size);
  }

  predicate Between(a: int, low: int, high: int) { low <= a <= high }

  /** The overlap check refuses exactly the areas that meet the closed interval from 0 to a positive limit. */
  lemma OverlapsIffMeets(vmEnd: int, start: int, end: int)
    requires start <= end && vmEnd >= 0
    ensures Overlaps(vmEnd, start, end) <==> vmEnd != 0 && exists a :: Between(a, 0, vmEnd) && Between(a, start, end)
  {
    if start <= vmEnd && 0 <= end {
      var a := if start < 0 then 0 else start;
      assert Between(a, 0, vmEnd) && Between(a, start, end);
    }
  }

  // ----- whole runs

  datatype Op = AllocOp(rgid: int, size: nat) | FreeOp(rgid: int)

  predicate ValidOp(op: Op) {
    ValidId(op.rgid) && (op.AllocOp? ==> op.size > 0)
  }

  function Apply(h: Heap, op: Op): (r: Heap)
    requires WellFormed(h) && ValidOp(op)
    ensures WellFormed(r)
  {
    match op
    case AllocOp(rgid, size) => Alloc(h, rgid, size).0
    case FreeOp(rgid) => Release(h, rgid).0
  }

  function Run(h: Heap, ops: seq<Op>): (r: Heap)
    requires WellFormed(h) && forall i :: 0 <= i < |ops| ==> ValidOp(ops[i])
    ensures WellFormed(r)
    decreases |ops|
  {
    if ops == [] then h else Apply(Run(h, ops[..|ops| - 1]), ops[|ops| - 1])
  }

  /**
    Region safety.  After any sequence of allocations and frees with positive sizes, including double frees and
    reuse of identifiers, all live and all free regions are pairwise disjoint and lie below the break.
  */
  lemma {:induction false} RegionSafety(ops: seq<Op>)
    requires forall i :: 0 <= i < |ops| ==> ValidOp(ops[i])
    ensures RegionsOk(Run(InitHeap(), ops))
    decreases |ops|
  {
    if ops == [] {
      InitRegions();
    } else {
      var last := |ops| - 1;
      RegionSafety(ops[..last]);
      var h := Run(InitHeap(), ops[..last]);
      match ops[last]
      case AllocOp(rgid, size) => AllocKeepsRegions(h, rgid, size);
      case FreeOp(rgid) => ReleaseKeepsRegions(h, rgid);
    }
  }

  /** The size of the last request for `id` that has not been freed since, or 0: a function of the operations. */
  function LiveSize(ops: seq<Op>, id: int): nat {
    if ops == [] then 0
    else
      var op := ops[|ops| - 1];
      if op.rgid != id then LiveSize(ops[..|ops| - 1], id)
      else match op case AllocOp(_, size) => size case FreeOp(_) => 0
  }

  /** After every run each symbol names a region of exactly the size last asked for, or an empty one. */
  lemma {:induction false} SymbolSizes(ops: seq<Op>, id: int)
    requires (forall i :: 0 <= i < |ops| ==> ValidOp(ops[i])) && ValidId(id)
    ensures Len(Run(InitHeap(), ops).syms[id]) == LiveSize(ops, id)
    decreases |ops|
  {
    if ops != [] {
      var before, op := ops[..|ops| - 1], ops[|ops| - 1];
      SymbolSizes(before, id);
      var h := Run(InitHeap(), before);
      match op
      case AllocOp(rgid, size) => AllocSymbol(h, rgid, size);
      case FreeOp(rgid) => ReleaseFrees(h, rgid);
    }
  }

  // ----- accounting of the limit and the break

  /** The request misses the free list. */
  predicate Misses(h: Heap, op: Op)
    requires ValidOp(op)
  {
    op.AllocOp? && Carve(h.free, op.size).1 == None
  }

  /** Sizes of the requests of a run that missed the free list, oldest first. */
  function MissedSizes(ops: seq<Op>): seq<nat>
    requires forall i :: 0 <= i < |ops| ==> ValidOp(ops[i])
    decreases |ops|
  {
    if ops == [] then []
    else
      var before := ops[..|ops| - 1];
      var op := ops[|ops| - 1];
      MissedSizes(before) + (if Misses(Run(InitHeap(), before), op) then [op.size] else [])
  }

  function Sum(sizes: seq<nat>): nat {
    if sizes == [] then 0 else Sum(sizes[..|sizes| - 1]) + sizes[|sizes| - 1]
  }

  function SumAligned(sizes: seq<nat>): nat {
    if sizes == [] then 0 else SumAligned(sizes[..|sizes| - 1]) + Align(sizes[|sizes| - 1])
  }

  lemma AlignFacts(size: nat)
    ensures Align(size) % PAGE_SIZE == 0 && size <= Align(size) < size + PAGE_SIZE
    ensures Align(Align(size)) == Align(size)
  {
  }

  lemma SumStep(sizes: seq<nat>, n: nat)
    ensures Sum(sizes + [n]) == Sum(sizes) + n
    ensures SumAligned(sizes + [n]) == SumAligned(sizes) + Align(n)
  {
    assert (sizes + [n])[..|sizes|] == sizes;
  }

  /** The limit and the break are determined by the requests that missed. */
  predicate Accounted(h: Heap, missed: seq<nat>) {
    && h.vmEnd == SumAligned(missed) && h.sbrk == h.vmEnd + Sum(missed)
    && h.vmEnd % PAGE_SIZE == 0 && (missed != [] ==> Sum(missed) > 0) && (missed == [] ==> h.vmEnd == 0)
  }

  /** Under the accounting a miss always grows the area, and the overlap check never refuses. */
  lemma MissGrows(h: Heap, rgid: int, size: nat, missed: seq<nat>)
    requires WellFormed(h) && ValidOp(AllocOp(rgid, size)) && Misses(h, AllocOp(rgid, size))
    requires Accounted(h, missed)
    ensures var (h', g) := Alloc(h, rgid, size);
            && g == MapPages(h.vmEnd / PAGE_SIZE, Align(size) / PAGE_SIZE)
            && h'.vmEnd == h.vmEnd + Align(size)
            && h'.syms[rgid] == Region(h.sbrk, h.sbrk + size)
            && Accounted(h', missed + [size])
  {
    AlignFacts(size);
    SumStep(missed, size);
    assert !Overlaps(h.vmEnd, h.sbrk, h.sbrk + Align(size));
  }

  /** A request served from the list, and a free, move neither limit nor break. */
  lemma HitKeepsLimit(h: Heap, op: Op)
    requires WellFormed(h) && ValidOp(op) && !Misses(h, op)
    ensures Apply(h, op).vmEnd == h.vmEnd && Apply(h, op).sbrk == h.sbrk
    ensures op.AllocOp? ==> Alloc(h, op.rgid, op.size).1 == NoGrowth
  {
  }

  /**
    Limit accounting.  In every run the limit is the sum of the page-rounded sizes of the requests that missed
    the free list, and the break exceeds it by exactly the sum of their raw sizes.
  */
  lemma {:induction false} LimitAccounting(ops: seq<Op>)
    requires forall i :: 0 <= i < |ops| ==> ValidOp(ops[i])
    ensures Accounted(Run(InitHeap(), ops), MissedSizes(ops))
    decreases |ops|
  {
    if ops != [] {
      var before, op := ops[..|ops| - 1], ops[|ops| - 1];
      LimitAccounting(before);
      var h := Run(InitHeap(), before);
      if Misses(h, op) {
        MissGrows(h, op.rgid, op.size, MissedSizes(before));
      } else {
        HitKeepsLimit(h, op);
        assert MissedSizes(ops) == MissedSizes(before);
      }
    }
  }

  /** The page range a request passes to mapping, if any, in the state a run leads to. */
  function PagesMapped(ops: seq<Op>, k: nat): Growth
    requires k < |ops| && forall i :: 0 <= i < |ops| ==> ValidOp(ops[i])
  {
    var op := ops[k];
    if op.AllocOp? && ValidOp(op) then Alloc(Run(InitHeap(), ops[..k]), op.rgid, op.size).1 else NoGrowth
  }

  lemma {:induction false} LimitGrows(ops: seq<Op>, k: nat)
    requires (forall i :: 0 <= i < |ops| ==> ValidOp(ops[i])) && k <= |ops|
    ensures Run(InitHeap(), ops[..k]).vmEnd <= Run(InitHeap(), ops).vmEnd
    decreases |ops|
  {
    if k < |ops| {
      var last := |ops| - 1;
      LimitGrows(ops[..last], k);
      assert ops[..last][..k] == ops[..k];
      LimitAccounting(ops[..last]);
      var h, op := Run(InitHeap(), ops[..last]), ops[last];
      if Misses(h, op) { MissGrows(h, op.rgid, op.size, MissedSizes(ops[..last])); AlignFacts(op.size); }
    } else {
      assert ops[..k] == ops;
    }
  }

  /** No page number is passed to mapping twice: a later request starts at or above the end of an earlier one. */
  lemma MappedOnce(ops: seq<Op>, j: nat, k: nat)
    requires forall i :: 0 <= i < |ops| ==> ValidOp(ops[i])
    requires j < k < |ops| && PagesMapped(ops, j).MapPages? && PagesMapped(ops, k).MapPages?
    ensures PagesMapped(ops, j).start + PagesMapped(ops, j).count <= PagesMapped(ops, k).start
  {
    var hj, hk := Run(InitHeap(), ops[..j]), Run(InitHeap(), ops[..k]);
    LimitAccounting(ops[..j]);
    LimitAccounting(ops[..k]);
    MissGrows(hj, ops[j].rgid, ops[j].size, MissedSizes(ops[..j]));
    MissGrows(hk, ops[k].rgid, ops[k].size, MissedSizes(ops[..k]));
    AlignFacts(ops[j].size);
    assert ops[..j + 1][..j] == ops[..j] && ops[..j + 1][j] == ops[j];
    LimitGrows(ops[..k], j + 1);
    assert ops[..k][..j + 1] == ops[..j + 1];
  }

  /**
    The break moves twice on growth, so a new region need not lie below the limit.  It does exactly when the
    slack of its last page covers the raw sizes of all earlier misses.
  */
  lemma RegionBelowLimitIff(ops: seq<Op>, rgid: int, size: nat)
    requires forall i :: 0 <= i < |ops| ==> ValidOp(ops[i])
    requires ValidOp(AllocOp(rgid, size)) && Misses(Run(InitHeap(), ops), AllocOp(rgid, size))
    ensures var h' := Alloc(Run(InitHeap(), ops), rgid, size).0;
            h'.syms[rgid].end <= h'.vmEnd <==> Sum(MissedSizes(ops)) + size <= Align(size)
  {
    LimitAccounting(ops);
    MissGrows(Run(InitHeap(), ops), rgid, size, MissedSizes(ops));
  }

  lemma MissedSomething(ops: seq<Op>)
    requires (forall i :: 0 <= i < |ops| ==> ValidOp(ops[i])) && MissedSizes(ops) != []
    ensures Sum(MissedSizes(ops)) > 0
  {
    LimitAccounting(ops);
  }

  lemma AlignWhole(size: nat)
    requires size % PAGE_SIZE == 0
    ensures Align(size) == size
  {
  }

  /** After a first miss, no request of whole pages that misses again gets a region below the limit. */
  lemma WholePagesBeyondLimit(ops: seq<Op>, rgid: int, size: nat)
    requires forall i :: 0 <= i < |ops| ==> ValidOp(ops[i])
    requires ValidOp(AllocOp(rgid, size)) && Misses(Run(InitHeap(), ops), AllocOp(rgid, size))
    requires MissedSizes(ops) != [] && size % PAGE_SIZE == 0
    ensures var h' := Alloc(Run(InitHeap(), ops), rgid, size).0; h'.syms[rgid].end > h'.vmEnd
  {
    MissedSomething(ops);
    AlignWhole(size);
    RegionBelowLimitIff(ops, rgid, size);
  }

  /** The very first request of a process misses, and leaves the free list as it was. */
  lemma FirstRequestMisses(a: Op)
    requires ValidOp(a) && a.AllocOp?
    ensures MissedSizes([a]) == [a.size]
    ensures Run(InitHeap(), [a]).free == InitHeap().free
  {
    assert [a][..0] == [];
    assert Carve(InitHeap().free, a.size) == ([Region(0, 0)], None);
    MissGrows(InitHeap(), a.rgid, a.size, []);
  }

  /** So already the second request of a process, if it is for whole pages, gets a region that ends beyond the limit. */
  lemma SecondRequestBeyondLimit(a: Op, b: Op)
    requires ValidOp(a) && a.AllocOp? && ValidOp(b) && b.AllocOp? && b.size % PAGE_SIZE == 0
    ensures var h := Run(InitHeap(), [a, b]); h.syms[b.rgid].end > h.vmEnd
  {
    FirstRequestMisses(a);
    assert [a, b][..1] == [a];
    assert Carve(InitHeap().free, b.size) == ([Region(0, 0)], None);
    WholePagesBeyondLimit([a], b.rgid, b.size);
  }
}
