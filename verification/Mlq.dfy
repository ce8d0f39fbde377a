/**
  The ready queues of src/sched.c and src/queue.c as the source lays them out: an array of 140 queues
  of ten slots each, updated in place, with the static counters of get_mlq_proc.
*/
module Mlq {
  import opened Common
  import opened Sched

  class ReadyQueues {
    const proc: array2<Pcb>
    const size: array<int>
    const slot: array<int>
    var currPrio: int
    var currSlot: int

    ghost predicate Valid()
      reads this, size, slot
    {
      && proc.Length0 == MAX_PRIO && proc.Length1 == MAX_QUEUE_SIZE
      && size.Length == MAX_PRIO && slot.Length == MAX_PRIO && size != slot
      && (forall l :: 0 <= l < MAX_PRIO ==> 0 <= size[l] <= MAX_QUEUE_SIZE)
      && (forall l :: 0 <= l < MAX_PRIO ==> slot[l] == MAX_PRIO - l)
      && 0 <= currPrio < MAX_PRIO && 0 <= currSlot < MAX_PRIO
    }

    /** The queue of one level: the first `n` slots of its row. */
    ghost function Row(l: int, n: int): (q: Queue)
      requires 0 <= l < proc.Length0 && 0 <= n <= proc.Length1
      reads proc
      ensures |q| == n && forall i :: 0 <= i < n ==> q[i] == proc[l, i]
    {
      if n == 0 then [] else Row(l, n - 1) + [proc[l, n - 1]]
    }

    ghost function Level(l: int): (q: Queue)
      requires Valid() && 0 <= l < MAX_PRIO
      reads this, proc, size, slot
      ensures |q| == size[l]
    {
      Row(l, size[l])
    }

    ghost predicate Shows(ls: Levels)
      requires Valid()
      reads this, proc, size, slot
    {
      forall l :: 0 <= l < MAX_PRIO ==> ls[l] == Level(l)
    }

    /** init_scheduler. */
    constructor ()
      ensures Valid() && fresh(proc) && fresh(size) && fresh(slot)
      ensures Shows(EmptyLevels())
    {
      proc := new Pcb[MAX_PRIO, MAX_QUEUE_SIZE]((_, _) => Pcb(0, 0, 0));
      size := new int[MAX_PRIO](_ => 0);
      slot := new int[MAX_PRIO](i => MAX_PRIO - i);
      currPrio, currSlot := 0, 0;
    }

    /** enqueue on level `l`: appends, or does nothing when the array is full. */
    method EnqueueAt(l: int, p: Pcb, ghost ls: Levels)
      requires Valid() && 0 <= l < MAX_PRIO && Shows(ls)
      modifies proc, size
      ensures Valid() && Shows(ls[l := Enqueue(ls[l], p)])
    {
      assert ls[l] == Level(l);
      if size[l] >= MAX_QUEUE_SIZE {
        return;
      }
      proc[l, size[l]] := p;
      size[l] := size[l] + 1;
      assert Level(l) == ls[l] + [p];
      forall k | 0 <= k < MAX_PRIO && k != l ensures ls[k] == Level(k) {
        assert ls[k] == old(Level(k)) == Level(k);
      }
    }

    /** The selection loop of dequeue. */
    method Select(l: int) returns (highest: Pcb, index: int)
      requires Valid() && 0 <= l < MAX_PRIO && Level(l) != []
      ensures 0 <= index < size[l] && IsHighest(Level(l), index) && highest == Level(l)[index]
    {
      ghost var q := Level(l);
      highest := proc[l, 0];
      index := 0;
      var i := 1;
      while i < size[l]
        invariant 1 <= i <= |q|
        invariant 0 <= index < i && highest == q[index]
        invariant IsHighest(q[..i], index)
      {
        if proc[l, i].priority < highest.priority {
          highest := proc[l, i];
          index := i;
        }
        i := i + 1;
      }
      assert q[..i] == q;
    }

    /** The shift-left loop of dequeue. */
    method ShiftLeft(l: int, index: int)
      requires Valid() && 0 <= l < MAX_PRIO && 0 <= index < size[l]
      modifies proc
      ensures Row(l, size[l] - 1) == RemoveAt(old(Level(l)), index)
      ensures forall m :: 0 <= m < MAX_PRIO && m != l ==> Row(m, size[m]) == old(Row(m, size[m]))
    {
      ghost var q := Level(l);
      var i := index;
      while i < size[l] - 1
        invariant index <= i <= |q| - 1
        invariant forall k :: 0 <= k < index ==> proc[l, k] == q[k]
        invariant forall k :: index <= k < i ==> proc[l, k] == q[k + 1]
        invariant forall k :: i <= k < |q| ==> proc[l, k] == q[k]
        invariant forall m, k :: 0 <= m < MAX_PRIO && m != l && 0 <= k < MAX_QUEUE_SIZE ==>
                    proc[m, k] == old(proc[m, k])
      {
        proc[l, i] := proc[l, i + 1];
        i := i + 1;
      }
    }

    /** Dropping the last slot of row `l`, once the shift has made room there. */
    method Shrink(l: int, ghost ls: Levels, ghost rest: Queue)
      requires Valid() && 0 <= l < MAX_PRIO && size[l] > 0
      requires Row(l, size[l] - 1) == rest
      requires forall k :: 0 <= k < MAX_PRIO && k != l ==> ls[k] == Row(k, size[k])
      modifies size
      ensures Valid() && Shows(ls[l := rest])
    {
      size[l] := size[l] - 1;
    }

    /** dequeue on level `l`. */
    method DequeueAt(l: int, ghost ls: Levels) returns (highest: Pcb)
      requires Valid() && 0 <= l < MAX_PRIO && Shows(ls) && ls[l] != []
      modifies proc, size
      ensures Valid() && highest == ls[l][Highest(ls[l])]
      ensures Shows(ls[l := RemoveAt(ls[l], Highest(ls[l]))])
    {
      assert forall k :: 0 <= k < MAX_PRIO ==> ls[k] == Level(k) == Row(k, size[k]);
      var index;
      highest, index := Select(l);
      HighestIsUnique(ls[l], index, Highest(ls[l]));
      ShiftLeft(l, index);
      Shrink(l, ls, RemoveAt(ls[l], index));
    }

    /** The slot accounting of get_mlq_proc after a process of level `prio` was found. */
    method CountSlot(prio: int)
      requires Valid() && 0 <= prio < MAX_PRIO
      modifies this`currPrio, this`currSlot
      ensures Valid()
    {
      if currPrio == prio {
        currSlot := (currSlot + 1) % slot[prio];
        if currSlot == 0 {
          currPrio := (currPrio + 1) % MAX_PRIO;
          currSlot := 0;
        }
      } else {
        currPrio := prio;
        currSlot := 0;
      }
    }

    /** get_mlq_proc: what it returns depends on the queues alone, never on the slot counters it updates. */
    method GetProc(ghost ls: Levels) returns (r: Option<Pcb>)
      requires Valid() && Shows(ls)
      modifies this, proc, size
      ensures Valid() && r == Get(ls).1 && Shows(Get(ls).0)
    {
      var prio := 0;
      r := None;
      ghost var first := FirstLevel(ls, 0);
      while prio < MAX_PRIO && r == None
        invariant 0 <= prio <= MAX_PRIO && Valid()
        invariant r == None ==> Shows(ls) && prio <= first
        invariant r != None ==> r == Get(ls).1 && Shows(Get(ls).0)
      {
        assert ls[prio] == Level(prio);
        if size[prio] != 0 {
          assert prio == first;
          var p := DequeueAt(prio, ls);
          r := Some(p);
          CountSlot(prio);
        }
        prio := prio + 1;
      }
      if r == None {
        currPrio := 0;
        currSlot := 0;
      }
    }

    /** put_proc and add_proc, which enqueue on the level of the process. */
    method PutProc(p: Pcb, ghost ls: Levels)
      requires Valid() && Shows(ls) && p.prio < MAX_PRIO
      modifies proc, size
      ensures Valid() && Shows(Put(ls, p))
    {
      EnqueueAt(p.prio, p, ls);
    }
  }
}
