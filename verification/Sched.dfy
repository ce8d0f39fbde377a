/**
  The multi-level ready queues of src/sched.c and src/queue.c (MLQ build).

  The source keeps 140 arrays of at most ten control blocks.  Enqueueing appends to the array of the
  process's `prio` and silently drops the process when the array is full; dequeueing scans the levels
  in order, picks the first block of the smallest `priority` and shifts the rest left.  This module
  defines those operations on values and proves that, as long as nothing is dropped, they behave as
  one line of ready processes in arrival order from which `get_proc` removes the smallest by
  (prio, priority, arrival).
*/
module Sched {
  import opened Common

  const MAX_PRIO := 140
  const MAX_QUEUE_SIZE := 10

  /** The fields of a control block the scheduler looks at; they never change while it is queued. */
  datatype Pcb = Pcb(pid: nat, prio: nat, priority: nat)

  type Queue = seq<Pcb>

  // ----- one queue

  function Enqueue(q: Queue, p: Pcb): Queue {
    if |q| >= MAX_QUEUE_SIZE then q else q + [p]
  }

  function RemoveAt<T>(q: seq<T>, i: nat): seq<T>
    requires i < |q|
  {
    q[..i] + q[i + 1..]
  }

  /** `i` is the first position of the smallest `priority` in `q`. */
  predicate IsHighest(q: Queue, i: nat) {
    && i < |q|
    && (forall j :: 0 <= j < |q| ==> q[i].priority <= q[j].priority)
    && (forall j :: 0 <= j < i ==> q[i].priority < q[j].priority)
  }

  /** The position the selection loop of `dequeue` ends on. */
  function Highest(q: Queue): (i: nat)
    requires q != []
    ensures IsHighest(q, i)
  {
    if |q| == 1 then 0
    else
      var last := |q| - 1;
      var i := Highest(q[..last]);
      if q[last].priority < q[i].priority then last else i
  }

  // ----- all levels

  type Levels = ls: seq<Queue> | |ls| == MAX_PRIO witness seq(MAX_PRIO, _ => [])

  function EmptyLevels(): Levels {
    seq(MAX_PRIO, _ => [])
  }

  /** put_mlq_proc and add_mlq_proc; `prio` indexes the array of queues. */
  function Put(ls: Levels, p: Pcb): Levels
    requires p.prio < MAX_PRIO
  {
    ls[p.prio := Enqueue(ls[p.prio], p)]
  }

  /** The first non-empty level at or after `l`, or MAX_PRIO. */
  function FirstLevel(ls: Levels, l: nat): (r: nat)
    requires l <= MAX_PRIO
    ensures l <= r <= MAX_PRIO
    ensures forall k :: l <= k < r ==> ls[k] == []
    ensures r < MAX_PRIO ==> ls[r] != []
    decreases MAX_PRIO - l
  {
    if l == MAX_PRIO || ls[l] != [] then l else FirstLevel(ls, l + 1)
  }

  /** get_mlq_proc: the remaining levels and the process removed, if any. */
  function Get(ls: Levels): (Levels, Option<Pcb>) {
    var l := FirstLevel(ls, 0);
    if l == MAX_PRIO then (ls, None)
    else
      var i := Highest(ls[l]);
      (ls[l := RemoveAt(ls[l], i)], Some(ls[l][i]))
  }

  // ----- the reference: one line in arrival order

  /** `p` goes before `q` by (prio, priority). */
  predicate Before(p: Pcb, q: Pcb) {
    p.prio < q.prio || (p.prio == q.prio && p.priority < q.priority)
  }

  /** `j` is the minimum of `line` by (prio, priority, arrival). */
  predicate IsNext(line: seq<Pcb>, j: nat) {
    && j < |line|
    && (forall i :: 0 <= i < |line| ==> !Before(line[i], line[j]))
    && (forall i :: 0 <= i < j ==> Before(line[j], line[i]))
  }

  lemma NextIsUnique(line: seq<Pcb>, i: nat, j: nat)
    requires IsNext(line, i) && IsNext(line, j)
    ensures i == j
  {
    var p, q := line[i], line[j];
    assert !Before(p, q) && !Before(q, p);
  }

  function Next(line: seq<Pcb>): (j: nat)
    requires line != []
    ensures IsNext(line, j)
  {
    if |line| == 1 then 0
    else
      var last := |line| - 1;
      var j := Next(line[..last]);
      if Before(line[last], line[j]) then last else j
  }

  function LineGet(line: seq<Pcb>): (seq<Pcb>, Option<Pcb>) {
    if line == [] then ([], None) else (RemoveAt(line, Next(line)), Some(line[Next(line)]))
  }

  function OfLevel(line: seq<Pcb>, l: nat): Queue {
    if line == [] then []
    else
      var last := |line| - 1;
      OfLevel(line[..last], l) + (if line[last].prio == l then [line[last]] else [])
  }

  /** Each level holds the processes of its `prio`, in arrival order. */
  ghost predicate Represents(ls: Levels, line: seq<Pcb>) {
    && (forall i :: 0 <= i < |line| ==> line[i].prio < MAX_PRIO)
    && (forall l :: 0 <= l < MAX_PRIO ==> ls[l] == OfLevel(line, l))
  }

  lemma {:induction false} OfLevelConcat(a: seq<Pcb>, b: seq<Pcb>, l: nat)
    ensures OfLevel(a + b, l) == OfLevel(a, l) + OfLevel(b, l)
    decreases |b|
  {
    if b == [] {
      assert a + b == a;
    } else {
      var last := |b| - 1;
      assert (a + b)[..|a + b| - 1] == a + b[..last];
      OfLevelConcat(a, b[..last], l);
    }
  }

  lemma {:induction false} OfLevelMembers(line: seq<Pcb>, l: nat)
    ensures forall p :: p in OfLevel(line, l) <==> p in line && p.prio == l
    decreases |line|
  {
    if line != [] {
      var last := |line| - 1;
      OfLevelMembers(line[..last], l);
      assert line == line[..last] + [line[last]];
    }
  }

  /** Splitting the line at `j` splits each level. */
  lemma OfLevelAt(line: seq<Pcb>, j: nat, l: nat)
    requires j < |line|
    ensures OfLevel(line, l) ==
            OfLevel(line[..j], l) + (if line[j].prio == l then [line[j]] else []) + OfLevel(line[j + 1..], l)
    ensures OfLevel(RemoveAt(line, j), l) == OfLevel(line[..j], l) + OfLevel(line[j + 1..], l)
  {
    assert line == line[..j] + ([line[j]] + line[j + 1..]);
    OfLevelConcat(line[..j], [line[j]] + line[j + 1..], l);
    OfLevelConcat([line[j]], line[j + 1..], l);
    assert [line[j]][..0] == [];
    OfLevelConcat(line[..j], line[j + 1..], l);
  }

  lemma HighestIsUnique(q: Queue, i: nat, j: nat)
    requires IsHighest(q, i) && IsHighest(q, j)
    ensures i == j
  {
    assert q[i].priority == q[j].priority;
  }

  /** No level below that of the next process holds anything. */
  lemma LowerLevelsEmpty(ls: Levels, line: seq<Pcb>, j: nat, l: nat)
    requires Represents(ls, line) && IsNext(line, j) && l < line[j].prio
    ensures ls[l] == []
  {
    assert ls[l] == [] || ls[l][0] in ls[l];
    assert forall p :: p in line ==> !Before(p, line[j]);
    OfLevelMembers(line, l);
  }

  /** Within its level the next process stands where the selection loop ends. */
  lemma NextIsHighest(q: Queue, line: seq<Pcb>, j: nat)
    requires IsNext(line, j) && q == OfLevel(line, line[j].prio)
    ensures q != [] && Highest(q) == |OfLevel(line[..j], line[j].prio)| && q[Highest(q)] == line[j]
  {
    var p, l := line[j], line[j].prio;
    var front := OfLevel(line[..j], l);
    var k := |front|;
    OfLevelAt(line, j, l);
    assert q[k] == p && q[..k] == front;
    OfLevelMembers(line, l);
    OfLevelMembers(line[..j], l);
    forall i | 0 <= i < |q| ensures p.priority <= q[i].priority {
      assert q[i] in line;
      var m :| 0 <= m < |line| && line[m] == q[i];
      assert !Before(line[m], p);
    }
    forall i | 0 <= i < k ensures p.priority < q[i].priority {
      assert q[i] == front[i] && front[i] in line[..j];
      var m :| 0 <= m < j && line[m] == q[i];
      assert Before(p, line[m]);
    }
    assert IsHighest(q, k);
    HighestIsUnique(q, k, Highest(q));
  }

  /** The next process of the line is the block the scan over levels and the selection loop pick. */
  lemma GetPicksNext(ls: Levels, line: seq<Pcb>)
    requires Represents(ls, line) && line != []
    ensures var j := Next(line); var l := line[j].prio; var k := |OfLevel(line[..j], l)|;
            k < |ls[l]| && Get(ls) == (ls[l := RemoveAt(ls[l], k)], Some(line[j]))
  {
    var j := Next(line);
    var l := line[j].prio;
    NextIsHighest(ls[l], line, j);
    forall m | 0 <= m < l ensures ls[m] == [] {
      LowerLevelsEmpty(ls, line, j, m);
    }
    assert FirstLevel(ls, 0) == l;
  }

  /** get_proc on the 140 arrays removes the (prio, priority, arrival)-minimum of the line. */
  lemma GetRefinesLine(ls: Levels, line: seq<Pcb>)
    requires Represents(ls, line)
    ensures Get(ls).1 == LineGet(line).1
    ensures Represents(Get(ls).0, LineGet(line).0)
  {
    if line == [] {
      assert forall l :: 0 <= l < MAX_PRIO ==> ls[l] == [];
    } else {
      GetPicksNext(ls, line);
      forall l | 0 <= l < MAX_PRIO ensures Get(ls).0[l] == OfLevel(RemoveAt(line, Next(line)), l) {
        GetOnLevel(ls, line, l);
      }
    }
  }

  lemma GetOnLevel(ls: Levels, line: seq<Pcb>, l: nat)
    requires Represents(ls, line) && line != [] && l < MAX_PRIO
    ensures Get(ls).0[l] == OfLevel(RemoveAt(line, Next(line)), l)
  {
    GetPicksNext(ls, line);
    OfLevelAt(line, Next(line), l);
    assert ls[l] == OfLevel(line, l);
  }

  /** Enqueueing keeps the correspondence exactly when the level is not full; otherwise the process is lost. */
  lemma PutRefinesLine(ls: Levels, line: seq<Pcb>, p: Pcb)
    requires Represents(ls, line) && p.prio < MAX_PRIO
    ensures |ls[p.prio]| < MAX_QUEUE_SIZE <==> Represents(Put(ls, p), line + [p])
    ensures |ls[p.prio]| >= MAX_QUEUE_SIZE ==> Put(ls, p) == ls
  {
    forall l: nat ensures OfLevel(line + [p], l) == OfLevel(line, l) + (if p.prio == l then [p] else []) {
      assert (line + [p])[..|line|] == line;
    }
    assert OfLevel(line + [p], p.prio) != OfLevel(line, p.prio);
    assert ls[p.prio] == OfLevel(line, p.prio);
    if |ls[p.prio]| >= MAX_QUEUE_SIZE {
      assert Put(ls, p)[p.prio] == OfLevel(line, p.prio);
    }
  }

  // ----- whole histories

  datatype Op = PutOp(p: Pcb) | GetOp

  /** No enqueue of the history meets a full level. */
  predicate Fits(ls: Levels, ops: seq<Op>)
    decreases |ops|
  {
    ops == [] ||
    match ops[0]
    case PutOp(p) => p.prio < MAX_PRIO && |ls[p.prio]| < MAX_QUEUE_SIZE && Fits(Put(ls, p), ops[1..])
    case GetOp => Fits(Get(ls).0, ops[1..])
  }

  /** What the successive calls of get_proc return on the arrays. */
  function LevelsRun(ls: Levels, ops: seq<Op>): seq<Option<Pcb>>
    requires Fits(ls, ops)
    decreases |ops|
  {
    if ops == [] then []
    else match ops[0]
      case PutOp(p) => LevelsRun(Put(ls, p), ops[1..])
      case GetOp => [Get(ls).1] + LevelsRun(Get(ls).0, ops[1..])
  }

  function LineRun(line: seq<Pcb>, ops: seq<Op>): seq<Option<Pcb>>
    decreases |ops|
  {
    if ops == [] then []
    else match ops[0]
      case PutOp(p) => LineRun(line + [p], ops[1..])
      case GetOp => [LineGet(line).1] + LineRun(LineGet(line).0, ops[1..])
  }

  /** For every history without overflow the arrays and the line hand out the same processes. */
  lemma {:induction false} LevelsRefineLine(ls: Levels, line: seq<Pcb>, ops: seq<Op>)
    requires Represents(ls, line) && Fits(ls, ops)
    ensures LevelsRun(ls, ops) == LineRun(line, ops)
    decreases |ops|
  {
    if ops != [] {
      match ops[0]
      case PutOp(p) =>
        PutRefinesLine(ls, line, p);
        LevelsRefineLine(Put(ls, p), line + [p], ops[1..]);
      case GetOp =>
        GetRefinesLine(ls, line);
        LevelsRefineLine(Get(ls).0, LineGet(line).0, ops[1..]);
    }
  }

  // ----- round robin

  predicate SameKey(p: Pcb, q: Pcb) {
    p.prio == q.prio && p.priority == q.priority
  }

  /** How many processes of the same key stand before position `j`. */
  function Ahead(line: seq<Pcb>, j: nat): nat
    requires j < |line|
  {
    CountKey(line[..j], line[j])
  }

  function CountKey(line: seq<Pcb>, p: Pcb): nat {
    if line == [] then 0
    else CountKey(line[..|line| - 1], p) + (if SameKey(line[|line| - 1], p) then 1 else 0)
  }

  function Gets(ops: seq<Op>): nat {
    if ops == [] then 0 else Gets(ops[1..]) + (if ops[0].GetOp? then 1 else 0)
  }

  /** Nothing ready and nothing arriving goes before `p`. */
  predicate NothingSmaller(line: seq<Pcb>, ops: seq<Op>, p: Pcb) {
    && (forall i :: 0 <= i < |line| ==> !Before(line[i], p))
    && (forall i :: 0 <= i < |ops| && ops[i].PutOp? ==> !Before(ops[i].p, p))
  }

  lemma {:induction false} CountKeyZero(line: seq<Pcb>, p: Pcb)
    ensures CountKey(line, p) == 0 <==> forall i :: 0 <= i < |line| ==> !SameKey(line[i], p)
    decreases |line|
  {
    if line != [] {
      CountKeyZero(line[..|line| - 1], p);
    }
  }

  lemma {:induction false} CountKeyConcat(a: seq<Pcb>, b: seq<Pcb>, p: Pcb)
    ensures CountKey(a + b, p) == CountKey(a, p) + CountKey(b, p)
    decreases |b|
  {
    if b == [] {
      assert a + b == a;
    } else {
      assert (a + b)[..|a + b| - 1] == a + b[..|b| - 1];
      CountKeyConcat(a, b[..|b| - 1], p);
    }
  }

  lemma CountKeyRemove(line: seq<Pcb>, m: nat, p: Pcb)
    requires m < |line| && SameKey(line[m], p)
    ensures CountKey(RemoveAt(line, m), p) == CountKey(line, p) - 1
  {
    assert line == line[..m] + ([line[m]] + line[m + 1..]);
    CountKeyConcat(line[..m], line[m + 1..], p);
    CountKeyConcat(line[..m], [line[m]] + line[m + 1..], p);
    CountKeyConcat([line[m]], line[m + 1..], p);
    assert [line[m]][..0] == [];
  }

  /** With equals in front, the next process is one of them. */
  lemma {:induction false} NextIsAnEqual(line: seq<Pcb>, j: nat)
    requires j < |line| && forall i :: 0 <= i < |line| ==> !Before(line[i], line[j])
    requires Ahead(line, j) > 0
    ensures Next(line) < j && SameKey(line[Next(line)], line[j])
  {
    var m := Next(line);
    CountKeyZero(line[..j], line[j]);
    var e :| 0 <= e < j && SameKey(line[..j][e], line[j]);
    assert SameKey(line[e], line[j]) && !Before(line[e], line[m]);
    assert SameKey(line[m], line[j]);
    assert e < m ==> Before(line[m], line[e]);
  }

  /** One call of get_proc serves the process at `j` or moves it one place forward among its equals. */
  lemma {:induction false} GetServesInTurn(line: seq<Pcb>, j: nat)
    requires j < |line| && forall i :: 0 <= i < |line| ==> !Before(line[i], line[j])
    ensures Ahead(line, j) == 0 ==> Next(line) == j
    ensures Ahead(line, j) > 0 ==>
              Next(line) < j && RemoveAt(line, Next(line))[j - 1] == line[j]
              && Ahead(RemoveAt(line, Next(line)), j - 1) == Ahead(line, j) - 1
  {
    if Ahead(line, j) == 0 {
      CountKeyZero(line[..j], line[j]);
      forall i | 0 <= i < j ensures Before(line[j], line[i]) {
        assert line[i] == line[..j][i];
      }
      NextIsUnique(line, j, Next(line));
    } else {
      NextIsAnEqual(line, j);
      var m := Next(line);
      assert RemoveAt(line, m)[..j - 1] == RemoveAt(line[..j], m);
      CountKeyRemove(line[..j], m, line[j]);
    }
  }

  /**
    Round robin: a process with `k` equals in front of it, while nothing smaller is ready or arrives, is
    returned by the (k+1)-th call of get_proc, whatever puts and adds come in between.
  */
  lemma {:induction false} RoundRobin(line: seq<Pcb>, j: nat, ops: seq<Op>)
    requires j < |line| && NothingSmaller(line, ops, line[j]) && Gets(ops) > Ahead(line, j)
    ensures |LineRun(line, ops)| == Gets(ops)
    ensures LineRun(line, ops)[Ahead(line, j)] == Some(line[j])
    decreases |ops|
  {
    LineRunLength(line, ops);
    match ops[0]
    case PutOp(p) =>
      var line' := line + [p];
      assert line'[..j] == line[..j] && line'[j] == line[j];
      RoundRobin(line', j, ops[1..]);
    case GetOp =>
      GetServesInTurn(line, j);
      if Ahead(line, j) > 0 {
        var line' := RemoveAt(line, Next(line));
        assert forall i :: 0 <= i < |line'| ==> line'[i] in line;
        RoundRobin(line', j - 1, ops[1..]);
      }
  }

  lemma {:induction false} LineRunLength(line: seq<Pcb>, ops: seq<Op>)
    ensures |LineRun(line, ops)| == Gets(ops)
    decreases |ops|
  {
    if ops != [] {
      match ops[0]
      case PutOp(p) => LineRunLength(line + [p], ops[1..]);
      case GetOp => LineRunLength(LineGet(line).0, ops[1..]);
    }
  }

  /** Round robin on the arrays themselves. */
  lemma RoundRobinOnLevels(ls: Levels, line: seq<Pcb>, j: nat, ops: seq<Op>)
    requires Represents(ls, line) && Fits(ls, ops)
    requires j < |line| && NothingSmaller(line, ops, line[j]) && Gets(ops) > Ahead(line, j)
    ensures |LevelsRun(ls, ops)| == Gets(ops)
    ensures LevelsRun(ls, ops)[Ahead(line, j)] == Some(line[j])
  {
    LevelsRefineLine(ls, line, ops);
    RoundRobin(line, j, ops);
  }
}
