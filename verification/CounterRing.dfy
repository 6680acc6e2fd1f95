/** The ring buffer of data_structure/queue_linear_pointer.c: two free-running unsigned 32-bit
    counters, reduced modulo the number of slots at every use. */
module CounterRing {
  import opened Bytes
  import opened Wrappers

  // ---------- the queue as a value ----------

  /** Where a counter points in `n` slots. */
  function Slot(counter: nat, n: nat): (i: nat)
    requires n > 0
    ensures i < n
  {
    counter % n
  }

  datatype Ring<T> = Ring(head: uint32, rear: uint32, slots: seq<T>)

  predicate Proper<T>(q: Ring<T>) { 1 <= |q.slots| < 0x8000_0000 }

  predicate Empty<T>(q: Ring<T>) { q.rear == q.head }

  predicate Full<T>(q: Ring<T>)
    requires Proper(q)
  {
    !Empty(q) && Slot(q.rear, |q.slots|) == Slot(q.head, |q.slots|)
  }

  function Size<T>(q: Ring<T>): nat
    requires Proper(q)
  {
    var n := |q.slots|;
    if Empty(q) then 0
    else if Slot(q.rear, n) > Slot(q.head, n) then Slot(q.rear, n) - Slot(q.head, n)
    else n - Slot(q.head, n) + Slot(q.rear, n)
  }

  function Next(counter: uint32): uint32 { (counter + 1) % TWO_32 }

  datatype Op<T> = Push(x: T) | Pop | AskSize
  datatype Reply<T> = Returned(ret: int) | Popped(item: Option<T>) | SizeIs(n: nat)

  function Step<T>(q: Ring<T>, op: Op<T>): (r: (Ring<T>, Reply<T>))
    requires Proper(q)
    ensures |r.0.slots| == |q.slots|
  {
    match op
    case Push(x) =>
      if Full(q) then (q, Returned(-1))
      else (q.(slots := q.slots[Slot(q.rear, |q.slots|) := x], rear := Next(q.rear)), Returned(0))
    case Pop =>
      if Empty(q) then (q, Popped(None))
      else (q.(head := Next(q.head)), Popped(Some(q.slots[Slot(q.head, |q.slots|)])))
    case AskSize => (q, SizeIs(Size(q)))
  }

  function After<T>(q: Ring<T>, ops: seq<Op<T>>): (r: Ring<T>)
    requires Proper(q)
    ensures |r.slots| == |q.slots|
  {
    if ops == [] then q else Step(After(q, ops[..|ops| - 1]), ops[|ops| - 1]).0
  }

  function Replies<T>(q: Ring<T>, ops: seq<Op<T>>): seq<Reply<T>>
    requires Proper(q)
  {
    if ops == [] then []
    else
      var before := ops[..|ops| - 1];
      Replies(q, before) + [Step(After(q, before), ops[|ops| - 1]).1]
  }

  // ---------- what it should be: a FIFO of bounded capacity ----------

  function FifoStep<T>(f: seq<T>, cap: nat, op: Op<T>): (seq<T>, Reply<T>) {
    match op
    case Push(x) => if |f| >= cap then (f, Returned(-1)) else (f + [x], Returned(0))
    case Pop => if f == [] then (f, Popped(None)) else (f[1..], Popped(Some(f[0])))
    case AskSize => (f, SizeIs(|f|))
  }

  function FifoAfter<T>(f: seq<T>, cap: nat, ops: seq<Op<T>>): seq<T> {
    if ops == [] then f else FifoStep(FifoAfter(f, cap, ops[..|ops| - 1]), cap, ops[|ops| - 1]).0
  }

  function FifoReplies<T>(f: seq<T>, cap: nat, ops: seq<Op<T>>): seq<Reply<T>> {
    if ops == [] then []
    else
      var before := ops[..|ops| - 1];
      FifoReplies(f, cap, before) + [FifoStep(FifoAfter(f, cap, before), cap, ops[|ops| - 1]).1]
  }

  /** How many pushes of a run are stored; a refused push does not count. */
  function Stored<T>(cap: nat, ops: seq<Op<T>>): nat {
    if ops == [] then 0
    else
      var before := ops[..|ops| - 1];
      Stored(cap, before) + if ops[|ops| - 1].Push? && |FifoAfter([], cap, before)| < cap then 1 else 0
  }

  // ---------- modular arithmetic ----------

  lemma {:induction false} ModUnique(x: int, n: nat, k: int, r: nat)
    requires n > 0 && r < n && x == n * k + r
    ensures x % n == r
  {
    var d := k - x / n;
    assert x == n * (x / n) + x % n;
    assert n * d == x % n - r by {
      assert n * d == n * k - n * (x / n);
    }
    assert d < 1;
    assert d > -1;
  }

  /** Going at most once around a ring of `n` slots. */
  lemma {:induction false} ModAround(c: nat, i: nat, n: nat)
    requires n > 0 && i <= n
    ensures Slot(c + i, n) == if Slot(c, n) + i < n then Slot(c, n) + i else Slot(c, n) + i - n
  {
    var k := c / n;
    assert c == n * k + c % n;
    if c % n + i < n {
      ModUnique(c + i, n, k, c % n + i);
    } else {
      assert n * (k + 1) == n * k + n;
      if c % n + i - n < n {
        ModUnique(c + i, n, k + 1, c % n + i - n);
      }
    }
  }

  /** A counter that wraps at 2^32 still finds its slot when the ring size divides 2^32. */
  lemma {:induction false} WrappedSlot(c: nat, n: nat)
    requires n > 0
    requires TWO_32 % n == 0 || c < TWO_32
    ensures Slot(c % TWO_32, n) == Slot(c, n)
  {
    if c >= TWO_32 {
      var r, turns, m := c % TWO_32, c / TWO_32, TWO_32 / n;
      assert TWO_32 == n * m;
      assert c == n * (m * turns) + r by {
        assert n * (m * turns) == TWO_32 * turns;
      }
      assert r == n * (r / n) + r % n;
      assert c == n * (m * turns + r / n) + r % n by {
        assert n * (m * turns + r / n) == n * (m * turns) + n * (r / n);
      }
      ModUnique(c, n, m * turns + r / n, r % n);
    }
  }

  lemma NextCounter(c: nat)
    ensures Next(c % TWO_32) == (c + 1) % TWO_32
  {
  }

  // ---------- the refinement ----------

  /** The counters may be taken as unbounded: they have not wrapped, or wrapping is harmless. */
  predicate Harmless(n: nat, stored: nat)
    requires n > 0
  {
    TWO_32 % n == 0 || stored < TWO_32
  }

  /** `q` holds the items `f`, after `popped` successful pops. */
  ghost predicate Holds<T>(q: Ring<T>, f: seq<T>, popped: nat) {
    && Proper(q) && |f| <= |q.slots|
    && Harmless(|q.slots|, popped + |f|)
    && q.head == popped % TWO_32 && q.rear == (popped + |f|) % TWO_32
    && forall i :: 0 <= i < |f| ==> q.slots[Slot(popped + i, |q.slots|)] == f[i]
  }

  /** Full and the size from the two slots. */
  lemma SizeFromSlots<T>(q: Ring<T>, items: nat)
    requires Proper(q) && items <= |q.slots| && (Empty(q) <==> items == 0)
    requires Slot(q.rear, |q.slots|)
          == if Slot(q.head, |q.slots|) + items < |q.slots| then Slot(q.head, |q.slots|) + items
             else Slot(q.head, |q.slots|) + items - |q.slots|
    ensures Full(q) <==> items == |q.slots|
    ensures Size(q) == items
  {
    hide Slot, Empty;
  }

  /** A nonempty ring's counters differ, because it holds fewer than 2^32 items. */
  lemma EmptyCounters(popped: nat, items: nat)
    requires items < TWO_32
    ensures (popped + items) % TWO_32 == popped % TWO_32 <==> items == 0
  {
  }

  /** Full, empty and the size, all computed from remainders, tell the truth. */
  lemma {:induction false} HeldCounters<T>(q: Ring<T>, f: seq<T>, popped: nat)
    requires Holds(q, f, popped)
    ensures Empty(q) <==> f == []
    ensures Full(q) <==> |f| == |q.slots|
    ensures Size(q) == |f|
    ensures Slot(q.head, |q.slots|) == Slot(popped, |q.slots|)
    ensures Slot(q.rear, |q.slots|) == Slot(popped + |f|, |q.slots|)
  {
    EmptyCounters(popped, |f|);
    assert Proper(q) && Harmless(|q.slots|, popped) && Harmless(|q.slots|, popped + |f|);
    assert q.head == popped % TWO_32 && q.rear == (popped + |f|) % TWO_32 && |f| <= |q.slots|;
    assert Empty(q) <==> f == [];
    hide Holds, Slot, Size, Full, Empty;
    WrappedSlot(popped, |q.slots|);
    WrappedSlot(popped + |f|, |q.slots|);
    ModAround(popped, |f|, |q.slots|);
    hide *;
    SizeFromSlots(q, |f|);
  }

  lemma {:induction false} PushHolds<T>(q: Ring<T>, f: seq<T>, popped: nat, x: T)
    requires Holds(q, f, popped) && |f| < |q.slots|
    requires Harmless(|q.slots|, popped + |f| + 1)
    ensures Holds(Step(q, Push(x)).0, f + [x], popped)
  {
    hide Slot;
    HeldCounters(q, f, popped);
    var n, r := |q.slots|, Step(q, Push(x)).0;
    NextCounter(popped + |f|);
    hide Next;
    ModAround(popped, |f|, n);
    forall i | 0 <= i < |f| + 1 ensures r.slots[Slot(popped + i, n)] == (f + [x])[i] {
      ModAround(popped, i, n);
    }
  }

  lemma {:induction false} PopHolds<T>(q: Ring<T>, f: seq<T>, popped: nat)
    requires Holds(q, f, popped) && f != []
    ensures Holds(Step(q, Pop).0, f[1..], popped + 1)
    ensures Step(q, Pop).1 == Popped(Some(f[0]))
  {
    hide Slot;
    HeldCounters(q, f, popped);
    var n, r := |q.slots|, Step(q, Pop).0;
    NextCounter(popped);
    hide Next;
    assert popped + 1 + |f[1..]| == popped + |f|;
    assert q.slots[Slot(popped + 0, n)] == f[0];
    forall i | 0 <= i < |f| - 1 ensures r.slots[Slot(popped + 1 + i, n)] == f[1..][i] {
      assert q.slots[Slot(popped + (i + 1), n)] == f[i + 1];
    }
  }

  /** A new queue of `size` slots, holding arbitrary values. */
  predicate Fresh<T>(q: Ring<T>) { Proper(q) && q.head == 0 && q.rear == 0 }

  lemma {:induction false} RunHolds<T>(q: Ring<T>, ops: seq<Op<T>>) returns (popped: nat)
    requires Fresh(q) && Harmless(|q.slots|, Stored(|q.slots|, ops))
    ensures Holds(After(q, ops), FifoAfter([], |q.slots|, ops), popped)
    ensures popped + |FifoAfter([], |q.slots|, ops)| == Stored(|q.slots|, ops)
    ensures Replies(q, ops) == FifoReplies([], |q.slots|, ops)
    decreases |ops|
  {
    if ops == [] {
      return 0;
    }
    var before, op := ops[..|ops| - 1], ops[|ops| - 1];
    popped := RunHolds(q, before);
    var r, f := After(q, before), FifoAfter([], |q.slots|, before);
    HeldCounters(r, f, popped);
    match op
    case Push(x) =>
      if |f| < |q.slots| {
        PushHolds(r, f, popped, x);
      }
    case Pop =>
      if f != [] {
        PopHolds(r, f, popped);
        popped := popped + 1;
      }
    case AskSize =>
  }

  /** The ring answers every run of pushes, pops and size queries like a FIFO of `node_size` items,
      for ever if `node_size` divides 2^32, and otherwise over all runs that store fewer than 2^32 items. */
  lemma {:induction false} RefinesFifo<T>(q: Ring<T>, ops: seq<Op<T>>)
    requires Fresh(q) && Harmless(|q.slots|, Stored(|q.slots|, ops))
    ensures Replies(q, ops) == FifoReplies([], |q.slots|, ops)
  {
    var _ := RunHolds(q, ops);
  }

  // ---------- the bound is sharp ----------

  lemma SameSlot(a: nat, b: nat, n: nat)
    requires n > 0 && b <= a
    ensures Slot(a, n) == Slot(b, n) <==> (a - b) % n == 0
  {
    var d := a / n - b / n;
    assert a == n * (a / n) + a % n && b == n * (b / n) + b % n;
    assert n * d == n * (a / n) - n * (b / n);
    if Slot(a, n) == Slot(b, n) {
      ModUnique(a - b, n, d, 0);
    } else if (a - b) % n == 0 {
      var m := (a - b) / n;
      assert a - b == n * m;
      assert n * (m + b / n) == n * m + n * (b / n);
      ModUnique(a, n, m + b / n, b % n);
    }
  }

  /** In any state of the counters, wrapped or not, the reported size is the number of items exactly
      when the ring size divides 2^32 or both counters have wrapped equally often. */
  lemma SizeRightIff<T>(q: Ring<T>, popped: nat, items: nat)
    requires Proper(q) && items <= |q.slots|
    requires q.head == popped % TWO_32 && q.rear == (popped + items) % TWO_32
    ensures Size(q) == items <==> TWO_32 % |q.slots| == 0 || popped / TWO_32 == (popped + items) / TWO_32
  {
    hide Slot;
    var n, h := |q.slots|, q.head;
    if items > 0 {
      ModAround(h, Size(q), n);
      ModAround(h, items, n);
      assert Size(q) == items <==> Slot(h + items, n) == Slot(q.rear, n);
      if popped / TWO_32 == (popped + items) / TWO_32 {
        assert q.rear == h + items;
      } else {
        assert h + items == q.rear + TWO_32;
        SameSlot(q.rear + TWO_32, q.rear, n);
      }
    }
  }

  /** `k` times a push followed by a pop. */
  function Cycles<T>(x: T, k: nat): seq<Op<T>> {
    if k == 0 then [] else Cycles(x, k - 1) + [Push(x), Pop]
  }

  function ThenPushes<T>(start: seq<Op<T>>, x: T, k: nat): seq<Op<T>> {
    if k == 0 then start else ThenPushes(start, x, k - 1) + [Push(x)]
  }

  lemma AfterSnoc<T>(q: Ring<T>, ops: seq<Op<T>>, op: Op<T>)
    requires Proper(q)
    ensures After(q, ops + [op]) == Step(After(q, ops), op).0
    ensures Stored(|q.slots|, ops + [op])
         == Stored(|q.slots|, ops) + if op.Push? && |FifoAfter([], |q.slots|, ops)| < |q.slots| then 1 else 0
    ensures FifoAfter([], |q.slots|, ops + [op]) == FifoStep(FifoAfter([], |q.slots|, ops), |q.slots|, op).0
    ensures Replies(q, ops + [op]) == Replies(q, ops) + [Step(After(q, ops), op).1]
    ensures FifoReplies([], |q.slots|, ops + [op])
         == FifoReplies([], |q.slots|, ops) + [FifoStep(FifoAfter([], |q.slots|, ops), |q.slots|, op).1]
  {
    assert (ops + [op])[..|ops|] == ops;
  }

  /** After `ops` the ring's counters are `head` and `rear`, while a FIFO would hold `items` items. */
  ghost predicate Reaches<T>(q: Ring<T>, ops: seq<Op<T>>, head: uint32, rear: uint32, items: nat, stored: nat)
    requires Proper(q)
  {
    && After(q, ops).head == head && After(q, ops).rear == rear
    && |FifoAfter([], |q.slots|, ops)| == items && Stored(|q.slots|, ops) == stored
  }

  lemma PushReaches<T>(q: Ring<T>, ops: seq<Op<T>>, x: T, head: uint32, rear: uint32, items: nat, stored: nat)
    requires Proper(q) && Reaches(q, ops, head, rear, items, stored) && items < |q.slots|
    requires rear == head || Slot(rear, |q.slots|) != Slot(head, |q.slots|)
    ensures Reaches(q, ops + [Push(x)], head, Next(rear), items + 1, stored + 1)
  {
    AfterSnoc(q, ops, Push(x));
    hide Slot, Next;
  }

  lemma PopReaches<T>(q: Ring<T>, ops: seq<Op<T>>, head: uint32, rear: uint32, items: nat, stored: nat)
    requires Proper(q) && Reaches(q, ops, head, rear, items, stored) && items > 0 && head != rear
    ensures Reaches(q, ops + [Pop], Next(head), rear, items - 1, stored)
  {
    AfterSnoc(q, ops, Pop);
    hide Slot, Next;
  }

  lemma {:induction false} CyclesRun<T>(q: Ring<T>, x: T, k: nat)
    requires Fresh(q) && k < TWO_32
    ensures Reaches(q, Cycles(x, k), k, k, 0, k)
  {
    if k > 0 {
      var ops := Cycles(x, k - 1);
      assert ops + [Push(x)] + [Pop] == Cycles(x, k);
      assert Next(k - 1) == k && Proper(q);
      hide Reaches, Next, Cycles, Proper;
      CyclesRun(q, x, k - 1);
      PushReaches(q, ops, x, k - 1, k - 1, 0, k - 1);
      PopReaches(q, ops + [Push(x)], k - 1, k, 1, k);
    }
  }

  /** From counters at a multiple of `n` short of 2^32, `k` pushes go in. */
  lemma {:induction false} FillRun<T>(q: Ring<T>, x: T, c: nat, k: nat)
    requires Fresh(q) && Slot(c, |q.slots|) == 0
    requires k < |q.slots| && c + k < TWO_32
    ensures Reaches(q, ThenPushes(Cycles(x, c), x, k), c, c + k, k, c + k)
  {
    hide Slot, Reaches, Cycles, After;
    if k == 0 {
      assert ThenPushes(Cycles(x, c), x, 0) == Cycles(x, c);
      hide *;
      CyclesRun(q, x, c);
    } else {
      var ops := ThenPushes(Cycles(x, c), x, k - 1);
      assert ThenPushes(Cycles(x, c), x, k) == ops + [Push(x)];
      assert Proper(q) && Next(c + k - 1) == c + k;
      hide *;
      FillRun(q, x, c, k - 1);
      FillPush(q, x, ops, c, k - 1);
    }
  }

  lemma FillPush<T>(q: Ring<T>, x: T, ops: seq<Op<T>>, c: nat, k: nat)
    requires Proper(q) && Slot(c, |q.slots|) == 0 && k < |q.slots| && c + k < TWO_32
    requires Reaches(q, ops, c, c + k, k, c + k)
    ensures Reaches(q, ops + [Push(x)], c, Next(c + k), k + 1, c + k + 1)
  {
    hide Slot, Reaches;
    ModAround(c, k, |q.slots|);
    PushReaches(q, ops, x, c, c + k, k, c + k);
  }

  /** A ring whose two counters are different multiples of `n` says it is full. */
  lemma WrappedIsFull<T>(q: Ring<T>, ops: seq<Op<T>>, c: uint32, items: nat, stored: nat)
    requires Proper(q) && Reaches(q, ops, c, 0, items, stored) && c != 0 && items < |q.slots|
    requires Slot(c, |q.slots|) == 0 && Slot(0, |q.slots|) == 0
    ensures Full(After(q, ops)) && Size(After(q, ops)) == |q.slots|
    ensures Replies(q, ops + [AskSize]) != FifoReplies([], |q.slots|, ops + [AskSize])
  {
    AfterSnoc(q, ops, AskSize);
    hide Slot;
    var r, f := After(q, ops), FifoAfter([], |q.slots|, ops);
    assert Step(r, AskSize).1 == SizeIs(|q.slots|) && FifoStep(f, |q.slots|, AskSize).1 == SizeIs(items);
    var ring, fifo := Replies(q, ops + [AskSize]), FifoReplies([], |q.slots|, ops + [AskSize]);
    hide *;
    assert ring[|ring| - 1] == SizeIs(|q.slots|) && fifo[|fifo| - 1] == SizeIs(items);
  }

  /** What is left of 2^32 modulo `n`, and the multiple of `n` below it. */
  lemma WrapArithmetic(n: nat) returns (c: nat, k: nat)
    requires n > 0 && TWO_32 % n != 0
    ensures c + k == TWO_32 && 0 < k < n && k == Slot(TWO_32, n) && Slot(c, n) == 0 && Slot(0, n) == 0
  {
    k := TWO_32 % n;
    c := TWO_32 - k;
    assert TWO_32 == n * (TWO_32 / n) + k;
    ModUnique(c, n, TWO_32 / n, 0);
    ModUnique(0, n, 0, 0);
  }

  /** With any other ring size some run goes wrong at the 2^32nd item: the queue then says it is
      full, and reports `n` items, while it holds only 2^32 mod n. */
  lemma {:induction false} WrapBreaksSize<T>(q: Ring<T>, x: T) returns (ops: seq<Op<T>>)
    requires Fresh(q) && TWO_32 % |q.slots| != 0
    ensures Stored(|q.slots|, ops) == TWO_32
    ensures Full(After(q, ops)) && Size(After(q, ops)) == |q.slots|
    ensures |FifoAfter([], |q.slots|, ops)| == Slot(TWO_32, |q.slots|) < |q.slots|
    ensures Replies(q, ops + [AskSize]) != FifoReplies([], |q.slots|, ops + [AskSize])
  {
    var c, k := WrapArithmetic(|q.slots|);
    assert Proper(q) && Next(c + k - 1) == 0 && c > 0;
    var filled := ThenPushes(Cycles(x, c), x, k - 1);
    ops := filled + [Push(x)];
    assert forall p :: Reaches(q, p, c, 0, k, TWO_32) ==>
      Stored(|q.slots|, p) == TWO_32 && |FifoAfter([], |q.slots|, p)| == k;
    hide *;
    FillRun(q, x, c, k - 1);
    FillPush(q, x, filled, c, k - 1);
    WrappedIsFull(q, ops, c, k, TWO_32);
  }

  /** So the ring is a FIFO for ever exactly when its size divides 2^32. */
  lemma {:induction false} FifoForeverIff<T(!new)>(q: Ring<T>, x: T)
    requires Fresh(q)
    ensures (forall ops: seq<Op<T>> :: Replies(q, ops) == FifoReplies([], |q.slots|, ops))
       <==> TWO_32 % |q.slots| == 0
  {
    if TWO_32 % |q.slots| == 0 {
      forall ops: seq<Op<T>> ensures Replies(q, ops) == FifoReplies([], |q.slots|, ops) {
        RefinesFifo(q, ops);
      }
    } else {
      var ops := WrapBreaksSize(q, x);
    }
  }

  // ---------- the C functions ----------

  class PointerQueue<T(0)> {
    var head: uint32
    var rear: uint32
    var data: array?<T>
    var nodeSize: uint32

    /** A queue whose create_queue has not been called. */
    constructor ()
      ensures data == null && Valid()
    {
      head, rear, data, nodeSize := 0, 0, null, 0;
    }

    ghost predicate Valid() reads this {
      data != null ==> data.Length == nodeSize && 1 <= nodeSize < 0x8000_0000
    }

    ghost function View(): (q: Ring<T>)
      requires Valid() && data != null
      reads this, data
      ensures Proper(q)
    {
      Ring(head, rear, data[..])
    }

    method EmptyQueue() returns (b: bool)
      requires Valid()
      ensures b == (data == null || Empty(View()))
    {
      if data == null {
        return true;
      }
      return rear == head;
    }

    method FullQueue() returns (b: bool)
      requires Valid()
      ensures b == (data == null || Full(View()))
    {
      if data == null {
        return true;
      }
      var empty := EmptyQueue();
      if empty {
        return false;
      }
      return rear % nodeSize == head % nodeSize;
    }

    method GetQueueSize() returns (n: int)
      requires Valid()
      ensures n == if data == null then 0 else Size(View())
    {
      if data == null {
        return 0;
      }
      var empty := EmptyQueue();
      if empty {
        return 0;
      }
      return if rear % nodeSize > head % nodeSize then rear % nodeSize - head % nodeSize
             else nodeSize - head % nodeSize + rear % nodeSize;
    }

    method CreateQueue(size: int) returns (ret: int)
      requires Valid() && size < 0x8000_0000  // an int
      modifies this
      ensures Valid()
      ensures size <= 0 ==> ret == -1 && head == old(head) && rear == old(rear) && data == old(data)
      ensures size > 0 ==> ret == 0 && data != null && fresh(data) && Fresh(View()) && nodeSize == size
    {
      if 0 >= size {
        return -1;
      }
      head, rear := 0, 0;
      data := new T[size];
      nodeSize := size;
      return 0;
    }

    method PushQueue(x: T) returns (ret: int)
      requires Valid()
      modifies this, data
      ensures Valid() && data == old(data)
      ensures data == null ==> ret == -1
      ensures data != null ==> (View(), Returned(ret)) == Step(old(View()), Push(x))
    {
      var full := FullQueue();
      if full {
        return -1;
      }
      data[rear % nodeSize] := x;
      rear := (rear + 1) % TWO_32;
      return 0;
    }

    method PopQueue() returns (ret: int, item: Option<T>)
      requires Valid()
      modifies this`head
      ensures Valid() && data == old(data)
      ensures ret == if item.None? then -1 else 0
      ensures data == null ==> item == None
      ensures data != null ==> (View(), Popped(item)) == Step(old(View()), Pop)
    {
      var empty := EmptyQueue();
      if empty {
        return -1, None;
      }
      item := Some(data[head % nodeSize]);
      head := (head + 1) % TWO_32;
      return 0, item;
    }
  }
}
