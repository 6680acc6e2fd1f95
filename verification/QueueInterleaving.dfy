/** common/queue.c under any interleaving of any number of threads: the enqueue lock serializes the
    writers and the dequeue lock the readers, but nothing keeps a writer and a reader apart. Blocks
    have any size, and every memset and memcpy goes cell by cell, in any order. */
module QueueInterleaving {
  import opened Wrappers
  import opened BlockQueue

  /** Where a thread stands inside EnDataQueue or DeDataQueue; `ret` is what it is about to return. */
  datatype Pc =
    | Idle
    | EnLocked | EnNotFull | EnClearing | EnCopying | EnLeaving(ret: int)
    | DeLocked | DeNotEmpty | DeCopying | DeLeaving(ret: int)

  predicate Enqueuing(pc: Pc) {
    pc.EnLocked? || pc.EnNotFull? || pc.EnClearing? || pc.EnCopying? || pc.EnLeaving?
  }

  predicate Dequeuing(pc: Pc) { pc.DeLocked? || pc.DeNotEmpty? || pc.DeCopying? || pc.DeLeaving? }

  /** The shared memory and the threads. Elements are numbered 1, 2, ... in the order in which their
      writers advance `rear`; `enqueued` and `dequeued` count the advances of `rear` and `front`.
      `cells[j][i]` is the element that cell `i` of slot `j` was last copied from, or 0.
      `touched` are the cells that the memset or memcpy of the current writer has done.
      `got` is the buffer of the latest reader: for every cell it has copied, the element it got. */
  datatype State = State(size: nat, front: index, rear: index, enLock: Option<nat>, deLock: Option<nat>,
                         pcs: map<nat, Pc>, cells: seq<seq<nat>>, enqueued: nat, dequeued: nat,
                         touched: set<nat>, got: map<nat, nat>, early: set<nat>)

  function Init(size: nat): State {
    State(size, 0, 0, None, None, map[], seq(3, _ => seq(size, _ => 0)), 0, 0, {}, map[], {})
  }

  function PcOf(s: State, t: nat): Pc { if t in s.pcs then s.pcs[t] else Idle }

  /** A thread's next step: enter one of the functions, go on to the next statement, or let the
      memset or memcpy it is in handle one cell. */
  datatype Action = EnterEn | EnterDe | Advance | Touch(cell: nat)
  datatype Turn = Turn(thread: nat, action: Action)

  predicate Shaped(s: State) { |s.cells| == 3 && forall j :: 0 <= j < 3 ==> |s.cells[j]| == s.size }

  /** Are all cells of a block among `done`? */
  predicate Covers(done: set<nat>, size: nat) { forall i: nat :: i < size ==> i in done }

  function Go(s: State, t: nat, pc: Pc): State { s.(pcs := s.pcs[t := pc]) }

  function Put(cells: seq<seq<nat>>, slot: index, i: nat, v: nat): seq<seq<nat>>
    requires |cells| == 3 && i < |cells[slot]|
  {
    var row: seq<nat> := cells[slot][i := v];
    cells[slot := row]
  }

  /** The position of the thread that holds the enqueue lock, and of the one that holds the other. */
  function WriterPc(s: State): Pc { if s.enLock.None? then Idle else PcOf(s, s.enLock.value) }

  function ReaderPc(s: State): Pc { if s.deLock.None? then Idle else PcOf(s, s.deLock.value) }

  /** Has the writer of element `e` copied cell `i`? Only the newest element can have a writer that
      has not. */
  predicate Arrived(s: State, e: nat, i: nat) {
    !(e == s.enqueued && (WriterPc(s) == EnClearing || (WriterPc(s) == EnCopying && i !in s.touched)))
  }

  /** One step of a thread inside EnDataQueue; a step that its position does not allow changes
      nothing. */
  function EnStep(s: State, t: nat, a: Action): (r: State)
    requires Shaped(s) && Enqueuing(PcOf(s, t))
    ensures Shaped(r) && r.size == s.size
  {
    match PcOf(s, t)
    case EnLocked =>
      if !a.Advance? then s
      else Go(s, t, if IsFull(s.front, s.rear) then EnLeaving(-1) else EnNotFull)
    case EnNotFull =>
      if !a.Advance? then s
      else Go(s, t, EnClearing).(rear := Succ(s.rear), enqueued := s.enqueued + 1, touched := {})
    case EnClearing =>
      if a.Touch? && a.cell < s.size then
        s.(cells := Put(s.cells, s.rear, a.cell, 0), touched := s.touched + {a.cell})
      else if a.Advance? && Covers(s.touched, s.size) then Go(s, t, EnCopying).(touched := {})
      else s
    case EnCopying =>
      if a.Touch? && a.cell < s.size then
        s.(cells := Put(s.cells, s.rear, a.cell, s.enqueued), touched := s.touched + {a.cell})
      else if a.Advance? && Covers(s.touched, s.size) then Go(s, t, EnLeaving(0))
      else s
    case EnLeaving(_) =>
      if a.Advance? then Go(s, t, Idle).(enLock := None) else s
  }

  /** One step of a thread inside DeDataQueue. A cell is copied early when its writer has not copied
      it yet; `early` remembers those cells and nothing else depends on it. */
  function DeStep(s: State, t: nat, a: Action): (r: State)
    requires Shaped(s) && Dequeuing(PcOf(s, t))
    ensures Shaped(r) && r.size == s.size
  {
    match PcOf(s, t)
    case DeLocked =>
      if !a.Advance? then s
      else Go(s, t, if IsEmpty(s.front, s.rear) then DeLeaving(-1) else DeNotEmpty)
    case DeNotEmpty =>
      if !a.Advance? then s
      else Go(s, t, DeCopying).(front := Succ(s.front), dequeued := s.dequeued + 1, got := map[], early := {})
    case DeCopying =>
      if a.Touch? && a.cell < s.size && a.cell !in s.got then
        s.(got := s.got[a.cell := s.cells[s.front][a.cell]],
           early := if Arrived(s, s.dequeued, a.cell) then s.early else s.early + {a.cell})
      else if a.Advance? && Covers(s.got.Keys, s.size) then Go(s, t, DeLeaving(0))
      else s
    case DeLeaving(_) =>
      if a.Advance? then Go(s, t, Idle).(deLock := None) else s
  }

  function Step(s: State, turn: Turn): (r: State)
    requires Shaped(s)
    ensures Shaped(r) && r.size == s.size
  {
    var t, a := turn.thread, turn.action;
    if Enqueuing(PcOf(s, t)) then EnStep(s, t, a)
    else if Dequeuing(PcOf(s, t)) then DeStep(s, t, a)
    else if a.EnterEn? && s.enLock == None then Go(s, t, EnLocked).(enLock := Some(t))
    else if a.EnterDe? && s.deLock == None then Go(s, t, DeLocked).(deLock := Some(t))
    else s
  }

  /** The state after a schedule, from an empty queue of blocks of `size` cells. */
  function Run(size: nat, schedule: seq<Turn>): (r: State)
    ensures Shaped(r) && r.size == size
  {
    if schedule == [] then Init(size)
    else Step(Run(size, schedule[..|schedule| - 1]), schedule[|schedule| - 1])
  }

  // ---------- invariants ----------

  ghost predicate Locking(s: State) {
    && (forall t: nat :: Enqueuing(PcOf(s, t)) <==> s.enLock == Some(t))
    && (forall t: nat :: Dequeuing(PcOf(s, t)) <==> s.deLock == Some(t))
  }

  ghost predicate Counting(s: State) {
    && s.rear == s.enqueued % 3 && s.front == s.dequeued % 3
    && s.dequeued <= s.enqueued <= s.dequeued + 2
    && (WriterPc(s) == EnNotFull ==> s.enqueued < s.dequeued + 2)
    && (WriterPc(s).EnClearing? || WriterPc(s).EnCopying? ==> s.enqueued >= 1)
    && (ReaderPc(s) == DeNotEmpty ==> s.dequeued < s.enqueued)
    && (ReaderPc(s) == DeCopying ==> s.dequeued >= 1)
  }

  /** Every cell that has arrived, of the elements from the one last dequeued up to the newest, is in
      its place. */
  ghost predicate Delivered(s: State)
    requires Shaped(s)
  {
    forall e: nat, i: nat :: s.dequeued <= e <= s.enqueued && e >= 1 && i < s.size && Arrived(s, e, i)
      ==> s.cells[e % 3][i] == e
  }

  /** No cell comes from an element before its writer has copied it. */
  ghost predicate NothingEarly(s: State)
    requires Shaped(s)
  {
    forall j: nat, i: nat :: j < 3 && i < s.size ==> NotEarly(s, j, i)
  }

  predicate NotEarly(s: State, j: nat, i: nat)
    requires Shaped(s) && j < 3 && i < s.size
  {
    s.cells[j][i] <= s.enqueued && (!Arrived(s, s.enqueued, i) ==> s.cells[j][i] < s.enqueued)
  }

  /** A cell in the latest reader's buffer is the element's own exactly when it was not copied early. */
  ghost predicate Recorded(s: State) {
    && (forall i: nat :: i in s.got ==> i < s.size && (s.got[i] == s.dequeued <==> i !in s.early))
    && s.early <= s.got.Keys
    && (ReaderPc(s) == DeLeaving(0) ==> Covers(s.got.Keys, s.size))
  }

  ghost predicate Inv(s: State) {
    Shaped(s) && Locking(s) && Counting(s) && Delivered(s) && NothingEarly(s) && Recorded(s)
  }

  /** The index tests seen through the counters. */
  lemma CountersTellLength(dequeued: nat, enqueued: nat)
    requires dequeued <= enqueued <= dequeued + 2
    ensures Occupied(dequeued % 3, enqueued % 3) == enqueued - dequeued
    ensures IsFull(dequeued % 3, enqueued % 3) <==> enqueued == dequeued + 2
    ensures IsEmpty(dequeued % 3, enqueued % 3) <==> enqueued == dequeued
  {
  }

  /** The thread inside EnDataQueue holds the one lock and not the other. */
  lemma WriterIs(s: State, t: nat)
    requires Locking(s) && Enqueuing(PcOf(s, t))
    ensures s.enLock == Some(t) && s.deLock != Some(t)
  {
  }

  lemma ReaderIs(s: State, t: nat)
    requires Locking(s) && Dequeuing(PcOf(s, t))
    ensures s.deLock == Some(t) && s.enLock != Some(t)
  {
  }

  /** A lock changes hands only between its owner and nobody. */
  lemma MoveKeepsLocking(s: State, r: State, t: nat)
    requires Locking(s)
    requires forall u: nat :: u != t ==> PcOf(r, u) == PcOf(s, u)
    requires r.enLock == s.enLock || (s.enLock in {None, Some(t)} && r.enLock in {None, Some(t)})
    requires r.deLock == s.deLock || (s.deLock in {None, Some(t)} && r.deLock in {None, Some(t)})
    requires Enqueuing(PcOf(r, t)) <==> r.enLock == Some(t)
    requires Dequeuing(PcOf(r, t)) <==> r.deLock == Some(t)
    ensures Locking(r)
  {
    hide Enqueuing, Dequeuing, PcOf;
  }

  lemma EnStepLocking(s: State, t: nat, a: Action)
    requires Inv(s) && Enqueuing(PcOf(s, t))
    ensures Locking(EnStep(s, t, a))
  {
    WriterIs(s, t);
    assert forall u: nat :: u != t ==> PcOf(EnStep(s, t, a), u) == PcOf(s, u);
    MoveKeepsLocking(s, EnStep(s, t, a), t);
  }

  lemma DeStepLocking(s: State, t: nat, a: Action)
    requires Inv(s) && Dequeuing(PcOf(s, t))
    ensures Locking(DeStep(s, t, a))
  {
    ReaderIs(s, t);
    assert forall u: nat :: u != t ==> PcOf(DeStep(s, t, a), u) == PcOf(s, u);
    MoveKeepsLocking(s, DeStep(s, t, a), t);
  }

  lemma EnStepCounting(s: State, t: nat, a: Action)
    requires Inv(s) && Enqueuing(PcOf(s, t))
    ensures Counting(EnStep(s, t, a))
  {
    WriterIs(s, t);
    CountersTellLength(s.dequeued, s.enqueued);
    assert Counting(s) && Succ(s.rear) == (s.enqueued + 1) % 3;
    hide Locking, Delivered, NothingEarly, Recorded, Inv, Occupied, IsFull, IsEmpty, Succ, Put, Covers;
  }

  lemma DeStepCounting(s: State, t: nat, a: Action)
    requires Inv(s) && Dequeuing(PcOf(s, t))
    ensures Counting(DeStep(s, t, a))
  {
    ReaderIs(s, t);
    CountersTellLength(s.dequeued, s.enqueued);
    assert Counting(s) && Succ(s.front) == (s.dequeued + 1) % 3;
    hide Locking, Delivered, NothingEarly, Recorded, Inv, Occupied, IsFull, IsEmpty, Succ, Put, Covers;
  }

  lemma EnStepDelivered(s: State, t: nat, a: Action)
    requires Inv(s) && Enqueuing(PcOf(s, t))
    ensures Delivered(EnStep(s, t, a))
  {
    var r := EnStep(s, t, a);
    WriterIs(s, t);
    assert Counting(s) && Delivered(s);
    hide Locking, NothingEarly, Recorded, Inv, IsFull;
    forall e: nat, i: nat | r.dequeued <= e <= r.enqueued && e >= 1 && i < r.size && Arrived(r, e, i)
      ensures r.cells[e % 3][i] == e
    {
      if e <= s.enqueued && Arrived(s, e, i) {
        assert s.cells[e % 3][i] == e;
      }
    }
  }

  lemma DeStepDelivered(s: State, t: nat, a: Action)
    requires Inv(s) && Dequeuing(PcOf(s, t))
    ensures Delivered(DeStep(s, t, a))
  {
    var r := DeStep(s, t, a);
    ReaderIs(s, t);
    assert Delivered(s);
    assert forall e: nat, i: nat :: Arrived(r, e, i) <==> Arrived(s, e, i);
    assert r.cells == s.cells && r.enqueued == s.enqueued && r.dequeued >= s.dequeued;
    hide Arrived, DeStep, Locking, Counting, NothingEarly, Recorded, Inv;
  }

  lemma EnStepNothingEarly(s: State, t: nat, a: Action)
    requires Inv(s) && Enqueuing(PcOf(s, t))
    ensures NothingEarly(EnStep(s, t, a))
  {
    WriterIs(s, t);
    assert NothingEarly(s) && Counting(s);
    hide Locking, Delivered, Recorded, Inv, IsFull, Succ;
    var r := EnStep(s, t, a);
    forall j: nat, i: nat | j < 3 && i < r.size
      ensures NotEarly(r, j, i)
    {
      assert NotEarly(s, j, i);
    }
  }

  lemma DeStepNothingEarly(s: State, t: nat, a: Action)
    requires Inv(s) && Dequeuing(PcOf(s, t))
    ensures NothingEarly(DeStep(s, t, a))
  {
    var r := DeStep(s, t, a);
    ReaderIs(s, t);
    assert NothingEarly(s);
    assert forall e: nat, i: nat :: Arrived(r, e, i) <==> Arrived(s, e, i);
    assert r.cells == s.cells && r.enqueued == s.enqueued;
    hide Arrived, DeStep, Locking, Counting, Delivered, Recorded, Inv;
    forall j: nat, i: nat | j < 3 && i < r.size
      ensures NotEarly(r, j, i)
    {
      assert NotEarly(s, j, i);
    }
  }

  lemma EnStepRecorded(s: State, t: nat, a: Action)
    requires Inv(s) && Enqueuing(PcOf(s, t))
    ensures Recorded(EnStep(s, t, a))
  {
    WriterIs(s, t);
    assert Recorded(s);
    assert ReaderPc(EnStep(s, t, a)) == ReaderPc(s);
    hide Locking, Counting, Delivered, NothingEarly, Inv;
  }

  /** A cell that has arrived is the element's own, and one that has not cannot be. */
  lemma DeStepRecorded(s: State, t: nat, a: Action)
    requires Inv(s) && Dequeuing(PcOf(s, t))
    ensures Recorded(DeStep(s, t, a))
  {
    ReaderIs(s, t);
    assert Recorded(s) && Counting(s);
    if PcOf(s, t) == DeCopying && a.Touch? && a.cell < s.size {
      assert Arrived(s, s.dequeued, a.cell) ==> s.cells[s.dequeued % 3][a.cell] == s.dequeued by {
        assert Delivered(s);
      }
      assert !Arrived(s, s.dequeued, a.cell) ==> s.cells[s.dequeued % 3][a.cell] < s.dequeued by {
        assert NothingEarly(s) && NotEarly(s, s.dequeued % 3, a.cell);
      }
    }
    hide Locking, Counting, Delivered, NothingEarly, Inv, Arrived, IsEmpty, Succ;
  }

  /** A thread that enters, or waits outside, changes neither the counters nor the memory. */
  lemma EnterChanges(s: State, turn: Turn)
    requires Inv(s) && !Enqueuing(PcOf(s, turn.thread)) && !Dequeuing(PcOf(s, turn.thread))
    ensures var r := Step(s, turn);
            && Locking(r)
            && r == s.(enLock := r.enLock, deLock := r.deLock, pcs := r.pcs)
            && (WriterPc(r) == WriterPc(s) || (WriterPc(s) == Idle && WriterPc(r) == EnLocked))
            && (ReaderPc(r) == ReaderPc(s) || (ReaderPc(s) == Idle && ReaderPc(r) == DeLocked))
  {
    var t, r := turn.thread, Step(s, turn);
    assert s.enLock != Some(t) && s.deLock != Some(t) by {
      assert Locking(s);
    }
    assert forall u: nat :: u != t ==> PcOf(r, u) == PcOf(s, u);
    MoveKeepsLocking(s, r, t);
    hide Locking, Inv, Counting, Delivered, NothingEarly, Recorded, Put, Covers;
  }

  lemma EnterInv(s: State, turn: Turn)
    requires Inv(s) && !Enqueuing(PcOf(s, turn.thread)) && !Dequeuing(PcOf(s, turn.thread))
    ensures Inv(Step(s, turn))
  {
    var r := Step(s, turn);
    EnterChanges(s, turn);
    hide Locking, Step;
    assert Counting(r) && Recorded(r);
    assert forall e: nat, i: nat :: Arrived(r, e, i) <==> Arrived(s, e, i);
    hide Arrived, Counting, Recorded;
    forall j: nat, i: nat | j < 3 && i < r.size
      ensures NotEarly(r, j, i)
    {
      assert NotEarly(s, j, i);
    }
  }

  lemma StepInv(s: State, turn: Turn)
    requires Inv(s)
    ensures Inv(Step(s, turn))
  {
    var t, a := turn.thread, turn.action;
    if Enqueuing(PcOf(s, t)) {
      assert Step(s, turn) == EnStep(s, t, a);
      EnStepLocking(s, t, a);
      EnStepCounting(s, t, a);
      EnStepDelivered(s, t, a);
      EnStepNothingEarly(s, t, a);
      EnStepRecorded(s, t, a);
    } else if Dequeuing(PcOf(s, t)) {
      assert Step(s, turn) == DeStep(s, t, a);
      DeStepLocking(s, t, a);
      DeStepCounting(s, t, a);
      DeStepDelivered(s, t, a);
      DeStepNothingEarly(s, t, a);
      DeStepRecorded(s, t, a);
    } else {
      EnterInv(s, turn);
    }
    hide EnStep, DeStep, Step, Locking, Counting, Delivered, NothingEarly, Recorded;
  }

  /** Whatever the block size and the schedule, the invariant holds. */
  lemma {:induction false} RunInv(size: nat, schedule: seq<Turn>)
    ensures Inv(Run(size, schedule))
  {
    if schedule != [] {
      var before, last := schedule[..|schedule| - 1], schedule[|schedule| - 1];
      RunInv(size, before);
      StepInv(Run(size, before), last);
      assert Run(size, schedule) == Step(Run(size, before), last);
      hide Inv, Step, Run;
    }
  }

  // ---------- what the locks buy ----------

  /** In every reachable state at most one thread is inside each of the two functions, the queue
      holds at most two elements, and the indices are the counters modulo 3. */
  lemma Safety(size: nat, schedule: seq<Turn>, t: nat, u: nat)
    ensures var s := Run(size, schedule);
            && (Enqueuing(PcOf(s, t)) && Enqueuing(PcOf(s, u)) ==> t == u)
            && (Dequeuing(PcOf(s, t)) && Dequeuing(PcOf(s, u)) ==> t == u)
            && s.rear == s.enqueued % 3 && s.front == s.dequeued % 3
            && 0 <= s.enqueued - s.dequeued <= 2
            && Occupied(s.front, s.rear) == s.enqueued - s.dequeued
  {
    RunInv(size, schedule);
    var s := Run(size, schedule);
    CountersTellLength(s.dequeued, s.enqueued);
    assert Locking(s) && Counting(s);
    hide Run, Inv, Delivered, NothingEarly, Recorded, Occupied;
  }

  /** A slot being written and a slot being read are the same only if they are the same element's:
      no writer touches a different element that is being read. */
  lemma NoCrossElementCollision(size: nat, schedule: seq<Turn>, writer: nat, reader: nat)
    requires PcOf(Run(size, schedule), writer).EnClearing? || PcOf(Run(size, schedule), writer).EnCopying?
    requires PcOf(Run(size, schedule), reader) == DeCopying
    ensures var s := Run(size, schedule);
            s.rear == s.front <==> s.enqueued == s.dequeued
  {
    RunInv(size, schedule);
    var s := Run(size, schedule);
    assert Counting(s);
    CountersTellLength(s.dequeued, s.enqueued);
    hide Run, Inv, Locking, Delivered, NothingEarly, Recorded, Occupied, IsFull;
  }

  // ---------- what a reader gets ----------

  /** All that the latest reader has copied is its element's own. */
  ghost predicate Own(s: State) { forall i: nat :: i in s.got ==> s.got[i] == s.dequeued }

  /** In this turn a reader copies a cell that the writer of its element has not copied yet. */
  predicate CopiesEarly(s: State, turn: Turn) {
    && PcOf(s, turn.thread) == DeCopying
    && turn.action.Touch? && turn.action.cell < s.size && turn.action.cell !in s.got
    && !Arrived(s, s.dequeued, turn.action.cell)
  }

  /** No turn of the read of element `e` copies early. */
  ghost predicate NeverEarly(size: nat, schedule: seq<Turn>, e: nat) {
    forall k :: 0 <= k < |schedule| && Run(size, schedule[..k]).dequeued == e ==>
      !CopiesEarly(Run(size, schedule[..k]), schedule[k])
  }

  lemma RunSnoc(size: nat, schedule: seq<Turn>, turn: Turn)
    ensures Run(size, schedule + [turn]) == Step(Run(size, schedule), turn)
  {
    assert (schedule + [turn])[..|schedule|] == schedule;
  }

  lemma StepDequeued(s: State, turn: Turn)
    requires Shaped(s)
    ensures s.dequeued <= Step(s, turn).dequeued
  {
    hide IsFull, IsEmpty, Succ, Put, Covers, Arrived;
  }

  lemma {:induction false} DequeuedGrows(size: nat, schedule: seq<Turn>, k: nat)
    requires k <= |schedule|
    ensures Run(size, schedule[..k]).dequeued <= Run(size, schedule).dequeued
  {
    if k < |schedule| {
      var before, last := schedule[..|schedule| - 1], schedule[|schedule| - 1];
      assert before[..k] == schedule[..k] && schedule == before + [last];
      RunSnoc(size, before, last);
      StepDequeued(Run(size, before), last);
      hide Run, Step;
      DequeuedGrows(size, before, k);
    } else {
      assert schedule[..k] == schedule;
    }
  }

  /** What one turn does to the reader's record. */
  lemma StepEarly(s: State, turn: Turn)
    requires Inv(s)
    ensures var r := Step(s, turn);
            if r.dequeued != s.dequeued then r.dequeued == s.dequeued + 1 && r.early == {}
            else r.early == {} <==> s.early == {} && !CopiesEarly(s, turn)
  {
    hide Inv, Arrived, Put, IsFull, IsEmpty, Succ, Covers;
  }

  lemma NeverEarlySnoc(size: nat, schedule: seq<Turn>, turn: Turn, e: nat)
    ensures NeverEarly(size, schedule + [turn], e)
       <==> NeverEarly(size, schedule, e)
            && (Run(size, schedule).dequeued == e ==> !CopiesEarly(Run(size, schedule), turn))
  {
    hide Run, CopiesEarly;
    var longer, n := schedule + [turn], |schedule|;
    assert longer[..n] == schedule && longer[n] == turn;
    assert forall k :: 0 <= k < n ==> longer[..k] == schedule[..k] && longer[k] == schedule[k];
  }

  /** The read of an element that nobody has begun to read is not early. */
  lemma NotReadYet(size: nat, schedule: seq<Turn>, e: nat)
    requires Run(size, schedule).dequeued < e
    ensures NeverEarly(size, schedule, e)
  {
    hide Run, CopiesEarly;
    forall k | 0 <= k < |schedule| ensures Run(size, schedule[..k]).dequeued < e {
      DequeuedGrows(size, schedule, k);
    }
  }

  lemma {:induction false} EarlyIsHistory(size: nat, schedule: seq<Turn>)
    ensures Run(size, schedule).early == {} <==> NeverEarly(size, schedule, Run(size, schedule).dequeued)
  {
    if schedule == [] {
      hide CopiesEarly, Step;
    } else {
      var before, last := schedule[..|schedule| - 1], schedule[|schedule| - 1];
      assert schedule == before + [last];
      hide Inv, Step, CopiesEarly, NeverEarly;
      RunSnoc(size, before, last);
      RunInv(size, before);
      hide Run;
      EarlyIsHistory(size, before);
      StepEarly(Run(size, before), last);
      NeverEarlySnoc(size, before, last, Run(size, schedule).dequeued);
      if Run(size, schedule).dequeued != Run(size, before).dequeued {
        NotReadYet(size, before, Run(size, schedule).dequeued);
      }
    }
  }

  /** A reader that has finished its copy got its element, whole, exactly when each cell was copied
      after the element's writer had copied that cell. */
  lemma ReadIsCompleteIff(size: nat, schedule: seq<Turn>, reader: nat)
    requires PcOf(Run(size, schedule), reader) == DeLeaving(0)
    ensures var s := Run(size, schedule);
            && Covers(s.got.Keys, size)
            && (Own(s) <==> NeverEarly(size, schedule, s.dequeued))
  {
    RunInv(size, schedule);
    var s := Run(size, schedule);
    EarlyIsHistory(size, schedule);
    ReaderIs(s, reader);
    assert Recorded(s);
    hide Run, Inv, Locking, Counting, Delivered, NothingEarly, NeverEarly, Covers;
    if i :| i in s.early {
      assert i in s.got && s.got[i] != s.dequeued;
    }
  }

  /** Nothing was copied early, and whatever is still to be copied has arrived. */
  ghost predicate Settled(s: State) {
    s.early == {} && forall i: nat :: i < s.size ==> i in s.got || Arrived(s, s.dequeued, i)
  }

  /** What has arrived stays so. */
  lemma StepArrived(s: State, turn: Turn, e: nat, i: nat)
    requires Inv(s) && e <= s.enqueued && i < s.size && Arrived(s, e, i)
    ensures Arrived(Step(s, turn), e, i)
  {
    var t := turn.thread;
    if Enqueuing(PcOf(s, t)) {
      WriterIs(s, t);
      hide Locking, Counting, Delivered, NothingEarly, Recorded, Put, IsFull, Succ, Covers;
    } else if Dequeuing(PcOf(s, t)) {
      ReaderIs(s, t);
      hide Locking, Counting, Delivered, NothingEarly, Recorded, IsEmpty, Succ, Covers;
    } else {
      EnterChanges(s, turn);
      hide Step, Locking, Counting, Delivered, NothingEarly, Recorded;
    }
  }

  lemma StepGot(s: State, turn: Turn)
    requires Inv(s) && Step(s, turn).dequeued == s.dequeued
    ensures s.got.Keys <= Step(s, turn).got.Keys
  {
    hide Inv, IsFull, IsEmpty, Succ, Put, Covers, Arrived;
  }

  lemma StepSettled(s: State, turn: Turn)
    requires Inv(s) && Settled(s) && Step(s, turn).dequeued == s.dequeued
    ensures Settled(Step(s, turn))
  {
    var r := Step(s, turn);
    StepEarly(s, turn);
    StepGot(s, turn);
    assert !CopiesEarly(s, turn) && s.dequeued <= s.enqueued && r.size == s.size;
    hide Step, Locking, Counting, Delivered, NothingEarly, Recorded, Arrived;
    forall i: nat | i < r.size ensures i in r.got || Arrived(r, r.dequeued, i) {
      if i !in s.got {
        StepArrived(s, turn, s.dequeued, i);
      }
    }
  }

  lemma {:induction false} StaysSettled(size: nat, schedule: seq<Turn>, more: seq<Turn>)
    requires Settled(Run(size, schedule))
    requires Run(size, schedule + more).dequeued == Run(size, schedule).dequeued
    ensures Settled(Run(size, schedule + more))
    decreases |more|
  {
    if more == [] {
      assert schedule + more == schedule;
    } else {
      var n := |more| - 1;
      var before := schedule + more[..n];
      assert schedule + more == before + [more[n]];
      RunSnoc(size, before, more[n]);
      assert before[..|schedule|] == schedule && (schedule + more)[..|before|] == before;
      DequeuedGrows(size, before, |schedule|);
      DequeuedGrows(size, schedule + more, |before|);
      RunInv(size, before);
      hide Run, Step, Inv, Settled;
      StaysSettled(size, schedule, more[..n]);
      StepSettled(Run(size, before), more[n]);
    }
  }

  /** A read under way is bound to end well, whatever is scheduled, exactly when it is settled: the
      cells still to be copied have all arrived and none was copied too early. */
  lemma {:induction false} BoundToBeCompleteIff(size: nat, schedule: seq<Turn>, reader: nat)
    requires PcOf(Run(size, schedule), reader) == DeCopying
    ensures (forall more: seq<Turn> ::
               Run(size, schedule + more).dequeued == Run(size, schedule).dequeued
               ==> Own(Run(size, schedule + more)))
       <==> Settled(Run(size, schedule))
  {
    var s := Run(size, schedule);
    RunInv(size, schedule);
    if Settled(s) {
      forall more: seq<Turn> | Run(size, schedule + more).dequeued == s.dequeued
        ensures Own(Run(size, schedule + more))
      {
        StaysSettled(size, schedule, more);
        RunInv(size, schedule + more);
        SettledIsOwn(Run(size, schedule + more));
      }
    } else {
      var more := Unsettling(s, reader);
      assert more == [] ==> schedule + more == schedule;
      if more != [] {
        RunSnoc(size, schedule, more[0]);
        assert more == [more[0]];
      }
      hide Run, Step, Inv, Settled, Own;
      assert !Own(Run(size, schedule + more)) && Run(size, schedule + more).dequeued == s.dequeued;
    }
  }

  lemma SettledIsOwn(s: State)
    requires Inv(s) && Settled(s)
    ensures Own(s)
  {
    assert Recorded(s);
  }

  /** From an unsettled read at most one more turn spoils the buffer. */
  lemma Unsettling(s: State, reader: nat) returns (more: seq<Turn>)
    requires Inv(s) && PcOf(s, reader) == DeCopying && !Settled(s)
    ensures |more| <= 1
    ensures var r := if more == [] then s else Step(s, more[0]);
            !Own(r) && r.dequeued == s.dequeued
  {
    if i :| i in s.early {
      assert Recorded(s) && i in s.got;
      more := [];
    } else {
      var i: nat :| i < s.size && i !in s.got && !Arrived(s, s.dequeued, i);
      more := [Turn(reader, Touch(i))];
      DeStepRecorded(s, reader, Touch(i));
      var r := DeStep(s, reader, Touch(i));
      assert i in r.got && i in r.early;
      assert Recorded(r);
    }
  }

  /** What a caller can arrange: if no writer is in its memset or memcpy for the next element when
      `front` is advanced, the read of that element is complete, whatever happens meanwhile. */
  lemma WriterGoneIsEnough(size: nat, schedule: seq<Turn>, reader: nat, more: seq<Turn>)
    requires PcOf(Run(size, schedule), reader) == DeNotEmpty
    requires var s := Run(size, schedule);
             !(s.enqueued == s.dequeued + 1 && (WriterPc(s) == EnClearing || WriterPc(s) == EnCopying))
    requires Run(size, schedule + [Turn(reader, Advance)] + more).dequeued == Run(size, schedule).dequeued + 1
    ensures Own(Run(size, schedule + [Turn(reader, Advance)] + more))
  {
    var s, advanced := Run(size, schedule), schedule + [Turn(reader, Advance)];
    RunInv(size, schedule);
    RunSnoc(size, schedule, Turn(reader, Advance));
    ReaderIs(s, reader);
    assert Settled(Run(size, advanced)) && Run(size, advanced).dequeued == s.dequeued + 1 by {
      hide Run, Delivered, NothingEarly, Recorded, Put, Covers;
    }
    hide Run, Step, Inv, Settled, Own, Locking;
    StaysSettled(size, advanced, more);
    RunInv(size, advanced + more);
    SettledIsOwn(Run(size, advanced + more));
  }

  // ---------- a torn read ----------

  const EMPTY_SLOTS: seq<seq<nat>> := [[0, 0], [0, 0], [0, 0]]

  /** Writing a cell of the middle slot. */
  lemma PutMiddle(a: seq<nat>, b: seq<nat>, c: seq<nat>, i: nat, v: nat, d: seq<nat>)
    requires i < |b| && d == b[i := v]
    ensures Put([a, b, c], 1, i, v) == [a, d, c]
  {
  }

  /** Writer 1 advances `rear`, and stops before its memset. */
  lemma WriterAdvances() returns (schedule: seq<Turn>)
    ensures Run(2, schedule)
         == State(2, 0, 1, Some(1), None, map[1 := EnClearing], EMPTY_SLOTS, 1, 0, {}, map[], {})
  {
    schedule := [];
    RunSnoc(2, schedule, Turn(1, EnterEn));
    schedule := schedule + [Turn(1, EnterEn)];
    RunSnoc(2, schedule, Turn(1, Advance));
    schedule := schedule + [Turn(1, Advance)];
    RunSnoc(2, schedule, Turn(1, Advance));
    schedule := schedule + [Turn(1, Advance)];
    assert Init(2).cells[0] == [0, 0] && Init(2).cells[1] == [0, 0] && Init(2).cells[2] == [0, 0];
    assert Init(2).cells == EMPTY_SLOTS;
    assert Run(2, schedule).pcs == map[1 := EnClearing];
  }

  /** Reader 2 advances `front` and copies the first cell of the slot. */
  lemma ReaderFollows() returns (schedule: seq<Turn>)
    ensures Run(2, schedule)
         == State(2, 1, 1, Some(1), Some(2), map[1 := EnClearing, 2 := DeCopying], EMPTY_SLOTS, 1, 1, {},
                  map[0 := 0], {0})
  {
    schedule := WriterAdvances();
    hide Run, EnStep;
    RunSnoc(2, schedule, Turn(2, EnterDe));
    schedule := schedule + [Turn(2, EnterDe)];
    RunSnoc(2, schedule, Turn(2, Advance));
    schedule := schedule + [Turn(2, Advance)];
    RunSnoc(2, schedule, Turn(2, Advance));
    schedule := schedule + [Turn(2, Advance)];
    RunSnoc(2, schedule, Turn(2, Touch(0)));
    schedule := schedule + [Turn(2, Touch(0))];
    assert Run(2, schedule).pcs == map[1 := EnClearing, 2 := DeCopying];
  }

  /** Writer 1 does its memset. */
  lemma WriterClears() returns (schedule: seq<Turn>)
    ensures Run(2, schedule)
         == State(2, 1, 1, Some(1), Some(2), map[1 := EnCopying, 2 := DeCopying], EMPTY_SLOTS, 1, 1, {},
                  map[0 := 0], {0})
  {
    schedule := ReaderFollows();
    PutMiddle([0, 0], [0, 0], [0, 0], 0, 0, [0, 0]);
    PutMiddle([0, 0], [0, 0], [0, 0], 1, 0, [0, 0]);
    hide Put, Run, DeStep;
    RunSnoc(2, schedule, Turn(1, Touch(0)));
    schedule := schedule + [Turn(1, Touch(0))];
    RunSnoc(2, schedule, Turn(1, Touch(1)));
    schedule := schedule + [Turn(1, Touch(1))];
    RunSnoc(2, schedule, Turn(1, Advance));
    schedule := schedule + [Turn(1, Advance)];
    assert Run(2, schedule).pcs == map[1 := EnCopying, 2 := DeCopying];
  }

  /** Writer 1 does its memcpy. */
  lemma WriterCopies() returns (schedule: seq<Turn>)
    ensures Run(2, schedule)
         == State(2, 1, 1, Some(1), Some(2), map[1 := EnCopying, 2 := DeCopying], [[0, 0], [1, 1], [0, 0]], 1, 1,
                  {0, 1}, map[0 := 0], {0})
  {
    schedule := WriterClears();
    PutMiddle([0, 0], [0, 0], [0, 0], 0, 1, [1, 0]);
    PutMiddle([0, 0], [1, 0], [0, 0], 1, 1, [1, 1]);
    hide Put, Run, DeStep;
    RunSnoc(2, schedule, Turn(1, Touch(0)));
    schedule := schedule + [Turn(1, Touch(0))];
    RunSnoc(2, schedule, Turn(1, Touch(1)));
    schedule := schedule + [Turn(1, Touch(1))];
  }

  /** Writer 1 leaves. */
  lemma WriterLeaves() returns (schedule: seq<Turn>)
    ensures Run(2, schedule)
         == State(2, 1, 1, None, Some(2), map[1 := Idle, 2 := DeCopying], [[0, 0], [1, 1], [0, 0]], 1, 1,
                  {0, 1}, map[0 := 0], {0})
  {
    schedule := WriterCopies();
    hide Run, DeStep;
    RunSnoc(2, schedule, Turn(1, Advance));
    schedule := schedule + [Turn(1, Advance)];
    RunSnoc(2, schedule, Turn(1, Advance));
    schedule := schedule + [Turn(1, Advance)];
    assert Run(2, schedule).pcs == map[1 := Idle, 2 := DeCopying];
  }

  /** `rear` is advanced before the bytes are copied, so a reader can overtake a writer and get a
      block of which one cell is stale and the other the element's, even though no writer is left
      when the reader finishes. */
  lemma TornRead() returns (schedule: seq<Turn>)
    ensures var s := Run(2, schedule);
            && PcOf(s, 2) == DeLeaving(0) && s.enLock == None
            && s.dequeued == 1 && s.got == map[0 := 0, 1 := 1]
  {
    schedule := WriterLeaves();
    hide Run, EnStep;
    RunSnoc(2, schedule, Turn(2, Touch(1)));
    schedule := schedule + [Turn(2, Touch(1))];
    assert Run(2, schedule).got == map[0 := 0, 1 := 1];
    RunSnoc(2, schedule, Turn(2, Advance));
    schedule := schedule + [Turn(2, Advance)];
  }
}
