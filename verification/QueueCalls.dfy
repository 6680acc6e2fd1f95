/** What the interleaved calls of common/queue.c answer, what the memory holds at any moment, and that
    a thread inside a call never depends on another one to get out. */
module QueueCalls {
  import opened Wrappers
  import opened BlockQueue
  import opened QueueInterleaving

  // ---------- the tests ----------

  /** EnDataQueue gives up exactly when two elements are in the queue at its test. */
  lemma EnCheck(size: nat, schedule: seq<Turn>, t: nat)
    requires PcOf(Run(size, schedule), t) == EnLocked
    ensures var s, r := Run(size, schedule), Run(size, schedule + [Turn(t, Advance)]);
            PcOf(r, t) == if s.enqueued == s.dequeued + 2 then EnLeaving(-1) else EnNotFull
  {
    RunInv(size, schedule);
    RunSnoc(size, schedule, Turn(t, Advance));
    var s := Run(size, schedule);
    CountersTellLength(s.dequeued, s.enqueued);
    hide Run, Locking, Delivered, NothingEarly, Recorded, Occupied, IsFull;
  }

  /** DeDataQueue gives up exactly when no element is in the queue at its test. */
  lemma DeCheck(size: nat, schedule: seq<Turn>, t: nat)
    requires PcOf(Run(size, schedule), t) == DeLocked
    ensures var s, r := Run(size, schedule), Run(size, schedule + [Turn(t, Advance)]);
            PcOf(r, t) == if s.enqueued == s.dequeued then DeLeaving(-1) else DeNotEmpty
  {
    RunInv(size, schedule);
    RunSnoc(size, schedule, Turn(t, Advance));
    var s := Run(size, schedule);
    CountersTellLength(s.dequeued, s.enqueued);
    hide Run, Locking, Delivered, NothingEarly, Recorded, Occupied, IsEmpty;
  }

  // ---------- the return codes ----------

  /** 1 if the thread whose turn it is goes from one position to the other. */
  function Goes(s: State, turn: Turn, src: Pc, dst: Pc): nat
    requires Shaped(s)
  {
    if PcOf(s, turn.thread) == src && PcOf(Step(s, turn), turn.thread) == dst then 1 else 0
  }

  /** How many turns of a run take a thread from one position to the other. */
  function Times(size: nat, schedule: seq<Turn>, src: Pc, dst: Pc): nat {
    if schedule == [] then 0
    else
      var before, last := schedule[..|schedule| - 1], schedule[|schedule| - 1];
      Times(size, before, src, dst) + Goes(Run(size, before), last, src, dst)
  }

  function Bit(b: bool): nat { if b then 1 else 0 }

  /** Has the writer inside EnDataQueue advanced `rear`? Has the reader advanced `front`? */
  predicate EnAdvanced(pc: Pc) { pc == EnClearing || pc == EnCopying || pc == EnLeaving(0) }

  predicate DeAdvanced(pc: Pc) { pc == DeCopying || pc == DeLeaving(0) }

  /** The only results are 0 and -1. */
  predicate Codes(s: State) {
    && (WriterPc(s).EnLeaving? ==> WriterPc(s).ret == 0 || WriterPc(s).ret == -1)
    && (ReaderPc(s).DeLeaving? ==> ReaderPc(s).ret == 0 || ReaderPc(s).ret == -1)
  }

  /** What one turn adds to the calls, their results and the counters. */
  ghost predicate EnTurn(s: State, turn: Turn)
    requires Shaped(s)
  {
    var r := Step(s, turn);
    && Codes(r)
    && Goes(s, turn, EnLeaving(0), Idle) + Bit(EnAdvanced(WriterPc(r))) + s.enqueued
       == Bit(EnAdvanced(WriterPc(s))) + r.enqueued
    && Goes(s, turn, EnLeaving(0), Idle) + Goes(s, turn, EnLeaving(-1), Idle) + Bit(r.enLock.Some?)
       == Bit(s.enLock.Some?) + Goes(s, turn, Idle, EnLocked)
  }

  ghost predicate DeTurn(s: State, turn: Turn)
    requires Shaped(s)
  {
    var r := Step(s, turn);
    && Codes(r)
    && Goes(s, turn, DeLeaving(0), Idle) + Bit(DeAdvanced(ReaderPc(r))) + s.dequeued
       == Bit(DeAdvanced(ReaderPc(s))) + r.dequeued
    && Goes(s, turn, DeLeaving(0), Idle) + Goes(s, turn, DeLeaving(-1), Idle) + Bit(r.deLock.Some?)
       == Bit(s.deLock.Some?) + Goes(s, turn, Idle, DeLocked)
  }

  lemma EnStepCodes(s: State, t: nat, a: Action)
    requires Inv(s) && Codes(s) && Enqueuing(PcOf(s, t))
    ensures EnTurn(s, Turn(t, a)) && DeTurn(s, Turn(t, a))
  {
    var r := Step(s, Turn(t, a));
    WriterIs(s, t);
    assert Step(s, Turn(t, a)) == EnStep(s, t, a);
    assert WriterPc(s) == PcOf(s, t);
    assert r.enLock.Some? ==> WriterPc(r) == PcOf(r, t);
    assert ReaderPc(r) == ReaderPc(s) && r.deLock == s.deLock && r.dequeued == s.dequeued;
    hide Step, Inv, Locking, Counting, Delivered, NothingEarly, Recorded, IsFull, Succ, Put, Covers;
  }

  lemma DeStepCodes(s: State, t: nat, a: Action)
    requires Inv(s) && Codes(s) && Dequeuing(PcOf(s, t))
    ensures EnTurn(s, Turn(t, a)) && DeTurn(s, Turn(t, a))
  {
    var r := Step(s, Turn(t, a));
    ReaderIs(s, t);
    assert Step(s, Turn(t, a)) == DeStep(s, t, a);
    assert ReaderPc(s) == PcOf(s, t);
    assert r.deLock.Some? ==> ReaderPc(r) == PcOf(r, t);
    assert WriterPc(r) == WriterPc(s) && r.enLock == s.enLock && r.enqueued == s.enqueued;
    hide Step, Inv, Locking, Counting, Delivered, NothingEarly, Recorded, IsEmpty, Succ, Covers, Arrived;
  }

  lemma EnterCodes(s: State, turn: Turn)
    requires Inv(s) && Codes(s)
    requires !Enqueuing(PcOf(s, turn.thread)) && !Dequeuing(PcOf(s, turn.thread))
    ensures EnTurn(s, turn) && DeTurn(s, turn)
  {
    EnterChanges(s, turn);
    hide Inv, Locking, Counting, Delivered, NothingEarly, Recorded, EnStep, DeStep;
  }

  lemma TurnCodes(s: State, turn: Turn)
    requires Inv(s) && Codes(s)
    ensures EnTurn(s, turn) && DeTurn(s, turn)
  {
    hide *;
    assert turn == Turn(turn.thread, turn.action);
    if Enqueuing(PcOf(s, turn.thread)) {
      EnStepCodes(s, turn.thread, turn.action);
    } else if Dequeuing(PcOf(s, turn.thread)) {
      DeStepCodes(s, turn.thread, turn.action);
    } else {
      EnterCodes(s, turn);
    }
  }

  /** In any run the calls of EnDataQueue that returned 0 are exactly those that advanced `rear`, but
      for one that is still inside, and every call that was entered has returned 0 or -1 or is still
      inside. The same holds of DeDataQueue and `front`. */
  lemma {:induction false} ReturnCodes(size: nat, schedule: seq<Turn>)
    ensures var s := Run(size, schedule);
            && Codes(s)
            && Times(size, schedule, EnLeaving(0), Idle) + Bit(EnAdvanced(WriterPc(s))) == s.enqueued
            && Times(size, schedule, EnLeaving(0), Idle) + Times(size, schedule, EnLeaving(-1), Idle)
               + Bit(s.enLock.Some?) == Times(size, schedule, Idle, EnLocked)
            && Times(size, schedule, DeLeaving(0), Idle) + Bit(DeAdvanced(ReaderPc(s))) == s.dequeued
            && Times(size, schedule, DeLeaving(0), Idle) + Times(size, schedule, DeLeaving(-1), Idle)
               + Bit(s.deLock.Some?) == Times(size, schedule, Idle, DeLocked)
  {
    if schedule != [] {
      var before, last := schedule[..|schedule| - 1], schedule[|schedule| - 1];
      ReturnCodes(size, before);
      RunInv(size, before);
      TurnCodes(Run(size, before), last);
      assert Run(size, schedule) == Step(Run(size, before), last);
      hide Run, Step, Goes, Inv, Codes, EnAdvanced, DeAdvanced;
    }
  }

  // ---------- the memory ----------

  /** What cell `i` of element `e` holds: of the three newest elements only the newest can be incomplete.
      Its writer first clears what is left of the element three before, and then copies. */
  function Expected(s: State, e: int, i: nat): int {
    if e == s.enqueued && WriterPc(s) == EnClearing then if i in s.touched || e < 3 then 0 else e - 3
    else if e == s.enqueued && WriterPc(s) == EnCopying && i !in s.touched then 0
    else if e < 0 then 0
    else e
  }

  predicate Holds(s: State, e: int, i: nat)
    requires Shaped(s) && i < s.size
  {
    s.cells[e % 3][i] == Expected(s, e, i)
  }

  /** Elements are numbered from 1; a slot that was never written counts as an element below. */
  ghost predicate Remembered(s: State)
    requires Shaped(s)
  {
    forall e: int, i: nat :: s.enqueued - 2 <= e <= s.enqueued && i < s.size ==> Holds(s, e, i)
  }

  /** A cell that was copied early is a zero or of the element three before. */
  ghost predicate Stale(s: State) {
    forall i: nat :: i in s.early ==> i in s.got && (s.got[i] == 0 || s.got[i] == s.dequeued - 3)
  }

  lemma PutAt(cells: seq<seq<nat>>, slot: index, i: nat, v: nat, e: int, k: nat)
    requires |cells| == 3 && i < |cells[slot]| && k < |cells[e % 3]|
    ensures Put(cells, slot, i, v)[e % 3][k] == if e % 3 == slot && k == i then v else cells[e % 3][k]
  {
  }

  /** Two of the three newest elements never share a slot. */
  lemma SlotOf(e: int, enqueued: nat)
    requires enqueued - 2 <= e <= enqueued
    ensures e % 3 == enqueued % 3 <==> e == enqueued
  {
  }

  lemma EnStepHolds(s: State, t: nat, a: Action, e: int, i: nat)
    requires Inv(s) && Enqueuing(PcOf(s, t)) && Remembered(s)
    requires EnStep(s, t, a).enqueued - 2 <= e <= EnStep(s, t, a).enqueued && i < s.size
    ensures Holds(EnStep(s, t, a), e, i)
  {
    var r := EnStep(s, t, a);
    WriterIs(s, t);
    assert s.rear == s.enqueued % 3 && WriterPc(s) == PcOf(s, t);
    assert r.enLock.Some? ==> WriterPc(r) == PcOf(r, t);
    if e > s.enqueued {
      assert e == s.enqueued + 1 && (e - 3) % 3 == e % 3;
      assert Holds(s, e - 3, i);
    } else {
      assert Holds(s, e, i);
      SlotOf(e, s.enqueued);
      if a.Touch? && a.cell < s.size {
        PutAt(s.cells, s.rear, a.cell, 0, e, i);
        PutAt(s.cells, s.rear, a.cell, s.enqueued, e, i);
      }
    }
    hide Locking, Delivered, NothingEarly, Recorded, Inv, Remembered, Counting, IsFull, Succ, Covers, Put;
  }

  lemma EnStepRemembered(s: State, t: nat, a: Action)
    requires Inv(s) && Enqueuing(PcOf(s, t)) && Remembered(s) && Stale(s)
    ensures Remembered(EnStep(s, t, a)) && Stale(EnStep(s, t, a))
  {
    var r := EnStep(s, t, a);
    assert r.size == s.size && r.got == s.got && r.early == s.early && r.dequeued == s.dequeued;
    hide EnStep, Inv, Holds;
    forall e: int, i: nat | r.enqueued - 2 <= e <= r.enqueued && i < r.size
      ensures Holds(r, e, i)
    {
      EnStepHolds(s, t, a, e, i);
    }
  }

  lemma DeStepRemembered(s: State, t: nat, a: Action)
    requires Inv(s) && Dequeuing(PcOf(s, t)) && Remembered(s) && Stale(s)
    ensures Remembered(DeStep(s, t, a)) && Stale(DeStep(s, t, a))
  {
    var r := DeStep(s, t, a);
    ReaderIs(s, t);
    assert Counting(s);
    hide Locking, Delivered, NothingEarly, Recorded, Inv, IsEmpty;
    forall e: int, i: nat | r.enqueued - 2 <= e <= r.enqueued && i < r.size
      ensures Holds(r, e, i)
    {
      assert Holds(s, e, i);
    }
    if PcOf(s, t) == DeCopying && a.Touch? && a.cell < s.size {
      assert Holds(s, s.enqueued, a.cell);
    }
  }

  lemma StepRemembered(s: State, turn: Turn)
    requires Inv(s) && Remembered(s) && Stale(s)
    ensures Remembered(Step(s, turn)) && Stale(Step(s, turn))
  {
    var t, r := turn.thread, Step(s, turn);
    if Enqueuing(PcOf(s, t)) {
      EnStepRemembered(s, t, turn.action);
    } else if Dequeuing(PcOf(s, t)) {
      DeStepRemembered(s, t, turn.action);
    } else {
      EnterChanges(s, turn);
      hide Step, Inv, Locking;
      forall e: int, i: nat | r.enqueued - 2 <= e <= r.enqueued && i < r.size
        ensures Holds(r, e, i)
      {
        assert Holds(s, e, i);
      }
    }
  }

  lemma {:induction false} RunRemembered(size: nat, schedule: seq<Turn>)
    ensures Remembered(Run(size, schedule)) && Stale(Run(size, schedule))
  {
    if schedule != [] {
      var before, last := schedule[..|schedule| - 1], schedule[|schedule| - 1];
      RunRemembered(size, before);
      RunInv(size, before);
      StepRemembered(Run(size, before), last);
      assert Run(size, schedule) == Step(Run(size, before), last);
      hide Inv, Step, Run, Remembered, Stale;
    }
  }

  /** The whole memory in every reachable state: the three newest elements, of which the newest is as
      far cleared and copied as its writer has got. */
  lemma MemoryExact(size: nat, schedule: seq<Turn>, e: nat, i: nat)
    requires var s := Run(size, schedule); s.enqueued - 2 <= e <= s.enqueued && i < size
    ensures var s := Run(size, schedule);
            s.cells[e % 3][i] ==
            if e < s.enqueued || (WriterPc(s) != EnClearing && WriterPc(s) != EnCopying) then e
            else if WriterPc(s) == EnCopying then if i in s.touched then e else 0
            else if i in s.touched || e < 3 then 0 else e - 3
  {
    RunRemembered(size, schedule);
    assert Holds(Run(size, schedule), e, i);
    hide Run;
  }

  /** In every reachable state a cell of the latest reader's buffer is its element's, a zero, or of
      the element three before. */
  lemma StaleRead(size: nat, schedule: seq<Turn>, i: nat)
    requires i in Run(size, schedule).got
    ensures var s := Run(size, schedule);
            s.got[i] == s.dequeued || s.got[i] == 0 || s.got[i] == s.dequeued - 3
  {
    RunInv(size, schedule);
    RunRemembered(size, schedule);
    hide Run;
  }

  // ---------- a thread on its own ----------

  /** A thread handles cells in some order, and goes on. */
  function Touches(t: nat, order: seq<nat>): (r: seq<Turn>)
    ensures |r| == |order|
  {
    if order == [] then []
    else Touches(t, order[..|order| - 1]) + [Turn(t, Touch(order[|order| - 1]))]
  }

  function Round(t: nat, order: seq<nat>): seq<Turn> { Touches(t, order) + [Turn(t, Advance)] }

  function Rounds(t: nat, order: seq<nat>, n: nat): seq<Turn> {
    if n == 0 then [] else Rounds(t, order, n - 1) + Round(t, order)
  }

  /** Does the order name every cell of a block? */
  predicate Complete(order: seq<nat>, size: nat) { forall i: nat :: i < size ==> i in order }

  /** What handling cells leaves alone. */
  predicate EnTouched(s: State, r: State) { r == s.(cells := r.cells, touched := r.touched) }

  predicate DeTouched(s: State, r: State) { r == s.(got := r.got, early := r.early) }

  lemma {:induction false} EnTouches(size: nat, schedule: seq<Turn>, t: nat, order: seq<nat>)
    requires Enqueuing(PcOf(Run(size, schedule), t))
    ensures var s, r := Run(size, schedule), Run(size, schedule + Touches(t, order));
            && EnTouched(s, r)
            && (PcOf(s, t) == EnClearing || PcOf(s, t) == EnCopying ==>
                  forall i: nat :: i < size && i in order ==> i in r.touched)
  {
    if order == [] {
      assert schedule + Touches(t, order) == schedule;
    } else {
      var shorter, last := order[..|order| - 1], order[|order| - 1];
      EnTouches(size, schedule, t, shorter);
      assert schedule + Touches(t, order) == schedule + Touches(t, shorter) + [Turn(t, Touch(last))];
      RunSnoc(size, schedule + Touches(t, shorter), Turn(t, Touch(last)));
      assert forall i: nat :: i in order ==> i in shorter || i == last;
      hide Run, Touches, Put, IsFull, Succ, Covers;
    }
  }

  lemma DeTouch(s: State, t: nat, c: nat)
    requires Shaped(s) && Dequeuing(PcOf(s, t))
    ensures var r := Step(s, Turn(t, Touch(c)));
            && DeTouched(s, r)
            && (PcOf(s, t).DeLeaving? ==> r.got == s.got)
            && (PcOf(s, t) == DeCopying ==>
                  && r.got.Keys == s.got.Keys + (if c < s.size then {c} else {})
                  && forall i: nat :: i in r.got ==>
                       if i in s.got then r.got[i] == s.got[i] else i < s.size && r.got[i] == s.cells[s.front][i])
  {
    hide IsEmpty, Succ, Covers, Arrived;
  }

  /** What a reader has done with the cells of an order. */
  ghost predicate DeHandled(s: State, r: State, t: nat, order: seq<nat>)
    requires Shaped(s)
  {
    && DeTouched(s, r)
    && (PcOf(s, t).DeLeaving? ==> r.got == s.got)
    && (PcOf(s, t) == DeCopying ==> (forall i: nat :: i < s.size && i in order ==> i in r.got) && Fetched(s, r))
  }

  ghost predicate Fetched(s: State, r: State)
    requires Shaped(s)
  {
    forall i: nat :: i in r.got ==> i in s.got || (i < s.size && r.got[i] == s.cells[s.front][i])
  }

  lemma DeHandledMore(s: State, q: State, t: nat, order: seq<nat>, c: nat)
    requires Shaped(s) && Shaped(q) && Dequeuing(PcOf(s, t)) && DeHandled(s, q, t, order)
    ensures DeHandled(s, Step(q, Turn(t, Touch(c))), t, order + [c])
  {
    DeTouch(q, t, c);
    hide Step;
  }

  lemma {:induction false} DeTouches(size: nat, schedule: seq<Turn>, t: nat, order: seq<nat>)
    requires Dequeuing(PcOf(Run(size, schedule), t))
    ensures DeHandled(Run(size, schedule), Run(size, schedule + Touches(t, order)), t, order)
  {
    if order == [] {
      assert schedule + Touches(t, order) == schedule;
      hide Run;
    } else {
      var shorter, last := order[..|order| - 1], order[|order| - 1];
      assert Touches(t, order) == Touches(t, shorter) + [Turn(t, Touch(last))];
      hide *;
      var before := schedule + Touches(t, shorter);
      assert schedule + Touches(t, order) == before + [Turn(t, Touch(last))];
      assert order == shorter + [last];
      DeTouches(size, schedule, t, shorter);
      RunSnoc(size, before, Turn(t, Touch(last)));
      DeHandledMore(Run(size, schedule), Run(size, before), t, shorter, last);
    }
  }

  /** One round takes a writer from one statement to the next, whatever the other threads are at. */
  predicate EnNext(s: State, r: State, t: nat)
    requires Enqueuing(PcOf(s, t))
  {
    && r.front == s.front && r.dequeued == s.dequeued && r.deLock == s.deLock && r.got == s.got
    && match PcOf(s, t)
       case EnLocked =>
         r.enLock == s.enLock && r.enqueued == s.enqueued
         && PcOf(r, t) == if s.enqueued == s.dequeued + 2 then EnLeaving(-1) else EnNotFull
       case EnNotFull => r.enLock == s.enLock && r.enqueued == s.enqueued + 1 && PcOf(r, t) == EnClearing
       case EnClearing => r.enLock == s.enLock && r.enqueued == s.enqueued && PcOf(r, t) == EnCopying
       case EnCopying => r.enLock == s.enLock && r.enqueued == s.enqueued && PcOf(r, t) == EnLeaving(0)
       case EnLeaving(_) => r.enLock == None && r.enqueued == s.enqueued && PcOf(r, t) == Idle
  }

  predicate DeNext(s: State, r: State, t: nat)
    requires Shaped(s) && Dequeuing(PcOf(s, t))
  {
    && r.rear == s.rear && r.enqueued == s.enqueued && r.enLock == s.enLock && r.cells == s.cells
    && match PcOf(s, t)
       case DeLocked =>
         r.deLock == s.deLock && r.dequeued == s.dequeued
         && PcOf(r, t) == if s.enqueued == s.dequeued then DeLeaving(-1) else DeNotEmpty
       case DeNotEmpty =>
         r.deLock == s.deLock && r.dequeued == s.dequeued + 1 && PcOf(r, t) == DeCopying && r.got == map[]
       case DeCopying =>
         && r.deLock == s.deLock && r.dequeued == s.dequeued && PcOf(r, t) == DeLeaving(0)
         && Covers(r.got.Keys, s.size)
         && forall i: nat :: i in r.got ==> i in s.got || (i < s.size && r.got[i] == s.cells[s.front][i])
       case DeLeaving(_) =>
         r.deLock == None && r.dequeued == s.dequeued && PcOf(r, t) == Idle && r.got == s.got
  }

  ghost predicate OthersStay(s: State, r: State, t: nat) {
    forall u: nat :: u != t ==> PcOf(r, u) == PcOf(s, u)
  }

  lemma EnAdvances(s: State, t: nat)
    requires Inv(s) && Enqueuing(PcOf(s, t))
    requires PcOf(s, t) == EnClearing || PcOf(s, t) == EnCopying ==> Covers(s.touched, s.size)
    ensures EnNext(s, Step(s, Turn(t, Advance)), t) && OthersStay(s, Step(s, Turn(t, Advance)), t)
  {
    assert Counting(s);
    CountersTellLength(s.dequeued, s.enqueued);
    assert Step(s, Turn(t, Advance)) == EnStep(s, t, Advance);
    hide Inv, Locking, Counting, Delivered, NothingEarly, Recorded, Occupied, IsFull, Succ, Put, Step, Covers;
  }

  lemma DeAdvances(s: State, t: nat)
    requires Inv(s) && Dequeuing(PcOf(s, t))
    requires PcOf(s, t) == DeCopying ==> Covers(s.got.Keys, s.size)
    ensures var r := Step(s, Turn(t, Advance));
            && OthersStay(s, r, t)
            && DeNext(s, r, t)
            && (PcOf(s, t) == DeCopying ==> r.got == s.got)
  {
    assert Counting(s);
    CountersTellLength(s.dequeued, s.enqueued);
    assert Step(s, Turn(t, Advance)) == DeStep(s, t, Advance);
    hide Inv, Locking, Counting, Delivered, NothingEarly, Recorded, Occupied, IsEmpty, Succ, Step, Covers;
  }

  lemma EnRound(size: nat, schedule: seq<Turn>, t: nat, order: seq<nat>)
    requires Enqueuing(PcOf(Run(size, schedule), t)) && Complete(order, size)
    ensures var s, r := Run(size, schedule), Run(size, schedule + Round(t, order));
            EnNext(s, r, t) && OthersStay(s, r, t)
  {
    var touched := schedule + Touches(t, order);
    assert schedule + Round(t, order) == touched + [Turn(t, Advance)];
    EnTouches(size, schedule, t, order);
    RunInv(size, touched);
    RunSnoc(size, touched, Turn(t, Advance));
    hide Run, Inv, Touches, Step;
    EnAdvances(Run(size, touched), t);
  }

  /** Handling cells and then going on, taken together. */
  lemma DeTogether(s: State, u: State, r: State, t: nat, order: seq<nat>)
    requires Shaped(s) && Shaped(u) && Dequeuing(PcOf(s, t)) && DeHandled(s, u, t, order)
    requires DeNext(u, r, t) && (PcOf(s, t) == DeCopying ==> r.got == u.got)
    ensures DeNext(s, r, t)
  {
    hide Covers;
  }

  lemma DeRound(size: nat, schedule: seq<Turn>, t: nat, order: seq<nat>)
    requires Dequeuing(PcOf(Run(size, schedule), t)) && Complete(order, size)
    ensures var s, r := Run(size, schedule), Run(size, schedule + Round(t, order));
            DeNext(s, r, t) && OthersStay(s, r, t)
  {
    var touched := schedule + Touches(t, order);
    assert schedule + Round(t, order) == touched + [Turn(t, Advance)];
    DeTouches(size, schedule, t, order);
    RunInv(size, touched);
    RunSnoc(size, touched, Turn(t, Advance));
    DeAdvances(Run(size, touched), t);
    DeTogether(Run(size, schedule), Run(size, touched), Run(size, schedule + Round(t, order)), t, order);
    hide Run, Inv, Touches, Step, DeNext;
  }

  /** Upper bound on the rounds until a thread is out of the function it is in. */
  function Left(pc: Pc): nat {
    match pc
    case Idle => 0
    case EnLocked => 5
    case EnNotFull => 4
    case EnClearing => 3
    case EnCopying => 2
    case EnLeaving(_) => 1
    case DeLocked => 4
    case DeNotEmpty => 3
    case DeCopying => 2
    case DeLeaving(_) => 1
  }

  lemma {:induction false} RoundFirst(t: nat, order: seq<nat>, n: nat)
    ensures Rounds(t, order, n + 1) == Round(t, order) + Rounds(t, order, n)
  {
    if n > 0 {
      RoundFirst(t, order, n - 1);
    }
  }

  /** The thread that was inside is out, its lock is free, and the others are where they were. */
  ghost predicate IsOut(s: State, r: State, t: nat) {
    && PcOf(r, t) == Idle && OthersStay(s, r, t)
    && (Enqueuing(PcOf(s, t)) ==> r.enLock == None && r.deLock == s.deLock)
    && (Dequeuing(PcOf(s, t)) ==> r.deLock == None && r.enLock == s.enLock)
  }

  /** A round either ends the call or brings its end nearer. */
  ghost predicate Nearer(s: State, r: State, t: nat) {
    && Left(PcOf(r, t)) < Left(PcOf(s, t)) && OthersStay(s, r, t)
    && (Enqueuing(PcOf(s, t)) ==> Enqueuing(PcOf(r, t)) || IsOut(s, r, t))
    && (Dequeuing(PcOf(s, t)) ==> Dequeuing(PcOf(r, t)) || IsOut(s, r, t))
    && (Enqueuing(PcOf(s, t)) ==> r.deLock == s.deLock)
    && (Dequeuing(PcOf(s, t)) ==> r.enLock == s.enLock)
  }

  lemma EnNearer(s: State, r: State, t: nat)
    requires Enqueuing(PcOf(s, t)) && EnNext(s, r, t) && OthersStay(s, r, t)
    ensures Nearer(s, r, t)
  {
    hide OthersStay;
  }

  lemma DeNearer(s: State, r: State, t: nat)
    requires Shaped(s) && Dequeuing(PcOf(s, t)) && DeNext(s, r, t) && OthersStay(s, r, t)
    ensures Nearer(s, r, t)
  {
    hide OthersStay, Covers;
  }

  lemma NearerThenOut(s: State, q: State, r: State, t: nat)
    requires PcOf(s, t) != Idle && Nearer(s, q, t)
    requires if PcOf(q, t) == Idle then r == q else IsOut(q, r, t)
    ensures IsOut(s, r, t)
  {
  }

  lemma RoundNearer(size: nat, schedule: seq<Turn>, t: nat, order: seq<nat>)
    requires Complete(order, size) && PcOf(Run(size, schedule), t) != Idle
    ensures Nearer(Run(size, schedule), Run(size, schedule + Round(t, order)), t)
  {
    var s, r := Run(size, schedule), Run(size, schedule + Round(t, order));
    if Enqueuing(PcOf(s, t)) {
      EnRound(size, schedule, t, order);
      EnNearer(s, r, t);
    } else {
      DeRound(size, schedule, t, order);
      DeNearer(s, r, t);
    }
    hide Run, Round, Complete, EnNext, DeNext, OthersStay, Nearer;
  }

  lemma {:induction false} GetsOutIn(size: nat, schedule: seq<Turn>, t: nat, order: seq<nat>) returns (n: nat)
    requires Complete(order, size) && PcOf(Run(size, schedule), t) != Idle
    ensures 1 <= n <= Left(PcOf(Run(size, schedule), t))
    ensures IsOut(Run(size, schedule), Run(size, schedule + Rounds(t, order, n)), t)
    decreases Left(PcOf(Run(size, schedule), t))
  {
    hide *;
    var next := schedule + Round(t, order);
    var s, q := Run(size, schedule), Run(size, next);
    RoundNearer(size, schedule, t, order);
    LeftFalls(s, q, t);
    if PcOf(q, t) == Idle {
      n := 1;
      OneRound(t, order);
    } else {
      var rest := GetsOutIn(size, next, t, order);
      n := rest + 1;
      RoundFirst(t, order, rest);
      assert schedule + Rounds(t, order, n) == next + Rounds(t, order, rest);
    }
    NearerThenOut(s, q, Run(size, schedule + Rounds(t, order, n)), t);
  }

  lemma LeftFalls(s: State, r: State, t: nat)
    requires Nearer(s, r, t)
    ensures Left(PcOf(r, t)) < Left(PcOf(s, t))
  {
  }

  lemma OneRound(t: nat, order: seq<nat>)
    ensures Rounds(t, order, 1) == Round(t, order)
  {
    RoundFirst(t, order, 0);
  }

  /** A thread inside a call waits for nobody: wherever the others stand, at most five rounds of its
      own take it out, and then its lock is free. */
  lemma GetsOut(size: nat, schedule: seq<Turn>, t: nat, order: seq<nat>) returns (n: nat)
    requires Complete(order, size) && PcOf(Run(size, schedule), t) != Idle
    ensures 1 <= n <= 5
    ensures var s, r := Run(size, schedule), Run(size, schedule + Rounds(t, order, n));
            && PcOf(r, t) == Idle && (forall u: nat :: u != t ==> PcOf(r, u) == PcOf(s, u))
            && (if Enqueuing(PcOf(s, t)) then r.enLock == None && r.deLock == s.deLock
                else r.deLock == None && r.enLock == s.enLock)
  {
    n := GetsOutIn(size, schedule, t, order);
    hide Run, Rounds;
  }

  // ---------- whole calls ----------

  /** A thread enters a function and does `n` rounds. */
  function Call(t: nat, entry: Action, order: seq<nat>, n: nat): seq<Turn> {
    [Turn(t, entry)] + Rounds(t, order, n)
  }

  lemma CallLonger(schedule: seq<Turn>, t: nat, entry: Action, order: seq<nat>, n: nat)
    requires n > 0
    ensures schedule + Call(t, entry, order, n) == schedule + Call(t, entry, order, n - 1) + Round(t, order)
  {
  }

  function EnPosition(n: nat): Pc {
    if n == 0 then EnLocked
    else if n == 1 then EnNotFull
    else if n == 2 then EnClearing
    else if n == 3 then EnCopying
    else EnLeaving(0)
  }

  /** Where an enqueue is after `n` of its four rounds. */
  ghost predicate EnCalled(s: State, r: State, t: nat, n: nat) {
    && PcOf(r, t) == EnPosition(n) && r.enLock == Some(t) && OthersStay(s, r, t)
    && r.enqueued == s.enqueued + (if n >= 2 then 1 else 0)
    && r.front == s.front && r.dequeued == s.dequeued && r.deLock == s.deLock && r.got == s.got
  }

  lemma EnCalledNext(s: State, q: State, r: State, t: nat, n: nat)
    requires n < 4 && EnCalled(s, q, t, n) && s.enqueued != s.dequeued + 2
    requires EnNext(q, r, t) && OthersStay(q, r, t)
    ensures EnCalled(s, r, t, n + 1)
  {
  }

  lemma EnEnters(s: State, t: nat)
    requires Shaped(s) && PcOf(s, t) == Idle && s.enLock == None
    ensures EnCalled(s, Step(s, Turn(t, EnterEn)), t, 0)
  {
  }

  lemma EnEntered(size: nat, schedule: seq<Turn>, t: nat, order: seq<nat>)
    requires PcOf(Run(size, schedule), t) == Idle && Run(size, schedule).enLock == None
    ensures EnCalled(Run(size, schedule), Run(size, schedule + Call(t, EnterEn, order, 0)), t, 0)
  {
    assert Call(t, EnterEn, order, 0) == [Turn(t, EnterEn)];
    hide *;
    RunSnoc(size, schedule, Turn(t, EnterEn));
    EnEnters(Run(size, schedule), t);
  }

  lemma EnCalledInside(s: State, r: State, t: nat, n: nat)
    requires n < 4 && EnCalled(s, r, t, n)
    ensures Enqueuing(PcOf(r, t))
  {
  }

  lemma EnCallNext(size: nat, schedule: seq<Turn>, t: nat, order: seq<nat>, n: nat)
    requires Complete(order, size) && n < 4 && Run(size, schedule).enqueued != Run(size, schedule).dequeued + 2
    requires EnCalled(Run(size, schedule), Run(size, schedule + Call(t, EnterEn, order, n)), t, n)
    ensures EnCalled(Run(size, schedule), Run(size, schedule + Call(t, EnterEn, order, n + 1)), t, n + 1)
  {
    var shorter := schedule + Call(t, EnterEn, order, n);
    hide *;
    CallLonger(schedule, t, EnterEn, order, n + 1);
    EnCalledInside(Run(size, schedule), Run(size, shorter), t, n);
    EnRound(size, shorter, t, order);
    EnCalledNext(Run(size, schedule), Run(size, shorter), Run(size, shorter + Round(t, order)), t, n);
  }

  lemma {:induction false} EnCall(size: nat, schedule: seq<Turn>, t: nat, order: seq<nat>, n: nat)
    requires PcOf(Run(size, schedule), t) == Idle && Run(size, schedule).enLock == None
    requires n > 0 ==> Run(size, schedule).enqueued != Run(size, schedule).dequeued + 2
    requires Complete(order, size) && n <= 4
    ensures EnCalled(Run(size, schedule), Run(size, schedule + Call(t, EnterEn, order, n)), t, n)
  {
    if n == 0 {
      EnEntered(size, schedule, t, order);
    } else {
      EnCall(size, schedule, t, order, n - 1);
      EnCallNext(size, schedule, t, order, n - 1);
    }
    hide *;
  }

  function DePosition(n: nat): Pc {
    if n == 0 then DeLocked else if n == 1 then DeNotEmpty else if n == 2 then DeCopying else DeLeaving(0)
  }

  /** Where a dequeue is after `n` of its three rounds. */
  ghost predicate DeCalled(s: State, r: State, t: nat, n: nat)
    requires Shaped(s)
  {
    && PcOf(r, t) == DePosition(n) && r.deLock == Some(t) && OthersStay(s, r, t) && r.size == s.size
    && r.dequeued == s.dequeued + (if n >= 2 then 1 else 0)
    && r.rear == s.rear && r.enqueued == s.enqueued && r.enLock == s.enLock && r.cells == s.cells
    && (n == 2 ==> r.got == map[])
    && (n == 3 ==> Covers(r.got.Keys, s.size) && FromSlot(s, r))
  }

  /** The buffer holds the cells of the slot behind `front`. */
  ghost predicate FromSlot(s: State, r: State)
    requires Shaped(s)
  {
    forall i: nat :: i in r.got ==> i < s.size && r.got[i] == s.cells[(s.dequeued + 1) % 3][i]
  }

  lemma DeCalledNext(s: State, q: State, r: State, t: nat, n: nat)
    requires Shaped(s) && Shaped(q) && n < 3 && DeCalled(s, q, t, n) && s.enqueued != s.dequeued
    requires q.front == q.dequeued % 3 && r.size == q.size
    requires DeNext(q, r, t) && OthersStay(q, r, t)
    ensures DeCalled(s, r, t, n + 1)
  {
    hide Covers;
  }

  lemma DeEnters(s: State, t: nat)
    requires Shaped(s) && PcOf(s, t) == Idle && s.deLock == None
    ensures DeCalled(s, Step(s, Turn(t, EnterDe)), t, 0)
  {
  }

  lemma DeEntered(size: nat, schedule: seq<Turn>, t: nat, order: seq<nat>)
    requires PcOf(Run(size, schedule), t) == Idle && Run(size, schedule).deLock == None
    ensures DeCalled(Run(size, schedule), Run(size, schedule + Call(t, EnterDe, order, 0)), t, 0)
  {
    assert Call(t, EnterDe, order, 0) == [Turn(t, EnterDe)];
    hide *;
    RunSnoc(size, schedule, Turn(t, EnterDe));
    DeEnters(Run(size, schedule), t);
  }

  lemma DeCalledInside(s: State, r: State, t: nat, n: nat)
    requires Shaped(s) && n < 3 && DeCalled(s, r, t, n)
    ensures Dequeuing(PcOf(r, t)) && r.size == s.size
  {
  }

  lemma DeCallNext(size: nat, schedule: seq<Turn>, t: nat, order: seq<nat>, n: nat)
    requires Complete(order, size) && n < 3 && Run(size, schedule).enqueued != Run(size, schedule).dequeued
    requires DeCalled(Run(size, schedule), Run(size, schedule + Call(t, EnterDe, order, n)), t, n)
    ensures DeCalled(Run(size, schedule), Run(size, schedule + Call(t, EnterDe, order, n + 1)), t, n + 1)
  {
    var shorter := schedule + Call(t, EnterDe, order, n);
    assert Run(size, shorter).front == Run(size, shorter).dequeued % 3 by {
      RunInv(size, shorter);
    }
    hide *;
    CallLonger(schedule, t, EnterDe, order, n + 1);
    DeCalledInside(Run(size, schedule), Run(size, shorter), t, n);
    DeRound(size, shorter, t, order);
    DeCalledNext(Run(size, schedule), Run(size, shorter), Run(size, shorter + Round(t, order)), t, n);
  }

  lemma {:induction false} DeCall(size: nat, schedule: seq<Turn>, t: nat, order: seq<nat>, n: nat)
    requires PcOf(Run(size, schedule), t) == Idle && Run(size, schedule).deLock == None
    requires n > 0 ==> Run(size, schedule).enqueued != Run(size, schedule).dequeued
    requires Complete(order, size) && n <= 3
    ensures DeCalled(Run(size, schedule), Run(size, schedule + Call(t, EnterDe, order, n)), t, n)
  {
    if n == 0 {
      DeEntered(size, schedule, t, order);
    } else {
      DeCall(size, schedule, t, order, n - 1);
      DeCallNext(size, schedule, t, order, n - 1);
    }
    hide *;
  }

  /** An enqueue that is about to return. */
  ghost predicate EnEnding(s: State, q: State, t: nat) {
    && PcOf(q, t) == EnLeaving(if s.enqueued < s.dequeued + 2 then 0 else -1) && OthersStay(s, q, t)
    && q.enqueued == s.enqueued + (if s.enqueued < s.dequeued + 2 then 1 else 0)
    && q.front == s.front && q.dequeued == s.dequeued && q.deLock == s.deLock && q.got == s.got
  }

  lemma EnEnds(size: nat, schedule: seq<Turn>, t: nat, order: seq<nat>) returns (n: nat)
    requires PcOf(Run(size, schedule), t) == Idle && Run(size, schedule).enLock == None
    requires Complete(order, size)
    ensures EnEnding(Run(size, schedule), Run(size, schedule + Call(t, EnterEn, order, n)), t)
  {
    var s := Run(size, schedule);
    assert s.enqueued <= s.dequeued + 2 by {
      RunInv(size, schedule);
    }
    hide Run, Call, Round, Complete;
    if s.enqueued < s.dequeued + 2 {
      n := 4;
      EnCall(size, schedule, t, order, 4);
    } else {
      n := 1;
      EnCall(size, schedule, t, order, 0);
      CallLonger(schedule, t, EnterEn, order, 1);
      EnRound(size, schedule + Call(t, EnterEn, order, 0), t, order);
    }
  }

  /** Without a writer the memory is determined by the number of elements. */
  lemma MemoryFollows(size: nat, schedule: seq<Turn>, later: seq<Turn>)
    requires var s, r := Run(size, schedule), Run(size, later);
             s.enLock == None && r.enLock == None && s.enqueued <= r.enqueued <= s.enqueued + 1
    ensures var s, r := Run(size, schedule), Run(size, later);
            forall j: nat, i: nat :: j < 3 && i < size ==>
              r.cells[j][i] ==
              if r.enqueued > s.enqueued && j == r.enqueued % 3 then r.enqueued else s.cells[j][i]
  {
    RunRemembered(size, schedule);
    RunRemembered(size, later);
    var s, r := Run(size, schedule), Run(size, later);
    hide Run;
    forall j: nat, i: nat | j < 3 && i < size
      ensures r.cells[j][i] ==
              if r.enqueued > s.enqueued && j == r.enqueued % 3 then r.enqueued else s.cells[j][i]
    {
      var e := NewestIn(j, r.enqueued);
      assert Holds(r, e, i);
      if r.enqueued == s.enqueued || e != r.enqueued {
        assert Holds(s, e, i);
      }
    }
  }

  /** The newest element whose slot is `j`. */
  function NewestIn(j: nat, enqueued: nat): (e: int)
    requires j < 3
    ensures enqueued - 2 <= e <= enqueued && e % 3 == j
    ensures e == enqueued <==> j == enqueued % 3
  {
    if enqueued % 3 == j then enqueued
    else if (enqueued - 1) % 3 == j then enqueued - 1
    else enqueued - 2
  }

  lemma EnLast(s: State, q: State, r: State, t: nat)
    requires EnEnding(s, q, t) && EnNext(q, r, t) && OthersStay(q, r, t)
    ensures var stored := s.enqueued < s.dequeued + 2;
            && PcOf(r, t) == Idle && r.enLock == None && OthersStay(s, r, t)
            && r.enqueued == s.enqueued + (if stored then 1 else 0)
            && r.front == s.front && r.dequeued == s.dequeued && r.deLock == s.deLock && r.got == s.got
  {
  }

  /** A writer that enters while the lock is free and runs alone, wherever readers stand: it returns 0
      if fewer than two elements are in the queue, and then its slot holds the new element and the
      other slots and the readers' data are as before; otherwise it returns -1 and all is as before. */
  lemma EnqueueAlone(size: nat, schedule: seq<Turn>, t: nat, order: seq<nat>) returns (n: nat)
    requires PcOf(Run(size, schedule), t) == Idle && Run(size, schedule).enLock == None
    requires Complete(order, size)
    ensures var s, q := Run(size, schedule), Run(size, schedule + Call(t, EnterEn, order, n));
            PcOf(q, t) == EnLeaving(if s.enqueued < s.dequeued + 2 then 0 else -1)
    ensures var s, r := Run(size, schedule), Run(size, schedule + Call(t, EnterEn, order, n + 1));
            var stored := s.enqueued < s.dequeued + 2;
            && PcOf(r, t) == Idle && r.enLock == None && OthersStay(s, r, t)
            && r.enqueued == s.enqueued + (if stored then 1 else 0)
            && r.front == s.front && r.dequeued == s.dequeued && r.deLock == s.deLock && r.got == s.got
            && forall j: nat, i: nat :: j < 3 && i < size ==>
                 r.cells[j][i] == if stored && j == (s.enqueued + 1) % 3 then s.enqueued + 1 else s.cells[j][i]
  {
    n := EnEnds(size, schedule, t, order);
    var called, left := schedule + Call(t, EnterEn, order, n), schedule + Call(t, EnterEn, order, n + 1);
    CallLonger(schedule, t, EnterEn, order, n + 1);
    EnRound(size, called, t, order);
    EnLast(Run(size, schedule), Run(size, called), Run(size, left), t);
    MemoryFollows(size, schedule, left);
    hide Run, Call, Round, Complete, EnNext, OthersStay;
  }

  /** A dequeue that is about to return. */
  ghost predicate DeEnding(s: State, q: State, t: nat)
    requires Shaped(s)
  {
    && PcOf(q, t) == DeLeaving(if s.dequeued < s.enqueued then 0 else -1) && OthersStay(s, q, t)
    && q.dequeued == s.dequeued + (if s.dequeued < s.enqueued then 1 else 0)
    && q.rear == s.rear && q.enqueued == s.enqueued && q.enLock == s.enLock && q.cells == s.cells
    && (s.dequeued < s.enqueued ==> Covers(q.got.Keys, s.size) && FromSlot(s, q))
  }

  lemma DeEnds(size: nat, schedule: seq<Turn>, t: nat, order: seq<nat>) returns (n: nat)
    requires PcOf(Run(size, schedule), t) == Idle && Run(size, schedule).deLock == None
    requires Complete(order, size)
    ensures DeEnding(Run(size, schedule), Run(size, schedule + Call(t, EnterDe, order, n)), t)
  {
    var s := Run(size, schedule);
    assert s.dequeued <= s.enqueued by {
      RunInv(size, schedule);
    }
    hide Run, Call, Round, Complete, FromSlot, Covers;
    if s.dequeued < s.enqueued {
      n := 3;
      DeCall(size, schedule, t, order, 3);
    } else {
      n := 1;
      DeCall(size, schedule, t, order, 0);
      CallLonger(schedule, t, EnterDe, order, 1);
      DeRound(size, schedule + Call(t, EnterDe, order, 0), t, order);
    }
  }

  lemma DeLast(s: State, q: State, r: State, t: nat)
    requires Shaped(s) && Shaped(q) && DeEnding(s, q, t) && DeNext(q, r, t) && OthersStay(q, r, t)
    ensures var removed := s.dequeued < s.enqueued;
            && PcOf(r, t) == Idle && r.deLock == None && OthersStay(s, r, t)
            && r.dequeued == s.dequeued + (if removed then 1 else 0)
            && r.rear == s.rear && r.enqueued == s.enqueued && r.enLock == s.enLock && r.cells == s.cells
            && (removed ==> Covers(r.got.Keys, s.size) && FromSlot(s, r))
  {
    hide Covers;
  }

  /** A reader that enters while the lock is free and runs alone, wherever writers stand: it returns 0
      if the queue is not empty, and then its buffer holds the whole slot behind `front`; otherwise it
      returns -1. The writers' data are as before. */
  lemma DequeueAlone(size: nat, schedule: seq<Turn>, t: nat, order: seq<nat>) returns (n: nat)
    requires PcOf(Run(size, schedule), t) == Idle && Run(size, schedule).deLock == None
    requires Complete(order, size)
    ensures var s, q := Run(size, schedule), Run(size, schedule + Call(t, EnterDe, order, n));
            PcOf(q, t) == DeLeaving(if s.dequeued < s.enqueued then 0 else -1)
    ensures var s, r := Run(size, schedule), Run(size, schedule + Call(t, EnterDe, order, n + 1));
            var removed := s.dequeued < s.enqueued;
            && PcOf(r, t) == Idle && r.deLock == None && OthersStay(s, r, t)
            && r.dequeued == s.dequeued + (if removed then 1 else 0)
            && r.rear == s.rear && r.enqueued == s.enqueued && r.enLock == s.enLock && r.cells == s.cells
            && (removed ==> Covers(r.got.Keys, size) && FromSlot(s, r))
  {
    n := DeEnds(size, schedule, t, order);
    var called, left := schedule + Call(t, EnterDe, order, n), schedule + Call(t, EnterDe, order, n + 1);
    CallLonger(schedule, t, EnterDe, order, n + 1);
    DeRound(size, called, t, order);
    DeLast(Run(size, schedule), Run(size, called), Run(size, left), t);
    hide Run, Call, Round, Complete, Covers, DeNext, OthersStay, FromSlot;
  }
}
