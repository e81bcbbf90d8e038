/**
  The spinning read-write lock of pthread_rwlock.c as a step machine over any number of
  threads.  Every atomic operation of the source is one step; a thread's program counter says
  which atomic operation it performs next.

  `pthread_rwlock_unlock` is one routine for both kinds of hold and picks its branch from the
  `writer` flag alone.  A reader that unlocks while a writer is announced therefore clears the
  writer's flag and never gives its own increment back.  The history variable `lost` counts
  those increments; the lock is still mutually exclusive, but once `lost` is positive no
  thread ever acquires it for writing again.
 */
module ReadWriteLock {

  type Thread = nat

  /** What a thread inside `unlock` held when it called it; the code itself never looks at this. */
  datatype Hold = Read | Write

  /** The next atomic operation of a thread. */
  datatype Pc =
    | Idle                     // outside the lock's routines, holding nothing
    | RdSpin                   // rdlock: load writer, spin while set
    | RdAdd                    // rdlock: readers += 1
    | RdCheck                  // rdlock: load writer again
    | RdBack                   // rdlock: readers -= 1 and start over
    | Reading                  // rdlock returned
    | WrSwap                   // wrlock: exchange(writer, 1), spin while it was set
    | WrWait                   // wrlock: load readers, sleep while nonzero
    | Writing                  // wrlock returned
    | UnlockLoad(hold: Hold)   // unlock: load writer
    | UnlockClear(hold: Hold)  // unlock: writer = 0
    | UnlockSub(hold: Hold)    // unlock: readers -= 1

  /** The lock's two atomics and the history variable. */
  datatype Lock = Lock(readers: int, writer: bool, lost: nat)

  datatype State = State(lock: Lock, pc: map<Thread, Pc>)

  ghost predicate Init(s: State) {
    && s.lock == Lock(0, false, 0)
    && forall t :: t in s.pc ==> s.pc[t] == Idle
  }

  /** The atomic operation at `p`, taking the lock from `k` to `k'` and the thread to `p'`. */
  predicate Atomic(p: Pc, k: Lock, p': Pc, k': Lock) {
    match p
    case Idle => k' == k && (p' == RdSpin || p' == WrSwap)
    case RdSpin => k' == k && p' == if k.writer then RdSpin else RdAdd
    case RdAdd => k' == Lock(k.readers + 1, k.writer, k.lost) && p' == RdCheck
    case RdCheck => k' == k && p' == if k.writer then RdBack else Reading
    case RdBack => k' == Lock(k.readers - 1, k.writer, k.lost) && p' == RdSpin
    case Reading => k' == k && p' == UnlockLoad(Read)
    case WrSwap => k' == Lock(k.readers, true, k.lost) && p' == if k.writer then WrSwap else WrWait
    case WrWait => k' == k && p' == if k.readers != 0 then WrWait else Writing
    case Writing => k' == k && p' == UnlockLoad(Write)
    case UnlockLoad(h) => k' == k && p' == if k.writer then UnlockClear(h) else UnlockSub(h)
    case UnlockClear(h) =>
      k' == Lock(k.readers, false, if h.Read? then k.lost + 1 else k.lost) && p' == Idle
    case UnlockSub(h) => k' == Lock(k.readers - 1, k.writer, k.lost) && p' == Idle
  }

  /** One atomic step of thread `t`. */
  ghost predicate Step(s: State, t: Thread, s': State) {
    && t in s.pc && t in s'.pc
    && s'.pc == s.pc[t := s'.pc[t]]
    && Atomic(s.pc[t], s.lock, s'.pc[t], s'.lock)
  }

  ghost predicate Next(s: State, s': State) {
    exists t :: Step(s, t, s')
  }

  /** A finite execution: any interleaving of the threads' steps. */
  ghost predicate IsRun(run: seq<State>) {
    && run != [] && Init(run[0])
    && forall i :: 0 <= i < |run| - 1 ==> Next(run[i], run[i + 1])
  }

  predicate HoldsRead(p: Pc) {
    match p
    case Reading => true
    case UnlockLoad(h) => h.Read?
    case UnlockClear(h) => h.Read?
    case UnlockSub(h) => h.Read?
    case _ => false
  }

  predicate HoldsWrite(p: Pc) {
    match p
    case Writing => true
    case UnlockLoad(h) => h.Write?
    case UnlockClear(h) => h.Write?
    case UnlockSub(h) => h.Write?
    case _ => false
  }

  predicate OwesDecrement(p: Pc) {
    HoldsRead(p) || p.RdCheck? || p.RdBack?
  }

  predicate IsAnnounced(p: Pc) {
    HoldsWrite(p) || p.WrWait?
  }

  /** Threads whose increment of `readers` is still theirs to give back. */
  ghost function Counted(pc: map<Thread, Pc>): set<Thread> {
    set t | t in pc && OwesDecrement(pc[t])
  }

  /** Threads that announced themselves as the writer and have not cleared the flag. */
  ghost function Announced(pc: map<Thread, Pc>): set<Thread> {
    set t | t in pc && IsAnnounced(pc[t])
  }

  ghost predicate CountInv(s: State) {
    s.lock.readers == |Counted(s.pc)| + s.lock.lost
  }

  ghost predicate FlagInv(s: State) {
    s.lock.lost == 0 ==>
      && (s.lock.writer <==> Announced(s.pc) != {})
      && forall t, u :: t in Announced(s.pc) && u in Announced(s.pc) ==> t == u
  }

  ghost predicate HolderInv(s: State) {
    forall t :: t in s.pc && HoldsWrite(s.pc[t]) ==>
      && s.lock.lost == 0
      && s.pc[t] != UnlockSub(Write)
      && forall u :: u in s.pc ==> !HoldsRead(s.pc[u])
  }

  ghost predicate Inv(s: State) {
    CountInv(s) && FlagInv(s) && HolderInv(s)
  }

  lemma InitEstablishesInv(s: State)
    requires Init(s)
    ensures Inv(s)
  {
    assert Counted(s.pc) == {};
    assert Announced(s.pc) == {};
  }

  /** How the two sets change when one thread moves. */
  lemma CountedAfterMove(pc: map<Thread, Pc>, t: Thread, p: Pc)
    requires t in pc
    ensures |Counted(pc[t := p])| ==
            |Counted(pc)| - (if OwesDecrement(pc[t]) then 1 else 0) + (if OwesDecrement(p) then 1 else 0)
  {
    var others := Counted(pc) - {t};
    assert Counted(pc) == if OwesDecrement(pc[t]) then others + {t} else others;
    assert Counted(pc[t := p]) == if OwesDecrement(p) then others + {t} else others;
  }

  lemma AnnouncedAfterMove(pc: map<Thread, Pc>, t: Thread, p: Pc)
    requires t in pc
    ensures Announced(pc[t := p]) ==
            if IsAnnounced(p) then Announced(pc) + {t} else Announced(pc) - {t}
  {
  }

  lemma StepKeepsCount(s: State, t: Thread, s': State)
    requires Inv(s) && Step(s, t, s')
    ensures CountInv(s')
  {
    CountedAfterMove(s.pc, t, s'.pc[t]);
  }

  lemma StepKeepsFlag(s: State, t: Thread, s': State)
    requires Inv(s) && Step(s, t, s')
    ensures FlagInv(s')
  {
    AnnouncedAfterMove(s.pc, t, s'.pc[t]);
    assert IsAnnounced(s.pc[t]) <==> t in Announced(s.pc);
  }

  lemma StepKeepsHolder(s: State, t: Thread, s': State)
    requires Inv(s) && Step(s, t, s')
    ensures HolderInv(s')
  {
    assert forall u :: u in s.pc && IsAnnounced(s.pc[u]) ==> u in Announced(s.pc);
    if s.pc[t] == WrWait && s.lock.readers == 0 {
      assert Counted(s.pc) == {};
      assert forall v :: v in s.pc && HoldsRead(s.pc[v]) ==> v in Counted(s.pc);
    }
  }

  lemma StepKeepsInv(s: State, t: Thread, s': State)
    requires Inv(s) && Step(s, t, s')
    ensures Inv(s')
  {
    StepKeepsCount(s, t, s');
    StepKeepsFlag(s, t, s');
    StepKeepsHolder(s, t, s');
  }

  /** The invariant holds in every state of every run. */
  lemma {:induction false} InvAlways(run: seq<State>, i: nat)
    requires IsRun(run) && i < |run|
    ensures Inv(run[i])
  {
    if i == 0 {
      InitEstablishesInv(run[0]);
    } else {
      InvAlways(run, i - 1);
      assert Next(run[i - 1], run[i - 1 + 1]);
      var t :| Step(run[i - 1], t, run[i]);
      StepKeepsInv(run[i - 1], t, run[i]);
    }
  }

  lemma AnnouncedAreEqual(s: State, t: Thread, u: Thread)
    requires Inv(s) && t in s.pc && u in s.pc && HoldsWrite(s.pc[t]) && HoldsWrite(s.pc[u])
    ensures t == u
  {
    assert t in Announced(s.pc) && u in Announced(s.pc);
  }

  /** While one thread holds the lock for writing, no other thread holds it in any way. */
  lemma MutualExclusion(run: seq<State>, i: nat, t: Thread, u: Thread)
    requires IsRun(run) && i < |run|
    requires t in run[i].pc && u in run[i].pc && t != u
    requires HoldsWrite(run[i].pc[t])
    ensures !HoldsRead(run[i].pc[u]) && !HoldsWrite(run[i].pc[u])
  {
    InvAlways(run, i);
    assert t in Announced(run[i].pc);
    if HoldsWrite(run[i].pc[u]) {
      AnnouncedAreEqual(run[i], t, u);
    }
  }

  /** A writer's unlock always finds the flag set, so it never decrements `readers`. */
  lemma WriterUnlocksByFlag(run: seq<State>, i: nat, t: Thread)
    requires IsRun(run) && i < |run|
    requires t in run[i].pc && HoldsWrite(run[i].pc[t])
    ensures run[i].lock.writer && run[i].pc[t] != UnlockSub(Write)
  {
    InvAlways(run, i);
    assert t in Announced(run[i].pc);
  }

  // ---------------------------------------------------------------------------------------
  // The price of choosing unlock's branch from the flag

  /** Step `i` of the run is a reader's unlock that clears the flag of an announced writer. */
  ghost predicate ReaderClears(run: seq<State>, i: nat)
    requires i + 1 < |run|
  {
    exists t :: t in run[i].pc && run[i].pc[t] == UnlockClear(Read) && Step(run[i], t, run[i + 1])
  }

  lemma LostNeverShrinks(run: seq<State>, i: nat)
    requires IsRun(run) && i + 1 < |run|
    ensures run[i].lock.lost <= run[i + 1].lock.lost
    ensures run[i].lock.lost < run[i + 1].lock.lost <==> ReaderClears(run, i)
  {
    assert Next(run[i], run[i + 1]);
    var t :| Step(run[i], t, run[i + 1]);
  }

  lemma {:induction false} LostIsMonotone(run: seq<State>, i: nat, j: nat)
    requires IsRun(run) && i <= j < |run|
    ensures run[i].lock.lost <= run[j].lock.lost
  {
    if i < j {
      LostIsMonotone(run, i, j - 1);
      LostNeverShrinks(run, j - 1);
    }
  }

  /**
    After a reader's unlock has cleared the flag, no state of the run ever again has a thread
    holding the lock for writing, although `wrlock` can still be called.
   */
  lemma ClearedByReaderBlocksWritersForever(run: seq<State>, i: nat, j: nat, t: Thread)
    requires IsRun(run) && i < j < |run| && ReaderClears(run, i)
    requires t in run[j].pc
    ensures !HoldsWrite(run[j].pc[t])
  {
    LostNeverShrinks(run, i);
    LostIsMonotone(run, i + 1, j);
    InvAlways(run, j);
  }

  /**
    `readers` is exactly the number of threads that still have to give an increment back if and
    only if no reader's unlock so far found the writer flag set.
   */
  lemma {:induction false} ReaderCountIsExactIff(run: seq<State>, i: nat)
    requires IsRun(run) && i < |run|
    ensures run[i].lock.readers == |Counted(run[i].pc)| <==> forall k :: 0 <= k < i ==> !ReaderClears(run, k)
  {
    InvAlways(run, i);
    if i > 0 {
      ReaderCountIsExactIff(run, i - 1);
      InvAlways(run, i - 1);
      LostNeverShrinks(run, i - 1);
      assert ReaderClears(run, i - 1) || run[i].lock.lost == run[i - 1].lock.lost;
      if forall k :: 0 <= k < i - 1 ==> !ReaderClears(run, k) {
      } else {
        var k :| 0 <= k < i - 1 && ReaderClears(run, k);
        assert 0 <= k < i && ReaderClears(run, k);
      }
    }
  }

  /** A state of the two threads 0 and 1. */
  function Duo(k: Lock, p0: Pc, p1: Pc): State {
    State(k, map[0 := p0, 1 := p1])
  }

  /** Appends a step of one of the two threads to a run that ends in `Duo(k, p0, p1)`. */
  lemma Extend(run: seq<State>, k: Lock, p0: Pc, p1: Pc, k': Lock, q0: Pc, q1: Pc)
    returns (longer: seq<State>)
    requires IsRun(run) && run[|run| - 1] == Duo(k, p0, p1)
    requires (Atomic(p0, k, q0, k') && p1 == q1) || (Atomic(p1, k, q1, k') && p0 == q0)
    ensures IsRun(longer) && |longer| == |run| + 1
    ensures longer[|run| - 1] == Duo(k, p0, p1) && longer[|run|] == Duo(k', q0, q1)
    ensures Atomic(p0, k, q0, k') && p1 == q1 ==> Step(longer[|run| - 1], 0, longer[|run|])
  {
    var last, next := Duo(k, p0, p1), Duo(k', q0, q1);
    longer := run + [next];
    if Atomic(p0, k, q0, k') && p1 == q1 {
      assert next.pc == last.pc[0 := q0];
      assert Step(last, 0, next);
    } else {
      assert next.pc == last.pc[1 := q1];
      assert Step(last, 1, next);
    }
    forall i | 0 <= i < |longer| - 1
      ensures Next(longer[i], longer[i + 1])
    {
      if i + 1 < |run| {
        assert Next(run[i], run[i + 1]);
      }
    }
  }

  lemma ReaderGetsIn() returns (run: seq<State>)
    ensures IsRun(run) && run[|run| - 1] == Duo(Lock(1, false, 0), Reading, Idle)
  {
    var free, one := Lock(0, false, 0), Lock(1, false, 0);
    run := [Duo(free, Idle, Idle)];
    run := Extend(run, free, Idle, Idle, free, RdSpin, Idle);
    run := Extend(run, free, RdSpin, Idle, free, RdAdd, Idle);
    run := Extend(run, free, RdAdd, Idle, one, RdCheck, Idle);
    run := Extend(run, one, RdCheck, Idle, one, Reading, Idle);
  }

  lemma WriterAnnounces() returns (run: seq<State>)
    ensures IsRun(run) && run[|run| - 1] == Duo(Lock(1, true, 0), Reading, WrWait)
  {
    var one, both := Lock(1, false, 0), Lock(1, true, 0);
    run := ReaderGetsIn();
    run := Extend(run, one, Reading, Idle, one, Reading, WrSwap);
    run := Extend(run, one, Reading, WrSwap, both, Reading, WrWait);
  }

  lemma WriterAnnouncesWhileReading() returns (run: seq<State>)
    ensures IsRun(run) && run[|run| - 1] == Duo(Lock(1, true, 0), UnlockClear(Read), WrWait)
  {
    var both := Lock(1, true, 0);
    run := WriterAnnounces();
    run := Extend(run, both, Reading, WrWait, both, UnlockLoad(Read), WrWait);
    run := Extend(run, both, UnlockLoad(Read), WrWait, both, UnlockClear(Read), WrWait);
  }

  /** Two threads reach the stuck state: thread 0 reads, thread 1 announces, thread 0 unlocks. */
  lemma ReaderCanClearAnAnnouncedWriter()
    ensures exists run: seq<State>, i: nat :: i + 1 < |run| && IsRun(run) && ReaderClears(run, i)
  {
    var before := WriterAnnouncesWhileReading();
    var i := |before| - 1;
    var run := Extend(before, Lock(1, true, 0), UnlockClear(Read), WrWait, Lock(1, false, 1), Idle, WrWait);
    assert run[i].pc[0] == UnlockClear(Read) && Step(run[i], 0, run[i + 1]);
    assert ReaderClears(run, i);
  }
}
