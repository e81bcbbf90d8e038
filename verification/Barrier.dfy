/**
  `pthread_barrier_wait` of pthread_barrier.c on top of the spinning mutex and the ticket
  condition variable of pthread.c, as a step machine over any number of threads.  Every atomic
  operation is one step.  A mutex acquisition (test-and-set plus the owner store) and a release
  (owner store plus clear) are one step each: a normal mutex never reads its owner field.

  The history variables `arrived`, `leader` and `pending` record which threads added themselves
  to `waiting` in each phase, which thread completed each phase, and whether a phase has been
  advanced whose broadcast has not yet been stored.
 */
module Barrier {

  type Thread = nat

  datatype Option<T> = None | Some(value: T)

  datatype Shared = Shared(
    count: nat,
    owner: Option<Thread>,      // of barrier.lock; None is an unlocked mutex
    waiting: nat,
    phase: nat,
    woken: nat,                 // cond.seq: every ticket below it is awake
    next: nat,                  // cond.next: the next ticket
    arrived: seq<set<Thread>>,  // history: arrivals per phase
    leader: seq<Thread>,        // history: the thread that completed each phase
    pending: bool               // history: phase advanced, broadcast not stored
  )

  /** The next operation of a thread; `ph` is its local copy of the phase. */
  datatype Pc =
    | Outside
    | Lock                             // mutex_lock: test-and-set
    | LoadPhase                        // phase = barrier.phase
    | Arrive(ph: nat)                  // w = ++waiting, compare with count
    | Reset(ph: nat)                   // waiting = 0
    | Advance(ph: nat)                 // phase += 1
    | BcastLoad(ph: nat)               // broadcast: load next
    | BcastStore(ph: nat, n: nat)      // broadcast: seq = next
    | UnlockSerial(ph: nat)            // mutex_unlock, return the serial value
    | Check(ph: nat)                   // while (phase == barrier.phase)
    | Ticket(ph: nat)                  // cond_wait: ticket = next++
    | Release(ph: nat, ticket: nat)    // cond_wait: mutex_unlock
    | Sleep(ph: nat, ticket: nat)      // cond_wait: while (seq <= ticket)
    | Relock(ph: nat)                  // cond_wait: mutex_lock
    | Unlock(ph: nat)                  // mutex_unlock, return 0
    | Returned(ph: nat, serial: bool)  // the caller has the return value

  datatype State = State(shared: Shared, pc: map<Thread, Pc>)

  ghost predicate Init(s: State) {
    && s.shared.count > 0
    && s.shared == Shared(s.shared.count, None, 0, 0, 0, 0, [{}], [], false)
    && forall t :: t in s.pc ==> s.pc[t] == Outside
  }

  /** The operation of thread `t` at `p`. */
  ghost predicate Atomic(t: Thread, p: Pc, k: Shared, p': Pc, k': Shared) {
    match p
    case Outside => p' == Lock && k' == k
    case Lock =>
      if k.owner.Some? then p' == Lock && k' == k else p' == LoadPhase && k' == k.(owner := Some(t))
    case LoadPhase => p' == Arrive(k.phase) && k' == k
    case Arrive(ph) =>
      && k.phase < |k.arrived|
      && var joined := k.arrived[k.phase := k.arrived[k.phase] + {t}];
      if k.waiting + 1 == k.count then
        p' == Reset(ph) && k' == k.(waiting := k.waiting + 1, arrived := joined, leader := k.leader + [t])
      else
        p' == Check(ph) && k' == k.(waiting := k.waiting + 1, arrived := joined)
    case Reset(ph) => p' == Advance(ph) && k' == k.(waiting := 0)
    case Advance(ph) =>
      p' == BcastLoad(ph) && k' == k.(phase := k.phase + 1, arrived := k.arrived + [{}], pending := true)
    case BcastLoad(ph) => p' == BcastStore(ph, k.next) && k' == k
    case BcastStore(ph, n) => p' == UnlockSerial(ph) && k' == k.(woken := n, pending := false)
    case UnlockSerial(ph) => p' == Returned(ph, true) && k' == k.(owner := None)
    case Check(ph) => p' == (if ph == k.phase then Ticket(ph) else Unlock(ph)) && k' == k
    case Ticket(ph) => p' == Release(ph, k.next) && k' == k.(next := k.next + 1)
    case Release(ph, tk) => p' == Sleep(ph, tk) && k' == k.(owner := None)
    case Sleep(ph, tk) => p' == (if k.woken <= tk then Sleep(ph, tk) else Relock(ph)) && k' == k
    case Relock(ph) =>
      if k.owner.Some? then p' == Relock(ph) && k' == k else p' == Check(ph) && k' == k.(owner := Some(t))
    case Unlock(ph) => p' == Returned(ph, false) && k' == k.(owner := None)
    case Returned(ph, serial) => p' == Outside && k' == k
  }

  ghost predicate Step(s: State, t: Thread, s': State) {
    && t in s.pc && t in s'.pc
    && s'.pc == s.pc[t := s'.pc[t]]
    && Atomic(t, s.pc[t], s.shared, s'.pc[t], s'.shared)
  }

  ghost predicate Next(s: State, s': State) {
    exists t :: Step(s, t, s')
  }

  ghost predicate IsRun(run: seq<State>) {
    && run != [] && Init(run[0])
    && forall i :: 0 <= i < |run| - 1 ==> Next(run[i], run[i + 1])
  }

  // ---------------------------------------------------------------------------------------
  // The invariant

  predicate HoldsMutex(p: Pc) {
    match p
    case Outside => false
    case Lock => false
    case Sleep(_, _) => false
    case Relock(_) => false
    case Returned(_, _) => false
    case _ => true
  }

  /** `t` has arrived in phase `ph` and its call has not decided to return. */
  predicate WaitsIn(p: Pc, ph: nat) {
    match p
    case Reset(q) => q == ph
    case Advance(q) => q == ph
    case Check(q) => q == ph
    case Ticket(q) => q == ph
    case Release(q, _) => q == ph
    case Sleep(q, _) => q == ph
    case Relock(q) => q == ph
    case _ => false
  }

  ghost predicate SharedInv(k: Shared) {
    && k.count > 0
    && |k.arrived| == k.phase + 1
    && k.phase <= |k.leader| <= k.phase + 1
    && k.woken <= k.next
    && (forall i :: 0 <= i < k.phase ==> |k.arrived[i]| == k.count)
    && (forall i :: 0 <= i < |k.leader| ==> k.leader[i] in k.arrived[i])
    && (k.owner.None? ==> Resting(k))
  }

  /** Between two critical sections the counter is the number of arrivals, short of `count`. */
  ghost predicate Resting(k: Shared) {
    && k.phase < |k.arrived|
    && k.waiting == |k.arrived[k.phase]| < k.count
    && |k.leader| == k.phase
    && !k.pending
  }

  /** `t` took part in phase `ph`, as its leader or not. */
  ghost predicate TookPart(t: Thread, ph: nat, asLeader: bool, k: Shared) {
    && ph < |k.arrived| && t in k.arrived[ph]
    && (asLeader ==> ph < |k.leader| && k.leader[ph] == t)
    && (!asLeader && ph < |k.leader| ==> k.leader[ph] != t)
  }

  ghost predicate ThreadInv(t: Thread, p: Pc, k: Shared) {
    match p
    case Outside => true
    case Lock => true
    case LoadPhase => Resting(k)
    case Arrive(ph) => Resting(k) && ph == k.phase
    case Reset(ph) =>
      && TookPart(t, ph, true, k) && ph == k.phase && |k.leader| == k.phase + 1 && !k.pending
      && k.waiting == |k.arrived[ph]| == k.count
    case Advance(ph) =>
      && TookPart(t, ph, true, k) && ph == k.phase && |k.leader| == k.phase + 1 && !k.pending
      && k.waiting == 0 && |k.arrived[ph]| == k.count
    case BcastLoad(ph) => TookPart(t, ph, true, k) && Advanced(ph, k) && k.pending
    case BcastStore(ph, n) => TookPart(t, ph, true, k) && Advanced(ph, k) && k.pending && n == k.next
    case UnlockSerial(ph) => TookPart(t, ph, true, k) && Advanced(ph, k) && Resting(k)
    case Check(ph) => TookPart(t, ph, false, k) && ph <= k.phase && Resting(k)
    case Ticket(ph) => TookPart(t, ph, false, k) && ph == k.phase && Resting(k)
    case Release(ph, tk) => TookPart(t, ph, false, k) && ph == k.phase && Resting(k) && k.woken <= tk < k.next
    case Sleep(ph, tk) =>
      && TookPart(t, ph, false, k) && ph <= k.phase && tk < k.next
      && (ph == k.phase ==> k.woken <= tk)
      && (ph < k.phase ==> tk < k.woken || k.pending)
    case Relock(ph) => TookPart(t, ph, false, k) && ph <= k.phase
    case Unlock(ph) => TookPart(t, ph, false, k) && ph < k.phase && Resting(k)
    case Returned(ph, serial) => TookPart(t, ph, serial, k) && ph < k.phase
  }

  ghost predicate Advanced(ph: nat, k: Shared) {
    && ph + 1 == k.phase && k.phase < |k.arrived| && k.arrived[k.phase] == {}
    && k.waiting == 0 && |k.leader| == k.phase
  }

  ghost predicate Inv(s: State) {
    && SharedInv(s.shared)
    && (forall t :: t in s.pc ==> ThreadInv(t, s.pc[t], s.shared))
    && (forall t :: t in s.pc && HoldsMutex(s.pc[t]) ==> s.shared.owner == Some(t))
    && (s.shared.owner.Some? ==> s.shared.owner.value in s.pc && HoldsMutex(s.pc[s.shared.owner.value]))
    && (forall t :: t in s.shared.arrived[s.shared.phase] ==> t in s.pc && WaitsIn(s.pc[t], s.shared.phase))
  }

  // ---------------------------------------------------------------------------------------
  // Preservation

  lemma InitEstablishesInv(s: State)
    requires Init(s)
    ensures Inv(s)
  {
  }

  /** The thread that moves. */
  lemma OwnStep(t: Thread, p: Pc, k: Shared, p': Pc, k': Shared)
    requires SharedInv(k) && ThreadInv(t, p, k) && Atomic(t, p, k, p', k')
    requires HoldsMutex(p) <==> k.owner == Some(t)
    requires t in k.arrived[k.phase] ==> WaitsIn(p, k.phase)
    ensures SharedInv(k') && ThreadInv(t, p', k')
    ensures HoldsMutex(p') <==> k'.owner == Some(t)
    ensures k'.owner == k.owner || k'.owner == None || k'.owner == Some(t)
    ensures t in k'.arrived[k'.phase] ==> WaitsIn(p', k'.phase)
    ensures k'.arrived[k'.phase] <= k.arrived[k.phase] + {t}
  {
  }

  /** Every other thread. */
  lemma OthersUndisturbed(t: Thread, p: Pc, k: Shared, p': Pc, k': Shared, u: Thread, q: Pc)
    requires SharedInv(k) && ThreadInv(t, p, k) && Atomic(t, p, k, p', k')
    requires HoldsMutex(p) ==> k.owner == Some(t)
    requires u != t && ThreadInv(u, q, k) && (HoldsMutex(q) ==> k.owner == Some(u))
    requires u in k.arrived[k.phase] ==> WaitsIn(q, k.phase)
    requires SharedInv(k')
    ensures ThreadInv(u, q, k')
    ensures HoldsMutex(q) ==> k'.owner == Some(u)
    ensures u in k'.arrived[k'.phase] ==> WaitsIn(q, k'.phase)
  {
  }

  lemma StepKeepsInv(s: State, t: Thread, s': State)
    requires Inv(s) && Step(s, t, s')
    ensures Inv(s')
  {
    hide ThreadInv, SharedInv, Atomic, WaitsIn;
    OwnStep(t, s.pc[t], s.shared, s'.pc[t], s'.shared);
    forall u | u in s.pc && u != t
      ensures ThreadInv(u, s'.pc[u], s'.shared)
      ensures HoldsMutex(s'.pc[u]) ==> s'.shared.owner == Some(u)
      ensures u in s'.shared.arrived[s'.shared.phase] ==> WaitsIn(s'.pc[u], s'.shared.phase)
    {
      OthersUndisturbed(t, s.pc[t], s.shared, s'.pc[t], s'.shared, u, s.pc[u]);
    }
  }

  /** The invariant holds in every state of every run. */
  lemma {:induction false} InvAlways(run: seq<State>, i: nat)
    requires IsRun(run) && i < |run|
    ensures Inv(run[i])
  {
    if i == 0 {
      InitEstablishesInv(run[0]);
    } else {
      InvAlways(run, i - 1);
      assert Next(run[i - 1], run[i - 1 + 1]);
      var t :| Step(run[i - 1], t, run[i]);
      StepKeepsInv(run[i - 1], t, run[i]);
    }
  }

  // ---------------------------------------------------------------------------------------
  // What the barrier promises

  /** Before a phase is over its arrivals only accumulate; afterwards they never change. */
  lemma StepExtendsHistory(s: State, t: Thread, s': State)
    requires Inv(s) && Step(s, t, s')
    ensures s'.shared.count == s.shared.count && s.shared.phase <= s'.shared.phase
    ensures s.shared.leader <= s'.shared.leader
    ensures forall k :: 0 <= k < s.shared.phase ==> s'.shared.arrived[k] == s.shared.arrived[k]
  {
    StepKeepsInv(s, t, s');
    assert ThreadInv(t, s.pc[t], s.shared);
  }

  lemma {:induction false} HistoryOnlyGrows(run: seq<State>, i: nat, j: nat)
    requires IsRun(run) && i <= j < |run|
    ensures Inv(run[i]) && Inv(run[j])
    ensures run[j].shared.count == run[i].shared.count && run[i].shared.phase <= run[j].shared.phase
    ensures run[i].shared.leader <= run[j].shared.leader
    ensures forall k :: 0 <= k < run[i].shared.phase ==> run[j].shared.arrived[k] == run[i].shared.arrived[k]
  {
    hide ThreadInv, Atomic, Resting;
    InvAlways(run, i);
    InvAlways(run, j);
    if i < j {
      HistoryOnlyGrows(run, i, j - 1);
      assert Next(run[j - 1], run[j - 1 + 1]);
      var t :| Step(run[j - 1], t, run[j]);
      StepExtendsHistory(run[j - 1], t, run[j]);
    }
  }

  /** No wait of phase `ph` returns before `count` different threads have arrived in that phase. */
  lemma NoEarlyReturn(run: seq<State>, i: nat, t: Thread)
    requires IsRun(run) && i < |run| && t in run[i].pc && run[i].pc[t].Returned?
    ensures var ph := run[i].pc[t].ph;
            ph < |run[i].shared.arrived| && t in run[i].shared.arrived[ph]
            && |run[i].shared.arrived[ph]| == run[0].shared.count
  {
    InvAlways(run, i);
    HistoryOnlyGrows(run, 0, i);
    assert ThreadInv(t, run[i].pc[t], run[i].shared);
  }

  /**
    A completed phase has one leader, an arrival of that phase; whoever returns from the phase,
    at whatever point of the run, gets the serial value exactly if it is that leader.
   */
  lemma ExactlyOneSerial(run: seq<State>, i: nat, t: Thread, last: nat)
    requires IsRun(run) && i <= last < |run| && t in run[i].pc && run[i].pc[t].Returned?
    ensures var ph := run[i].pc[t].ph;
            && ph < |run[last].shared.leader|
            && ph < |run[last].shared.arrived|
            && run[last].shared.leader[ph] in run[last].shared.arrived[ph]
            && (run[i].pc[t].serial <==> run[last].shared.leader[ph] == t)
  {
    HistoryOnlyGrows(run, i, last);
    assert ThreadInv(t, run[i].pc[t], run[i].shared);
  }

  lemma OneSerialPerPhase(run: seq<State>, i: nat, t: Thread, j: nat, u: Thread)
    requires IsRun(run) && i < |run| && j < |run|
    requires t in run[i].pc && run[i].pc[t].Returned? && run[i].pc[t].serial
    requires u in run[j].pc && run[j].pc[u].Returned? && run[j].pc[u].serial
    requires run[i].pc[t].ph == run[j].pc[u].ph
    ensures t == u
  {
    ExactlyOneSerial(run, i, t, |run| - 1);
    ExactlyOneSerial(run, j, u, |run| - 1);
  }

  lemma PendingMeansBroadcasting(s: State)
    requires Inv(s) && s.shared.pending
    ensures exists u :: u in s.pc && (s.pc[u].BcastLoad? || s.pc[u].BcastStore?)
  {
    var o := s.shared.owner.value;
    assert ThreadInv(o, s.pc[o], s.shared);
  }

  /**
    No wakeup is lost: once the phase a sleeper waits for is over and its broadcast is stored,
    the sleeper's ticket is below `seq`; and it is never below it earlier.
   */
  lemma NoLostWakeup(run: seq<State>, i: nat, t: Thread)
    requires IsRun(run) && i < |run| && t in run[i].pc && run[i].pc[t].Sleep?
    requires forall u :: u in run[i].pc ==> !run[i].pc[u].BcastLoad? && !run[i].pc[u].BcastStore?
    ensures run[i].pc[t].ticket < run[i].shared.woken <==> run[i].pc[t].ph < run[i].shared.phase
  {
    InvAlways(run, i);
    var s := run[i];
    assert ThreadInv(t, s.pc[t], s.shared);
    if s.shared.pending {
      PendingMeansBroadcasting(s);
    }
  }

  /** A thread that no step can move: outside the barrier or asleep with its ticket not reached. */
  predicate Stuck(p: Pc, k: Shared) {
    p.Outside? || p.Returned? || (p.Sleep? && k.woken <= p.ticket)
  }

  ghost function Asleep(pc: map<Thread, Pc>): set<Thread> {
    set t | t in pc && pc[t].Sleep?
  }

  /** The barrier never deadlocks: if every thread is stuck, fewer than `count` are asleep. */
  lemma StuckOnlyWhenShort(run: seq<State>, i: nat)
    requires IsRun(run) && i < |run|
    requires forall t :: t in run[i].pc ==> Stuck(run[i].pc[t], run[i].shared)
    ensures |Asleep(run[i].pc)| < run[0].shared.count
  {
    InvAlways(run, i);
    HistoryOnlyGrows(run, 0, i);
    var s := run[i];
    assert s.shared.owner.None?;
    var asleep := Asleep(s.pc);
    forall t | t in asleep
      ensures t in s.shared.arrived[s.shared.phase]
    {
      assert ThreadInv(t, s.pc[t], s.shared);
    }
    SubsetSize(asleep, s.shared.arrived[s.shared.phase]);
  }

  lemma {:induction false} SubsetSize(a: set<Thread>, b: set<Thread>)
    requires a <= b
    ensures |a| <= |b|
  {
    if a != {} {
      var x :| x in a;
      SubsetSize(a - {x}, b - {x});
    }
  }
}
