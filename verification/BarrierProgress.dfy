/** What the barrier can still do: which threads are blocked, and when a waiting thread can return. */
module BarrierProgress {
  import opened Barrier

  /** The only step of thread `t` at `p`. */
  ghost function After(t: Thread, p: Pc, k: Shared): (Pc, Shared)
    requires SharedInv(k)
  {
    match p
    case Outside => (Lock, k)
    case Lock => if k.owner.Some? then (p, k) else (LoadPhase, k.(owner := Some(t)))
    case LoadPhase => (Arrive(k.phase), k)
    case Arrive(ph) =>
      var joined := k.arrived[k.phase := k.arrived[k.phase] + {t}];
      if k.waiting + 1 == k.count then
        (Reset(ph), k.(waiting := k.waiting + 1, arrived := joined, leader := k.leader + [t]))
      else (Check(ph), k.(waiting := k.waiting + 1, arrived := joined))
    case Reset(ph) => (Advance(ph), k.(waiting := 0))
    case Advance(ph) => (BcastLoad(ph), k.(phase := k.phase + 1, arrived := k.arrived + [{}], pending := true))
    case BcastLoad(ph) => (BcastStore(ph, k.next), k)
    case BcastStore(ph, n) => (UnlockSerial(ph), k.(woken := n, pending := false))
    case UnlockSerial(ph) => (Returned(ph, true), k.(owner := None))
    case Check(ph) => (if ph == k.phase then Ticket(ph) else Unlock(ph), k)
    case Ticket(ph) => (Release(ph, k.next), k.(next := k.next + 1))
    case Release(ph, tk) => (Sleep(ph, tk), k.(owner := None))
    case Sleep(ph, tk) => (if k.woken <= tk then p else Relock(ph), k)
    case Relock(ph) => if k.owner.Some? then (p, k) else (Check(ph), k.(owner := Some(t)))
    case Unlock(ph) => (Returned(ph, false), k.(owner := None))
    case Returned(_, _) => (Outside, k)
  }

  lemma OneStep(t: Thread, p: Pc, k: Shared, p': Pc, k': Shared)
    requires SharedInv(k)
    ensures Atomic(t, p, k, p', k') <==> (p', k') == After(t, p, k)
  {
  }

  // ---------------------------------------------------------------------------------------
  // Blocked threads

  /** Every step the thread can take leaves it where it is. */
  ghost predicate Blocked(t: Thread, p: Pc, k: Shared) {
    forall p', k' :: Atomic(t, p, k, p', k') ==> p' == p
  }

  lemma BlockedIff(t: Thread, p: Pc, k: Shared)
    requires SharedInv(k)
    ensures Blocked(t, p, k) <==> ((p.Lock? || p.Relock?) && k.owner.Some?) || (p.Sleep? && k.woken <= p.ticket)
  {
    hide Atomic, SharedInv;
    var r := After(t, p, k);
    OneStep(t, p, k, r.0, r.1);
    forall p', k' | Atomic(t, p, k, p', k')
      ensures (p', k') == r
    {
      OneStep(t, p, k, p', k');
    }
  }

  predicate Idle(p: Pc) {
    p.Outside? || p.Returned?
  }

  ghost predicate AllBlocked(s: State) {
    forall t :: t in s.pc && !Idle(s.pc[t]) ==> Blocked(t, s.pc[t], s.shared)
  }

  /**
    In every reachable state, the threads inside are all blocked exactly if all of them are asleep with a
    ticket that is not reached, in the current phase; then fewer than `count` are, and nothing changes
    until another call is made.
   */
  lemma AllBlockedIff(run: seq<State>, i: nat)
    requires IsRun(run) && i < |run|
    ensures AllBlocked(run[i]) <==> forall t :: t in run[i].pc ==> Stuck(run[i].pc[t], run[i].shared)
    ensures AllBlocked(run[i]) ==>
              && |Asleep(run[i].pc)| < run[0].shared.count
              && forall t, s' :: Step(run[i], t, s') && !Idle(run[i].pc[t]) ==> s' == run[i]
  {
    hide Atomic, ThreadInv, SharedInv, Blocked;
    InvAlways(run, i);
    var s := run[i];
    forall t | t in s.pc
      ensures Blocked(t, s.pc[t], s.shared) <==>
              ((s.pc[t].Lock? || s.pc[t].Relock?) && s.shared.owner.Some?) || (s.pc[t].Sleep? && s.shared.woken <= s.pc[t].ticket)
    {
      BlockedIff(t, s.pc[t], s.shared);
    }
    if AllBlocked(s) {
      StuckOnlyWhenShort(run, i);
      forall t, s' | Step(s, t, s') && !Idle(s.pc[t])
        ensures s' == s
      {
        OneStep(t, s.pc[t], s.shared, s'.pc[t], s'.shared);
        assert s'.pc[t] == s.pc[t];
      }
    }
  }

  // ---------------------------------------------------------------------------------------
  // Continuations

  ghost predicate Path(path: seq<State>) {
    path != [] && forall i :: 0 <= i < |path| - 1 ==> Next(path[i], path[i + 1])
  }

  ghost predicate Leads(s: State, path: seq<State>, s': State) {
    Path(path) && path[0] == s && path[|path| - 1] == s'
  }

  /** Some continuation of s ends in s'. */
  ghost predicate Reaches(s: State, s': State) {
    exists path: seq<State> :: Leads(s, path, s')
  }

  lemma ReachesSelf(s: State)
    ensures Reaches(s, s)
  {
    assert Leads(s, [s], s);
  }

  ghost function Moved(s: State, t: Thread): State
    requires t in s.pc && SharedInv(s.shared)
  {
    var r := After(t, s.pc[t], s.shared);
    State(r.1, s.pc[t := r.0])
  }

  lemma MovedReaches(s: State, t: Thread, s': State)
    requires Inv(s) && t in s.pc
    ensures Inv(Moved(s, t)) && (Reaches(Moved(s, t), s') ==> Reaches(s, s'))
  {
    hide After, Atomic, Inv;
    assert SharedInv(s.shared) by { SharedPart(s); }
    var n := Moved(s, t);
    var r := After(t, s.pc[t], s.shared);
    OneStep(t, s.pc[t], s.shared, r.0, r.1);
    assert Step(s, t, n);
    StepKeepsInv(s, t, n);
    if Reaches(n, s') {
      var path: seq<State> :| Leads(n, path, s');
      var longer := [s] + path;
      forall i | 0 <= i < |longer| - 1
        ensures Next(longer[i], longer[i + 1])
      {
        if i > 0 {
          assert Next(path[i - 1], path[i - 1 + 1]);
        }
      }
      assert Leads(s, longer, s');
    }
  }

  lemma SharedPart(s: State)
    requires Inv(s)
    ensures SharedInv(s.shared)
  {
  }

  // ---------------------------------------------------------------------------------------
  // A completed phase lets its threads go

  /** Past its arrival in phase `ph`, and not yet returned. */
  predicate StillIn(p: Pc, ph: nat) {
    !p.Outside? && !p.Lock? && !p.LoadPhase? && !p.Arrive? && !p.Returned? && p.ph == ph
  }

  predicate Back(p: Pc, ph: nat) {
    p.Returned? && p.ph == ph
  }

  /** From s to s' no thread of phase `ph` does anything but return. */
  ghost predicate OnlyReturns(s: State, s': State, ph: nat) {
    && s'.pc.Keys == s.pc.Keys
    && forall t :: t in s.pc && (StillIn(s.pc[t], ph) || Back(s.pc[t], ph)) ==>
         Back(s'.pc[t], ph) || (StillIn(s.pc[t], ph) && StillIn(s'.pc[t], ph))
  }

  /** How many steps the owner of the mutex is from releasing it, at most. */
  function Stage(p: Pc): nat {
    match p
    case LoadPhase => 9
    case Arrive(_) => 8
    case Reset(_) => 7
    case Advance(_) => 6
    case BcastLoad(_) => 5
    case BcastStore(_, _) => 4
    case UnlockSerial(_) => 3
    case Check(_) => 3
    case Ticket(_) => 2
    case Release(_, _) => 1
    case Unlock(_) => 1
    case _ => 0
  }

  /** A new phase, or at least as many arrivals in the same one. */
  ghost predicate NotEarlier(k: Shared, k': Shared)
    requires SharedInv(k) && SharedInv(k')
  {
    && k'.count == k.count
    && (k.phase < k'.phase || (k.phase == k'.phase && k.arrived[k.phase] <= k'.arrived[k.phase]))
  }

  lemma OwnerStage(t: Thread, p: Pc, k: Shared)
    requires SharedInv(k) && ThreadInv(t, p, k) && HoldsMutex(p)
    ensures var r := After(t, p, k);
            && Stage(r.0) < Stage(p) && (HoldsMutex(r.0) || r.1.owner.None?) && r.1.count == k.count
            && (k.phase < r.1.phase || (k.phase == r.1.phase < |r.1.arrived| && k.arrived[k.phase] <= r.1.arrived[k.phase]))
            && !p.Returned? && forall ph :: StillIn(p, ph) ==> StillIn(r.0, ph) || Back(r.0, ph)
  {
  }

  lemma OwnerMoves(s: State, o: Thread, ph: nat)
    requires Inv(s) && o in s.pc && HoldsMutex(s.pc[o])
    ensures SharedInv(s.shared) && var n := Moved(s, o);
            && Stage(n.pc[o]) < Stage(s.pc[o]) && (HoldsMutex(n.pc[o]) || n.shared.owner.None?)
            && Inv(n) && NotEarlier(s.shared, n.shared) && OnlyReturns(s, n, ph)
  {
    hide After, Stage, ThreadInv, HoldsMutex;
    MovedReaches(s, o, s);
    OwnerStage(o, s.pc[o], s.shared);
  }

  lemma ReachesTrans(a: State, b: State, c: State)
    requires Reaches(a, b) && Reaches(b, c)
    ensures Reaches(a, c)
  {
    var x: seq<State> :| Leads(a, x, b);
    var y: seq<State> :| Leads(b, y, c);
    var z := x + y[1..];
    forall i | 0 <= i < |z| - 1
      ensures Next(z[i], z[i + 1])
    {
      if i < |x| - 1 {
        assert Next(x[i], x[i + 1]);
      } else {
        var j := i - |x| + 1;
        assert z[i] == y[j] && z[i + 1] == y[j + 1];
        assert Next(y[j], y[j + 1]);
      }
    }
    assert Leads(a, z, c);
  }

  lemma OnlyReturnsSelf(s: State, ph: nat)
    ensures OnlyReturns(s, s, ph)
  {
  }

  lemma OnlyReturnsTrans(a: State, b: State, c: State, ph: nat)
    requires OnlyReturns(a, b, ph) && OnlyReturns(b, c, ph)
    ensures OnlyReturns(a, c, ph)
  {
    forall t | t in a.pc && (StillIn(a.pc[t], ph) || Back(a.pc[t], ph))
      ensures Back(c.pc[t], ph) || (StillIn(a.pc[t], ph) && StillIn(c.pc[t], ph))
    {
      assert t in b.pc.Keys;
      assert Back(b.pc[t], ph) || (StillIn(a.pc[t], ph) && StillIn(b.pc[t], ph));
    }
  }

  /** The mutex can always be released. */
  lemma {:induction false} Released(s: State, ph: nat) returns (s': State)
    requires Inv(s)
    ensures Reaches(s, s') && Inv(s') && s'.shared.owner.None? && NotEarlier(s.shared, s'.shared) && OnlyReturns(s, s', ph)
    decreases if s.shared.owner.Some? && s.shared.owner.value in s.pc then Stage(s.pc[s.shared.owner.value]) else 0
  {
    hide After, ThreadInv, SharedInv, HoldsMutex, OnlyReturns;
    if s.shared.owner.None? {
      ReachesSelf(s);
      s' := s;
      OnlyReturnsSelf(s, ph);
    } else {
      var o := s.shared.owner.value;
      OwnerMoves(s, o, ph);
      var n := Moved(s, o);
      s' := Released(n, ph);
      MovedReaches(s, o, s');
      OnlyReturnsTrans(s, n, s', ph);
    }
  }

  lemma RelockReturns(s: State, t: Thread, ph: nat) returns (s': State)
    requires Inv(s) && s.shared.owner.None? && ph < s.shared.phase && t in s.pc && s.pc[t] == Relock(ph)
    ensures Reaches(s, s') && Inv(s') && s' == State(s.shared, s.pc[t := Returned(ph, false)])
  {
    hide Inv, Reaches, SharedInv;
    SharedPart(s);
    MovedReaches(s, t, s);
    var a := Moved(s, t);
    SharedPart(a);
    MovedReaches(a, t, a);
    var b := Moved(a, t);
    SharedPart(b);
    MovedReaches(b, t, b);
    s' := Moved(b, t);
    ReachesSelf(s');
    MovedReaches(b, t, s');
    MovedReaches(a, t, s');
    MovedReaches(s, t, s');
  }

  lemma ComesBack(s: State, t: Thread, ph: nat)
    requires Inv(s) && s.shared.owner.None? && ph < s.shared.phase && t in s.pc && StillIn(s.pc[t], ph)
    ensures s.pc[t] == Relock(ph) || (s.pc[t].Sleep? && s.pc[t].ph == ph && s.pc[t].ticket < s.shared.woken)
  {
    assert ThreadInv(t, s.pc[t], s.shared);
  }

  /** With the mutex free, a thread of a completed phase goes through. */
  lemma OneReturns(s: State, t: Thread, ph: nat) returns (s': State)
    requires Inv(s) && s.shared.owner.None? && ph < s.shared.phase && t in s.pc && StillIn(s.pc[t], ph)
    ensures Reaches(s, s') && Inv(s') && s' == State(s.shared, s.pc[t := Returned(ph, false)])
  {
    hide Inv, Reaches, SharedInv, StillIn;
    ComesBack(s, t, ph);
    if s.pc[t].Relock? {
      s' := RelockReturns(s, t, ph);
    } else {
      SharedPart(s);
      MovedReaches(s, t, s);
      s' := RelockReturns(Moved(s, t), t, ph);
      MovedReaches(s, t, s');
    }
  }

  ghost function Remaining(s: State, ph: nat): set<Thread> {
    set t | t in s.pc && StillIn(s.pc[t], ph)
  }

  /** Then all of them return. */
  lemma {:induction false} AllReturn(s: State, ph: nat) returns (s': State)
    requires Inv(s) && s.shared.owner.None? && ph < s.shared.phase
    ensures Reaches(s, s') && OnlyReturns(s, s', ph) && Remaining(s', ph) == {}
    decreases |Remaining(s, ph)|
  {
    hide Reaches, Inv, StillIn, OnlyReturns;
    if Remaining(s, ph) == {} {
      s' := s;
      ReachesSelf(s);
      OnlyReturnsSelf(s, ph);
    } else {
      var t :| t in Remaining(s, ph);
      var n := OneReturns(s, t, ph);
      OneLeft(s, t, ph, n);
      s' := AllReturn(n, ph);
      ReachesTrans(s, n, s');
      OnlyReturnsTrans(s, n, s', ph);
    }
  }

  lemma OneLeft(s: State, t: Thread, ph: nat, n: State)
    requires t in Remaining(s, ph) && n == State(s.shared, s.pc[t := Returned(ph, false)])
    ensures |Remaining(n, ph)| < |Remaining(s, ph)| && OnlyReturns(s, n, ph)
  {
    assert Remaining(n, ph) == Remaining(s, ph) - {t};
  }

  /**
    From every reachable state in which a phase is complete, some continuation lets every thread that
    arrived in it and has not returned yet return.
   */
  lemma CompletedPhaseReturns(run: seq<State>, i: nat, ph: nat) returns (s': State)
    requires IsRun(run) && i < |run| && ph < run[i].shared.phase
    ensures Reaches(run[i], s') && s'.pc.Keys == run[i].pc.Keys
    ensures forall t :: t in run[i].pc && (StillIn(run[i].pc[t], ph) || Back(run[i].pc[t], ph)) ==> Back(s'.pc[t], ph)
  {
    hide Inv, Reaches, StillIn;
    InvAlways(run, i);
    s' := EndOfPhase(run[i], ph);
  }

  lemma EndOfPhase(s: State, ph: nat) returns (s': State)
    requires Inv(s) && ph < s.shared.phase
    ensures Reaches(s, s') && s'.pc.Keys == s.pc.Keys
    ensures forall t :: t in s.pc && (StillIn(s.pc[t], ph) || Back(s.pc[t], ph)) ==> Back(s'.pc[t], ph)
  {
    hide Inv, Reaches, StillIn, Back;
    var n := Released(s, ph);
    s' := AllReturn(n, ph);
    ReachesTrans(s, n, s');
    OnlyReturnsTrans(s, n, s', ph);
    assert forall t :: t in s'.pc && StillIn(s'.pc[t], ph) ==> t in Remaining(s', ph);
  }

  // ---------------------------------------------------------------------------------------
  // The current phase can be completed exactly if there are threads enough

  /** About to call; or returned from an earlier phase. */
  predicate Ready(p: Pc, phase: nat) {
    p.Outside? || p.Lock? || (p.Returned? && p.ph < phase)
  }

  function Distance(p: Pc): nat {
    if p.Returned? then 2 else if p.Outside? then 1 else 0
  }

  /** A thread outside makes a call and takes the mutex. */
  lemma {:induction false} CallEnters(s: State, u: Thread) returns (s': State)
    requires Inv(s) && s.shared.owner.None? && u in s.pc && Ready(s.pc[u], s.shared.phase)
    ensures s' == State(s.shared.(owner := Some(u)), s.pc[u := LoadPhase]) && Reaches(s, s') && Inv(s')
    decreases Distance(s.pc[u])
  {
    hide Inv, Reaches, SharedInv;
    SharedPart(s);
    MovedReaches(s, u, s);
    var n := Moved(s, u);
    if s.pc[u].Lock? {
      s' := n;
      ReachesSelf(n);
    } else {
      s' := CallEnters(n, u);
    }
    MovedReaches(s, u, s');
  }

  /** And arrives. */
  lemma CallArrives(s: State, u: Thread) returns (s': State)
    requires Inv(s) && s.shared.owner.None? && u in s.pc && Ready(s.pc[u], s.shared.phase)
    ensures Reaches(s, s') && Inv(s') && OnlyReturns(s, s', s.shared.phase)
    ensures SharedInv(s.shared) && s'.shared.phase == s.shared.phase && s'.shared.count == s.shared.count
    ensures s'.shared.arrived == s.shared.arrived[s.shared.phase := s.shared.arrived[s.shared.phase] + {u}]
  {
    hide Inv, Reaches;
    SharedPart(s);
    var a := CallEnters(s, u);
    SharedPart(a);
    MovedReaches(a, u, a);
    var b := Moved(a, u);
    SharedPart(b);
    MovedReaches(b, u, b);
    s' := Moved(b, u);
    ReachesSelf(s');
    MovedReaches(b, u, s');
    MovedReaches(a, u, s');
    ReachesTrans(s, a, s');
  }

  /** A thread that has not arrived in the current phase is ready, or can become so. */
  lemma Available(s: State, u: Thread) returns (s': State)
    requires Inv(s) && s.shared.owner.None? && u in s.pc && u !in s.shared.arrived[s.shared.phase]
    ensures Reaches(s, s') && Inv(s') && s'.shared == s.shared && OnlyReturns(s, s', s.shared.phase)
    ensures u in s'.pc && Ready(s'.pc[u], s.shared.phase)
  {
    hide Reaches;
    assert ThreadInv(u, s.pc[u], s.shared);
    var p := s.pc[u];
    if p.Sleep? || p.Relock? {
      s' := OneReturns(s, u, p.ph);
    } else {
      s' := s;
      ReachesSelf(s);
    }
  }

  /** One more thread arrives. */
  lemma OneMoreArrives(s: State) returns (s': State)
    requires Inv(s) && s.shared.owner.None? && |s.pc.Keys| >= s.shared.count
    ensures Reaches(s, s') && Inv(s') && s'.shared.owner.None? && OnlyReturns(s, s', s.shared.phase)
    ensures More(s.shared, s'.shared)
  {
    hide Inv, Reaches, OnlyReturns, SharedInv, More;
    var ph := s.shared.phase;
    var u := SomeoneMissing(s);
    var a := Available(s, u);
    var b := CallArrives(a, u);
    s' := Released(b, ph);
    OnlyReturnsTrans(s, a, b, ph);
    OnlyReturnsTrans(s, b, s', ph);
    ReachesTrans(s, a, b);
    ReachesTrans(s, b, s');
    SharedPart(s);
    SharedPart(b);
    SharedPart(s');
    MoreThan(s.shared, b.shared, s'.shared, u);
  }

  /** A new phase, or more arrivals in the same one. */
  ghost predicate More(k: Shared, k': Shared) {
    && SharedInv(k) && SharedInv(k') && k'.count == k.count
    && (k'.phase > k.phase || (k'.phase == k.phase && |k'.arrived[k.phase]| > |k.arrived[k.phase]|))
  }

  lemma MoreThan(k: Shared, b: Shared, k': Shared, u: Thread)
    requires SharedInv(k) && SharedInv(b) && SharedInv(k') && u !in k.arrived[k.phase]
    requires b.phase == k.phase && b.count == k.count && b.arrived[k.phase] == k.arrived[k.phase] + {u} && NotEarlier(b, k')
    ensures More(k, k')
  {
    if k'.phase == k.phase {
      SubsetSize(k.arrived[k.phase] + {u}, k'.arrived[k.phase]);
    }
  }

  /** With threads enough the current phase can be completed. */
  lemma {:induction false} PhaseCompletes(s: State) returns (s': State)
    requires Inv(s) && s.shared.owner.None? && |s.pc.Keys| >= s.shared.count
    ensures Reaches(s, s') && Inv(s') && s'.shared.phase > s.shared.phase && OnlyReturns(s, s', s.shared.phase)
    decreases |s.pc.Keys| - |s.shared.arrived[s.shared.phase]|
  {
    var n := OneMoreArrives(s);
    assert n.pc.Keys == s.pc.Keys;
    if n.shared.phase > s.shared.phase {
      s' := n;
    } else {
      hide Reaches, OnlyReturns, ThreadInv;
      s' := PhaseCompletes(n);
      ReachesTrans(s, n, s');
      OnlyReturnsTrans(s, n, s', s.shared.phase);
    }
  }

  lemma SomeoneMissing(s: State) returns (u: Thread)
    requires Inv(s) && s.shared.owner.None? && |s.pc.Keys| >= s.shared.count
    ensures u in s.pc && u !in s.shared.arrived[s.shared.phase]
  {
    var here := s.shared.arrived[s.shared.phase];
    if forall t :: t in s.pc.Keys ==> t in here {
      SubsetSize(s.pc.Keys, here);
      assert false;
    }
    u :| u in s.pc.Keys && u !in here;
  }

  // Without threads enough it cannot

  lemma SamePhase(s: State, t: Thread, s': State)
    requires Inv(s) && Step(s, t, s') && |s.pc.Keys| < s.shared.count
    ensures s'.shared.phase == s.shared.phase && s'.shared.count == s.shared.count && s'.pc.Keys == s.pc.Keys
  {
    assert ThreadInv(t, s.pc[t], s.shared);
    var here := s.shared.arrived[s.shared.phase];
    assert here <= s.pc.Keys;
    SubsetSize(here, s.pc.Keys);
  }

  lemma {:induction false} SamePhaseAlways(path: seq<State>, i: nat)
    requires Path(path) && Inv(path[0]) && |path[0].pc.Keys| < path[0].shared.count && i < |path|
    ensures Inv(path[i]) && path[i].pc.Keys == path[0].pc.Keys
    ensures path[i].shared.phase == path[0].shared.phase && path[i].shared.count == path[0].shared.count
  {
    hide Inv;
    if i > 0 {
      SamePhaseAlways(path, i - 1);
      assert Next(path[i - 1], path[i - 1 + 1]);
      var t :| Step(path[i - 1], t, path[i]);
      StepKeepsInv(path[i - 1], t, path[i]);
      SamePhase(path[i - 1], t, path[i]);
    }
  }

  /** Some continuation lets the call of thread t in phase ph return. */
  ghost predicate CanReturn(s: State, t: Thread, ph: nat) {
    exists s' :: Reaches(s, s') && t in s'.pc && Back(s'.pc[t], ph)
  }

  /**
    From every reachable state, a call that has arrived in a phase can return exactly if the phase is
    complete or there are at least `count` threads.
   */
  lemma ReturnPossibleIff(run: seq<State>, i: nat, t: Thread, ph: nat)
    requires IsRun(run) && i < |run| && t in run[i].pc && StillIn(run[i].pc[t], ph)
    ensures CanReturn(run[i], t, ph) <==> ph < run[i].shared.phase || |run[i].pc.Keys| >= run[i].shared.count
  {
    hide Inv, Reaches, StillIn, Back;
    var s := run[i];
    InvAlways(run, i);
    PhaseOf(s, t, ph);
    if ph < s.shared.phase {
      var s' := EndOfPhase(s, ph);
    } else if |s.pc.Keys| >= s.shared.count {
      CompleteAndReturn(s, t);
    } else {
      ShortNeverReturns(s, t, ph);
    }
  }

  lemma PhaseOf(s: State, t: Thread, ph: nat)
    requires Inv(s) && t in s.pc && StillIn(s.pc[t], ph)
    ensures ph <= s.shared.phase
  {
    assert ThreadInv(t, s.pc[t], s.shared);
  }

  lemma CompleteAndReturn(s: State, t: Thread)
    requires Inv(s) && |s.pc.Keys| >= s.shared.count && t in s.pc && StillIn(s.pc[t], s.shared.phase)
    ensures CanReturn(s, t, s.shared.phase)
  {
    hide Inv, Reaches, StillIn, Back;
    var ph := s.shared.phase;
    var a := Released(s, ph);
    var b := a;
    if a.shared.phase == ph {
      b := PhaseCompletes(a);
      ReachesTrans(s, a, b);
      OnlyReturnsTrans(s, a, b, ph);
    }
    assert StillIn(b.pc[t], ph) || Back(b.pc[t], ph);
    var c := EndOfPhase(b, ph);
    ReachesTrans(s, b, c);
  }

  lemma ShortNeverReturns(s: State, t: Thread, ph: nat)
    requires Inv(s) && |s.pc.Keys| < s.shared.count && ph == s.shared.phase
    ensures !CanReturn(s, t, ph)
  {
    hide Inv;
    forall s' | Reaches(s, s') && t in s'.pc
      ensures !Back(s'.pc[t], ph)
    {
      var path: seq<State> :| Leads(s, path, s');
      SamePhaseAlways(path, |path| - 1);
      ReturnedEarlier(s', t);
    }
  }

  lemma ReturnedEarlier(s: State, t: Thread)
    requires Inv(s) && t in s.pc
    ensures s.pc[t].Returned? ==> s.pc[t].ph < s.shared.phase
  {
    assert ThreadInv(t, s.pc[t], s.shared);
  }
}
