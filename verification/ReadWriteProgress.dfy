/** When a writer can still get into the read-write lock: exactly if no reader is bound to clear its flag. */
module ReadWriteProgress {
  import opened ReadWriteLock

  /** A finite continuation. */
  ghost predicate Path(path: seq<State>) {
    path != [] && forall i :: 0 <= i < |path| - 1 ==> Next(path[i], path[i + 1])
  }

  ghost predicate Leads(s: State, path: seq<State>) {
    Path(path) && path[0] == s
  }

  ghost predicate SomeoneWrites(s: State) {
    exists t :: t in s.pc && s.pc[t] == Writing
  }

  /** Some continuation lets a writer in. */
  ghost predicate CanWrite(s: State) {
    exists path: seq<State> :: Leads(s, path) && SomeoneWrites(path[|path| - 1])
  }

  /** A reader holds the lock and will find, or has found, the flag of a writer when it unlocks. */
  ghost predicate Doomed(s: State) {
    || s.lock.lost > 0
    || (exists t :: t in s.pc && s.pc[t] == UnlockClear(Read))
    || (s.lock.writer && exists t :: t in s.pc && (s.pc[t] == Reading || s.pc[t] == UnlockLoad(Read)))
  }

  // ---------------------------------------------------------------------------------------
  // No way out

  lemma DoomedNobodyWrites(s: State)
    requires Inv(s) && Doomed(s)
    ensures forall t :: t in s.pc ==> !HoldsWrite(s.pc[t])
  {
  }

  lemma DoomedStays(s: State, t: Thread, s': State)
    requires Inv(s) && Doomed(s) && Step(s, t, s')
    ensures Doomed(s')
  {
    hide CountInv, FlagInv;
    if s.lock.lost == 0 {
      var u :| u in s.pc && (s.pc[u] == UnlockClear(Read) || (s.lock.writer && (s.pc[u] == Reading || s.pc[u] == UnlockLoad(Read))));
      assert u != t ==> s'.pc[u] == s.pc[u];
      assert !HoldsWrite(s.pc[t]);
    }
  }

  lemma {:induction false} DoomedAlways(path: seq<State>, i: nat)
    requires Path(path) && Inv(path[0]) && Doomed(path[0]) && i < |path|
    ensures Inv(path[i]) && Doomed(path[i])
  {
    hide Inv, Doomed;
    if i > 0 {
      DoomedAlways(path, i - 1);
      assert Next(path[i - 1], path[i - 1 + 1]);
      var t :| Step(path[i - 1], t, path[i]);
      StepKeepsInv(path[i - 1], t, path[i]);
      DoomedStays(path[i - 1], t, path[i]);
    }
  }

  lemma DoomedForever(s: State)
    requires Inv(s) && Doomed(s)
    ensures !CanWrite(s)
  {
    forall path: seq<State> | Leads(s, path)
      ensures !SomeoneWrites(path[|path| - 1])
    {
      DoomedAlways(path, |path| - 1);
      DoomedNobodyWrites(path[|path| - 1]);
    }
  }

  // ---------------------------------------------------------------------------------------
  // A way in

  function Moved(s: State, t: Thread, p: Pc, k: Lock): State {
    State(k, s.pc[t := p])
  }

  lemma MoveBack(s: State, t: Thread, p: Pc, k: Lock)
    requires t in s.pc && Atomic(s.pc[t], s.lock, p, k) && CanWrite(Moved(s, t, p, k))
    ensures CanWrite(s)
  {
    var s' := Moved(s, t, p, k);
    var path: seq<State> :| Leads(s', path) && SomeoneWrites(path[|path| - 1]);
    var longer := [s] + path;
    assert Step(s, t, s');
    forall i | 0 <= i < |longer| - 1
      ensures Next(longer[i], longer[i + 1])
    {
      if i > 0 {
        assert Next(path[i - 1], path[i - 1 + 1]);
      }
    }
    assert Leads(s, longer) && SomeoneWrites(longer[|longer| - 1]);
  }

  lemma AlreadyIn(s: State)
    requires SomeoneWrites(s)
    ensures CanWrite(s)
  {
    assert Leads(s, [s]);
  }

  lemma MoveKeeps(s: State, t: Thread, p: Pc, k: Lock)
    requires Inv(s) && t in s.pc && Atomic(s.pc[t], s.lock, p, k)
    ensures Inv(Moved(s, t, p, k))
  {
    hide Inv;
    assert Step(s, t, Moved(s, t, p, k));
    StepKeepsInv(s, t, Moved(s, t, p, k));
  }

  /** Someone who still has to give an increment back. */
  lemma SomeCounted(s: State) returns (u: Thread)
    requires Inv(s) && !Doomed(s) && s.lock.readers != 0
    ensures u in s.pc && OwesDecrement(s.pc[u]) && s.pc[u] != UnlockClear(Read) && |Counted(s.pc)| > 0
  {
    assert Counted(s.pc) != {};
    u :| u in Counted(s.pc);
  }

  /** An announced writer: the others back out. */
  lemma {:induction false} WaitingGetsIn(s: State, w: Thread)
    requires Inv(s) && !Doomed(s) && w in s.pc && s.pc[w] == WrWait && s.lock.writer
    ensures CanWrite(s)
    decreases |Counted(s.pc)|
  {
    hide Inv;
    if s.lock.readers == 0 {
      var s' := Moved(s, w, Writing, s.lock);
      assert s'.pc[w] == Writing;
      AlreadyIn(s');
      MoveBack(s, w, Writing, s.lock);
    } else {
      var u := SomeCounted(s);
      var less := Lock(s.lock.readers - 1, true, 0);
      var p := if s.pc[u] == UnlockSub(Read) then Idle else RdSpin;
      var s' := Moved(s, u, p, less);
      CountedAfterMove(s.pc, u, p);
      if s.pc[u] == RdCheck {
        var back := Moved(s, u, RdBack, s.lock);
        MoveKeeps(s, u, RdBack, s.lock);
        MoveKeeps(back, u, RdSpin, less);
        assert Moved(back, u, RdSpin, less) == s';
        WaitingGetsIn(s', w);
        MoveBack(back, u, RdSpin, less);
        MoveBack(s, u, RdBack, s.lock);
      } else {
        MoveKeeps(s, u, p, less);
        WaitingGetsIn(s', w);
        MoveBack(s, u, p, less);
      }
    }
  }

  /** How many steps a reader is from giving its increment back. */
  function Stage(p: Pc): nat {
    match p
    case RdCheck => 3
    case Reading => 2
    case UnlockLoad(_) => 1
    case _ => 0
  }

  /** Without a writer a reader leaves. */
  lemma {:induction false} ReaderLeaves(s: State, u: Thread)
    requires Inv(s) && !s.lock.writer && s.lock.lost == 0 && u in s.pc && OwesDecrement(s.pc[u]) && s.pc[u] != UnlockClear(Read)
    ensures var p := if s.pc[u] == RdBack then RdSpin else Idle;
            var s' := Moved(s, u, p, Lock(s.lock.readers - 1, false, 0));
            Inv(s') && (CanWrite(s') ==> CanWrite(s))
    decreases Stage(s.pc[u])
  {
    hide Inv, CanWrite;
    var less := Lock(s.lock.readers - 1, false, 0);
    var p := if s.pc[u] == RdBack then RdSpin else Idle;
    var s' := Moved(s, u, p, less);
    if Stage(s.pc[u]) == 0 {
      MoveKeeps(s, u, p, less);
      if CanWrite(s') {
        MoveBack(s, u, p, less);
      }
    } else {
      var q := if s.pc[u] == RdCheck then Reading else if s.pc[u] == Reading then UnlockLoad(Read) else UnlockSub(Read);
      var next := Moved(s, u, q, s.lock);
      MoveKeeps(s, u, q, s.lock);
      ReaderLeaves(next, u);
      assert Moved(next, u, Idle, less) == s';
      if CanWrite(s') {
        MoveBack(s, u, q, s.lock);
      }
    }
  }

  /** A thread outside the lock announces itself. */
  lemma AnnouncesAndGetsIn(s: State, t: Thread)
    requires Inv(s) && !Doomed(s) && !s.lock.writer && s.lock.readers == 0 && t in s.pc
    requires s.pc[t] == Idle || s.pc[t] == WrSwap
    ensures CanWrite(s)
  {
    hide Inv, CanWrite;
    var flag := Lock(0, true, 0);
    var at := if s.pc[t] == Idle then Moved(s, t, WrSwap, s.lock) else s;
    if s.pc[t] == Idle {
      MoveKeeps(s, t, WrSwap, s.lock);
    }
    MoveKeeps(at, t, WrWait, flag);
    var wait := Moved(at, t, WrWait, flag);
    NoReaders(s);
    assert forall u :: u in wait.pc && u != t ==> wait.pc[u] == s.pc[u];
    WaitingGetsIn(wait, t);
    MoveBack(at, t, WrWait, flag);
    if s.pc[t] == Idle {
      MoveBack(s, t, WrSwap, s.lock);
    }
  }

  lemma NoReaders(s: State)
    requires Inv(s) && s.lock.readers == 0
    ensures forall u :: u in s.pc ==> !OwesDecrement(s.pc[u])
  {
    assert Counted(s.pc) == {};
    assert forall u :: u in s.pc && OwesDecrement(s.pc[u]) ==> u in Counted(s.pc);
  }

  lemma NobodyAnnounced(s: State)
    requires Inv(s) && !s.lock.writer && s.lock.lost == 0
    ensures forall u :: u in s.pc ==> !IsAnnounced(s.pc[u])
  {
    assert forall u :: u in s.pc && IsAnnounced(s.pc[u]) ==> u in Announced(s.pc);
  }

  /** A reader on its way in goes through. */
  lemma PassesThrough(s: State, t: Thread)
    requires Inv(s) && !Doomed(s) && !s.lock.writer && s.lock.readers == 0 && t in s.pc
    requires s.pc[t] == RdSpin || s.pc[t] == RdAdd
    ensures CanWrite(s)
  {
    hide Inv;
    var one := Lock(1, false, 0);
    var at := if s.pc[t] == RdSpin then Moved(s, t, RdAdd, s.lock) else s;
    if s.pc[t] == RdSpin {
      MoveKeeps(s, t, RdAdd, s.lock);
    }
    MoveKeeps(at, t, RdCheck, one);
    var inside := Moved(at, t, RdCheck, one);
    ReaderLeaves(inside, t);
    var out := Moved(inside, t, Idle, Lock(0, false, 0));
    assert forall u :: u in out.pc && u != t ==> out.pc[u] == s.pc[u];
    AnnouncesAndGetsIn(out, t);
    MoveBack(at, t, RdCheck, one);
    if s.pc[t] == RdSpin {
      MoveBack(s, t, RdAdd, s.lock);
    }
  }

  lemma {:induction false} FreeGetsIn(s: State, t: Thread)
    requires Inv(s) && !Doomed(s) && !s.lock.writer && t in s.pc
    ensures CanWrite(s)
    decreases |Counted(s.pc)|
  {
    hide Inv, CanWrite;
    if s.lock.readers != 0 {
      var u := SomeCounted(s);
      var p := if s.pc[u] == RdBack then RdSpin else Idle;
      ReaderLeaves(s, u);
      CountedAfterMove(s.pc, u, p);
      FreeGetsIn(Moved(s, u, p, Lock(s.lock.readers - 1, false, 0)), t);
    } else {
      NoReaders(s);
      NobodyAnnounced(s);
      if s.pc[t] == RdSpin || s.pc[t] == RdAdd {
        PassesThrough(s, t);
      } else {
        AnnouncesAndGetsIn(s, t);
      }
    }
  }

  lemma WriterLeaves(s: State, w: Thread)
    requires Inv(s) && !Doomed(s) && w in s.pc && HoldsWrite(s.pc[w]) && s.lock.writer
    ensures CanWrite(s)
  {
    hide Inv;
    if s.pc[w] == Writing {
      AlreadyIn(s);
    } else {
      HolderFacts(s, w);
      var k := Lock(s.lock.readers, false, 0);
      var at := if s.pc[w] == UnlockLoad(Write) then Moved(s, w, UnlockClear(Write), s.lock) else s;
      if s.pc[w] == UnlockLoad(Write) {
        MoveKeeps(s, w, UnlockClear(Write), s.lock);
      }
      MoveKeeps(at, w, Idle, k);
      var out := Moved(at, w, Idle, k);
      assert forall u :: u in out.pc && u != w ==> out.pc[u] == s.pc[u];
      FreeGetsIn(out, w);
      MoveBack(at, w, Idle, k);
      if s.pc[w] == UnlockLoad(Write) {
        MoveBack(s, w, UnlockClear(Write), s.lock);
      }
    }
  }

  lemma HolderFacts(s: State, w: Thread)
    requires Inv(s) && w in s.pc && HoldsWrite(s.pc[w])
    ensures s.lock.lost == 0 && s.pc[w] != UnlockSub(Write)
  {
  }

  /** From every reachable state of a lock with threads, a writer can get in exactly if it is not doomed. */
  lemma WriterPossibleIff(run: seq<State>, i: nat, t: Thread)
    requires IsRun(run) && i < |run| && t in run[i].pc
    ensures CanWrite(run[i]) <==> !Doomed(run[i])
  {
    hide CanWrite;
    var s := run[i];
    InvAlways(run, i);
    if Doomed(s) {
      DoomedForever(s);
    } else if !s.lock.writer {
      FreeGetsIn(s, t);
    } else {
      var w :| w in Announced(s.pc);
      if s.pc[w] == WrWait {
        WaitingGetsIn(s, w);
      } else {
        WriterLeaves(s, w);
      }
    }
  }
}
