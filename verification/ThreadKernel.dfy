/**
 thread.c and synch.c, updating the scheduler's and the semaphores' fields in place.  A call that no
 interrupt disturbs takes the machine through the steps named in its contract; a call that blocks ends
 where the thread is switched out, and `Resume` is what it does when it runs again.
 */
module ThreadKernel {
  import opened Prelude
  import opened Threads
  import opened ThreadRuns

  class Cpu {
    var threads: map<Tid, Thread>
    var running: Tid
    var idle: Tid
    var ready: seq<Tid>
    var ticks: nat
    var semas: map<Sid, Sema>
    var locks: map<Sid, LockInfo>

    ghost function State(): Machine
      reads this
    {
      Machine(threads, running, idle, ready, ticks, semas, locks)
    }

    ghost predicate Valid()
      reads this
    {
      Inv(State())
    }

    /** The step is allowed: what the primitive asserts of its caller holds. */
    ghost predicate Allowed(e: Step)
      reads this
    {
      running in threads && Enabled(State(), e)
    }

    // ---------- the scheduler ----------

    /** The thread the ready list gives next, taken off it. */
    method NextThreadToRun() returns (next: Tid)
      modifies this`ready
      ensures next == (if old(ready) == [] then idle else old(ready)[0])
      ensures ready == if old(ready) == [] then [] else old(ready)[1..]
    {
      if ready == [] {
        next := idle;
      } else {
        next := ready[0];
        ready := ready[1..];
      }
    }

    method Schedule()
      requires idle in threads && forall t :: t in ready ==> t in threads
      modifies this
      ensures State() == Threads.Schedule(old(State()))
    {
      var next := NextThreadToRun();
      running := next;
      threads := threads[next := threads[next].(status := RUNNING)];
      ticks := 0;
    }

    /** The running thread, READY, BLOCKED or DYING from now on, lets another run. */
    method SwitchTo(status: Status)
      requires running in threads && idle in threads && forall t :: t in ready ==> t in threads
      modifies this
      ensures State() == SwitchOut(old(State()), status)
    {
      if status == READY && running != idle {
        ready := ready + [running];
      }
      threads := threads[running := threads[running].(status := status)];
      Schedule();
    }

    method ThreadUnblock(t: Tid)
      requires t in threads
      modifies this
      ensures State() == Unblock(old(State()), t)
    {
      ready := ready + [t];
      threads := threads[t := threads[t].(status := READY)];
    }

    method ThreadYield()
      requires Valid()
      modifies this
      ensures Valid() && State() == Do(old(State()), Yield)
    {
      SchedFacts(State());
      StepKeeps(State(), Yield);
      hide Inv, SwitchOut;
      SwitchTo(READY);
    }

    /** thread_tick, and the yield on return from the timer interrupt when the slice is over. */
    method ThreadTick()
      requires Valid()
      modifies this
      ensures Valid() && State() == Do(old(State()), Tick)
    {
      SchedFacts(State());
      TickIs(State());
      hide Inv, Do, SwitchOut;
      if ticks + 1 >= TIME_SLICE {
        SwitchTo(READY);
      } else {
        ticks := ticks + 1;
      }
    }

    method ThreadExit()
      requires Valid() && Allowed(Exit)
      modifies this
      ensures Valid() && State() == Do(old(State()), Exit)
    {
      ExitIs(State());
      hide Inv, Do, Enabled, SwitchOut;
      SwitchTo(DYING);
    }

    /** thread_create, once the new thread's page is set up. */
    method ThreadCreate(t: Tid)
      requires Valid() && Allowed(Create(t))
      modifies this
      ensures Valid() && State() == Do(old(State()), Create(t))
    {
      CreateIs(State(), t);
      hide Inv, Do, Enabled;
      threads := threads[t := Thread(BLOCKED, Outside)];
      ThreadUnblock(t);
    }

    // ---------- semaphores ----------

    method Raise(s: Sid)
      requires s in semas && forall t :: t in semas[s].waiters ==> t in threads
      modifies this
      ensures State() == Up(old(State()), s)
    {
      if semas[s].waiters != [] {
        var t := semas[s].waiters[0];
        semas := semas[s := semas[s].(waiters := semas[s].waiters[1..])];
        ThreadUnblock(t);
      }
      semas := semas[s := semas[s].(value := semas[s].value + 1, ups := semas[s].ups + 1)];
    }

    /** sema_up, called by the running thread or by an interrupt handler. */
    method SemaUp(s: Sid, handler: bool)
      requires Valid() && Allowed(if handler then HandlerUp(s) else CallUp(s))
      modifies this
      ensures Valid() && State() == Do(old(State()), if handler then HandlerUp(s) else CallUp(s))
    {
      StepKeeps(State(), if handler then HandlerUp(s) else CallUp(s));
      WaitersKnown(State(), s);
      hide Inv;
      Raise(s);
    }

    /** The value, known to be positive, is taken. */
    method Lower(s: Sid)
      requires s in semas && semas[s].value > 0
      modifies this`semas
      ensures State() == old(State()).(semas := old(semas)[s := Take(old(semas)[s])])
    {
      semas := semas[s := semas[s].(value := semas[s].value - 1, downs := semas[s].downs + 1)];
    }

    /** The same for a lock: the running thread is inside it from now on. */
    method LowerLock(l: Sid)
      requires running in threads && l in locks && l in semas && semas[l].value > 0
      modifies this
      ensures State() == Grabbed(old(State()), l)
    {
      Lower(l);
      locks := locks[l := locks[l].(inside := locks[l].inside + {running})];
      MoveTo(Entering(l));
    }

    method MoveTo(pc: Pc)
      requires running in threads
      modifies this`threads
      ensures State() == SetPc(old(State()), running, pc)
    {
      threads := threads[running := threads[running].(pc := pc)];
    }

    method SemaTryDown(s: Sid) returns (success: bool)
      requires Valid() && Allowed(CallTryDown(s))
      modifies this
      ensures Valid() && State() == Do(old(State()), CallTryDown(s))
      ensures success <==> old(semas[s].value) > 0
      ensures !success ==> State() == old(State())
    {
      TryDownIs(State(), s);
      hide Inv, Do;
      success := semas[s].value > 0;
      if success {
        Lower(s);
        MoveTo(Outside);
      }
    }

    /** The test in sema_down's loop, made on entry and again whenever the thread has been woken.
        False means it went to sleep. */
    method Resume() returns (passed: bool)
      requires Valid() && Allowed(Continue) && Wants(threads[running].pc).Some?
      modifies this
      ensures Valid() && State() == Do(old(State()), Continue)
      ensures var s := Wants(old(threads)[old(running)].pc).value;
              s in old(semas) && (passed <==> old(semas)[s].value > 0)
    {
      SchedFacts(State());
      TestIs(State());
      hide Inv, Do, SwitchOut, Enabled, Grabbed;
      var pc := threads[running].pc;
      var s := Wants(pc).value;
      passed := semas[s].value > 0;
      if !passed {
        semas := semas[s := semas[s].(waiters := semas[s].waiters + [running])];
        SwitchTo(BLOCKED);
      } else if pc.Locking? {
        LowerLock(s);
      } else {
        Lower(s);
        MoveTo(Outside);
      }
    }

    method SemaDown(s: Sid) returns (passed: bool)
      requires Valid() && Allowed(CallDown(s))
      modifies this
      ensures Valid() && Run(old(State()), [CallDown(s), Continue]) == Some(State())
      ensures passed <==> old(semas[s].value) > 0
    {
      ghost var m := State();
      StepKeeps(m, CallDown(s));
      hide Inv;
      MoveTo(Downing(s));
      passed := Resume();
      RunTwo(m, CallDown(s), Continue);
    }

    // ---------- locks ----------

    /** The holder, if this is true, is the one thread inside the lock. */
    method LockHeldByCurrentThread(l: Sid) returns (held: bool)
      requires Valid() && l in locks
      ensures held <==> locks[l].holder == Some(running)
      ensures held ==> locks[l].inside == {running} && l in semas && semas[l].value == 0
    {
      held := locks[l].holder == Some(running);
      if held {
        HolderInside(State(), l);
      }
    }

    method SetHolder(l: Sid, holder: Option<Tid>)
      requires l in locks
      modifies this`locks
      ensures State() == Threads.SetHolder(old(State()), l, holder)
    {
      locks := locks[l := locks[l].(holder := holder)];
    }

    /** lock_acquire up to its return, or up to going to sleep on a lock that is taken. */
    method LockAcquire(l: Sid) returns (got: bool)
      requires Valid() && Allowed(CallAcquire(l))
      modifies this
      ensures Valid()
      ensures Run(old(State()), [CallAcquire(l), Continue] + if got then [Continue] else []) == Some(State())
      ensures l in old(semas) && (got <==> old(semas)[l].value > 0)
      ensures got ==> l in locks && locks[l].holder == Some(running) && running == old(running)
    {
      ghost var m := State();
      AcquireIs(m, l);
      hide Inv, Do, Enabled, Grabbed;
      MoveTo(Locking(l));
      got := Resume();
      ghost var m2 := State();
      RunTwo(m, CallAcquire(l), Continue);
      if got {
        EnterIs(m2, l);
        SetHolder(l, Some(running));
        MoveTo(Outside);
        RunMore(m, [CallAcquire(l), Continue], m2, Continue);
      } else {
        assert [CallAcquire(l), Continue] + [] == [CallAcquire(l), Continue];
      }
    }

    method LockTryAcquire(l: Sid) returns (success: bool)
      requires Valid() && Allowed(CallTryAcquire(l))
      modifies this
      ensures Valid()
      ensures Run(old(State()), [CallTryAcquire(l)] + if success then [Continue] else []) == Some(State())
      ensures l in old(semas) && (success <==> old(semas)[l].value > 0)
      ensures success ==> l in locks && locks[l].holder == Some(running)
      ensures !success ==> State() == old(State())
    {
      ghost var m := State();
      TryAcquireIs(m, l);
      RunOne(m, CallTryAcquire(l));
      hide Inv, Do, Enabled;
      success := semas[l].value > 0;
      if success {
        LowerLock(l);
        ghost var m1 := State();
        EnterIs(m1, l);
        SetHolder(l, Some(running));
        MoveTo(Outside);
        RunMore(m, [CallTryAcquire(l)], m1, Continue);
      } else {
        assert [CallTryAcquire(l)] + [] == [CallTryAcquire(l)];
      }
    }

    method LockRelease(l: Sid)
      requires Valid() && Allowed(CallRelease(l))
      modifies this
      ensures Valid() && Run(old(State()), [CallRelease(l), Continue]) == Some(State())
      ensures l in locks && l in semas && locks[l] == LockInfo(None, {}) && semas[l].value == 1
    {
      ghost var m := State();
      ReleaseIs(m, l);
      hide Inv, Do, Enabled;
      SetHolder(l, None);
      MoveTo(Leaving(l));
      GiveBack(l);
      RunTwo(m, CallRelease(l), Continue);
    }

    /** The sema_up that ends lock_release. */
    method GiveBack(l: Sid)
      requires Valid() && running in threads && threads[running].pc == Leaving(l)
      modifies this
      ensures old(Allowed(Continue)) && Valid() && State() == Do(old(State()), Continue)
      ensures l in locks && l in semas && locks[l] == LockInfo(None, {}) && semas[l].value == 1
    {
      LeaveIs(State(), l);
      hide Inv, Do, Enabled, Up;
      locks := locks[l := locks[l].(inside := locks[l].inside - {running})];
      Raise(l);
      MoveTo(Outside);
    }
  }

  // ---------- facts the methods use ----------

  lemma SchedFacts(m: Machine)
    requires Inv(m)
    ensures m.running in m.threads && m.idle in m.threads && forall t :: t in m.ready ==> t in m.threads
  {
  }

  lemma TickIs(m: Machine)
    requires Inv(m)
    ensures m.running in m.threads && m.idle in m.threads && forall t :: t in m.ready ==> t in m.threads
    ensures Inv(Do(m, Tick))
    ensures Do(m, Tick) == if m.ticks + 1 >= TIME_SLICE then SwitchOut(m, READY) else m.(ticks := m.ticks + 1)
  {
    SchedFacts(m);
    StepKeeps(m, Tick);
  }

  lemma ExitIs(m: Machine)
    requires Inv(m) && m.running in m.threads && Enabled(m, Exit)
    ensures m.idle in m.threads && forall t :: t in m.ready ==> t in m.threads
    ensures Inv(Do(m, Exit)) && Do(m, Exit) == SwitchOut(m, DYING)
  {
    SchedFacts(m);
    StepKeeps(m, Exit);
    hide Inv, SwitchOut;
  }

  lemma CreateIs(m: Machine, t: Tid)
    requires Inv(m) && m.running in m.threads && Enabled(m, Create(t))
    ensures Inv(Do(m, Create(t)))
    ensures Do(m, Create(t)) == Unblock(m.(threads := m.threads[t := Thread(BLOCKED, Outside)]), t)
  {
    hide Inv, Unblock;
    StepKeeps(m, Create(t));
  }

  lemma TryDownIs(m: Machine, s: Sid)
    requires Inv(m) && m.running in m.threads && Enabled(m, CallTryDown(s))
    ensures s in m.semas && Inv(Do(m, CallTryDown(s)))
    ensures Do(m, CallTryDown(s)) == if m.semas[s].value > 0 then Passed(m, s) else m
  {
    hide Inv;
    StepKeeps(m, CallTryDown(s));
  }

  /** What the test in sema_down's loop does, for a semaphore or for a lock's. */
  lemma TestIs(m: Machine)
    requires Inv(m) && m.running in m.threads && Wants(m.threads[m.running].pc).Some?
    ensures Enabled(m, Continue) && Inv(Do(m, Continue))
    ensures m.idle in m.threads && forall t :: t in m.ready ==> t in m.threads
    ensures var pc := m.threads[m.running].pc;
            var s := Wants(pc).value;
            && s in m.semas && (pc.Locking? ==> s in m.locks)
            && Do(m, Continue) == if m.semas[s].value == 0 then SwitchOut(Enqueued(m, s), BLOCKED)
                                  else if pc.Locking? then Grabbed(m, s) else Passed(m, s)
  {
    hide Inv, LockInv, ThreadLocks, ThreadQueued;
    TestFacts(m);
    hide SwitchOut, Grabbed, Passed;
    StepKeeps(m, Continue);
  }

  lemma TestFacts(m: Machine)
    requires Inv(m) && m.running in m.threads && Wants(m.threads[m.running].pc).Some?
    ensures m.idle in m.threads && forall t :: t in m.ready ==> t in m.threads
    ensures Wants(m.threads[m.running].pc).value in m.semas
    ensures m.threads[m.running].pc.Locking? ==> m.threads[m.running].pc.l in m.locks
  {
    SchedFacts(m);
    RunningFacts(m);
  }

  lemma AcquireIs(m: Machine, l: Sid)
    requires Inv(m) && m.running in m.threads && Enabled(m, CallAcquire(l))
    ensures l in m.locks && l in m.semas
    ensures var m1 := Do(m, CallAcquire(l));
            && Inv(m1) && m1 == SetPc(m, m.running, Locking(l)) && Enabled(m1, Continue)
            && (m.semas[l].value > 0 ==> Do(m1, Continue) == Grabbed(m1, l))
  {
    RunningFacts(m);
    LockHasSema(m, l);
    hide Inv, LockInv;
    StepKeeps(m, CallAcquire(l));
    var m1 := Do(m, CallAcquire(l));
    hide Do;
    TestIs(m1);
  }

  lemma TryAcquireIs(m: Machine, l: Sid)
    requires Inv(m) && m.running in m.threads && Enabled(m, CallTryAcquire(l))
    ensures l in m.locks && l in m.semas && Inv(Do(m, CallTryAcquire(l)))
    ensures Do(m, CallTryAcquire(l)) == if m.semas[l].value > 0 then Grabbed(m, l) else m
  {
    RunningFacts(m);
    LockHasSema(m, l);
    hide Inv, LockInv, Grabbed;
    StepKeeps(m, CallTryAcquire(l));
  }

  lemma EnterIs(m: Machine, l: Sid)
    requires Inv(m) && m.running in m.threads && m.threads[m.running].pc == Entering(l)
    ensures l in m.locks && Enabled(m, Continue) && Inv(Do(m, Continue))
    ensures Do(m, Continue) == Rehold(m, l, true)
  {
    RunningFacts(m);
    StepKeeps(m, Continue);
    hide Inv, SchedInv, QueueInv, CountInv, LockInv;
  }

  lemma ReleaseIs(m: Machine, l: Sid)
    requires Inv(m) && m.running in m.threads && Enabled(m, CallRelease(l))
    ensures l in m.locks
    ensures Inv(Do(m, CallRelease(l))) && Do(m, CallRelease(l)) == Rehold(m, l, false)
  {
    hide Inv;
    StepKeeps(m, CallRelease(l));
  }

  lemma LeaveIs(m: Machine, l: Sid)
    requires Inv(m) && m.running in m.threads && m.threads[m.running].pc == Leaving(l)
    ensures l in m.locks && l in m.semas && Enabled(m, Continue) && Inv(Do(m, Continue))
    ensures forall t :: t in m.semas[l].waiters ==> t in m.threads
    ensures Do(m, Continue) == Released(m, l)
    ensures var m' := Do(m, Continue);
            l in m'.locks && l in m'.semas && m'.locks[l] == LockInfo(None, {}) && m'.semas[l].value == 1
  {
    hide Inv, Released;
    LeaveFacts(m, l);
    StepKeeps(m, Continue);
    ReleasedFree(m, l);
  }

  lemma LeaveFacts(m: Machine, l: Sid)
    requires Inv(m) && m.running in m.threads && m.threads[m.running].pc == Leaving(l)
    ensures l in m.locks && l in m.semas && m.locks[l] == LockInfo(None, {m.running}) && m.semas[l].value == 0
    ensures forall t :: t in m.semas[l].waiters ==> t in m.threads
  {
    RunningFacts(m);
    assert LockOk(m, l);
    OnlyOneInside(m, l, m.running);
    WaitersKnown(m, l);
  }

  lemma ReleasedFree(m: Machine, l: Sid)
    requires m.running in m.threads && l in m.locks && l in m.semas
    requires m.locks[l] == LockInfo(None, {m.running}) && m.semas[l].value == 0
    requires forall t :: t in m.semas[l].waiters ==> t in m.threads
    ensures var m' := Released(m, l);
            l in m'.locks && l in m'.semas && m'.locks[l] == LockInfo(None, {}) && m'.semas[l].value == 1
  {
  }

  lemma HolderInside(m: Machine, l: Sid)
    requires Inv(m) && l in m.locks && m.locks[l].holder == Some(m.running)
    ensures m.locks[l].inside == {m.running} && l in m.semas && m.semas[l].value == 0
  {
    assert LockOk(m, l);
    OnlyOneInside(m, l, m.running);
  }

  lemma RunOne(m: Machine, e: Step)
    requires Inv(m) && m.running in m.threads && Enabled(m, e)
    ensures Run(m, [e]) == Some(Do(m, e))
  {
    hide Inv, Do, Enabled;
    StepKeeps(m, e);
    assert [e][1..] == [];
  }

  lemma RunTwo(m: Machine, e: Step, e': Step)
    requires Inv(m) && m.running in m.threads && Enabled(m, e)
    requires Inv(Do(m, e)) && Do(m, e).running in Do(m, e).threads && Enabled(Do(m, e), e')
    ensures Run(m, [e, e']) == Some(Do(Do(m, e), e'))
  {
    hide Inv, Do, Enabled;
    RunOne(Do(m, e), e');
    assert [e, e'][1..] == [e'];
  }

  lemma {:induction false} RunMore(m: Machine, es: seq<Step>, m': Machine, e: Step)
    requires Inv(m) && Run(m, es) == Some(m') && m'.running in m'.threads && Enabled(m', e)
    ensures Run(m, es + [e]) == Some(Do(m', e))
    decreases |es|
  {
    hide Inv, Do, Enabled;
    if es == [] {
      assert es + [e] == [e];
      RunOne(m, e);
    } else {
      assert (es + [e])[0] == es[0] && (es + [e])[1..] == es[1..] + [e];
      StepKeeps(m, es[0]);
      RunMore(Do(m, es[0]), es[1..], m', e);
    }
  }
}
