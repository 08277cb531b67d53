/** What one step of the threads machine leaves as it was. */
module ThreadFrames {
  import opened Prelude
  import opened Threads
  import opened ThreadRuns

  function NextPc(m: Machine, e: Step): Pc
    requires m.running in m.threads
  {
    var pc := m.threads[m.running].pc;
    match e
    case CallDown(s) => Downing(s)
    case CallAcquire(l) => Locking(l)
    case CallTryAcquire(l) => if l in m.semas && m.semas[l].value > 0 then Entering(l) else pc
    case CallRelease(l) => Leaving(l)
    case Continue =>
      if Wants(pc).Some? && Wants(pc).value in m.semas && m.semas[Wants(pc).value].value == 0 then pc
      else if pc.Locking? then Entering(pc.l)
      else Outside
    case _ => pc
  }

  /** The change of a holder field, if any: whose, and to what. */
  function NextHolders(m: Machine, e: Step): map<Sid, LockInfo>
    requires m.running in m.threads
  {
    if e.CallRelease? && e.l in m.locks then m.locks[e.l := m.locks[e.l].(holder := None)]
    else if e.Continue? && m.threads[m.running].pc.Entering? && m.threads[m.running].pc.l in m.locks then
      var l := m.threads[m.running].pc.l;
      m.locks[l := m.locks[l].(holder := Some(m.running))]
    else m.locks
  }

  ghost predicate SameHolders(locks: map<Sid, LockInfo>, locks': map<Sid, LockInfo>) {
    locks'.Keys == locks.Keys && forall l :: l in locks ==> locks'[l].holder == locks[l].holder
  }

  /** Only the running thread moves, to `pc`; new threads are outside; holders are as in `locks`. */
  ghost predicate Framed(m: Machine, m': Machine, pc: Pc, locks: map<Sid, LockInfo>) {
    && m'.idle == m.idle && m'.semas.Keys == m.semas.Keys && SameHolders(locks, m'.locks)
    && m.running in m'.threads && m'.threads[m.running].pc == pc
    && (forall t :: t in m.threads && t != m.running ==> t in m'.threads && m'.threads[t].pc == m.threads[t].pc)
    && (forall t :: t in m'.threads && t !in m.threads ==> m'.threads[t].pc == Outside)
  }

  lemma SyncFramed(m: Machine, m': Machine)
    requires SameSync(m, m') && m.running in m.threads
    ensures Framed(m, m', m.threads[m.running].pc, m.locks)
  {
  }

  lemma SwitchFramed(m: Machine, status: Status)
    requires Inv(m)
    ensures Framed(m, SwitchOut(m, status), m.threads[m.running].pc, m.locks)
  {
    SwitchEffect(m, status);
    hide Inv, SwitchOut;
    SyncFramed(m, SwitchOut(m, status));
  }

  lemma BlockFramed(m: Machine, s: Sid)
    requires Inv(m) && s in m.semas
    ensures Framed(m, Block(m, s), m.threads[m.running].pc, m.locks)
  {
    SwitchEffect(Enqueued(m, s), BLOCKED);
    hide Inv, SwitchOut;
    SyncFramed(Enqueued(m, s), Block(m, s));
  }

  lemma UpFramed(m: Machine, s: Sid)
    requires s in m.semas && (forall t :: t in m.semas[s].waiters ==> t in m.threads) && m.running in m.threads
    ensures Framed(m, Up(m, s), m.threads[m.running].pc, m.locks) && Up(m, s).running == m.running
  {
  }

  lemma ReleasedFramed(m: Machine, l: Sid)
    requires m.running in m.threads && l in m.locks && l in m.semas
    requires forall t :: t in m.semas[l].waiters ==> t in m.threads
    ensures Framed(m, Released(m, l), Outside, m.locks)
  {
    hide Up;
    UpFramed(LeaveLock(m, l, m.running), l);
  }

  lemma TakeFramed(m: Machine, s: Sid)
    requires m.running in m.threads && s in m.semas && m.semas[s].value > 0
    ensures Framed(m, Passed(m, s), Outside, m.locks)
    ensures s in m.locks ==> Framed(m, Grabbed(m, s), Entering(s), m.locks)
  {
  }

  lemma ReholdFramed(m: Machine, l: Sid, entering: bool)
    requires m.running in m.threads && l in m.locks
    ensures Framed(m, Rehold(m, l, entering), if entering then Outside else Leaving(l),
                   m.locks[l := m.locks[l].(holder := if entering then Some(m.running) else None)])
  {
  }

  lemma StartFramed(m: Machine, pc: Pc)
    requires m.running in m.threads
    ensures Framed(m, SetPc(m, m.running, pc), pc, m.locks)
  {
  }

  lemma ContinueFramed(m: Machine)
    requires Inv(m) && Enabled(m, Continue)
    ensures Framed(m, Do(m, Continue), NextPc(m, Continue), NextHolders(m, Continue))
  {
    RunningFacts(m);
    hide Inv, SchedInv, QueueInv, CountInv, LockInv, Framed, Block, Passed, Grabbed, Released, Rehold;
    match m.threads[m.running].pc
    case Downing(s) => if m.semas[s].value == 0 { BlockFramed(m, s); } else { TakeFramed(m, s); }
    case Locking(s) => if m.semas[s].value == 0 { BlockFramed(m, s); } else { TakeFramed(m, s); }
    case Entering(l) => ReholdFramed(m, l, true);
    case Leaving(l) => LockHasSema(m, l); WaitersKnown(m, l); ReleasedFramed(m, l);
  }

  lemma SemaCallFramed(m: Machine, e: Step)
    requires Inv(m) && Enabled(m, e) && (e.CallDown? || e.CallTryDown? || e.CallUp?)
    ensures Framed(m, Do(m, e), NextPc(m, e), NextHolders(m, e))
  {
    RunningFacts(m);
    hide Inv, SchedInv, QueueInv, CountInv, LockInv, Framed, Passed, Up, SetPc, ThreadQueued, ThreadLocks;
    match e
    case CallDown(s) => StartFramed(m, Downing(s));
    case CallTryDown(s) => if m.semas[s].value > 0 { TakeFramed(m, s); } else { SyncFramed(m, m); }
    case CallUp(s) => WaitersKnown(m, s); UpFramed(m, s);
  }

  lemma LockCallFramed(m: Machine, e: Step)
    requires Inv(m) && Enabled(m, e) && (e.CallAcquire? || e.CallTryAcquire? || e.CallRelease?)
    ensures Framed(m, Do(m, e), NextPc(m, e), NextHolders(m, e))
  {
    RunningFacts(m);
    hide Inv, SchedInv, QueueInv, CountInv, LockInv, Framed, Grabbed, Rehold, SetPc, ThreadQueued, ThreadLocks;
    LockHasSema(m, e.l);
    match e
    case CallAcquire(l) => StartFramed(m, Locking(l));
    case CallTryAcquire(l) => if m.semas[l].value > 0 { TakeFramed(m, l); } else { SyncFramed(m, m); }
    case CallRelease(l) => ReholdFramed(m, l, false);
  }

  lemma CallFramed(m: Machine, e: Step)
    requires Inv(m) && m.running in m.threads && Enabled(m, e) && IsCall(e)
    ensures Framed(m, Do(m, e), NextPc(m, e), NextHolders(m, e))
  {
    hide Inv, Do, Framed, Enabled, NextPc, NextHolders;
    if e.CallDown? || e.CallTryDown? || e.CallUp? { SemaCallFramed(m, e); } else { LockCallFramed(m, e); }
  }

  lemma OtherFramed(m: Machine, e: Step)
    requires Inv(m) && Enabled(m, e) && !IsCall(e) && !e.Continue?
    ensures Framed(m, Do(m, e), NextPc(m, e), NextHolders(m, e))
  {
    RunningFacts(m);
    hide Inv, SchedInv, QueueInv, CountInv, LockInv, Framed, Up, SwitchOut, Unblock;
    match e
    case HandlerUp(s) => WaitersKnown(m, s); UpFramed(m, s);
    case Tick =>
      if m.ticks + 1 >= TIME_SLICE { SwitchFramed(m, READY); } else { SyncFramed(m, m.(ticks := m.ticks + 1)); }
    case Yield => SwitchFramed(m, READY);
    case Exit => SwitchFramed(m, DYING);
    case IdleBlock => SwitchFramed(m, BLOCKED);
    case Create(n) => CreateFramed(m, n);
  }

  lemma CreateFramed(m: Machine, n: Tid)
    requires m.running in m.threads && n !in m.threads
    ensures Framed(m, Unblock(m.(threads := m.threads[n := Thread(BLOCKED, Outside)]), n),
                   m.threads[m.running].pc, m.locks)
  {
  }

  lemma StepFramed(m: Machine, e: Step)
    requires Inv(m) && m.running in m.threads && Enabled(m, e)
    ensures Framed(m, Do(m, e), NextPc(m, e), NextHolders(m, e))
  {
    hide Inv, Do, Framed, Enabled, NextPc, NextHolders;
    if IsCall(e) { CallFramed(m, e); } else if e.Continue? { ContinueFramed(m); } else { OtherFramed(m, e); }
  }

  /** A thread that does not run neither gains nor loses a lock. */
  lemma HeldStays(m: Machine, e: Step, t: Tid, l: Sid)
    requires Inv(m) && m.running in m.threads && Enabled(m, e) && t != m.running && l in m.locks
    ensures l in Do(m, e).locks && (Do(m, e).locks[l].holder == Some(t) <==> m.locks[l].holder == Some(t))
  {
    hide Inv, LockInv, Do, NextPc;
    StepFramed(m, e);
    if e.Continue? && m.threads[m.running].pc == Entering(l) { EnteringAlone(m, l); }
  }

  lemma EnteringAlone(m: Machine, l: Sid)
    requires Inv(m) && m.running in m.threads && m.threads[m.running].pc == Entering(l) && l in m.locks
    ensures m.locks[l].holder == None || m.locks[l].holder == Some(m.running)
  {
    RunningFacts(m);
    OnlyOneInside(m, l, m.running);
  }

  /** A new semaphore disturbs nothing. */
  lemma AddSema(m: Machine, s: Sid, value: nat)
    requires Inv(m) && s !in m.semas
    ensures s !in m.locks && Inv(m.(semas := m.semas[s := Sema(value, value, 0, 0, [])]))
  {
    var m' := m.(semas := m.semas[s := Sema(value, value, 0, 0, [])]);
    assert s in m.locks ==> LockOk(m, s);
    forall x | x in m'.semas ensures WaitersBlocked(m', x) && Counted(m', x) {
      if x != s {
        assert WaitersBlocked(m, x) && Counted(m, x) && Testing(m', x) == Testing(m, x);
      }
    }
    forall l | l in m.locks ensures LockOk(m', l) {
      assert LockOk(m, l);
    }
    forall t | t in m.threads ensures ThreadQueued(m', t) && ThreadLocks(m', t) {
      assert ThreadQueued(m, t) && ThreadLocks(m, t);
    }
  }
}
