/** What holds in every interleaving, and how long a ready thread waits. */
module ThreadRuns {
  import opened Prelude
  import opened Threads

  lemma CreateKeeps(m: Machine, n: Tid)
    requires Inv(m) && n !in m.threads
    ensures Inv(Unblock(m.(threads := m.threads[n := Thread(BLOCKED, Outside)]), n))
  {
    var m1 := m.(threads := m.threads[n := Thread(BLOCKED, Outside)]);
    var m' := Unblock(m1, n);
    assert SchedInv(m1);
    UnblockSched(m1, n);
    CreateSync(m, m', n);
  }

  lemma CreateSync(m: Machine, m': Machine, n: Tid)
    requires QueueInv(m) && CountInv(m) && LockInv(m) && n !in m.threads
    requires m'.threads == m.threads[n := Thread(READY, Outside)] && m'.semas == m.semas && m'.locks == m.locks
    requires m'.idle == m.idle && m.idle in m.threads
    ensures QueueInv(m') && CountInv(m') && LockInv(m')
  {
    forall s | s in m'.semas ensures WaitersBlocked(m', s) && Counted(m', s) {
      assert WaitersBlocked(m, s) && Counted(m, s) && Testing(m', s) == Testing(m, s);
    }
    forall t | t in m'.threads ensures ThreadQueued(m', t) && ThreadLocks(m', t) {
      if t != n { assert ThreadQueued(m, t) && ThreadLocks(m, t); }
    }
    forall l | l in m'.locks ensures LockOk(m', l) {
      assert LockOk(m, l);
    }
  }

  lemma TickKeeps(m: Machine)
    requires Inv(m) && m.ticks + 1 < TIME_SLICE
    ensures Inv(m.(ticks := m.ticks + 1))
  {
    var m' := m.(ticks := m.ticks + 1);
    SyncTransfer(m, m');
    forall s | s in m'.semas ensures WaitersBlocked(m', s) {
      assert WaitersBlocked(m, s);
    }
    forall t | t in m'.threads ensures ThreadQueued(m', t) {
      assert ThreadQueued(m, t);
    }
  }

  lemma ContinueKeeps(m: Machine)
    requires Inv(m) && m.threads[m.running].pc != Outside
    ensures Inv(Do(m, Continue))
  {
    hide Inv, SchedInv, QueueInv, CountInv, LockInv, Block, Passed, Grabbed, Released, Rehold;
    RunningFacts(m);
    match m.threads[m.running].pc
    case Downing(s) =>
      if m.semas[s].value == 0 { BlockKeeps(m, s); } else { TakeKeeps(m, s); }
    case Locking(l) =>
      if m.semas[l].value == 0 { BlockKeeps(m, l); } else { GrabKeeps(m, l); }
    case Entering(l) => LockHasSema(m, l); ReholdKeeps(m, l, true);
    case Leaving(l) => LockHasSema(m, l); ReleaseKeeps(m, l);
  }

  lemma RunningFacts(m: Machine)
    requires Inv(m)
    ensures m.running in m.threads && ThreadQueued(m, m.running) && ThreadLocks(m, m.running) && LockInv(m)
  {
  }

  lemma LockHasSema(m: Machine, l: Sid)
    requires LockInv(m) && l in m.locks
    ensures l in m.semas
  {
    assert LockOk(m, l);
  }

  predicate IsCall(e: Step) {
    e.CallDown? || e.CallTryDown? || e.CallUp? || e.CallAcquire? || e.CallTryAcquire? || e.CallRelease?
  }

  lemma CallKeeps(m: Machine, e: Step)
    requires Inv(m) && Enabled(m, e) && IsCall(e)
    ensures Inv(Do(m, e))
  {
    RunningFacts(m);
    hide SchedInv, QueueInv, CountInv, LockInv, SwitchOut, Up, Passed, Grabbed, Rehold, Unblock;
    match e
    case CallDown(s) => StartKeeps(m, Downing(s));
    case CallTryDown(s) => if m.semas[s].value > 0 { TakeKeeps(m, s); }
    case CallUp(s) => UpKeeps(m, s);
    case CallAcquire(l) => LockHasSema(m, l); StartKeeps(m, Locking(l));
    case CallTryAcquire(l) => LockHasSema(m, l); if m.semas[l].value > 0 { GrabKeeps(m, l); }
    case CallRelease(l) => LockHasSema(m, l); ReholdKeeps(m, l, false);
  }

  lemma OtherKeeps(m: Machine, e: Step)
    requires Inv(m) && Enabled(m, e) && !IsCall(e) && !e.Continue?
    ensures Inv(Do(m, e))
  {
    hide Inv, SchedInv, QueueInv, CountInv, LockInv, SwitchOut, Up, Passed, Grabbed, Rehold, Unblock, Block, Released;
    RunningFacts(m);
    match e
    case HandlerUp(s) => UpKeeps(m, s);
    case Tick => if m.ticks + 1 >= TIME_SLICE { SwitchKeeps(m, READY); } else { TickKeeps(m); }
    case Yield => SwitchKeeps(m, READY);
    case Exit => SwitchKeeps(m, DYING);
    case IdleBlock => IdleOutside(m); SwitchKeeps(m, BLOCKED);
    case Create(n) => CreateKeeps(m, n);
  }

  lemma ContinueStep(m: Machine)
    requires Inv(m) && Enabled(m, Continue)
    ensures Inv(Do(m, Continue))
  {
    hide Inv, Do;
    ContinueKeeps(m);
  }

  /** Every step, by whichever thread or handler, keeps the invariant. */
  lemma StepKeeps(m: Machine, e: Step)
    requires Inv(m) && Enabled(m, e)
    ensures Inv(Do(m, e))
  {
    hide Inv, Do, Enabled;
    if IsCall(e) { CallKeeps(m, e); } else if e.Continue? { ContinueStep(m); } else { OtherKeeps(m, e); }
  }

  lemma IdleOutside(m: Machine)
    requires Inv(m)
    ensures m.threads[m.idle].pc == Outside
  {
    assert ThreadQueued(m, m.idle);
  }

  // ---------- runs ----------

  /** The machine after the steps; None if one of them was not allowed. */
  ghost function Run(m: Machine, es: seq<Step>): (r: Option<Machine>)
    requires Inv(m)
    ensures r.Some? ==> Inv(r.value)
    decreases |es|
  {
    if es == [] then Some(m)
    else if m.running !in m.threads || !Enabled(m, es[0]) then None
    else StepKeeps(m, es[0]); Run(Do(m, es[0]), es[1..])
  }

  /** In every interleaving a lock has at most one thread inside, and it is the holder or about to be. */
  lemma MutualExclusion(m: Machine, es: seq<Step>, l: Sid, t: Tid, u: Tid)
    requires Inv(m) && Run(m, es).Some? && l in Run(m, es).value.locks
    requires t in Run(m, es).value.locks[l].inside && u in Run(m, es).value.locks[l].inside
    ensures t == u && Run(m, es).value.semas[l].value == 0
    ensures var h := Run(m, es).value.locks[l].holder; h == None || h == Some(t)
  {
    OnlyOneInside(Run(m, es).value, l, t);
  }

  /** In every interleaving, when a semaphore with waiters has value v, at least v threads are
      awake and about to test it. */
  lemma NoLostWakeup(m: Machine, es: seq<Step>, s: Sid)
    requires Inv(m) && Run(m, es).Some? && s in Run(m, es).value.semas
    ensures var m' := Run(m, es).value;
            m'.semas[s].waiters != [] && m'.semas[s].value > 0 ==>
            && |Testing(m', s)| >= m'.semas[s].value
            && forall t :: t in Testing(m', s) ==> m'.threads[t].status == READY || m'.threads[t].status == RUNNING
  {
    var m' := Run(m, es).value;
    assert Counted(m', s);
    forall t | t in Testing(m', s) ensures m'.threads[t].status == READY || m'.threads[t].status == RUNNING {
      assert ThreadQueued(m', t);
    }
  }

  predicate IsUp(m: Machine, e: Step, s: Sid)
    requires m.running in m.threads
  {
    || e == CallUp(s) || e == HandlerUp(s)
    || (e == Continue && m.threads[m.running].pc == Leaving(s))
  }

  predicate IsDown(m: Machine, e: Step, s: Sid)
    requires m.running in m.threads
  {
    && s in m.semas && m.semas[s].value > 0
    && (|| e == CallTryDown(s) || e == CallTryAcquire(s)
        || (e == Continue && Wants(m.threads[m.running].pc) == Some(s)))
  }

  predicate IsWait(m: Machine, e: Step, s: Sid)
    requires m.running in m.threads
  {
    e == Continue && Wants(m.threads[m.running].pc) == Some(s) && s in m.semas && m.semas[s].value == 0
  }

  function Tail(w: seq<Tid>): seq<Tid> { if w == [] then [] else w[1..] }

  function If(b: bool): int { if b then 1 else 0 }

  /** Ups of `s` less downs of `s` over a run. */
  ghost function Net(m: Machine, es: seq<Step>, s: Sid): int
    requires Inv(m) && Run(m, es).Some?
    decreases |es|
  {
    if es == [] then 0
    else If(IsUp(m, es[0], s)) - If(IsDown(m, es[0], s)) + (StepKeeps(m, es[0]); Net(Do(m, es[0]), es[1..], s))
  }

  lemma SwitchSemas(m: Machine, status: Status)
    requires m.running in m.threads && m.idle in m.threads && forall t :: t in m.ready ==> t in m.threads
    ensures SwitchOut(m, status).semas == m.semas
  {
  }

  lemma SwitchLeavesSemas(m: Machine, status: Status)
    requires Inv(m)
    ensures SwitchOut(m, status).semas == m.semas
  {
    SwitchSemas(m, status);
  }

  lemma UpValue(m: Machine, s: Sid, x: Sid)
    requires s in m.semas && x in m.semas && forall t :: t in m.semas[s].waiters ==> t in m.threads
    ensures x in Up(m, s).semas && Up(m, s).semas[x].value == m.semas[x].value + If(x == s)
    ensures Up(m, s).semas[x].waiters == if x == s then Tail(m.semas[x].waiters) else m.semas[x].waiters
  {
  }

  lemma ContinueAccounted(m: Machine, s: Sid)
    requires Inv(m) && Enabled(m, Continue) && s in m.semas
    ensures Accounted(m, Continue, s)
  {
    ContinueKnown(m);
    hide Inv, Do, Accounted, LockInv;
    match m.threads[m.running].pc
    case Downing(x) => TestAccounted(m, x, s);
    case Locking(x) => TestAccounted(m, x, s);
    case Entering(x) => EnteringAccounted(m, x, s);
    case Leaving(x) => LeavingAccounted(m, x, s);
  }

  lemma TestAccounted(m: Machine, x: Sid, s: Sid)
    requires Inv(m) && m.running in m.threads && Wants(m.threads[m.running].pc) == Some(x) && s in m.semas
    ensures Accounted(m, Continue, s)
  {
    ContinueKnown(m);
    hide Inv, Block, LockInv, Released, Rehold;
    if m.semas[x].value == 0 { BlockValue(m, x, s); }
  }

  lemma EnteringAccounted(m: Machine, x: Sid, s: Sid)
    requires Inv(m) && m.running in m.threads && m.threads[m.running].pc == Entering(x) && s in m.semas
    ensures Accounted(m, Continue, s)
  {
    ContinueKnown(m);
    hide Inv, Block, LockInv, Released, Passed, Grabbed;
  }

  lemma LeavingAccounted(m: Machine, x: Sid, s: Sid)
    requires Inv(m) && m.running in m.threads && m.threads[m.running].pc == Leaving(x) && s in m.semas
    ensures Accounted(m, Continue, s)
  {
    ContinueKnown(m);
    hide Inv, Up, LockInv, Block, Passed, Grabbed, Rehold;
    LockHasSema(m, x);
    WaitersKnown(m, x);
    UpValue(LeaveLock(m, x, m.running), x, s);
  }

  lemma ContinueKnown(m: Machine)
    requires Inv(m)
    ensures m.running in m.threads && m.idle in m.threads && LockInv(m)
    ensures forall t :: t in m.ready ==> t in m.threads
    ensures match m.threads[m.running].pc
            case Downing(x) => x in m.semas
            case Locking(x) => x in m.semas && x in m.locks
            case Entering(x) => x in m.locks
            case Leaving(x) => x in m.locks
            case Outside => true
  {
    RunningFacts(m);
    Known(m);
  }

  lemma WaitersKnown(m: Machine, x: Sid)
    requires Inv(m) && x in m.semas
    ensures forall t :: t in m.semas[x].waiters ==> t in m.threads
  {
    assert WaitersBlocked(m, x);
  }

  lemma BlockValue(m: Machine, x: Sid, s: Sid)
    requires x in m.semas && s in m.semas && m.running in m.threads && m.idle in m.threads
    requires forall t :: t in m.ready ==> t in m.threads
    ensures s in Block(m, x).semas && Block(m, x).semas[s].value == m.semas[s].value
    ensures Block(m, x).semas[s].waiters == if x == s then m.semas[s].waiters + [m.running] else m.semas[s].waiters
  {
    SwitchSemas(Enqueued(m, x), BLOCKED);
  }

  /** Semaphore `s` moves by one up or one down, or not at all, as the step says; its wait list loses
      its first thread by an up, gains one at its end by a wait, and is otherwise as it was. */
  ghost predicate Accounted(m: Machine, e: Step, s: Sid)
    requires Inv(m) && Enabled(m, e) && s in m.semas
  {
    && s in Do(m, e).semas
    && Do(m, e).semas[s].value == m.semas[s].value + If(IsUp(m, e, s)) - If(IsDown(m, e, s))
    && Do(m, e).semas[s].waiters ==
         if IsUp(m, e, s) then Tail(m.semas[s].waiters)
         else if IsWait(m, e, s) then m.semas[s].waiters + [m.running]
         else m.semas[s].waiters
  }

  lemma UpAccounted(m: Machine, e: Step, s: Sid)
    requires Inv(m) && Enabled(m, e) && s in m.semas && (e.CallUp? || e.HandlerUp?)
    ensures Accounted(m, e, s)
  {
    assert WaitersBlocked(m, e.s);
    hide Inv, SchedInv, QueueInv, CountInv, LockInv, Up;
    UpValue(m, e.s, s);
  }

  lemma SwitchAccounted(m: Machine, e: Step, s: Sid)
    requires Inv(m) && Enabled(m, e) && s in m.semas && (e.Tick? || e.Yield? || e.Exit? || e.IdleBlock?)
    ensures Accounted(m, e, s)
  {
    hide Inv, SwitchOut, Block, Released, Up, Passed, Grabbed, Rehold, Unblock;
    SwitchLeavesSemas(m, READY);
    SwitchLeavesSemas(m, DYING);
    SwitchLeavesSemas(m, BLOCKED);
  }

  lemma CallAccounted(m: Machine, e: Step, s: Sid)
    requires Inv(m) && Enabled(m, e) && s in m.semas
    requires !e.CallUp? && !e.HandlerUp? && !e.Tick? && !e.Yield? && !e.Exit? && !e.IdleBlock? && !e.Continue?
    ensures Accounted(m, e, s)
  {
    hide SchedInv, QueueInv, CountInv, LockInv, SwitchOut, Block, Released, Up;
    if e.CallTryAcquire? { LockHasSema(m, e.l); }
  }

  lemma StepValue(m: Machine, e: Step, s: Sid)
    requires Inv(m) && Enabled(m, e) && s in m.semas
    ensures Accounted(m, e, s)
  {
    hide Inv, Do, Accounted, Enabled;
    if e.Continue? {
      ContinueAccounted(m, s);
    } else if e.CallUp? || e.HandlerUp? {
      UpAccounted(m, e, s);
    } else if e.Tick? || e.Yield? || e.Exit? || e.IdleBlock? {
      SwitchAccounted(m, e, s);
    } else {
      CallAccounted(m, e, s);
    }
  }

  /** The value is never negative and is the initial value plus the ups less the downs. */
  lemma {:induction false} ValueIsNet(m: Machine, es: seq<Step>, s: Sid)
    requires Inv(m) && Run(m, es).Some? && s in m.semas
    ensures s in Run(m, es).value.semas
    ensures Run(m, es).value.semas[s].value == m.semas[s].value + Net(m, es, s)
    decreases |es|
  {
    if es != [] {
      StepValue(m, es[0], s);
      StepKeeps(m, es[0]);
      ValueIsNet(Do(m, es[0]), es[1..], s);
    }
  }

  // ---------- waiting for a semaphore ----------

  ghost function UpCount(m: Machine, es: seq<Step>, s: Sid): nat
    requires Inv(m) && Run(m, es).Some?
    decreases |es|
  {
    if es == [] then 0
    else (if IsUp(m, es[0], s) then 1 else 0) + (StepKeeps(m, es[0]); UpCount(Do(m, es[0]), es[1..], s))
  }

  /** Thread `t` is off the wait list of `s` at some point of the run. */
  ghost predicate WokenDuring(m: Machine, es: seq<Step>, s: Sid, t: Tid)
    requires Inv(m) && Run(m, es).Some?
    decreases |es|
  {
    || s !in m.semas || t !in m.semas[s].waiters
    || (es != [] && (StepKeeps(m, es[0]); WokenDuring(Do(m, es[0]), es[1..], s, t)))
  }

  /** Waiters are woken in the order they came: the one at position k by the (k + 1)th up. */
  lemma {:induction false} WokenInTurn(m: Machine, es: seq<Step>, s: Sid, k: nat)
    requires Inv(m) && Run(m, es).Some? && s in m.semas && k < |m.semas[s].waiters| && UpCount(m, es, s) >= k + 1
    ensures WokenDuring(m, es, s, m.semas[s].waiters[k])
    decreases |es|
  {
    hide Inv, Do, Enabled;
    var e, w := es[0], m.semas[s].waiters;
    StepKeeps(m, e);
    StepValue(m, e, s);
    FirstOnce(m, s);
    var m' := Do(m, e);
    if !IsUp(m, e, s) {
      WokenInTurn(m', es[1..], s, k);
    } else if k > 0 {
      WokenInTurn(m', es[1..], s, k - 1);
    }
  }

  lemma FirstOnce(m: Machine, s: Sid)
    requires Inv(m) && s in m.semas && m.semas[s].waiters != []
    ensures m.semas[s].waiters[0] !in Tail(m.semas[s].waiters)
  {
    assert WaitersBlocked(m, s);
  }

  // ---------- waiting for the processor ----------

  /** The step calls schedule. */
  predicate Schedules(m: Machine, e: Step)
    requires m.running in m.threads
  {
    match e
    case Tick => m.ticks + 1 >= TIME_SLICE
    case Yield => true
    case Exit => true
    case IdleBlock => true
    case Continue =>
      var s := Wants(m.threads[m.running].pc);
      s.Some? && s.value in m.semas && m.semas[s.value].value == 0
    case _ => false
  }

  lemma SwitchMoves(m: Machine, status: Status, k: nat)
    requires m.running in m.threads && m.idle in m.threads && forall t :: t in m.ready ==> t in m.threads
    ensures var m' := SwitchOut(m, status);
            && m'.ticks == 0
            && (k < |m.ready| ==>
                  if k == 0 then m'.running == m.ready[0] else k - 1 < |m'.ready| && m'.ready[k - 1] == m.ready[k])
  {
  }

  lemma UpMoves(m: Machine, s: Sid, k: nat)
    requires s in m.semas && forall t :: t in m.semas[s].waiters ==> t in m.threads
    ensures Up(m, s).ticks == m.ticks
    ensures k < |m.ready| ==> k < |Up(m, s).ready| && Up(m, s).ready[k] == m.ready[k]
  {
  }

  /** The slice counts ticks until schedule is called; a place in the ready list is given up only
      to move one forward, at that call. */
  ghost predicate Advances(m: Machine, e: Step, k: nat)
    requires Inv(m) && Enabled(m, e)
  {
    var m' := Do(m, e);
    && m'.ticks == (if Schedules(m, e) then 0 else m.ticks + If(e.Tick?))
    && (k < |m.ready| ==>
          if !Schedules(m, e) then k < |m'.ready| && m'.ready[k] == m.ready[k]
          else if k == 0 then m'.running == m.ready[0]
          else k - 1 < |m'.ready| && m'.ready[k - 1] == m.ready[k])
  }

  lemma ContinueAdvances(m: Machine, k: nat)
    requires Inv(m) && Enabled(m, Continue)
    ensures Advances(m, Continue, k)
  {
    RunningFacts(m);
    match m.threads[m.running].pc
    case Downing(s) => if m.semas[s].value == 0 { SwitchMoves(Enqueued(m, s), BLOCKED, k); }
    case Locking(s) => if m.semas[s].value == 0 { SwitchMoves(Enqueued(m, s), BLOCKED, k); }
    case Entering(l) =>
    case Leaving(l) =>
      LockHasSema(m, l);
      assert WaitersBlocked(m, l);
      hide SchedInv, QueueInv, CountInv, LockInv, Up;
      UpMoves(LeaveLock(m, l, m.running), l, k);
  }

  lemma UpAdvances(m: Machine, e: Step, k: nat)
    requires Inv(m) && Enabled(m, e) && (e.CallUp? || e.HandlerUp?)
    ensures Advances(m, e, k)
  {
    assert WaitersBlocked(m, e.s);
    hide Inv, SchedInv, QueueInv, CountInv, LockInv, Up;
    UpMoves(m, e.s, k);
  }

  lemma SwitchAdvances(m: Machine, e: Step, k: nat)
    requires Inv(m) && Enabled(m, e) && (e.Tick? || e.Yield? || e.Exit? || e.IdleBlock?)
    ensures Advances(m, e, k)
  {
    SwitchMoves(m, READY, k);
    SwitchMoves(m, DYING, k);
    SwitchMoves(m, BLOCKED, k);
    hide Inv, SchedInv, QueueInv, CountInv, LockInv, SwitchOut;
  }

  lemma CallAdvances(m: Machine, e: Step, k: nat)
    requires Inv(m) && Enabled(m, e)
    requires !e.CallUp? && !e.HandlerUp? && !e.Tick? && !e.Yield? && !e.Exit? && !e.IdleBlock? && !e.Continue?
    ensures Advances(m, e, k)
  {
    hide SchedInv, QueueInv, CountInv, LockInv, SwitchOut, Block, Released, Up;
    if e.CallTryAcquire? { LockHasSema(m, e.l); }
  }

  lemma StepAdvances(m: Machine, e: Step, k: nat)
    requires Inv(m) && Enabled(m, e)
    ensures Advances(m, e, k)
  {
    hide Inv, Do, Advances, Enabled;
    if e.Continue? {
      ContinueAdvances(m, k);
    } else if e.CallUp? || e.HandlerUp? {
      UpAdvances(m, e, k);
    } else if e.Tick? || e.Yield? || e.Exit? || e.IdleBlock? {
      SwitchAdvances(m, e, k);
    } else {
      CallAdvances(m, e, k);
    }
  }

  /** Thread `t` runs at some point of the run. */
  ghost predicate RunsDuring(m: Machine, es: seq<Step>, t: Tid)
    requires Inv(m) && Run(m, es).Some?
    decreases |es|
  {
    m.running == t || (es != [] && (StepKeeps(m, es[0]); RunsDuring(Do(m, es[0]), es[1..], t)))
  }

  ghost function ScheduleCount(m: Machine, es: seq<Step>): nat
    requires Inv(m) && Run(m, es).Some?
    decreases |es|
  {
    if es == [] then 0
    else (if Schedules(m, es[0]) then 1 else 0) + (StepKeeps(m, es[0]); ScheduleCount(Do(m, es[0]), es[1..]))
  }

  /** The thread at position k of the ready list runs by the (k + 1)th call of schedule. */
  lemma {:induction false} DispatchedInTurn(m: Machine, es: seq<Step>, k: nat)
    requires Inv(m) && Run(m, es).Some? && k < |m.ready| && ScheduleCount(m, es) >= k + 1
    ensures RunsDuring(m, es, m.ready[k])
    decreases |es|
  {
    var e, m' := es[0], Do(m, es[0]);
    StepKeeps(m, e);
    StepAdvances(m, e, k);
    hide Inv, Do;
    if !Schedules(m, e) {
      DispatchedInTurn(m', es[1..], k);
    } else if k > 0 {
      DispatchedInTurn(m', es[1..], k - 1);
    }
  }

  function TickCount(es: seq<Step>): nat {
    if es == [] then 0 else (if es[0].Tick? then 1 else 0) + TickCount(es[1..])
  }

  /** Time slices end: over any run, every four ticks bring a call of schedule. */
  lemma {:induction false} TicksSchedule(m: Machine, es: seq<Step>)
    requires Inv(m) && Run(m, es).Some?
    ensures TIME_SLICE * ScheduleCount(m, es) + Run(m, es).value.ticks >= TickCount(es) + m.ticks
    decreases |es|
  {
    if es != [] {
      StepKeeps(m, es[0]);
      StepAdvances(m, es[0], 0);
      TicksSchedule(Do(m, es[0]), es[1..]);
    }
  }

  /** The thread at position k of the ready list runs within 4 (k + 1) timer ticks. */
  lemma DispatchedInTime(m: Machine, es: seq<Step>, k: nat)
    requires Inv(m) && Run(m, es).Some? && k < |m.ready| && TickCount(es) >= TIME_SLICE * (k + 1)
    ensures RunsDuring(m, es, m.ready[k])
  {
    TicksSchedule(m, es);
    DispatchedInTurn(m, es, k);
  }

  // ---------- who runs next ----------

  /** schedule runs the idle thread only when no thread is READY. */
  lemma IdleWhenNoneReady(m: Machine, status: Status)
    requires SchedInv(m) && status != RUNNING
    ensures var m' := SwitchOut(m, status);
            m'.running == m.idle ==>
            m'.ready == [] && forall t :: t in m'.threads && t != m.idle ==> m'.threads[t].status != READY
  {
    SwitchOutSched(m, status);
    var m' := SwitchOut(m, status);
    if m'.running == m.idle {
      NeverListed(m);
      assert m'.ready == [];
    }
  }

  lemma NeverListed(m: Machine)
    requires SchedInv(m)
    ensures m.idle !in m.ready
  {
  }

  /** In every run, a step after which the idle thread has just been given the processor leaves no
      thread READY. */
  lemma NoIdlingWhileReady(m: Machine, e: Step)
    requires Inv(m) && m.running in m.threads && Enabled(m, e) && Schedules(m, e)
    ensures var m' := Do(m, e);
            m'.running == m.idle ==>
            m'.ready == [] && forall t :: t in m'.threads && t != m.idle ==> m'.threads[t].status != READY
  {
    hide SwitchOut, QueueInv, CountInv, LockInv;
    match e
    case Continue =>
      ContinueKnown(m);
      QueuedSched(m, Wants(m.threads[m.running].pc).value);
      IdleWhenNoneReady(Enqueued(m, Wants(m.threads[m.running].pc).value), BLOCKED);
    case Tick => IdleWhenNoneReady(m, READY);
    case Yield => IdleWhenNoneReady(m, READY);
    case Exit => IdleWhenNoneReady(m, DYING);
    case IdleBlock => IdleWhenNoneReady(m, BLOCKED);
  }

  lemma QueuedSched(m: Machine, s: Sid)
    requires SchedInv(m) && s in m.semas
    ensures SchedInv(Enqueued(m, s))
  {
  }

  /** A thread that yields, or whose slice ends, with no other thread READY goes on running. */
  lemma AloneKeepsRunning(m: Machine, e: Step)
    requires Inv(m) && m.running != m.idle && m.ready == [] && (e == Yield || e == Tick)
    ensures Do(m, e).running == m.running && Do(m, e).ready == []
    ensures Do(m, e).threads[m.running].status == RUNNING
  {
    hide QueueInv, CountInv, LockInv;
    assert [m.running][1..] == [];
  }

  /** A thread that gives up the processor and stays READY is behind all that were READY before it. */
  lemma YieldsBehind(m: Machine)
    requires Inv(m) && m.running != m.idle
    ensures var q := m.ready + [m.running];
            Do(m, Yield).running == q[0] && Do(m, Yield).ready == q[1..]
  {
    hide QueueInv, CountInv, LockInv;
  }

  predicate Dead(m: Machine, t: Tid) {
    t in m.threads && m.threads[t].status == DYING && t != m.idle
  }

  lemma SwitchLeavesDead(m: Machine, status: Status, t: Tid)
    requires SchedInv(m) && Dead(m, t)
    ensures Dead(SwitchOut(m, status), t)
  {
    SwitchEffect(m, status);
  }

  lemma UpLeavesDead(m: Machine, s: Sid, t: Tid)
    requires s in m.semas && (forall x :: x in m.semas[s].waiters ==> x in m.threads && m.threads[x].status == BLOCKED)
    requires Dead(m, t)
    ensures Dead(Up(m, s), t)
  {
  }

  lemma WaitersAsleep(m: Machine, s: Sid)
    requires Inv(m) && s in m.semas
    ensures forall x :: x in m.semas[s].waiters ==> x in m.threads && m.threads[x].status == BLOCKED
  {
    assert WaitersBlocked(m, s);
  }

  lemma ContinueLeavesDead(m: Machine, t: Tid)
    requires Inv(m) && Enabled(m, Continue) && Dead(m, t)
    ensures Dead(Do(m, Continue), t)
  {
    ContinueKnown(m);
    hide QueueInv, CountInv, LockInv, SwitchOut, Up;
    match m.threads[m.running].pc
    case Downing(s) => if m.semas[s].value == 0 { QueuedSched(m, s); SwitchLeavesDead(Enqueued(m, s), BLOCKED, t); }
    case Locking(s) => if m.semas[s].value == 0 { QueuedSched(m, s); SwitchLeavesDead(Enqueued(m, s), BLOCKED, t); }
    case Entering(_) =>
    case Leaving(l) =>
      LockHasSema(m, l);
      WaitersAsleep(m, l);
      UpLeavesDead(LeaveLock(m, l, m.running), l, t);
  }

  lemma UpStepLeavesDead(m: Machine, e: Step, t: Tid)
    requires Inv(m) && Enabled(m, e) && Dead(m, t) && (e.CallUp? || e.HandlerUp?)
    ensures Dead(Do(m, e), t)
  {
    hide Inv, Up;
    WaitersAsleep(m, e.s);
    UpLeavesDead(m, e.s, t);
  }

  lemma SwitchStepLeavesDead(m: Machine, e: Step, t: Tid)
    requires Inv(m) && Enabled(m, e) && Dead(m, t) && (e.Tick? || e.Yield? || e.Exit? || e.IdleBlock?)
    ensures Dead(Do(m, e), t)
  {
    hide SchedInv, QueueInv, CountInv, LockInv, SwitchOut;
    SwitchLeavesDead(m, READY, t);
    SwitchLeavesDead(m, DYING, t);
    SwitchLeavesDead(m, BLOCKED, t);
  }

  lemma CallLeavesDead(m: Machine, e: Step, t: Tid)
    requires Inv(m) && Enabled(m, e) && Dead(m, t)
    requires !e.CallUp? && !e.HandlerUp? && !e.Tick? && !e.Yield? && !e.Exit? && !e.IdleBlock? && !e.Continue?
    ensures Dead(Do(m, e), t)
  {
    hide SchedInv, QueueInv, CountInv, LockInv, SwitchOut, Block, Released, Up;
    if e.CallTryAcquire? { LockHasSema(m, e.l); }
  }

  lemma DeadStays(m: Machine, e: Step, t: Tid)
    requires Inv(m) && Enabled(m, e) && Dead(m, t)
    ensures Dead(Do(m, e), t)
  {
    hide Inv, Do, Enabled, Dead;
    if e.Continue? {
      ContinueLeavesDead(m, t);
    } else if e.CallUp? || e.HandlerUp? {
      UpStepLeavesDead(m, e, t);
    } else if e.Tick? || e.Yield? || e.Exit? || e.IdleBlock? {
      SwitchStepLeavesDead(m, e, t);
    } else {
      CallLeavesDead(m, e, t);
    }
  }

  lemma DeadIsOut(m: Machine, t: Tid)
    requires Inv(m) && Dead(m, t)
    ensures m.running != t && t !in m.ready
  {
  }

  /** A thread that exits never runs again and is on no list, whatever follows. */
  lemma {:induction false} ExitIsFinal(m: Machine, es: seq<Step>, t: Tid)
    requires Inv(m) && Run(m, es).Some? && Dead(m, t)
    ensures Dead(Run(m, es).value, t) && Run(m, es).value.running != t && t !in Run(m, es).value.ready
    decreases |es|
  {
    hide Inv, Do, Enabled, Dead;
    DeadIsOut(m, t);
    if es != [] {
      StepKeeps(m, es[0]);
      DeadStays(m, es[0], t);
      ExitIsFinal(Do(m, es[0]), es[1..], t);
    }
  }

  lemma DyingLeaves(m: Machine)
    requires SchedInv(m) && m.running != m.idle
    ensures Dead(SwitchOut(m, DYING), m.running)
  {
    SwitchEffect(m, DYING);
  }

  /** thread_exit makes the running thread such a thread. */
  lemma ExitDies(m: Machine)
    requires Inv(m) && m.running in m.threads && Enabled(m, Exit)
    ensures Dead(Do(m, Exit), m.running)
  {
    hide SchedInv, QueueInv, CountInv, LockInv, SwitchOut;
    DyingLeaves(m);
  }

  /** thread_create puts the new thread on the ready list, last. */
  lemma CreateIsReady(m: Machine, t: Tid)
    requires Inv(m) && Enabled(m, Create(t))
    ensures var m' := Do(m, Create(t));
            && t in m'.threads && m'.threads[t] == Thread(READY, Outside)
            && m'.ready == m.ready + [t] && m'.running == m.running
  {
    hide Inv;
  }

  /** When thread_start returns: the initial thread runs, the idle thread is blocked, nothing is queued. */
  lemma InitOk(main: Tid, idle: Tid, values: map<Sid, nat>, locks: set<Sid>)
    requires main != idle && locks <= values.Keys && forall l :: l in locks ==> values[l] == 1
    ensures Inv(Machine(map[main := Thread(RUNNING, Outside), idle := Thread(BLOCKED, Outside)], main, idle, [], 0,
                        map s | s in values :: Sema(values[s], values[s], 0, 0, []),
                        map l | l in locks :: LockInfo(None, {})))
  {
  }
}
