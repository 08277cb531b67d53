/**
 Threads, the round-robin scheduler, semaphores and locks as one machine.  Each step is what runs
 with interrupts off; between steps any interrupt may come, so runs of steps are all interleavings.
 */
module Threads {
  import opened Prelude

  type Tid = nat
  type Sid = nat

  const TIME_SLICE := 4

  datatype Status = RUNNING | READY | BLOCKED | DYING

  /** Where a thread is inside a synchronization primitive. */
  datatype Pc =
    | Outside
    | Downing(s: Sid)   // in sema_down's loop, about to test the value
    | Locking(l: Sid)   // in lock_acquire's sema_down
    | Entering(l: Sid)  // past that sema_down, holder not yet set
    | Leaving(l: Sid)   // in lock_release, holder cleared, sema_up still to come

  datatype Thread = Thread(status: Status, pc: Pc)

  /** A semaphore, with counts of the downs and ups done since sema_init. */
  datatype Sema = Sema(initial: nat, value: nat, ups: nat, downs: nat, waiters: seq<Tid>)

  /** A lock's holder field, and the threads between its sema_down and its sema_up. */
  datatype LockInfo = LockInfo(holder: Option<Tid>, inside: set<Tid>)

  datatype Machine = Machine(
    threads: map<Tid, Thread>, running: Tid, idle: Tid, ready: seq<Tid>, ticks: nat,
    semas: map<Sid, Sema>, locks: map<Sid, LockInfo>)

  // ---------- invariant ----------

  predicate Distinct(s: seq<Tid>) {
    forall i, j :: 0 <= i < j < |s| ==> s[i] != s[j]
  }

  /** The semaphore a thread is trying to take. */
  function Wants(pc: Pc): Option<Sid> {
    match pc
    case Downing(s) => Some(s)
    case Locking(l) => Some(l)
    case _ => None
  }

  /** One thread runs; the READY threads, the idle thread apart, are those on the ready list, once each. */
  ghost predicate SchedInv(m: Machine) {
    && m.running in m.threads && m.idle in m.threads
    && (forall t :: t in m.threads ==> (m.threads[t].status == RUNNING <==> t == m.running))
    && (forall t :: t in m.threads ==> (t in m.ready <==> m.threads[t].status == READY && t != m.idle))
    && (forall t :: t in m.ready ==> t in m.threads)
    && Distinct(m.ready)
    && m.ticks < TIME_SLICE
  }

  /** Blocked in a semaphore's loop means on its wait list. */
  predicate ThreadQueued(m: Machine, t: Tid)
    requires t in m.threads
  {
    var th := m.threads[t];
    && (Wants(th.pc).Some? ==>
          Wants(th.pc).value in m.semas && (th.status == BLOCKED ==> t in m.semas[Wants(th.pc).value].waiters))
    && (th.status == DYING || t == m.idle ==> th.pc == Outside)
  }

  /** On a semaphore's wait list means blocked in its loop. */
  predicate WaitersBlocked(m: Machine, s: Sid)
    requires s in m.semas
  {
    && Distinct(m.semas[s].waiters)
    && forall t :: t in m.semas[s].waiters ==>
         t in m.threads && m.threads[t].status == BLOCKED && Wants(m.threads[t].pc) == Some(s)
  }

  ghost predicate QueueInv(m: Machine) {
    && (forall s :: s in m.semas ==> WaitersBlocked(m, s))
    && (forall t :: t in m.threads ==> ThreadQueued(m, t))
  }

  /** Threads that are awake and about to test semaphore `s`. */
  ghost function Testing(m: Machine, s: Sid): set<Tid>
    requires s in m.semas
  {
    set t | t in m.threads && Wants(m.threads[t].pc) == Some(s) && t !in m.semas[s].waiters
  }

  /** The value is what the ups and downs make it, and no wakeup is lost: while a semaphore has
      waiters, every unit of its value has an awake thread about to test for it. */
  ghost predicate Counted(m: Machine, s: Sid)
    requires s in m.semas
  {
    && m.semas[s].value + m.semas[s].downs == m.semas[s].initial + m.semas[s].ups
    && (m.semas[s].waiters != [] ==> m.semas[s].value <= |Testing(m, s)|)
  }

  ghost predicate CountInv(m: Machine) {
    forall s :: s in m.semas ==> Counted(m, s)
  }

  /** A lock's value and the threads inside it always make one, and its holder is inside. */
  predicate LockOk(m: Machine, l: Sid)
    requires l in m.locks
  {
    var lock := m.locks[l];
    && l in m.semas && m.semas[l].value + |lock.inside| == 1
    && (lock.holder.Some? ==> lock.holder.value in lock.inside)
    && forall t :: t in lock.inside ==>
         t in m.threads &&
         (lock.holder == Some(t) <==> m.threads[t].pc != Entering(l) && m.threads[t].pc != Leaving(l))
  }

  predicate ThreadLocks(m: Machine, t: Tid)
    requires t in m.threads
  {
    match m.threads[t].pc
    case Entering(l) => l in m.locks && t in m.locks[l].inside
    case Leaving(l) => l in m.locks && t in m.locks[l].inside
    case Locking(l) => l in m.locks && t !in m.locks[l].inside
    case Downing(s) => s !in m.locks
    case Outside => true
  }

  ghost predicate LockInv(m: Machine) {
    && (forall l :: l in m.locks ==> LockOk(m, l))
    && (forall t :: t in m.threads ==> ThreadLocks(m, t))
  }

  ghost predicate Inv(m: Machine) {
    SchedInv(m) && QueueInv(m) && CountInv(m) && LockInv(m)
  }

  // ---------- the scheduler ----------

  function SetStatus(m: Machine, t: Tid, status: Status): Machine
    requires t in m.threads
  {
    m.(threads := m.threads[t := m.threads[t].(status := status)])
  }

  function SetPc(m: Machine, t: Tid, pc: Pc): Machine
    requires t in m.threads
  {
    m.(threads := m.threads[t := m.threads[t].(pc := pc)])
  }

  /** schedule and thread_schedule_tail: run the front of the ready list, or the idle thread. */
  function Schedule(m: Machine): Machine
    requires m.idle in m.threads && forall t :: t in m.ready ==> t in m.threads
  {
    var next := if m.ready == [] then m.idle else m.ready[0];
    SetStatus(m, next, RUNNING).(
      running := next, ready := if m.ready == [] then [] else m.ready[1..], ticks := 0)
  }

  /** The running thread gives up the processor: thread_yield, thread_block or the end of thread_exit. */
  function SwitchOut(m: Machine, status: Status): Machine
    requires m.running in m.threads && m.idle in m.threads && forall t :: t in m.ready ==> t in m.threads
  {
    var m' := SetStatus(m, m.running, status);
    Schedule(if status == READY && m.running != m.idle then m'.(ready := m.ready + [m.running]) else m')
  }

  /** thread_unblock. */
  function Unblock(m: Machine, t: Tid): Machine
    requires t in m.threads
  {
    SetStatus(m, t, READY).(ready := m.ready + [t])
  }

  lemma TailMembers(s: seq<Tid>)
    requires Distinct(s) && s != []
    ensures Distinct(s[1..]) && forall x :: x in s[1..] <==> x in s && x != s[0]
  {
    forall x ensures x in s[1..] <==> x in s && x != s[0] {
      if x in s && x != s[0] {
        var i :| 0 <= i < |s| && s[i] == x;
        assert s[1..][i - 1] == x;
      }
    }
  }

  /** SchedInv, but for the running thread, which has just left the RUNNING state. */
  ghost predicate Parked(m: Machine) {
    && m.running in m.threads && m.idle in m.threads
    && (forall t :: t in m.threads ==> m.threads[t].status != RUNNING)
    && (forall t :: t in m.threads ==> (t in m.ready <==> m.threads[t].status == READY && t != m.idle))
    && (forall t :: t in m.ready ==> t in m.threads)
    && Distinct(m.ready)
  }

  lemma ScheduleKeeps(m: Machine)
    requires Parked(m)
    ensures SchedInv(Schedule(m))
  {
    if m.ready != [] { TailMembers(m.ready); }
  }

  lemma SwitchOutSched(m: Machine, status: Status)
    requires SchedInv(m) && status != RUNNING
    ensures SchedInv(SwitchOut(m, status))
  {
    var m' := SetStatus(m, m.running, status);
    var parked := if status == READY && m.running != m.idle then m'.(ready := m.ready + [m.running]) else m';
    ScheduleKeeps(parked);
  }

  lemma UnblockSched(m: Machine, t: Tid)
    requires SchedInv(m) && t in m.threads && m.threads[t].status == BLOCKED && t != m.idle
    ensures SchedInv(Unblock(m, t))
  {
  }

  // ---------- steps ----------

  function Pop(m: Machine, s: Sid): Machine
    requires s in m.semas && m.semas[s].waiters != []
  {
    m.(semas := m.semas[s := m.semas[s].(waiters := m.semas[s].waiters[1..])])
  }

  /** sema_up: wake the first waiter, if any, then increment. */
  function Up(m: Machine, s: Sid): Machine
    requires s in m.semas && forall t :: t in m.semas[s].waiters ==> t in m.threads
  {
    var sem := m.semas[s];
    var m' := if sem.waiters == [] then m else Unblock(Pop(m, s), sem.waiters[0]);
    m'.(semas := m'.semas[s := m'.semas[s].(value := sem.value + 1, ups := sem.ups + 1)])
  }

  function Take(sem: Sema): Sema
    requires sem.value > 0
  {
    sem.(value := sem.value - 1, downs := sem.downs + 1)
  }

  function Enqueued(m: Machine, s: Sid): Machine
    requires s in m.semas
  {
    m.(semas := m.semas[s := m.semas[s].(waiters := m.semas[s].waiters + [m.running])])
  }

  /** sema_down's loop body, while the value is zero: wait at the end of the list. */
  function Block(m: Machine, s: Sid): Machine
    requires s in m.semas && m.running in m.threads && m.idle in m.threads
    requires forall t :: t in m.ready ==> t in m.threads
  {
    SwitchOut(Enqueued(m, s), BLOCKED)
  }

  /** A positive value is decremented, and sema_down or sema_try_down returns. */
  function Passed(m: Machine, s: Sid): Machine
    requires s in m.semas && m.running in m.threads && m.semas[s].value > 0
  {
    SetPc(m.(semas := m.semas[s := Take(m.semas[s])]), m.running, Outside)
  }

  datatype Step =
    | CallDown(s: Sid) | CallTryDown(s: Sid) | CallUp(s: Sid)
    | CallAcquire(l: Sid) | CallTryAcquire(l: Sid) | CallRelease(l: Sid)
    | Continue          // the running thread goes on inside its primitive
    | HandlerUp(s: Sid) // an interrupt handler calls sema_up
    | Tick | Yield | Exit | IdleBlock
    | Create(t: Tid)

  /** The assertions each primitive makes of its caller, and what the idle thread may do. */
  predicate Enabled(m: Machine, e: Step)
    requires m.running in m.threads
  {
    var pc := m.threads[m.running].pc;
    var busy := m.running == m.idle;
    match e
    case CallDown(s) => pc == Outside && !busy && s in m.semas && s !in m.locks
    case CallTryDown(s) => pc == Outside && !busy && s in m.semas && s !in m.locks
    case CallUp(s) => pc == Outside && s in m.semas && s !in m.locks
    case CallAcquire(l) => pc == Outside && !busy && l in m.locks && m.locks[l].holder != Some(m.running)
    case CallTryAcquire(l) => pc == Outside && !busy && l in m.locks && m.locks[l].holder != Some(m.running)
    case CallRelease(l) => pc == Outside && !busy && l in m.locks && m.locks[l].holder == Some(m.running)
    case Continue => pc != Outside
    case HandlerUp(s) => s in m.semas && s !in m.locks
    case Tick => true
    case Yield => true
    case Exit => pc == Outside && !busy
    case IdleBlock => busy
    case Create(t) => t !in m.threads
  }

  /** The sema_up that ends lock_release. */
  function Released(m: Machine, l: Sid): Machine
    requires m.running in m.threads && l in m.locks && l in m.semas
    requires forall t :: t in m.semas[l].waiters ==> t in m.threads
  {
    SetPc(Up(LeaveLock(m, l, m.running), l), m.running, Outside)
  }

  function EnterLock(m: Machine, l: Sid, t: Tid): Machine
    requires l in m.locks
  {
    m.(locks := m.locks[l := m.locks[l].(inside := m.locks[l].inside + {t})])
  }

  function SetHolder(m: Machine, l: Sid, holder: Option<Tid>): Machine
    requires l in m.locks
  {
    m.(locks := m.locks[l := m.locks[l].(holder := holder)])
  }

  function LeaveLock(m: Machine, l: Sid, t: Tid): Machine
    requires l in m.locks
  {
    m.(locks := m.locks[l := m.locks[l].(inside := m.locks[l].inside - {t})])
  }

  /** One step. */
  ghost function Do(m: Machine, e: Step): Machine
    requires Inv(m) && Enabled(m, e)
  {
    var t := m.running;
    match e
    case CallDown(s) => SetPc(m, t, Downing(s))
    case CallTryDown(s) => if m.semas[s].value > 0 then Passed(m, s) else m
    case CallUp(s) => Up(m, s)
    case CallAcquire(l) => SetPc(m, t, Locking(l))
    case CallTryAcquire(l) =>
      if m.semas[l].value > 0 then
        Grabbed(m, l)
      else m
    case CallRelease(l) => Rehold(m, l, false)
    case Continue =>
      (match m.threads[t].pc
       case Downing(s) => if m.semas[s].value == 0 then Block(m, s) else Passed(m, s)
       case Locking(l) => if m.semas[l].value == 0 then Block(m, l) else Grabbed(m, l)
       case Entering(l) => Rehold(m, l, true)
       case Leaving(l) => Released(m, l)
       case Outside => m)
    case HandlerUp(s) => Up(m, s)
    case Tick => if m.ticks + 1 >= TIME_SLICE then SwitchOut(m, READY) else m.(ticks := m.ticks + 1)
    case Yield => SwitchOut(m, READY)
    case Exit => SwitchOut(m, DYING)
    case IdleBlock => SwitchOut(m, BLOCKED)
    case Create(n) => Unblock(m.(threads := m.threads[n := Thread(BLOCKED, Outside)]), n)
  }

  /** Semaphores, locks and program counters are as they were. */
  ghost predicate SameSync(m: Machine, m': Machine) {
    && m'.semas == m.semas && m'.locks == m.locks && m'.idle == m.idle
    && m'.threads.Keys == m.threads.Keys
    && forall t :: t in m.threads ==> m'.threads[t].pc == m.threads[t].pc
  }

  lemma SyncTransfer(m: Machine, m': Machine)
    requires SameSync(m, m') && CountInv(m) && LockInv(m)
    ensures CountInv(m') && LockInv(m')
  {
    LockTransfer(m, m');
    hide LockInv;
    forall s | s in m.semas ensures Counted(m', s) {
      assert Counted(m, s) && Testing(m', s) == Testing(m, s);
    }
  }

  lemma ScheduleEffect(m: Machine)
    requires m.idle in m.threads && forall t :: t in m.ready ==> t in m.threads
    ensures var m' := Schedule(m);
            && SameSync(m, m') && m'.running == (if m.ready == [] then m.idle else m.ready[0])
            && m'.running in m.threads
            && forall t :: t in m.threads ==>
                 m'.threads[t].status == if t == m'.running then RUNNING else m.threads[t].status
  {
  }

  lemma SwitchEffect(m: Machine, status: Status)
    requires m.running in m.threads && m.idle in m.threads
    requires forall t :: t in m.ready ==> t in m.threads && m.threads[t].status == READY
    ensures var m' := SwitchOut(m, status);
            && SameSync(m, m') && m'.running in m.threads
            && (forall t :: t in m.threads ==>
                  m'.threads[t].status == if t == m'.running then RUNNING
                                          else if t == m.running then status else m.threads[t].status)
            && (m'.running == m.idle || m'.running == m.running || m.threads[m'.running].status == READY)
  {
    hide Schedule;
    var m' := SetStatus(m, m.running, status);
    ScheduleEffect(if status == READY && m.running != m.idle then m'.(ready := m.ready + [m.running]) else m');
  }

  lemma SwitchQueue(m: Machine, status: Status)
    requires SchedInv(m) && QueueInv(m) && status != RUNNING
    requires status == BLOCKED || status == DYING ==> m.threads[m.running].pc == Outside
    ensures QueueInv(SwitchOut(m, status))
  {
    hide SwitchOut;
    SwitchEffect(m, status);
    var m' := SwitchOut(m, status);
    forall s | s in m'.semas ensures WaitersBlocked(m', s) {
      assert WaitersBlocked(m, s);
    }
    forall t | t in m'.threads ensures ThreadQueued(m', t) {
      assert ThreadQueued(m, t);
    }
  }

  /** Giving up the processor outside a wait list disturbs no semaphore. */
  lemma SwitchKeeps(m: Machine, status: Status)
    requires Inv(m) && status != RUNNING
    requires status == BLOCKED || status == DYING ==> m.threads[m.running].pc == Outside
    ensures Inv(SwitchOut(m, status))
  {
    hide QueueInv, CountInv, LockInv, SwitchOut;
    SwitchOutSched(m, status);
    SwitchEffect(m, status);
    SyncTransfer(m, SwitchOut(m, status));
    SwitchQueue(m, status);
  }

  // ---------- the running thread moves on inside a primitive ----------

  /** `m'` differs from `m` in thread t's pc, and in the value and counts of s. */
  ghost predicate PcStep(m: Machine, m': Machine, t: Tid, pc: Pc, s: Sid, sem: Sema) {
    && t in m.threads && s in m.semas
    && sem.waiters == m.semas[s].waiters
    && m'.threads == m.threads[t := m.threads[t].(pc := pc)]
    && m'.semas == m.semas[s := sem]
    && m'.running == m.running && m'.idle == m.idle && m'.ready == m.ready && m'.ticks == m.ticks
  }

  lemma PcSched(m: Machine, m': Machine, t: Tid, pc: Pc, s: Sid, sem: Sema)
    requires SchedInv(m) && PcStep(m, m', t, pc, s, sem)
    ensures SchedInv(m')
  {
  }

  lemma PcQueue(m: Machine, m': Machine, t: Tid, pc: Pc, s: Sid, sem: Sema)
    requires QueueInv(m) && PcStep(m, m', t, pc, s, sem)
    requires m.threads[t].status != BLOCKED && m.threads[t].status != DYING
    requires (Wants(pc).Some? ==> Wants(pc).value in m.semas) && (t == m.idle ==> pc == Outside)
    ensures QueueInv(m')
  {
    forall x | x in m'.semas ensures WaitersBlocked(m', x) {
      assert WaitersBlocked(m, x);
    }
    forall x | x in m'.threads ensures ThreadQueued(m', x) {
      assert ThreadQueued(m, x);
    }
  }

  /** How a change of pc moves a thread into or out of the testers of each semaphore. */
  lemma PcTesting(m: Machine, m': Machine, t: Tid, pc: Pc, s: Sid, sem: Sema, x: Sid)
    requires PcStep(m, m', t, pc, s, sem) && x in m.semas && t !in m.semas[x].waiters
    ensures Testing(m', x) == if Wants(pc) == Some(x) then Testing(m, x) + {t} else Testing(m, x) - {t}
    ensures t in Testing(m, x) <==> Wants(m.threads[t].pc) == Some(x)
  {
  }

  lemma PcCount(m: Machine, m': Machine, t: Tid, pc: Pc, s: Sid, sem: Sema)
    requires QueueInv(m) && CountInv(m) && PcStep(m, m', t, pc, s, sem)
    requires m.threads[t].status != BLOCKED
    requires sem.value + sem.downs == sem.initial + sem.ups
    requires forall x :: Wants(m.threads[t].pc) == Some(x) && Wants(pc) != Some(x) ==>
      x == s && sem.value < m.semas[s].value
    requires sem.value <= m.semas[s].value
    ensures CountInv(m')
  {
    forall x | x in m'.semas ensures Counted(m', x) {
      assert Counted(m, x) && WaitersBlocked(m, x);
      PcTesting(m, m', t, pc, s, sem, x);
    }
  }

  /** Locks after a step of thread t on lock `l`. */
  ghost predicate LockStep(m: Machine, m': Machine, t: Tid, l: Sid, lock: LockInfo) {
    && l in m.locks && m'.locks == m.locks[l := lock]
    && t in m.threads && m'.threads.Keys == m.threads.Keys
    && (forall x :: x in m.threads && x != t ==> m'.threads[x].pc == m.threads[x].pc)
    && m'.semas.Keys == m.semas.Keys
    && (forall x :: x in m.semas && x != l ==> m'.semas[x].value == m.semas[x].value)
  }

  /** Is thread t, inside lock l, not its holder? */
  predicate Between(pc: Pc, l: Sid) {
    pc == Entering(l) || pc == Leaving(l)
  }

  lemma LockKept(m: Machine, m': Machine, t: Tid, l: Sid, lock: LockInfo)
    requires LockInv(m) && LockStep(m, m', t, l, lock)
    requires m'.semas[l].value + |lock.inside| == 1
    requires forall x :: x != t ==> (x in lock.inside <==> x in m.locks[l].inside)
    requires forall x :: x != t ==> (lock.holder == Some(x) <==> m.locks[l].holder == Some(x))
    requires t in lock.inside ==> (lock.holder == Some(t) <==> !Between(m'.threads[t].pc, l))
    requires t !in lock.inside ==> lock.holder != Some(t)
    requires ThreadLocks(m', t)
    requires forall x :: x in m.locks && x != l && t in m.locks[x].inside ==>
      (Between(m'.threads[t].pc, x) <==> Between(m.threads[t].pc, x))
    ensures LockInv(m')
  {
    forall x | x in m'.locks ensures LockOk(m', x) {
      assert LockOk(m, x);
    }
    forall x | x in m'.threads ensures ThreadLocks(m', x) {
      assert ThreadLocks(m, x);
    }
  }

  lemma LocksUntouched(m: Machine, m': Machine, t: Tid)
    requires LockInv(m) && m'.locks == m.locks && t in m.threads && m'.threads.Keys == m.threads.Keys
    requires forall x :: x in m.threads && x != t ==> m'.threads[x].pc == m.threads[x].pc
    requires m'.semas.Keys == m.semas.Keys
    requires forall l :: l in m.locks && l in m.semas ==> m'.semas[l].value == m.semas[l].value
    requires !m.threads[t].pc.Entering? && !m.threads[t].pc.Leaving?
    requires !m'.threads[t].pc.Entering? && !m'.threads[t].pc.Leaving?
    requires ThreadLocks(m', t)
    ensures LockInv(m')
  {
    forall x | x in m'.locks ensures LockOk(m', x) {
      assert LockOk(m, x);
    }
    forall x | x in m'.threads ensures ThreadLocks(m', x) {
      assert ThreadLocks(m, x);
    }
  }

  /** sema_down and lock_acquire begin. */
  lemma StartKeeps(m: Machine, pc: Pc)
    requires Inv(m) && m.threads[m.running].pc == Outside && m.running != m.idle
    requires match pc
             case Downing(s) => s in m.semas && s !in m.locks
             case Locking(l) => l in m.semas && l in m.locks && m.locks[l].holder != Some(m.running)
             case _ => false
    ensures Inv(SetPc(m, m.running, pc))
  {
    var t, s := m.running, Wants(pc).value;
    var m' := SetPc(m, t, pc);
    hide Inv, SchedInv, QueueInv, CountInv, LockInv;
    Facts(m, s);
    assert m.semas[s := m.semas[s]] == m.semas;
    PcSched(m, m', t, pc, s, m.semas[s]);
    PcQueue(m, m', t, pc, s, m.semas[s]);
    PcCount(m, m', t, pc, s, m.semas[s]);
    LocksUntouched(m, m', t);
    Together(m');
  }

  lemma Together(m: Machine)
    requires SchedInv(m) && QueueInv(m) && CountInv(m) && LockInv(m)
    ensures Inv(m)
  {
  }

  /** What the invariant says of the running thread and of one semaphore. */
  lemma Facts(m: Machine, s: Sid)
    requires Inv(m) && s in m.semas
    ensures SchedInv(m) && QueueInv(m) && CountInv(m) && LockInv(m)
    ensures m.running in m.threads && m.threads[m.running].status == RUNNING && m.idle in m.threads
    ensures ThreadLocks(m, m.running) && ThreadQueued(m, m.running)
    ensures Counted(m, s) && WaitersBlocked(m, s) && (s in m.locks ==> LockOk(m, s))
  {
  }

  /** A semaphore's value is taken: by sema_try_down, or by the thread in its loop. */
  lemma TakeKeeps(m: Machine, s: Sid)
    requires Inv(m) && s in m.semas && s !in m.locks && m.semas[s].value > 0
    requires m.threads[m.running].pc == Outside || m.threads[m.running].pc == Downing(s)
    ensures Inv(Passed(m, s))
  {
    var t, sem := m.running, Take(m.semas[s]);
    var m' := Passed(m, s);
    hide Inv, SchedInv, QueueInv, CountInv, LockInv;
    Facts(m, s);
    PcSched(m, m', t, Outside, s, sem);
    PcQueue(m, m', t, Outside, s, sem);
    PcCount(m, m', t, Outside, s, sem);
    LocksUntouched(m, m', t);
    Together(m');
  }

  function Grabbed(m: Machine, l: Sid): Machine
    requires m.running in m.threads && l in m.locks && l in m.semas && m.semas[l].value > 0
  {
    SetPc(EnterLock(m.(semas := m.semas[l := Take(m.semas[l])]), l, m.running), m.running, Entering(l))
  }

  lemma GrabLocks(m: Machine, l: Sid)
    requires LockInv(m) && m.running in m.threads && l in m.locks && l in m.semas && m.semas[l].value > 0
    requires m.threads[m.running].pc == Locking(l) ||
             (m.threads[m.running].pc == Outside && m.locks[l].holder != Some(m.running))
    ensures LockInv(Grabbed(m, l))
  {
    assert LockOk(m, l) && ThreadLocks(m, m.running);
    assert m.locks[l].inside == {};
    hide LockInv;
    LockKept(m, Grabbed(m, l), m.running, l, Grabbed(m, l).locks[l]);
  }

  /** A lock's value is taken, by lock_try_acquire or in lock_acquire's loop. */
  lemma GrabKeeps(m: Machine, l: Sid)
    requires Inv(m) && l in m.locks && l in m.semas && m.semas[l].value > 0
    requires m.running != m.idle
    requires m.threads[m.running].pc == Locking(l) ||
             (m.threads[m.running].pc == Outside && m.locks[l].holder != Some(m.running))
    ensures Inv(Grabbed(m, l))
  {
    var t, sem := m.running, Take(m.semas[l]);
    var m' := Grabbed(m, l);
    hide Inv, SchedInv, QueueInv, CountInv, LockInv, LockOk, ThreadLocks;
    Facts(m, l);
    PcSched(m, m', t, Entering(l), l, sem);
    PcQueue(m, m', t, Entering(l), l, sem);
    PcCount(m, m', t, Entering(l), l, sem);
    GrabLocks(m, l);
    Together(m');
  }

  /** The holder field is set after acquiring, or cleared before releasing. */
  function Rehold(m: Machine, l: Sid, entering: bool): Machine
    requires m.running in m.threads && l in m.locks
  {
    SetPc(SetHolder(m, l, if entering then Some(m.running) else None), m.running,
          if entering then Outside else Leaving(l))
  }

  predicate CanRehold(m: Machine, l: Sid, entering: bool) {
    && m.running in m.threads && l in m.locks && l in m.semas
    && if entering then m.threads[m.running].pc == Entering(l)
       else m.threads[m.running].pc == Outside && m.locks[l].holder == Some(m.running) && m.running != m.idle
  }

  lemma ReholdLocks(m: Machine, l: Sid, entering: bool)
    requires LockInv(m) && CanRehold(m, l, entering)
    ensures LockInv(Rehold(m, l, entering))
  {
    assert LockOk(m, l) && ThreadLocks(m, m.running);
    OnlyOneInside(m, l, m.running);
    hide LockInv;
    LockKept(m, Rehold(m, l, entering), m.running, l, Rehold(m, l, entering).locks[l]);
  }

  lemma ReholdKeeps(m: Machine, l: Sid, entering: bool)
    requires Inv(m) && CanRehold(m, l, entering)
    ensures Inv(Rehold(m, l, entering))
  {
    var t, pc := m.running, if entering then Outside else Leaving(l);
    var m' := Rehold(m, l, entering);
    hide Inv, SchedInv, QueueInv, CountInv, LockInv, LockOk, ThreadLocks;
    Facts(m, l);
    assert m.semas[l := m.semas[l]] == m.semas;
    PcSched(m, m', t, pc, l, m.semas[l]);
    PcQueue(m, m', t, pc, l, m.semas[l]);
    PcCount(m, m', t, pc, l, m.semas[l]);
    ReholdLocks(m, l, entering);
    Together(m');
  }

  /** Mutual exclusion: a thread inside a lock is alone there, and no one else holds it. */
  lemma OnlyOneInside(m: Machine, l: Sid, t: Tid)
    requires LockInv(m) && l in m.locks && t in m.locks[l].inside
    ensures m.locks[l].inside == {t} && m.semas[l].value == 0
    ensures m.locks[l].holder == None || m.locks[l].holder == Some(t)
  {
    assert LockOk(m, l);
    var rest := m.locks[l].inside - {t};
    assert |rest| == |m.locks[l].inside| - 1;
    assert m.locks[l].inside == rest + {t};
  }

  // ---------- blocking and waking ----------

  lemma BlockFacts(m: Machine, s: Sid)
    requires SchedInv(m) && s in m.semas && m.running != m.idle
    ensures var m' := Block(m, s);
            && SchedInv(m') && SameSync(Enqueued(m, s), m')
            && m'.running != m.running
            && (forall t :: t in m.threads ==>
                  m'.threads[t].status == if t == m'.running then RUNNING
                                          else if t == m.running then BLOCKED else m.threads[t].status)
            && (m'.running == m.idle || m.threads[m'.running].status == READY)
  {
    var m1 := Enqueued(m, s);
    assert SchedInv(m1);
    SwitchOutSched(m1, BLOCKED);
    SwitchEffect(m1, BLOCKED);
  }

  lemma BlockQueue(m: Machine, s: Sid)
    requires SchedInv(m) && QueueInv(m) && s in m.semas && Wants(m.threads[m.running].pc) == Some(s)
    requires m.running != m.idle
    ensures QueueInv(Block(m, s))
  {
    Known(m);
    hide Block, SchedInv, WaitersBlocked, ThreadQueued;
    var m' := Block(m, s);
    BlockKeys(m, s);
    forall x | x in m'.semas ensures WaitersBlocked(m', x) {
      BlockWaiters(m, s, x);
    }
    forall t | t in m'.threads ensures ThreadQueued(m', t) {
      BlockThread(m, s, t);
    }
  }

  lemma Known(m: Machine)
    requires SchedInv(m)
    ensures m.running in m.threads && m.idle in m.threads && forall t :: t in m.ready ==> t in m.threads
  {
  }

  lemma BlockKeys(m: Machine, s: Sid)
    requires SchedInv(m) && s in m.semas && m.running != m.idle
    ensures Block(m, s).semas.Keys == m.semas.Keys && Block(m, s).threads.Keys == m.threads.Keys
  {
    Known(m);
    hide Block, SchedInv;
    BlockFacts(m, s);
  }

  lemma BlockWaiters(m: Machine, s: Sid, x: Sid)
    requires SchedInv(m) && s in m.semas && Wants(m.threads[m.running].pc) == Some(s) && m.running != m.idle
    requires x in m.semas && WaitersBlocked(m, x) && ThreadQueued(m, m.idle)
    ensures x in Block(m, s).semas && WaitersBlocked(Block(m, s), x)
  {
    Known(m);
    hide Block, SchedInv;
    BlockFacts(m, s);
    RunningNotWaiting(m, x);
    AwakeNotWaiting(m, x, Block(m, s).running);
    AppendDistinct(m.semas[x].waiters, m.running);
  }

  lemma AppendDistinct(w: seq<Tid>, t: Tid)
    requires Distinct(w) && t !in w
    ensures Distinct(w + [t])
  {
  }

  /** The running thread is on no wait list. */
  lemma RunningNotWaiting(m: Machine, x: Sid)
    requires SchedInv(m) && x in m.semas && WaitersBlocked(m, x)
    ensures m.running !in m.semas[x].waiters
  {
  }

  lemma AwakeNotWaiting(m: Machine, x: Sid, t: Tid)
    requires SchedInv(m) && x in m.semas && WaitersBlocked(m, x) && t in m.threads && ThreadQueued(m, m.idle)
    ensures t == m.idle || m.threads[t].status == READY ==> t !in m.semas[x].waiters
  {
  }

  lemma BlockThread(m: Machine, s: Sid, t: Tid)
    requires SchedInv(m) && s in m.semas && Wants(m.threads[m.running].pc) == Some(s) && m.running != m.idle
    requires t in m.threads && ThreadQueued(m, t)
    ensures t in Block(m, s).threads && ThreadQueued(Block(m, s), t)
  {
    Known(m);
    hide Block, SchedInv;
    BlockFacts(m, s);
  }

  lemma BlockCount(m: Machine, s: Sid)
    requires SchedInv(m) && QueueInv(m) && CountInv(m) && s in m.semas && m.semas[s].value == 0
    requires Wants(m.threads[m.running].pc) == Some(s) && m.running != m.idle
    ensures CountInv(Block(m, s))
  {
    BlockFacts(m, s);
    hide Block, SchedInv;
    var m' := Block(m, s);
    forall x | x in m'.semas ensures Counted(m', x) {
      assert Counted(m, x);
      if x != s {
        assert Testing(m', x) == Testing(m, x);
      }
    }
  }

  lemma LockTransfer(m: Machine, m': Machine)
    requires LockInv(m) && m'.locks == m.locks && m'.threads.Keys == m.threads.Keys && m'.semas.Keys == m.semas.Keys
    requires forall t :: t in m.threads ==> m'.threads[t].pc == m.threads[t].pc
    requires forall s :: s in m.semas && s in m.locks ==> m'.semas[s].value == m.semas[s].value
    ensures LockInv(m')
  {
    forall l | l in m'.locks ensures LockOk(m', l) {
      assert LockOk(m, l);
    }
    forall t | t in m'.threads ensures ThreadLocks(m', t) {
      assert ThreadLocks(m, t);
    }
  }

  lemma BlockKeeps(m: Machine, s: Sid)
    requires Inv(m) && s in m.semas && m.semas[s].value == 0 && Wants(m.threads[m.running].pc) == Some(s)
    ensures Inv(Block(m, s))
  {
    hide Inv, QueueInv, CountInv, LockInv, SameSync;
    Facts(m, s);
    assert m.running != m.idle by { assert ThreadQueued(m, m.running); }
    BlockFacts(m, s);
    BlockQueue(m, s);
    BlockCount(m, s);
    BlockLocks(m, s);
    hide SchedInv, Block;
    Together(Block(m, s));
  }

  lemma BlockLocks(m: Machine, s: Sid)
    requires SchedInv(m) && LockInv(m) && s in m.semas && m.running != m.idle
    ensures LockInv(Block(m, s))
  {
    BlockFacts(m, s);
    hide Block, LockInv, SchedInv;
    LockTransfer(m, Block(m, s));
  }

  /** What sema_up does to threads and semaphores. */
  ghost predicate Upped(m: Machine, m': Machine, s: Sid) {
    && s in m.semas && m'.semas.Keys == m.semas.Keys && m'.threads.Keys == m.threads.Keys
    && (forall x :: x in m.semas && x != s ==> m'.semas[x] == m.semas[x])
    && (forall t :: t in m.threads ==> m'.threads[t].pc == m.threads[t].pc)
    && m'.running == m.running && m'.idle == m.idle && m'.locks == m.locks
    && var sem := m.semas[s];
       && m'.semas[s] == Sema(sem.initial, sem.value + 1, sem.ups + 1, sem.downs,
                              if sem.waiters == [] then [] else sem.waiters[1..])
       && (forall t :: t in m.threads ==>
             m'.threads[t].status == if sem.waiters != [] && t == sem.waiters[0] then READY else m.threads[t].status)
  }

  lemma UpEffect(m: Machine, s: Sid)
    requires s in m.semas && forall t :: t in m.semas[s].waiters ==> t in m.threads
    ensures Upped(m, Up(m, s), s)
  {
  }

  lemma UpSched(m: Machine, s: Sid)
    requires SchedInv(m) && QueueInv(m) && s in m.semas
    ensures WaitersBlocked(m, s) && SchedInv(Up(m, s))
  {
    assert WaitersBlocked(m, s);
    var w := m.semas[s].waiters;
    if w != [] {
      assert ThreadQueued(m, w[0]);
      UnblockSched(Pop(m, s), w[0]);
    }
  }

  lemma UpQueue(m: Machine, m': Machine, s: Sid)
    requires QueueInv(m) && Upped(m, m', s)
    ensures QueueInv(m')
  {
    var w := m.semas[s].waiters;
    assert WaitersBlocked(m, s);
    if w != [] { TailMembers(w); }
    forall x | x in m'.semas ensures WaitersBlocked(m', x) {
      assert WaitersBlocked(m, x);
    }
    forall t | t in m'.threads ensures ThreadQueued(m', t) {
      assert ThreadQueued(m, t);
    }
  }

  lemma UpTesting(m: Machine, m': Machine, s: Sid, x: Sid)
    requires QueueInv(m) && Upped(m, m', s) && x in m.semas
    ensures var w := m.semas[s].waiters;
            if x == s && w != [] then w[0] !in Testing(m, x) && Testing(m', x) == Testing(m, x) + {w[0]}
            else Testing(m', x) == Testing(m, x)
  {
    assert WaitersBlocked(m, s);
    var w := m.semas[s].waiters;
    if w != [] { TailMembers(w); }
  }

  lemma UpCount(m: Machine, m': Machine, s: Sid)
    requires QueueInv(m) && CountInv(m) && Upped(m, m', s)
    ensures CountInv(m')
  {
    forall x | x in m'.semas ensures Counted(m', x) {
      assert Counted(m, x);
      UpTesting(m, m', s, x);
    }
  }

  /** sema_up of a plain semaphore, from a thread or an interrupt handler. */
  lemma UpKeeps(m: Machine, s: Sid)
    requires Inv(m) && s in m.semas && s !in m.locks
    ensures WaitersBlocked(m, s) && Inv(Up(m, s))
  {
    hide Inv, SchedInv, QueueInv, CountInv, LockInv;
    Facts(m, s);
    UpSched(m, s);
    UpEffect(m, s);
    hide Up;
    UpQueue(m, Up(m, s), s);
    UpCount(m, Up(m, s), s);
    LockTransfer(m, Up(m, s));
    Together(Up(m, s));
  }

  lemma ReleaseLocks(m: Machine, l: Sid)
    requires LockInv(m) && m.running in m.threads && m.threads[m.running].pc == Leaving(l)
    requires l in m.semas && forall t :: t in m.semas[l].waiters ==> t in m.threads
    ensures l in m.locks && LockInv(Released(m, l))
  {
    assert ThreadLocks(m, m.running) && LockOk(m, l);
    hide LockInv, Up;
    OnlyOneInside(m, l, m.running);
    var m1 := LeaveLock(m, l, m.running);
    UpEffect(m1, l);
    LockKept(m, Released(m, l), m.running, l, m1.locks[l]);
  }

  lemma LeaveKeeps(m: Machine, l: Sid)
    requires SchedInv(m) && QueueInv(m) && CountInv(m) && l in m.locks
    ensures var m' := LeaveLock(m, l, m.running); SchedInv(m') && QueueInv(m') && CountInv(m')
  {
    var m' := LeaveLock(m, l, m.running);
    forall x | x in m'.semas ensures WaitersBlocked(m', x) && Counted(m', x) {
      assert WaitersBlocked(m, x) && Counted(m, x) && Testing(m', x) == Testing(m, x);
    }
    forall t | t in m'.threads ensures ThreadQueued(m', t) {
      assert ThreadQueued(m, t);
    }
  }

  /** The sema_up that ends lock_release. */
  lemma ReleaseKeeps(m: Machine, l: Sid)
    requires Inv(m) && m.threads[m.running].pc == Leaving(l) && l in m.semas && l in m.locks
    ensures WaitersBlocked(m, l) && Inv(Released(m, l))
  {
    hide Inv, SchedInv, QueueInv, CountInv, LockInv, LockOk, ThreadLocks;
    Facts(m, l);
    ReleaseLocks(m, l);
    var m1, t := LeaveLock(m, l, m.running), m.running;
    LeaveKeeps(m, l);
    UpSched(m1, l);
    UpEffect(m1, l);
    hide Up;
    var m2 := Up(m1, l);
    UpQueue(m1, m2, l);
    UpCount(m1, m2, l);
    UppedRunning(m, m1, m2, l);
    var m3 := SetPc(m2, t, Outside);
    assert m2.semas[l := m2.semas[l]] == m2.semas;
    PcSched(m2, m3, t, Outside, l, m2.semas[l]);
    PcQueue(m2, m3, t, Outside, l, m2.semas[l]);
    PcCount(m2, m3, t, Outside, l, m2.semas[l]);
    Together(m3);
  }

  lemma UppedRunning(m: Machine, m1: Machine, m2: Machine, l: Sid)
    requires m.running in m.threads && l in m.locks && m.threads[m.running].pc == Leaving(l)
    requires SchedInv(m2) && CountInv(m2) && Upped(m1, m2, l) && m1 == LeaveLock(m, l, m.running)
    ensures m2.running == m.running && m2.threads[m.running].pc == Leaving(l)
    ensures m2.threads[m.running].status == RUNNING && Counted(m2, l)
  {
  }
}
