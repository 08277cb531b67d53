/**
 Condition variables over the threads machine.  cond_wait and cond_signal are sequences of machine
 steps with interrupts on in between, so other threads run at any point inside them.
 */
module CondVars {
  import opened Prelude
  import opened Threads
  import opened ThreadRuns
  import opened ThreadFrames

  type Cid = nat

  /** How far a thread is in cond_wait: queued, in lock_release, in sema_down, in lock_acquire. */
  datatype Stage = Queued | Releasing | Waiting | Returning

  /** Where a thread is in cond_wait, with its own semaphore, or in cond_signal, having taken a waiter's. */
  datatype Place =
    | Place(stage: Stage, c: Cid, s: Sid)
    | Signalling(c: Cid, s: Sid)

  /** A condition variable, its lock, and the semaphores that ever joined or were taken off its list. */
  datatype Cond = Cond(lock: Sid, waiters: seq<Sid>, joined: seq<Sid>, popped: seq<Sid>)

  /** `home` gives the condition variable of each waiter's semaphore; `raised` are those signalled. */
  datatype Monitor = Monitor(
    m: Machine, conds: map<Cid, Cond>, at: map<Tid, Place>, home: map<Sid, Cid>, raised: set<Sid>)

  // ---------- steps ----------

  datatype CStep =
    | Base(e: Step)          // a step of the machine, inside or outside the calls below
    | Wait(c: Cid, s: Sid)   // cond_wait begins: its semaphore joins the list
    | Signal(c: Cid)         // cond_signal takes the first semaphore off the list, if there is one
    | Advance                // the running thread makes its next call in cond_wait or cond_signal

  /** The step does not name a waiter's semaphore, which only cond_wait and cond_signal know. */
  predicate Public(k: Monitor, e: Step) {
    e.CallDown? || e.CallTryDown? || e.CallUp? || e.HandlerUp? ==> e.s !in k.home
  }

  /** What can happen inside cond_wait and cond_signal without their making a call. */
  predicate Inside(e: Step) {
    e.Continue? || e.Tick? || e.Yield? || e.HandlerUp?
  }

  /** The running thread is outside all primitives and holds the lock of `c`, as both calls assert. */
  predicate Holding(k: Monitor, c: Cid) {
    && k.m.running in k.m.threads && k.m.threads[k.m.running].pc == Outside && k.m.running != k.m.idle
    && k.m.running !in k.at && c in k.conds && k.conds[c].lock in k.m.locks
    && k.m.locks[k.conds[c].lock].holder == Some(k.m.running)
  }

  predicate Allowed(k: Monitor, e: CStep) {
    && k.m.running in k.m.threads
    && match e
       case Base(b) => Enabled(k.m, b) && Public(k, b) && (k.m.running in k.at ==> Inside(b))
       case Wait(c, s) => Holding(k, c) && s !in k.m.semas && s !in k.home
       case Signal(c) => Holding(k, c)
       case Advance => k.m.running in k.at && k.m.threads[k.m.running].pc == Outside
  }

  /** The call a thread makes next in cond_wait or cond_signal; None when cond_wait returns. */
  function NextCall(k: Monitor, t: Tid): Option<Step>
    requires t in k.at && k.at[t].c in k.conds
  {
    match k.at[t]
    case Place(Queued, c, _) => Some(CallRelease(k.conds[c].lock))
    case Place(Releasing, _, s) => Some(CallDown(s))
    case Place(Waiting, c, _) => Some(CallAcquire(k.conds[c].lock))
    case Place(Returning, _, _) => None
    case Signalling(_, s) => Some(CallUp(s))
  }

  function NextStage(stage: Stage): Stage {
    match stage
    case Queued => Releasing
    case Releasing => Waiting
    case _ => Returning
  }

  // ---------- invariant ----------

  predicate StageOk(stage: Stage, pc: Pc, l: Sid, s: Sid, held: bool) {
    match stage
    case Queued => pc == Outside && held
    case Releasing => (pc == Leaving(l) || pc == Outside) && !held
    case Waiting => (pc == Downing(s) || pc == Outside) && !held
    case Returning => if pc == Outside then held else (pc == Locking(l) || pc == Entering(l)) && !held
  }

  /** The thread has not passed its semaphore yet. */
  predicate Early(stage: Stage, pc: Pc) {
    stage == Queued || stage == Releasing || (stage == Waiting && pc != Outside)
  }

  /** A waiter's semaphore is up exactly when it was signalled and its thread has not passed it. */
  predicate PlaceOk(k: Monitor, t: Tid)
    requires t in k.at
  {
    var p := k.at[t];
    && t in k.m.threads && t != k.m.idle
    && p.s in k.home && k.home[p.s] == p.c && p.c in k.conds && k.conds[p.c].lock in k.m.locks && p.s in k.m.semas
    && var l, pc := k.conds[p.c].lock, k.m.threads[t].pc;
       match p
       case Place(stage, c, s) =>
         && StageOk(stage, pc, l, s, k.m.locks[l].holder == Some(t))
         && (if Early(stage, pc) then k.m.semas[s].value == If(s in k.raised)
             else k.m.semas[s].value == 0 && s in k.raised)
       case Signalling(c, s) =>
         && pc == Outside && k.m.locks[l].holder == Some(t)
         && s !in k.raised && s in k.conds[c].popped
  }

  predicate Owner(k: Monitor, t: Tid, s: Sid) {
    t in k.at && k.at[t].Place? && k.at[t].s == s
  }

  predicate Signaller(k: Monitor, t: Tid, s: Sid) {
    t in k.at && k.at[t].Signalling? && k.at[t].s == s
  }

  /** The list is what joined less what was taken off its front; a semaphore on it has a waiting
      thread and was not signalled; one taken off was signalled or is about to be. */
  ghost predicate CondOk(k: Monitor, c: Cid)
    requires c in k.conds
  {
    var cond := k.conds[c];
    && cond.lock in k.m.locks && cond.joined == cond.popped + cond.waiters && Distinct(cond.joined)
    && (forall s :: s in cond.joined ==> s in k.home && k.home[s] == c)
    && (forall s :: s in cond.waiters ==> s !in k.raised && exists t :: Owner(k, t, s))
    && (forall s :: s in cond.popped ==> s in k.raised || exists t :: Signaller(k, t, s))
  }

  ghost predicate Unique(k: Monitor) {
    && (forall t, t', s :: Owner(k, t, s) && Owner(k, t', s) ==> t == t')
    && (forall t, t', s :: Signaller(k, t, s) && Signaller(k, t', s) ==> t == t')
  }

  /** Only its own thread goes down on a waiter's semaphore, which is no lock's. */
  ghost predicate Private(k: Monitor) {
    && (forall s :: s in k.home ==> s in k.m.semas && s !in k.m.locks)
    && k.raised <= k.home.Keys
    && (forall t :: t in k.m.threads && Wants(k.m.threads[t].pc).Some? && Wants(k.m.threads[t].pc).value in k.home ==>
          Owner(k, t, Wants(k.m.threads[t].pc).value) && k.at[t].stage == Waiting)
  }

  ghost predicate MInv(k: Monitor) {
    && Inv(k.m) && Unique(k) && Private(k)
    && (forall c :: c in k.conds ==> CondOk(k, c))
    && (forall t :: t in k.at ==> PlaceOk(k, t))
  }

  /** No call made inside cond_wait or cond_signal trips an assertion. */
  lemma NextCallEnabled(k: Monitor)
    requires MInv(k) && Allowed(k, Advance)
    ensures k.at[k.m.running].c in k.conds
    ensures var call := NextCall(k, k.m.running); call.Some? ==> Enabled(k.m, call.value)
  {
    hide MInv, Inv;
    PlaceFacts(k, k.m.running);
    if k.at[k.m.running].s in k.home { NotALocks(k, k.at[k.m.running].s); }
  }

  lemma PlaceFacts(k: Monitor, t: Tid)
    requires MInv(k) && t in k.at
    ensures PlaceOk(k, t)
  {
  }

  lemma NotALocks(k: Monitor, s: Sid)
    requires MInv(k) && s in k.home
    ensures s in k.m.semas && s !in k.m.locks
  {
  }

  ghost function DoStep(k: Monitor, e: CStep): Monitor
    requires MInv(k) && Allowed(k, e)
  {
    var t := k.m.running;
    match e
    case Base(b) => k.(m := Do(k.m, b))
    case Wait(c, s) =>
      var cond := k.conds[c];
      Monitor(k.m.(semas := k.m.semas[s := Sema(0, 0, 0, 0, [])]),
              k.conds[c := cond.(waiters := cond.waiters + [s], joined := cond.joined + [s])],
              k.at[t := Place(Queued, c, s)], k.home[s := c], k.raised)
    case Signal(c) =>
      var cond := k.conds[c];
      if cond.waiters == [] then k
      else
        var s := cond.waiters[0];
        k.(conds := k.conds[c := cond.(waiters := cond.waiters[1..], popped := cond.popped + [s])],
           at := k.at[t := Signalling(c, s)])
    case Advance =>
      NextCallEnabled(k);
      var call := NextCall(k, t);
      if call.None? then k.(at := k.at - {t})
      else
        var m' := Do(k.m, call.value);
        match k.at[t]
        case Place(stage, c, s) => k.(m := m', at := k.at[t := Place(NextStage(stage), c, s)])
        case Signalling(_, s) => k.(m := m', at := k.at - {t}, raised := k.raised + {s})
  }

  // ---------- every step keeps the invariant ----------

  /** A step of the machine moves a waiter's semaphore only if it is an up of it, or its thread passes it. */
  lemma PrivateValue(k: Monitor, e: Step, s: Sid)
    requires MInv(k) && k.m.running in k.m.threads && Enabled(k.m, e) && s in k.home
    requires e != HandlerUp(s) && e != CallTryDown(s)
    ensures s in k.m.semas && s in Do(k.m, e).semas
    ensures Do(k.m, e).semas[s].value == k.m.semas[s].value + If(e == CallUp(s)) -
            If(e.Continue? && k.m.threads[k.m.running].pc == Downing(s) && k.m.semas[s].value > 0)
  {
    hide Inv, Do, PlaceOk, CondOk, Unique;
    NotALocks(k, s);
    RunningFacts(k.m);
    hide LockInv;
    StepValue(k.m, e, s);
  }

  lemma Frames(k: Monitor, e: Step)
    requires MInv(k) && k.m.running in k.m.threads && Enabled(k.m, e)
    ensures Inv(Do(k.m, e)) && Framed(k.m, Do(k.m, e), NextPc(k.m, e), NextHolders(k.m, e))
  {
    StepKeeps(k.m, e);
    StepFramed(k.m, e);
  }

  /** `k'` is `k` after machine step `e`, with the running thread's place and the signals as given. */
  ghost predicate Moved(k: Monitor, k': Monitor, e: Step) {
    && MInv(k) && k.m.running in k.m.threads && Enabled(k.m, e)
    && k'.m == Do(k.m, e) && k'.conds == k.conds && k'.home == k.home
    && (forall t :: t != k.m.running ==> (t in k'.at <==> t in k.at) && (t in k.at ==> k'.at[t] == k.at[t]))
    && (if e.CallUp? && e.s in k.home then Signaller(k, k.m.running, e.s) && k'.raised == k.raised + {e.s}
        else k'.raised == k.raised && (e.HandlerUp? || e.CallTryDown? ==> e.s !in k.home))
  }

  /** A waiter's semaphore changes hands with the running thread only if it is that thread's. */
  lemma OtherValue(k: Monitor, k': Monitor, e: Step, t: Tid)
    requires Moved(k, k', e) && t in k.at && t != k.m.running && k.at[t].s in k.home
    ensures var s := k.at[t].s;
            && s in k.m.semas && s in k'.m.semas
            && (if k.at[t].Place?
                then k'.m.semas[s].value == k.m.semas[s].value + If(s in k'.raised) - If(s in k.raised)
                else s in k'.raised <==> s in k.raised)
  {
    hide Inv, Do, Enabled, PlaceOk, CondOk, Private, Unique;
    var r, s := k.m.running, k.at[t].s;
    PrivateValue(k, e, s);
    if k.m.threads[r].pc == Downing(s) { DownerOwns(k, r, s); }
    if r in k.at { NotTheSame(k, r, t); }
    if e == CallUp(s) { SignallerFacts(k, r); }
  }

  lemma DownerOwns(k: Monitor, t: Tid, s: Sid)
    requires Private(k) && t in k.m.threads && k.m.threads[t].pc == Downing(s) && s in k.home
    ensures Owner(k, t, s)
  {
  }

  lemma NotTheSame(k: Monitor, t: Tid, t': Tid)
    requires Unique(k) && t != t' && t in k.at && t' in k.at
    ensures k.at[t].Place? && k.at[t'].Place? ==> k.at[t].s != k.at[t'].s
    ensures k.at[t].Signalling? && k.at[t'].Signalling? ==> k.at[t].s != k.at[t'].s
  {
    assert Owner(k, t, k.at[t].s) || Signaller(k, t, k.at[t].s);
    assert Owner(k, t', k.at[t'].s) || Signaller(k, t', k.at[t'].s);
  }

  lemma SignallerFacts(k: Monitor, t: Tid)
    requires MInv(k) && t in k.at && k.at[t].Signalling?
    ensures k.at[t].s !in k.raised
  {
    hide Inv, CondOk, Unique, Private;
    assert PlaceOk(k, t);
  }

  lemma OtherPc(k: Monitor, k': Monitor, e: Step, t: Tid)
    requires Moved(k, k', e) && t in k.m.threads && t != k.m.running
    ensures t in k'.m.threads && k'.m.threads[t].pc == k.m.threads[t].pc && k'.m.idle == k.m.idle
  {
    Frames(k, e);
    hide MInv, Do, Enabled;
  }

  lemma OtherHeld(k: Monitor, e: Step, t: Tid, l: Sid)
    requires MInv(k) && k.m.running in k.m.threads && Enabled(k.m, e) && t != k.m.running && l in k.m.locks
    ensures l in Do(k.m, e).locks && (Do(k.m, e).locks[l].holder == Some(t) <==> k.m.locks[l].holder == Some(t))
  {
    hide Inv, Do, Enabled, PlaceOk, CondOk, Unique, Private;
    HeldStays(k.m, e, t, l);
  }

  /** The threads that did not run are where they were. */
  lemma OtherPlace(k: Monitor, k': Monitor, e: Step, t: Tid)
    requires Moved(k, k', e) && t in k.at && t != k.m.running
    ensures PlaceOk(k', t)
  {
    hide MInv, Inv, Do, Enabled;
    PlaceFacts(k, t);
    OtherValue(k, k', e, t);
    OtherPc(k, k', e, t);
    OtherHeld(k, e, t, k.conds[k.at[t].c].lock);
  }

  lemma RunningNext(k: Monitor, e: Step, l: Sid)
    requires MInv(k) && k.m.running in k.m.threads && Enabled(k.m, e) && l in k.m.locks
    ensures var m' := Do(k.m, e);
            && k.m.running in m'.threads && m'.threads[k.m.running].pc == NextPc(k.m, e) && m'.idle == k.m.idle
            && l in m'.locks && l in NextHolders(k.m, e) && m'.locks[l].holder == NextHolders(k.m, e)[l].holder
  {
    hide MInv, Do, Enabled, NextPc;
    Frames(k, e);
  }

  /** The running thread goes on inside the primitive it called. */
  lemma BasePlace(k: Monitor, e: Step)
    requires MInv(k) && Allowed(k, Base(e)) && k.m.running in k.at
    ensures PlaceOk(k.(m := Do(k.m, e)), k.m.running)
  {
    hide MInv, Do, Enabled;
    var t := k.m.running;
    PlaceFacts(k, t);
    PrivateValue(k, e, k.at[t].s);
    RunningNext(k, e, k.conds[k.at[t].c].lock);
  }

  lemma OtherWants(k: Monitor, k': Monitor, e: Step, t: Tid, s: Sid)
    requires Moved(k, k', e) && t in k'.m.threads && Wants(k'.m.threads[t].pc) == Some(s) && s in k.home
    requires t != k.m.running || k'.m.threads[t].pc == k.m.threads[t].pc
    ensures t in k.m.threads && Owner(k, t, s) && k.at[t].stage == Waiting
  {
    Frames(k, e);
    assert Private(k);
    hide Inv, Do, Enabled, Unique, CondOk, PlaceOk;
  }

  lemma PrivateKeys(k: Monitor, k': Monitor, e: Step)
    requires Moved(k, k', e)
    ensures forall s :: s in k.home ==> s in k'.m.semas && s !in k'.m.locks
    ensures k'.m.locks.Keys == k.m.locks.Keys
  {
    Frames(k, e);
    assert Private(k);
    hide Inv, Do, Enabled, Unique, CondOk, PlaceOk;
  }

  /** Where the places do not change, the lists and the ownership do not either. */
  lemma SameConds(k: Monitor, k': Monitor)
    requires MInv(k) && k'.conds == k.conds && k'.home == k.home && k'.raised == k.raised
    requires k'.m.locks.Keys == k.m.locks.Keys
    requires forall t, s :: Owner(k', t, s) <==> Owner(k, t, s)
    requires forall t, s :: Signaller(k', t, s) <==> Signaller(k, t, s)
    ensures Unique(k') && forall c :: c in k'.conds ==> CondOk(k', c)
  {
    hide Inv, Private, PlaceOk, Owner, Signaller;
    forall c | c in k'.conds ensures CondOk(k', c) {
      assert CondOk(k, c);
    }
  }

  /** A step of the machine. */
  lemma BaseKeeps(k: Monitor, e: Step)
    requires MInv(k) && Allowed(k, Base(e))
    ensures MInv(k.(m := Do(k.m, e)))
  {
    hide Inv, Do, Enabled, PlaceOk, CondOk, Unique, Private, Framed;
    var k' := k.(m := Do(k.m, e));
    NoPrivateUp(k, e);
    assert Moved(k, k', e);
    Frames(k, e);
    PrivateKeys(k, k', e);
    SameConds(k, k');
    forall t | t in k'.at ensures PlaceOk(k', t) {
      if t == k.m.running { BasePlace(k, e); } else { OtherPlace(k, k', e, t); }
    }
    BasePrivate(k, e);
  }

  lemma NoPrivateUp(k: Monitor, e: Step)
    requires Allowed(k, Base(e))
    ensures e.CallUp? || e.HandlerUp? || e.CallTryDown? || e.CallDown? ==> e.s !in k.home
  {
  }

  lemma BasePrivate(k: Monitor, e: Step)
    requires MInv(k) && Allowed(k, Base(e))
    ensures Private(k.(m := Do(k.m, e)))
  {
    hide Inv, Do, Enabled, PlaceOk, CondOk, Unique, NextPc, NextHolders;
    var k', r := k.(m := Do(k.m, e)), k.m.running;
    NoPrivateUp(k, e);
    assert Moved(k, k', e);
    PrivateKeys(k, k', e);
    Frames(k, e);
    forall t | t in k'.m.threads && Wants(k'.m.threads[t].pc).Some? && Wants(k'.m.threads[t].pc).value in k.home
      ensures Owner(k', t, Wants(k'.m.threads[t].pc).value) && k'.at[t].stage == Waiting
    {
      var s := Wants(k'.m.threads[t].pc).value;
      if t == r && NextPc(k.m, e) != k.m.threads[r].pc { NotALock(k, e, s); }
      OtherWants(k, k', e, t, s);
    }
  }

  lemma NotALock(k: Monitor, e: Step, s: Sid)
    requires MInv(k) && Allowed(k, Base(e)) && Wants(NextPc(k.m, e)) == Some(s)
    requires NextPc(k.m, e) != k.m.threads[k.m.running].pc
    ensures s !in k.home
  {
    assert Private(k);
    hide Inv, Do, Unique, CondOk, PlaceOk;
  }

  // ---------- the calls inside cond_wait and cond_signal ----------

  /** The next call of cond_wait. */
  lemma CallPlace(k: Monitor, k': Monitor, e: Step)
    requires MInv(k) && Allowed(k, Advance) && k.at[k.m.running].Place? && k.at[k.m.running].c in k.conds
    requires NextCall(k, k.m.running) == Some(e) && Enabled(k.m, e)
    requires k' == var p := k.at[k.m.running];
                   k.(m := Do(k.m, e), at := k.at[k.m.running := Place(NextStage(p.stage), p.c, p.s)])
    ensures PlaceOk(k', k.m.running)
  {
    hide MInv, Do, Enabled;
    var t := k.m.running;
    PlaceFacts(k, t);
    PrivateValue(k, e, k.at[t].s);
    RunningNext(k, e, k.conds[k.at[t].c].lock);
  }

  lemma CallPrivate(k: Monitor, k': Monitor, e: Step)
    requires Moved(k, k', e) && Allowed(k, Advance) && k.at[k.m.running].c in k.conds
    requires NextCall(k, k.m.running) == Some(e)
    requires e.CallDown? ==> Owner(k', k.m.running, e.s) && k'.at[k.m.running].stage == Waiting
    requires e.CallAcquire? ==> e.l in k.m.locks
    ensures Private(k')
  {
    hide Inv, Do, Enabled, PlaceOk, CondOk, Unique, NextHolders;
    var r := k.m.running;
    PrivateKeys(k, k', e);
    Frames(k, e);
    forall t | t in k'.m.threads && Wants(k'.m.threads[t].pc).Some? && Wants(k'.m.threads[t].pc).value in k.home
      ensures Owner(k', t, Wants(k'.m.threads[t].pc).value) && k'.at[t].stage == Waiting
    {
      if t != r { OtherWants(k, k', e, t, Wants(k'.m.threads[t].pc).value); }
    }
  }

  lemma WaitCallMoves(k: Monitor, k': Monitor, e: Step)
    requires MInv(k) && Allowed(k, Advance) && k.at[k.m.running].Place? && k.at[k.m.running].c in k.conds
    requires NextCall(k, k.m.running) == Some(e) && Enabled(k.m, e) && (e.CallAcquire? ==> e.l in k.m.locks)
    requires k' == var p := k.at[k.m.running];
                   k.(m := Do(k.m, e), at := k.at[k.m.running := Place(NextStage(p.stage), p.c, p.s)])
    ensures MInv(k')
  {
    hide Inv, Do, Enabled, PlaceOk, CondOk, Unique, Private, Framed;
    assert Moved(k, k', e);
    Frames(k, e);
    PrivateKeys(k, k', e);
    SameConds(k, k');
    forall t | t in k'.at ensures PlaceOk(k', t) {
      if t == k.m.running { CallPlace(k, k', e); } else { OtherPlace(k, k', e, t); }
    }
    CallPrivate(k, k', e);
  }

  /** cond_signal ends by raising the semaphore it took off the list. */
  lemma SignalCallMoves(k: Monitor, k': Monitor, e: Step)
    requires MInv(k) && Allowed(k, Advance) && k.at[k.m.running].Signalling? && k.at[k.m.running].c in k.conds
    requires e == CallUp(k.at[k.m.running].s) && Enabled(k.m, e)
    requires k' == k.(m := Do(k.m, e), at := k.at - {k.m.running}, raised := k.raised + {e.s})
    ensures MInv(k')
  {
    hide Inv, Do, Enabled, PlaceOk, CondOk, Unique, Private, Framed;
    HomeOf(k, k.m.running);
    assert Moved(k, k', e);
    Frames(k, e);
    PrivateKeys(k, k', e);
    RaisedConds(k, k', k.m.running);
    forall t | t in k'.at ensures PlaceOk(k', t) {
      OtherPlace(k, k', e, t);
    }
    CallPrivate(k, k', e);
  }

  lemma HomeOf(k: Monitor, t: Tid)
    requires MInv(k) && t in k.at
    ensures k.at[t].s in k.home && k.home[k.at[t].s] == k.at[t].c && k.at[t].c in k.conds
  {
    assert PlaceOk(k, t);
  }

  /** The signaller leaves, its waiter's semaphore signalled. */
  lemma RaisedConds(k: Monitor, k': Monitor, r: Tid)
    requires MInv(k) && r in k.at && k.at[r].Signalling?
    requires k'.conds == k.conds && k'.home == k.home && k'.raised == k.raised + {k.at[r].s}
    requires k'.at == k.at - {r} && k'.m.locks.Keys == k.m.locks.Keys
    ensures Unique(k') && forall c :: c in k'.conds ==> CondOk(k', c)
  {
    hide Inv, Private, CondOk, PlaceOk;
    HomeOf(k, r);
    forall c | c in k'.conds ensures CondOk(k', c) {
      RaisedCond(k, k', r, c);
    }
    FewerPlaces(k, k');
  }

  lemma FewerPlaces(k: Monitor, k': Monitor)
    requires Unique(k) && forall t :: t in k'.at ==> t in k.at && k'.at[t] == k.at[t]
    ensures Unique(k')
  {
    assert forall t, s :: Owner(k', t, s) ==> Owner(k, t, s);
    assert forall t, s :: Signaller(k', t, s) ==> Signaller(k, t, s);
  }

  lemma RaisedCond(k: Monitor, k': Monitor, r: Tid, c: Cid)
    requires r in k.at && PlaceOk(k, r) && k.at[r].Signalling? && c in k.conds && CondOk(k, c) && CondOk(k, k.at[r].c)
    requires k'.conds == k.conds && k'.home == k.home && k'.raised == k.raised + {k.at[r].s}
    requires k'.at == k.at - {r} && k'.m.locks.Keys == k.m.locks.Keys
    ensures CondOk(k', c)
  {
    var cond, x := k.conds[c], k.at[r].s;
    NotBoth(k.conds[k.at[r].c], x);
    assert x in k.conds[c].joined ==> c == k.at[r].c;
    forall s | s in cond.waiters ensures s !in k'.raised && exists t :: Owner(k', t, s) {
      var t :| Owner(k, t, s);
      assert Owner(k', t, s);
    }
    forall s | s in cond.popped ensures s in k'.raised || exists t :: Signaller(k', t, s) {
      if s !in k'.raised {
        var t :| Signaller(k, t, s);
        assert Signaller(k', t, s);
      }
    }
  }

  /** Nothing is both on the list and taken off it. */
  lemma NotBoth(cond: Cond, s: Sid)
    requires cond.joined == cond.popped + cond.waiters && Distinct(cond.joined) && s in cond.popped
    ensures s !in cond.waiters
  {
    var i :| 0 <= i < |cond.popped| && cond.popped[i] == s;
    forall j | 0 <= j < |cond.waiters| ensures cond.waiters[j] != s {
      assert cond.joined[i] == s && cond.joined[|cond.popped| + j] == cond.waiters[j];
    }
  }

  /** `k'` has what `k` has, in the same state, and perhaps more. */
  ghost predicate Extends(k: Monitor, k': Monitor) {
    && k'.m.threads == k.m.threads && k'.m.idle == k.m.idle && k'.m.locks == k.m.locks && k'.raised == k.raised
    && (forall x :: x in k.m.semas ==> x in k'.m.semas && k'.m.semas[x] == k.m.semas[x])
    && (forall x :: x in k.home ==> x in k'.home && k'.home[x] == k.home[x])
    && (forall c :: c in k.conds ==>
          c in k'.conds && k'.conds[c].lock == k.conds[c].lock && k.conds[c].popped <= k'.conds[c].popped)
  }

  lemma PlaceStays(k: Monitor, k': Monitor, t: Tid)
    requires Extends(k, k') && t in k.at && PlaceOk(k, t) && t in k'.at && k'.at[t] == k.at[t]
    ensures PlaceOk(k', t)
  {
  }

  lemma PlacesStay(k: Monitor, k': Monitor, r: Tid)
    requires MInv(k) && Extends(k, k')
    requires forall t :: t in k'.at && t != r ==> t in k.at && k'.at[t] == k.at[t]
    ensures forall t :: t in k'.at && t != r ==> PlaceOk(k', t)
  {
    hide MInv, Extends, PlaceOk;
    forall t | t in k'.at && t != r ensures PlaceOk(k', t) {
      PlaceFacts(k, t);
      PlaceStays(k, k', t);
    }
  }

  /** cond_wait returns. */
  lemma ReturnKeeps(k: Monitor)
    requires MInv(k) && Allowed(k, Advance) && k.at[k.m.running].Place? && k.at[k.m.running].stage == Returning
    ensures MInv(k.(at := k.at - {k.m.running}))
  {
    hide Inv, Unique, CondOk, PlaceOk, Private;
    var r, k' := k.m.running, k.(at := k.at - {k.m.running});
    ReturningRaised(k, r);
    FewerPlaces(k, k');
    forall c | c in k'.conds ensures CondOk(k', c) {
      ReturnCond(k, k', r, c);
    }
    PlacesStay(k, k', r);
    ReturnPrivate(k, k');
  }

  lemma ReturningRaised(k: Monitor, t: Tid)
    requires MInv(k) && t in k.at && k.at[t].Place? && k.at[t].stage == Returning
    ensures k.at[t].s in k.raised
  {
    hide Inv;
    assert PlaceOk(k, t);
  }

  lemma ReturnPrivate(k: Monitor, k': Monitor)
    requires Private(k) && k.m.running in k.m.threads && k.m.threads[k.m.running].pc == Outside
    requires k' == k.(at := k.at - {k.m.running})
    ensures Private(k')
  {
  }

  lemma ReturnCond(k: Monitor, k': Monitor, r: Tid, c: Cid)
    requires c in k.conds && CondOk(k, c) && r in k.at && k.at[r].Place? && k.at[r].s in k.raised
    requires k' == k.(at := k.at - {r})
    ensures CondOk(k', c)
  {
    var cond := k.conds[c];
    forall s | s in cond.waiters ensures s !in k'.raised && exists t :: Owner(k', t, s) {
      var t :| Owner(k, t, s);
      assert Owner(k', t, s);
    }
    forall s | s in cond.popped ensures s in k'.raised || exists t :: Signaller(k', t, s) {
      if s !in k'.raised {
        var t :| Signaller(k, t, s);
        assert Signaller(k', t, s);
      }
    }
  }

  /** A condition list with one more waiter, or one fewer, whose thread is `r`. */
  lemma GrownCond(k: Monitor, k': Monitor, r: Tid, c: Cid)
    requires c in k.conds && c in k'.conds && CondOk(k, c) && r !in k.at && r in k'.at && k'.raised == k.raised
    requires k'.m.locks.Keys == k.m.locks.Keys && k'.at == k.at[r := k'.at[r]]
    requires forall s :: s in k.home ==> s in k'.home && k'.home[s] == k.home[s]
    requires k'.conds[c].lock == k.conds[c].lock
    requires k'.conds[c].joined == k'.conds[c].popped + k'.conds[c].waiters && Distinct(k'.conds[c].joined)
    requires forall s :: s in k'.conds[c].joined && s !in k.conds[c].joined ==> s in k'.home && k'.home[s] == c
    requires forall s :: s in k'.conds[c].waiters ==>
      s in k.conds[c].waiters || (s !in k.raised && Owner(k', r, s))
    requires forall s :: s in k'.conds[c].popped ==> s in k.conds[c].popped || Signaller(k', r, s)
    ensures CondOk(k', c)
  {
    var cond := k'.conds[c];
    forall s | s in cond.waiters ensures s !in k'.raised && exists t :: Owner(k', t, s) {
      if s in k.conds[c].waiters {
        var t :| Owner(k, t, s);
        assert Owner(k', t, s);
      }
    }
    forall s | s in cond.popped ensures s in k'.raised || exists t :: Signaller(k', t, s) {
      if s !in k'.raised && s in k.conds[c].popped {
        var t :| Signaller(k, t, s);
        assert Signaller(k', t, s);
      }
    }
  }

  lemma FreshSema(k: Monitor, c: Cid, s: Sid)
    requires MInv(k) && c in k.conds && s !in k.home
    ensures s !in k.raised && s !in k.conds[c].joined && CondOk(k, c)
    ensures forall t :: !Owner(k, t, s) && !Signaller(k, t, s)
  {
    assert Private(k) && CondOk(k, c);
    forall t ensures !Owner(k, t, s) && !Signaller(k, t, s) {
      if t in k.at { assert PlaceOk(k, t); }
    }
  }

  lemma WaitConds(k: Monitor, c: Cid, s: Sid)
    requires MInv(k) && Allowed(k, Wait(c, s))
    ensures var k' := DoStep(k, Wait(c, s)); Unique(k') && forall x :: x in k'.conds ==> CondOk(k', x)
  {
    hide Inv, Do, PlaceOk, CondOk, Private;
    var k', r := DoStep(k, Wait(c, s)), k.m.running;
    FreshSema(k, c, s);
    assert Owner(k', r, s);
    forall x | x in k'.conds ensures CondOk(k', x) {
      FreshSema(k, x, s);
      CondParts(k, x);
      if x == c {
        assert k'.conds[c].joined == k.conds[c].popped + k.conds[c].waiters + [s];
        assert k'.conds[c].joined == k'.conds[c].popped + k'.conds[c].waiters;
      }
      GrownCond(k, k', r, x);
    }
    assert forall t, y :: t != r ==>
      (Owner(k', t, y) <==> Owner(k, t, y)) && (Signaller(k', t, y) <==> Signaller(k, t, y));
  }

  lemma CondParts(k: Monitor, c: Cid)
    requires c in k.conds && CondOk(k, c)
    ensures k.conds[c].joined == k.conds[c].popped + k.conds[c].waiters && Distinct(k.conds[c].joined)
  {
  }

  lemma WaitKeeps(k: Monitor, c: Cid, s: Sid)
    requires MInv(k) && Allowed(k, Wait(c, s))
    ensures MInv(DoStep(k, Wait(c, s)))
  {
    hide Inv, Do, Unique, CondOk, PlaceOk, Private;
    AddSema(k.m, s, 0);
    FreshSema(k, c, s);
    NobodyWants(k.m, s);
    var k', r := DoStep(k, Wait(c, s)), k.m.running;
    WaitConds(k, c, s);
    PlacesStay(k, k', r);
    QueuedPlace(k', r);
    WaitPrivate(k, k', s, c);
  }

  lemma QueuedPlace(k: Monitor, t: Tid)
    requires t in k.at && k.at[t].Place? && k.at[t].stage == Queued && t in k.m.threads && t != k.m.idle
    requires k.m.threads[t].pc == Outside && k.at[t].c in k.conds && k.conds[k.at[t].c].lock in k.m.locks
    requires k.m.locks[k.conds[k.at[t].c].lock].holder == Some(t)
    requires var s := k.at[t].s;
             && s in k.home && k.home[s] == k.at[t].c && s !in k.raised
             && s in k.m.semas && k.m.semas[s].value == 0
    ensures PlaceOk(k, t)
  {
  }

  lemma NobodyWants(m: Machine, s: Sid)
    requires Inv(m) && s !in m.semas
    ensures forall t :: t in m.threads ==> Wants(m.threads[t].pc) != Some(s)
  {
    forall t | t in m.threads ensures Wants(m.threads[t].pc) != Some(s) {
      assert ThreadQueued(m, t);
    }
  }

  lemma WaitPrivate(k: Monitor, k': Monitor, s: Sid, c: Cid)
    requires Private(k) && s !in k.m.semas && s !in k.m.locks && k.m.running !in k.at && k.m.running in k.m.threads
    requires k.m.threads[k.m.running].pc == Outside
    requires forall t :: t in k.m.threads ==> Wants(k.m.threads[t].pc) != Some(s)
    requires k'.m == k.m.(semas := k.m.semas[s := Sema(0, 0, 0, 0, [])]) && k'.home == k.home[s := c]
    requires k'.at == k.at[k.m.running := Place(Queued, c, s)] && k'.raised == k.raised
    ensures Private(k')
  {
  }

  /** cond_signal takes the longest waiter off the list. */
  lemma SignalConds(k: Monitor, c: Cid)
    requires MInv(k) && Allowed(k, Signal(c)) && k.conds[c].waiters != []
    ensures var k' := DoStep(k, Signal(c)); Unique(k') && forall x :: x in k'.conds ==> CondOk(k', x)
  {
    hide Inv, Do, PlaceOk, CondOk, Private;
    var k', r, cond := DoStep(k, Signal(c)), k.m.running, k.conds[c];
    var s := cond.waiters[0];
    CondParts(k, c);
    assert Signaller(k', r, s);
    forall x | x in k'.conds ensures CondOk(k', x) {
      CondParts(k, x);
      if x == c {
        assert cond.waiters == [s] + cond.waiters[1..];
        assert k'.conds[c].joined == k'.conds[c].popped + k'.conds[c].waiters;
      }
      GrownCond(k, k', r, x);
    }
    forall t ensures !Signaller(k, t, s) {
      if Signaller(k, t, s) { NotSignalled(k, t, c, s); }
    }
    assert forall t, y :: t != r ==>
      (Owner(k', t, y) <==> Owner(k, t, y)) && (Signaller(k', t, y) <==> Signaller(k, t, y));
  }

  lemma NotSignalled(k: Monitor, t: Tid, c: Cid, s: Sid)
    requires MInv(k) && c in k.conds && s in k.conds[c].waiters
    ensures !Signaller(k, t, s)
  {
    hide Inv, Private, Unique;
    assert CondOk(k, c) && s in k.conds[c].joined;
    if Signaller(k, t, s) {
      assert PlaceOk(k, t) && k.at[t].c == c;
      NotBoth(k.conds[c], s);
    }
  }

  lemma SignalKeeps(k: Monitor, c: Cid)
    requires MInv(k) && Allowed(k, Signal(c)) && k.conds[c].waiters != []
    ensures MInv(DoStep(k, Signal(c)))
  {
    hide Inv, Do, Unique, CondOk, PlaceOk, Private;
    WaiterFresh(k, c);
    var k', r := DoStep(k, Signal(c)), k.m.running;
    SignalConds(k, c);
    PlacesStay(k, k', r);
    SignallingPlace(k', r);
    SignalPrivate(k, k', k'.at[r]);
  }

  lemma WaiterFresh(k: Monitor, c: Cid)
    requires MInv(k) && c in k.conds && k.conds[c].waiters != []
    ensures var s := k.conds[c].waiters[0];
            s in k.home && k.home[s] == c && s !in k.raised && s in k.m.semas
  {
    assert CondOk(k, c) && k.conds[c].waiters[0] in k.conds[c].joined;
    assert Private(k);
  }

  lemma SignallingPlace(k: Monitor, t: Tid)
    requires t in k.at && k.at[t].Signalling? && t in k.m.threads && t != k.m.idle && k.m.threads[t].pc == Outside
    requires k.at[t].c in k.conds && k.conds[k.at[t].c].lock in k.m.locks
    requires k.m.locks[k.conds[k.at[t].c].lock].holder == Some(t)
    requires var s := k.at[t].s;
             && s in k.home && k.home[s] == k.at[t].c && s !in k.raised && s in k.m.semas
             && s in k.conds[k.at[t].c].popped
    ensures PlaceOk(k, t)
  {
  }

  lemma SignalPrivate(k: Monitor, k': Monitor, p: Place)
    requires Private(k) && k.m.running !in k.at && k.m.running in k.m.threads
    requires k.m.threads[k.m.running].pc == Outside
    requires k'.m == k.m && k'.home == k.home && k'.at == k.at[k.m.running := p] && k'.raised == k.raised
    ensures Private(k')
  {
  }

  /** Every step, by whichever thread or handler, keeps the invariant. */
  lemma CStepKeeps(k: Monitor, e: CStep)
    requires MInv(k) && Allowed(k, e)
    ensures MInv(DoStep(k, e))
  {
    hide MInv, Do, Enabled;
    match e
    case Base(b) => BaseKeeps(k, b);
    case Wait(c, s) => WaitKeeps(k, c, s);
    case Signal(c) => if k.conds[c].waiters != [] { SignalKeeps(k, c); }
    case Advance => AdvanceKeeps(k);
  }

  lemma AdvanceKeeps(k: Monitor)
    requires MInv(k) && Allowed(k, Advance)
    ensures MInv(DoStep(k, Advance))
  {
    hide MInv, Do, Enabled;
    var t, k' := k.m.running, DoStep(k, Advance);
    NextCallEnabled(k);
    if NextCall(k, t).None? {
      ReturnKeeps(k);
    } else if k.at[t].Signalling? {
      SignalCallMoves(k, k', CallUp(k.at[t].s));
    } else {
      LockKnown(k, t);
      WaitCallMoves(k, k', NextCall(k, t).value);
    }
  }

  lemma LockKnown(k: Monitor, t: Tid)
    requires MInv(k) && t in k.at
    ensures k.at[t].c in k.conds && k.conds[k.at[t].c].lock in k.m.locks
  {
    assert PlaceOk(k, t);
  }
}
