/** What condition variables promise, over every interleaving of waits, signals and everything else. */
module CondRuns {
  import opened Prelude
  import opened Threads
  import ThreadRuns
  import opened ThreadFrames
  import opened CondVars

  /** The monitor after the steps; None if one of them was not allowed. */
  ghost function Run(k: Monitor, es: seq<CStep>): (r: Option<Monitor>)
    requires MInv(k)
    ensures r.Some? ==> MInv(r.value)
    decreases |es|
  {
    if es == [] then Some(k)
    else if !Allowed(k, es[0]) then None
    else CStepKeeps(k, es[0]); Run(DoStep(k, es[0]), es[1..])
  }

  /** cond_init: no one waits. */
  lemma InitOk(m: Machine, locks: map<Cid, Sid>)
    requires Inv(m) && forall c :: c in locks ==> locks[c] in m.locks
    ensures MInv(Monitor(m, map c | c in locks :: Cond(locks[c], [], [], []), map[], map[], {}))
  {
    hide Inv;
  }

  // ---------- no signal is lost, none is made up ----------

  lemma NoneLeft(a: set<Tid>, t: Tid)
    requires (forall x :: x in a ==> x == t) && t !in a
    ensures |a| == 0
  {
  }

  lemma RaisedIsUp(k: Monitor, t: Tid)
    requires MInv(k) && t in k.at && k.at[t].Place?
    ensures t in k.m.threads && k.at[t].s in k.m.semas
    ensures Early(k.at[t].stage, k.m.threads[t].pc) && k.at[t].s in k.raised ==> k.m.semas[k.at[t].s].value == 1
    ensures !Early(k.at[t].stage, k.m.threads[t].pc) ==> k.at[t].s in k.raised
  {
    hide Inv;
    assert PlaceOk(k, t);
  }

  lemma OnlyItsThread(k: Monitor, t: Tid, x: Tid)
    requires MInv(k) && t in k.at && k.at[t].Place? && x in k.m.threads
    requires Wants(k.m.threads[x].pc) == Some(k.at[t].s)
    ensures x == t
  {
    hide Inv;
    assert PlaceOk(k, t) && Owner(k, t, k.at[t].s) && Owner(k, x, k.at[t].s);
  }

  /** A signalled thread does not sleep: from the moment its semaphore is raised, wherever the thread is
      before its sema_down or in it, the semaphore is up and the thread is not on its wait list. */
  lemma SignalledIsAwake(k: Monitor, t: Tid)
    requires MInv(k) && t in k.at && k.at[t].Place? && k.at[t].s in k.raised && t in k.m.threads
    requires Early(k.at[t].stage, k.m.threads[t].pc)
    ensures var s := k.at[t].s;
            && s in k.m.semas && k.m.semas[s].value == 1 && t !in k.m.semas[s].waiters
            && (k.m.threads[t].pc == Downing(s) ==> k.m.threads[t].status != BLOCKED)
  {
    RaisedIsUp(k, t);
    NoOtherTester(k, t);
    SemaFacts(k, t, k.at[t].s);
    hide MInv;
  }

  lemma SemaFacts(k: Monitor, t: Tid, s: Sid)
    requires MInv(k) && s in k.m.semas && t in k.m.threads
    ensures Counted(k.m, s) && ThreadQueued(k.m, t)
  {
  }

  lemma NoOtherTester(k: Monitor, t: Tid)
    requires MInv(k) && t in k.at && k.at[t].Place? && k.at[t].s in k.m.semas
    ensures t in k.m.semas[k.at[t].s].waiters ==> |Testing(k.m, k.at[t].s)| == 0
  {
    hide MInv;
    forall x | x in Testing(k.m, k.at[t].s) ensures x == t {
      OnlyItsThread(k, t, x);
    }
    if t in k.m.semas[k.at[t].s].waiters { NoneLeft(Testing(k.m, k.at[t].s), t); }
  }

  /** The running thread's next test of its semaphore lets it through. */
  ghost predicate PassesNext(k: Monitor)
    requires MInv(k) && Allowed(k, Base(Continue))
  {
    var m' := DoStep(k, Base(Continue)).m;
    k.m.running in m'.threads && m'.threads[k.m.running].pc == Outside
  }

  /** In every run: a thread that was signalled and has not passed its semaphore is awake or on its way
      to it, and when it tests the semaphore it passes. */
  lemma NoSignalLost(k: Monitor, es: seq<CStep>, t: Tid)
    requires MInv(k) && Run(k, es).Some?
    requires var k' := Run(k, es).value;
             && t in k'.at && k'.at[t].Place? && t in k'.m.threads && k'.at[t].s in k'.raised
             && Early(k'.at[t].stage, k'.m.threads[t].pc)
    ensures var k' := Run(k, es).value;
            var s := k'.at[t].s;
            && s in k'.m.semas && k'.m.semas[s].value == 1 && t !in k'.m.semas[s].waiters
            && (k'.m.threads[t].pc == Downing(s) ==>
                  && k'.m.threads[t].status != BLOCKED
                  && (k'.m.running == t ==> Allowed(k', Base(Continue)) && PassesNext(k')))
  {
    hide MInv, Do;
    var k' := Run(k, es).value;
    SignalledIsAwake(k', t);
    if k'.m.running == t && k'.m.threads[t].pc == Downing(k'.at[t].s) {
      LockKnown(k', t);
      RunningNext(k', Continue, k'.conds[k'.at[t].c].lock);
    }
  }

  /** In every run: a thread is past its semaphore, on its way out of cond_wait, only if it was
      signalled; and when cond_wait returns the thread holds the lock, alone. */
  lemma NoFalseReturn(k: Monitor, es: seq<CStep>, t: Tid)
    requires MInv(k) && Run(k, es).Some?
    requires var k' := Run(k, es).value; t in k'.at && k'.at[t].Place? && t in k'.m.threads
    ensures var k' := Run(k, es).value;
            !Early(k'.at[t].stage, k'.m.threads[t].pc) ==> k'.at[t].s in k'.raised
    ensures var k' := Run(k, es).value;
            var c := k'.at[t].c;
            && c in k'.conds && k'.conds[c].lock in k'.m.locks
            && (k'.at[t].stage == Returning && k'.m.threads[t].pc == Outside ==>
                  && k'.m.locks[k'.conds[c].lock].holder == Some(t)
                  && k'.m.locks[k'.conds[c].lock].inside == {t})
  {
    var k' := Run(k, es).value;
    RaisedIsUp(k', t);
    HeldAlone(k', t);
  }

  lemma HeldAlone(k: Monitor, t: Tid)
    requires MInv(k) && t in k.at && k.at[t].Place? && t in k.m.threads
    ensures var c := k.at[t].c;
            && c in k.conds && k.conds[c].lock in k.m.locks
            && (k.at[t].stage == Returning && k.m.threads[t].pc == Outside ==>
                  && k.m.locks[k.conds[c].lock].holder == Some(t)
                  && k.m.locks[k.conds[c].lock].inside == {t})
  {
    assert PlaceOk(k, t);
    var l := k.conds[k.at[t].c].lock;
    assert LockOk(k.m, l);
    if t in k.m.locks[l].inside { OnlyOneInside(k.m, l, t); }
  }

  // ---------- signals go to the longest waiter ----------

  predicate IsSignal(k: Monitor, e: CStep, c: Cid) {
    e == Signal(c) && c in k.conds && k.conds[c].waiters != []
  }

  /** The signals of `c` in the run that found a waiter. */
  ghost function SignalCount(k: Monitor, es: seq<CStep>, c: Cid): nat
    requires MInv(k) && Run(k, es).Some?
    decreases |es|
  {
    if es == [] then 0
    else (if IsSignal(k, es[0], c) then 1 else 0) + (CStepKeeps(k, es[0]); SignalCount(DoStep(k, es[0]), es[1..], c))
  }

  lemma StepHistory(k: Monitor, e: CStep, c: Cid)
    requires MInv(k) && Allowed(k, e) && c in k.conds
    ensures c in DoStep(k, e).conds
    ensures var cond, cond' := k.conds[c], DoStep(k, e).conds[c];
            && cond.joined <= cond'.joined && cond.popped <= cond'.popped
            && |cond'.popped| == |cond.popped| + if IsSignal(k, e, c) then 1 else 0
  {
    hide MInv, Do;
  }

  lemma {:induction false} RunHistory(k: Monitor, es: seq<CStep>, c: Cid)
    requires MInv(k) && Run(k, es).Some? && c in k.conds
    ensures c in Run(k, es).value.conds
    ensures var cond, cond' := k.conds[c], Run(k, es).value.conds[c];
            && cond.joined <= cond'.joined && cond.popped <= cond'.popped
            && |cond'.popped| == |cond.popped| + SignalCount(k, es, c)
    decreases |es|
  {
    hide MInv, DoStep, Allowed;
    if es != [] {
      StepHistory(k, es[0], c);
      CStepKeeps(k, es[0]);
      RunHistory(DoStep(k, es[0]), es[1..], c);
    }
  }

  lemma PrefixAt(popped: seq<Sid>, joined: seq<Sid>, waiters: seq<Sid>, n: nat)
    requires joined == popped + waiters && Distinct(joined) && n < |joined|
    ensures joined[n] in popped <==> n < |popped|
  {
    if joined[n] in popped {
      var i :| 0 <= i < |popped| && popped[i] == joined[n];
      assert joined[i] == joined[n];
    }
    assert n < |popped| ==> popped[n] == joined[n];
  }

  /** In every run the waiter at position i of the list has been taken off it exactly when more than i
      signals found a waiter: each signal takes one, the one that has waited longest. One taken off is
      signalled, or the thread that took it off is still inside cond_signal, about to do it. */
  lemma SignalledInTurn(k: Monitor, es: seq<CStep>, c: Cid, i: nat)
    requires MInv(k) && Run(k, es).Some? && c in k.conds && i < |k.conds[c].waiters|
    ensures c in Run(k, es).value.conds
    ensures var k', s := Run(k, es).value, k.conds[c].waiters[i];
            && (s in k'.conds[c].popped <==> SignalCount(k, es, c) > i)
            && (s in k'.conds[c].popped ==> s in k'.raised || exists t :: Signaller(k', t, s))
  {
    hide MInv, Run, SignalCount;
    var k', s := Run(k, es).value, k.conds[c].waiters[i];
    RunHistory(k, es, c);
    CondAt(k, c);
    CondAt(k', c);
    var n := |k.conds[c].popped| + i;
    assert k.conds[c].joined[n] == s && k'.conds[c].joined[n] == s;
    PrefixAt(k'.conds[c].popped, k'.conds[c].joined, k'.conds[c].waiters, n);
  }

  lemma CondAt(k: Monitor, c: Cid)
    requires MInv(k) && c in k.conds
    ensures CondOk(k, c)
  {
  }

  // ---------- the lock guards the list ----------

  /** While a thread holds the lock of `c`, no other thread touches its list. */
  lemma ListGuarded(k: Monitor, e: CStep, c: Cid, t: Tid)
    requires MInv(k) && Allowed(k, e) && c in k.conds && k.conds[c].lock in k.m.locks
    requires k.m.locks[k.conds[c].lock].holder == Some(t) && t != k.m.running
    ensures c in DoStep(k, e).conds && DoStep(k, e).conds[c] == k.conds[c]
    ensures k.conds[c].lock in DoStep(k, e).m.locks && DoStep(k, e).m.locks[k.conds[c].lock].holder == Some(t)
  {
    hide Inv, Do, Enabled, PlaceOk, CondOk, Unique, Private;
    var l := k.conds[c].lock;
    match e
    case Base(b) => HeldStays(k.m, b, t, l);
    case Wait(_, _) =>
    case Signal(_) =>
    case Advance =>
      NextCallEnabled(k);
      var call := NextCall(k, k.m.running);
      if call.Some? { HeldStays(k.m, call.value, t, l); }
  }

  /** cond_broadcast with nothing in between, when n are waiting: n signals. */
  function Broadcast(c: Cid, n: nat): seq<CStep> {
    if n == 0 then [] else [Signal(c), Advance] + Broadcast(c, n - 1)
  }

  /** `c` has lost its first waiter, whose semaphore is raised. */
  ghost predicate Served(k: Monitor, k': Monitor, c: Cid) {
    && c in k.conds && c in k'.conds && k.conds[c].waiters != []
    && k.conds[c].waiters == [k.conds[c].waiters[0]] + k'.conds[c].waiters
    && k'.raised == k.raised + {k.conds[c].waiters[0]}
  }

  /** One signal raises the first waiter's semaphore and leaves the caller where it was. */
  lemma OneSignal(k: Monitor, c: Cid) returns (k1: Monitor, k2: Monitor)
    requires MInv(k) && Allowed(k, Signal(c)) && c in k.conds && k.conds[c].waiters != []
    ensures k1 == DoStep(k, Signal(c)) && MInv(k1) && Allowed(k1, Advance) && k2 == DoStep(k1, Advance)
    ensures MInv(k2) && Allowed(k2, Signal(c)) && Served(k, k2, c)
  {
    hide MInv, Do;
    var s := k.conds[c].waiters[0];
    CStepKeeps(k, Signal(c));
    k1 := DoStep(k, Signal(c));
    CStepKeeps(k1, Advance);
    k2 := DoStep(k1, Advance);
    NextCallEnabled(k1);
    RunningNext(k1, CallUp(s), k.conds[c].lock);
    KeepsInv(k1);
    UpRuns(k1.m, s);
  }

  lemma KeepsInv(k: Monitor)
    requires MInv(k)
    ensures Inv(k.m)
  {
  }

  lemma UpRuns(m: Machine, s: Sid)
    requires Inv(m) && m.running in m.threads && Enabled(m, CallUp(s))
    ensures Do(m, CallUp(s)).running == m.running
  {
    ThreadRuns.WaitersKnown(m, s);
    hide Inv;
  }

  /** `c` has no waiters left, and all there were have been signalled. */
  ghost predicate AllServed(k: Monitor, k': Monitor, c: Cid) {
    && c in k.conds && c in k'.conds && k'.conds[c].waiters == []
    && k'.raised == k.raised + set s | s in k.conds[c].waiters
  }

  /** The loop of cond_broadcast can always run to its end: left alone, it signals every waiter, and its
      caller still holds the lock. */
  lemma {:induction false} BroadcastEnds(k: Monitor, c: Cid)
    requires MInv(k) && Allowed(k, Signal(c)) && c in k.conds
    ensures Run(k, Broadcast(c, |k.conds[c].waiters|)).Some?
    ensures Allowed(Run(k, Broadcast(c, |k.conds[c].waiters|)).value, Signal(c))
    ensures AllServed(k, Run(k, Broadcast(c, |k.conds[c].waiters|)).value, c)
    decreases |k.conds[c].waiters|
  {
    hide MInv, DoStep;
    var n := |k.conds[c].waiters|;
    if n > 0 {
      var k1, k2 := OneSignal(k, c);
      BroadcastEnds(k2, c);
      assert Broadcast(c, n)[1..] == [Advance] + Broadcast(c, n - 1) && Broadcast(c, n)[0] == Signal(c);
      assert ([Advance] + Broadcast(c, n - 1))[1..] == Broadcast(c, n - 1);
      assert Run(k, Broadcast(c, n)) == Run(k1, [Advance] + Broadcast(c, n - 1)) == Run(k2, Broadcast(c, n - 1));
    }
  }

  // ---------- a broadcast among other threads ----------

  /** Thread `t`, if it runs, is in the loop of cond_broadcast for `c`; other threads do as they like. */
  predicate InBroadcast(k: Monitor, e: CStep, c: Cid, t: Tid) {
    k.m.running == t ==> e == Signal(c) || e == Advance || (e.Base? && (e.e.Tick? || e.e.Yield? || e.e.HandlerUp?))
  }

  ghost predicate Broadcasting(k: Monitor, es: seq<CStep>, c: Cid, t: Tid)
    requires MInv(k) && Run(k, es).Some?
    decreases |es|
  {
    es == [] || (InBroadcast(k, es[0], c, t) && (CStepKeeps(k, es[0]); Broadcasting(DoStep(k, es[0]), es[1..], c, t)))
  }

  /** `t` holds the lock of `c` and is not in cond_wait. */
  predicate Caller(k: Monitor, c: Cid, t: Tid) {
    && c in k.conds && k.conds[c].lock in k.m.locks && k.m.locks[k.conds[c].lock].holder == Some(t)
    && (t in k.at ==> k.at[t].Signalling?)
  }

  /** What every step of such a run does to the list: the caller's signals shorten it, nothing else does. */
  ghost predicate Shortened(k: Monitor, k': Monitor, e: CStep, c: Cid, t: Tid)
    requires c in k.conds
  {
    && Caller(k', c, t)
    && (IsSignal(k, e, c) ==> k.m.running == t)
    && k'.conds[c].waiters == if IsSignal(k, e, c) then k.conds[c].waiters[1..] else k.conds[c].waiters
  }

  lemma OthersLeave(k: Monitor, e: CStep, c: Cid, t: Tid)
    requires MInv(k) && Allowed(k, e) && Caller(k, c, t) && k.m.running != t
    ensures Shortened(k, DoStep(k, e), e, c, t)
  {
    hide MInv, Do, Enabled;
    ListGuarded(k, e, c, t);
  }

  lemma CallerActs(k: Monitor, e: CStep, c: Cid, t: Tid)
    requires MInv(k) && Allowed(k, e) && Caller(k, c, t) && k.m.running == t && InBroadcast(k, e, c, t)
    ensures Shortened(k, DoStep(k, e), e, c, t)
  {
    hide MInv, Do;
    var l := k.conds[c].lock;
    match e
    case Base(b) => RunningNext(k, b, l);
    case Signal(_) =>
    case Advance =>
      NextCallEnabled(k);
      RunningNext(k, CallUp(k.at[t].s), l);
  }

  lemma {:induction false} BroadcastShortens(k: Monitor, es: seq<CStep>, c: Cid, t: Tid)
    requires MInv(k) && Run(k, es).Some? && Caller(k, c, t) && Broadcasting(k, es, c, t)
    ensures Caller(Run(k, es).value, c, t) && SignalCount(k, es, c) <= |k.conds[c].waiters|
    ensures Run(k, es).value.conds[c].waiters == k.conds[c].waiters[SignalCount(k, es, c)..]
    decreases |es|
  {
    hide MInv, DoStep, Allowed, Caller;
    if es != [] {
      var k1 := DoStep(k, es[0]);
      CStepKeeps(k, es[0]);
      if k.m.running == t { CallerActs(k, es[0], c, t); } else { OthersLeave(k, es[0], c, t); }
      CallerHas(k, c, t);
      CallerHas(k1, c, t);
      BroadcastShortens(k1, es[1..], c, t);
    }
  }

  lemma CallerHas(k: Monitor, c: Cid, t: Tid)
    requires Caller(k, c, t)
    ensures c in k.conds
  {
  }

  lemma SignallerIsCaller(k: Monitor, c: Cid, t: Tid, x: Tid, s: Sid)
    requires MInv(k) && Caller(k, c, t) && Signaller(k, x, s) && s in k.conds[c].popped
    ensures x == t
  {
    hide Inv, Unique, Private;
    assert CondOk(k, c) && PlaceOk(k, x);
    assert s in k.conds[c].joined;
  }

  /** cond_broadcast, whatever other threads do in between its steps: each of its signals takes the
      longest waiter, no one joins, and its caller keeps the lock. The waiters taken are signalled, but
      for one the caller may be about to signal; so when the list is empty and the caller is done, every
      thread that was waiting has been signalled. */
  lemma BroadcastSignalsAll(k: Monitor, es: seq<CStep>, c: Cid, t: Tid)
    requires MInv(k) && Run(k, es).Some? && Caller(k, c, t) && Broadcasting(k, es, c, t)
    ensures var k', w := Run(k, es).value, k.conds[c].waiters;
            var n := SignalCount(k, es, c);
            && Caller(k', c, t) && n <= |w| && k'.conds[c].waiters == w[n..]
            && (forall i :: 0 <= i < n ==> w[i] in k'.raised || Signaller(k', t, w[i]))
            && (k'.conds[c].waiters == [] && t !in k'.at ==> forall s :: s in w ==> s in k'.raised)
  {
    hide MInv, Run, SignalCount, Broadcasting, Caller;
    CallerHas(k, c, t);
    BroadcastShortens(k, es, c, t);
    var k', w, n := Run(k, es).value, k.conds[c].waiters, SignalCount(k, es, c);
    CallerHas(k', c, t);
    forall i | 0 <= i < n ensures w[i] in k'.raised || Signaller(k', t, w[i]) {
      SignalledInTurn(k, es, c, i);
      if w[i] !in k'.raised {
        var x :| Signaller(k', x, w[i]);
        SignallerIsCaller(k', c, t, x, w[i]);
      }
    }
  }
}
