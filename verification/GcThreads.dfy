/**
 The threads of the collector and the mutators that wait for it (launch_gc_master, gc_cache and
 mutator_wait_for_gc_cache in aifm_changes/manager.cpp) as a step system: any number of threads,
 any interleaving, one shared access per step.
 */
module GcThreads {

  import opened Regions

  datatype Pc =
    | Out                // in neither function
    // gc_cache
    | Launched           // before the is_free_cache_low test
    | SawLow             // before the compare-and-swap
    | Looping            // before the is_free_cache_high test
    | Picking
    | Evacuating         // phases 2 to 4
    | Recycling
    | WantsLock
    | Testing            // holds gc_lock_, before the almost_empty test
    | Clearing           // holds gc_lock_, almost_empty is false, before SignalAll
    | Unlocking          // holds gc_lock_
    | Leaving            // before gc_master_spawned_ = false
    | Closing            // before gc_master_active = false
    // mutator_wait_for_gc_cache
    | Gate               // before gc_lock_
    | Asking             // holds gc_lock_, before the first test of almost_empty
    | Convinced          // holds gc_lock_, has read true, before Wait
    | Queued             // on the condition variable, not signalled
    | Woken              // signalled, before it has gc_lock_ again
    | Asking2            // holds gc_lock_, before the loop's test

  datatype State = State(
    active: bool,       // gc_master_active
    spawned: bool,      // gc_master_spawned_
    almostEmpty: bool,
    lock: set<Tid>,     // the holder of gc_lock_, if any
    from: set<nat>,     // from_regions_
    pcs: map<Tid, Pc>)

  function At(s: State, t: Tid): Pc {
    if t in s.pcs then s.pcs[t] else Out
  }

  function Go(s: State, t: Tid, pc: Pc): State {
    s.(pcs := s.pcs[t := pc])
  }

  datatype Event =
    // `preempt`: preemption is enabled; `active` was read earlier by the launching mutator
    | Launch(t: Tid, preempt: bool, active: bool)
    | Low(t: Tid, low: bool)
    | Swap(t: Tid)
    | High(t: Tid, high: bool)
    | Pick(t: Tid, regions: set<nat>)
    | Evacuate(t: Tid)
    | Recycle(t: Tid)
    | Acquire(t: Tid)
    | Test(t: Tid, stillLow: bool)
    | SignalAll(t: Tid)
    | Unlock(t: Tid)
    | ClearSpawned(t: Tid)
    | ClearActive(t: Tid)
    | RunOut(t: Tid)  // an allocation fails and the thread comes to wait
    | Ask(t: Tid)
    | Wait(t: Tid)
    | GetLow          // some allocation finds the cache almost empty; no lock is held for this

  predicate Enabled(s: State, e: Event) {
    match e
    case Launch(t, _, _) => At(s, t).Out?
    case Low(t, _) => At(s, t).Launched?
    case Swap(t) => At(s, t).SawLow?
    case High(t, _) => At(s, t).Looping?
    case Pick(t, _) => At(s, t).Picking?
    case Evacuate(t) => At(s, t).Evacuating?
    case Recycle(t) => At(s, t).Recycling?
    case Acquire(t) => s.lock == {} && (At(s, t).WantsLock? || At(s, t).Gate? || At(s, t).Woken?)
    case Test(t, _) => At(s, t).Testing?
    case SignalAll(t) => At(s, t).Clearing?
    case Unlock(t) => At(s, t).Unlocking?
    case ClearSpawned(t) => At(s, t).Leaving?
    case ClearActive(t) => At(s, t).Closing?
    case RunOut(t) => At(s, t).Out?
    case Ask(t) => At(s, t).Asking? || At(s, t).Asking2?
    case Wait(t) => At(s, t).Convinced?
    case GetLow => true
  }

  function Apply(s: State, e: Event): State
    requires Enabled(s, e)
  {
    match e
    case Launch(t, preempt, active) =>
      if active || (!preempt && s.spawned) then s
      else Go(s, t, Launched).(spawned := s.spawned || !preempt)
    case Low(t, low) => Go(s, t, if low then SawLow else Out)
    case Swap(t) => if s.active then Go(s, t, Out) else Go(s, t, Looping).(active := true)
    case High(t, high) => Go(s, t, if high then Leaving else Picking)
    case Pick(t, regions) => Go(s, t, if regions == {} then Looping else Evacuating).(from := regions)
    case Evacuate(t) => Go(s, t, Recycling)
    case Recycle(t) => Go(s, t, WantsLock).(from := {})
    case Acquire(t) =>
      var pc := if At(s, t).WantsLock? then Testing else if At(s, t).Gate? then Asking else Asking2;
      Go(s, t, pc).(lock := {t})
    case Test(t, stillLow) =>
      if stillLow then Go(s, t, Unlocking) else Go(s, t, Clearing).(almostEmpty := false)
    case SignalAll(t) =>
      s.(pcs := map u | u in s.pcs :: if u == t then Unlocking else if s.pcs[u].Queued? then Woken else s.pcs[u])
    case Unlock(t) => Go(s, t, Looping).(lock := {})
    case ClearSpawned(t) => Go(s, t, Closing).(spawned := false)
    case ClearActive(t) => Go(s, t, Out).(active := false)
    case RunOut(t) => Go(s, t, Gate)
    case Ask(t) => if s.almostEmpty then Go(s, t, Convinced) else Go(s, t, Out).(lock := {})
    case Wait(t) => Go(s, t, Queued).(lock := {})
    case GetLow => s.(almostEmpty := true)
  }

  // ---------- the invariant ----------

  // t has passed the compare-and-swap and has not yet cleared gc_master_active.
  predicate IsMaster(s: State, t: Tid) {
    var pc := At(s, t);
    pc.Looping? || pc.Picking? || pc.Evacuating? || pc.Recycling? || pc.WantsLock?
    || pc.Testing? || pc.Clearing? || pc.Unlocking? || pc.Leaving? || pc.Closing?
  }

  predicate Holds(s: State, t: Tid) {
    var pc := At(s, t);
    pc.Testing? || pc.Clearing? || pc.Unlocking? || pc.Asking? || pc.Convinced? || pc.Asking2?
  }

  ghost predicate OneMaster(s: State) {
    && (s.active <==> exists t :: IsMaster(s, t))
    && (forall t, u :: IsMaster(s, t) && IsMaster(s, u) ==> t == u)
  }

  ghost predicate LockOk(s: State) {
    && (forall t :: Holds(s, t) <==> t in s.lock)
    && (forall t, u :: t in s.lock && u in s.lock ==> t == u)
  }

  // A waiter's reason to wait still holds, unless the master is about to wake it.
  ghost predicate WaitersOk(s: State) {
    && (forall t :: At(s, t).Convinced? ==> s.almostEmpty)
    && (forall t :: At(s, t).Queued? ==> s.almostEmpty || exists u :: At(s, u).Clearing?)
  }

  // from_regions_ is in use only between a pick and the end of its recycling.
  ghost predicate FromOk(s: State) {
    s.from != {} ==> exists t :: At(s, t).Evacuating? || At(s, t).Recycling?
  }

  ghost predicate Inv(s: State) {
    OneMaster(s) && LockOk(s) && WaitersOk(s) && FromOk(s)
  }

  predicate Init(s: State) {
    s.pcs == map[] && !s.active && s.lock == {} && s.from == {}
  }

  lemma InitInv(s: State)
    requires Init(s)
    ensures Inv(s)
  {
  }

  // A step moves its own thread; only SignalAll moves others, and only from the queue.
  lemma OthersStay(s: State, e: Event)
    requires Enabled(s, e)
    ensures e.GetLow? ==> Apply(s, e).pcs == s.pcs
    ensures !e.GetLow? ==> forall u :: u != e.t ==>
              At(Apply(s, e), u) == if e.SignalAll? && At(s, u).Queued? then Woken else At(s, u)
  {
  }

  lemma MasterStep(s: State, e: Event)
    requires Inv(s) && Enabled(s, e)
    ensures OneMaster(Apply(s, e))
  {
    hide LockOk, WaitersOk, FromOk;
    OthersStay(s, e);
    var s' := Apply(s, e);
    if e.GetLow? {
      assert forall t :: At(s', t) == At(s, t);
      assert forall t :: IsMaster(s', t) <==> IsMaster(s, t);
    } else {
      OwnMove(s, e);
      hide Apply;
      assert forall u :: u != e.t ==> (IsMaster(s', u) <==> IsMaster(s, u));
    }
  }

  // The thread's own part of the protocol: the swap starts a collector, the last store ends it.
  lemma OwnMove(s: State, e: Event)
    requires Enabled(s, e) && !e.GetLow?
    ensures var s' := Apply(s, e);
            && (e.Swap? && !s.active ==> !IsMaster(s, e.t) && IsMaster(s', e.t) && s'.active)
            && (e.ClearActive? ==> IsMaster(s, e.t) && !IsMaster(s', e.t) && !s'.active)
            && (!(e.Swap? && !s.active) && !e.ClearActive? ==>
                 && s'.active == s.active
                 && (IsMaster(s', e.t) <==> IsMaster(s, e.t)))
  {
  }

  lemma OwnAcquire(s: State, t: Tid)
    requires Enabled(s, Acquire(t))
    ensures var s' := Apply(s, Acquire(t));
            s.lock == {} && s'.lock == {t} && Holds(s', t)
  {
  }

  lemma OwnRelease(s: State, e: Event)
    requires Enabled(s, e) && (e.Unlock? || e.Wait? || (e.Ask? && !s.almostEmpty))
    ensures Holds(s, e.t) && Apply(s, e).lock == {} && !Holds(Apply(s, e), e.t)
  {
  }

  lemma OwnStay(s: State, e: Event)
    requires Enabled(s, e) && !e.GetLow?
    requires !e.Acquire? && !e.Unlock? && !e.Wait? && !(e.Ask? && !s.almostEmpty)
    ensures Apply(s, e).lock == s.lock && (Holds(Apply(s, e), e.t) <==> Holds(s, e.t))
  {
  }

  // gc_lock_ is taken and given back by its holder only.
  lemma OwnLock(s: State, e: Event)
    requires Enabled(s, e) && !e.GetLow?
    ensures var s' := Apply(s, e);
            || (s'.lock == s.lock && (Holds(s', e.t) <==> Holds(s, e.t)))
            || (s.lock == {} && s'.lock == {e.t} && Holds(s', e.t))
            || (Holds(s, e.t) && s'.lock == {} && !Holds(s', e.t))
  {
    hide Apply, Enabled, Holds;
    if e.Acquire? {
      OwnAcquire(s, e.t);
    } else if e.Unlock? || e.Wait? || (e.Ask? && !s.almostEmpty) {
      OwnRelease(s, e);
    } else {
      OwnStay(s, e);
    }
  }

  lemma LockStep(s: State, e: Event)
    requires Inv(s) && Enabled(s, e)
    ensures LockOk(Apply(s, e))
  {
    hide OneMaster, WaitersOk, FromOk;
    OthersStay(s, e);
    var s' := Apply(s, e);
    if e.GetLow? {
      assert forall t :: At(s', t) == At(s, t);
      assert forall t :: Holds(s', t) <==> Holds(s, t);
    } else {
      OwnLock(s, e);
      hide Apply;
      assert forall u :: u != e.t ==> (Holds(s', u) <==> Holds(s, u));
    }
  }

  lemma WaiterStep(s: State, e: Event)
    requires Inv(s) && Enabled(s, e)
    ensures WaitersOk(Apply(s, e))
  {
    hide OneMaster, FromOk;
    OthersStay(s, e);
    var s' := Apply(s, e);
    if !e.GetLow? {
      assert Holds(s, e.t) <==> e.t in s.lock;
      forall t | At(s', t).Convinced? ensures s'.almostEmpty {
        assert Holds(s, t) <==> t in s.lock;
      }
      forall t | At(s', t).Queued? ensures s'.almostEmpty || exists u :: At(s', u).Clearing? {
        if t != e.t && !s.almostEmpty {
          assert At(s, t).Queued?;
          var u :| At(s, u).Clearing?;
          assert Holds(s, u) <==> u in s.lock;
          assert At(s', u).Clearing?;
        } else if e.Test? && !e.stillLow {
          assert At(s', e.t).Clearing?;
        }
      }
    }
  }

  lemma FromStep(s: State, e: Event)
    requires Inv(s) && Enabled(s, e)
    ensures FromOk(Apply(s, e))
  {
    var s' := Apply(s, e);
    if s'.from != {} {
      if s.from != {} && !e.Pick? {
        var t :| At(s, t).Evacuating? || At(s, t).Recycling?;
        assert IsMaster(s, t);
        assert At(s', t).Evacuating? || At(s', t).Recycling?;
      } else {
        assert At(s', e.t).Evacuating?;
      }
    }
  }

  ghost predicate Runs(s: State, es: seq<Event>)
    decreases |es|
  {
    es == [] || (Enabled(s, es[0]) && Runs(Apply(s, es[0]), es[1..]))
  }

  ghost function After(s: State, es: seq<Event>): State
    requires Runs(s, es)
    decreases |es|
  {
    if es == [] then s else After(Apply(s, es[0]), es[1..])
  }

  lemma StepKeepsInv(s: State, e: Event)
    requires Inv(s) && Enabled(s, e)
    ensures Inv(Apply(s, e))
  {
    MasterStep(s, e);
    LockStep(s, e);
    WaiterStep(s, e);
    FromStep(s, e);
  }

  lemma {:induction false} RunKeepsInv(s: State, es: seq<Event>)
    requires Inv(s) && Runs(s, es)
    ensures Inv(After(s, es))
    decreases |es|
  {
    if es != [] {
      StepKeepsInv(s, es[0]);
      RunKeepsInv(Apply(s, es[0]), es[1..]);
    }
  }

  // ---------- what every interleaving guarantees ----------

  // At most one thread is past the compare-and-swap, and gc_master_active says whether one is.
  lemma SingleCollector(s: State, es: seq<Event>)
    requires Init(s) && Runs(s, es)
    ensures After(s, es).active <==> exists t :: IsMaster(After(s, es), t)
    ensures forall t, u :: IsMaster(After(s, es), t) && IsMaster(After(s, es), u) ==> t == u
  {
    InitInv(s);
    RunKeepsInv(s, es);
  }

  // Whoever changes from_regions_ is the collector, alone, and picks only into an empty list.
  lemma FromHasOneWriter(s: State, es: seq<Event>, e: Event)
    requires Init(s) && Runs(s, es) && Enabled(After(s, es), e)
    requires Apply(After(s, es), e).from != After(s, es).from
    ensures !e.GetLow? && forall u :: IsMaster(After(s, es), u) <==> u == e.t
    ensures e.Pick? ==> After(s, es).from == {}
  {
    InitInv(s);
    RunKeepsInv(s, es);
    var now := After(s, es);
    assert IsMaster(now, e.t);
    if e.Pick? && now.from != {} {
      var t :| At(now, t).Evacuating? || At(now, t).Recycling?;
      assert IsMaster(now, t);
    }
  }

  // No lost wakeup: while gc_lock_ is free, whoever still waits unsignalled has reason to.
  lemma NoLostWakeup(s: State, es: seq<Event>, t: Tid)
    requires Init(s) && Runs(s, es) && After(s, es).lock == {} && At(After(s, es), t).Queued?
    ensures After(s, es).almostEmpty
  {
    InitInv(s);
    RunKeepsInv(s, es);
    var now := After(s, es);
    assert forall u :: At(now, u).Clearing? ==> Holds(now, u);
  }

  // ---------- what the collector does for the waiters ----------

  // t has cleared almost_empty and not yet given back gc_lock_.
  ghost predicate Waking(s: State, t: Tid) {
    At(s, t).Clearing? || (At(s, t).Unlocking? && forall u :: !At(s, u).Queued?)
  }

  // While t holds the lock nobody comes to wait, and its SignalAll wakes whoever did.
  lemma WakingStep(s: State, e: Event, t: Tid)
    requires Inv(s) && Enabled(s, e) && Waking(s, t) && !(e.Unlock? && e.t == t)
    ensures Waking(Apply(s, e), t)
  {
    hide OneMaster, WaitersOk, FromOk;
    OthersStay(s, e);
    assert Holds(s, t) <==> t in s.lock;
    if e.GetLow? {
      assert forall u :: At(Apply(s, e), u) == At(s, u);
    } else {
      assert Holds(s, e.t) <==> e.t in s.lock;
    }
  }

  lemma {:induction false} WakingUntilUnlock(s: State, es: seq<Event>, t: Tid)
    requires Inv(s) && Runs(s, es) && Waking(s, t) && forall e <- es :: !(e.Unlock? && e.t == t)
    ensures Waking(After(s, es), t)
    decreases |es|
  {
    hide Inv, Enabled, Apply, Waking;
    if es != [] {
      assert es[0] in es && forall e <- es[1..] :: e in es;
      WakingStep(s, es[0], t);
      StepKeepsInv(s, es[0]);
      WakingUntilUnlock(Apply(s, es[0]), es[1..], t);
    }
  }

  // A collector that finds the cache no longer almost empty says so, and by the time it gives gc_lock_
  // back it has woken every thread that waited: nobody is queued then.
  lemma EveryWaiterIsWoken(s: State, before: seq<Event>, t: Tid, es: seq<Event>)
    requires Init(s) && Runs(s, before) && Enabled(After(s, before), Test(t, false))
    requires var cleared := Apply(After(s, before), Test(t, false));
             Runs(cleared, es) && (forall e <- es :: !(e.Unlock? && e.t == t)) && Enabled(After(cleared, es), Unlock(t))
    ensures var cleared := Apply(After(s, before), Test(t, false));
            !cleared.almostEmpty && forall u :: !At(After(cleared, es), u).Queued?
  {
    InitInv(s);
    RunKeepsInv(s, before);
    var cleared := Apply(After(s, before), Test(t, false));
    StepKeepsInv(After(s, before), Test(t, false));
    assert Waking(cleared, t);
    WakingUntilUnlock(cleared, es, t);
  }

  // One that finds it still almost empty leaves the flag and the waiters as they are.
  lemma NobodyIsWokenEarly(s: State, t: Tid)
    requires Enabled(s, Test(t, true))
    ensures var s' := Apply(s, Test(t, true));
            s'.almostEmpty == s.almostEmpty && forall u :: At(s', u).Queued? <==> At(s, u).Queued?
  {
  }

  // ---------- when a collector runs ----------

  // t is between finding the cache low and ending the collection.
  predicate Collects(s: State, t: Tid) {
    At(s, t).SawLow? || IsMaster(s, t)
  }

  predicate Ends(s: State, t: Tid) {
    At(s, t).Leaving? || At(s, t).Closing?
  }

  lemma CollectsStep(s: State, e: Event, t: Tid)
    requires Enabled(s, e)
    ensures Collects(Apply(s, e), t) ==> Collects(s, t) || e == Low(t, true)
    ensures Ends(Apply(s, e), t) ==> Ends(s, t) || e == High(t, true)
  {
    OthersStay(s, e);
    if !e.GetLow? && e.t == t {
      OwnMove(s, e);
    }
  }

  // In every run, whoever collects has found the cache low, and whoever ends has found it high.
  lemma {:induction false} CollectsOnlyWhenLow(s: State, es: seq<Event>, t: Tid)
    requires Runs(s, es)
    ensures Collects(After(s, es), t) ==> Collects(s, t) || Low(t, true) in es
    ensures Ends(After(s, es), t) ==> Ends(s, t) || High(t, true) in es
    decreases |es|
  {
    hide Enabled, Apply, Collects, Ends;
    if es != [] {
      assert es[0] in es && forall e <- es[1..] :: e in es;
      CollectsStep(s, es[0], t);
      CollectsOnlyWhenLow(Apply(s, es[0]), es[1..], t);
    }
  }
}
