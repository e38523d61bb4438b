/**
 The threads of the DynamicSwap pager (src/dswap.cpp) as a step system: the pager thread, the memory
 thread and any number of registering threads share object_addrs_mut, while the collector evicts
 and mutators swap in whenever they like.  One shared access per step.
 */
module PagerThreads {
  import opened Regions
  import opened FarMemory
  import opened ObjRefs

  datatype Who = ThePager | TheMemory | Registrar(t: Tid)

  datatype PagerPc =
    | Resting
    | AtHead(i: nat)    // before the loop's tests for entry i
    | Looking(i: nat)   // before entry i's presence check
    | Swapping(i: nat)  // before swap_in of entry i, found absent
    | Finished          // before the unlock

  datatype MemoryPc =
    | Asleep
    | Adding(i: nat, total: nat)
    | Storing(total: nat)
    | Stored

  datatype RegisterPc = Out | Pushing(ref: ObjRef) | Pushed

  // A pass of the pager: what it found when it took the mutex, and which entries it has visited.
  datatype Pass = Pass(available: nat, refs: seq<ObjRef>, foundPresent: seq<bool>, tried: set<nat>)

  datatype State = State(
    cacheSize: nat,
    threshold: nat,           // swap_threshold
    refs: seq<ObjRef>,           // object_refs
    present: set<Ptr>,        // the pointers whose object is in the cache
    available: nat,           // available_mem
    holder: Option<Who>,      // of object_addrs_mut
    pager: PagerPc,
    memory: MemoryPc,
    registrars: map<Tid, RegisterPc>,
    pass: Pass,               // the pager's latest pass
    foundPresent: seq<bool>)  // the entries the memory thread's latest scan has visited

  function At(s: State, t: Tid): RegisterPc {
    if t in s.registrars then s.registrars[t] else Out
  }

  datatype Event =
    | PagerLock
    | PagerHead
    | PagerLook
    | PagerSwap
    | PagerUnlock
    | MemoryLock
    | MemoryAdd
    | MemoryStore
    | MemoryUnlock
    | RegisterLock(t: Tid, ref: ObjRef)
    | RegisterPush(t: Tid)
    | RegisterUnlock(t: Tid)
    | Evict(p: Ptr)   // the collector
    | Arrive(p: Ptr)  // a mutator's swap-in or allocation

  predicate Enabled(s: State, e: Event) {
    match e
    case PagerLock => s.holder.None? && s.pager.Resting?
    case PagerHead => s.pager.AtHead?
    case PagerLook => s.pager.Looking? && s.pager.i < |s.refs|
    case PagerSwap => s.pager.Swapping? && s.pager.i < |s.refs|
    case PagerUnlock => s.pager.Finished?
    case MemoryLock => s.holder.None? && s.memory.Asleep?
    case MemoryAdd => s.memory.Adding?
    case MemoryStore => s.memory.Storing?
    case MemoryUnlock => s.memory.Stored?
    case RegisterLock(t, _) => s.holder.None? && At(s, t).Out?
    case RegisterPush(t) => At(s, t).Pushing?
    case RegisterUnlock(t) => At(s, t).Pushed?
    case Evict(_) => true
    case Arrive(_) => true
  }

  function Apply(s: State, e: Event): State
    requires Enabled(s, e)
  {
    match e
    case PagerLock => s.(holder := Some(ThePager), pager := AtHead(0), pass := Pass(s.available, s.refs, [], {}))
    case PagerHead =>
      var i := s.pager.i;
      s.(pager := if |s.refs| <= i || s.available < s.threshold then Finished else Looking(i))
    case PagerLook =>
      var i := s.pager.i;
      var here := s.refs[i].ptr in s.present;
      s.(pager := if here then AtHead(i + 1) else Swapping(i),
         pass := s.pass.(foundPresent := s.pass.foundPresent + [here]))
    case PagerSwap =>
      var i := s.pager.i;
      s.(pager := AtHead(i + 1), present := s.present + {s.refs[i].ptr}, pass := s.pass.(tried := s.pass.tried + {i}))
    case PagerUnlock => s.(pager := Resting, holder := None)
    case MemoryLock => s.(holder := Some(TheMemory), memory := Adding(0, 0), foundPresent := [])
    case MemoryAdd =>
      var i, total := s.memory.i, s.memory.total;
      if |s.refs| <= i then s.(memory := Storing(total))
      else
        var here := s.refs[i].ptr in s.present;
        s.(memory := Adding(i + 1, if here then (total + s.refs[i].size) % WORD else total),
           foundPresent := s.foundPresent + [here])
    case MemoryStore => s.(memory := Stored, available := (s.cacheSize - s.memory.total) % WORD)
    case MemoryUnlock => s.(memory := Asleep, holder := None)
    case RegisterLock(t, ref) => s.(holder := Some(Registrar(t)), registrars := s.registrars[t := Pushing(ref)])
    case RegisterPush(t) => s.(refs := s.refs + [At(s, t).ref], registrars := s.registrars[t := Pushed])
    case RegisterUnlock(t) => s.(holder := None, registrars := s.registrars[t := Out])
    case Evict(p) => s.(present := s.present - {p})
    case Arrive(p) => s.(present := s.present + {p})
  }

  // ---------- the invariant ----------

  ghost predicate MutexOk(s: State) {
    && (s.holder == Some(ThePager) <==> !s.pager.Resting?)
    && (s.holder == Some(TheMemory) <==> !s.memory.Asleep?)
    && (forall t :: s.holder == Some(Registrar(t)) <==> !At(s, t).Out?)
  }

  // The number of entries a pass has visited.
  function Visited(s: State): nat {
    match s.pager
    case AtHead(i) => i
    case Looking(i) => i
    case Swapping(i) => i + 1
    case _ => |s.pass.foundPresent|
  }

  // While the pager is in its pass, the free memory and the registrations are those it started with.
  ghost predicate PassStands(s: State) {
    !s.pager.Resting? ==> s.available == s.pass.available && s.refs == s.pass.refs
  }

  ghost predicate PassOk(s: State) {
    var p := s.pass;
    && |p.foundPresent| == Visited(s)
    && |p.foundPresent| <= |p.refs|
    && (forall i :: i in p.tried <==> 0 <= i < |p.foundPresent| && !p.foundPresent[i] && s.pager != Swapping(i))
    && (p.available < s.threshold ==> p.foundPresent == [])
    && (s.pager.Looking? ==> s.threshold <= p.available && s.pager.i < |p.refs|)
    && (s.pager.Swapping? ==> s.threshold <= p.available && s.pager.i < |p.refs| && !p.foundPresent[s.pager.i])
    && (s.pager.Finished? || s.pager.Resting? ==> p.available < s.threshold || |p.foundPresent| == |p.refs|)
  }

  // What the memory thread has added up: the sizes of the entries it found present.
  function SumFound(refs: seq<ObjRef>, found: seq<bool>): nat
    requires |found| <= |refs|
  {
    if found == [] then 0
    else SumFound(refs, found[..|found| - 1]) + if found[|found| - 1] then refs[|found| - 1].size else 0
  }

  ghost predicate ScanOk(s: State) {
    match s.memory
    case Adding(i, total) => i == |s.foundPresent| <= |s.refs| && total == SumFound(s.refs, s.foundPresent) % WORD
    case Storing(total) => |s.foundPresent| == |s.refs| && total == SumFound(s.refs, s.foundPresent) % WORD
    case Stored => |s.foundPresent| == |s.refs|
        && s.available == (s.cacheSize - SumFound(s.refs, s.foundPresent)) % WORD
    case Asleep => true
  }

  ghost predicate Inv(s: State) {
    MutexOk(s) && PassStands(s) && PassOk(s) && ScanOk(s)
  }

  ghost predicate Init(s: State) {
    && s.refs == [] && s.available == 0 && s.holder.None? && s.pager.Resting? && s.memory.Asleep?
    && s.registrars == map[] && s.pass == Pass(0, [], [], {})
  }

  lemma InitInv(s: State)
    requires Init(s)
    ensures Inv(s)
  {
  }

  lemma MutexStep(s: State, e: Event)
    requires Inv(s) && Enabled(s, e)
    ensures MutexOk(Apply(s, e))
  {
    hide PassStands, PassOk, ScanOk;
    var s' := Apply(s, e);
    assert forall t :: At(s', t) == if (e.RegisterLock? || e.RegisterPush? || e.RegisterUnlock?)
        && e.t == t then At(s', t) else At(s, t);
  }

  lemma PassStandsStep(s: State, e: Event)
    requires Inv(s) && Enabled(s, e)
    ensures PassStands(Apply(s, e))
  {
  }

  lemma PassStep(s: State, e: Event)
    requires Inv(s) && Enabled(s, e)
    ensures PassOk(Apply(s, e))
  {
    hide MutexOk, ScanOk;
  }

  lemma SumFoundAppend(refs: seq<ObjRef>, found: seq<bool>, here: bool)
    requires |found| < |refs|
    ensures SumFound(refs, found + [here]) == SumFound(refs, found) + if here then refs[|found|].size else 0
  {
    assert (found + [here])[..|found + [here]| - 1] == found;
  }

  // Nobody else touches what a scan works on.
  lemma ScanUndisturbed(s: State, e: Event)
    requires MutexOk(s) && Enabled(s, e) && !e.MemoryLock? && !e.MemoryAdd? && !e.MemoryStore? && !e.MemoryUnlock?
    ensures var s' := Apply(s, e);
            && s'.memory == s.memory && s'.foundPresent == s.foundPresent && s'.available == s.available
            && s'.cacheSize == s.cacheSize && (!s.memory.Asleep? ==> s'.refs == s.refs)
  {
  }

  lemma Wrap(a: nat, b: nat)
    ensures (a % WORD + b) % WORD == (a + b) % WORD
    ensures (b - a % WORD) % WORD == (b - a) % WORD
  {
    Shift(a % WORD + b, a / WORD);
    Shift(b - a, a / WORD);
  }

  lemma AddStep(s: State)
    requires ScanOk(s) && s.memory.Adding?
    ensures ScanOk(Apply(s, MemoryAdd))
  {
    if s.memory.i < |s.refs| {
      SumFoundAppend(s.refs, s.foundPresent, s.refs[s.memory.i].ptr in s.present);
      Wrap(SumFound(s.refs, s.foundPresent), s.refs[s.memory.i].size);
    }
    hide SumFound;
  }

  lemma StoreStep(s: State)
    requires ScanOk(s) && s.memory.Storing?
    ensures ScanOk(Apply(s, MemoryStore))
  {
    Wrap(SumFound(s.refs, s.foundPresent), s.cacheSize);
    hide SumFound;
  }

  lemma ScanStep(s: State, e: Event)
    requires Inv(s) && Enabled(s, e)
    ensures ScanOk(Apply(s, e))
  {
    hide PassStands, PassOk;
    if e.MemoryAdd? {
      hide SumFound;
      AddStep(s);
    } else if e.MemoryStore? {
      StoreStep(s);
    } else if !e.MemoryLock? && !e.MemoryUnlock? {
      ScanUndisturbed(s, e);
      hide Apply, Enabled, SumFound;
    }
  }

  lemma StepKeepsInv(s: State, e: Event)
    requires Inv(s) && Enabled(s, e)
    ensures Inv(Apply(s, e)) && Apply(s, e).threshold == s.threshold && Apply(s, e).cacheSize == s.cacheSize
  {
    MutexStep(s, e);
    PassStandsStep(s, e);
    PassStep(s, e);
    ScanStep(s, e);
  }

  ghost predicate Runs(s: State, es: seq<Event>)
    decreases |es|
  {
    es == [] || (Enabled(s, es[0]) && Runs(Apply(s, es[0]), es[1..]))
  }

  ghost function After(s: State, es: seq<Event>): State
    requires Runs(s, es)
    decreases |es|
  {
    if es == [] then s else After(Apply(s, es[0]), es[1..])
  }

  lemma {:induction false} RunKeepsInv(s: State, es: seq<Event>)
    requires Inv(s) && Runs(s, es)
    ensures Inv(After(s, es)) && After(s, es).threshold == s.threshold && After(s, es).cacheSize == s.cacheSize
    decreases |es|
  {
    hide Inv, Enabled, Apply;
    if es != [] {
      StepKeepsInv(s, es[0]);
      RunKeepsInv(Apply(s, es[0]), es[1..]);
    }
  }

  // ---------- what every interleaving guarantees ----------

  // available_mem is written, and an object registered, only by the thread that holds the mutex, and
  // so never during a pass of the pager.
  lemma OneWriter(s: State, es: seq<Event>, e: Event)
    requires Init(s) && Runs(s, es) && Enabled(After(s, es), e)
    ensures var n, n' := After(s, es), Apply(After(s, es), e);
            && (n'.available != n.available ==> n.holder == Some(TheMemory) && n.pager.Resting?)
            && (n'.refs != n.refs ==> n.holder == Some(Registrar(e.t)) && n.pager.Resting? && n.memory.Asleep?)
            && (!n.pager.Resting? ==> n.available == n.pass.available && n.refs == n.pass.refs)
  {
    InitInv(s);
    RunKeepsInv(s, es);
  }

  // A finished pass tried every registered object that it found absent, or none: which of the two was
  // settled when it took the mutex, whatever was evicted, swapped in or waiting to register meanwhile.
  lemma PassIsAllOrNone(s: State, es: seq<Event>)
    requires Init(s) && Runs(s, es) && After(s, es).pager.Finished?
    ensures var n := After(s, es);
            && (n.available < s.threshold ==> n.pass.tried == {} && n.pass.foundPresent == [])
            && (s.threshold <= n.available ==>
                  && |n.pass.foundPresent| == |n.refs|
                  && forall i :: i in n.pass.tried <==> 0 <= i < |n.refs| && !n.pass.foundPresent[i])
  {
    InitInv(s);
    RunKeepsInv(s, es);
  }

  // ---------- what a pass leaves present ----------

  // The pass is through with entry i: found present, or swapped in.
  predicate DoneWith(s: State, i: nat) {
    match s.pager
    case AtHead(n) => i < n
    case Looking(n) => i < n
    case Swapping(n) => i < n
    case _ => i < |s.pass.foundPresent|
  }

  ghost predicate EntryPresent(s: State, i: nat) {
    DoneWith(s, i) ==> i < |s.pass.refs| && s.pass.refs[i].ptr in s.present
  }

  // The step evicts the object of entry i after the pass is through with it.
  predicate EvictsEntry(s: State, e: Event, i: nat) {
    e.Evict? && DoneWith(s, i) && i < |s.pass.refs| && s.pass.refs[i].ptr == e.p
  }

  // What the pass is through with is in the cache, and it is exactly such an eviction that changes this.
  lemma EntryPresentIff(s: State, e: Event, i: nat)
    requires Inv(s) && Enabled(s, e) && EntryPresent(s, i)
    ensures EntryPresent(Apply(s, e), i) <==> !EvictsEntry(s, e, i)
  {
    hide MutexOk, ScanOk;
  }

  ghost predicate EntryKept(s: State, es: seq<Event>, i: nat)
    requires Runs(s, es)
    decreases |es|
  {
    es == [] || (!EvictsEntry(s, es[0], i) && EntryKept(Apply(s, es[0]), es[1..], i))
  }

  lemma {:induction false} RunKeepsEntry(s: State, es: seq<Event>, i: nat)
    requires Inv(s) && Runs(s, es) && EntryPresent(s, i) && EntryKept(s, es, i)
    ensures EntryPresent(After(s, es), i)
    decreases |es|
  {
    hide Inv, Enabled, Apply, EntryPresent, EvictsEntry;
    if es != [] {
      EntryPresentIff(s, es[0], i);
      StepKeepsInv(s, es[0]);
      RunKeepsEntry(Apply(s, es[0]), es[1..], i);
    }
  }

  // From the moment a pass takes the mutex to its end, with memory to spare: every registered object is
  // in the cache, but for those evicted since the pass was through with them.
  lemma PassBringsIn(s: State, before: seq<Event>, es: seq<Event>, i: nat)
    requires Init(s) && Runs(s, before) && Enabled(After(s, before), PagerLock)
    requires var locked := Apply(After(s, before), PagerLock); Runs(locked, es) && EntryKept(locked, es, i)
    requires var n := After(Apply(After(s, before), PagerLock), es);
             n.pager.Finished? && s.threshold <= n.available && i < |n.refs|
    ensures var n := After(Apply(After(s, before), PagerLock), es);
            n.refs[i].ptr in n.present
  {
    InitInv(s);
    RunKeepsInv(s, before);
    var locked := Apply(After(s, before), PagerLock);
    StepKeepsInv(After(s, before), PagerLock);
    assert EntryPresent(locked, i);
    RunKeepsInv(locked, es);
    RunKeepsEntry(locked, es, i);
    hide MutexOk, ScanOk, Enabled, Apply, Runs, EntryKept;
  }

  // What a scan stores is what the sizes it found present leave of the cache, modulo 2^64.
  lemma ScanStoresTheRest(s: State, es: seq<Event>)
    requires Init(s) && Runs(s, es) && After(s, es).memory.Stored?
    ensures var n := After(s, es);
            && |n.foundPresent| == |n.refs|
            && n.available == (s.cacheSize - SumFound(n.refs, n.foundPresent)) % WORD
  {
    InitInv(s);
    RunKeepsInv(s, es);
  }

  // ---------- when what a scan stores is right ----------

  // The sizes of the registered objects in the cache at this moment.
  function PresentSum(refs: seq<ObjRef>, present: set<Ptr>): nat {
    if refs == [] then 0
    else
      var last := refs[|refs| - 1];
      PresentSum(refs[..|refs| - 1], present) + if last.ptr in present then last.size else 0
  }

  // Every entry the latest scan found present still is.
  ghost predicate FoundStay(s: State) {
    |s.foundPresent| <= |s.refs|
    && forall i :: 0 <= i < |s.foundPresent| && s.foundPresent[i] ==> s.refs[i].ptr in s.present
  }

  // The step evicts an object that the scan has already counted.
  predicate EvictsFound(s: State, e: Event) {
    e.Evict? && exists i :: 0 <= i < |s.foundPresent| && i < |s.refs| && s.foundPresent[i] && s.refs[i].ptr == e.p
  }

  // It is exactly such a step that makes the count stale.
  lemma FoundStayIff(s: State, e: Event)
    requires Inv(s) && Enabled(s, e) && FoundStay(s)
    ensures FoundStay(Apply(s, e)) <==> !EvictsFound(s, e)
  {
    hide PassStands, PassOk, SumFound;
  }

  ghost predicate NoneEvicted(s: State, es: seq<Event>)
    requires Runs(s, es)
    decreases |es|
  {
    es == [] || (!EvictsFound(s, es[0]) && NoneEvicted(Apply(s, es[0]), es[1..]))
  }

  lemma {:induction false} RunKeepsFound(s: State, es: seq<Event>)
    requires Inv(s) && Runs(s, es) && FoundStay(s) && NoneEvicted(s, es)
    ensures FoundStay(After(s, es))
    decreases |es|
  {
    hide Inv, Enabled, Apply, FoundStay, EvictsFound;
    if es != [] {
      FoundStayIff(s, es[0]);
      StepKeepsInv(s, es[0]);
      RunKeepsFound(Apply(s, es[0]), es[1..]);
    }
  }

  lemma {:induction false} FoundWithinPresent(refs: seq<ObjRef>, found: seq<bool>, present: set<Ptr>)
    requires |found| == |refs| && forall i :: 0 <= i < |found| && found[i] ==> refs[i].ptr in present
    ensures SumFound(refs, found) <= PresentSum(refs, present)
    decreases |refs|
  {
    if refs != [] {
      var n := |refs| - 1;
      FoundWithinPresent(refs[..n], found[..n], present);
      SumOfPrefix(refs, found[..n], n);
    }
  }

  lemma {:induction false} SumOfPrefix(refs: seq<ObjRef>, found: seq<bool>, n: nat)
    requires |found| <= n <= |refs|
    ensures SumFound(refs[..n], found) == SumFound(refs, found)
    decreases |found|
  {
    if found != [] {
      SumOfPrefix(refs, found[..|found| - 1], n);
    }
  }

  // From the moment a scan takes the mutex, while none of the objects it has counted is evicted, what it
  // stores is the rest of the cache, without wrapping, if the objects present then fit into it.
  lemma ScanIsRight(s: State, before: seq<Event>, es: seq<Event>)
    requires Init(s) && Runs(s, before) && Enabled(After(s, before), MemoryLock)
    requires var locked := Apply(After(s, before), MemoryLock); Runs(locked, es) && NoneEvicted(locked, es)
    requires var n := After(Apply(After(s, before), MemoryLock), es);
             n.memory.Stored? && PresentSum(n.refs, n.present) <= s.cacheSize < WORD
    ensures var n := After(Apply(After(s, before), MemoryLock), es);
            |n.foundPresent| == |n.refs| && n.available == s.cacheSize - SumFound(n.refs, n.foundPresent)
  {
    InitInv(s);
    RunKeepsInv(s, before);
    var locked := Apply(After(s, before), MemoryLock);
    StepKeepsInv(After(s, before), MemoryLock);
    assert FoundStay(locked) && locked.cacheSize == s.cacheSize;
    RunKeepsInv(locked, es);
    RunKeepsFound(locked, es);
    var n := After(locked, es);
    assert |n.foundPresent| == |n.refs|;
    FoundWithinPresent(n.refs, n.foundPresent, n.present);
    hide Inv, PassOk, PassStands, MutexOk, SumFound, PresentSum, Enabled, Apply, Runs, NoneEvicted;
  }

  // ---------- a scan that is wrong ----------

  // Whatever is present, it never takes more than so much.
  ghost predicate StaysWithin(s: State, es: seq<Event>, limit: nat)
    requires Runs(s, es)
    decreases |es|
  {
    PresentSum(s.refs, s.present) <= limit && (es == [] || StaysWithin(Apply(s, es[0]), es[1..], limit))
  }

  lemma Before(s: State, e: Event, es: seq<Event>, limit: nat)
    requires Enabled(s, e) && Runs(Apply(s, e), es) && StaysWithin(Apply(s, e), es, limit)
    requires PresentSum(s.refs, s.present) <= limit
    ensures Runs(s, [e] + es) && After(s, [e] + es) == After(Apply(s, e), es) && StaysWithin(s, [e] + es, limit)
  {
    assert ([e] + es)[1..] == es;
  }

  const A: ObjRef := ObjRef(0, 600)
  const B: ObjRef := ObjRef(1, 600)

  // Two objects of 600 bytes in a cache of 1024, registered by thread 0.
  function At600(
      refs: seq<ObjRef>, present: set<Ptr>, available: nat, holder: Option<Who>, memory: MemoryPc, pc: RegisterPc,
      found: seq<bool>): State
  {
    State(1024, 103, refs, present, available, holder, Resting, memory, map[0 := pc], Pass(0, [], [], {}), found)
  }

  lemma OneAtATime(refs: seq<ObjRef>, present: set<Ptr>)
    requires refs == [] || refs == [A] || refs == [A, B]
    requires !(0 in present && 1 in present)
    ensures PresentSum(refs, present) <= 600
  {
    assert [A, B][..1] == [A] && [A][..0] == [];
    assert PresentSum([], present) == 0 && PresentSum([A], present) <= 600;
  }

  // One step of such a run, put in front.
  lemma Step600(s: State, e: Event, s': State, es: seq<Event>)
    requires Enabled(s, e) && Apply(s, e) == s' && Runs(s', es) && StaysWithin(s', es, 600)
    requires s.refs == [] || s.refs == [A] || s.refs == [A, B]
    requires !(0 in s.present && 1 in s.present)
    ensures Runs(s, [e] + es) && After(s, [e] + es) == After(s', es) && StaysWithin(s, [e] + es, 600)
  {
    OneAtATime(s.refs, s.present);
    hide Apply, Enabled, PresentSum;
    Before(s, e, es, 600);
  }

  function Scanning(present: set<Ptr>, memory: MemoryPc, found: seq<bool>): State {
    At600([A, B], present, 0, Some(TheMemory), memory, Out, found)
  }

  lemma SecondCount() returns (es: seq<Event>)
    ensures var s := Scanning({1}, Adding(1, 600), [true]);
            && Runs(s, es) && StaysWithin(s, es, 600)
            && After(s, es).memory.Stored? && After(s, es).available == WORD - 176
  {
    var s1, s2, s3 := Scanning({1}, Adding(1, 600), [true]), Scanning({1}, Adding(2, 1200), [true, true]),
                      Scanning({1}, Storing(1200), [true, true]);
    var s4 := s3.(memory := Stored, available := WORD - 176);
    assert Apply(s1, MemoryAdd) == s2 && Apply(s2, MemoryAdd) == s3 && Apply(s3, MemoryStore) == s4;
    OneAtATime([A, B], {1});
    hide Apply, PresentSum;
    assert Runs(s4, []) && StaysWithin(s4, [], 600);
    Step600(s3, MemoryStore, s4, []);
    Step600(s2, MemoryAdd, s3, [MemoryStore] + []);
    es := [MemoryAdd] + ([MemoryStore] + []);
    Step600(s1, MemoryAdd, s2, es);
    es := [MemoryAdd] + es;
  }

  // The scan counts the first, which is then evicted to make room for the second, and counts that too.
  lemma DoubleCount() returns (es: seq<Event>)
    ensures var s := At600([A, B], {0}, 0, None, Asleep, Out, []);
            && Runs(s, es) && StaysWithin(s, es, 600)
            && After(s, es).memory.Stored? && After(s, es).available == WORD - 176
  {
    var s0 := At600([A, B], {0}, 0, None, Asleep, Out, []);
    var s1, s2, s3 := Scanning({0}, Adding(0, 0), []), Scanning({0}, Adding(1, 600), [true]),
                      Scanning({}, Adding(1, 600), [true]);
    var s4 := Scanning({1}, Adding(1, 600), [true]);
    assert Apply(s0, MemoryLock) == s1 && Apply(s1, MemoryAdd) == s2;
    assert Apply(s2, Evict(0)) == s3 && Apply(s3, Arrive(1)) == s4;
    hide Apply, PresentSum;
    es := SecondCount();
    Step600(s3, Arrive(1), s4, es);
    es := [Arrive(1)] + es;
    Step600(s2, Evict(0), s3, es);
    es := [Evict(0)] + es;
    Step600(s1, MemoryAdd, s2, es);
    es := [MemoryAdd] + es;
    Step600(s0, MemoryLock, s1, es);
    es := [MemoryLock] + es;
  }

  // The registration of one more object.
  lemma Register600(s: State, ref: ObjRef, s': State, es: seq<Event>) returns (all: seq<Event>)
    requires s.holder.None? && At(s, 0).Out? && s.present == {}
    requires s' == s.(refs := s.refs + [ref], registrars := map[0 := Out]) && s.registrars.Keys <= {0}
    requires (s.refs == [] && ref == A) || (s.refs == [A] && ref == B)
    requires Runs(s', es) && StaysWithin(s', es, 600)
    ensures Runs(s, all) && StaysWithin(s, all, 600) && After(s, all) == After(s', es)
  {
    var me := Some(Registrar(0));
    var s1 := s.(holder := me, registrars := map[0 := Pushing(ref)]);
    var s2 := s1.(refs := s.refs + [ref], registrars := map[0 := Pushed]);
    assert Apply(s, RegisterLock(0, ref)) == s1 && Apply(s1, RegisterPush(0)) == s2;
    assert Apply(s2, RegisterUnlock(0)) == s';
    hide Apply;
    all := [RegisterUnlock(0)] + es;
    Step600(s2, RegisterUnlock(0), s', es);
    Step600(s1, RegisterPush(0), s2, all);
    all := [RegisterPush(0)] + all;
    Step600(s, RegisterLock(0, ref), s1, all);
    all := [RegisterLock(0, ref)] + all;
  }

  // From the start: the objects present never take more than 600 of 1024 bytes, and the memory thread
  // stores 2^64 - 176.
  lemma EvictionWrapsTheScan() returns (s: State, es: seq<Event>)
    ensures Init(s) && s.cacheSize == 1024 && Runs(s, es) && StaysWithin(s, es, 600)
    ensures After(s, es).memory.Stored? && After(s, es).available == WORD - 176
  {
    s := At600([], {}, 0, None, Asleep, Out, []).(registrars := map[]);
    var s1, s2, s3 := At600([A], {}, 0, None, Asleep, Out, []), At600([A, B], {}, 0, None, Asleep, Out, []),
                      At600([A, B], {0}, 0, None, Asleep, Out, []);
    assert Apply(s2, Arrive(0)) == s3 && [A] + [B] == [A, B];
    hide Apply;
    es := DoubleCount();
    Step600(s2, Arrive(0), s3, es);
    es := [Arrive(0)] + es;
    es := Register600(s1, B, s2, es);
    es := Register600(s, A, s1, es);
  }
}
