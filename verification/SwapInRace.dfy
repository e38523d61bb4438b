/**
 Any number of threads racing through swap_in (aifm_changes/manager.cpp), one shared access per
 step, against the collector's swap-outs and the mutators' stores.  Each pointer has a word of its
 own, and the words of a shared ring are set one after the other; ids are stable.

 The result is what modules FarMemory and Evacuation take for granted: the per-id lock and the
 second presence check make the whole of swap_in look like one atomic step.
 */
module SwapInRace {

  import opened Regions
  import opened FarMemory

  type Id = nat

  datatype Pc =
    | Out
    | Wanting(id: Id, p: Ptr)     // has read the id of p and found p absent
    | Checking(id: Id, p: Ptr)    // holds the object lock, before the second check
    | Allocating(id: Id)
    | Reading(id: Id, addr: nat)  // before the device read
    | Binding(id: Id, addr: nat)  // before set_present on any alias
    | Paying(id: Id, addr: nat)   // some alias is set; before the ref count is paid back
    | Leaving(id: Id)             // before the unlock

  // A local object.
  datatype Copy = Copy(id: Id, data: Bytes)

  datatype State = State(
    ring: map<Ptr, Id>,     // which object each pointer refers to
    words: map<Ptr, nat>,   // the address in each present pointer's word
    dirty: set<Ptr>,        // the present pointers whose D bit is set
    at: map<Id, nat>,       // where the object is that the first alias was bound to (history)
    heap: map<nat, Copy>,
    dev: map<Id, Bytes>,
    locks: map<Id, Tid>,    // the object locks that are held
    pcs: map<Tid, Pc>,
    unpaid: set<nat>,       // objects allocated and not yet paid back
    refCnt: int,            // the sum of the regions' ref counts
    allocations: map<Id, nat>,  // by id: local allocations,
    deviceReads: map<Id, nat>,  // device reads
    arrivals: map<Id, nat>)     // and absent-to-present transitions

  function At(s: State, t: Tid): Pc {
    if t in s.pcs then s.pcs[t] else Out
  }

  function Count(m: map<Id, nat>, id: Id): nat {
    if id in m then m[id] else 0
  }

  datatype Event =
    | Call(t: Tid, id: Id, p: Ptr)
    | Lock(t: Tid)
    | Check(t: Tid)
    | Allocate(t: Tid, addr: nat)
    | Read(t: Tid)
    | Bind(t: Tid, p: Ptr)      // set_present on the first alias
    | BindNext(t: Tid, p: Ptr)  // and on a further one; traverse visits each once
    | Pay(t: Tid)
    | Unlock(t: Tid)
    | SwapOut(id: Id)                     // the collector, under the object lock
    | Store(id: Id, p: Ptr, data: Bytes)  // a mutator's write through a present pointer

  predicate Refers(s: State, p: Ptr, id: Id) {
    p in s.ring && s.ring[p] == id
  }

  predicate RingIsBound(s: State, id: Id) {
    forall p :: p in s.ring && s.ring[p] == id ==> p in s.words
  }

  predicate Enabled(s: State, e: Event) {
    match e
    case Call(t, id, p) => At(s, t).Out? && id in s.dev && Refers(s, p, id)
    case Lock(t) => At(s, t).Wanting? && At(s, t).id !in s.locks
    case Check(t) => At(s, t).Checking?
    case Allocate(t, addr) => At(s, t).Allocating? && addr !in s.heap
    case Read(t) => At(s, t).Reading?
    case Bind(t, p) => At(s, t).Binding? && Refers(s, p, At(s, t).id)
    case BindNext(t, p) => At(s, t).Paying? && Refers(s, p, At(s, t).id) && p !in s.words
    case Pay(t) => At(s, t).Paying? && RingIsBound(s, At(s, t).id)
    case Unlock(t) => At(s, t).Leaving?
    case SwapOut(id) => id in s.at && s.at[id] in s.heap && id !in s.locks
    case Store(id, p, _) => Refers(s, p, id) && p in s.words && s.words[p] in s.heap
  }

  // Where the step leaves its own thread.
  function Next(s: State, e: Event): Pc
    requires Enabled(s, e) && !e.SwapOut? && !e.Store?
  {
    match e
    case Call(t, id, p) => if p in s.words then Out else Wanting(id, p)
    case Lock(t) => Checking(At(s, t).id, At(s, t).p)
    case Check(t) => if At(s, t).p in s.words then Leaving(At(s, t).id) else Allocating(At(s, t).id)
    case Allocate(t, addr) => Reading(At(s, t).id, addr)
    case Read(t) => Binding(At(s, t).id, At(s, t).addr)
    case Bind(t, p) => Paying(At(s, t).id, At(s, t).addr)
    case BindNext(t, p) => At(s, t)
    case Pay(t) => Leaving(At(s, t).id)
    case Unlock(t) => Out
  }

  function Pcs(s: State, e: Event): map<Tid, Pc>
    requires Enabled(s, e)
  {
    if e.SwapOut? || e.Store? then s.pcs else s.pcs[e.t := Next(s, e)]
  }

  function Words(s: State, e: Event): map<Ptr, nat>
    requires Enabled(s, e)
  {
    match e
    case Bind(t, p) => s.words[p := At(s, t).addr]
    case BindNext(t, p) => s.words[p := At(s, t).addr]
    case SwapOut(id) => map p | p in s.words && !Refers(s, p, id) :: s.words[p]
    case _ => s.words
  }

  function Places(s: State, e: Event): map<Id, nat>
    requires Enabled(s, e)
  {
    match e
    case Bind(t, p) => s.at[At(s, t).id := At(s, t).addr]
    case SwapOut(id) => s.at - {id}
    case _ => s.at
  }

  function Heap(s: State, e: Event): map<nat, Copy>
    requires Enabled(s, e)
  {
    match e
    case Allocate(t, addr) => s.heap[addr := Copy(At(s, t).id, [])]
    case Read(t) => s.heap[At(s, t).addr := Copy(At(s, t).id, if At(s, t).id in s.dev then s.dev[At(s, t).id] else [])]
    case Store(id, p, data) => s.heap[s.words[p] := Copy(id, data)]
    case _ => s.heap
  }

  // set_present leaves a pointer clean, and a write through it makes it dirty.
  function Dirty(s: State, e: Event): set<Ptr>
    requires Enabled(s, e)
  {
    match e
    case Bind(t, p) => s.dirty - {p}
    case BindNext(t, p) => s.dirty - {p}
    case SwapOut(id) => set p | p in s.dirty && !Refers(s, p, id)
    case Store(id, p, data) => s.dirty + {p}
    case _ => s.dirty
  }

  // Whether a write through any alias is to be kept.
  predicate AnyDirty(s: State, id: Id) {
    exists p :: p in s.dirty && Refers(s, p, id)
  }

  // A swap-out writes a dirty object back and drops a clean one.
  function Device(s: State, e: Event): map<Id, Bytes>
    requires Enabled(s, e)
  {
    if e.SwapOut? && AnyDirty(s, e.id) then s.dev[e.id := s.heap[s.at[e.id]].data] else s.dev
  }

  function Locks(s: State, e: Event): map<Id, Tid>
    requires Enabled(s, e)
  {
    match e
    case Lock(t) => s.locks[At(s, t).id := t]
    case Unlock(t) => s.locks - {At(s, t).id}
    case _ => s.locks
  }

  function Debts(s: State, e: Event): (set<nat>, int)
    requires Enabled(s, e)
  {
    match e
    case Allocate(t, addr) => (s.unpaid + {addr}, s.refCnt + 1)
    case Pay(t) => (s.unpaid - {At(s, t).addr}, s.refCnt - 1)
    case _ => (s.unpaid, s.refCnt)
  }

  function Plus(m: map<Id, nat>, id: Id): map<Id, nat> {
    m[id := Count(m, id) + 1]
  }

  function Apply(s: State, e: Event): State
    requires Enabled(s, e)
  {
    State(
      s.ring, Words(s, e), Dirty(s, e), Places(s, e), Heap(s, e), Device(s, e), Locks(s, e), Pcs(s, e),
      Debts(s, e).0, Debts(s, e).1,
      if e.Allocate? then Plus(s.allocations, At(s, e.t).id) else s.allocations,
      if e.Read? then Plus(s.deviceReads, At(s, e.t).id) else s.deviceReads,
      if e.Bind? then Plus(s.arrivals, At(s, e.t).id) else s.arrivals)
  }

  // ---------- the invariant ----------

  // A present object that no alias wrote to equals its device copy.
  ghost predicate CleanOk(s: State, id: Id) {
    id in s.at && s.at[id] in s.heap && id in s.dev && !AnyDirty(s, id) ==> s.heap[s.at[id]].data == s.dev[id]
  }

  // Only a present pointer can be dirty.
  ghost predicate DirtyOk(s: State) {
    forall p :: p in s.dirty ==> p in s.words
  }

  // t holds the lock of id.
  predicate Inside(s: State, t: Tid, id: Id) {
    var pc := At(s, t);
    !pc.Out? && !pc.Wanting? && pc.id == id
  }

  // t works on an object it allocated and has not paid back.
  predicate Owes(s: State, t: Tid, addr: nat) {
    var pc := At(s, t);
    (pc.Reading? || pc.Binding? || pc.Paying?) && pc.addr == addr
  }

  ghost predicate LocksOk(s: State) {
    forall t, id :: Inside(s, t, id) <==> id in s.locks && s.locks[id] == t
  }

  // What the thread inside relies on.
  ghost predicate InsideOk(s: State, t: Tid) {
    match At(s, t)
    case Allocating(id) => id !in s.at
    case Reading(id, a) => id !in s.at && a in s.heap
    case Binding(id, a) => id !in s.at && id in s.dev && a in s.heap && s.heap[a] == Copy(id, s.dev[id])
    case Paying(id, a) => id in s.at && s.at[id] == a
    case _ => true
  }

  // A present pointer is bound to an object of its own id, and no two ids to the same one.
  ghost predicate PlacesOk(s: State) {
    && (forall id :: id in s.at ==> id in s.dev && s.at[id] in s.heap && s.heap[s.at[id]].id == id)
    && (forall t, a :: Owes(s, t, a) ==> a in s.heap && s.heap[a].id == At(s, t).id)
  }

  ghost predicate DebtsOk(s: State) {
    && (forall a :: a in s.unpaid <==> exists t :: Owes(s, t, a))
    && (forall t, u, a :: Owes(s, t, a) && Owes(s, u, a) ==> t == u)
    && s.refCnt == |s.unpaid|
  }

  // Whether an allocation, or a read, for id is ahead of its arrival.
  ghost predicate Allocated(s: State, id: Id) {
    id in s.locks && var pc := At(s, s.locks[id]); (pc.Reading? || pc.Binding?) && pc.id == id
  }

  ghost predicate HasRead(s: State, id: Id) {
    id in s.locks && var pc := At(s, s.locks[id]); pc.Binding? && pc.id == id
  }

  ghost predicate CountsOk(s: State, id: Id) {
    && Count(s.allocations, id) == Count(s.arrivals, id) + (if Allocated(s, id) then 1 else 0)
    && Count(s.deviceReads, id) == Count(s.arrivals, id) + (if HasRead(s, id) then 1 else 0)
  }

  ghost predicate IdsOk(s: State) {
    forall t :: At(s, t).Out? ||
      (At(s, t).id in s.dev && (At(s, t).Wanting? || At(s, t).Checking? ==> Refers(s, At(s, t).p, At(s, t).id)))
  }

  // A thread is on its way round the ring of id.
  ghost predicate HalfBound(s: State, id: Id) {
    id in s.locks && At(s, s.locks[id]).Paying? && At(s, s.locks[id]).id == id
  }

  // A present pointer holds the one address of its object; an absent one has an absent object, or
  // a thread is about to set it.
  ghost predicate WordOk(s: State, p: Ptr) {
    && (p in s.words ==> p in s.ring && s.ring[p] in s.at && s.words[p] == s.at[s.ring[p]])
    && (p in s.ring && p !in s.words && s.ring[p] in s.at ==> HalfBound(s, s.ring[p]))
  }

  ghost predicate Inv(s: State) {
    && DirtyOk(s) && (forall id :: CleanOk(s, id)) && (forall p :: WordOk(s, p))
    && IdsOk(s) && LocksOk(s) && PlacesOk(s) && DebtsOk(s)
    && (forall t :: InsideOk(s, t)) && (forall id :: CountsOk(s, id))
  }

  ghost predicate Init(s: State) {
    && s.words == map[] && s.dirty == {} && s.at == map[] && s.heap == map[]
    && s.locks == map[] && s.pcs == map[] && s.unpaid == {} && s.refCnt == 0
    && s.allocations == map[] && s.deviceReads == map[] && s.arrivals == map[]
  }

  lemma InitInv(s: State)
    requires Init(s)
    ensures Inv(s)
  {
  }

  // Only its own thread moves.
  predicate Moves(e: Event, t: Tid) {
    !e.SwapOut? && !e.Store? && e.t == t
  }

  lemma OthersStay(s: State, e: Event, u: Tid)
    requires Enabled(s, e) && !Moves(e, u)
    ensures At(Apply(s, e), u) == At(s, u)
  {
  }

  lemma LocksStep(s: State, e: Event)
    requires Inv(s) && Enabled(s, e)
    ensures LocksOk(Apply(s, e))
  {
    hide PlacesOk, DebtsOk, InsideOk, CountsOk;
    var s' := Apply(s, e);
    forall t, id ensures Inside(s', t, id) <==> id in s'.locks && s'.locks[id] == t {
      assert Inside(s, t, id) <==> id in s.locks && s.locks[id] == t;
      if !Moves(e, t) {
        OthersStay(s, e, t);
        assert !e.SwapOut? && !e.Store? ==> (Inside(s, e.t, id) <==> id in s.locks && s.locks[id] == e.t);
      }
    }
  }

  // A thread keeps its id from the call to the unlock.
  lemma OwnId(s: State, e: Event, t: Tid)
    requires Enabled(s, e) && Moves(e, t)
    ensures var pc, pc' := At(s, t), At(Apply(s, e), t);
            pc'.Out? || (if pc.Out? then e.Call? && pc'.id == e.id && e.id in s.dev else pc'.id == pc.id)
    ensures var pc, pc' := At(s, t), At(Apply(s, e), t);
            && (pc'.Wanting? ==> Refers(s, pc'.p, pc'.id) || pc == pc')
            && (pc'.Checking? ==> pc.Wanting? && pc'.p == pc.p)
  {
  }

  lemma DeviceKeeps(s: State, e: Event, id: Id)
    requires Enabled(s, e) && id in s.dev
    ensures id in Apply(s, e).dev
  {
  }

  lemma RingStays(s: State, e: Event)
    requires Enabled(s, e)
    ensures Apply(s, e).ring == s.ring
  {
  }

  lemma IdsStep(s: State, e: Event)
    requires IdsOk(s) && Enabled(s, e)
    ensures IdsOk(Apply(s, e))
  {
    forall t
      ensures var s' := Apply(s, e);
              At(s', t).Out?
              || (At(s', t).id in s'.dev && (At(s', t).Wanting? || At(s', t).Checking?
                  ==> Refers(s', At(s', t).p, At(s', t).id)))
    {
      assert At(s, t).Out? || At(s, t).id in s.dev;
      if !Moves(e, t) {
        OthersStay(s, e, t);
      } else {
        OwnId(s, e, t);
      }
      RingStays(s, e);
      hide Apply, Enabled, At;
      if !At(Apply(s, e), t).Out? {
        DeviceKeeps(s, e, At(Apply(s, e), t).id);
      }
    }
  }

  // Two threads inside are inside different locks and own different objects.
  lemma Apart(s: State, t: Tid, u: Tid)
    requires LocksOk(s) && DebtsOk(s) && t != u
    ensures forall id :: !(Inside(s, t, id) && Inside(s, u, id))
    ensures forall a :: !(Owes(s, t, a) && Owes(s, u, a))
  {
  }

  // What e may change of what thread t relies on while another thread, or the collector, moves.
  ghost predicate Spared(s: State, s': State, t: Tid) {
    var pc := At(s, t);
    && (forall id :: Inside(s, t, id) ==>
          && (id in s'.at <==> id in s.at) && (id in s.at && id in s'.at ==> s'.at[id] == s.at[id])
          && (!pc.Paying? && id in s.dev ==> id in s'.dev && s'.dev[id] == s.dev[id]))
    && (forall a :: Owes(s, t, a) && a in s.heap ==> a in s'.heap && (pc.Paying? || s'.heap[a] == s.heap[a]))
  }

  lemma SparedByNew(s: State, e: Event, t: Tid)
    requires Enabled(s, e) && e.Allocate?
    ensures Spared(s, Apply(s, e), t)
  {
    hide Words, Dirty, Pcs, Next, Debts, Locks;
  }

  lemma SparedByRead(s: State, e: Event, t: Tid)
    requires LocksOk(s) && DebtsOk(s) && Enabled(s, e) && e.Read? && t != e.t
    ensures Spared(s, Apply(s, e), t)
  {
    Apart(s, t, e.t);
    assert Owes(s, e.t, At(s, e.t).addr);
    hide LocksOk, DebtsOk, Words, Dirty, Pcs, Next, Debts, Locks;
  }

  lemma SparedByBind(s: State, e: Event, t: Tid)
    requires LocksOk(s) && DebtsOk(s) && Enabled(s, e) && e.Bind? && t != e.t
    ensures Spared(s, Apply(s, e), t)
  {
    Apart(s, t, e.t);
    assert Inside(s, e.t, At(s, e.t).id);
    hide LocksOk, DebtsOk, Words, Dirty, Pcs, Next, Debts, Locks;
  }

  lemma SparedByThreads(s: State, e: Event, t: Tid)
    requires LocksOk(s) && PlacesOk(s) && DebtsOk(s) && Enabled(s, e) && !Moves(e, t) && !e.SwapOut? && !e.Store?
    ensures Spared(s, Apply(s, e), t)
  {
    if e.Allocate? {
      SparedByNew(s, e, t);
    } else if e.Read? {
      SparedByRead(s, e, t);
    } else if e.Bind? {
      SparedByBind(s, e, t);
    } else {
      hide LocksOk, PlacesOk, DebtsOk, Words, Dirty, Pcs, Next, Debts, Locks;
    }
  }

  lemma SparedByOthers(s: State, e: Event, t: Tid)
    requires LocksOk(s) && PlacesOk(s) && Enabled(s, e) && InsideOk(s, t) && (e.SwapOut? || e.Store?)
    requires e.Store? ==> WordOk(s, e.p)
    ensures Spared(s, Apply(s, e), t)
  {
  }

  lemma InsideOther(s: State, e: Event, t: Tid)
    requires Inv(s) && Enabled(s, e) && !Moves(e, t)
    ensures InsideOk(Apply(s, e), t)
  {
    hide LocksOk, DebtsOk, CountsOk, PlacesOk, Apply, Enabled;
    assert InsideOk(s, t);
    OthersStay(s, e, t);
    if e.SwapOut? || e.Store? {
      SparedByOthers(s, e, t);
    } else {
      SparedByThreads(s, e, t);
    }
    var pc := At(s, t);
    assert !pc.Out? && !pc.Wanting? ==> Inside(s, t, pc.id);
    assert pc.Reading? || pc.Binding? || pc.Paying? ==> Owes(s, t, pc.addr);
  }

  lemma InsideStep(s: State, e: Event, t: Tid)
    requires Inv(s) && Enabled(s, e)
    ensures InsideOk(Apply(s, e), t)
  {
    if !Moves(e, t) {
      InsideOther(s, e, t);
    } else {
      assert InsideOk(s, t);
      assert At(s, t).Out? || At(s, t).id in s.dev;
      if e.Check? {
        assert WordOk(s, At(s, t).p) && Inside(s, t, At(s, t).id);
      }
      hide LocksOk, DebtsOk, CountsOk, PlacesOk, IdsOk;
    }
  }

  lemma OwedStays(s: State, e: Event, t: Tid, a: nat)
    requires Inv(s) && Enabled(s, e) && Owes(Apply(s, e), t, a)
    ensures var s' := Apply(s, e); a in s'.heap && s'.heap[a].id == At(s', t).id
  {
    hide LocksOk, DebtsOk, CountsOk, InsideOk;
    if !Moves(e, t) {
      OthersStay(s, e, t);
      assert Owes(s, t, a);
      assert e.Read? ==> Owes(s, e.t, At(s, e.t).addr);
      assert e.Store? ==> WordOk(s, e.p);
    } else {
      assert e.Allocate? || Owes(s, t, a);
    }
  }

  lemma PresentStays(s: State, e: Event, id: Id)
    requires Inv(s) && Enabled(s, e) && id in Apply(s, e).at
    ensures var s' := Apply(s, e);
            id in s'.dev && s'.at[id] in s'.heap && s'.heap[s'.at[id]].id == id
  {
    if !e.SwapOut? && !e.Store? {
      assert InsideOk(s, e.t);
      assert e.Read? || e.Bind? ==> Owes(s, e.t, At(s, e.t).addr);
    } else if e.Store? {
      assert WordOk(s, e.p);
    }
    hide DebtsOk, CountsOk, LocksOk, IdsOk, WordOk, RingIsBound;
  }

  lemma PlacesStep(s: State, e: Event)
    requires Inv(s) && Enabled(s, e)
    ensures PlacesOk(Apply(s, e))
  {
    var s' := Apply(s, e);
    forall t, a | Owes(s', t, a) ensures a in s'.heap && s'.heap[a].id == At(s', t).id {
      OwedStays(s, e, t, a);
    }
    forall id | id in s'.at ensures id in s'.dev && s'.at[id] in s'.heap && s'.heap[s'.at[id]].id == id {
      PresentStays(s, e, id);
    }
  }

  // Who owes what changes by an allocation, which adds one debt, and by its payment.
  lemma OwesStep(s: State, e: Event, t: Tid, a: nat)
    requires Enabled(s, e)
    ensures var s' := Apply(s, e);
            Owes(s', t, a) <==>
              if e.Allocate? && e.t == t then e.addr == a
              else Owes(s, t, a) && !(e.Pay? && e.t == t)
  {
  }

  lemma DebtFacts(s: State, e: Event)
    requires Enabled(s, e)
    ensures var s' := Apply(s, e);
            && (e.Allocate? ==> e.addr !in s.heap && s'.unpaid == s.unpaid + {e.addr} && s'.refCnt == s.refCnt + 1)
            && (e.Pay? ==> At(s, e.t).Paying? && Owes(s, e.t, At(s, e.t).addr)
                           && s'.unpaid == s.unpaid - {At(s, e.t).addr} && s'.refCnt == s.refCnt - 1)
            && (!e.Allocate? && !e.Pay? ==> s'.unpaid == s.unpaid && s'.refCnt == s.refCnt)
            && (e.Allocate? ==> !Owes(s, e.t, e.addr) && forall a :: !Owes(s, e.t, a))
            && (e.Pay? ==> forall a :: Owes(s, e.t, a) ==> a == At(s, e.t).addr)
  {
  }

  // How the debts of all threads together change.
  lemma DebtsMove(s: State, s': State, e: Event)
    requires DebtsOk(s) && (e.Allocate? ==> e.addr !in s.unpaid)
              && (e.Pay? ==> At(s, e.t).Paying? && Owes(s, e.t, At(s, e.t).addr))
    requires forall t, a :: Owes(s', t, a) <==>
                              if e.Allocate? && e.t == t then e.addr == a else Owes(s, t, a) && !(e.Pay? && e.t == t)
    requires e.Allocate? ==>
              && (forall a :: !Owes(s, e.t, a)) && s'.unpaid == s.unpaid + {e.addr}
              && s'.refCnt == s.refCnt + 1
    requires e.Pay? ==> (forall a :: Owes(s, e.t, a) ==> a == At(s, e.t).addr)
                        && s'.unpaid == s.unpaid - {At(s, e.t).addr} && s'.refCnt == s.refCnt - 1
    requires !e.Allocate? && !e.Pay? ==> s'.unpaid == s.unpaid && s'.refCnt == s.refCnt
    ensures DebtsOk(s')
  {
    hide Owes, At;
    if e.Allocate? {
      assert Owes(s', e.t, e.addr);
    }
    forall a ensures a in s'.unpaid <==> exists t :: Owes(s', t, a) {
      if a in s.unpaid {
        var t :| Owes(s, t, a);
        assert a in s'.unpaid ==> Owes(s', t, a);
      }
    }
  }

  lemma DebtsStep(s: State, e: Event)
    requires Inv(s) && Enabled(s, e)
    ensures DebtsOk(Apply(s, e))
  {
    assert forall u, a :: Owes(s, u, a) ==> a in s.heap;
    assert forall a :: a in s.unpaid ==> a in s.heap;
    forall t, a ensures Owes(Apply(s, e), t, a) <==>
                          if e.Allocate? && e.t == t then e.addr == a
                          else Owes(s, t, a) && !(e.Pay? && e.t == t)
    {
      OwesStep(s, e, t, a);
    }
    DebtFacts(s, e);
    hide DebtsOk, CountsOk, LocksOk, InsideOk, PlacesOk, IdsOk, WordOk, Owes, Apply, At, Enabled;
    DebtsMove(s, Apply(s, e), e);
  }

  predicate For(s: State, e: Event, id: Id) {
    !e.SwapOut? && !e.Store? && !At(s, e.t).Out? && At(s, e.t).id == id
  }

  lemma TalliesStep(s: State, e: Event, id: Id)
    requires Enabled(s, e)
    ensures var s' := Apply(s, e);
            && Count(s'.allocations, id) == Count(s.allocations, id) + (if e.Allocate? && For(s, e, id) then 1 else 0)
            && Count(s'.deviceReads, id) == Count(s.deviceReads, id) + (if e.Read? && For(s, e, id) then 1 else 0)
            && Count(s'.arrivals, id) == Count(s.arrivals, id) + (if e.Bind? && For(s, e, id) then 1 else 0)
  {
  }

  lemma LockStays(s: State, e: Event, id: Id)
    requires Enabled(s, e) && !For(s, e, id)
    ensures id in Apply(s, e).locks <==> id in s.locks
    ensures id in s.locks && id in Apply(s, e).locks ==> Apply(s, e).locks[id] == s.locks[id]
  {
  }

  // Only the thread that is for id moves anything that counts for id.
  lemma AheadOther(s: State, e: Event, id: Id)
    requires LocksOk(s) && Enabled(s, e) && !For(s, e, id)
    ensures Allocated(Apply(s, e), id) <==> Allocated(s, id)
    ensures HasRead(Apply(s, e), id) <==> HasRead(s, id)
  {
    LockStays(s, e, id);
    if id in s.locks {
      assert Inside(s, s.locks[id], id);
      OthersStay(s, e, s.locks[id]);
    }
  }

  lemma AheadOwn(s: State, e: Event, id: Id)
    requires LocksOk(s) && Enabled(s, e) && For(s, e, id)
    ensures var s' := Apply(s, e);
            && (Allocated(s', id) <==> e.Allocate? || (Allocated(s, id) && !e.Bind?))
            && (HasRead(s', id) <==> e.Read? || (HasRead(s, id) && !e.Bind?))
            && (e.Allocate? ==> !Allocated(s, id))
            && (e.Read? ==> !HasRead(s, id))
            && (e.Bind? ==> Allocated(s, id) && HasRead(s, id))
  {
    assert Inside(s, e.t, id) <==> id in s.locks && s.locks[id] == e.t;
  }

  lemma CountsStep(s: State, e: Event, id: Id)
    requires Inv(s) && Enabled(s, e)
    ensures CountsOk(Apply(s, e), id)
  {
    hide LocksOk, PlacesOk, DebtsOk, InsideOk, IdsOk, Apply, Enabled, For, Allocated, HasRead, Count;
    assert CountsOk(s, id);
    TalliesStep(s, e, id);
    if For(s, e, id) {
      AheadOwn(s, e, id);
    } else {
      AheadOther(s, e, id);
    }
  }

  lemma HalfBoundOther(s: State, e: Event, id: Id)
    requires LocksOk(s) && Enabled(s, e) && !For(s, e, id)
    ensures HalfBound(s, id) ==> HalfBound(Apply(s, e), id)
  {
    LockStays(s, e, id);
    if id in s.locks {
      assert Inside(s, s.locks[id], id);
      OthersStay(s, e, s.locks[id]);
    }
  }

  // What a step does to the word of p and to the place of its object.
  lemma WordMoves(s: State, e: Event, p: Ptr)
    requires Enabled(s, e) && p in s.ring && !For(s, e, s.ring[p])
    ensures var s', id := Apply(s, e), s.ring[p];
            if e.SwapOut? && e.id == id then p !in s'.words && id !in s'.at
            else && (p in s'.words <==> p in s.words) && (p in s.words ==> s'.words[p] == s.words[p])
                 && (id in s'.at <==> id in s.at) && (id in s.at ==> s'.at[id] == s.at[id])
  {
  }

  lemma WordsStepOwn(s: State, e: Event, p: Ptr)
    requires Inv(s) && Enabled(s, e) && p in s.ring && For(s, e, s.ring[p])
    ensures WordOk(Apply(s, e), p)
  {
    var id := s.ring[p];
    assert WordOk(s, p) && InsideOk(s, e.t) && (Inside(s, e.t, id) <==> id in s.locks && s.locks[id] == e.t);
    hide LocksOk, DebtsOk, CountsOk, PlacesOk, IdsOk;
  }

  lemma StrangerStays(s: State, e: Event, p: Ptr)
    requires Enabled(s, e) && p !in s.ring && p !in s.words
    ensures p !in Apply(s, e).ring && p !in Apply(s, e).words
  {
  }

  lemma WordsStep(s: State, e: Event, p: Ptr)
    requires Inv(s) && Enabled(s, e)
    ensures WordOk(Apply(s, e), p)
  {
    assert WordOk(s, p);
    if p !in s.ring {
      StrangerStays(s, e, p);
    } else if For(s, e, s.ring[p]) {
      WordsStepOwn(s, e, p);
    } else {
      RingStays(s, e);
      WordMoves(s, e, p);
      HalfBoundOther(s, e, s.ring[p]);
      hide Apply, Enabled, For;
    }
  }

  lemma HomeIsOwn(s: State, id: Id)
    requires Inv(s) && id in s.at
    ensures s.at[id] in s.heap && s.heap[s.at[id]].id == id
  {
  }

  lemma ThreadFacts(s: State, e: Event)
    requires Inv(s) && Enabled(s, e)
    ensures e.Read? ==>
              && At(s, e.t).id !in s.at && At(s, e.t).addr in s.heap
              && s.heap[At(s, e.t).addr].id == At(s, e.t).id
    ensures e.Bind? ==> At(s, e.t).id !in s.at && At(s, e.t).id in s.dev
                        && At(s, e.t).addr in s.heap
                        && s.heap[At(s, e.t).addr] == Copy(At(s, e.t).id, s.dev[At(s, e.t).id])
  {
    if e.Read? || e.Bind? {
      assert InsideOk(s, e.t) && Owes(s, e.t, At(s, e.t).addr);
    }
  }

  lemma DirtyStep(s: State, e: Event)
    requires DirtyOk(s) && Enabled(s, e)
    ensures DirtyOk(Apply(s, e))
  {
    hide Pcs, Next, Debts, Locks, Heap, Device, Places, RingIsBound;
  }

  // Which objects a step leaves dirty.
  lemma AnyDirtyStep(s: State, e: Event, id: Id)
    requires Enabled(s, e) && DirtyOk(s)
    ensures e.Store? && e.id == id ==> AnyDirty(Apply(s, e), id)
    ensures e.Bind? && At(s, e.t).id == id && (forall p :: Refers(s, p, id) ==> p !in s.words) ==>
              !AnyDirty(Apply(s, e), id)
    ensures !(e.Store? && e.id == id) && !(e.SwapOut? && e.id == id) && !(e.Bind? && At(s, e.t).id == id) ==>
              (AnyDirty(Apply(s, e), id) <==> AnyDirty(s, id))
  {
    hide Pcs, Next, Debts, Locks, Heap, Device, Places, Words, RingIsBound;
    if e.Store? && e.id == id {
      assert e.p in Apply(s, e).dirty && Refers(Apply(s, e), e.p, id);
    }
    if AnyDirty(s, id) && !(e.SwapOut? && e.id == id) && !(e.Bind? && At(s, e.t).id == id) {
      var p :| p in s.dirty && Refers(s, p, id);
      assert p in Apply(s, e).dirty && Refers(Apply(s, e), p, id);
    }
  }

  lemma AbsentRing(s: State, id: Id, p: Ptr)
    requires Inv(s) && id !in s.at && Refers(s, p, id)
    ensures p !in s.words
  {
    assert WordOk(s, p);
  }

  // The first binding is to what the device has, and clean.
  lemma CleanBind(s: State, e: Event, id: Id)
    requires Inv(s) && Enabled(s, e) && e.Bind? && At(s, e.t).id == id
    ensures CleanOk(Apply(s, e), id)
  {
    ThreadFacts(s, e);
    forall p | Refers(s, p, id) ensures p !in s.words {
      AbsentRing(s, id, p);
    }
    AnyDirtyStep(s, e, id);
    hide Inv, WordOk, Words, Pcs, Next, Debts, Locks, RingIsBound, Dirty, AnyDirty;
  }

  lemma CleanStep(s: State, e: Event, id: Id)
    requires Inv(s) && Enabled(s, e)
    ensures CleanOk(Apply(s, e), id)
  {
    if e.Bind? && At(s, e.t).id == id {
      CleanBind(s, e, id);
    } else {
      assert CleanOk(s, id);
      AnyDirtyStep(s, e, id);
      ThreadFacts(s, e);
      if id in s.at {
        HomeIsOwn(s, id);
      }
      if e.Store? {
        assert WordOk(s, e.p);
        HomeIsOwn(s, e.id);
      }
      hide Inv, WordOk, Words, Pcs, Next, Debts, Locks, RingIsBound, Dirty, AnyDirty;
    }
  }

  lemma StepKeepsInv(s: State, e: Event)
    requires Inv(s) && Enabled(s, e)
    ensures Inv(Apply(s, e))
  {
    hide DirtyOk, CleanOk, WordOk, LocksOk, DebtsOk, CountsOk, PlacesOk, IdsOk, InsideOk, Apply, Enabled;
    forall p ensures WordOk(Apply(s, e), p) {
      WordsStep(s, e, p);
    }
    DirtyStep(s, e);
    forall id ensures CleanOk(Apply(s, e), id) {
      CleanStep(s, e, id);
    }
    IdsStep(s, e);
    LocksStep(s, e);
    PlacesStep(s, e);
    DebtsStep(s, e);
    forall t ensures InsideOk(Apply(s, e), t) {
      InsideStep(s, e, t);
    }
    forall id ensures CountsOk(Apply(s, e), id) {
      CountsStep(s, e, id);
    }
  }

  // ---------- what every interleaving guarantees ----------

  // The bytes a mutator would find behind an id.
  function Value(s: State, id: Id): Bytes {
    if id in s.at then (if s.at[id] in s.heap then s.heap[s.at[id]].data else [])
    else if id in s.dev then s.dev[id] else []
  }

  // An allocation and a read touch only an object nobody is bound to yet; the first binding is to
  // the bytes the device has.
  lemma ValueByThread(s: State, e: Event, id: Id)
    requires Inv(s) && Enabled(s, e) && !e.SwapOut? && !e.Store?
    ensures Value(Apply(s, e), id) == Value(s, id)
  {
    if id in s.at {
      HomeIsOwn(s, id);
    }
    ThreadFacts(s, e);
    hide Inv, WordOk, Words, Pcs, Next, Debts, Locks, RingIsBound, InsideOk, Owes;
  }

  lemma ValueByOthers(s: State, e: Event, id: Id)
    requires Inv(s) && Enabled(s, e) && (e.SwapOut? || e.Store?)
    ensures Value(Apply(s, e), id) == if e.Store? && e.id == id then e.data else Value(s, id)
  {
    assert e.Store? ==> WordOk(s, e.p);
    if id in s.at {
      HomeIsOwn(s, id);
    }
    HomeIsOwn(s, e.id);
    assert CleanOk(s, e.id) && e.id in s.dev;
    hide Inv, Words, Pcs, Next, Debts, Locks, RingIsBound, AnyDirty;
  }

  // Stores excepted, no step of anyone changes the value of any id.
  lemma StepKeepsValue(s: State, e: Event, id: Id)
    requires Inv(s) && Enabled(s, e)
    ensures Value(Apply(s, e), id) == if e.Store? && e.id == id then e.data else Value(s, id)
  {
    hide Inv, Enabled, Apply, Value;
    if e.SwapOut? || e.Store? {
      ValueByOthers(s, e, id);
    } else {
      ValueByThread(s, e, id);
    }
  }

  ghost predicate Runs(s: State, es: seq<Event>)
    decreases |es|
  {
    es == [] || (Enabled(s, es[0]) && Runs(Apply(s, es[0]), es[1..]))
  }

  ghost function After(s: State, es: seq<Event>): State
    requires Runs(s, es)
    decreases |es|
  {
    if es == [] then s else After(Apply(s, es[0]), es[1..])
  }

  // The value of the last store to id, if any.
  function LastStore(es: seq<Event>, id: Id, before: Bytes): Bytes
    decreases |es|
  {
    if es == [] then before
    else LastStore(es[1..], id, if es[0].Store? && es[0].id == id then es[0].data else before)
  }

  lemma {:induction false} RunKeeps(s: State, es: seq<Event>, id: Id)
    requires Inv(s) && Runs(s, es)
    ensures Inv(After(s, es)) && Value(After(s, es), id) == LastStore(es, id, Value(s, id))
    ensures After(s, es).ring == s.ring
    decreases |es|
  {
    hide Inv, Apply, Enabled, Value;
    if es != [] {
      RingStays(s, es[0]);
      StepKeepsInv(s, es[0]);
      StepKeepsValue(s, es[0], id);
      RunKeeps(Apply(s, es[0]), es[1..], id);
    }
  }

  // swap_in is idempotent under races: in every run each absent-to-present transition of an id has
  // exactly one allocation and one device read, but for the one in progress under the id's lock.
  lemma OneReadPerArrival(s: State, es: seq<Event>, id: Id)
    requires Init(s) && Runs(s, es)
    ensures var n := After(s, es);
            && Count(n.arrivals, id) <= Count(n.deviceReads, id) <= Count(n.allocations, id)
            && Count(n.allocations, id) <= Count(n.arrivals, id) + 1
            && (id !in n.locks || id in n.at
                ==> Count(n.allocations, id) == Count(n.arrivals, id) == Count(n.deviceReads, id))
  {
    InitInv(s);
    RunKeeps(s, es, id);
    var n := After(s, es);
    assert CountsOk(n, id) && (id in n.locks ==> InsideOk(n, n.locks[id]));
  }

  // Whoever finds a pointer present finds the object of its own id with the bytes last stored to it,
  // through any alias and also while a ring is half bound; two present pointers share an object
  // exactly when they refer to the same one.
  lemma PresentIsOwn(s: State, es: seq<Event>, p: Ptr, q: Ptr)
    requires Init(s) && Runs(s, es) && p in After(s, es).words && q in After(s, es).words
    ensures var n := After(s, es);
            && p in s.ring && q in s.ring && n.words[p] in n.heap
            && n.heap[n.words[p]] == Copy(s.ring[p],
                LastStore(es, s.ring[p], if s.ring[p] in s.dev then s.dev[s.ring[p]] else []))
            && (n.words[q] == n.words[p] <==> s.ring[q] == s.ring[p])
  {
    InitInv(s);
    RunKeeps(s, es, if p in s.ring then s.ring[p] else 0);
    var n := After(s, es);
    assert WordOk(n, p) && WordOk(n, q);
  }

  // When no thread holds the lock of an id, its aliases are all present or all absent.
  lemma FreeRingsAreWhole(s: State, es: seq<Event>, id: Id)
    requires Init(s) && Runs(s, es) && id !in After(s, es).locks
    ensures var n := After(s, es);
            RingIsBound(n, id) || forall p :: p in n.ring && n.ring[p] == id ==> p !in n.words
  {
    InitInv(s);
    RunKeeps(s, es, id);
    var n := After(s, es);
    forall p | p in n.ring && n.ring[p] == id ensures p in n.words <==> id in n.at {
      assert WordOk(n, p);
    }
  }

  // Every region's count is paid back: with no thread inside, the ref counts are zero.
  lemma CountsArePaid(s: State, es: seq<Event>)
    requires Init(s) && Runs(s, es) && After(s, es).locks == map[]
    ensures After(s, es).refCnt == 0 && After(s, es).unpaid == {}
  {
    InitInv(s);
    RunKeeps(s, es, 0);
    var n := After(s, es);
    forall a ensures a !in n.unpaid {
      if a in n.unpaid {
        var t :| Owes(n, t, a);
        assert Inside(n, t, At(n, t).id);
      }
    }
  }
}
