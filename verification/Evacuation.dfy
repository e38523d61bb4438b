/**
 The concurrent evacuating collector (gc_cache, wait_mutators_observation and both region walks in
 aifm_changes/manager.cpp) against any number of mutators, as a step system over far memory.

 One round: pick from-regions, mark every object in them, flip the expected status, wait until no
 scope carries the old status, write every object back, recycle the regions.  Mutator steps may
 come between any two collector steps.  A step is what the source does under one object lock, one
 spin lock or with preemption disabled.
 */
module Evacuation {
  import opened PtrMeta
  import opened Regions
  import opened FarMemory

  datatype Phase = Idle | Marking | Waiting | WritingBack

  // A raw address obtained by dereferencing ptr; `mut` if by deref_mut.
  datatype Handle = Handle(ptr: Ptr, addr: nat, mut: bool)

  datatype Scope = Scope(status: bool, held: set<Handle>)

  datatype Sys = Sys(
    mem: Mem,
    phase: Phase,
    from: set<nat>,           // regions picked and not yet recycled
    todo: set<nat>,           // objects the current walk has still to visit
    expected: bool,           // expected_status
    scopes: map<Tid, Scope>)  // the live dereference scopes

  datatype Event =
    // mutators
    | Enter(t: Tid)
    | Exit(t: Tid)
    | Deref(t: Tid, p: Ptr, mut: bool, dst: nat)
    | StoreTo(t: Tid, h: Handle, data: Bytes)
    | New(p: Ptr, shared: bool, k: Key, data: Bytes, dst: nat)
    | Share(p: Ptr, q: Ptr)
    | Renew(p: Ptr, k: Key, data: Bytes, dst: nat)
    | Drop(p: Ptr)
    | PageIn(p: Ptr, dst: nat)
    | Touch(p: Ptr, hot: bool)
    // the collector
    | Pick(regions: set<nat>)
    | MarkOne(a: nat)
    | Flip
    | EndWait
    | WriteBackOne(a: nat, nt: bool, almostEmpty: bool, room: Option<nat>)
    | RecycleOne(r: nat)
    | EndRound

  predicate ByCollector(e: Event) {
    e.Pick? || e.MarkOne? || e.Flip? || e.EndWait? || e.WriteBackOne? || e.RecycleOne? || e.EndRound?
  }

  // What the allocator returns, in any interleaving (RegionRuns.TryIsNew): an address nobody owns,
  // outside every from-region.
  predicate Fresh(s: Sys, a: nat) {
    a !in s.mem.heap && a / SIZE !in s.from
  }

  function HeapIn(m: Mem, regions: set<nat>): set<nat> {
    set a | a in m.heap && a / SIZE in regions
  }

  ghost predicate Enabled(s: Sys, e: Event) {
    match e
    case Enter(t) => t !in s.scopes
    case Exit(t) => t in s.scopes
    case Deref(t, p, _, dst) => t in s.scopes && p in s.mem.ptrs && Fresh(s, dst)
    case StoreTo(t, h, data) =>
      && t in s.scopes && h in s.scopes[t].held && h.mut
      && h.addr in s.mem.heap && |data| == |s.mem.heap[h.addr].data|
    case New(p, _, k, _, dst) => p !in s.mem.ptrs && Unused(s.mem, k) && Fresh(s, dst)
    // A new alias lives at an address that no object header still names.
    case Share(p, q) =>
      && p in s.mem.ptrs && s.mem.ptrs[p].shared && q !in s.mem.ptrs
      && (forall a :: a in s.mem.heap ==> s.mem.heap[a].owner != q)
    case Renew(p, k, _, dst) =>
      && p in s.mem.ptrs && s.mem.ptrs[p].Local? && !s.mem.ptrs[p].shared
      && s.mem.ptrs[p].addr in s.mem.heap && (Unused(s.mem, k) || k == KeyOf(s.mem, p)) && Fresh(s, dst)
    case Drop(p) => p in s.mem.ptrs && !s.mem.ptrs[p].shared
    case PageIn(p, dst) => p in s.mem.ptrs && Fresh(s, dst)
    case Touch(p, _) => p in s.mem.ptrs && s.mem.ptrs[p].Local?
    case Pick(_) => s.phase.Idle?
    case MarkOne(a) => s.phase.Marking? && a in s.todo && a in s.mem.heap
    case Flip => s.phase.Marking? && s.todo == {}
    case EndWait => s.phase.Waiting? && forall t :: t in s.scopes ==> s.scopes[t].status == s.expected
    case WriteBackOne(a, _, _, room) =>
      s.phase.WritingBack? && a in s.todo && a in s.mem.heap && (room.Some? ==> Fresh(s, room.value))
    case RecycleOne(r) => s.phase.WritingBack? && s.todo == {} && r in s.from
    case EndRound => s.phase.WritingBack? && s.todo == {} && s.from == {}
  }

  // A dereference first swaps an absent object in, or migrates an object under evacuation.
  function Reach(m: Mem, p: Ptr, dst: nat): (m': Mem)
    requires p in m.ptrs
    ensures p in m'.ptrs && m'.ptrs[p].Local?
  {
    if m.ptrs[p].Remote? then SwapIn(m, p, dst)
    else if m.ptrs[p].evac && m.ptrs[p].addr in m.heap then CopyTo(m, m.ptrs[p].addr, dst)
    else m
  }

  ghost function Apply(s: Sys, e: Event): Sys
    requires Enabled(s, e)
  {
    match e
    case Enter(t) => s.(scopes := s.scopes[t := Scope(s.expected, {})])
    case Exit(t) => s.(scopes := s.scopes - {t})
    case Deref(t, p, mut, dst) =>
      var m := Reach(s.mem, p, dst);
      var h := Handle(p, m.ptrs[p].addr, mut);
      s.(mem := if mut then DerefMut(m, p) else SetHot(m, p, true),
         scopes := s.scopes[t := s.scopes[t].(held := s.scopes[t].held + {h})])
    case StoreTo(t, h, data) => s.(mem := Store(s.mem, h.addr, data))
    case New(p, shared, k, data, dst) => s.(mem := Allocate(s.mem, p, shared, k, data, dst))
    case Share(p, q) => s.(mem := Alias(s.mem, p, q))
    case Renew(p, k, data, dst) => s.(mem := Reallocate(s.mem, p, k, data, dst))
    case Drop(p) => s.(mem := Free(s.mem, p))
    case PageIn(p, dst) => s.(mem := SwapIn(s.mem, p, dst))
    case Touch(p, hot) => s.(mem := SetHot(s.mem, p, hot))
    case Pick(regions) => s.(phase := Marking, from := regions, todo := HeapIn(s.mem, regions))
    case MarkOne(a) => s.(mem := if s.mem.heap[a].freed then s.mem else Mark(s.mem, a), todo := s.todo - {a})
    case Flip => s.(phase := Waiting, expected := !s.expected)
    case EndWait => s.(phase := WritingBack, todo := HeapIn(s.mem, s.from))
    case WriteBackOne(a, nt, almostEmpty, room) =>
      s.(mem := if s.mem.heap[a].freed then s.mem else SwapOut(s.mem, a, nt, almostEmpty, room), todo := s.todo - {a})
    case RecycleOne(r) => s.(mem := Recycled(s.mem, r), from := s.from - {r})
    case EndRound => s.(phase := Idle)
  }

  // ---------- the invariant ----------

  // Where a present pointer may point, by phase.
  ghost predicate WordOk(s: Sys, p: Ptr)
    requires p in s.mem.ptrs
  {
    var w := s.mem.ptrs[p];
    w.Local? ==>
      && (w.evac ==> w.addr / SIZE in s.from)
      && (w.addr / SIZE in s.from ==>
            match s.phase
            case Idle => false
            case Marking => w.evac <==> w.addr !in s.todo
            case Waiting => w.evac
            case WritingBack => w.evac && w.addr in s.todo)
  }

  // Whom an object's header names.
  ghost predicate ObjOk(s: Sys, a: nat)
    requires a in s.mem.heap
  {
    var o := s.mem.heap[a];
    !o.freed ==>
      if a / SIZE !in s.from || (s.phase.Marking? && a in s.todo) then IsAt(s.mem, o.owner, a)
      else (s.phase.WritingBack? && a !in s.todo) || Stale(s, o.owner, a)
  }

  // An object in a from-region is still its owner's, or its owner lives elsewhere by now.
  ghost predicate Stale(s: Sys, p: Ptr, a: nat) {
    p in s.mem.ptrs ==> s.mem.ptrs[p].Local? && (s.mem.ptrs[p].addr == a || s.mem.ptrs[p].addr / SIZE !in s.from)
  }

  ghost predicate Pointed(m: Mem, a: nat) {
    exists p :: IsAt(m, p, a)
  }

  // A held address has memory behind it; whatever still points there does so with the pointer it
  // came from, and knows that the object is dirty.
  ghost predicate HandleOk(s: Sys, h: Handle) {
    && h.addr in s.mem.heap
    && (Pointed(s.mem, h.addr) ==> IsAt(s.mem, h.ptr, h.addr) && (h.mut ==> DirtyAt(s.mem, h.addr)))
  }

  ghost predicate ScopeOk(s: Sys, t: Tid)
    requires t in s.scopes
  {
    && (forall h :: h in s.scopes[t].held ==> HandleOk(s, h))
    && (!s.phase.Waiting? ==> s.scopes[t].status == s.expected)
    // whoever entered after the flip holds no address in a from-region
    && ((s.phase.Waiting? || s.phase.WritingBack?) && s.scopes[t].status == s.expected ==>
          forall h :: h in s.scopes[t].held ==> h.addr / SIZE !in s.from)
  }

  ghost predicate TodoOk(s: Sys) {
    && (s.phase.Idle? ==> s.from == {})
    && (s.phase.Idle? || s.phase.Waiting? ==> s.todo == {})
    && forall a :: a in s.todo ==> a in s.mem.heap && a / SIZE in s.from
  }

  ghost predicate Inv(s: Sys) {
    && MemOk(s.mem) && TodoOk(s)
    && (forall p :: p in s.mem.ptrs ==> WordOk(s, p))
    && (forall a :: a in s.mem.heap ==> ObjOk(s, a))
    && (forall t :: t in s.scopes ==> ScopeOk(s, t))
  }

  ghost predicate Init(s: Sys) {
    s.mem.ptrs == map[] && s.mem.heap == map[] && s.phase == Idle && s.from == {} && s.todo == {} && s.scopes == map[]
  }

  lemma InitInv(s: Sys)
    requires Init(s)
    ensures Inv(s) && View(s.mem) == map[]
  {
  }

  // ---------- the collector's steps ----------

  // Complete evacuation: once the write-back walk is done, no live word points into a from-region.
  lemma CompleteEvacuation(s: Sys, p: Ptr)
    requires Inv(s) && s.phase.WritingBack? && s.todo == {} && p in s.mem.ptrs && s.mem.ptrs[p].Local?
    ensures s.mem.ptrs[p].addr / SIZE !in s.from
  {
  }

  // Evacuation safety: when a region is recycled, no scope holds an address in it and no word points into it.
  lemma RecycleIsSafe(s: Sys, r: nat)
    requires Inv(s) && s.phase.WritingBack? && s.todo == {} && r in s.from
    ensures forall t, h :: t in s.scopes && h in s.scopes[t].held ==> h.addr / SIZE != r
    ensures forall p :: p in s.mem.ptrs && s.mem.ptrs[p].Local? ==> s.mem.ptrs[p].addr / SIZE != r
  {
  }

  lemma PickKeeps(s: Sys, s': Sys, regions: set<nat>)
    requires Inv(s) && s.phase.Idle? && s' == s.(phase := Marking, from := regions, todo := HeapIn(s.mem, regions))
    ensures Inv(s')
  {
  }

  // A held address keeps its memory; its ring stays or leaves as one, and loses no dirt.
  ghost predicate Kept(m: Mem, m': Mem, a: nat) {
    && a in m'.heap
    && (Pointed(m', a) ==>
          && Pointed(m, a) && (DirtyAt(m, a) ==> DirtyAt(m', a))
          && forall p :: IsAt(m, p, a) ==> IsAt(m', p, a))
  }

  lemma ScopesKeep(s: Sys, s': Sys)
    requires forall t :: t in s.scopes ==> ScopeOk(s, t)
    requires s'.scopes == s.scopes && s'.phase == s.phase && s'.expected == s.expected && s'.from == s.from
    requires forall a :: a in s.mem.heap ==> Kept(s.mem, s'.mem, a)
    ensures forall t :: t in s'.scopes ==> ScopeOk(s', t)
  {
  }

  // The usual way to keep an address: the same words are there, no less dirty.
  lemma SameRing(m: Mem, m': Mem, a: nat)
    requires a in m'.heap
    requires forall p :: IsAt(m', p, a) ==> IsAt(m, p, a)
    requires forall p :: IsAt(m, p, a) ==> IsAt(m', p, a) && (m.ptrs[p].dirty ==> m'.ptrs[p].dirty)
    ensures Kept(m, m', a)
  {
  }

  lemma MarkMovesNothing(m: Mem, a: nat)
    ensures forall p, b :: IsAt(Mark(m, a), p, b) <==> IsAt(m, p, b)
    ensures forall b :: b in m.heap ==> Kept(m, Mark(m, a), b)
  {
  }

  lemma MarkOneWords(s: Sys, s': Sys, a: nat)
    requires Inv(s) && s.phase.Marking? && a in s.todo && a in s.mem.heap && !s.mem.heap[a].freed
    requires s' == s.(mem := Mark(s.mem, a), todo := s.todo - {a})
    ensures forall p :: p in s'.mem.ptrs ==> WordOk(s', p)
    ensures forall b :: b in s'.mem.heap ==> ObjOk(s', b)
  {
  }

  // The ring the walk marks is the ring of the object's owner.
  lemma MarkOneKeeps(s: Sys, s': Sys, a: nat)
    requires Inv(s) && s.phase.Marking? && a in s.todo && a in s.mem.heap && !s.mem.heap[a].freed
    requires s' == s.(mem := Mark(s.mem, a), todo := s.todo - {a})
    ensures Inv(s') && View(s'.mem) == View(s.mem) && IsAt(s.mem, s.mem.heap[a].owner, a)
  {
    assert ObjOk(s, a);
    MarkKeeps(s.mem, a);
    MarkOneWords(s, s', a);
    MarkMovesNothing(s.mem, a);
    ScopesKeep(s, s');
  }

  // A freed object has no word left: skipping it loses nothing.
  lemma SkipFreed(s: Sys, s': Sys, a: nat)
    requires Inv(s) && a in s.todo && a in s.mem.heap && s.mem.heap[a].freed
    requires s' == s.(todo := s.todo - {a})
    ensures Inv(s')
  {
  }

  lemma FlipKeeps(s: Sys, s': Sys)
    requires Inv(s) && s.phase.Marking? && s.todo == {} && s' == s.(phase := Waiting, expected := !s.expected)
    ensures Inv(s')
  {
  }

  lemma EndWaitKeeps(s: Sys, s': Sys)
    requires Inv(s) && s.phase.Waiting? && (forall t :: t in s.scopes ==> s.scopes[t].status == s.expected)
    requires s' == s.(phase := WritingBack, todo := HeapIn(s.mem, s.from))
    ensures Inv(s')
  {
    forall p | p in s'.mem.ptrs ensures WordOk(s', p) {
      assert WordOk(s, p) && PtrOk(s.mem, p);
    }
    forall a | a in s'.mem.heap ensures ObjOk(s', a) {
      assert ObjOk(s, a);
    }
    forall t | t in s'.scopes ensures ScopeOk(s', t) {
      assert ScopeOk(s, t);
    }
  }

  lemma RecycleKeeps(s: Sys, s': Sys, r: nat)
    requires Inv(s) && s.phase.WritingBack? && s.todo == {} && r in s.from
    requires s' == s.(mem := Recycled(s.mem, r), from := s.from - {r})
    ensures Inv(s') && View(s'.mem) == View(s.mem)
  {
    RecycleIsSafe(s, r);
    RecycledKeeps(s.mem, r);
    forall p | p in s'.mem.ptrs ensures WordOk(s', p) {
      assert WordOk(s, p);
    }
    forall a | a in s'.mem.heap ensures ObjOk(s', a) {
      assert ObjOk(s, a);
    }
    forall t | t in s'.scopes ensures ScopeOk(s', t) {
      assert ScopeOk(s, t);
      forall h | h in s.scopes[t].held ensures HandleOk(s', h) {
        assert HandleOk(s, h);
        SameRing(s.mem, s'.mem, h.addr);
      }
    }
  }

  lemma EndRoundKeeps(s: Sys, s': Sys)
    requires Inv(s) && s.phase.WritingBack? && s.todo == {} && s.from == {} && s' == s.(phase := Idle)
    ensures Inv(s')
  {
  }

  // ---------- the memory steps, by anyone ----------

  // swap_in, by a dereference or by the pager.
  lemma SwapInStep(s: Sys, s': Sys, p: Ptr, dst: nat)
    requires Inv(s) && p in s.mem.ptrs && s.mem.ptrs[p].Remote? && Fresh(s, dst)
    requires s' == s.(mem := SwapIn(s.mem, p, dst))
    ensures Inv(s') && View(s'.mem) == View(s.mem)
  {
    var m := s.mem;
    SwapInKeeps(m, p, dst);
    assert IsOut(m, p, KeyOf(m, p));
    forall q | q in s'.mem.ptrs ensures WordOk(s', q) {
      assert WordOk(s, q);
    }
    forall a | a in s'.mem.heap ensures ObjOk(s', a) {
      assert a == dst || ObjOk(s, a);
    }
    forall a | a in m.heap ensures Kept(m, s'.mem, a) {
      SameRing(m, s'.mem, a);
    }
    ScopesKeep(s, s');
  }

  // After a copy nothing points at the old address, and exactly its ring at the new one.
  lemma CopyMoves(m: Mem, a: nat, dst: nat)
    requires MemOk(m) && a in m.heap && dst !in m.heap
    ensures forall p, b :: b != dst ==> (IsAt(CopyTo(m, a, dst), p, b) <==> IsAt(m, p, b) && b != a)
    ensures forall p :: IsAt(CopyTo(m, a, dst), p, dst) <==> IsAt(m, p, a)
    ensures forall b :: b in m.heap ==> Kept(m, CopyTo(m, a, dst), b)
  {
  }

  // A copy out of a from-region, by the write-back walk or by a mutator's migration.
  lemma CopyWords(s: Sys, s': Sys, a: nat, dst: nat)
    requires Inv(s) && a in s.mem.heap && Fresh(s, dst) && !s.mem.heap[a].freed
    requires IsAt(s.mem, s.mem.heap[a].owner, a) && s.mem.ptrs[s.mem.heap[a].owner].evac
    requires s' == s.(mem := CopyTo(s.mem, a, dst))
    ensures forall p :: p in s'.mem.ptrs ==> WordOk(s', p)
    ensures forall b :: b in s'.mem.heap ==> ObjOk(s', b)
  {
    CopyMoves(s.mem, a, dst);
    assert WordOk(s, s.mem.heap[a].owner);
    forall q | q in s'.mem.ptrs ensures WordOk(s', q) {
      assert WordOk(s, q);
    }
    forall b | b in s'.mem.heap ensures ObjOk(s', b) {
      assert b == dst || ObjOk(s, b);
    }
  }

  lemma MigrateStep(s: Sys, s': Sys, p: Ptr, dst: nat)
    requires Inv(s) && p in s.mem.ptrs && s.mem.ptrs[p].Local? && s.mem.ptrs[p].evac && Fresh(s, dst)
    requires s.mem.ptrs[p].addr in s.mem.heap && s' == s.(mem := CopyTo(s.mem, s.mem.ptrs[p].addr, dst))
    ensures Inv(s') && View(s'.mem) == View(s.mem)
  {
    var a := s.mem.ptrs[p].addr;
    OwnerIsMarked(s, p);
    CopyKeeps(s.mem, a, dst);
    CopyMoves(s.mem, a, dst);
    CopyWords(s, s', a, dst);
    ScopesKeep(s, s');
  }

  // All aliases of an object carry E together.
  lemma OwnerIsMarked(s: Sys, p: Ptr)
    requires Inv(s) && p in s.mem.ptrs && s.mem.ptrs[p].Local? && s.mem.ptrs[p].evac
    ensures var a := s.mem.ptrs[p].addr;
            a in s.mem.heap && !s.mem.heap[a].freed && IsAt(s.mem, s.mem.heap[a].owner, a)
            && s.mem.ptrs[s.mem.heap[a].owner].evac
  {
  }

  lemma EvictMoves(m: Mem, a: nat, dirty: bool)
    requires a in m.heap
    ensures forall p, b :: IsAt(Evict(m, a, dirty), p, b) <==> IsAt(m, p, b) && b != a
    ensures forall b :: b in m.heap ==> Kept(m, Evict(m, a, dirty), b)
  {
  }

  lemma EvictWords(s: Sys, s': Sys, a: nat)
    requires Inv(s) && s.phase.WritingBack? && a in s.todo && IsAt(s.mem, s.mem.heap[a].owner, a)
    requires s' == s.(mem := Evict(s.mem, a, DirtyAt(s.mem, a)), todo := s.todo - {a})
    ensures forall p :: p in s'.mem.ptrs ==> WordOk(s', p)
    ensures forall b :: b in s'.mem.heap ==> ObjOk(s', b)
  {
  }

  lemma EvictStep(s: Sys, s': Sys, a: nat)
    requires Inv(s) && s.phase.WritingBack? && a in s.todo && a in s.mem.heap && IsAt(s.mem, s.mem.heap[a].owner, a)
    requires s' == s.(mem := Evict(s.mem, a, DirtyAt(s.mem, a)), todo := s.todo - {a})
    ensures Inv(s')
  {
    EvictKeeps(s.mem, a);
    EvictWords(s, s', a);
    EvictMoves(s.mem, a, DirtyAt(s.mem, a));
    ScopesKeep(s, s');
  }

  lemma CopyStep(s: Sys, s': Sys, a: nat, dst: nat)
    requires Inv(s) && s.phase.WritingBack? && a in s.todo && a in s.mem.heap && Fresh(s, dst)
    requires IsAt(s.mem, s.mem.heap[a].owner, a) && s.mem.ptrs[s.mem.heap[a].owner].evac
    requires s' == s.(mem := CopyTo(s.mem, a, dst), todo := s.todo - {a})
    ensures Inv(s')
  {
    var mid := s.(mem := s'.mem);
    MigrateStep(s, mid, s.mem.heap[a].owner, dst);
    CopyMoves(s.mem, a, dst);
    SkipStale(mid, s', a);
  }

  // The walk reaches a: the owner's object is copied or evicted, or its owner already lives elsewhere.
  lemma WriteBackKeeps(s: Sys, s': Sys, a: nat, nt: bool, almostEmpty: bool, room: Option<nat>)
    requires Inv(s) && s.phase.WritingBack? && a in s.todo && a in s.mem.heap && !s.mem.heap[a].freed
    requires room.Some? ==> Fresh(s, room.value)
    requires s' == s.(mem := SwapOut(s.mem, a, nt, almostEmpty, room), todo := s.todo - {a})
    ensures Inv(s') && Invisible(s.mem, s'.mem)
  {
    var o := s.mem.heap[a].owner;
    assert ObjOk(s, a);
    if o in s.mem.ptrs {
      assert WordOk(s, o);
    }
    SwapOutKeeps(s.mem, a, nt, almostEmpty, room);
    if !IsAt(s.mem, o, a) {
      SkipStale(s, s', a);
    } else if HotAt(s.mem, a) && !nt && !almostEmpty && room.Some? {
      CopyStep(s, s', a, room.value);
    } else {
      EvictStep(s, s', a);
    }
  }

  lemma SkipStale(s: Sys, s': Sys, a: nat)
    requires Inv(s) && s.phase.WritingBack? && a in s.mem.heap && !IsAt(s.mem, s.mem.heap[a].owner, a)
    requires s' == s.(todo := s.todo - {a})
    ensures Inv(s')
  {
  }

  lemma FlagStep(s: Sys, s': Sys, p: Ptr, w: Meta<nat>)
    requires Inv(s) && p in s.mem.ptrs && s.mem.ptrs[p].Local? && w.Local?
    requires var v := s.mem.ptrs[p];
             w.addr == v.addr && w.shared == v.shared && w.evac == v.evac && (v.dirty ==> w.dirty)
    requires s' == s.(mem := s.mem.(ptrs := s.mem.ptrs[p := w]))
    ensures Inv(s') && View(s'.mem) == View(s.mem)
  {
    FlagsKeep(s.mem, p, w);
    forall q | q in s'.mem.ptrs ensures WordOk(s', q) {
      assert WordOk(s, q);
    }
    forall a | a in s'.mem.heap ensures ObjOk(s', a) {
      assert ObjOk(s, a);
    }
    forall a | a in s.mem.heap ensures Kept(s.mem, s'.mem, a) {
      SameRing(s.mem, s'.mem, a);
    }
    ScopesKeep(s, s');
  }

  lemma StoreStep(s: Sys, s': Sys, a: nat, data: Bytes)
    requires Inv(s) && a in s.mem.heap && |data| == |s.mem.heap[a].data|
    requires Pointed(s.mem, a) ==> DirtyAt(s.mem, a)
    requires s' == s.(mem := Store(s.mem, a, data))
    ensures Inv(s') && View(s'.mem) == Seen(s.mem, View(s.mem), a, data)
  {
    StoreKeeps(s.mem, a, data);
    forall q | q in s'.mem.ptrs ensures WordOk(s', q) {
      assert WordOk(s, q);
    }
    forall b | b in s'.mem.heap ensures ObjOk(s', b) {
      assert ObjOk(s, b);
    }
    forall b | b in s.mem.heap ensures Kept(s.mem, s'.mem, b) {
      SameRing(s.mem, s'.mem, b);
    }
    ScopesKeep(s, s');
  }

  lemma NewStep(s: Sys, s': Sys, p: Ptr, shared: bool, k: Key, data: Bytes, dst: nat)
    requires Inv(s) && p !in s.mem.ptrs && Unused(s.mem, k) && Fresh(s, dst)
    requires s' == s.(mem := Allocate(s.mem, p, shared, k, data, dst))
    ensures Inv(s') && View(s'.mem) == View(s.mem)[p := data]
  {
    AllocateKeeps(s.mem, p, shared, k, data, dst);
    forall q | q in s'.mem.ptrs ensures WordOk(s', q) {
      assert q == p || WordOk(s, q);
    }
    forall a | a in s'.mem.heap ensures ObjOk(s', a) {
      assert a == dst || ObjOk(s, a);
    }
    forall a | a in s.mem.heap ensures Kept(s.mem, s'.mem, a) {
      SameRing(s.mem, s'.mem, a);
    }
    ScopesKeep(s, s');
  }

  lemma ShareStep(s: Sys, s': Sys, p: Ptr, q: Ptr)
    requires Inv(s) && p in s.mem.ptrs && s.mem.ptrs[p].shared && q !in s.mem.ptrs
    requires forall a :: a in s.mem.heap ==> s.mem.heap[a].owner != q
    requires s' == s.(mem := Alias(s.mem, p, q))
    ensures Inv(s') && View(s'.mem) == View(s.mem)[q := Content(s.mem, p)]
  {
    AliasKeeps(s.mem, p, q);
    forall r | r in s'.mem.ptrs ensures WordOk(s', r) {
      assert WordOk(s, if r == q then p else r);
    }
    forall a | a in s'.mem.heap ensures ObjOk(s', a) {
      assert ObjOk(s, a);
    }
    forall a | a in s.mem.heap ensures Kept(s.mem, s'.mem, a) {
      if Pointed(s'.mem, a) {
        var r :| IsAt(s'.mem, r, a);
        assert IsAt(s.mem, if r == q then p else r, a);
      }
      if DirtyAt(s.mem, a) {
        var r :| IsAt(s.mem, r, a) && s.mem.ptrs[r].dirty;
        assert IsAt(s'.mem, r, a);
      }
    }
    ScopesKeep(s, s');
  }

  // The one word of an unshared pointer leaves its address; nothing else moves.
  lemma LeaveKeeps(m: Mem, m': Mem, p: Ptr, a: nat)
    requires MemOk(m) && p in m.ptrs && !m.ptrs[p].shared && a in m.heap && a in m'.heap
    requires forall q :: IsAt(m', q, a) <==> IsAt(m, q, a) && q != p
    requires forall q :: q in m.ptrs && q != p ==> q in m'.ptrs && m'.ptrs[q] == m.ptrs[q]
    ensures Kept(m, m', a)
  {
    if Pointed(m', a) {
      var q :| IsAt(m', q, a);
      assert PtrOk(m, q);
      NotSharedWith(m, p, q);
      SameRing(m, m', a);
    }
  }

  lemma RenewStep(s: Sys, s': Sys, p: Ptr, k: Key, data: Bytes, dst: nat)
    requires Inv(s) && p in s.mem.ptrs && s.mem.ptrs[p].Local? && !s.mem.ptrs[p].shared
    requires s.mem.ptrs[p].addr in s.mem.heap && (Unused(s.mem, k) || k == KeyOf(s.mem, p)) && Fresh(s, dst)
    requires s' == s.(mem := Reallocate(s.mem, p, k, data, dst))
    ensures Inv(s') && View(s'.mem) == View(s.mem)[p := data]
  {
    OwnKeyIsFree(s.mem, p, k);
    ReallocateKeeps(s.mem, p, k, data, dst);
    forall q | q in s'.mem.ptrs ensures WordOk(s', q) {
      assert q == p || WordOk(s, q);
    }
    forall a | a in s'.mem.heap ensures ObjOk(s', a) {
      assert a == dst || ObjOk(s, a);
    }
    forall a | a in s.mem.heap ensures Kept(s.mem, s'.mem, a) {
      LeaveKeeps(s.mem, s'.mem, p, a);
    }
    ScopesKeep(s, s');
  }

  lemma DropStep(s: Sys, s': Sys, p: Ptr)
    requires Inv(s) && p in s.mem.ptrs && !s.mem.ptrs[p].shared && s' == s.(mem := Free(s.mem, p))
    ensures Inv(s') && View(s'.mem) == View(s.mem) - {p}
  {
    FreeKeeps(s.mem, p);
    assert PtrOk(s.mem, p);
    forall q | q in s'.mem.ptrs ensures WordOk(s', q) {
      assert WordOk(s, q);
    }
    forall a | a in s'.mem.heap ensures ObjOk(s', a) {
      assert ObjOk(s, a);
    }
    forall a | a in s.mem.heap ensures Kept(s.mem, s'.mem, a) {
      LeaveKeeps(s.mem, s'.mem, p, a);
    }
    ScopesKeep(s, s');
  }

  // ---------- dereferencing ----------

  lemma ReachStep(s: Sys, s': Sys, p: Ptr, dst: nat)
    requires Inv(s) && p in s.mem.ptrs && Fresh(s, dst) && s' == s.(mem := Reach(s.mem, p, dst))
    ensures Inv(s') && View(s'.mem) == View(s.mem)
    ensures p in s'.mem.ptrs && s'.mem.ptrs[p].Local? && !s'.mem.ptrs[p].evac
  {
    assert PtrOk(s.mem, p);
    if s.mem.ptrs[p].Remote? {
      SwapInStep(s, s', p, dst);
      assert IsOut(s.mem, p, KeyOf(s.mem, p));
    } else if s.mem.ptrs[p].evac {
      MigrateStep(s, s', p, dst);
      assert IsAt(s.mem, p, s.mem.ptrs[p].addr);
    }
  }

  lemma HoldStep(s: Sys, s': Sys, t: Tid, h: Handle)
    requires Inv(s) && t in s.scopes && IsAt(s.mem, h.ptr, h.addr) && !s.mem.ptrs[h.ptr].evac
    requires h.mut ==> s.mem.ptrs[h.ptr].dirty
    requires s' == s.(scopes := s.scopes[t := s.scopes[t].(held := s.scopes[t].held + {h})])
    ensures Inv(s')
  {
    assert PtrOk(s.mem, h.ptr) && WordOk(s, h.ptr);
    forall p | p in s'.mem.ptrs ensures WordOk(s', p) {
      assert WordOk(s, p);
    }
    forall a | a in s'.mem.heap ensures ObjOk(s', a) {
      assert ObjOk(s, a);
    }
    forall u | u in s'.scopes ensures ScopeOk(s', u) {
      assert ScopeOk(s, u);
      forall g | g in s'.scopes[u].held ensures HandleOk(s', g) {
        assert g == h || HandleOk(s, g);
      }
    }
  }

  lemma DerefStep(s: Sys, s': Sys, t: Tid, p: Ptr, mut: bool, dst: nat)
    requires Inv(s) && t in s.scopes && p in s.mem.ptrs && Fresh(s, dst)
    requires var m := Reach(s.mem, p, dst);
             s' == s.(mem := if mut then DerefMut(m, p) else SetHot(m, p, true),
                      scopes := s.scopes[t := s.scopes[t].(held := s.scopes[t].held
                          + {Handle(p, m.ptrs[p].addr, mut)})])
    ensures Inv(s') && View(s'.mem) == View(s.mem)
  {
    var reached := s.(mem := Reach(s.mem, p, dst));
    ReachStep(s, reached, p, dst);
    var w := reached.mem.ptrs[p];
    var flagged := s.(mem := s'.mem);
    FlagStep(reached, flagged, p, if mut then w.(dirty := true, hot := true) else w.(hot := true));
    HoldStep(flagged, s', t, Handle(p, w.addr, mut));
  }

  lemma EnterStep(s: Sys, s': Sys, t: Tid)
    requires Inv(s) && t !in s.scopes && s' == s.(scopes := s.scopes[t := Scope(s.expected, {})])
    ensures Inv(s')
  {
  }

  lemma ExitStep(s: Sys, s': Sys, t: Tid)
    requires Inv(s) && t in s.scopes && s' == s.(scopes := s.scopes - {t})
    ensures Inv(s')
  {
  }

  // ---------- every step, every run ----------

  // What the mutators believe they work on: the bytes behind each pointer, and which pointers are
  // aliases, having the same id.
  datatype Plain = Plain(bytes: map<Ptr, Bytes>, ids: map<Ptr, Key>)

  function Abstract(m: Mem): Plain {
    Plain(View(m), Keys(m))
  }

  function Written(v: Plain, p: Ptr, data: Bytes): map<Ptr, Bytes> {
    map q | q in v.bytes :: if p in v.ids && q in v.ids && v.ids[q] == v.ids[p] then data else v.bytes[q]
  }

  // What a step does to the plain map.  No collector step, swap or flag shows; a store reaches
  // every alias of the pointer its address came from, unless that address is `outdated`.
  function PlainStep(v: Plain, e: Event, outdated: bool): Plain {
    match e
    case StoreTo(_, h, data) => if outdated then v else v.(bytes := Written(v, h.ptr, data))
    case New(p, _, k, data, _) => Plain(v.bytes[p := data], v.ids[p := k])
    case Share(p, q) =>
      if p in v.bytes && p in v.ids then Plain(v.bytes[q := v.bytes[p]], v.ids[q := v.ids[p]]) else v
    case Renew(p, k, data, _) => Plain(v.bytes[p := data], v.ids[p := k])
    case Drop(p) => Plain(v.bytes - {p}, v.ids - {p})
    case _ => v
  }

  // A store through a raw address that its pointer's word no longer holds.
  predicate Outdated(s: Sys, e: Event) {
    e.StoreTo? && !IsAt(s.mem, e.h.ptr, e.h.addr)
  }

  // The pointers at a current raw address are exactly the aliases of the pointer it came from.
  lemma StoreSeenByAliases(s: Sys, t: Tid, h: Handle, data: Bytes)
    requires Inv(s) && t in s.scopes && h in s.scopes[t].held
    ensures var v := Abstract(s.mem);
            Seen(s.mem, v.bytes, h.addr, data) == if IsAt(s.mem, h.ptr, h.addr) then Written(v, h.ptr, data)
                else v.bytes
  {
    assert ScopeOk(s, t) && HandleOk(s, h);
    if IsAt(s.mem, h.ptr, h.addr) {
      forall q | q in s.mem.ptrs ensures IsAt(s.mem, q, h.addr) <==> KeyOf(s.mem, q) == KeyOf(s.mem, h.ptr) {
        assert q != h.ptr ==> Agree(s.mem, h.ptr, q);
      }
    } else {
      assert forall q :: q in s.mem.ptrs ==> !IsAt(s.mem, q, h.addr);
    }
  }

  lemma ReachKeys(m: Mem, p: Ptr, dst: nat)
    requires MemOk(m) && p in m.ptrs && dst !in m.heap
    ensures Keys(Reach(m, p, dst)) == Keys(m)
  {
    hide MemOk, Invisible, Keys, View;
    if m.ptrs[p].Remote? {
      SwapInKeeps(m, p, dst);
      InvisibleKeys(m, SwapIn(m, p, dst));
    } else if m.ptrs[p].evac && m.ptrs[p].addr in m.heap {
      CopyKeeps(m, m.ptrs[p].addr, dst);
      InvisibleKeys(m, CopyTo(m, m.ptrs[p].addr, dst));
    }
  }

  lemma MutatorKeys(s: Sys, e: Event)
    requires Inv(s) && Enabled(s, e)
    requires !ByCollector(e)
    ensures Keys(Apply(s, e).mem) == PlainStep(Abstract(s.mem), e, Outdated(s, e)).ids
  {
    hide MemOk, WordOk, ObjOk, ScopeOk, TodoOk, Invisible, View, Keys, SwapIn, Allocate, Reallocate, Free, Alias,
        DerefMut, SetHot, Store, Reach;
    match e
    case Deref(t, p, mut, dst) =>
      ReachKeys(s.mem, p, dst);
      AccessKeys(Reach(s.mem, p, dst), p, true);
    case StoreTo(_, h, data) => StoreMovesNothing(s.mem, h.addr, data);
    case New(p, shared, k, data, dst) => AllocateKeys(s.mem, p, shared, k, data, dst);
    case Share(p, q) =>
      AliasKeys(s.mem, p, q);
      assert View(s.mem).Keys == Keys(s.mem).Keys == s.mem.ptrs.Keys && Keys(s.mem)[p] == KeyOf(s.mem, p) by {
        KeysAreOfPtrs(s.mem);
      }
    case Renew(p, k, data, dst) => ReallocateKeys(s.mem, p, k, data, dst);
    case Drop(p) => FreeForgets(s.mem, p);
    case PageIn(p, dst) =>
      SwapInKeeps(s.mem, p, dst);
      InvisibleKeys(s.mem, SwapIn(s.mem, p, dst));
    case Touch(p, hot) => AccessKeys(s.mem, p, hot);
    case _ =>
  }

  lemma KeysAreOfPtrs(m: Mem)
    ensures View(m).Keys == Keys(m).Keys == m.ptrs.Keys && forall p :: p in m.ptrs ==> Keys(m)[p] == KeyOf(m, p)
  {
  }

  lemma CollectorKeys(s: Sys, e: Event)
    requires Inv(s) && Enabled(s, e)
    requires ByCollector(e)
    ensures Keys(Apply(s, e).mem) == Keys(s.mem)
  {
    hide MemOk, WordOk, ObjOk, ScopeOk, TodoOk, Invisible, View, Keys, Mark, SwapOut, Recycled;
    match e
    case MarkOne(a) =>
      MarkKeeps(s.mem, a);
      InvisibleKeys(s.mem, Mark(s.mem, a));
    case WriteBackOne(a, nt, almostEmpty, room) =>
      if !s.mem.heap[a].freed {
        WriteBackKeeps(s, Apply(s, e), a, nt, almostEmpty, room);
        InvisibleKeys(s.mem, Apply(s, e).mem);
      }
    case RecycleOne(r) =>
      RecycleIsSafe(s, r);
      RecycledKeeps(s.mem, r);
      InvisibleKeys(s.mem, Recycled(s.mem, r));
    case _ =>
  }

  lemma MutatorStep(s: Sys, e: Event)
    requires Inv(s) && Enabled(s, e)
    requires !ByCollector(e)
    ensures Inv(Apply(s, e))
    ensures View(Apply(s, e).mem) == PlainStep(Abstract(s.mem), e, Outdated(s, e)).bytes
  {
    var s' := Apply(s, e);
    match e
    case Enter(t) => EnterStep(s, s', t);
    case Exit(t) => ExitStep(s, s', t);
    case Deref(t, p, mut, dst) => DerefStep(s, s', t, p, mut, dst);
    case StoreTo(t, h, data) =>
      assert ScopeOk(s, t) && HandleOk(s, h);
      StoreStep(s, s', h.addr, data);
      StoreSeenByAliases(s, t, h, data);
    case New(p, shared, k, data, dst) => NewStep(s, s', p, shared, k, data, dst);
    case Share(p, q) => ShareStep(s, s', p, q);
    case Renew(p, k, data, dst) => RenewStep(s, s', p, k, data, dst);
    case Drop(p) => DropStep(s, s', p);
    case PageIn(p, dst) =>
      if s.mem.ptrs[p].Remote? {
        SwapInStep(s, s', p, dst);
      }
    case Touch(p, hot) => FlagStep(s, s', p, s.mem.ptrs[p].(hot := hot));
    case _ =>
  }

  lemma CollectorStep(s: Sys, e: Event)
    requires Inv(s) && Enabled(s, e)
    requires ByCollector(e)
    ensures Inv(Apply(s, e)) && View(Apply(s, e).mem) == View(s.mem)
  {
    var s' := Apply(s, e);
    match e
    case Pick(regions) => PickKeeps(s, s', regions);
    case MarkOne(a) =>
      if s.mem.heap[a].freed {
        SkipFreed(s, s', a);
      } else {
        MarkOneKeeps(s, s', a);
      }
    case Flip => FlipKeeps(s, s');
    case EndWait => EndWaitKeeps(s, s');
    case WriteBackOne(a, nt, almostEmpty, room) =>
      if s.mem.heap[a].freed {
        SkipFreed(s, s', a);
      } else {
        WriteBackKeeps(s, s', a, nt, almostEmpty, room);
      }
    case RecycleOne(r) => RecycleKeeps(s, s', r);
    case EndRound => EndRoundKeeps(s, s');
    case _ =>
  }

  lemma StepRefines(s: Sys, e: Event)
    requires Inv(s) && Enabled(s, e)
    ensures Inv(Apply(s, e)) && Abstract(Apply(s, e).mem) == PlainStep(Abstract(s.mem), e, Outdated(s, e))
  {
    hide Inv, Enabled, Apply, View, Keys;
    if ByCollector(e) {
      CollectorStep(s, e);
      CollectorKeys(s, e);
    } else {
      MutatorStep(s, e);
      MutatorKeys(s, e);
    }
  }

  ghost predicate Runs(s: Sys, es: seq<Event>)
    decreases |es|
  {
    es == [] || (Enabled(s, es[0]) && Runs(Apply(s, es[0]), es[1..]))
  }

  ghost function After(s: Sys, es: seq<Event>): Sys
    requires Runs(s, es)
    decreases |es|
  {
    if es == [] then s else After(Apply(s, es[0]), es[1..])
  }

  // The run on the plain map; far memory is asked only which stores go to an outdated address.
  ghost function PlainAfter(s: Sys, v: Plain, es: seq<Event>): Plain
    requires Runs(s, es)
    decreases |es|
  {
    if es == [] then v else PlainAfter(Apply(s, es[0]), PlainStep(v, es[0], Outdated(s, es[0])), es[1..])
  }

  // Memory refinement: in every interleaving of mutators, pager and collector, the bytes seen
  // through each live pointer are those of the plain map.
  lemma {:induction false} RunRefines(s: Sys, es: seq<Event>)
    requires Inv(s) && Runs(s, es)
    ensures Inv(After(s, es)) && Abstract(After(s, es).mem) == PlainAfter(s, Abstract(s.mem), es)
    decreases |es|
  {
    if es != [] {
      StepRefines(s, es[0]);
      RunRefines(Apply(s, es[0]), es[1..]);
    }
  }

  // No store of the run goes to an outdated address; module RawAddresses says when that is so.
  ghost predicate Orderly(s: Sys, es: seq<Event>)
    requires Runs(s, es)
    decreases |es|
  {
    es == [] || (!Outdated(s, es[0]) && Orderly(Apply(s, es[0]), es[1..]))
  }

  // A program on the plain map alone.
  function PlainRun(v: Plain, es: seq<Event>): Plain
    decreases |es|
  {
    if es == [] then v else PlainRun(PlainStep(v, es[0], false), es[1..])
  }

  // Far memory is transparent to an orderly run: its result is the plain map's, which knows
  // nothing of addresses, presence or collection.
  lemma {:induction false} OrderlyRunIsPlain(s: Sys, es: seq<Event>)
    requires Inv(s) && Runs(s, es) && Orderly(s, es)
    ensures Abstract(After(s, es).mem) == PlainRun(Abstract(s.mem), es)
    decreases |es|
  {
    hide Inv, Enabled, Apply, Abstract, PlainStep, Outdated;
    if es != [] {
      StepRefines(s, es[0]);
      OrderlyRunIsPlain(Apply(s, es[0]), es[1..]);
    }
  }

  // Safety over every run: memory handed out again is held by nobody and referred to by nothing.
  lemma RunsRecycleSafely(s: Sys, es: seq<Event>, r: nat)
    requires Init(s) && Runs(s, es) && Enabled(After(s, es), RecycleOne(r))
    ensures var s' := After(s, es);
            && (forall t, h :: t in s'.scopes && h in s'.scopes[t].held ==> h.addr / SIZE != r)
            && (forall p :: p in s'.mem.ptrs && s'.mem.ptrs[p].Local? ==> s'.mem.ptrs[p].addr / SIZE != r)
  {
    InitInv(s);
    RunRefines(s, es);
    RecycleIsSafe(After(s, es), r);
  }
}
