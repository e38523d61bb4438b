/**
 How the heap, the cache's regions, the far-memory ids and the shared rings of the far-memory
 manager (aifm_changes/manager.cpp) hang together between any two of its steps (`Sound`), and how
 every step and every walk over a region keeps that.
 */
module CacheHeaps {
  import opened PtrMeta
  import opened Regions
  import opened RegionManagers
  import opened RegionManagement
  import opened FarMemory
  import opened Evacuation

  function SetOf(s: seq<nat>): set<nat> {
    set x | x in s
  }

  // The cache's regions hold exactly the objects of the heap, each with its size, all of them written.
  ghost predicate Linked(m: Mem, c: Mgr) {
    && (forall a: nat :: a in m.heap <==> Live(c, a))
    && (forall a: nat :: a in m.heap ==> Holds(c, a, SizeOf(m.header, m.heap[a].data)))
    && (forall a: nat :: !Pending(c, a))
  }

  // The remote id of every live pointer was handed out by the far-memory allocator.
  ghost predicate IdsLive(m: Mem, f: Mgr) {
    forall p :: p in m.ptrs ==> Live(f, KeyOf(m, p).id)
  }

  // next_ptr_ leads from p round the sequence r and back to p.
  ghost predicate Links(next: map<Ptr, Ptr>, p: Ptr, r: seq<Ptr>) {
    && 0 < |r| && r[0] == p
    && (forall i, j :: 0 <= i < j < |r| ==> r[i] != r[j])
    && (forall i :: 0 <= i < |r| ==> r[i] in next && next[r[i]] == r[if i + 1 < |r| then i + 1 else 0])
  }

  lemma LinkAt(next: map<Ptr, Ptr>, p: Ptr, r: seq<Ptr>, i: nat)
    requires Links(next, p, r) && i < |r|
    ensures r[i] in next && next[r[i]] == r[if i + 1 < |r| then i + 1 else 0]
    ensures r[i] == p <==> i == 0
    ensures forall j :: 0 <= j < i ==> r[j] != r[i]
  {
  }

  // The ring of a shared pointer holds exactly its aliases.
  ghost predicate IsRing(m: Mem, next: map<Ptr, Ptr>, p: Ptr, r: seq<Ptr>)
    requires p in m.ptrs
  {
    Links(next, p, r) && forall q :: q in r <==> q in m.ptrs && KeyOf(m, q) == KeyOf(m, p)
  }

  ghost predicate Rings(m: Mem, next: map<Ptr, Ptr>, rings: map<Ptr, seq<Ptr>>) {
    forall p :: p in m.ptrs && m.ptrs[p].shared ==> p in rings && IsRing(m, next, p, rings[p])
  }

  // An object allocated at a, its header written and its ref count paid back.
  lemma LinkNew(m: Mem, m': Mem, c: Mgr, k: nat, a: nat)
    requires Linked(m, c) && RegionManagers.Valid(c) && c.local && k < |c.slots| && a in m'.heap
              && m'.header == m.header
    requires Alloc(c, k, SizeOf(m.header, m'.heap[a].data)).1 == Some(a)
    requires forall b: nat :: b in m'.heap <==> b in m.heap || b == a
    requires forall b: nat :: b in m.heap && b != a ==> |m'.heap[b].data| == |m.heap[b].data|
    ensures var c' := Alloc(c, k, SizeOf(m.header, m'.heap[a].data)).0;
            && RegionManagers.Valid(c') && Pending(c', a) && 0 < c'.regs[a / SIZE].refCnt
            && Linked(m', FinishedAt(c', a))
  {
    hide RegionManagers.ValidBut, Alloc;
    var size := SizeOf(m.header, m'.heap[a].data);
    var c' := Alloc(c, k, size).0;
    AllocEffect(c, k, size);
    AllocIsNew(c, k, size);
    FinishedAtKeepsValid(c', a);
    var c'' := FinishedAt(c', a);
    forall b: nat ensures Live(c'', b) <==> Live(c', b) {
    }
    forall b: nat | b in m'.heap ensures Holds(c'', b, SizeOf(m'.header, m'.heap[b].data)) {
      if b != a {
        HoldsStays(c, c', Some(a), size, b, SizeOf(m.header, m.heap[b].data));
      }
      assert Holds(c', b, SizeOf(m'.header, m'.heap[b].data));
    }
  }

  lemma HoldsStays(c: Mgr, c': Mgr, a: Option<nat>, size: nat, b: nat, z: nat)
    requires OnlyAdds(c, c', a, size) && Holds(c, b, z)
    ensures Holds(c', b, z)
  {
    var r, r' := c.regs[b / SIZE], c'.regs[b / SIZE];
    var i :| 0 <= i < |r.starts| && i < |r.sizes| && r.starts[i] == b % SIZE && r.sizes[i] == z;
    assert r'.starts[i] == b % SIZE && r'.sizes[i] == z;
  }

  // A failed allocation moves regions between queues but no object.
  lemma LinkSame(m: Mem, c: Mgr, k: nat, size: nat)
    requires Linked(m, c) && RegionManagers.Valid(c) && k < |c.slots| && 0 < size && Alloc(c, k, size).1.None?
    ensures Linked(m, Alloc(c, k, size).0)
  {
    AllocEffect(c, k, size);
    AllocIsNew(c, k, size);
    forall b: nat | b in m.heap ensures Holds(Alloc(c, k, size).0, b, SizeOf(m.header, m.heap[b].data)) {
      HoldsStays(c, Alloc(c, k, size).0, None, size, b, SizeOf(m.header, m.heap[b].data));
    }
  }

  // obj.size() read at the i-th object of a region is the size it was allocated with.
  lemma SizeAt(m: Mem, c: Mgr, x: nat, i: nat)
    requires Linked(m, c) && RegionManagers.Valid(c) && x < |c.regs| && i < |c.regs[x].starts| && i < |c.regs[x].sizes|
    ensures var a := x * SIZE + c.regs[x].starts[i];
            a in m.heap && SizeOf(m.header, m.heap[a].data) == c.regs[x].sizes[i]
  {
    hide Conserved, Roles;
    var r := c.regs[x];
    GridIsOrdered(r.starts, r.sizes, r.firstFree, i, |r.starts|);
    AddressOf(x, r.starts[i]);
    var a := x * SIZE + r.starts[i];
    assert Live(c, a);
    var z := SizeOf(m.header, m.heap[a].data);
    assert Holds(c, a, z);
    var j :| 0 <= j < |r.starts| && j < |r.sizes| && r.starts[j] == a % SIZE && r.sizes[j] == z;
    if i < j {
      GridIsOrdered(r.starts, r.sizes, r.firstFree, i, j);
    } else if j < i {
      GridIsOrdered(r.starts, r.sizes, r.firstFree, j, i);
    }
  }

  // What traverse(f) does to the words of a ring.
  function OnRing(m: Mem, ring: set<Ptr>, f: Meta<nat> -> Meta<nat>): Mem {
    m.(ptrs := map q | q in m.ptrs :: if q in ring then f(m.ptrs[q]) else m.ptrs[q])
  }

  // Visiting one more pointer of the ring.
  lemma OnRingStep(m: Mem, r: seq<Ptr>, i: nat, f: Meta<nat> -> Meta<nat>)
    requires i < |r| && r[i] in m.ptrs && (forall j :: 0 <= j < i ==> r[j] != r[i])
    ensures var n := OnRing(m, SetOf(r[..i]), f);
            r[i] in n.ptrs && n.(ptrs := n.ptrs[r[i] := f(n.ptrs[r[i]])]) == OnRing(m, SetOf(r[..i + 1]), f)
  {
  }

  // The ring of the pointer at a is the set of pointers at a.
  lemma RingIsAt(m: Mem, next: map<Ptr, Ptr>, p: Ptr, r: seq<Ptr>, a: nat)
    requires MemOk(m) && p in m.ptrs && (if m.ptrs[p].shared then IsRing(m, next, p, r) else r == [p])
    requires IsAt(m, p, a)
    ensures forall q :: q in r <==> IsAt(m, q, a)
  {
    forall q ensures q in r <==> IsAt(m, q, a) {
      assert PtrOk(m, p) && (q in m.ptrs ==> PtrOk(m, q));
      assert q in m.ptrs && q != p ==> Agree(m, p, q);
    }
  }

  // The invariants on ids and rings read nothing but keys and S bits.
  lemma KeysStay(m: Mem, m': Mem, next: map<Ptr, Ptr>, rings: map<Ptr, seq<Ptr>>, f: Mgr)
    requires SameKeys(m, m') && IdsLive(m, f) && Rings(m, next, rings)
    ensures IdsLive(m', f) && Rings(m', next, rings)
  {
  }

  // Allocation never touches a region under collection.
  ghost predicate FromKept(c: Mgr, c': Mgr) {
    |c'.regs| == |c.regs| && forall y <- c.from :: y < |c.regs| ==> c'.regs[y] == c.regs[y]
  }

  lemma FromUntouched(c: Mgr, k: nat, size: nat)
    requires k < |c.slots| && RegionManagers.Valid(c) && 0 < size
    ensures FromKept(c, Alloc(c, k, size).0)
  {
    AllocEffect(c, k, size);
    forall y <- c.from | y < |c.regs| ensures Alloc(c, k, size).0.regs[y] == c.regs[y] {
      AllocKeepsFrom(c, k, size, y);
    }
  }

  // What holds between any two steps of the manager.
  ghost predicate Sound(s: Sys, c: Mgr, f: Mgr, next: map<Ptr, Ptr>, rings: map<Ptr, seq<Ptr>>) {
    && Inv(s) && RegionManagers.Valid(c) && c.local && !f.local && s.from == SetOf(c.from)
    && Linked(s.mem, c) && IdsLive(s.mem, f) && Rings(s.mem, next, rings)
  }

  // What an allocation in the cache gives: room outside every from-region, and no from-region touched.
  lemma CacheAlloc(s: Sys, c: Mgr, f: Mgr, next: map<Ptr, Ptr>, rings: map<Ptr, seq<Ptr>>, k: nat, size: nat)
    requires Sound(s, c, f, next, rings) && k < |c.slots| && 0 < size
    ensures var (c', room) := Alloc(c, k, size);
            && RegionManagers.Valid(c') && c'.local && c'.from == c.from && FromKept(c, c')
            && (room.Some? ==> Fresh(s, room.value) && Pending(c', room.value))
            && (room.None? ==> Sound(s, c', f, next, rings))
  {
    AllocEffect(c, k, size);
    AllocIsNew(c, k, size);
    FromUntouched(c, k, size);
    if Alloc(c, k, size).1.None? {
      LinkSame(s.mem, c, k, size);
    }
  }

  // The common end of every allocating path: the new object is in the heap and its ref count paid back.
  lemma AllocSound(s: Sys, s': Sys, c: Mgr, f: Mgr, next: map<Ptr, Ptr>, rings: map<Ptr, seq<Ptr>>, k: nat, dst: nat)
    requires Sound(s, c, f, next, rings) && k < |c.slots| && dst in s'.mem.heap && s'.mem.header == s.mem.header
    requires Alloc(c, k, SizeOf(s.mem.header, s'.mem.heap[dst].data)).1 == Some(dst)
    requires forall b: nat :: b in s'.mem.heap <==> b in s.mem.heap || b == dst
    requires forall b: nat :: b in s.mem.heap && b != dst ==> |s'.mem.heap[b].data| == |s.mem.heap[b].data|
    requires Inv(s') && s'.from == s.from && IdsLive(s'.mem, f) && Rings(s'.mem, next, rings)
    ensures var c' := Alloc(c, k, SizeOf(s.mem.header, s'.mem.heap[dst].data)).0;
            && Pending(c', dst) && 0 < c'.regs[dst / SIZE].refCnt
            && Sound(s', FinishedAt(c', dst), f, next, rings)
  {
    var c' := Alloc(c, k, SizeOf(s.mem.header, s'.mem.heap[dst].data)).0;
    LinkNew(s.mem, s'.mem, c, k, dst);
    AllocEffect(c, k, SizeOf(s.mem.header, s'.mem.heap[dst].data));
    FinishedAtKeepsValid(c', dst);
  }

  lemma CopyOutSound(s: Sys, s': Sys, c: Mgr, f: Mgr, next: map<Ptr, Ptr>, rings: map<Ptr, seq<Ptr>>, k: nat, a: nat,
      dst: nat)
    requires Sound(s, c, f, next, rings) && k < |c.slots| && s.phase.WritingBack? && a in s.todo && a in s.mem.heap
    requires IsAt(s.mem, s.mem.heap[a].owner, a) && s.mem.ptrs[s.mem.heap[a].owner].evac && Fresh(s, dst)
    requires Alloc(c, k, SizeOf(s.mem.header, s.mem.heap[a].data)).1 == Some(dst)
    requires s' == s.(mem := CopyTo(s.mem, a, dst), todo := s.todo - {a})
    ensures var c' := Alloc(c, k, SizeOf(s.mem.header, s.mem.heap[a].data)).0;
            && Pending(c', dst) && 0 < c'.regs[dst / SIZE].refCnt
            && Sound(s', FinishedAt(c', dst), f, next, rings)
  {
    hide RegionManagers.ValidBut, Alloc, Linked, MemOk, WordOk, ObjOk, ScopeOk, TodoOk, IdsLive, Rings, View;
    CopyKeeps(s.mem, a, dst);
    CopyStep(s, s', a, dst);
    KeysStay(s.mem, s'.mem, next, rings, f);
    AllocSound(s, s', c, f, next, rings, k, dst);
  }

  lemma EvictSound(s: Sys, s': Sys, c: Mgr, f: Mgr, next: map<Ptr, Ptr>, rings: map<Ptr, seq<Ptr>>, a: nat)
    requires Sound(s, c, f, next, rings) && s.phase.WritingBack? && a in s.todo && a in s.mem.heap
    requires IsAt(s.mem, s.mem.heap[a].owner, a)
    requires s' == s.(mem := Evict(s.mem, a, DirtyAt(s.mem, a)), todo := s.todo - {a})
    ensures Sound(s', c, f, next, rings)
  {
    EvictKeeps(s.mem, a);
    EvictStep(s, s', a);
    KeysStay(s.mem, s'.mem, next, rings, f);
  }

  // An object whose owner lives elsewhere by now, or that was freed, is passed over.
  lemma SkipSound(s: Sys, s': Sys, c: Mgr, f: Mgr, next: map<Ptr, Ptr>, rings: map<Ptr, seq<Ptr>>, a: nat)
    requires Sound(s, c, f, next, rings) && a in s.todo && a in s.mem.heap && s' == s.(todo := s.todo - {a})
    requires s.mem.heap[a].freed || (s.phase.WritingBack? && !IsAt(s.mem, s.mem.heap[a].owner, a))
    ensures Sound(s', c, f, next, rings)
  {
    if s.mem.heap[a].freed {
      SkipFreed(s, s', a);
    } else {
      SkipStale(s, s', a);
    }
  }

  // The pointer that a marked object's header names is at that object; one that is not marked is not.
  lemma MarkedIsAt(s: Sys, c: Mgr, f: Mgr, next: map<Ptr, Ptr>, rings: map<Ptr, seq<Ptr>>, a: nat)
    requires Sound(s, c, f, next, rings) && s.phase.WritingBack? && a in s.todo && a in s.mem.heap
    requires !s.mem.heap[a].freed && s.mem.heap[a].owner in s.mem.ptrs
    ensures var w := s.mem.ptrs[s.mem.heap[a].owner];
            w.Local? && (w.evac <==> w.addr == a)
  {
    assert ObjOk(s, a) && WordOk(s, s.mem.heap[a].owner);
  }

  lemma MarkSound(s: Sys, s': Sys, c: Mgr, f: Mgr, next: map<Ptr, Ptr>, rings: map<Ptr, seq<Ptr>>, a: nat)
    requires Sound(s, c, f, next, rings) && s.phase.Marking? && a in s.todo && a in s.mem.heap && !s.mem.heap[a].freed
    requires s' == s.(mem := Mark(s.mem, a), todo := s.todo - {a})
    ensures Sound(s', c, f, next, rings) && View(s'.mem) == View(s.mem) && IsAt(s.mem, s.mem.heap[a].owner, a)
  {
    MarkKeeps(s.mem, a);
    MarkOneKeeps(s, s', a);
    KeysStay(s.mem, s'.mem, next, rings, f);
  }

  lemma InCache(s: Sys, c: Mgr, f: Mgr, next: map<Ptr, Ptr>, rings: map<Ptr, seq<Ptr>>, a: nat)
    requires Sound(s, c, f, next, rings) && a in s.mem.heap
    ensures a / SIZE < |c.regs|
  {
  }

  // Objects keep their size and stay; new ones lie outside the from-regions.
  ghost predicate HeapGrows(m: Mem, m': Mem, from: set<nat>) {
    && (forall b :: b in m.heap ==> b in m'.heap && |m'.heap[b].data| == |m.heap[b].data|)
    && (forall b :: b in m'.heap && b !in m.heap ==> b / SIZE !in from)
  }

  lemma SwapOutGrows(m: Mem, a: nat, nt: bool, almostEmpty: bool, room: Option<nat>, from: set<nat>)
    requires a in m.heap && (room.Some? ==> room.value !in m.heap && room.value / SIZE !in from)
    ensures HeapGrows(m, SwapOut(m, a, nt, almostEmpty, room), from)
  {
  }

  // ---------- the mutators' operations ----------

  // Stuck: the far-memory allocator has no region left and retries for ever.
  datatype Outcome = Done | Full | Stuck

  // The ring of an absent pointer is the set of pointers with its object's id.
  lemma RingIsOut(m: Mem, next: map<Ptr, Ptr>, p: Ptr, r: seq<Ptr>)
    requires MemOk(m) && p in m.ptrs && m.ptrs[p].Remote?
    requires if m.ptrs[p].shared then IsRing(m, next, p, r) else r == [p]
    ensures forall q :: q in r <==> IsOut(m, q, KeyOf(m, p))
  {
  }

  lemma SwapInSound(s: Sys, s': Sys, c: Mgr, f: Mgr, next: map<Ptr, Ptr>, rings: map<Ptr, seq<Ptr>>, k: nat, p: Ptr,
      dst: nat)
    requires Sound(s, c, f, next, rings) && k < |c.slots| && p in s.mem.ptrs && s.mem.ptrs[p].Remote? && Fresh(s, dst)
    requires Alloc(c, k, SizeOf(s.mem.header, Content(s.mem, p))).1 == Some(dst)
    requires s' == s.(mem := SwapIn(s.mem, p, dst))
    ensures var c' := Alloc(c, k, SizeOf(s.mem.header, Content(s.mem, p))).0;
            && Pending(c', dst) && 0 < c'.regs[dst / SIZE].refCnt
            && Sound(s', FinishedAt(c', dst), f, next, rings) && Invisible(s.mem, s'.mem)
  {
    hide RegionManagers.ValidBut, Alloc, Linked, MemOk, WordOk, ObjOk, ScopeOk, View, Content;
    SwapInKeeps(s.mem, p, dst);
    SwapInStep(s, s', p, dst);
    KeysStay(s.mem, s'.mem, next, rings, f);
    AllocSound(s, s', c, f, next, rings, k, dst);
  }

  // A remote id just handed out names no object yet.
  lemma FarGrows(s: Sys, c: Mgr, f: Mgr, next: map<Ptr, Ptr>, rings: map<Ptr, seq<Ptr>>, k: nat, size: nat)
    requires Sound(s, c, f, next, rings) && k < |f.slots| && RegionManagers.Valid(f) && 0 < size
    ensures var (f', id) := Alloc(f, k, size);
            && Sound(s, c, f', next, rings)
            && (id.Some? ==>
                  Live(f', id.value) && !Live(f, id.value) && forall ds :: Unused(s.mem, Key(ds, id.value)))
  {
    hide Linked, MemOk, WordOk, ObjOk, ScopeOk, Rings;
    AllocEffect(f, k, size);
    AllocIsNew(f, k, size);
  }

  lemma AllocFailsEmpty(c: Mgr, k: nat, size: nat)
    requires RegionManagers.Valid(c) && k < |c.slots| && 0 < size
    ensures Alloc(c, k, size).1.None? ==> Alloc(c, k, size).0.free == []
    ensures HEADER + Align(size) <= SIZE ==> (Alloc(c, k, size).1.Some? <==> Available(c, k, size))
  {
    AllocEffect(c, k, size);
    if HEADER + Align(size) <= SIZE {
      AllocSucceeds(c, k, size);
    }
  }

  // What the manager's methods need to know of a sound state.
  lemma SoundMem(s: Sys, c: Mgr, f: Mgr, next: map<Ptr, Ptr>, rings: map<Ptr, seq<Ptr>>)
    requires Sound(s, c, f, next, rings)
    ensures MemOk(s.mem) && Inv(s) && Rings(s.mem, next, rings) && IdsLive(s.mem, f)
  {
  }

  // An object that is in the cache fits a region, so room for a copy can be foreseen.
  lemma ObjectFits(s: Sys, c: Mgr, f: Mgr, next: map<Ptr, Ptr>, rings: map<Ptr, seq<Ptr>>, a: nat)
    requires Sound(s, c, f, next, rings) && RegionManagers.Valid(c) && a in s.mem.heap
    ensures HEADER + Align(SizeOf(s.mem.header, s.mem.heap[a].data)) <= SIZE
  {
    assert Holds(c, a, SizeOf(s.mem.header, s.mem.heap[a].data));
    hide Inv, Linked, IdsLive, Rings, RegionManagers.ValidBut, Holds;
    LiveObjectIsInside(c, a, SizeOf(s.mem.header, s.mem.heap[a].data));
  }

  // The size in an absent pointer's word is that of the object on the device.
  lemma AbsentSize(m: Mem, p: Ptr)
    requires MemOk(m) && p in m.ptrs && m.ptrs[p].Remote?
    ensures m.ptrs[p].size == SizeOf(m.header, Content(m, p)) > 0
  {
  }

  lemma PresentObject(m: Mem, p: Ptr)
    requires MemOk(m) && p in m.ptrs && m.ptrs[p].Local?
    ensures m.ptrs[p].addr in m.heap
  {
  }

  lemma IdIsLive(m: Mem, f: Mgr, p: Ptr)
    requires IdsLive(m, f) && p in m.ptrs
    ensures Live(f, KeyOf(m, p).id)
  {
  }

  // The rings of the shared pointers do not see an unshared one.
  lemma RingsStay(m: Mem, m': Mem, next: map<Ptr, Ptr>, rings: map<Ptr, seq<Ptr>>, p: Ptr, k: Key)
    requires MemOk(m) && Rings(m, next, rings) && Untouched(m, m', p) && UnusedBut(m, k, p)
    requires p in m'.ptrs && !m'.ptrs[p].shared && KeyOf(m', p) == k
    ensures Rings(m', next, rings)
  {
    forall q | q in m.ptrs && q != p ensures KeyOf(m', q) == KeyOf(m, q) {
      OthersStay(m, m', p, q);
    }
    forall q | q in m'.ptrs && m'.ptrs[q].shared ensures q in rings && IsRing(m', next, q, rings[q]) {
      assert IsRing(m, next, q, rings[q]);
      assert p in m.ptrs ==> Agree(m, p, q);
    }
  }

  lemma NewIds(m: Mem, m': Mem, f: Mgr, p: Ptr, k: Key)
    requires MemOk(m) && IdsLive(m, f) && Untouched(m, m', p) && Live(f, k.id) && (p in m'.ptrs ==> KeyOf(m', p) == k)
    ensures IdsLive(m', f)
  {
  }

  lemma NewSound(s: Sys, s': Sys, c: Mgr, f: Mgr, next: map<Ptr, Ptr>, rings: map<Ptr, seq<Ptr>>, slot: nat, p: Ptr,
      k: Key, data: Bytes, dst: nat)
    requires Sound(s, c, f, next, rings) && slot < |c.slots| && p !in s.mem.ptrs && Fresh(s, dst)
    requires Unused(s.mem, k) && Live(f, k.id) && Alloc(c, slot, SizeOf(s.mem.header, data)).1 == Some(dst)
    requires s' == s.(mem := Allocate(s.mem, p, false, k, data, dst))
    ensures var c' := Alloc(c, slot, SizeOf(s.mem.header, data)).0;
            && Pending(c', dst) && 0 < c'.regs[dst / SIZE].refCnt
            && Sound(s', FinishedAt(c', dst), f, next, rings) && View(s'.mem) == View(s.mem)[p := data]
  {
    hide RegionManagers.ValidBut, Alloc, Linked, IdsLive, Rings, WordOk, ObjOk, ScopeOk, TodoOk, MemOk, Untouched, View;
    NewStep(s, s', p, false, k, data, dst);
    AllocateTouches(s.mem, p, false, k, data, dst);
    RingsStay(s.mem, s'.mem, next, rings, p, k);
    NewIds(s.mem, s'.mem, f, p, k);
    AllocSound(s, s', c, f, next, rings, slot, dst);
  }

  lemma RenewSound(s: Sys, s': Sys, c: Mgr, f: Mgr, next: map<Ptr, Ptr>, rings: map<Ptr, seq<Ptr>>, slot: nat, p: Ptr,
      k: Key, data: Bytes, dst: nat)
    requires Sound(s, c, f, next, rings) && slot < |c.slots| && Fresh(s, dst)
    requires p in s.mem.ptrs && s.mem.ptrs[p].Local? && !s.mem.ptrs[p].shared && s.mem.ptrs[p].addr in s.mem.heap
    requires (Unused(s.mem, k) || k == KeyOf(s.mem, p)) && Live(f, k.id)
    requires Alloc(c, slot, SizeOf(s.mem.header, data)).1 == Some(dst)
    requires s' == s.(mem := Reallocate(s.mem, p, k, data, dst))
    ensures var c' := Alloc(c, slot, SizeOf(s.mem.header, data)).0;
            && Pending(c', dst) && 0 < c'.regs[dst / SIZE].refCnt
            && Sound(s', FinishedAt(c', dst), f, next, rings) && View(s'.mem) == View(s.mem)[p := data]
  {
    hide RegionManagers.ValidBut, Alloc, Linked, IdsLive, Rings, WordOk, ObjOk, ScopeOk, TodoOk, MemOk, Untouched, View;
    RenewStep(s, s', p, k, data, dst);
    OwnKeyIsFree(s.mem, p, k);
    ReallocateTouches(s.mem, p, k, data, dst);
    RingsStay(s.mem, s'.mem, next, rings, p, k);
    NewIds(s.mem, s'.mem, f, p, k);
    AllocSound(s, s', c, f, next, rings, slot, dst);
  }

  // Once the wait is over no scope holds an address under collection.
  lemma HeldOutside(s: Sys)
    requires Inv(s) && s.phase.WritingBack?
    ensures forall t, h :: t in s.scopes && h in s.scopes[t].held ==> h.addr / SIZE !in s.from
  {
    forall t, h | t in s.scopes && h in s.scopes[t].held ensures h.addr / SIZE !in s.from {
      assert ScopeOk(s, t);
    }
  }

  lemma HeldIsInHeap(s: Sys, c: Mgr, f: Mgr, next: map<Ptr, Ptr>, rings: map<Ptr, seq<Ptr>>, t: Tid, h: Handle)
    requires Sound(s, c, f, next, rings) && t in s.scopes && h in s.scopes[t].held
    ensures h.addr in s.mem.heap
  {
    assert ScopeOk(s, t) && HandleOk(s, h);
  }

  lemma ViewKeys(m: Mem)
    ensures View(m).Keys == m.ptrs.Keys
  {
  }

  lemma InvisibleToItself(m: Mem)
    requires MemOk(m)
    ensures Invisible(m, m)
  {
  }

  // What keeps no more than the invariant, the keys and the heap's sizes keeps everything.
  lemma SoundStays(s: Sys, s': Sys, c: Mgr, f: Mgr, next: map<Ptr, Ptr>, rings: map<Ptr, seq<Ptr>>)
    requires Sound(s, c, f, next, rings) && Inv(s') && s'.from == s.from && SameKeys(s.mem, s'.mem)
    requires s'.mem.heap == s.mem.heap && s'.mem.header == s.mem.header
    ensures Sound(s', c, f, next, rings)
  {
    hide RegionManagers.ValidBut, Inv;
    KeysStay(s.mem, s'.mem, next, rings, f);
  }

  lemma MigrateSound(
      s: Sys, s': Sys, c: Mgr, f: Mgr, next: map<Ptr, Ptr>, rings: map<Ptr, seq<Ptr>>, k: nat, p: Ptr, dst: nat)
    requires Sound(s, c, f, next, rings) && k < |c.slots| && p in s.mem.ptrs && Fresh(s, dst)
    requires s.mem.ptrs[p].Local? && s.mem.ptrs[p].evac && s.mem.ptrs[p].addr in s.mem.heap
    requires Alloc(c, k, SizeOf(s.mem.header, s.mem.heap[s.mem.ptrs[p].addr].data)).1 == Some(dst)
    requires s' == s.(mem := CopyTo(s.mem, s.mem.ptrs[p].addr, dst))
    ensures var c' := Alloc(c, k, SizeOf(s.mem.header, s.mem.heap[s.mem.ptrs[p].addr].data)).0;
            && Pending(c', dst) && 0 < c'.regs[dst / SIZE].refCnt
            && Sound(s', FinishedAt(c', dst), f, next, rings) && Invisible(s.mem, s'.mem)
  {
    hide RegionManagers.ValidBut, Alloc, Linked, MemOk, WordOk, ObjOk, ScopeOk, TodoOk, IdsLive, Rings, View;
    CopyKeeps(s.mem, s.mem.ptrs[p].addr, dst);
    MigrateStep(s, s', p, dst);
    KeysStay(s.mem, s'.mem, next, rings, f);
    AllocSound(s, s', c, f, next, rings, k, dst);
  }

  // Flags set by a dereference, and the address handed out.
  lemma HoldSound(
      s: Sys, s': Sys, c: Mgr, f: Mgr, next: map<Ptr, Ptr>, rings: map<Ptr, seq<Ptr>>, t: Tid, p: Ptr, mut: bool)
    requires Sound(s, c, f, next, rings) && t in s.scopes && p in s.mem.ptrs && s.mem.ptrs[p].Local?
              && !s.mem.ptrs[p].evac
    requires var m := if mut then DerefMut(s.mem, p) else SetHot(s.mem, p, true);
             var h := Handle(p, s.mem.ptrs[p].addr, mut);
             s' == s.(mem := m, scopes := s.scopes[t := s.scopes[t].(held := s.scopes[t].held + {h})])
    ensures Sound(s', c, f, next, rings) && View(s'.mem) == View(s.mem)
  {
    hide RegionManagers.ValidBut, Linked, Rings, IdsLive, MemOk, WordOk, ObjOk, ScopeOk, TodoOk, View;
    var w := s.mem.ptrs[p];
    var flagged := s.(mem := s'.mem);
    FlagStep(s, flagged, p, if mut then w.(dirty := true, hot := true) else w.(hot := true));
    HoldStep(flagged, s', t, Handle(p, w.addr, mut));
    SoundStays(s, s', c, f, next, rings);
  }

  lemma RingsForget(m: Mem, p: Ptr, next: map<Ptr, Ptr>, rings: map<Ptr, seq<Ptr>>, f: Mgr)
    requires MemOk(m) && p in m.ptrs && !m.ptrs[p].shared && Rings(m, next, rings) && IdsLive(m, f)
    ensures Rings(Free(m, p), next, rings) && IdsLive(Free(m, p), f)
  {
    var m' := Free(m, p);
    FreeTouches(m, p);
    forall q | q in m.ptrs && q != p ensures KeyOf(m', q) == KeyOf(m, q) {
      OthersStay(m, m', p, q);
    }
    forall q | q in m'.ptrs && m'.ptrs[q].shared ensures q in rings && IsRing(m', next, q, rings[q]) {
      assert IsRing(m, next, q, rings[q]) && Agree(m, p, q);
    }
  }

  lemma LinkFreed(m: Mem, p: Ptr, c: Mgr)
    requires Linked(m, c) && p in m.ptrs
    ensures Linked(Free(m, p), c)
  {
    forall a | a in m.heap ensures a in Free(m, p).heap && Free(m, p).heap[a].data == m.heap[a].data {
    }
  }

  lemma FreeSound(s: Sys, s': Sys, c: Mgr, f: Mgr, next: map<Ptr, Ptr>, rings: map<Ptr, seq<Ptr>>, p: Ptr)
    requires Sound(s, c, f, next, rings) && p in s.mem.ptrs && !s.mem.ptrs[p].shared && s' == s.(mem := Free(s.mem, p))
    ensures Sound(s', c, f, next, rings) && View(s'.mem) == View(s.mem) - {p}
  {
    hide RegionManagers.ValidBut, Linked, Rings, IdsLive, MemOk, WordOk, ObjOk, ScopeOk, TodoOk, View;
    DropStep(s, s', p);
    RingsForget(s.mem, p, next, rings, f);
    LinkFreed(s.mem, p, c);
  }

  // ---------- the walks ----------

  // What a walk in address order has still to visit: all of `rest`, and region x from cur on.
  ghost predicate Left(heap: map<nat, Obj>, todo: set<nat>, rest: set<nat>, x: nat, cur: nat) {
    forall a: nat :: a in todo <==> a in heap && (a / SIZE in rest || (a / SIZE == x && cur <= a))
  }

  ghost predicate TaskReady(c: Mgr, x: nat, k: nat, rest: set<nat>) {
    x < |c.regs| && x in c.from && x !in rest && rest <= SetOf(c.from) && k < |c.regs[x].boundaries| == |c.regs[x].cuts|
  }

  // The address where task k of region x starts; for the number of tasks, where the region's objects end.
  ghost function TaskStart(r: Reg, x: nat, k: nat): nat {
    x * SIZE + if k <= |r.cuts| && Task(r, k) <= |r.starts| then Grid(r.starts, r.firstFree, Task(r, k)) else 0
  }

  lemma OkOf(c: Mgr, x: nat)
    requires RegionManagers.Valid(c) && x < |c.regs|
    ensures Ok(c.regs[x])
  {
  }

  // `cur + kHeaderSize < right` holds exactly while an object is left.
  lemma WalkGuardHolds(s: Sys, c: Mgr, f: Mgr, next: map<Ptr, Ptr>, rings: map<Ptr, seq<Ptr>>, x: nat, i: nat, hi: nat)
    requires Sound(s, c, f, next, rings) && x < |c.regs| && i <= hi <= |c.regs[x].starts|
    ensures var r := c.regs[x];
            Grid(r.starts, r.firstFree, i) + s.mem.header < Grid(r.starts, r.firstFree, hi) <==> i < hi
  {
    var r := c.regs[x];
    OkOf(c, x);
    forall z <- r.sizes ensures s.mem.header < z {
      var j :| 0 <= j < |r.sizes| && r.sizes[j] == z;
      SizeAt(s.mem, c, x, j);
    }
    WalkGuard(r, i, hi, s.mem.header);
  }

  // The next object of the walk is in the heap, still to be visited, and as long as its header says.
  lemma WalkVisits(s: Sys, c: Mgr, f: Mgr, next: map<Ptr, Ptr>, rings: map<Ptr, seq<Ptr>>, rest: set<nat>, x: nat,
      i: nat)
    requires Sound(s, c, f, next, rings) && x < |c.regs| && i < |c.regs[x].starts|
    requires Left(s.mem.heap, s.todo, rest, x, x * SIZE + c.regs[x].starts[i])
    ensures var a := x * SIZE + c.regs[x].starts[i];
            && a in s.todo && a in s.mem.heap && a / SIZE == x
            && a + Align(SizeOf(s.mem.header, s.mem.heap[a].data)) == x * SIZE
                + Grid(c.regs[x].starts, c.regs[x].firstFree, i + 1)
  {
    var r := c.regs[x];
    OkOf(c, x);
    SizeAt(s.mem, c, x, i);
    GridIsOrdered(r.starts, r.sizes, r.firstFree, i, |r.starts|);
    AddressOf(x, r.starts[i]);
    assert 0 < r.sizes[i] && r.starts[i] + Align(r.sizes[i]) == Grid(r.starts, r.firstFree, i + 1);
  }

  // Whatever lives at or behind the i-th object of a region is that object, or starts no earlier than the next.
  lemma NextStart(c: Mgr, x: nat, i: nat, a: nat)
    requires RegionManagers.Valid(c) && x < |c.regs| && i < |c.regs[x].starts| && Live(c, a) && a / SIZE == x
    requires x * SIZE + c.regs[x].starts[i] <= a
    ensures var nxt := x * SIZE + Grid(c.regs[x].starts, c.regs[x].firstFree, i + 1);
            a == x * SIZE + c.regs[x].starts[i] || nxt <= a
  {
    hide Conserved, Roles;
    var r := c.regs[x];
    OkOf(c, x);
    var j :| 0 <= j < |r.starts| && r.starts[j] == a % SIZE;
    if j < i {
      GridIsOrdered(r.starts, r.sizes, r.firstFree, j, i);
    } else if i + 1 < j {
      GridIsOrdered(r.starts, r.sizes, r.firstFree, i + 1, j);
    }
  }

  // Visiting it leaves exactly the objects behind it.
  lemma WalkLeaves(s: Sys, s': Sys, c: Mgr, f: Mgr, next: map<Ptr, Ptr>, rings: map<Ptr, seq<Ptr>>, rest: set<nat>,
      x: nat, i: nat)
    requires Sound(s, c, f, next, rings) && x < |c.regs| && i < |c.regs[x].starts| && x !in rest
    requires Left(s.mem.heap, s.todo, rest, x, x * SIZE + c.regs[x].starts[i])
    requires s'.todo == s.todo - {x * SIZE + c.regs[x].starts[i]}
    requires HeapGrows(s.mem, s'.mem, rest + {x})
    ensures Left(s'.mem.heap, s'.todo, rest, x, x * SIZE + Grid(c.regs[x].starts, c.regs[x].firstFree, i + 1))
  {
    hide RegionManagers.ValidBut, Ok, Inv, Rings, IdsLive, Live;
    var r := c.regs[x];
    var cur, nxt := x * SIZE + r.starts[i], x * SIZE + Grid(r.starts, r.firstFree, i + 1);
    assert cur / SIZE == x && cur < nxt by {
      WalkVisits(s, c, f, next, rings, rest, x, i);
    }
    forall a: nat | a in s.mem.heap && a / SIZE == x && cur <= a && a != cur ensures nxt <= a {
      NextStart(c, x, i, a);
    }
  }

  // The first task starts at the region's first object.
  lemma WalkStarts(s: Sys, c: Mgr, f: Mgr, next: map<Ptr, Ptr>, rings: map<Ptr, seq<Ptr>>, rest: set<nat>, x: nat)
    requires Sound(s, c, f, next, rings) && x < |c.regs| && s.todo == HeapIn(s.mem, rest + {x})
    ensures Left(s.mem.heap, s.todo, rest, x, TaskStart(c.regs[x], x, 0))
  {
    hide Inv, Rings, IdsLive;
    var r := c.regs[x];
    OkOf(c, x);
    forall a | a in s.mem.heap && a / SIZE == x ensures x * SIZE + HEADER <= a {
      assert Live(c, a);
      var j :| 0 <= j < |r.starts| && r.starts[j] == a % SIZE;
      GridIsOrdered(r.starts, r.sizes, r.firstFree, j, |r.starts|);
    }
  }

  // The last task of a full region ends behind its last object.
  lemma WalkEnds(s: Sys, c: Mgr, f: Mgr, next: map<Ptr, Ptr>, rings: map<Ptr, seq<Ptr>>, rest: set<nat>, x: nat)
    requires Sound(s, c, f, next, rings) && x < |c.regs| && x in c.from
    requires Left(s.mem.heap, s.todo, rest, x, TaskStart(c.regs[x], x, |c.regs[x].boundaries|))
    ensures s.todo == HeapIn(s.mem, rest)
  {
    hide Inv, Rings, IdsLive;
    var r := c.regs[x];
    OkOf(c, x);
    assert r.sealed && Task(r, |r.boundaries|) == |r.starts|;
    forall a | a in s.mem.heap && a / SIZE == x ensures a < x * SIZE + r.firstFree {
      assert Live(c, a);
      var j :| 0 <= j < |r.starts| && r.starts[j] == a % SIZE;
      GridIsOrdered(r.starts, r.sizes, r.firstFree, j, |r.starts|);
    }
  }

  lemma OneCutEach(r: Reg)
    requires Ok(r)
    ensures |r.cuts| == |r.boundaries|
  {
  }

  // The list of from-regions has no repetition.
  lemma FromDistinct(c: Mgr, n: nat)
    requires Conserved(c) && n < |c.from|
    ensures c.from[n] < |c.regs| && c.from[n] !in SetOf(c.from[n + 1..])
    ensures SetOf(c.from[n..]) == SetOf(c.from[n + 1..]) + {c.from[n]}
  {
    var x := c.from[n];
    assert Owned(c)[x] >= Bag(c.from)[x] > 0;
    OneHolder(c, x);
    FrontAndRest(c.from[n..]);
    assert c.from == c.from[..n] + c.from[n..];
    assert Bag(c.from)[x] == Bag(c.from[..n])[x] + Bag(c.from[n..])[x];
    assert Bag(c.from[n + 1..])[x] == 0;
    assert x !in c.from[n + 1..];
    assert c.from[n..] == [x] + c.from[n + 1..];
  }

  // ---------- the ends of a round ----------

  // Picking moves regions between queues; no object is lost from sight.
  lemma LinkPicked(m: Mem, c: Mgr, c': Mgr)
    requires Linked(m, c) && RegionManagers.Valid(c) && Picking(c, c')
    ensures Linked(m, c')
  {
    hide Conserved, Roles;
    forall a: nat ensures (Live(c', a) <==> Live(c, a)) && (Pending(c', a) ==> Pending(c, a)) {
    }
    forall a: nat, z: nat ensures Holds(c', a, z) <==> Holds(c, a, z) {
    }
  }

  lemma NothingPicked(from: seq<nat>)
    ensures SetOf(from) == {} ==> from == []
  {
    if from != [] {
      assert from[0] in SetOf(from);
    }
  }

  // Between the manager's steps every object is initialised, so every queued region is collectable and a
  // pick that stops early has emptied both queues.
  lemma PickedAll(m: Mem, c: Mgr, used: seq<nat>, ntUsed: seq<nat>, from: seq<nat>, k: nat)
    requires Linked(m, c) && RegionManagers.Valid(c) && 0 < k
    requires HeadBusy(c.regs, used) && RearBusy(c.regs, ntUsed, k)
    requires Bag(used) + Bag(ntUsed) + Bag(from) == Bag(c.used) + Bag(c.ntUsed)
    ensures used == [] && ntUsed == [] && |from| == |c.used| + |c.ntUsed|
  {
    forall x | 0 <= x < |c.regs| ensures Gcable(c.regs[x]) {
      NonePending(m, c, x);
    }
    hide RegionManagers.Valid, Linked;
    if ntUsed != [] {
      LastBusy(c.regs, ntUsed, k);
    }
    assert |Bag(from)| == |Bag(c.used) + Bag(c.ntUsed)|;
  }

  lemma LastBusy(regs: seq<Reg>, q: seq<nat>, k: nat)
    requires RearBusy(regs, q, k) && 0 < k && q != []
    ensures exists x :: 0 <= x < |regs| && !Gcable(regs[x])
  {
    assert q[|q| - 1] < |regs| && !Gcable(regs[q[|q| - 1]]);
  }

  lemma BagSizes(a: seq<nat>, b: seq<nat>, a': seq<nat>, b': seq<nat>, c: seq<nat>)
    ensures Bag(a') + Bag(b') + Bag(c) == Bag(a) + Bag(b) ==> |a'| + |b'| + |c| == |a| + |b|
  {
    assert Bag(a') + Bag(b') + Bag(c) == Bag(a) + Bag(b) ==> |Bag(a') + Bag(b') + Bag(c)| == |Bag(a) + Bag(b)|;
  }

  lemma NonePending(m: Mem, c: Mgr, x: nat)
    requires Linked(m, c) && RegionManagers.Valid(c) && x < |c.regs|
    ensures Gcable(c.regs[x])
  {
    OkOf(c, x);
    var r := c.regs[x];
    forall p | p in r.pending ensures false {
      var i :| 0 <= i < |r.starts| && r.starts[i] == p;
      GridIsOrdered(r.starts, r.sizes, r.firstFree, i, |r.starts|);
      AddressOf(x, p);
      assert Pending(c, x * SIZE + p);
    }
    assert r.pending == {};
  }

  lemma PickSound(s: Sys, s': Sys, c: Mgr, c': Mgr, f: Mgr, next: map<Ptr, Ptr>, rings: map<Ptr, seq<Ptr>>)
    requires Sound(s, c, f, next, rings) && s.phase.Idle? && Picking(c, c') && RegionManagers.Valid(c')
    requires s' == s.(phase := Marking, from := SetOf(c'.from), todo := HeapIn(s.mem, SetOf(c'.from)))
    ensures Sound(s', c', f, next, rings)
    ensures c'.from == [] ==> Sound(s, c', f, next, rings)
  {
    hide RegionManagers.ValidBut, Linked, MemOk, IdsLive, Rings;
    LinkPicked(s.mem, c, c');
    PickKeeps(s, s', SetOf(c'.from));
  }

  lemma IsConserved(c: Mgr)
    requires RegionManagers.Valid(c)
    ensures Conserved(c)
  {
  }

  // A recycled region takes exactly its own objects along.
  lemma LinkRecycled(m: Mem, c: Mgr)
    requires Linked(m, c) && RegionManagers.Valid(c) && c.from != [] && c.from[0] < |c.regs|
    ensures Linked(Recycled(m, c.from[0]), Recycle(c))
  {
    hide Conserved, Roles, Regular;
    var c', m' := Recycle(c), Recycled(m, c.from[0]);
    forall a: nat ensures Live(c', a) <==> Live(c, a) && a / SIZE != c.from[0] {
      RecycleFrees(c, a);
    }
    forall a: nat ensures Pending(c', a) ==> Pending(c, a) {
    }
    forall a: nat | a in m'.heap ensures Holds(c', a, SizeOf(m'.header, m'.heap[a].data)) {
      assert Holds(c, a, SizeOf(m.header, m.heap[a].data));
    }
  }

  lemma RecycleSound(s: Sys, s': Sys, c: Mgr, f: Mgr, next: map<Ptr, Ptr>, rings: map<Ptr, seq<Ptr>>)
    requires Sound(s, c, f, next, rings) && s.phase.WritingBack? && s.todo == {} && c.from != [] && c.from[0] < |c.regs|
    requires s' == s.(mem := Recycled(s.mem, c.from[0]), from := SetOf(c.from[1..]))
    ensures Sound(s', Recycle(c), f, next, rings) && View(s'.mem) == View(s.mem)
  {
    hide RegionManagers.ValidBut, Linked, IdsLive, Rings, WordOk, ObjOk, ScopeOk;
    RecycleKeepsValid(c);
    IsConserved(c);
    FromDistinct(c, 0);
    assert c.from[0..] == c.from;
    assert SetOf(c.from[1..]) == s.from - {c.from[0]};
    LinkRecycled(s.mem, c);
    RecycleKeeps(s, s', c.from[0]);
    RecycleIsSafe(s, c.from[0]);
    RecycledKeeps(s.mem, c.from[0]);
    KeysStay(s.mem, s'.mem, next, rings, f);
  }
}
