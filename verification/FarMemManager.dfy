/**
 Class FarMemManager (aifm_changes/manager.cpp): swap-in, swap-out, allocation, reallocation and one
 collection round, as the source runs them, on top of the region managers.  Every method is proved
 to be the steps of module Evacuation that it stands for, so the round really visits every object
 of every from-region, and every allocating path pays its region's ref count back.
 */
module FarMemManagers {
  import opened PtrMeta
  import opened Regions
  import opened RegionManagers
  import opened RegionManagement
  import opened FarMemory
  import opened Evacuation
  import opened CacheHeaps
  import opened RemoteIds

  class FarMemManager {
    const header: nat           // Object::kHeaderSize
    const cache: RegionManager
    const far: RegionManager
    var mem: Mem
    var next: map<Ptr, Ptr>     // next_ptr_ of the shared pointers
    ghost var rings: map<Ptr, seq<Ptr>>
    var almostEmpty: bool
    var expected: bool          // expected_status
    var scopes: map<Tid, Scope> // the live dereference scopes
    ghost var phase: Phase
    ghost var todo: set<nat>

    ghost function S(): Sys
      reads this, cache
    {
      Sys(mem, phase, SetOf(cache.from), todo, expected, scopes)
    }

    ghost predicate Valid()
      reads this, cache, far
    {
      && cache != far && cache.Ready() && far.Ready() && mem.header == header
      && Sound(S(), cache.Value(), far.Value(), next, rings)
    }

    constructor (header: nat, cache: RegionManager, far: RegionManager)
      requires cache != far && cache.Ready() && cache.local && far.Ready() && !far.local && cache.from == []
      requires forall a: nat :: !Live(cache.Value(), a)
      ensures Valid() && this.header == header && this.cache == cache && this.far == far
      ensures View(mem) == map[] && phase.Idle? && scopes == map[] && expected == false
    {
      this.header, this.cache, this.far := header, cache, far;
      mem, next, rings := Mem(header, map[], map[], map[]), map[], map[];
      almostEmpty, expected, scopes, phase, todo := false, false, map[], Idle, {};
      new;
      forall a: nat ensures !Pending(cache.Value(), a) {
        assert a / SIZE < |cache.regs| ==> Ok(cache.regs[a / SIZE]) && !Live(cache.Value(), a);
      }
    }

    // The constructor stops the process for a far memory that ids could not address, and those of the
    // region managers for one without enough regions.
    static method Create(header: nat, cacheSize: nat, farSize: nat, cores: nat, reserved: nat, maxRetries: nat)
      returns (m: FarMemManager?)
      requires cores <= reserved
      ensures m == null <==>
                ID_SPACE <= farSize || RegionCount(cacheSize) <= 2 * reserved || RegionCount(farSize) <= 2 * reserved
      ensures m != null ==>
                && fresh(m) && fresh(m.cache) && fresh(m.far) && m.Valid() && View(m.mem) == map[]
                && m.header == header
      ensures m != null ==> m.cache.cores == m.far.cores == cores
      ensures m != null ==> Initial(m.cache.Value(), cores, RegionCount(cacheSize) - 2 * reserved)
      ensures m != null ==> Initial(m.far.Value(), cores, RegionCount(farSize) - 2 * reserved)
    {
      if ID_SPACE <= farSize {
        return null;
      }
      var cache := RegionManager.Create(cacheSize, true, cores, reserved, maxRetries);
      var far := RegionManager.Create(farSize, false, cores, reserved, maxRetries);
      if cache == null || far == null {
        return null;
      }
      m := new FarMemManager(header, cache, far);
    }

    ghost function RingOf(p: Ptr): seq<Ptr>
      requires p in mem.ptrs
      reads this
    {
      if mem.ptrs[p].shared && p in rings then rings[p] else [p]
    }

    // traverse(f), and f on the one pointer when it is not shared.
    method Traverse(p: Ptr, f: Meta<nat> -> Meta<nat>)
      requires p in mem.ptrs && (mem.ptrs[p].shared ==> p in rings && Links(next, p, rings[p]))
      requires forall q :: q in RingOf(p) ==> q in mem.ptrs
      modifies `mem
      ensures mem == OnRing(old(mem), SetOf(old(RingOf(p))), f)
    {
      if !mem.ptrs[p].shared {
        mem := mem.(ptrs := mem.ptrs[p := f(mem.ptrs[p])]);
        return;
      }
      ghost var m, r := mem, rings[p];
      var cur, first := p, true;
      ghost var i := 0;
      LinkAt(next, p, r, 0);
      assert r[..0] == [];
      hide Links;
      while first || cur != p
        invariant 0 <= i <= |r| && (first <==> i == 0)
        invariant cur == r[if i < |r| then i else 0]
        invariant cur == p <==> i == 0 || i == |r|
        invariant mem == OnRing(m, SetOf(r[..i]), f)
        decreases |r| - i
      {
        assert cur == r[i] && cur in r;
        LinkAt(next, p, r, i);
        OnRingStep(m, r, i, f);
        mem := mem.(ptrs := mem.ptrs[cur := f(mem.ptrs[cur])]);
        cur, first, i := next[cur], false, i + 1;
        if i < |r| {
          LinkAt(next, p, r, i);
        }
      }
      assert r[..i] == r;
    }

    // The loop of swap_out over a shared ring: OR of hot, OR of dirty and AND of nt.
    method SharedFlags(p: Ptr, ghost a: nat) returns (hot: bool, nt: bool, dirty: bool)
      requires p in mem.ptrs && p in rings && Links(next, p, rings[p])
      requires (forall q :: q in rings[p] <==> IsAt(mem, q, a)) && a / SIZE < |cache.regs|
      ensures (hot <==> HotAt(mem, a)) && (dirty <==> DirtyAt(mem, a)) && (nt <==> cache.regs[a / SIZE].nt)
    {
      hot, nt, dirty := false, true, false;
      ghost var r := rings[p];
      var cur, first := p, true;
      ghost var i := 0;
      while first || cur != p
        invariant 0 <= i <= |r| && (first <==> i == 0)
        invariant cur == r[if i < |r| then i else 0]
        invariant hot ==> HotAt(mem, a)
        invariant dirty ==> DirtyAt(mem, a)
        invariant forall j :: 0 <= j < i ==>
                  && IsAt(mem, r[j], a) && (mem.ptrs[r[j]].hot ==> hot)
                  && (mem.ptrs[r[j]].dirty ==> dirty)
        invariant nt <==> i == 0 || cache.regs[a / SIZE].nt
        decreases |r| - i
      {
        assert cur == r[i] && cur in r && IsAt(mem, cur, a);
        var w := mem.ptrs[cur];
        hot, dirty, nt := hot || w.hot, dirty || w.dirty, nt && cache.regs[w.addr / SIZE].nt;
        cur, first, i := next[cur], false, i + 1;
      }
      if q :| IsAt(mem, q, a) && mem.ptrs[q].hot {
        assert q in r;
      }
      if q :| IsAt(mem, q, a) && mem.ptrs[q].dirty {
        assert q in r;
      }
    }

    method RingFlags(p: Ptr, ghost a: nat) returns (hot: bool, nt: bool, dirty: bool)
      requires p in mem.ptrs && (mem.ptrs[p].shared ==> p in rings && Links(next, p, rings[p]))
      requires (forall q :: q in RingOf(p) <==> IsAt(mem, q, a)) && a / SIZE < |cache.regs|
      ensures (hot <==> HotAt(mem, a)) && (dirty <==> DirtyAt(mem, a)) && (nt <==> cache.regs[a / SIZE].nt)
    {
      assert p in RingOf(p);
      if !mem.ptrs[p].shared {
        hot, dirty := mem.ptrs[p].hot, mem.ptrs[p].dirty;
        nt := cache.regs[mem.ptrs[p].addr / SIZE].nt;
      } else {
        hot, nt, dirty := SharedFlags(p, a);
      }
    }

    // memcpy to dst, then gc_copy on every alias.
    method Redirect(p: Ptr, a: nat, dst: nat)
      requires p in mem.ptrs && (mem.ptrs[p].shared ==> p in rings && Links(next, p, rings[p]))
      requires (forall q :: q in RingOf(p) <==> IsAt(mem, q, a)) && a in mem.heap
      modifies `mem
      ensures mem == CopyTo(old(mem), a, dst)
    {
      hide Links;
      ghost var m, r := mem, RingOf(p);
      assert forall q :: q in r ==> IsAt(m, q, a);
      mem := mem.(heap := mem.heap[dst := mem.heap[a]]);
      assert RingOf(p) == r;
      Traverse(p, w => CopyMeta(w, dst));
      assert mem.ptrs == CopyTo(m, a, dst).ptrs;
    }

    // write_object when dirty, then gc_wb on every alias.
    method Expel(p: Ptr, a: nat, dirty: bool)
      requires p in mem.ptrs && (mem.ptrs[p].shared ==> p in rings && Links(next, p, rings[p]))
      requires (forall q :: q in RingOf(p) <==> IsAt(mem, q, a)) && a in mem.heap
      modifies `mem
      ensures mem == Evict(old(mem), a, dirty)
    {
      hide Links;
      ghost var m, r := mem, RingOf(p);
      assert forall q :: q in r ==> IsAt(m, q, a);
      var o := mem.heap[a];
      var size := SizeOf(mem.header, o.data);
      if dirty {
        mem := mem.(dev := mem.dev[o.key := o.data]);
      }
      assert RingOf(p) == r;
      Traverse(p, w => WriteBackMeta(w, o.key.ds, size, o.key.id));
      assert mem.ptrs == Evict(m, a, dirty).ptrs;
    }

    // A fresh object at addr is in the core's region of this kind.
    ghost predicate LandedIn(core: nat, nt: bool, addr: nat)
      reads cache
    {
      && addr / SIZE < |cache.regs| && 2 * core + 1 < |cache.slots|
      && cache.slots[2 * core + if nt then 1 else 0] == addr / SIZE && cache.regs[addr / SIZE].nt == nt
    }

    // The hot branch of swap_out: copy the object to a new address, unless the cache is full.
    method CopyOut(core: nat, p: Ptr, a: nat) returns (room: Option<nat>)
      requires Valid() && core < cache.cores && phase.WritingBack? && a in todo && IsAt(mem, p, a)
      requires a in mem.heap && mem.heap[a].owner == p && mem.ptrs[p].evac
      modifies `mem, `todo, cache
      ensures Valid() && FromKept(old(cache.Value()), cache.Value()) && cache.from == old(cache.from)
      ensures room.Some? ==>
                && Fresh(old(S()), room.value) && mem == CopyTo(old(mem), a, room.value)
                && todo == old(todo) - {a}
      ensures room.None? ==> mem == old(mem) && todo == old(todo)
      ensures room.Some? <==> old(Available(cache.Value(), 2 * core, SizeOf(header, mem.heap[a].data)))
      ensures room.Some? ==> LandedIn(core, false, room.value)
    {
      hide Linked, MemOk, IdsLive, WordOk, ObjOk, ScopeOk, TodoOk, RegionManagers.ValidBut, Alloc, Available;
      ghost var s, c := S(), cache.Value();
      var size := SizeOf(header, mem.heap[a].data);
      ObjectFits(s, c, far.Value(), next, rings, a);
      AllocFailsEmpty(c, 2 * core, size);
      CacheAlloc(s, c, far.Value(), next, rings, 2 * core, size);
      var wild;
      room, wild := cache.AllocateNb(core, false, size);
      if room.Some? {
        CopyOutSound(s, s.(mem := CopyTo(mem, a, room.value), todo := todo - {a}), c, far.Value(), next, rings,
            2 * core, a, room.value);
        RingIsAt(mem, next, p, RingOf(p), a);
        Redirect(p, a, room.value);
        todo := todo - {a};
        cache.FinishObject(room.value);
      }
    }

    // The cold branch of swap_out.
    method EvictOut(p: Ptr, a: nat, dirty: bool)
      requires Valid() && phase.WritingBack? && a in todo && a in mem.heap && mem.heap[a].owner == p && IsAt(mem, p, a)
      requires dirty <==> DirtyAt(mem, a)
      modifies `mem, `todo
      ensures Valid() && mem == Evict(old(mem), a, dirty) && todo == old(todo) - {a}
    {
      hide Linked, MemOk, IdsLive, WordOk, ObjOk, ScopeOk, TodoOk, RegionManagers.ValidBut;
      ghost var s := S();
      EvictSound(s, s.(mem := Evict(mem, a, dirty), todo := todo - {a}), cache.Value(), far.Value(), next, rings, a);
      RingIsAt(mem, next, p, RingOf(p), a);
      Expel(p, a, dirty);
      todo := todo - {a};
    }

    // swap_out(ptr, obj) of a marked object.  `room` is where it was copied to, if it was.
    method SwapOutMarked(core: nat, p: Ptr, a: nat) returns (room: Option<nat>)
      requires Valid() && core < cache.cores && phase.WritingBack? && a in todo && a in mem.heap && !mem.heap[a].freed
      requires mem.heap[a].owner == p && IsAt(mem, p, a) && mem.ptrs[p].evac && a / SIZE < |cache.regs|
      modifies `mem, `todo, cache
      ensures Valid() && FromKept(old(cache.Value()), cache.Value()) && cache.from == old(cache.from)
      ensures todo == old(todo) - {a}
      ensures mem == SwapOut(old(mem), a, old(cache.regs)[a / SIZE].nt, almostEmpty, room)
      ensures var available := old(Available(cache.Value(), 2 * core, SizeOf(header, mem.heap[a].data)));
              room.Some? <==> ToKeep(old(mem), a, old(cache.regs)[a / SIZE].nt, almostEmpty, available)
      ensures room.Some? ==> Fresh(old(S()), room.value) && LandedIn(core, false, room.value)
    {
      hide Sound, MemOk, RegionManagers.ValidBut, Evict, CopyTo, Available, Inv;
      SoundMem(S(), cache.Value(), far.Value(), next, rings);
      room := None;
      RingIsAt(mem, next, p, RingOf(p), a);
      var hot, nt, dirty := RingFlags(p, a);
      if hot && !nt && !almostEmpty {
        room := CopyOut(core, p, a);
      }
      if room.None? {
        EvictOut(p, a, dirty);
      }
    }

    // swap_out(ptr, obj).  A marked object is kept in the cache, with its whole ring at one address
    // outside every from-region, if and only if some alias was hot, its region is temporal, the cache
    // is not almost empty and the core has room for it; otherwise the whole ring is remote.  The device
    // is written if and only if the object leaves and some alias was dirty.
    method SwapOutObject(core: nat, p: Ptr, a: nat) returns (room: Option<nat>)
      requires Valid() && core < cache.cores && phase.WritingBack? && a in todo && a in mem.heap && !mem.heap[a].freed
      requires mem.heap[a].owner == p && p in mem.ptrs && mem.ptrs[p].Local?
      requires a / SIZE < |cache.regs|
      modifies `mem, `todo, cache
      ensures Valid() && FromKept(old(cache.Value()), cache.Value()) && cache.from == old(cache.from)
      ensures todo == old(todo) - {a}
      ensures room.Some? ==> Fresh(old(S()), room.value)
      ensures mem == SwapOut(old(mem), a, old(cache.regs)[a / SIZE].nt, almostEmpty, room)
      ensures !old(Marked(mem, a)) ==> mem == old(mem)
      ensures old(Marked(mem, a)) ==>
                var available := old(Available(cache.Value(), 2 * core, SizeOf(header, mem.heap[a].data)));
                var stays := ToKeep(old(mem), a, old(cache.regs)[a / SIZE].nt, almostEmpty, available);
                && Decided(old(mem), mem, a, stays)
                && (stays ==> room.Some? && room.value / SIZE !in SetOf(cache.from))
                && (stays ==> LandedIn(core, false, room.value))
                && (stays ==> forall q :: IsAt(old(mem), q, a) ==> mem.ptrs[q].addr == room.value)
    {
      hide Sound, MemOk, RegionManagers.ValidBut, Available, SwapOut;
      room := None;
      ghost var s := S();
      MarkedIsAt(s, cache.Value(), far.Value(), next, rings, a);
      if mem.ptrs[p].evac {
        ghost var m, nt := mem, cache.regs[a / SIZE].nt;
        room := SwapOutMarked(core, p, a);
        SwapOutDecides(m, a, nt, almostEmpty, room);
      } else {
        SwapOutSpares(mem, a, cache.regs[a / SIZE].nt, almostEmpty, None);
        SkipSound(s, s.(todo := todo - {a}), cache.Value(), far.Value(), next, rings, a);
        todo := todo - {a};
      }
    }

    // set_evacuation on every alias.
    method MarkRing(p: Ptr, a: nat)
      requires p in mem.ptrs && (mem.ptrs[p].shared ==> p in rings && Links(next, p, rings[p]))
      requires forall q :: q in RingOf(p) <==> IsAt(mem, q, a)
      modifies `mem
      ensures mem == Mark(old(mem), a)
    {
      hide Links;
      ghost var m := mem;
      Traverse(p, w => MarkMeta(w));
      assert mem.ptrs == Mark(m, a).ptrs;
    }

    // One object of the marking walk, under its object lock.
    method VisitMark(a: nat)
      requires Valid() && phase.Marking? && a in todo && a in mem.heap
      modifies `mem, `todo
      ensures Valid() && View(mem) == View(old(mem)) && todo == old(todo) - {a} && mem.heap == old(mem.heap)
    {
      hide Linked, MemOk, IdsLive, WordOk, ObjOk, ScopeOk, TodoOk, RegionManagers.ValidBut, View;
      ghost var s := S();
      if mem.heap[a].freed {
        SkipSound(s, s.(todo := todo - {a}), cache.Value(), far.Value(), next, rings, a);
      } else {
        var p := mem.heap[a].owner;
        MarkSound(s, s.(mem := Mark(mem, a), todo := todo - {a}), cache.Value(), far.Value(), next, rings, a);
        RingIsAt(mem, next, p, RingOf(p), a);
        MarkRing(p, a);
      }
      todo := todo - {a};
    }

    // One object of the write-back walk, under its object lock.
    method VisitWriteBack(core: nat, a: nat)
      requires Valid() && core < cache.cores && phase.WritingBack? && a in todo && a in mem.heap
      modifies `mem, `todo, cache
      ensures Valid() && FromKept(old(cache.Value()), cache.Value()) && cache.from == old(cache.from)
      ensures View(mem) == View(old(mem)) && todo == old(todo) - {a}
      ensures HeapGrows(old(mem), mem, SetOf(cache.from))
      ensures a / SIZE < |old(cache.regs)|
      ensures if old(Marked(mem, a)) then
                var available := old(Available(cache.Value(), 2 * core, SizeOf(header, mem.heap[a].data)));
                Decided(old(mem), mem, a, ToKeep(old(mem), a, old(cache.regs)[a / SIZE].nt, almostEmpty, available))
              else mem == old(mem)
    {
      hide Sound, MemOk, RegionManagers.ValidBut, View, Available, ToKeep, Decided, SwapOut, Inv;
      SoundMem(S(), cache.Value(), far.Value(), next, rings);
      ghost var s, c := S(), cache.Value();
      InCache(s, c, far.Value(), next, rings, a);
      var p := mem.heap[a].owner;
      if mem.heap[a].freed || p !in mem.ptrs {
        SkipSound(s, s.(todo := todo - {a}), c, far.Value(), next, rings, a);
        todo := todo - {a};
      } else {
        MarkedIsAt(s, c, far.Value(), next, rings, a);
        var room := SwapOutObject(core, p, a);
        SwapOutKeeps(s.mem, a, c.regs[a / SIZE].nt, almostEmpty, room);
        SwapOutGrows(s.mem, a, c.regs[a / SIZE].nt, almostEmpty, room, SetOf(cache.from));
      }
    }

    // slave_fn of the marker on task k of region x: it visits every object of the task, once, in order.
    method MarkTask(x: nat, k: nat, ghost rest: set<nat>)
      requires Valid() && phase.Marking? && TaskReady(cache.Value(), x, k, rest)
      requires Left(mem.heap, todo, rest, x, TaskStart(cache.regs[x], x, k))
      modifies `mem, `todo
      ensures Valid() && View(mem) == View(old(mem))
      ensures Left(mem.heap, todo, rest, x, TaskStart(cache.regs[x], x, k + 1))
    {
      hide Linked, Inv, IdsLive, Rings, RegionManagers.ValidBut, View, Left, Ok;
      var r := cache.regs[x];
      OkOf(cache.Value(), x);
      TasksCover(r, k);
      var cur := x * SIZE + if k == 0 then HEADER else r.boundaries[k - 1];
      var right := x * SIZE + r.boundaries[k];
      ghost var i := Task(r, k);
      while cur + header < right
        invariant Valid() && View(mem) == View(old(mem))
        invariant Task(r, k) <= i <= Task(r, k + 1) && cur == x * SIZE + Grid(r.starts, r.firstFree, i)
        invariant Left(mem.heap, todo, rest, x, cur)
        decreases Task(r, k + 1) - i
      {
        WalkGuardHolds(S(), cache.Value(), far.Value(), next, rings, x, i, Task(r, k + 1));
        WalkVisits(S(), cache.Value(), far.Value(), next, rings, rest, x, i);
        ghost var before := S();
        VisitMark(cur);
        WalkLeaves(before, S(), cache.Value(), far.Value(), next, rings, rest, x, i);
        cur := cur + Align(SizeOf(header, mem.heap[cur].data));
        i := i + 1;
      }
      WalkGuardHolds(S(), cache.Value(), far.Value(), next, rings, x, i, Task(r, k + 1));
    }

    // slave_fn of the write-backer on task k of region x.
    method WriteBackTask(core: nat, x: nat, k: nat, ghost rest: set<nat>)
      requires Valid() && core < cache.cores && phase.WritingBack? && TaskReady(cache.Value(), x, k, rest)
      requires Left(mem.heap, todo, rest, x, TaskStart(cache.regs[x], x, k))
      modifies `mem, `todo, cache
      ensures Valid() && View(mem) == View(old(mem))
      ensures FromKept(old(cache.Value()), cache.Value()) && cache.from == old(cache.from)
      ensures Left(mem.heap, todo, rest, x, TaskStart(cache.regs[x], x, k + 1))
    {
      hide Linked, Inv, IdsLive, Rings, RegionManagers.ValidBut, View, Left, Ok;
      ghost var c := cache.Value();
      var r := cache.regs[x];
      OkOf(c, x);
      TasksCover(r, k);
      var cur := x * SIZE + if k == 0 then HEADER else r.boundaries[k - 1];
      var right := x * SIZE + r.boundaries[k];
      ghost var i := Task(r, k);
      while cur + header < right
        invariant Valid() && View(mem) == View(old(mem))
        invariant FromKept(c, cache.Value()) && cache.from == c.from && cache.regs[x] == r
        invariant Task(r, k) <= i <= Task(r, k + 1) && cur == x * SIZE + Grid(r.starts, r.firstFree, i)
        invariant Left(mem.heap, todo, rest, x, cur)
        decreases Task(r, k + 1) - i
      {
        WalkGuardHolds(S(), cache.Value(), far.Value(), next, rings, x, i, Task(r, k + 1));
        WalkVisits(S(), cache.Value(), far.Value(), next, rings, rest, x, i);
        ghost var before, was := S(), cache.Value();
        VisitWriteBack(core, cur);
        WalkLeaves(before, S(), was, far.Value(), next, rings, rest, x, i);
        cur := cur + Align(SizeOf(header, mem.heap[cur].data));
        i := i + 1;
      }
      WalkGuardHolds(S(), cache.Value(), far.Value(), next, rings, x, i, Task(r, k + 1));
    }

    // master_fn and the marker's slaves: every object of every from-region is marked.
    method MarkRegions()
      requires Valid() && phase.Marking? && todo == HeapIn(mem, SetOf(cache.from))
      modifies `mem, `todo
      ensures Valid() && View(mem) == View(old(mem)) && todo == {}
    {
      hide Linked, Inv, IdsLive, Rings, View, Left, Ok, Roles, Regular;
      for n := 0 to |cache.from|
        invariant Valid() && View(mem) == View(old(mem))
        invariant todo == HeapIn(mem, SetOf(cache.from[n..]))
      {
        FromDistinct(cache.Value(), n);
        var x := cache.from[n];
        ghost var rest := SetOf(cache.from[n + 1..]);
        WalkStarts(S(), cache.Value(), far.Value(), next, rings, rest, x);
        OkOf(cache.Value(), x);
        OneCutEach(cache.regs[x]);
        for k := 0 to |cache.regs[x].boundaries|
          invariant Valid() && View(mem) == View(old(mem))
          invariant Left(mem.heap, todo, rest, x, TaskStart(cache.regs[x], x, k))
        {
          MarkTask(x, k, rest);
        }
        WalkEnds(S(), cache.Value(), far.Value(), next, rings, rest, x);
      }
    }

    // master_fn and the write-backer's slaves.
    method WriteBackRegions(core: nat)
      requires Valid() && core < cache.cores && phase.WritingBack? && todo == HeapIn(mem, SetOf(cache.from))
      modifies `mem, `todo, cache
      ensures Valid() && View(mem) == View(old(mem)) && todo == {}
      ensures cache.from == old(cache.from)
    {
      hide Linked, Inv, IdsLive, Rings, View, Left, Ok, Roles, Regular;
      ghost var from := cache.from;
      for n := 0 to |cache.from|
        invariant Valid() && View(mem) == View(old(mem)) && cache.from == from
        invariant todo == HeapIn(mem, SetOf(from[n..]))
      {
        FromDistinct(cache.Value(), n);
        var x := cache.from[n];
        ghost var rest := SetOf(cache.from[n + 1..]);
        WalkStarts(S(), cache.Value(), far.Value(), next, rings, rest, x);
        OkOf(cache.Value(), x);
        ghost var r := cache.regs[x];
        OneCutEach(r);
        for k := 0 to |cache.regs[x].boundaries|
          invariant Valid() && View(mem) == View(old(mem)) && cache.from == from && x < |cache.regs|
                    && cache.regs[x] == r
          invariant Left(mem.heap, todo, rest, x, TaskStart(r, x, k))
        {
          WriteBackTask(core, x, k, rest);
        }
        WalkEnds(S(), cache.Value(), far.Value(), next, rings, rest, x);
      }
    }

    // Phase 1 of a round.
    method PickRegions(target: nat)
      requires Valid() && phase.Idle?
      modifies `phase, `todo, cache
      ensures Valid() && (cache.from == [] ==> phase.Idle?)
      ensures cache.from != [] ==> phase.Marking? && todo == HeapIn(mem, SetOf(cache.from))
      // As many regions as asked for, and at least one, or all there are.
      ensures var most, there := if target == 0 then 1 else target, |old(cache.used)| + |old(cache.ntUsed)|;
              |cache.from| == if there < most then there else most
      ensures forall x <- cache.from :: x in old(cache.used) || x in old(cache.ntUsed)
    {
      hide Linked, MemOk, IdsLive, Rings, WordOk, ObjOk, ScopeOk, RegionManagers.ValidBut, HeadBusy, RearBusy;
      ghost var s, c := S(), cache.Value();
      NothingPicked(cache.from);
      cache.PickFromRegions(target);
      if |cache.from| < if target == 0 then 1 else target {
        PickedAll(mem, c, cache.used, cache.ntUsed, cache.from, cache.maxRetries + 2);
      }
      BagSizes(c.used, c.ntUsed, cache.used, cache.ntUsed, cache.from);
      ghost var s' := s.(phase := Marking, from := SetOf(cache.from), todo := HeapIn(mem, SetOf(cache.from)));
      PickSound(s, s', c, cache.Value(), far.Value(), next, rings);
      if cache.from != [] {
        phase, todo := Marking, HeapIn(mem, SetOf(cache.from));
      }
    }

    // The first half of wait_mutators_observation, whatever scopes are open.
    method Flip()
      requires Valid() && phase.Marking? && todo == {}
      modifies `phase, `expected
      ensures Valid() && phase.Waiting? && expected == !old(expected)
    {
      hide Linked, MemOk, IdsLive, Rings, WordOk, ObjOk, ScopeOk, RegionManagers.ValidBut;
      ghost var s := S();
      expected, phase := !expected, Waiting;
      FlipKeeps(s, S());
    }

    // get_num_threads(old_status) has come down to zero: every open scope was entered after the flip.
    method EndWait()
      requires Valid() && phase.Waiting? && forall t :: t in scopes ==> scopes[t].status == expected
      modifies `phase, `todo
      ensures Valid() && phase.WritingBack? && todo == HeapIn(mem, SetOf(cache.from))
      ensures forall t, h :: t in scopes && h in scopes[t].held ==> h.addr / SIZE !in SetOf(cache.from)
    {
      hide Linked, MemOk, IdsLive, Rings, WordOk, ObjOk, ScopeOk, RegionManagers.ValidBut;
      ghost var s := S();
      phase, todo := WritingBack, HeapIn(mem, SetOf(cache.from));
      EndWaitKeeps(s, S());
      HeldOutside(S());
    }

    // Phase 5: the from-regions go to the free list.
    method RecycleRegions()
      requires Valid() && phase.WritingBack? && todo == {}
      modifies `phase, `mem, cache
      ensures Valid() && phase.Idle? && View(mem) == View(old(mem)) && cache.from == []
      ensures cache.free == old(cache.free) + old(cache.from)
    {
      hide Linked, Inv, IdsLive, Rings, View, RegionManagers.ValidBut;
      ghost var from, free := cache.from, cache.free;
      ghost var n := 0;
      while cache.from != []
        invariant Valid() && View(mem) == View(old(mem))
        invariant phase.WritingBack? && todo == {}
        invariant n <= |from| && cache.from == from[n..] && cache.free == free + from[..n]
        decreases |cache.from|
      {
        ghost var s, c := S(), cache.Value();
        var r := cache.from[0];
        RecycleKeepsValid(c);
        RecycleSound(s, s.(mem := Recycled(mem, r), from := SetOf(c.from[1..])), c, far.Value(), next, rings);
        cache.PushFree();
        mem := Recycled(mem, r);
        n := n + 1;
      }
      ghost var s := S();
      phase := Idle;
      EndRoundKeeps(s, S());
    }

    // Phases 4 and 5, once no scope carries the old status.  `stillLow` is is_free_cache_almost_empty()
    // at the end.
    method FinishRound(core: nat, stillLow: bool)
      requires Valid() && phase.Waiting? && core < cache.cores
      requires forall t :: t in scopes ==> scopes[t].status == expected
      modifies `phase, `todo, `mem, `almostEmpty, cache
      ensures Valid() && phase.Idle? && cache.from == [] && View(mem) == View(old(mem))
      ensures |old(cache.from)| <= |cache.free| && cache.free[|cache.free| - |old(cache.from)|..] == old(cache.from)
      ensures almostEmpty == (old(almostEmpty) && stillLow)
    {
      hide Sound, View, RegionManagers.ValidBut;
      EndWait();
      WriteBackRegions(core);
      RecycleRegions();
      if !stillLow {
        almostEmpty := false;
      }
    }

    // One round of gc_cache.
    method GcRound(core: nat, target: nat, stillLow: bool) returns (picked: nat, ghost regions: seq<nat>)
      requires Valid() && phase.Idle? && core < cache.cores && scopes == map[]
      modifies this, cache
      ensures Valid() && phase.Idle? && cache.from == []
      ensures View(mem) == View(old(mem)) && next == old(next) && scopes == map[]
      // As many regions as asked for, and at least one, or all there are; the cache counts as almost
      // empty no longer exactly if regions were collected and it is not.
      ensures picked == |regions| && (picked == 0 ==> mem == old(mem))
      ensures var most, there := if target == 0 then 1 else target, |old(cache.used)| + |old(cache.ntUsed)|;
              picked == if there < most then there else most
      ensures almostEmpty == (old(almostEmpty) && (picked == 0 || stillLow))
      // Full regions became free ones, at the end of the queue.
      ensures forall x <- regions :: x in old(cache.used) || x in old(cache.ntUsed)
      ensures picked <= |cache.free| && cache.free[|cache.free| - picked..] == regions
    {
      hide Sound, View, RegionManagers.ValidBut;
      PickRegions(target);
      picked, regions := |cache.from|, cache.from;
      if picked != 0 {
        MarkRegions();
        Flip();
        FinishRound(core, stillLow);
      }
    }

    method OpenAndDeref(core: nat, t: Tid, p: Ptr) returns (addr: Option<nat>)
      requires Valid() && core < cache.cores && scopes == map[] && p in View(mem)
      modifies `mem, `scopes, cache
      ensures Valid() && View(mem) == View(old(mem)) && cache.from == old(cache.from)
      ensures scopes.Keys == {t} && scopes[t].status == expected
      ensures addr.Some? ==> Handle(p, addr.value, false) in scopes[t].held
    {
      ViewKeys(mem);
      hide Sound, View, RegionManagers.ValidBut, MemOk;
      OpenScope(t);
      addr := Deref(core, t, p, false);
    }

    // The same round beside a mutator that opens a scope after the flip, reads a pointer and keeps the
    // scope open until the end: its address outlives the collection of every region picked.
    method GcRoundBesideReader(core: nat, target: nat, t: Tid, p: Ptr, stillLow: bool)
      returns (addr: Option<nat>, picked: nat)
      requires Valid() && phase.Idle? && core < cache.cores && scopes == map[] && p in View(mem)
      modifies this, cache
      ensures Valid() && phase.Idle? && cache.from == [] && View(mem) == View(old(mem))
      ensures t in scopes && (addr.Some? ==> Handle(p, addr.value, false) in scopes[t].held && addr.value in mem.heap)
      ensures var most, there := if target == 0 then 1 else target, |old(cache.used)| + |old(cache.ntUsed)|;
              picked == if there < most then there else most
      ensures almostEmpty == (old(almostEmpty) && (picked == 0 || stillLow))
    {
      hide Sound, View, RegionManagers.ValidBut;
      PickRegions(target);
      picked := |cache.from|;
      if picked == 0 {
        addr := OpenAndDeref(core, t, p);
      } else {
        MarkRegions();
        Flip();
        addr := OpenAndDeref(core, t, p);
        FinishRound(core, stillLow);
      }
      if addr.Some? {
        HeldIsInHeap(S(), cache.Value(), far.Value(), next, rings, t, Handle(p, addr.value, false));
      }
    }

    // gc_check finds the cache almost empty; it takes no lock for this.
    method RunLow()
      requires Valid()
      modifies `almostEmpty
      ensures Valid() && almostEmpty
    {
      almostEmpty := true;
    }

    // ---------- the mutators' side ----------

    // set_present on every alias, once the object is in place.
    method Bind(p: Ptr, dst: nat)
      requires p in mem.ptrs && mem.ptrs[p].Remote? && (mem.ptrs[p].shared ==> p in rings && Links(next, p, rings[p]))
      requires forall q :: q in RingOf(p) <==> IsOut(mem, q, KeyOf(mem, p))
      modifies `mem
      ensures mem == SwapIn(old(mem), p, dst)
    {
      hide Links;
      ghost var m, r := mem, RingOf(p);
      assert forall q :: q in r ==> IsOut(m, q, KeyOf(m, p));
      var k := Key(mem.ptrs[p].ds, mem.ptrs[p].id);
      mem := mem.(heap := mem.heap[dst := Obj(p, k, if k in mem.dev then mem.dev[k] else [], false)]);
      assert RingOf(p) == r;
      Traverse(p, w => PresentMeta(w, dst));
      assert mem.ptrs == SwapIn(m, p, dst).ptrs;
    }

    // swap_in of an absent object.  `room` is where it came to.
    method SwapInAbsent(core: nat, nt: bool, p: Ptr) returns (room: Option<nat>)
      requires Valid() && core < cache.cores && p in mem.ptrs && mem.ptrs[p].Remote?
      modifies `mem, cache
      ensures Valid() && cache.from == old(cache.from)
      ensures room.None? ==> mem == old(mem) && cache.free == []
      ensures room.Some? ==> Fresh(old(S()), room.value) && mem == SwapIn(old(mem), p, room.value)
      ensures room.Some? ==> LandedIn(core, nt, room.value)
      ensures HEADER + Align(SizeOf(header, old(Content(mem, p)))) <= SIZE ==>
                var k := 2 * core + if nt then 1 else 0;
                room.Some? <==> old(Available(cache.Value(), k, SizeOf(header, Content(mem, p))))
    {
      hide Sound, MemOk, Inv, Rings, IdsLive, RegionManagers.ValidBut, Alloc, View, Content, Invisible, Available;
      ghost var s, c := S(), cache.Value();
      SoundMem(s, c, far.Value(), next, rings);
      var k := 2 * core + if nt then 1 else 0;
      AbsentSize(mem, p);
      var size := mem.ptrs[p].size;
      CacheAlloc(s, c, far.Value(), next, rings, k, size);
      AllocFailsEmpty(c, k, size);
      var wild;
      room, wild := cache.AllocateNb(core, nt, size);
      if room.Some? {
        SwapInSound(s, s.(mem := SwapIn(mem, p, room.value)), c, far.Value(), next, rings, k, p, room.value);
        RingIsOut(mem, next, p, RingOf(p));
        hide SwapIn;
        Bind(p, room.value);
        cache.FinishObject(room.value);
      }
    }

    // swap_in(nt, ptr), up to the wait for the collector when the cache is full (`blocked`).
    method SwapInObject(core: nat, nt: bool, p: Ptr) returns (blocked: bool)
      requires Valid() && core < cache.cores && p in mem.ptrs
      modifies `mem, cache
      ensures Valid() && Invisible(old(mem), mem)
      ensures !blocked ==> mem.ptrs[p].Local?
      ensures forall q :: q in old(mem).ptrs && old(mem).ptrs[q].Local? ==> q in mem.ptrs && mem.ptrs[q].Local?
      ensures old(mem).ptrs[p].Local? ==> !blocked && mem == old(mem) && cache.Value() == old(cache.Value())
      ensures blocked ==> mem == old(mem) && cache.free == []
      ensures cache.from == old(cache.from)
      // The object comes into a region of the kind asked for.
      ensures old(mem).ptrs[p].Remote? && !blocked ==> LandedIn(core, nt, mem.ptrs[p].addr)
      ensures old(mem).ptrs[p].Remote? && HEADER + Align(SizeOf(header, old(Content(mem, p)))) <= SIZE ==>
                var k := 2 * core + if nt then 1 else 0;
                blocked <==> !old(Available(cache.Value(), k, SizeOf(header, Content(mem, p))))
    {
      hide Sound, MemOk, RegionManagers.ValidBut, View, Content, Available, LandedIn;
      SoundMem(S(), cache.Value(), far.Value(), next, rings);
      InvisibleToItself(mem);
      blocked := false;
      if mem.ptrs[p].Remote? {
        ghost var m := mem;
        var room := SwapInAbsent(core, nt, p);
        blocked := room.None?;
        if !blocked {
          SwapInKeeps(m, p, room.value);
          SwapInLands(m, p, room.value);
        }
      }
    }

    // Room in the cache, and then a remote id.
    method RoomAndId(core: nat, size: nat) returns (room: Option<nat>, id: Option<nat>)
      requires cache != far && cache.Ready() && far.Ready() && core < cache.cores && core < far.cores && 0 < size
      modifies cache, far
      ensures cache.Ready() && far.Ready() && (cache.Value(), room) == Alloc(old(cache.Value()), 2 * core, size)
      ensures room.None? ==> id.None? && far.Value() == old(far.Value()) && cache.free == []
      ensures room.Some? ==> (far.Value(), id) == Alloc(old(far.Value()), 2 * core, size)
      ensures room.Some? && id.None? ==> far.free == []
      ensures room.Some? && cache.local ==> LandedIn(core, false, room.value)
      ensures HEADER + Align(size) <= SIZE ==>
                && (room.Some? <==> old(Available(cache.Value(), 2 * core, size)))
                && (id.Some? <==> room.Some? && old(Available(far.Value(), 2 * core, size)))
    {
      hide RegionManagers.ValidBut, Alloc, Available;
      AllocFailsEmpty(cache.Value(), 2 * core, size);
      AllocFailsEmpty(far.Value(), 2 * core, size);
      var wild;
      room, wild := cache.AllocateNb(core, false, size);
      id := None;
      if room.Some? {
        id, wild := far.AllocateNb(core, false, size);
      }
    }

    // allocate_generic_unique_ptr_nb without a caller's id.
    method AllocateUniqueNb(core: nat, p: Ptr, ds: nat, data: Bytes) returns (outcome: Outcome)
      requires Valid() && core < cache.cores && core < far.cores && p !in mem.ptrs
      modifies `mem, cache, far
      ensures !outcome.Stuck? ==> Valid()
      ensures outcome.Done? ==>
                && p in mem.ptrs && mem.ptrs[p].Local? && mem.ptrs[p].dirty
                && View(mem) == View(old(mem))[p := data]
      ensures outcome.Done? ==> !mem.ptrs[p].shared && mem.ptrs == old(mem).ptrs[p := mem.ptrs[p]]
      ensures !outcome.Done? ==> mem == old(mem)
      ensures outcome.Full? ==> cache.free == [] && far.Value() == old(far.Value())
      ensures outcome.Stuck? ==> far.free == []
      // For a size that fits a region the outcome is known beforehand.
      ensures HEADER + Align(SizeOf(header, data)) <= SIZE ==>
                && (outcome.Full? <==> !old(Available(cache.Value(), 2 * core, SizeOf(header, data))))
                && (outcome.Done? <==> old(Available(cache.Value(), 2 * core, SizeOf(header, data)))
                                       && old(Available(far.Value(), 2 * core, SizeOf(header, data))))
      ensures outcome.Done? ==> LandedIn(core, false, mem.ptrs[p].addr)
      // The id is new, and of the data structure asked for.
      ensures outcome.Done? ==>
                && KeyOf(mem, p).ds == ds
                && Live(far.Value(), KeyOf(mem, p).id) && !Live(old(far.Value()), KeyOf(mem, p).id)
    {
      hide Linked, MemOk, IdsLive, Rings, WordOk, ObjOk, ScopeOk, TodoOk, RegionManagers.ValidBut, Alloc, View;
      hide Live, Available, Fits, Align;
      ghost var s, c, f := S(), cache.Value(), far.Value();
      var size := SizeOf(header, data);
      CacheAlloc(s, c, f, next, rings, 2 * core, size);
      FarGrows(s, c, f, next, rings, 2 * core, size);
      var room, id := RoomAndId(core, size);
      if room.None? {
        return Full;
      }
      if id.None? {
        return Stuck;
      }
      var k := Key(ds, id.value);
      NewSound(s, s.(mem := Allocate(mem, p, false, k, data, room.value)), c, far.Value(), next, rings, 2 * core, p, k,
          data, room.value);
      mem := Allocate(mem, p, false, k, data, room.value);
      cache.FinishObject(room.value);
      outcome := Done;
    }

    // reallocate_generic_unique_ptr_nb, after its dereference.  A vanilla object gets a new id.
    method ReallocateUniqueNb(core: nat, p: Ptr, vanilla: nat, data: Bytes) returns (outcome: Outcome)
      requires Valid() && core < cache.cores && core < far.cores
      requires p in mem.ptrs && mem.ptrs[p].Local? && !mem.ptrs[p].shared
      modifies `mem, cache, far
      ensures !outcome.Stuck? ==> Valid()
      ensures outcome.Done? ==>
                && p in mem.ptrs && mem.ptrs[p].Local? && mem.ptrs[p].dirty
                && View(mem) == View(old(mem))[p := data]
      ensures !outcome.Done? ==> mem == old(mem)
      ensures outcome.Full? ==> cache.free == [] && far.Value() == old(far.Value())
      ensures outcome.Stuck? ==> far.free == [] && KeyOf(old(mem), p).ds == vanilla
      // For a size that fits a region the outcome is known beforehand.
      ensures HEADER + Align(SizeOf(header, data)) <= SIZE ==>
                && (outcome.Full? <==> !old(Available(cache.Value(), 2 * core, SizeOf(header, data))))
                && (outcome.Stuck? <==> old(Available(cache.Value(), 2 * core, SizeOf(header, data)))
                                        && KeyOf(old(mem), p).ds == vanilla
                                        && !old(Available(far.Value(), 2 * core, SizeOf(header, data))))
      ensures outcome.Done? ==> LandedIn(core, false, mem.ptrs[p].addr)
      // The data structure stays; the id is a new one in the vanilla case and the old one otherwise.
      ensures outcome.Done? ==> KeyOf(mem, p).ds == KeyOf(old(mem), p).ds && Live(far.Value(), KeyOf(mem, p).id)
      ensures outcome.Done? ==> (KeyOf(mem, p) == KeyOf(old(mem), p) <==> KeyOf(old(mem), p).ds != vanilla)
      ensures outcome.Done? && KeyOf(old(mem), p).ds == vanilla ==> !Live(old(far.Value()), KeyOf(mem, p).id)
      ensures KeyOf(old(mem), p).ds != vanilla ==> far.Value() == old(far.Value())
    {
      hide Linked, MemOk, IdsLive, Rings, WordOk, ObjOk, ScopeOk, TodoOk, RegionManagers.ValidBut, Alloc, View;
      ghost var s, c, f := S(), cache.Value(), far.Value();
      PresentObject(mem, p);
      var size := SizeOf(header, data);
      CacheAlloc(s, c, f, next, rings, 2 * core, size);
      AllocFailsEmpty(c, 2 * core, size);
      var room, wild := cache.AllocateNb(core, false, size);
      if room.None? {
        return Full;
      }
      var k := KeyOf(mem, p);
      IdIsLive(mem, f, p);
      if k.ds == vanilla {
        FarGrows(s, c, f, next, rings, 2 * core, size);
        AllocFailsEmpty(f, 2 * core, size);
        var id, far_wild := far.AllocateNb(core, false, size);
        if id.None? {
          return Stuck;
        }
        k := Key(k.ds, id.value);
      }
      RenewSound(s, s.(mem := Reallocate(mem, p, k, data, room.value)), c, far.Value(), next, rings, 2 * core, p, k,
          data, room.value);
      mem := Reallocate(mem, p, k, data, room.value);
      cache.FinishObject(room.value);
      outcome := Done;
    }

    // mutator_migrate_object: a mutator copies a marked object out of a region under collection.
    method Migrate(core: nat, p: Ptr) returns (blocked: bool)
      requires Valid() && core < cache.cores && p in mem.ptrs && mem.ptrs[p].Local? && mem.ptrs[p].evac
      modifies `mem, cache
      ensures Valid() && Invisible(old(mem), mem) && p in mem.ptrs && mem.ptrs[p].Local?
      ensures blocked ==> mem == old(mem) && cache.free == []
      ensures !blocked ==> !mem.ptrs[p].evac && mem.ptrs[p].addr / SIZE !in SetOf(cache.from)
      ensures cache.from == old(cache.from)
      ensures !blocked ==> LandedIn(core, false, mem.ptrs[p].addr)
      ensures blocked <==> !old(Available(cache.Value(), 2 * core, SizeOf(header, Content(mem, p))))
    {
      hide Linked, MemOk, IdsLive, WordOk, ObjOk, ScopeOk, TodoOk, RegionManagers.ValidBut, Alloc, View, Available;
      ghost var s, c := S(), cache.Value();
      OwnerIsMarked(s, p);
      var a := mem.ptrs[p].addr;
      var size := SizeOf(header, mem.heap[a].data);
      ObjectFits(s, c, far.Value(), next, rings, a);
      CacheAlloc(s, c, far.Value(), next, rings, 2 * core, size);
      AllocFailsEmpty(c, 2 * core, size);
      InvisibleToItself(mem);
      var room, wild := cache.AllocateNb(core, false, size);
      blocked := room.None?;
      if !blocked {
        MigrateSound(s, s.(mem := CopyTo(mem, a, room.value)), c, far.Value(), next, rings, 2 * core, p, room.value);
        RingIsAt(mem, next, p, RingOf(p), a);
        Redirect(p, a, room.value);
        cache.FinishObject(room.value);
      }
    }

    // The slow path of a dereference: swap in an absent object, migrate a marked one.
    method BringIn(core: nat, p: Ptr) returns (blocked: bool)
      requires Valid() && core < cache.cores && p in mem.ptrs
      modifies `mem, cache
      ensures Valid() && p in mem.ptrs && View(mem) == View(old(mem))
      ensures if blocked then cache.free == [] else mem.ptrs[p].Local? && !mem.ptrs[p].evac
      ensures cache.from == old(cache.from)
    {
      hide Sound, MemOk, View, RegionManagers.ValidBut;
      blocked := SwapInObject(core, false, p);
      if !blocked && mem.ptrs[p].evac {
        blocked := Migrate(core, p);
      }
    }

    // A dereference in scope t.
    method Deref(core: nat, t: Tid, p: Ptr, mut: bool) returns (addr: Option<nat>)
      requires Valid() && core < cache.cores && t in scopes && p in mem.ptrs
      modifies `mem, `scopes, cache
      ensures Valid() && View(mem) == View(old(mem))
      ensures addr.None? ==> scopes == old(scopes) && cache.free == []
      ensures cache.from == old(cache.from)
      ensures addr.Some? ==>
                && IsAt(mem, p, addr.value) && mem.ptrs[p].hot && (mut ==> mem.ptrs[p].dirty)
                && !mem.ptrs[p].evac
      ensures addr.Some? ==>
                var held := old(scopes)[t].held + {Handle(p, addr.value, mut)};
                scopes == old(scopes)[t := old(scopes)[t].(held := held)]
    {
      hide Sound, MemOk, View, RegionManagers.ValidBut;
      var blocked := BringIn(core, p);
      if blocked {
        return None;
      }
      ghost var s := S();
      addr := Some(mem.ptrs[p].addr);
      mem := if mut then DerefMut(mem, p) else FarMemory.SetHot(mem, p, true);
      scopes := scopes[t := scopes[t].(held := scopes[t].held + {Handle(p, addr.value, mut)})];
      HoldSound(s, S(), cache.Value(), far.Value(), next, rings, t, p, mut);
    }

    // A unique pointer is freed.
    method FreeUnique(p: Ptr)
      requires Valid() && p in mem.ptrs && !mem.ptrs[p].shared
      modifies `mem
      ensures Valid() && View(mem) == View(old(mem)) - {p}
    {
      hide Sound, MemOk, View, RegionManagers.ValidBut;
      ghost var s := S();
      mem := FarMemory.Free(mem, p);
      FreeSound(s, S(), cache.Value(), far.Value(), next, rings, p);
    }

    method OpenScope(t: Tid)
      requires Valid() && t !in scopes
      modifies `scopes
      ensures Valid() && scopes == old(scopes)[t := Scope(expected, {})]
    {
      ghost var s := S();
      scopes := scopes[t := Scope(expected, {})];
      EnterStep(s, S(), t);
    }

    method CloseScope(t: Tid)
      requires Valid() && t in scopes
      modifies `scopes
      ensures Valid() && scopes == old(scopes) - {t}
    {
      ghost var s := S();
      scopes := scopes - {t};
      ExitStep(s, S(), t);
    }
  }
}
