/**
 One region of the log-structured allocator (aifm_changes/region.hpp).

 `Reg` is the whole state of a region: the fields of the source's class, the object headers in its
 buffer (`starts`, `sizes`) and which of them are still being written (`pending`).  The functions
 on `Reg` are the specification; class `Region` is the source's class, proved against them.
 Offsets count from the start of the region's buffer.
 */
module Regions {

  type Tid = nat  // a thread

  datatype Option<+T> = None | Some(value: T)

  const SIZE: nat := 1024      // Region::kSize
  const HEADER: nat := 6       // Region::kHeaderSize
  const PARALLELISM: nat := 2  // Region::kGCParallelism

  function Align(n: nat): (r: nat)
    ensures r % 8 == 0 && n <= r < n + 8
  {
    (n + 7) / 8 * 8
  }

  // ---------- the layout of one region ----------

  // The i-th position of the object grid: the start of object i, or the end after the last one.
  function Grid(starts: seq<nat>, end: nat, i: nat): nat
    requires i <= |starts|
  {
    if i < |starts| then starts[i] else end
  }

  // Objects lie back to back from the region header to `end`, each padded to 8 bytes.
  ghost predicate Packed(starts: seq<nat>, sizes: seq<nat>, end: nat) {
    && |starts| == |sizes|
    && Grid(starts, end, 0) == HEADER
    && end <= SIZE && end % 8 == HEADER
    && forall i {:trigger sizes[i]} :: 0 <= i < |starts| ==>
         && 0 < sizes[i]
         && starts[i] + Align(sizes[i]) == Grid(starts, end, i + 1)
  }

  // Objects do not overlap, whatever their distance on the grid.
  lemma {:induction false} GridIsOrdered(starts: seq<nat>, sizes: seq<nat>, end: nat, i: nat, j: nat)
    requires Packed(starts, sizes, end) && i < j <= |starts|
    ensures starts[i] + Align(sizes[i]) <= Grid(starts, end, j)
    ensures HEADER <= starts[i]
    decreases j
  {
    assert starts[i] + Align(sizes[i]) == Grid(starts, end, i + 1);
    if i + 1 < j {
      assert starts[j - 1] + Align(sizes[j - 1]) == Grid(starts, end, j);
      GridIsOrdered(starts, sizes, end, i, j - 1);
    } else if 0 < i {
      GridIsOrdered(starts, sizes, end, i - 1, i);
    }
  }

  // Boundary k is the grid position cuts[k]; the cuts move forward.
  ghost predicate Cut(starts: seq<nat>, end: nat, boundaries: seq<nat>, cuts: seq<nat>) {
    && |cuts| == |boundaries|
    && (forall k :: 0 <= k < |cuts| ==> cuts[k] <= |starts| && boundaries[k] == Grid(starts, end, cuts[k]))
    && (forall j, k :: 0 <= j < k < |cuts| ==> cuts[j] <= cuts[k])
  }

  lemma EndIsPastEveryStart(starts: seq<nat>, sizes: seq<nat>, end: nat)
    requires Packed(starts, sizes, end)
    ensures end !in starts
  {
    forall i | 0 <= i < |starts| ensures starts[i] < end {
      GridIsOrdered(starts, sizes, end, i, |starts|);
    }
  }

  // Appending an object at the end keeps the layout and every cut.
  lemma AppendKeepsPacked(starts: seq<nat>, sizes: seq<nat>, end: nat, size: nat)
    requires Packed(starts, sizes, end) && 0 < size && end + Align(size) <= SIZE
    ensures Packed(starts + [end], sizes + [size], end + Align(size))
  {
  }

  lemma AppendKeepsCut(starts: seq<nat>, end: nat, boundaries: seq<nat>, cuts: seq<nat>, newEnd: nat)
    requires Cut(starts, end, boundaries, cuts)
    ensures Cut(starts + [end], newEnd, boundaries, cuts)
  {
  }

  datatype Reg = Reg(
    firstFree: nat,        // first_free_byte_idx_
    boundaries: seq<nat>,  // gc_boundaries_[0 .. num_boundaries_)
    refCnt: nat,           // in the region's header bytes
    nt: bool,              // in the region's header bytes
    starts: seq<nat>,      // the objects allocated since the last reset
    sizes: seq<nat>,       // and their sizes
    cuts: seq<nat>,        // the number of objects before each boundary
    pending: set<nat>,     // the objects whose initialisation has not finished
    sealed: bool)          // an allocation has failed: the region is full

  ghost predicate Ok(r: Reg) {
    && Packed(r.starts, r.sizes, r.firstFree)
    && Cut(r.starts, r.firstFree, r.boundaries, r.cuts)
    && |r.boundaries| <= PARALLELISM
    && (!r.sealed ==> |r.boundaries| < PARALLELISM)
    && (r.sealed ==> r.boundaries != [] && r.cuts[|r.cuts| - 1] == |r.starts|)
    && (forall p :: p in r.pending ==> p in r.starts)
    && r.refCnt == |r.pending|
  }

  function EmptyReg(nt: bool): Reg {
    Reg(HEADER, [], 0, nt, [], [], [], {}, false)
  }

  predicate Gcable(r: Reg) {
    r.refCnt == 0
  }

  predicate Fits(r: Reg, size: nat) {
    r.firstFree + Align(size) <= SIZE
  }

  // A boundary is cut only where an object starts or the next one will.
  function WithBoundary(r: Reg, force: bool): Reg {
    if force || r.firstFree >= (|r.boundaries| + 1) * (SIZE / PARALLELISM)
    then r.(boundaries := r.boundaries + [r.firstFree], cuts := r.cuts + [|r.starts|], sealed := r.sealed || force)
    else r
  }

  // A bump allocation; a local one owes the region a Finished once its header is written.
  function Grown(r: Reg, local: bool, size: nat): Reg {
    r.(starts := r.starts + [r.firstFree], sizes := r.sizes + [size], firstFree := r.firstFree + Align(size),
       pending := if local then r.pending + {r.firstFree} else r.pending,
       refCnt := if local then r.refCnt + 1 else r.refCnt)
  }

  function WithObject(r: Reg, local: bool, size: nat): Reg {
    var c := WithBoundary(r, false);
    if Fits(r, size) then Grown(c, local, size) else WithBoundary(c, true)
  }

  // atomic_inc_ref_cnt(address, -1)
  function Finished(r: Reg, offset: nat): Reg
    requires 0 < r.refCnt
  {
    r.(refCnt := r.refCnt - 1, pending := r.pending - {offset})
  }

  lemma EmptyIsOk(nt: bool)
    ensures Ok(EmptyReg(nt))
  {
  }

  lemma BoundaryKeepsOk(r: Reg, force: bool)
    requires Ok(r) && !r.sealed
    ensures Ok(WithBoundary(r, force))
  {
  }

  lemma ObjectKeepsOk(r: Reg, local: bool, size: nat)
    requires Ok(r) && !r.sealed && 0 < size
    ensures Ok(WithObject(r, local, size))
    ensures WithObject(r, local, size).sealed == !Fits(r, size)
    ensures r.firstFree !in r.starts
  {
    EndIsPastEveryStart(r.starts, r.sizes, r.firstFree);
    BoundaryKeepsOk(r, false);
    var c := WithBoundary(r, false);
    if Fits(r, size) {
      AppendKeepsPacked(c.starts, c.sizes, c.firstFree, size);
      AppendKeepsCut(c.starts, c.firstFree, c.boundaries, c.cuts, c.firstFree + Align(size));
    } else {
      BoundaryKeepsOk(c, true);
    }
  }

  lemma FinishedKeepsOk(r: Reg, offset: nat)
    requires Ok(r) && offset in r.pending
    ensures 0 < r.refCnt && Ok(Finished(r, offset))
  {
  }

  lemma EndPastHeader(r: Reg)
    requires Ok(r)
    ensures HEADER <= r.firstFree < SIZE
  {
  }

  // The objects of task k are those numbered from Task(k) up to Task(k + 1); together the tasks
  // of a full region cover each of its objects exactly once.
  function Task(r: Reg, k: nat): nat
    requires k <= |r.cuts|
  {
    if k == 0 then 0 else r.cuts[k - 1]
  }

  lemma TasksCover(r: Reg, k: nat)
    requires Ok(r) && k < |r.boundaries|
    ensures |r.cuts| == |r.boundaries|
    ensures Task(r, k) <= Task(r, k + 1) <= |r.starts|
    ensures (if k == 0 then HEADER else r.boundaries[k - 1]) == Grid(r.starts, r.firstFree, Task(r, k))
    ensures r.boundaries[k] == Grid(r.starts, r.firstFree, Task(r, k + 1))
    ensures r.sealed ==> Task(r, |r.boundaries|) == |r.starts|
  {
  }

  ghost predicate TaskOk(r: Reg, k: nat) {
    k < |r.cuts| && Task(r, k) <= Task(r, k + 1) <= |r.starts|
  }

  ghost function TaskObjects(r: Reg, k: nat): seq<nat>
    requires TaskOk(r, k)
  {
    r.starts[Task(r, k)..Task(r, k + 1)]
  }

  // The objects of the first n tasks, in task order.
  ghost function FirstTasks(r: Reg, n: nat): seq<nat>
    requires forall k :: 0 <= k < n ==> TaskOk(r, k)
  {
    if n == 0 then [] else FirstTasks(r, n - 1) + TaskObjects(r, n - 1)
  }

  // Splitting a full region into tasks is the same as one scan: each object once, in address order.
  lemma {:induction false} TasksAreOneScan(r: Reg, n: nat)
    requires Ok(r) && n <= |r.boundaries|
    ensures |r.cuts| == |r.boundaries| && forall k :: 0 <= k < n ==> TaskOk(r, k)
    ensures FirstTasks(r, n) == r.starts[..Task(r, n)]
    ensures r.sealed && n == |r.boundaries| ==> FirstTasks(r, n) == r.starts
  {
    if n > 0 {
      TasksCover(r, n - 1);
      TasksAreOneScan(r, n - 1);
      assert r.starts[..Task(r, n)] == r.starts[..Task(r, n - 1)] + r.starts[Task(r, n - 1)..Task(r, n)];
    }
  }

  // The walk's guard: `cur + kHeaderSize < right` holds exactly while an object is left before `right`.
  lemma WalkGuard(r: Reg, i: nat, hi: nat, header: nat)
    requires Ok(r) && i <= hi <= |r.starts| && (forall z <- r.sizes :: header < z)
    ensures Grid(r.starts, r.firstFree, i) + header < Grid(r.starts, r.firstFree, hi) <==> i < hi
    ensures i < hi ==> r.starts[i] + Align(r.sizes[i]) == Grid(r.starts, r.firstFree, i + 1)
  {
    if i < hi {
      assert r.sizes[i] in r.sizes;
      GridIsOrdered(r.starts, r.sizes, r.firstFree, i, hi);
    }
  }

  lemma WalkNext(r: Reg, i: nat, hi: nat, header: nat)
    requires Ok(r) && i < hi <= |r.starts| && (forall z <- r.sizes :: header < z)
    ensures i < |r.sizes| && r.starts[i] + Align(r.sizes[i]) == Grid(r.starts, r.firstFree, i + 1)
    ensures Grid(r.starts, r.firstFree, i + 1) + header < Grid(r.starts, r.firstFree, hi) <==> i + 1 < hi
  {
    WalkGuard(r, i, hi, header);
    WalkGuard(r, i + 1, hi, header);
  }

  // The loop of slave_fn between two grid positions.  `sizeOf` reads an object's header.
  method Scan(left: nat, right: nat, header: nat, sizeOf: nat -> nat, ghost r: Reg, ghost lo: nat, ghost hi: nat)
    returns (visited: seq<nat>)
    requires Ok(r) && lo <= hi <= |r.starts| && (forall z <- r.sizes :: header < z)
    requires left == Grid(r.starts, r.firstFree, lo) && right == Grid(r.starts, r.firstFree, hi)
    requires forall i :: 0 <= i < |r.starts| && i < |r.sizes| ==> sizeOf(r.starts[i]) == r.sizes[i]
    ensures visited == r.starts[lo..hi]
  {
    hide Ok;
    ghost var i := lo;
    visited := [];
    var cur: nat := left;
    WalkGuard(r, i, hi, header);
    while cur + header < right
      invariant lo <= i <= hi && cur == Grid(r.starts, r.firstFree, i)
      invariant cur + header < right <==> i < hi
      invariant visited == r.starts[lo..i]
      decreases hi - i
    {
      WalkNext(r, i, hi, header);
      visited, cur, i := visited + [cur], cur + Align(sizeOf(cur)), i + 1;
    }
  }

  class Region {
    const idx: nat
    const local: bool
    var firstFree: nat
    var numBoundaries: nat
    const gcBoundaries: array<nat>
    var refCnt: nat
    var nt: bool
    ghost var starts: seq<nat>
    ghost var sizes: seq<nat>
    ghost var cuts: seq<nat>
    ghost var pending: set<nat>
    ghost var sealed: bool

    ghost function Value(): Reg
      requires numBoundaries <= gcBoundaries.Length
      reads this, gcBoundaries
    {
      Reg(firstFree, gcBoundaries[..numBoundaries], refCnt, nt, starts, sizes, cuts, pending, sealed)
    }

    ghost predicate Valid()
      reads this, gcBoundaries
    {
      gcBoundaries.Length == PARALLELISM && numBoundaries <= PARALLELISM && Ok(Value())
    }

    constructor (idx: nat, local: bool, nt: bool)
      ensures this.idx == idx && this.local == local && fresh(gcBoundaries)
      ensures Valid() && Value() == EmptyReg(local && nt)
    {
      this.idx, this.local, this.nt := idx, local, local && nt;
      firstFree, numBoundaries, gcBoundaries, refCnt := HEADER, 0, new nat[PARALLELISM], 0;
      starts, sizes, cuts, pending, sealed := [], [], [], {}, false;
    }

    method UpdateBoundaries(force: bool)
      requires Valid() && !sealed
      modifies this, gcBoundaries
      ensures Valid() && Value() == WithBoundary(old(Value()), force)
    {
      ghost var r := Value();
      BoundaryKeepsOk(r, force);
      assert |WithBoundary(r, force).boundaries| <= PARALLELISM;
      if force || firstFree >= (numBoundaries + 1) * (SIZE / PARALLELISM) {
        gcBoundaries[numBoundaries] := firstFree;  // within gc_boundaries_
        numBoundaries := numBoundaries + 1;
        cuts, sealed := cuts + [|starts|], sealed || force;
        assert gcBoundaries[..numBoundaries] == r.boundaries + [firstFree];
      }
      assert Value() == WithBoundary(r, force);
    }

    method Bump(size: nat)
      requires numBoundaries <= gcBoundaries.Length
      modifies this
      ensures numBoundaries <= gcBoundaries.Length && Value() == Grown(old(Value()), local, size)
    {
      starts, sizes := starts + [firstFree], sizes + [size];
      if local {
        pending, refCnt := pending + {firstFree}, refCnt + 1;
      }
      firstFree := firstFree + Align(size);
    }

    method AllocateObject(size: nat) returns (offset: Option<nat>)
      requires Valid() && !sealed && 0 < size
      modifies this, gcBoundaries
      ensures Valid() && Value() == WithObject(old(Value()), local, size)
      ensures offset == if Fits(old(Value()), size) then Some(old(firstFree)) else None
    {
      ObjectKeepsOk(Value(), local, size);
      UpdateBoundaries(false);
      if firstFree + Align(size) <= SIZE {
        offset := Some(firstFree);
        Bump(size);
      } else {
        UpdateBoundaries(true);
        offset := None;
      }
    }

    method AtomicDecRefCnt(ghost offset: nat)
      requires Valid() && offset in pending
      modifies this
      ensures Valid() && 0 < old(refCnt) && Value() == Finished(old(Value()), offset)
    {
      FinishedKeepsOk(Value(), offset);
      refCnt := refCnt - 1;
      pending := pending - {offset};
    }

    method Reset()
      requires Valid()
      modifies this
      ensures Valid() && Value() == EmptyReg(false)
    {
      firstFree, numBoundaries, refCnt, nt := HEADER, 0, 0, false;
      starts, sizes, cuts, pending, sealed := [], [], [], {}, false;
    }

    method GetBoundary(k: nat) returns (left: nat, right: nat)
      requires Valid() && k < numBoundaries
      ensures |cuts| == numBoundaries && Task(Value(), k) <= Task(Value(), k + 1) <= |starts|
      ensures left == Grid(starts, firstFree, Task(Value(), k))
      ensures right == Grid(starts, firstFree, Task(Value(), k + 1))
    {
      TasksCover(Value(), k);
      left := if k == 0 then HEADER else gcBoundaries[k - 1];
      right := gcBoundaries[k];
    }

    // The walk of slave_fn over one task.
    method WalkTask(k: nat, header: nat, sizeOf: nat -> nat) returns (visited: seq<nat>)
      requires Valid() && k < numBoundaries && (forall z <- sizes :: header < z)
      requires forall i :: 0 <= i < |starts| && i < |sizes| ==> sizeOf(starts[i]) == sizes[i]
      ensures TaskOk(Value(), k) && visited == TaskObjects(Value(), k)
    {
      var left, right := GetBoundary(k);
      visited := Scan(left, right, header, sizeOf, Value(), Task(Value(), k), Task(Value(), k + 1));
    }
  }
}
