/**
 The two free-list allocators.  Addresses are numbers; what the system returns for a
 new block is an input that overlaps nothing the pool owns.
 */
module Allocators {
  import opened Arithmetic
  import opened Queues

  type Ptr = nat

  // ---- block_pool ----

  /** `capacity` is the true size of every block the pool owns; `live` the size each block in use was asked with. */
  datatype Pool = Pool(blockSize: nat, free: seq<Ptr>, capacity: map<Ptr, nat>, live: map<Ptr, nat>)

  function EmptyPool(blockSize: nat): Pool { Pool(blockSize, [], map[], map[]) }

  ghost predicate Apart(p: Ptr, a: nat, q: Ptr, b: nat) { p + a <= q || q + b <= p }

  /** Owned blocks do not overlap; each is either on the free list, once, or in use. */
  ghost predicate Safe(s: Pool) {
    && NoDuplicates(s.free)
    && (forall p :: p in s.free ==> p in s.capacity && p !in s.live)
    && (forall p :: p in s.live ==> p in s.capacity)
    && (forall p, q :: p in s.capacity && q in s.capacity && p != q ==> Apart(p, s.capacity[p], q, s.capacity[q]))
  }

  /** Every block in use is at least as large as what was asked for. */
  ghost predicate LargeEnough(s: Pool) {
    forall p :: p in s.live ==> p in s.capacity && s.live[p] <= s.capacity[p]
  }

  /** operator new may return p for this many bytes. */
  ghost predicate Fresh(s: Pool, p: Ptr, bytes: nat) {
    p !in s.capacity && forall q :: q in s.capacity ==> Apart(p, bytes, q, s.capacity[q])
  }

  predicate Reuses(s: Pool, bytes: nat) { bytes <= s.blockSize && s.free != [] }

  /** The pointer an allocation returns when the system would return `made`. */
  function Allocated(s: Pool, bytes: nat, made: Ptr): Ptr {
    if Reuses(s, bytes) then s.free[|s.free| - 1] else made
  }

  function AllocateStep(s: Pool, bytes: nat, made: Ptr): Pool {
    var p := Allocated(s, bytes, made);
    if Reuses(s, bytes) then s.(free := s.free[..|s.free| - 1], live := s.live[p := bytes])
    else s.(capacity := s.capacity[p := bytes], live := s.live[p := bytes])
  }

  function DeallocateStep(s: Pool, p: Ptr, bytes: nat): Pool {
    if bytes <= s.blockSize then s.(free := s.free + [p], live := s.live - {p})
    else s.(capacity := s.capacity - {p}, live := s.live - {p})
  }

  lemma AllocateIsSafe(s: Pool, bytes: nat, made: Ptr)
    requires Safe(s) && (!Reuses(s, bytes) ==> Fresh(s, made, bytes))
    ensures Safe(AllocateStep(s, bytes, made)) && Allocated(s, bytes, made) !in s.live
  {
  }

  lemma DeallocateIsSafe(s: Pool, p: Ptr, bytes: nat)
    requires Safe(s) && p in s.live && s.live[p] == bytes
    ensures Safe(DeallocateStep(s, p, bytes))
  {
  }

  class BlockPool {
    const blockSize: nat
    var free: seq<Ptr>
    ghost var capacity: map<Ptr, nat>
    ghost var live: map<Ptr, nat>

    ghost function State(): Pool
      reads this
    {
      Pool(blockSize, free, capacity, live)
    }

    constructor (blockSize: nat)
      ensures State() == EmptyPool(blockSize) && Safe(State())
    {
      this.blockSize := blockSize;
      free := [];
      capacity, live := map[], map[];
    }

    method Allocate(bytes: nat, made: Ptr) returns (p: Ptr)
      requires Safe(State()) && (!Reuses(State(), bytes) ==> Fresh(State(), made, bytes))
      modifies this
      ensures Safe(State()) && State() == AllocateStep(old(State()), bytes, made)
      ensures p !in old(live) && p in live && live[p] == bytes
    {
      AllocateIsSafe(State(), bytes, made);
      if bytes <= blockSize {
        if free != [] {
          p := free[|free| - 1];
          free := free[..|free| - 1];
          live := live[p := bytes];
          return;
        }
      }
      p := made;
      capacity, live := capacity[p := bytes], live[p := bytes];
    }

    /** The allocator contract: p came from allocate with the same size and has not been given back. */
    method Deallocate(p: Ptr, bytes: nat)
      requires Safe(State()) && p in live && live[p] == bytes
      modifies this
      ensures Safe(State()) && State() == DeallocateStep(old(State()), p, bytes)
    {
      DeallocateIsSafe(State(), p, bytes);
      if bytes <= blockSize {
        free := free + [p];
      } else {
        capacity := capacity - {p};
      }
      live := live - {p};
    }
  }

  // ---- Runs of a pool ----

  datatype Action = Alloc(bytes: nat, made: Ptr) | Free(p: Ptr)

  ghost predicate Enabled(s: Pool, a: Action) {
    match a
    case Alloc(bytes, made) => !Reuses(s, bytes) ==> Fresh(s, made, bytes)
    case Free(p) => p in s.live
  }

  function Apply(s: Pool, a: Action): Pool {
    match a
    case Alloc(bytes, made) => AllocateStep(s, bytes, made)
    case Free(p) => if p in s.live then DeallocateStep(s, p, s.live[p]) else s
  }

  ghost predicate Runs(s: Pool, acts: seq<Action>, s': Pool)
    decreases |acts|
  {
    if acts == [] then s' == s else Enabled(s, acts[0]) && Runs(Apply(s, acts[0]), acts[1..], s')
  }

  predicate AsksOnly(acts: seq<Action>, sizes: set<nat>) {
    forall i :: 0 <= i < |acts| && acts[i].Alloc? ==> acts[i].bytes in sizes
  }

  lemma StepIsSafe(s: Pool, a: Action)
    requires Safe(s) && Enabled(s, a)
    ensures Safe(Apply(s, a))
  {
    match a
    case Alloc(bytes, made) => AllocateIsSafe(s, bytes, made);
    case Free(p) => DeallocateIsSafe(s, p, s.live[p]);
  }

  /** In every run, blocks in use and on the free list stay apart. */
  lemma {:induction false} RunsAreSafe(s: Pool, acts: seq<Action>, s': Pool)
    requires Safe(s) && Runs(s, acts, s')
    ensures Safe(s')
    decreases |acts|
  {
    if acts != [] {
      StepIsSafe(s, acts[0]);
      RunsAreSafe(Apply(s, acts[0]), acts[1..], s');
    }
  }

  // ---- Nothing leaks, and nothing more than the peak is owned ----

  /** Every block the pool got and has not given back is in use or on the free list. */
  ghost predicate Accounted(s: Pool) { s.capacity.Keys == s.live.Keys + ToSet(s.free) }

  lemma AccountedCounts(s: Pool)
    requires Safe(s) && Accounted(s)
    ensures |s.capacity.Keys| == |s.live.Keys| + |s.free|
  {
    ListSize(s.free);
    assert s.live.Keys !! ToSet(s.free);
  }

  lemma LastOf(q: seq<Ptr>)
    requires q != [] && NoDuplicates(q)
    ensures var last, rest := q[|q| - 1], q[..|q| - 1]; last in q && last !in rest && ToSet(q) == ToSet(rest) + {last}
  {
    assert q == q[..|q| - 1] + [q[|q| - 1]];
  }

  lemma AllocateAccounted(s: Pool, bytes: nat, made: Ptr)
    requires Safe(s) && Accounted(s)
    ensures Accounted(AllocateStep(s, bytes, made))
  {
    if Reuses(s, bytes) { LastOf(s.free); }
  }

  lemma DeallocateAccounted(s: Pool, p: Ptr, bytes: nat)
    requires Safe(s) && Accounted(s) && p in s.live
    ensures Accounted(DeallocateStep(s, p, bytes))
  {
    assert ToSet(s.free + [p]) == ToSet(s.free) + {p};
  }

  lemma AccountedStep(s: Pool, a: Action)
    requires Safe(s) && Accounted(s) && Enabled(s, a)
    ensures Accounted(Apply(s, a))
  {
    match a
    case Alloc(bytes, made) => AllocateAccounted(s, bytes, made);
    case Free(p) => DeallocateAccounted(s, p, s.live[p]);
  }

  lemma {:induction false} AccountedRuns(s: Pool, acts: seq<Action>, s': Pool)
    requires Safe(s) && Accounted(s) && Runs(s, acts, s')
    ensures Safe(s') && Accounted(s')
    decreases |acts|
  {
    if acts != [] {
      AccountedStep(s, acts[0]);
      StepIsSafe(s, acts[0]);
      AccountedRuns(Apply(s, acts[0]), acts[1..], s');
    }
  }

  /** In every run nothing is lost: what the pool owns is in use or on its free list. */
  lemma NothingLeaks(blockSize: nat, acts: seq<Action>, s: Pool)
    requires Runs(EmptyPool(blockSize), acts, s)
    ensures s.capacity.Keys == s.live.Keys + (set p | p in s.free) && |s.capacity.Keys| == |s.live.Keys| + |s.free|
  {
    AccountedRuns(EmptyPool(blockSize), acts, s);
    AccountedCounts(s);
  }

  function InUseAfter(a: Action, n: nat): nat { if a.Alloc? then n + 1 else if n > 0 then n - 1 else 0 }

  /** The most blocks in use at any time of a run that starts with n in use. */
  function Peak(acts: seq<Action>, n: nat): nat
    decreases |acts|
  {
    if acts == [] then n else Max(n, Peak(acts[1..], InUseAfter(acts[0], n)))
  }

  ghost predicate AllSmall(s: Pool) { forall p :: p in s.live ==> s.live[p] <= s.blockSize }

  lemma KeyAdded(m: map<Ptr, nat>, p: Ptr, n: nat)
    requires p !in m
    ensures |m[p := n].Keys| == |m.Keys| + 1
  {
    assert m[p := n].Keys == m.Keys + {p};
  }

  lemma KeyRemoved(m: map<Ptr, nat>, p: Ptr)
    requires p in m
    ensures |(m - {p}).Keys| == |m.Keys| - 1
  {
    assert (m - {p}).Keys == m.Keys - {p};
  }

  lemma SmallAlloc(s: Pool, bytes: nat, made: Ptr)
    requires |s.capacity.Keys| == |s.live.Keys| + |s.free| && AllSmall(s) && bytes <= s.blockSize
    requires Allocated(s, bytes, made) !in s.live && (!Reuses(s, bytes) ==> made !in s.capacity)
    ensures var s' := AllocateStep(s, bytes, made);
            && AllSmall(s') && |s'.live.Keys| == |s.live.Keys| + 1
            && |s'.capacity.Keys| == Max(|s.capacity.Keys|, |s'.live.Keys|)
  {
    KeyAdded(s.live, Allocated(s, bytes, made), bytes);
    if !Reuses(s, bytes) { KeyAdded(s.capacity, made, bytes); }
  }

  lemma SmallFree(s: Pool, p: Ptr)
    requires AllSmall(s) && p in s.live
    ensures var s' := DeallocateStep(s, p, s.live[p]);
            AllSmall(s') && |s'.live.Keys| == |s.live.Keys| - 1 && s'.capacity == s.capacity
  {
    KeyRemoved(s.live, p);
  }

  /** A step on small blocks: how many are in use, and that the pool grows only when all it owns are. */
  lemma SmallStep(s: Pool, a: Action)
    requires Safe(s) && Accounted(s) && AllSmall(s) && Enabled(s, a) && (a.Alloc? ==> a.bytes <= s.blockSize)
    ensures var s' := Apply(s, a);
            && s'.blockSize == s.blockSize && AllSmall(s') && |s'.live.Keys| == InUseAfter(a, |s.live.Keys|)
            && |s'.capacity.Keys| == Max(|s.capacity.Keys|, |s'.live.Keys|)
  {
    AccountedCounts(s);
    match a
    case Alloc(bytes, made) =>
      AllocateIsSafe(s, bytes, made);
      SmallAlloc(s, bytes, made);
    case Free(p) => SmallFree(s, p);
  }

  predicate AsksSmall(acts: seq<Action>, blockSize: nat) {
    forall i :: 0 <= i < |acts| && acts[i].Alloc? ==> acts[i].bytes <= blockSize
  }

  lemma AsksSmallRest(acts: seq<Action>, blockSize: nat)
    requires acts != [] && AsksSmall(acts, blockSize)
    ensures AsksSmall(acts[1..], blockSize) && (acts[0].Alloc? ==> acts[0].bytes <= blockSize)
  {
    var rest := acts[1..];
    assert forall i :: 0 <= i < |rest| ==> rest[i] == acts[i + 1];
  }

  /** Owned and used by a pool that was asked for small blocks only. */
  ghost predicate Pooled(s: Pool, blockSize: nat, owned: nat, used: nat) {
    && Safe(s) && Accounted(s) && AllSmall(s) && s.blockSize == blockSize
    && |s.capacity.Keys| == owned && |s.live.Keys| == used && used <= owned
  }

  lemma PooledStep(s: Pool, a: Action, blockSize: nat, owned: nat, used: nat)
    requires Pooled(s, blockSize, owned, used) && Enabled(s, a) && (a.Alloc? ==> a.bytes <= blockSize)
    ensures Pooled(Apply(s, a), blockSize, Max(owned, InUseAfter(a, used)), InUseAfter(a, used))
  {
    SmallStep(s, a);
    AccountedStep(s, a);
    StepIsSafe(s, a);
  }

  lemma PeakUnfolds(acts: seq<Action>, owned: nat, used: nat)
    requires acts != [] && used <= owned
    ensures var u := InUseAfter(acts[0], used); Max(Max(owned, u), Peak(acts[1..], u)) == Max(owned, Peak(acts, used))
  {
  }

  lemma {:induction false} SmallRuns(s: Pool, acts: seq<Action>, s': Pool, blockSize: nat, owned: nat, used: nat)
    returns (left: nat)
    requires Pooled(s, blockSize, owned, used) && used <= owned && Runs(s, acts, s') && AsksSmall(acts, blockSize)
    ensures Pooled(s', blockSize, Max(owned, Peak(acts, used)), left)
    decreases |acts|
  {
    if acts == [] {
      left := used;
    } else {
      var u := InUseAfter(acts[0], used);
      AsksSmallRest(acts, blockSize);
      PooledStep(s, acts[0], blockSize, owned, used);
      PeakUnfolds(acts, owned, used);
      left := SmallRuns(Apply(s, acts[0]), acts[1..], s', blockSize, Max(owned, u), u);
    }
  }

  /** A pool asked for small blocks only owns exactly as many as were in use at the peak: freed blocks go first. */
  lemma OwnsThePeak(blockSize: nat, acts: seq<Action>, s: Pool)
    requires Runs(EmptyPool(blockSize), acts, s)
    requires AsksSmall(acts, blockSize)
    ensures |s.capacity.Keys| == Peak(acts, 0)
  {
    var left := SmallRuns(EmptyPool(blockSize), acts, s, blockSize, 0, 0);
  }

  /** The block freed last is handed out first; a large one is not kept. */
  lemma LastFreedIsReused(s: Pool, p: Ptr, bytes: nat, made: Ptr)
    requires p in s.live && bytes <= s.blockSize
    ensures var s' := Apply(s, Free(p));
            if s.live[p] <= s.blockSize then
              Allocated(s', bytes, made) == p && AllocateStep(s', bytes, made).free == s.free
            else s'.free == s.free && s'.capacity.Keys == s.capacity.Keys - {p}
  {
    assert (s.free + [p])[..|s.free|] == s.free;
  }

  // ---- Which sizes a pool can serve ----

  /** Every request the free list can serve has one and the same size. */
  ghost predicate OnePooledSize(blockSize: nat, sizes: set<nat>) {
    forall a, b :: a in sizes && b in sizes && a <= blockSize && b <= blockSize ==> a == b
  }

  ghost predicate Uniform(s: Pool, sizes: set<nat>) {
    && (forall p :: p in s.free ==> p in s.capacity && s.capacity[p] in sizes && s.capacity[p] <= s.blockSize)
    && (forall p :: p in s.live ==> p in s.capacity && s.live[p] == s.capacity[p] && s.live[p] in sizes)
  }

  lemma {:induction false} UniformRuns(s: Pool, sizes: set<nat>, acts: seq<Action>, s': Pool)
    requires Safe(s) && Uniform(s, sizes) && OnePooledSize(s.blockSize, sizes)
    requires Runs(s, acts, s') && AsksOnly(acts, sizes)
    ensures Uniform(s', sizes)
    decreases |acts|
  {
    if acts != [] {
      UniformStep(s, sizes, acts[0]);
      forall i | 0 <= i < |acts[1..]| && acts[1..][i].Alloc? ensures acts[1..][i].bytes in sizes {
        assert acts[i + 1].Alloc?;
      }
      UniformRuns(Apply(s, acts[0]), sizes, acts[1..], s');
    }
  }

  lemma UniformAlloc(s: Pool, sizes: set<nat>, bytes: nat, made: Ptr)
    requires Safe(s) && Uniform(s, sizes) && OnePooledSize(s.blockSize, sizes)
    requires bytes in sizes && (!Reuses(s, bytes) ==> Fresh(s, made, bytes))
    ensures Uniform(AllocateStep(s, bytes, made), sizes)
  {
  }

  lemma UniformStep(s: Pool, sizes: set<nat>, a: Action)
    requires Safe(s) && Uniform(s, sizes) && OnePooledSize(s.blockSize, sizes)
    requires Enabled(s, a) && (a.Alloc? ==> a.bytes in sizes)
    ensures var s' := Apply(s, a); Safe(s') && Uniform(s', sizes) && s'.blockSize == s.blockSize
  {
    match a
    case Alloc(bytes, made) =>
      AllocateIsSafe(s, bytes, made);
      UniformAlloc(s, sizes, bytes, made);
    case Free(p) => DeallocateIsSafe(s, p, s.live[p]);
  }

  ghost predicate SizesAreSafe(blockSize: nat, sizes: set<nat>) {
    forall acts, s :: Runs(EmptyPool(blockSize), acts, s) && AsksOnly(acts, sizes) ==> LargeEnough(s)
  }

  /**
   A pool hands out large enough blocks in every run exactly when at most one of the
   sizes asked of it fits its block size; shared_object_pool asks for one size only.
   */
  lemma SafeSizes(blockSize: nat, sizes: set<nat>)
    ensures SizesAreSafe(blockSize, sizes) <==> OnePooledSize(blockSize, sizes)
  {
    if OnePooledSize(blockSize, sizes) {
      forall acts, s | Runs(EmptyPool(blockSize), acts, s) && AsksOnly(acts, sizes) ensures LargeEnough(s) {
        UniformRuns(EmptyPool(blockSize), sizes, acts, s);
      }
    } else {
      var a, b :| a in sizes && b in sizes && a <= blockSize && b <= blockSize && a != b;
      if a < b { SmallBlockReused(blockSize, sizes, a, b); } else { SmallBlockReused(blockSize, sizes, b, a); }
    }
  }

  /** A freed smaller block is handed out for a larger request. */
  lemma SmallBlockReused(blockSize: nat, sizes: set<nat>, a: nat, b: nat)
    requires a in sizes && b in sizes && a < b <= blockSize
    ensures !SizesAreSafe(blockSize, sizes)
  {
    var x, y, z := Alloc(a, 0), Free(0), Alloc(b, 0);
    var acts := [x, y, z];
    var s0 := EmptyPool(blockSize);
    var s1 := Apply(s0, x);
    var s2 := Apply(s1, y);
    var s3 := Apply(s2, z);
    assert acts[1..] == [y, z] && [y, z][1..] == [z] && [z][1..] == [];
    assert s1.live == map[0 := a] && s2.free == [0];
    assert Runs(s3, [], s3) && Runs(s2, [z], s3) && Runs(s1, [y, z], s3) && Runs(s0, acts, s3);
    assert AsksOnly(acts, sizes);
    assert s3.live[0] == b && s3.capacity[0] == a;
  }

  // ---- pooled_guarded_stack ----

  /** size and sp of a boost stack_context; the stack grows down from sp. */
  datatype StackContext = StackContext(size: nat, sp: Ptr)

  function RoundUp(request: nat, page: nat): nat
    requires page > 0
  {
    (request + page - 1) / page * page
  }

  /** The least multiple of the page size that covers the request. */
  lemma RoundUpIsLeast(request: nat, page: nat, k: nat)
    requires page > 0
    ensures RoundUp(request, page) % page == 0
    ensures request <= RoundUp(request, page) < request + page
    ensures request <= k * page ==> RoundUp(request, page) <= k * page
  {
    var q := (request + page - 1) / page;
    DivisionBounds(request + page - 1, page);
    SameResidue(q * page, 0, q, page);
    if k < q {
      ProductOrder(page, k + 1, q);
      Distribute(page, k + 1, 1);
    } else {
      ProductOrder(page, q, k);
    }
  }

  class GuardedStacks {
    const pageSize: nat
    const stackSize: nat
    const mmapSize: nat
    var free: seq<Ptr>
    ghost var mapped: set<Ptr>
    ghost var inUse: set<Ptr>     // bases of the stacks handed out

    ghost predicate Valid()
      reads this
    {
      && pageSize > 0 && stackSize % pageSize == 0 && mmapSize == stackSize + pageSize
      && NoDuplicates(free)
      && (forall p :: p in free ==> p in mapped && p !in inUse)
      && inUse <= mapped
      && (forall p, q :: p in mapped && q in mapped && p != q ==> Apart(p, mmapSize, q, mmapSize))
    }

    constructor (stackSize: nat, pageSize: nat)
      requires pageSize > 0
      ensures Valid() && this.pageSize == pageSize && inUse == {}
      ensures stackSize <= this.stackSize < stackSize + pageSize
    {
      RoundUpIsLeast(stackSize, pageSize, 0);
      this.pageSize := pageSize;
      var pages := (stackSize + pageSize - 1) / pageSize;
      this.stackSize := pages * pageSize;
      this.mmapSize := pages * pageSize + pageSize;
      free := [];
      mapped, inUse := {}, {};
    }

    /** The usable range below sp lies above the guard page and inside a mapping no other stack uses. */
    method Allocate(made: Ptr) returns (c: StackContext)
      requires Valid()
      requires free == [] ==> made !in mapped && forall q :: q in mapped ==> Apart(made, mmapSize, q, mmapSize)
      modifies this
      ensures Valid()
      ensures c.size == stackSize && c.sp >= mmapSize
      ensures var base := c.sp - mmapSize;
              && inUse == old(inUse) + {base} && base !in old(inUse)
              && c.sp - c.size == base + pageSize
              && (forall q :: q in old(inUse) ==> Apart(base, mmapSize, q, mmapSize))
              && if old(free) == [] then base == made && free == [] && mapped == old(mapped) + {made}
                 else free + [base] == old(free) && mapped == old(mapped)
    {
      var base := made;
      if free != [] {
        base := free[|free| - 1];
        assert base in free;
        assert free == free[..|free| - 1] + [base];
        free := free[..|free| - 1];
      } else {
        mapped := mapped + {base};
      }
      inUse := inUse + {base};
      c := StackContext(stackSize, base + mmapSize);
    }

    /** The base recovered from sp is the one the stack was allocated at. */
    method Deallocate(c: StackContext)
      requires Valid() && c.sp >= mmapSize && c.sp - mmapSize in inUse
      modifies this
      ensures Valid() && inUse == old(inUse) - {c.sp - mmapSize} && free == old(free) + [c.sp - mmapSize]
      ensures mapped == old(mapped)
    {
      var base := c.sp - mmapSize;
      free := free + [base];
      inUse := inUse - {base};
    }
  }
}
