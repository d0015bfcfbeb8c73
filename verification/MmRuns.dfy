/** Whole runs of `mm_malloc` and `mm_free` after `mm_initialize`. */
module MmRuns {
  import opened Basics
  import opened MmConfig
  import opened MmLayout
  import opened MmIndex
  import opened MmSpec
  import opened MmTheorems
  import opened MmInfo
  import opened MmBytes
  import opened MmMemory

  // ----- which blocks are live

  lemma CarveLive(h: Heap, n: Addr, req: int, m: Addr)
    requires Inv(h) && FreeChunk(h, n) && n + h.tags[n].size in h.tags
    requires MIN_CHUNK <= req <= h.tags[n].size
    ensures Live(Carve(h, n, req), m) <==> Live(h, m) || m == n
    ensures Live(h, m) ==> Carve(h, n, req).tags[m].size == h.tags[m].size
    ensures var h' := Carve(h, n, req); h'.base == h.base && h'.end == h.end && h'.nl == h.nl
  {
    if h.tags[n].size - req >= SIZEOF_FREENODE {
      SplitTiled(h.tags, h.base, h.end, n, req);
    }
  }

  lemma ForwardLive(h: Heap, n: Addr, m: Addr)
    requires Detached(h, n)
    ensures Live(Forward(h, n), m) <==> Live(h, m)
    ensures Live(h, m) ==> Forward(h, n).tags[m].size == h.tags[m].size
  {
    InnerNext(h, n);
    var next := n + h.tags[n].size;
    if h.tags[next].alloc {
      ForwardIdle(h, n);
    } else {
      ForwardFree(h, n, next);
    }
  }

  lemma BackwardLive(h: Heap, n: Addr, m: Addr)
    requires Detached(h, n)
    ensures Live(Backward(h, n), m) <==> Live(h, m)
    ensures Live(h, m) ==> Backward(h, n).tags[m].size == h.tags[m].size
  {
    InnerNext(h, n);
    var prev := n - h.tags[n].prec;
    if h.tags[prev].alloc {
      BackwardIdle(h, n);
    } else {
      BackwardFree(h, n, prev);
    }
  }

  /** Freeing a block ends exactly that block; the others keep their chunks. */
  lemma FreeLive(h: Heap, p: Addr, m: Addr)
    requires Inv(h) && p != 0 && Live(h, p - SIZEOF_ALLOCNODE)
    ensures Live(Free(h, p), m) <==> Live(h, m) && m != p - SIZEOF_ALLOCNODE
    ensures Live(Free(h, p), m) ==> Free(h, p).tags[m].size == h.tags[m].size
    ensures var h' := Free(h, p); h'.base == h.base && h'.end == h.end && h'.nl == h.nl
  {
    var n := p - SIZEOF_ALLOCNODE;
    ReleaseDetached(h, n);
    var h1 := Release(h, n);
    ForwardDetached(h1, n);
    ForwardLive(h1, n, m);
    BackwardLive(Forward(h1, n), n, m);
    FreeIsPut(h, n, p);
  }

  /** A successful call adds one live block; the others keep their chunks. */
  lemma MallocLive(h: Heap, size: int, m: Addr)
    requires Inv(h) && Grantable(size)
    ensures var h', ptr := Malloc(h, size).0, Malloc(h, size).1;
            && (Live(h', m) <==> Live(h, m) || (ptr != 0 && m == ptr - SIZEOF_ALLOCNODE))
            && (Live(h, m) ==> h'.tags[m].size == h.tags[m].size)
            && h'.base == h.base && h'.end == h.end && h'.nl == h.nl
  {
    var p := FirstFit(h.tags, h.nl, h.order, Rounded(size));
    if size >= 1 && p < |h.order| {
      MallocTakes(h, size);
      CarveLive(h, h.order[p], Rounded(size), m);
      AlignedPointer(h, h.order[p]);
    } else {
      assert Malloc(h, size).0 == h && Malloc(h, size).1 == 0;
    }
  }

  // ----- runs

  datatype Op = MallocOp(size: int) | FreeOp(ptr: Addr)

  /** The heap, the request behind each live pointer, and `g_max_used_size`. */
  datatype Sys = Sys(heap: Heap, requests: map<Addr, int>, peak: int)

  /** The pointer `ptr` was obtained with the recorded request and holds exactly its rounding. */
  ghost predicate Granted(s: Sys, ptr: Addr) {
    && (ptr in s.requests <==> Live(s.heap, ptr - SIZEOF_ALLOCNODE))
    && (ptr in s.requests ==>
          && s.requests[ptr] >= 1 && Grantable(s.requests[ptr])
          && s.heap.tags[ptr - SIZEOF_ALLOCNODE].size == Rounded(s.requests[ptr])
          && ptr % MIN_CHUNK == 0 && ptr != 0)
  }

  ghost predicate SysInv(s: Sys) {
    && Inv(s.heap)
    && forall ptr {:trigger Granted(s, ptr)} :: Granted(s, ptr)
  }

  /** What clients must respect. */
  predicate Legal(s: Sys, op: Op) {
    match op
    case MallocOp(size) => Grantable(size)
    case FreeOp(ptr) => ptr == 0 || ptr in s.requests
  }

  function Max(a: int, b: int): int {
    if a < b then b else a
  }

  ghost function Step(s: Sys, op: Op): Sys
    requires SysInv(s) && Legal(s, op)
  {
    match op
    case MallocOp(size) =>
      if size < 1 then s else
        var h, ptr := Malloc(s.heap, size).0, Malloc(s.heap, size).1;
        Sys(h, if ptr == 0 then s.requests else s.requests[ptr := size], Max(s.peak, Used(h)))
    case FreeOp(ptr) =>
      assert Granted(s, ptr);
      s.(heap := Free(s.heap, ptr), requests := s.requests - {ptr})
  }

  lemma StepKeepsInv(s: Sys, op: Op)
    requires SysInv(s) && Legal(s, op)
    ensures SysInv(Step(s, op))
    ensures var h := Step(s, op).heap; h.base == s.heap.base && h.end == s.heap.end && h.nl == s.heap.nl
  {
    match op
    case MallocOp(size) =>
      if size >= 1 {
        MallocStepKeepsInv(s, size);
      }
    case FreeOp(ptr) =>
      FreeStepKeepsInv(s, ptr);
  }

  lemma MallocGrants(s: Sys, size: int, s': Sys, h': Heap, got: Addr, ptr: Addr)
    requires SysInv(s) && Grantable(size) && size >= 1
    requires h' == Malloc(s.heap, size).0 && got == Malloc(s.heap, size).1
    requires Recorded(s, s', h', size, got, ptr)
    ensures Granted(s', ptr)
  {
    assert Granted(s, ptr);
    MallocOutcome(s.heap, size, h', got, ptr - SIZEOF_ALLOCNODE);
    GrantRecorded(s, s', h', size, got, ptr);
  }

  lemma StepRecords(s: Sys, size: int, ptr: Addr)
    requires SysInv(s) && Grantable(size) && size >= 1
    ensures var h', got := Malloc(s.heap, size).0, Malloc(s.heap, size).1;
            Recorded(s, Step(s, MallocOp(size)), h', size, got, ptr)
  {
  }

  lemma MallocOutcome(h: Heap, size: int, h': Heap, got: Addr, m: Addr)
    requires Inv(h) && Grantable(size) && size >= 1
    requires h' == Malloc(h, size).0 && got == Malloc(h, size).1
    ensures Live(h', m) <==> Live(h, m) || (got != 0 && m == got - SIZEOF_ALLOCNODE)
    ensures Live(h, m) ==> h'.tags[m].size == h.tags[m].size
    ensures got != 0 ==> HoldsRequest(h', size, got)
  {
    MallocLive(h, size, m);
    if got != 0 {
      MallocIsBestFit(h, size);
    }
  }

  /** `s'` has heap `h'` and, at `ptr`, the requests of `s` with `got` added. */
  predicate Recorded(s: Sys, s': Sys, h': Heap, size: int, got: Addr, ptr: Addr) {
    && s'.heap == h'
    && (ptr in s'.requests <==> ptr in s.requests || (got != 0 && ptr == got))
    && (ptr in s'.requests ==> s'.requests[ptr] == if got != 0 && ptr == got then size else s.requests[ptr])
  }

  predicate HoldsRequest(h: Heap, size: int, ptr: Addr) {
    && ptr - SIZEOF_ALLOCNODE in h.tags && ptr % MIN_CHUNK == 0
    && h.tags[ptr - SIZEOF_ALLOCNODE].size == Rounded(size)
  }

  /** Recording a request with the chunk that serves it. */
  lemma GrantRecorded(s: Sys, s': Sys, h': Heap, size: int, got: Addr, ptr: Addr)
    requires Granted(s, ptr) && Grantable(size) && size >= 1
    requires Recorded(s, s', h', size, got, ptr)
    requires var m := ptr - SIZEOF_ALLOCNODE;
             && (Live(h', m) <==> Live(s.heap, m) || (got != 0 && m == got - SIZEOF_ALLOCNODE))
             && (Live(s.heap, m) ==> h'.tags[m].size == s.heap.tags[m].size)
    requires got != 0 ==> HoldsRequest(h', size, got)
    ensures Granted(s', ptr)
  {
  }

  lemma MallocStepKeepsInv(s: Sys, size: int)
    requires SysInv(s) && Grantable(size) && size >= 1
    ensures SysInv(Step(s, MallocOp(size)))
    ensures var h := Step(s, MallocOp(size)).heap;
            h.base == s.heap.base && h.end == s.heap.end && h.nl == s.heap.nl
  {
    MallocKeepsInv(s.heap, size);
    var s' := Step(s, MallocOp(size));
    MallocLive(s.heap, size, 0);
    forall ptr {:trigger Granted(s', ptr)} ensures Granted(s', ptr) {
      StepRecords(s, size, ptr);
      MallocGrants(s, size, s', Malloc(s.heap, size).0, Malloc(s.heap, size).1, ptr);
    }
  }

  lemma FreeStepKeepsInv(s: Sys, p: Addr)
    requires SysInv(s) && Legal(s, FreeOp(p))
    ensures SysInv(Step(s, FreeOp(p)))
    ensures var h := Step(s, FreeOp(p)).heap;
            h.base == s.heap.base && h.end == s.heap.end && h.nl == s.heap.nl
  {
    assert Granted(s, p);
    var s' := Step(s, FreeOp(p));
    FreeKeepsInv(s.heap, p);
    if p != 0 {
      FreeLive(s.heap, p, 0);
    }
    forall ptr {:trigger Granted(s', ptr)} ensures Granted(s', ptr) {
      FreeGrants(s, p, s', ptr);
    }
  }

  lemma FreeGrants(s: Sys, p: Addr, s': Sys, ptr: Addr)
    requires SysInv(s) && Legal(s, FreeOp(p)) && s' == Step(s, FreeOp(p))
    ensures Granted(s', ptr)
  {
    assert Granted(s, p) && Granted(s, ptr);
    if p != 0 {
      FreeLive(s.heap, p, ptr - SIZEOF_ALLOCNODE);
      GrantDropped(s, p, s', ptr);
    }
  }

  /** Forgetting the request of a chunk that is live no more. */
  lemma GrantDropped(s: Sys, p: Addr, s': Sys, ptr: Addr)
    requires Granted(s, ptr) && s'.requests == s.requests - {p}
    requires var m := ptr - SIZEOF_ALLOCNODE;
             && (Live(s'.heap, m) <==> Live(s.heap, m) && ptr != p)
             && (Live(s'.heap, m) ==> s'.heap.tags[m].size == s.heap.tags[m].size)
    ensures Granted(s', ptr)
  {
  }

  /** Every call of the run is legal in the state it meets. */
  ghost predicate LegalRun(s: Sys, ops: seq<Op>)
    requires SysInv(s)
    decreases |ops|
  {
    ops == [] ||
    (&& Legal(s, ops[0])
     && (StepKeepsInv(s, ops[0]); LegalRun(Step(s, ops[0]), ops[1..])))
  }

  ghost function Run(s: Sys, ops: seq<Op>): Sys
    requires SysInv(s) && LegalRun(s, ops)
    decreases |ops|
  {
    if ops == [] then s else
      StepKeepsInv(s, ops[0]);
      Run(Step(s, ops[0]), ops[1..])
  }

  function InitSys(base: Addr, end: Addr, nl: Addr): Sys {
    Sys(InitHeap(base, end, nl), map[], 0)
  }

  lemma InitSysInv(base: Addr, end: Addr, nl: Addr)
    requires Placed(base, end, nl)
    ensures SysInv(InitSys(base, end, nl))
  {
    InitInv(base, end, nl);
  }

  /** The invariant holds in every state reached from any invariant state by any legal run. */
  lemma {:induction false} RunKeepsInv(s: Sys, ops: seq<Op>)
    requires SysInv(s) && LegalRun(s, ops)
    ensures SysInv(Run(s, ops))
    ensures var h := Run(s, ops).heap; h.base == s.heap.base && h.end == s.heap.end && h.nl == s.heap.nl
    decreases |ops|
  {
    if ops != [] {
      StepKeepsInv(s, ops[0]);
      RunKeepsInv(Step(s, ops[0]), ops[1..]);
    }
  }

  /** Any sequence of calls after initialisation, legal for its clients. */
  ghost predicate LegalHistory(base: Addr, end: Addr, nl: Addr, ops: seq<Op>)
    requires Placed(base, end, nl)
  {
    InitSysInv(base, end, nl);
    LegalRun(InitSys(base, end, nl), ops)
  }

  /** Every reachable state satisfies the invariant. */
  ghost function Reached(base: Addr, end: Addr, nl: Addr, ops: seq<Op>): (s: Sys)
    requires Placed(base, end, nl) && LegalHistory(base, end, nl, ops)
    ensures SysInv(s)
    ensures s.heap.base == base && s.heap.end == end && s.heap.nl == nl
  {
    InitSysInv(base, end, nl);
    RunKeepsInv(InitSys(base, end, nl), ops);
    Run(InitSys(base, end, nl), ops)
  }

  // ----- giving everything back

  /** A heap without live blocks has one free chunk between its guards. */
  lemma NoLiveTags(h: Heap)
    requires Inv(h) && forall n :: !Live(h, n)
    ensures h.tags == InitTags(h.base, h.end)
  {
    var c := h.base + SIZEOF_ALLOCNODE;
    assert Fits(h.tags, h.base, h.end, h.base);
    assert Fits(h.tags, h.base, h.end, h.end);
    assert Inner(h, c) && !Live(h, c);
    InnerNext(h, c);
    FencedAt(h, {}, c);
    var next := c + h.tags[c].size;
    assert !Live(h, next);
    assert next == h.end;
    forall x | x in h.tags ensures x == h.base || x == c || x == h.end {
      assert Fits(h.tags, h.base, h.end, x);
      assert Before(h.tags, h.base, x) && Before(h.tags, c, x);
    }
  }

  /** With a single free chunk all ranks differ. */
  lemma SingleChunkStrict(h: Heap, c: Addr)
    requires Inv(h) && forall n :: FreeChunk(h, n) ==> n == c
    ensures StrictlySorted(h.tags, h.nl, h.order)
  {
    forall i, j | 0 <= i < j < |h.order|
      ensures Rank(h.tags, h.nl, h.order[i]) < Rank(h.tags, h.nl, h.order[j])
    {
      RanksDiffer(h, c, h.order[i], h.order[j]);
    }
  }

  lemma RanksDiffer(h: Heap, c: Addr, a: Addr, b: Addr)
    requires Inv(h) && (forall n :: FreeChunk(h, n) ==> n == c)
    requires a in h.order && b in h.order && a != b
    ensures Rank(h.tags, h.nl, a) != Rank(h.tags, h.nl, b)
  {
    ListedInner(h, {}, a);
    ListedInner(h, {}, b);
    if IsHead(h.nl, a) && IsHead(h.nl, b) {
      var j := HeadNumber(h.tags, h.nl, a);
      var k := HeadNumber(h.tags, h.nl, b);
      HeadRankMonotone(j, k);
      HeadRankMonotone(k, j);
    } else if IsHead(h.nl, a) {
      HeadUnlikeChunk(h, a, b);
    } else {
      HeadUnlikeChunk(h, b, a);
    }
  }

  lemma HeadUnlikeChunk(h: Heap, a: Addr, b: Addr)
    requires Inv(h) && IsHead(h.nl, a) && FreeChunk(h, b)
    ensures Rank(h.tags, h.nl, a) != Rank(h.tags, h.nl, b)
  {
    var k := HeadNumber(h.tags, h.nl, a);
    InnerNext(h, b);
    HeadNotInner(h, b);
    HeadRankVersusSize(k, h.tags[b].size);
  }

  /** A heap without live blocks is the heap `mm_initialize` built, free list included. */
  lemma NoLiveMeansInitial(h: Heap)
    requires Inv(h) && forall n :: !Live(h, n)
    ensures h == InitHeap(h.base, h.end, h.nl)
  {
    NoLiveTags(h);
    var h0 := InitHeap(h.base, h.end, h.nl);
    InitInv(h.base, h.end, h.nl);
    var c := h.base + SIZEOF_ALLOCNODE;
    SingleChunkStrict(h, c);
    SingleChunkStrict(h0, c);
    forall x ensures x in h.order <==> x in h0.order {
      assert Listed(h.tags, h.nl, h.order, {}, x);
      assert Listed(h.tags, h.nl, h0.order, {}, x);
    }
    StrictlySortedUnique(h.tags, h.nl, h.order, h0.order);
  }

  /** The calls that free the given pointers in the given order. */
  function Frees(ptrs: seq<Addr>): seq<Op> {
    seq(|ptrs|, i requires 0 <= i < |ptrs| => FreeOp(ptrs[i]))
  }

  lemma {:induction false} FreesAreLegal(s: Sys, ptrs: seq<Addr>)
    requires SysInv(s) && NoDup(ptrs) && forall p :: p in ptrs ==> p in s.requests
    ensures LegalRun(s, Frees(ptrs))
    ensures forall p :: p in Run(s, Frees(ptrs)).requests <==> p in s.requests && p !in ptrs
    decreases |ptrs|
  {
    var ops := Frees(ptrs);
    if ptrs != [] {
      assert ops[0] == FreeOp(ptrs[0]) && ptrs[0] in ptrs;
      assert ops[1..] == Frees(ptrs[1..]);
      StepKeepsInv(s, ops[0]);
      var s' := Step(s, ops[0]);
      assert forall p :: p in ptrs <==> p == ptrs[0] || p in ptrs[1..];
      FreesAreLegal(s', ptrs[1..]);
    }
  }

  /**
   * After any run, freeing all live blocks in any order brings back the initial heap: one free
   * chunk of `heapsize - 16` bytes and the initial free list.
   */
  lemma FreeingAllRestoresInit(base: Addr, end: Addr, nl: Addr, ops: seq<Op>, ptrs: seq<Addr>)
    requires Placed(base, end, nl) && LegalHistory(base, end, nl, ops)
    requires NoDup(ptrs)
    requires forall p :: p in ptrs <==> p in Reached(base, end, nl, ops).requests
    ensures var s := Reached(base, end, nl, ops);
            LegalRun(s, Frees(ptrs)) && Run(s, Frees(ptrs)).heap == InitHeap(base, end, nl)
  {
    var s := Reached(base, end, nl, ops);
    FreesAreLegal(s, ptrs);
    RunKeepsInv(s, Frees(ptrs));
    var s' := Run(s, Frees(ptrs));
    forall n ensures !Live(s'.heap, n) {
      assert Granted(s', n + SIZEOF_ALLOCNODE);
    }
    NoLiveMeansInitial(s'.heap);
  }

  // ----- the recorded peak

  /** Largest number of bytes in use in any state of the run. */
  ghost function MaxUsed(s: Sys, ops: seq<Op>): int
    requires SysInv(s) && LegalRun(s, ops)
    decreases |ops|
  {
    if ops == [] then Used(s.heap) else
      StepKeepsInv(s, ops[0]);
      Max(Used(s.heap), MaxUsed(Step(s, ops[0]), ops[1..]))
  }

  lemma MallocUses(h: Heap, size: int)
    requires Inv(h) && Grantable(size)
    ensures Used(Malloc(h, size).0)
            == Used(h) + if Malloc(h, size).1 == 0 then 0 else Rounded(size)
    ensures Malloc(h, size).1 != 0 ==> Rounded(size) > 0
  {
    var p := FirstFit(h.tags, h.nl, h.order, Rounded(size));
    if size >= 1 && p < |h.order| {
      MallocTakes(h, size);
      CarveUses(h, h.order[p], Rounded(size));
      AlignedPointer(h, h.order[p]);
    } else {
      assert Malloc(h, size).0 == h && Malloc(h, size).1 == 0;
    }
  }

  lemma StepUses(s: Sys, op: Op)
    requires SysInv(s) && Legal(s, op)
    ensures op.MallocOp? ==> Used(Step(s, op).heap) >= Used(s.heap)
    ensures op.FreeOp? ==> Used(Step(s, op).heap) <= Used(s.heap)
  {
    match op
    case MallocOp(size) =>
      MallocUses(s.heap, size);
    case FreeOp(ptr) =>
      assert Granted(s, ptr);
      if ptr != 0 {
        FreeReturnsBytes(s.heap, ptr);
        InnerNext(s.heap, ptr - SIZEOF_ALLOCNODE);
      }
  }

  lemma MaxUsedBounds(s: Sys, ops: seq<Op>)
    requires SysInv(s) && LegalRun(s, ops)
    ensures MaxUsed(s, ops) >= Used(s.heap)
  {
  }

  lemma {:induction false} PeakTracks(s: Sys, ops: seq<Op>)
    requires SysInv(s) && LegalRun(s, ops)
    requires s.peak >= Used(s.heap)
    ensures Run(s, ops).peak == Max(s.peak, MaxUsed(s, ops))
    ensures Run(s, ops).peak >= Used(Run(s, ops).heap)
    decreases |ops|
  {
    if ops != [] {
      StepKeepsInv(s, ops[0]);
      StepUses(s, ops[0]);
      PeakTracks(Step(s, ops[0]), ops[1..]);
      MaxUsedBounds(Step(s, ops[0]), ops[1..]);
    }
  }

  predicate HasMalloc(ops: seq<Op>) {
    exists i :: 0 <= i < |ops| && ops[i].MallocOp? && ops[i].size >= 1
  }

  lemma {:induction false} PeakFromFresh(s: Sys, ops: seq<Op>)
    requires SysInv(s) && LegalRun(s, ops) && HasMalloc(ops)
    requires s.requests == map[] && s.peak == 0 && Used(s.heap) >= 0
    ensures Run(s, ops).peak == MaxUsed(s, ops)
    ensures Run(s, ops).peak >= Used(Run(s, ops).heap)
    decreases |ops|
  {
    StepKeepsInv(s, ops[0]);
    StepUses(s, ops[0]);
    var s' := Step(s, ops[0]);
    if ops[0].MallocOp? && ops[0].size >= 1 {
      PeakTracks(s', ops[1..]);
      MaxUsedBounds(s', ops[1..]);
    } else {
      assert s' == s;
      var i :| 0 <= i < |ops| && ops[i].MallocOp? && ops[i].size >= 1;
      assert ops[1..][i - 1] == ops[i];
      PeakFromFresh(s', ops[1..]);
      MaxUsedBounds(s', ops[1..]);
    }
  }

  lemma InitUses(base: Addr, end: Addr, nl: Addr)
    requires Placed(base, end, nl)
    ensures Used(InitHeap(base, end, nl)) == 2 * SIZEOF_ALLOCNODE
  {
    var tags := InitTags(base, end);
    var h := Heap(base, end, nl, tags, Heads(nl, NNODES));
    forall i | 0 <= i < |h.order| ensures SizeIn(tags)(h.order[i]) == SizeIn(map[])(h.order[i]) {
      RankOfHead(tags, nl, i);
    }
    SumFrame(SizeIn(tags), SizeIn(map[]), h.order);
    SumOfNone(h.order);
    PutAddsBytes(h, base + SIZEOF_ALLOCNODE);
  }

  lemma {:induction false} SumOfNone(s: seq<Addr>)
    ensures Sum(SizeIn(map[]), s) == 0
  {
    if s != [] {
      SumOfNone(s[1..]);
    }
  }

  /**
   * From the first `mm_malloc` with a positive size on, the recorded peak is the largest number
   * of bytes ever in use, and so never below the current number.
   */
  lemma PeakIsRunningMaximum(base: Addr, end: Addr, nl: Addr, ops: seq<Op>)
    requires Placed(base, end, nl) && LegalHistory(base, end, nl, ops) && HasMalloc(ops)
    ensures SysInv(InitSys(base, end, nl))
    ensures Reached(base, end, nl, ops).peak == MaxUsed(InitSys(base, end, nl), ops)
    ensures Reached(base, end, nl, ops).peak >= Used(Reached(base, end, nl, ops).heap)
  {
    InitSysInv(base, end, nl);
    InitUses(base, end, nl);
    PeakFromFresh(InitSys(base, end, nl), ops);
  }

  // ----- isolation of live blocks

  /**
   * Payloads of distinct live blocks are disjoint, lie strictly between the guards, hold the
   * request, and meet no boundary tag and no list node.
   */
  lemma PayloadsAreIsolated(s: Sys, p: Addr, w: Addr)
    requires SysInv(s) && p in s.requests && InPayload(s.heap, p - SIZEOF_ALLOCNODE, w)
    ensures s.heap.base + SIZEOF_ALLOCNODE < w < s.heap.end
    ensures Representable(s.requests[p]) ==>
              InPayload(s.heap, p - SIZEOF_ALLOCNODE, p + s.requests[p] - 1)
    ensures forall m :: m != p - SIZEOF_ALLOCNODE ==> !InPayload(s.heap, m, w)
    ensures forall m :: m in s.heap.tags ==> !(m <= w < m + SIZEOF_ALLOCNODE)
    ensures forall m :: m in s.heap.order ==> !(m <= w < m + SIZEOF_FREENODE)
  {
    var h := s.heap;
    var n := p - SIZEOF_ALLOCNODE;
    assert Granted(s, p);
    RoundedCoversRequest(s.requests[p]);
    InnerNext(h, n);
    forall m | m in h.tags
      ensures m != n ==> w < m || w >= m + h.tags[m].size
      ensures h.tags[m].size >= SIZEOF_ALLOCNODE
    {
      assert Before(h.tags, m, n) && Before(h.tags, n, m);
      assert Fits(h.tags, h.base, h.end, m);
    }
    forall m | m in h.order ensures !(m <= w < m + SIZEOF_FREENODE) {
      ListedInner(h, {}, m);
      if m in h.tags {
        InnerNext(h, m);
      }
    }
  }

  // ----- memory over whole runs

  /** A call of the allocator, or a client writing a byte of its own block. */
  datatype Event = Called(op: Op) | Wrote(block: Addr, b: Addr, v: int)

  datatype Snap = Snap(heap: Heap, mem: Memory)

  /** What `mm_free` does to heap and memory. */
  ghost predicate Freed(h: Heap, mem: Memory, p: Addr, h': Heap, mem': Memory)
    requires Inv(h)
  {
    && (p == 0 || Live(h, p - SIZEOF_ALLOCNODE)) && h' == Free(h, p)
    && OnlyOwned(mem, mem', h, {p - SIZEOF_ALLOCNODE})
  }

  /** What the methods of the allocator and its clients do to memory in one event. */
  ghost predicate Next(s: Snap, e: Event, s': Snap)
    requires Inv(s.heap)
  {
    match e
    case Called(MallocOp(size)) =>
      && Grantable(size) && s'.heap == Malloc(s.heap, size).0
      && OnlyOwned(s.mem, s'.mem, s.heap, {})
    case Called(FreeOp(p)) => Freed(s.heap, s.mem, p, s'.heap, s'.mem)
    case Wrote(block, b, v) =>
      InPayload(s.heap, block, b) && 0 <= v < 0x100 && s' == s.(mem := WithByte(s.mem, b, v))
  }

  lemma FreedKeepsInv(h: Heap, mem: Memory, p: Addr, h': Heap, mem': Memory)
    requires Inv(h) && Freed(h, mem, p, h', mem')
    ensures Inv(h')
  {
    FreeKeepsInv(h, p);
  }

  lemma NextKeepsInv(s: Snap, e: Event, s': Snap)
    requires Inv(s.heap) && Next(s, e, s')
    ensures Inv(s'.heap)
  {
    match e
    case Called(MallocOp(size)) => MallocKeepsInv(s.heap, size);
    case Called(FreeOp(p)) => FreedKeepsInv(s.heap, s.mem, p, s'.heap, s'.mem);
    case Wrote(_, _, _) =>
  }

  /** `ss` are the snapshots before, between and after the events `es`. */
  ghost predicate Trace(ss: seq<Snap>, es: seq<Event>)
    requires |ss| == |es| + 1 && Inv(ss[0].heap)
    decreases |es|
  {
    es == [] ||
    (&& Next(ss[0], es[0], ss[1])
     && (NextKeepsInv(ss[0], es[0], ss[1]); Trace(ss[1..], es[1..])))
  }

  /** The event neither frees block `n` nor is its owner writing byte `b`. */
  predicate Spares(e: Event, n: Addr, b: Addr) {
    e != Called(FreeOp(n + SIZEOF_ALLOCNODE)) && !(e.Wrote? && e.block == n && e.b == b)
  }

  lemma MallocSpares(h: Heap, mem: Memory, size: int, mem': Memory, n: Addr, b: Addr)
    requires Inv(h) && Grantable(size) && OnlyOwned(mem, mem', h, {}) && InPayload(h, n, b)
    ensures InPayload(Malloc(h, size).0, n, b) && ByteAt(mem', b) == ByteAt(mem, b)
  {
    MallocLive(h, size, n);
    OwnedSparesByte(mem, mem', h, {}, n, b);
  }

  lemma FreeSpares(h: Heap, mem: Memory, p: Addr, h': Heap, mem': Memory, n: Addr, b: Addr)
    requires Inv(h) && Freed(h, mem, p, h', mem') && InPayload(h, n, b) && p != n + SIZEOF_ALLOCNODE
    ensures InPayload(h', n, b) && ByteAt(mem', b) == ByteAt(mem, b)
  {
    FreeKeepsPayload(h, p, h', n, b);
    OwnedSparesByte(mem, mem', h, {p - SIZEOF_ALLOCNODE}, n, b);
  }

  lemma FreeKeepsPayload(h: Heap, p: Addr, h': Heap, n: Addr, b: Addr)
    requires Inv(h) && (p == 0 || Live(h, p - SIZEOF_ALLOCNODE)) && h' == Free(h, p)
    requires InPayload(h, n, b) && p != n + SIZEOF_ALLOCNODE
    ensures InPayload(h', n, b)
  {
    if p != 0 {
      FreeLive(h, p, n);
    }
  }

  lemma MallocEvent(s: Snap, size: int, s': Snap, n: Addr, b: Addr)
    requires Inv(s.heap) && Next(s, Called(MallocOp(size)), s') && InPayload(s.heap, n, b)
    ensures InPayload(s'.heap, n, b) && ByteAt(s'.mem, b) == ByteAt(s.mem, b)
  {
    MallocSpares(s.heap, s.mem, size, s'.mem, n, b);
  }

  lemma FreeEvent(s: Snap, p: Addr, s': Snap, n: Addr, b: Addr)
    requires Inv(s.heap) && Next(s, Called(FreeOp(p)), s') && InPayload(s.heap, n, b)
    requires p != n + SIZEOF_ALLOCNODE
    ensures InPayload(s'.heap, n, b) && ByteAt(s'.mem, b) == ByteAt(s.mem, b)
  {
    FreeSpares(s.heap, s.mem, p, s'.heap, s'.mem, n, b);
  }

  lemma WriteEvent(s: Snap, e: Event, s': Snap, n: Addr, b: Addr)
    requires e.Wrote? && Inv(s.heap) && Next(s, e, s') && InPayload(s.heap, n, b) && Spares(e, n, b)
    ensures InPayload(s'.heap, n, b) && ByteAt(s'.mem, b) == ByteAt(s.mem, b)
  {
    PayloadsApart(s.heap, n, e.block, b, e.b);
    WithByteChangesOne(s.mem, e.b, e.v, b);
  }

  lemma NextSpares(s: Snap, e: Event, s': Snap, n: Addr, b: Addr)
    requires Inv(s.heap) && Next(s, e, s')
    requires InPayload(s.heap, n, b) && Spares(e, n, b)
    ensures InPayload(s'.heap, n, b) && ByteAt(s'.mem, b) == ByteAt(s.mem, b)
  {
    match e
    case Called(MallocOp(size)) => MallocEvent(s, size, s', n, b);
    case Called(FreeOp(p)) => FreeEvent(s, p, s', n, b);
    case Wrote(_, _, _) => WriteEvent(s, e, s', n, b);
  }

  lemma PayloadsApart(h: Heap, n: Addr, m: Addr, x: Addr, y: Addr)
    requires Inv(h) && InPayload(h, n, x) && InPayload(h, m, y) && (n != m || x != y)
    ensures x != y
  {
    assert Before(h.tags, n, m) && Before(h.tags, m, n);
  }

  /** What the first event of a trace leaves of a byte it spares. */
  lemma FirstSpares(ss: seq<Snap>, es: seq<Event>, n: Addr, b: Addr)
    requires |ss| == |es| + 1 && es != [] && Inv(ss[0].heap) && Trace(ss, es)
    requires InPayload(ss[0].heap, n, b) && Spares(es[0], n, b)
    ensures Inv(ss[1].heap) && Trace(ss[1..], es[1..])
    ensures InPayload(ss[1].heap, n, b) && ByteAt(ss[1].mem, b) == ByteAt(ss[0].mem, b)
  {
    NextKeepsInv(ss[0], es[0], ss[1]);
    NextSpares(ss[0], es[0], ss[1], n, b);
  }

  /**
   * In every run of calls and client writes, a byte of a live block keeps its value until its
   * owner writes it or frees the block.
   */
  lemma {:induction false} PayloadSurvives(ss: seq<Snap>, es: seq<Event>, n: Addr, b: Addr)
    requires |ss| == |es| + 1 && Inv(ss[0].heap) && Trace(ss, es)
    requires InPayload(ss[0].heap, n, b)
    requires forall i {:trigger Spares(es[i], n, b)} :: 0 <= i < |es| ==> Spares(es[i], n, b)
    ensures InPayload(ss[|es|].heap, n, b) && ByteAt(ss[|es|].mem, b) == ByteAt(ss[0].mem, b)
    decreases |es|
  {
    if es != [] {
      assert Spares(es[0], n, b);
      FirstSpares(ss, es, n, b);
      var ss', es' := ss[1..], es[1..];
      forall i {:trigger Spares(es'[i], n, b)} | 0 <= i < |es'| ensures Spares(es'[i], n, b) {
        assert Spares(es[i + 1], n, b);
      }
      PayloadSurvives(ss', es', n, b);
    }
  }
}
