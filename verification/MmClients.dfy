/** Clients calling the allocator: the runs of `MmRuns` are what the code of `MmHeap` performs. */
module MmClients {
  import opened MmConfig
  import opened MmSpec
  import opened MmMemory
  import opened MmRuns
  import H = MmHeap

  /** One call on the heap object. */
  method Call(heap: H.MmHeap, op: Op, ghost s: Sys)
    requires heap.Valid() && SysInv(s) && heap.View() == s.heap && heap.maxUsed == s.peak && Legal(s, op)
    modifies heap
    ensures heap.Valid() && heap.View() == Step(s, op).heap && heap.maxUsed == Step(s, op).peak
  {
    match op
    case MallocOp(size) =>
      var _ := heap.Malloc(size);
    case FreeOp(ptr) =>
      assert Granted(s, ptr);
      heap.Free(ptr);
  }

  /** A sequence of calls leaves heap and peak as the run does. */
  method Execute(heap: H.MmHeap, ops: seq<Op>, ghost s: Sys)
    requires heap.Valid() && SysInv(s) && heap.View() == s.heap && heap.maxUsed == s.peak && LegalRun(s, ops)
    modifies heap
    ensures heap.Valid() && heap.View() == Run(s, ops).heap && heap.maxUsed == Run(s, ops).peak
    decreases |ops|
  {
    if ops != [] {
      StepKeepsInv(s, ops[0]);
      Call(heap, ops[0], s);
      Execute(heap, ops[1..], Step(s, ops[0]));
    }
  }

  /** Clients free what they own and write bytes of their own blocks. */
  predicate Allowed(h: Heap, e: Event) {
    match e
    case Called(MallocOp(size)) => Grantable(size)
    case Called(FreeOp(p)) => p == 0 || Live(h, p - SIZEOF_ALLOCNODE)
    case Wrote(block, b, v) => InPayload(h, block, b) && 0 <= v < 0x100
  }

  ghost function HeapAfter(h: Heap, e: Event): (h': Heap)
    requires Inv(h) && Allowed(h, e)
    ensures Inv(h')
  {
    match e
    case Called(MallocOp(size)) => MallocKeepsInv(h, size); Malloc(h, size).0
    case Called(FreeOp(p)) => FreeKeepsInv(h, p); Free(h, p)
    case Wrote(_, _, _) => h
  }

  ghost predicate AllowedRun(h: Heap, es: seq<Event>)
    requires Inv(h)
    decreases |es|
  {
    es == [] || (Allowed(h, es[0]) && AllowedRun(HeapAfter(h, es[0]), es[1..]))
  }

  /** One call or client write on the heap object. */
  method Do(heap: H.MmHeap, e: Event)
    requires heap.Valid() && Allowed(heap.View(), e)
    modifies heap
    ensures heap.Valid() && heap.View() == HeapAfter(old(heap.View()), e)
    ensures Next(Snap(old(heap.View()), old(heap.mem)), e, Snap(heap.View(), heap.mem))
  {
    match e
    case Called(MallocOp(size)) =>
      var _ := heap.Malloc(size);
    case Called(FreeOp(p)) =>
      heap.Free(p);
    case Wrote(block, b, v) =>
      heap.ClientStore(block, b, v);
  }

  /** A sequence of calls and client writes makes a trace. */
  method Play(heap: H.MmHeap, es: seq<Event>) returns (ghost ss: seq<Snap>)
    requires heap.Valid() && AllowedRun(heap.View(), es)
    modifies heap
    ensures heap.Valid() && |ss| == |es| + 1 && ss[0] == Snap(old(heap.View()), old(heap.mem))
    ensures ss[|es|] == Snap(heap.View(), heap.mem) && Trace(ss, es)
    decreases |es|
  {
    ghost var s := Snap(heap.View(), heap.mem);
    if es == [] {
      ss := [s];
    } else {
      Do(heap, es[0]);
      ghost var rest := Play(heap, es[1..]);
      ss := [s] + rest;
      assert ss[1..] == rest;
    }
  }
}
