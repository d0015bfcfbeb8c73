/**
 * `mm_malloc` and `mm_free` as functions on the two views of the heap, and the proof that every
 * step keeps the views well formed and in agreement.
 */
module MmSpec {
  import opened Basics
  import opened MmConfig
  import opened MmLayout
  import opened MmIndex

  /**
   * `base` and `end` are the addresses of the guard nodes, `nl` that of `mm_nodelist`, `order`
   * the node addresses met by following `flink` from `mm_nodelist[0]`.
   */
  datatype Heap = Heap(base: Addr, end: Addr, nl: Addr, tags: Tags, order: seq<Addr>)

  /** The region is aligned, below 2^31 bytes long and apart from the heap structure. */
  ghost predicate Placed(base: Addr, end: Addr, nl: Addr) {
    && 0 <= base && base % MIN_CHUNK == 0
    && base + SIZEOF_ALLOCNODE + MIN_CHUNK <= end
    && (end - base) % MIN_CHUNK == SIZEOF_ALLOCNODE
    && end + SIZEOF_ALLOCNODE - base < ALLOC_BIT
    && end + SIZEOF_ALLOCNODE <= WORD_MODULUS
    && 0 < nl && IsWord(nl)
    && (nl + 16 * NNODES <= base || end + SIZEOF_ALLOCNODE <= nl)
  }

  /** The views agree while the free chunks in `d` are off the list. */
  ghost predicate Shaped(h: Heap, d: set<Addr>) {
    && Placed(h.base, h.end, h.nl)
    && Tiled(h.tags, h.base, h.end)
    && Indexed(h.tags, h.nl, h.order, d)
  }

  ghost predicate WellFormed(h: Heap, d: set<Addr>) {
    && Shaped(h, d)
    && Granular(h.tags, h.base, h.end)
    && Separated(h.tags, h.end, d)
  }

  /** What holds between calls. */
  ghost predicate Inv(h: Heap) {
    WellFormed(h, {})
  }

  predicate Inner(h: Heap, n: Addr) {
    n in h.tags && h.base < n < h.end
  }

  /** A chunk handed out to a client. */
  predicate Live(h: Heap, n: Addr) {
    Inner(h, n) && h.tags[n].alloc
  }

  predicate FreeChunk(h: Heap, n: Addr) {
    Inner(h, n) && !h.tags[n].alloc
  }

  /** What holds inside `mm_free` while the free chunk `n` is off the list. */
  ghost predicate Detached(h: Heap, n: Addr) {
    WellFormed(h, {n}) && FreeChunk(h, n)
  }

  ghost predicate NextTaken(h: Heap, n: Addr)
    requires n in h.tags
  {
    n + h.tags[n].size in h.tags && h.tags[n + h.tags[n].size].alloc
  }

  ghost predicate PrevTaken(h: Heap, n: Addr)
    requires n in h.tags
  {
    n - h.tags[n].prec in h.tags && h.tags[n - h.tags[n].prec].alloc
  }

  // ----- the operations

  function Take(h: Heap, n: Addr): Heap {
    h.(order := Without(h.order, n))
  }

  /** `mm_addfreechunk`: before the first node that ranks at least as high. */
  function Put(h: Heap, n: Addr): Heap {
    h.(order := InsertAt(h.order, LowerBound(h.tags, h.nl, h.order, Rank(h.tags, h.nl, n)), n))
  }

  function Claim(h: Heap, n: Addr): Heap
    requires n in h.tags
  {
    Take(h, n).(tags := WithAlloc(h.tags, n, true))
  }

  /** Cuts the claimed chunk to `req` bytes when the rest can stand as a free chunk. */
  function Trim(h: Heap, n: Addr, req: int): Heap
    requires n in h.tags && n + h.tags[n].size in h.tags
  {
    if h.tags[n].size - req >= SIZEOF_FREENODE then
      Put(h.(tags := SplitTags(h.tags, n, req)), n + req)
    else
      h
  }

  /** Hands out the free chunk `n`, cut to `req` bytes. */
  function Carve(h: Heap, n: Addr, req: int): Heap
    requires n in h.tags && n + h.tags[n].size in h.tags
  {
    Trim(Claim(h, n), n, req)
  }

  lemma InnerNext(h: Heap, n: Addr)
    requires Tiled(h.tags, h.base, h.end) && Inner(h, n)
    ensures n + h.tags[n].size in h.tags && n - h.tags[n].prec in h.tags
    ensures h.tags[n].size >= MIN_CHUNK && n + h.tags[n].size <= h.end
    ensures h.tags[n].prec > 0 && h.base <= n - h.tags[n].prec
    ensures h.tags[n + h.tags[n].size].prec == h.tags[n].size
    ensures h.tags[n - h.tags[n].prec].size == h.tags[n].prec
  {
    assert Fits(h.tags, h.base, h.end, n);
    assert Fits(h.tags, h.base, h.end, n - h.tags[n].prec);
    assert Before(h.tags, n, h.end);
  }

  lemma ListedInner(h: Heap, d: set<Addr>, n: Addr)
    requires Shaped(h, d) && n in h.order
    ensures IsHead(h.nl, n) <==> n !in h.tags
    ensures n in h.tags ==> FreeChunk(h, n) && n !in d
  {
    assert Listed(h.tags, h.nl, h.order, d, n);
    if n in h.tags {
      assert Fits(h.tags, h.base, h.end, n);
      assert Fits(h.tags, h.base, h.end, h.base) && Fits(h.tags, h.base, h.end, h.end);
    }
  }

  /** Result of `mm_malloc`: the new heap and the returned pointer, 0 for NULL. */
  ghost function Malloc(h: Heap, size: int): (r: (Heap, Addr))
    requires Inv(h) && Grantable(size)
  {
    if size < 1 then (h, 0) else
      var req := Rounded(size);
      var p := FirstFit(h.tags, h.nl, h.order, req);
      if p == |h.order| then (h, 0) else
        var n := h.order[p];
        ListedInner(h, {}, n);
        InnerNext(h, n);
        (Carve(h, n, req), n + SIZEOF_ALLOCNODE)
  }

  /** First half of the merge in `mm_free`: absorb a free successor. */
  ghost function Forward(h: Heap, n: Addr): Heap
    requires Tiled(h.tags, h.base, h.end) && Inner(h, n)
  {
    InnerNext(h, n);
    var next := n + h.tags[n].size;
    assert Fits(h.tags, h.base, h.end, next);
    if h.tags[next].alloc then h else
      InnerNext(h, next);
      Take(h, next).(tags := MergeTags(h.tags, n))
  }

  /** The node that stands for `n` after the second half of the merge. */
  ghost function BackNode(h: Heap, n: Addr): Addr
    requires Tiled(h.tags, h.base, h.end) && Inner(h, n)
  {
    InnerNext(h, n);
    var prev := n - h.tags[n].prec;
    if h.tags[prev].alloc then n else prev
  }

  /** Second half of the merge: be absorbed by a free predecessor. */
  ghost function Backward(h: Heap, n: Addr): Heap
    requires Tiled(h.tags, h.base, h.end) && Inner(h, n)
  {
    InnerNext(h, n);
    var prev := n - h.tags[n].prec;
    if h.tags[prev].alloc then h else
      Take(h, prev).(tags := MergeTags(h.tags, prev))
  }

  function Release(h: Heap, n: Addr): Heap
    requires n in h.tags
  {
    h.(tags := WithAlloc(h.tags, n, false))
  }

  /** Result of `mm_free` on NULL or on a pointer obtained from `mm_malloc`. */
  ghost function Free(h: Heap, p: Addr): Heap
    requires Inv(h)
    requires p == 0 || Live(h, p - SIZEOF_ALLOCNODE)
  {
    if p == 0 then h else
      var n := p - SIZEOF_ALLOCNODE;
      ReleaseDetached(h, n);
      var merged := Forward(Release(h, n), n);
      ForwardDetached(Release(h, n), n);
      Put(Backward(merged, n), BackNode(merged, n))
  }

  // ----- each step keeps the invariant

  lemma FencedAt(h: Heap, d: set<Addr>, n: Addr)
    requires Tiled(h.tags, h.base, h.end) && Separated(h.tags, h.end, d) && Inner(h, n)
    requires !h.tags[n].alloc
    ensures n !in d && n + h.tags[n].size in h.tags && n + h.tags[n].size !in d ==> NextTaken(h, n)
    ensures n !in d && n - h.tags[n].prec in h.tags && n - h.tags[n].prec !in d ==> PrevTaken(h, n)
  {
    InnerNext(h, n);
    assert Fenced(h.tags, h.end, n, d);
    assert Fenced(h.tags, h.end, n - h.tags[n].prec, d);
  }

  lemma HeadNotInner(h: Heap, n: Addr)
    requires Placed(h.base, h.end, h.nl) && h.base <= n <= h.end
    ensures !IsHead(h.nl, n)
  {
  }

  lemma ClaimIndexed(h: Heap, n: Addr)
    requires Inv(h) && FreeChunk(h, n)
    ensures Indexed(WithAlloc(h.tags, n, true), h.nl, Without(h.order, n), {})
  {
    HeadNotInner(h, n);
    assert Listed(h.tags, h.nl, h.order, {}, n);
    TakeIndexed(h.tags, h.nl, h.order, {}, n);
    assert {} + {n} == {n};
    IndexedFrame(h.tags, WithAlloc(h.tags, n, true), h.nl, Without(h.order, n), {n}, {});
  }

  lemma ClaimKeepsInv(h: Heap, n: Addr)
    requires Inv(h) && FreeChunk(h, n)
    ensures Inv(Claim(h, n))
    ensures NextTaken(Claim(h, n), n)
  {
    InnerNext(h, n);
    FencedAt(h, {}, n);
    ClaimIndexed(h, n);
    WithAllocTiled(h.tags, h.base, h.end, n, true);
    WithAllocGranular(h.tags, h.base, h.end, n, true);
    ClaimSeparated(h.tags, h.end, n);
  }

  lemma SplitDetaches(h: Heap, n: Addr, req: int)
    requires Inv(h) && Live(h, n) && NextTaken(h, n)
    requires MIN_CHUNK <= req && req % MIN_CHUNK == 0 && req + MIN_CHUNK <= h.tags[n].size
    ensures var h' := h.(tags := SplitTags(h.tags, n, req));
            Detached(h', n + req) && NextTaken(h', n + req) && PrevTaken(h', n + req)
  {
    InnerNext(h, n);
    SplitTiled(h.tags, h.base, h.end, n, req);
    SplitGranular(h.tags, h.base, h.end, n, req);
    SplitSeparated(h.tags, h.base, h.end, n, req);
    IndexedFrame(h.tags, SplitTags(h.tags, n, req), h.nl, h.order, {}, {n + req});
  }

  lemma PutKeepsInv(h: Heap, n: Addr)
    requires Detached(h, n) && NextTaken(h, n) && PrevTaken(h, n)
    ensures Inv(Put(h, n))
  {
    HeadNotInner(h, n);
    InnerNext(h, n);
    PutIndexed(h.tags, h.nl, h.order, n);
    SeparatedStrengthen(h.tags, h.base, h.end, n);
  }

  lemma TrimKeepsInv(h: Heap, n: Addr, req: int)
    requires Inv(h) && Live(h, n) && NextTaken(h, n)
    requires MIN_CHUNK <= req <= h.tags[n].size && req % MIN_CHUNK == 0
    ensures Inv(Trim(h, n, req))
    ensures Live(Trim(h, n, req), n) && Trim(h, n, req).tags[n].size == req
  {
    InnerNext(h, n);
    if h.tags[n].size - req >= SIZEOF_FREENODE {
      SplitDetaches(h, n, req);
      PutKeepsInv(h.(tags := SplitTags(h.tags, n, req)), n + req);
    } else {
      assert Aligned(h.tags, h.base, h.end, n);
    }
  }

  lemma ReleaseDetached(h: Heap, n: Addr)
    requires Inv(h) && Live(h, n)
    ensures Detached(Release(h, n), n)
  {
    WithAllocTiled(h.tags, h.base, h.end, n, false);
    WithAllocGranular(h.tags, h.base, h.end, n, false);
    ReleaseSeparated(h.tags, h.end, n);
    IndexedFrame(h.tags, WithAlloc(h.tags, n, false), h.nl, h.order, {}, {n});
  }

  /** Merges two free chunks that are both off the list. */
  lemma MergeDetached(h: Heap, n: Addr, next: Addr)
    requires WellFormed(h, {n, next})
    requires FreeChunk(h, n) && FreeChunk(h, next) && next == n + h.tags[n].size
    requires NextTaken(h, next)
    ensures Detached(h.(tags := MergeTags(h.tags, n)), n)
    ensures NextTaken(h.(tags := MergeTags(h.tags, n)), n)
  {
    InnerNext(h, n);
    InnerNext(h, next);
    MergeTiled(h.tags, h.base, h.end, n);
    MergeGranular(h.tags, h.base, h.end, n);
    MergeSeparated(h.tags, h.base, h.end, n);
    IndexedFrame(h.tags, MergeTags(h.tags, n), h.nl, h.order, {n, next}, {n});
  }

  /** A free successor is listed, and `Forward` merges it. */
  lemma ForwardFree(h: Heap, n: Addr, next: Addr)
    requires Detached(h, n) && next == n + h.tags[n].size && next in h.tags && !h.tags[next].alloc
    ensures FreeChunk(h, next) && next in h.order && next + h.tags[next].size in h.tags
    ensures Forward(h, n) == Take(h, next).(tags := MergeTags(h.tags, n))
    ensures n + MergeTags(h.tags, n)[n].size == next + h.tags[next].size
  {
    assert Fits(h.tags, h.base, h.end, next);
    InnerNext(h, n);
    InnerNext(h, next);
    assert Listed(h.tags, h.nl, h.order, {n}, next);
  }

  /** A free predecessor is listed, and `Backward` merges it. */
  lemma BackwardFree(h: Heap, n: Addr, prev: Addr)
    requires Detached(h, n) && prev == n - h.tags[n].prec && prev in h.tags && !h.tags[prev].alloc
    ensures FreeChunk(h, prev) && prev in h.order
    ensures prev + h.tags[prev].size == n && n + h.tags[n].size in h.tags
    ensures Backward(h, n) == Take(h, prev).(tags := MergeTags(h.tags, prev))
    ensures BackNode(h, n) == prev
  {
    InnerNext(h, n);
    assert Fits(h.tags, h.base, h.end, h.base);
    InnerNext(h, prev);
    assert Listed(h.tags, h.nl, h.order, {n}, prev);
  }

  lemma ForwardIdle(h: Heap, n: Addr)
    requires Tiled(h.tags, h.base, h.end) && Inner(h, n) && NextTaken(h, n)
    ensures Forward(h, n) == h
  {
  }

  lemma BackwardIdle(h: Heap, n: Addr)
    requires Tiled(h.tags, h.base, h.end) && Inner(h, n) && PrevTaken(h, n)
    ensures Backward(h, n) == h && BackNode(h, n) == n
  {
  }

  /** Taking a second free chunk off the list. */
  lemma TakeSecond(h: Heap, n: Addr, m: Addr)
    requires Detached(h, n) && FreeChunk(h, m) && m in h.order
    ensures WellFormed(Take(h, m), {n, m})
  {
    HeadNotInner(h, m);
    TakeIndexed(h.tags, h.nl, h.order, {n}, m);
    SeparatedWeaken(h.tags, h.end, {n}, {n, m});
    assert {n} + {m} == {n, m};
  }

  lemma ForwardMerges(h: Heap, n: Addr, next: Addr)
    requires Detached(h, n) && FreeChunk(h, next) && next == n + h.tags[n].size && next in h.order
    ensures next + h.tags[next].size in h.tags
    ensures var h' := Take(h, next).(tags := MergeTags(h.tags, n));
            Detached(h', n) && NextTaken(h', n)
  {
    InnerNext(h, n);
    InnerNext(h, next);
    FencedAt(h, {n}, next);
    TakeSecond(h, n, next);
    MergeDetached(Take(h, next), n, next);
  }

  lemma ForwardDetached(h: Heap, n: Addr)
    requires Detached(h, n)
    ensures Detached(Forward(h, n), n) && NextTaken(Forward(h, n), n)
  {
    InnerNext(h, n);
    var next := n + h.tags[n].size;
    if h.tags[next].alloc {
      ForwardIdle(h, n);
    } else {
      ForwardFree(h, n, next);
      ForwardMerges(h, n, next);
    }
  }

  lemma BackwardMerges(h: Heap, n: Addr, prev: Addr)
    requires Detached(h, n) && NextTaken(h, n)
    requires FreeChunk(h, prev) && prev + h.tags[prev].size == n && prev in h.order
    ensures n + h.tags[n].size in h.tags
    ensures var h' := Take(h, prev).(tags := MergeTags(h.tags, prev));
            Detached(h', prev) && NextTaken(h', prev)
  {
    TakeSecond(h, n, prev);
    assert {n, prev} == {prev, n};
    MergeDetached(Take(h, prev), prev, n);
  }

  lemma BackwardMergesPrev(h: Heap, n: Addr, prev: Addr)
    requires Detached(h, n) && n + h.tags[n].size in h.tags
    requires FreeChunk(h, prev) && prev + h.tags[prev].size == n && prev in h.order
    ensures PrevTaken(Take(h, prev).(tags := MergeTags(h.tags, prev)), prev)
  {
    InnerNext(h, n);
    InnerNext(h, prev);
    FencedAt(h, {n}, prev);
    MergeKeepsPrev(h.tags, h.base, h.end, prev);
  }

  lemma BackwardDetached(h: Heap, n: Addr)
    requires Detached(h, n) && NextTaken(h, n)
    ensures var h', m := Backward(h, n), BackNode(h, n);
            Detached(h', m) && NextTaken(h', m) && PrevTaken(h', m)
  {
    InnerNext(h, n);
    var prev := n - h.tags[n].prec;
    if h.tags[prev].alloc {
      BackwardIdle(h, n);
    } else {
      BackwardFree(h, n, prev);
      BackwardMerges(h, n, prev);
      BackwardMergesPrev(h, n, prev);
    }
  }

  /** A successful call claims and trims the first fit. */
  lemma MallocTakes(h: Heap, size: int)
    requires Inv(h) && Grantable(size) && size >= 1
    requires FirstFit(h.tags, h.nl, h.order, Rounded(size)) < |h.order|
    ensures var n := h.order[FirstFit(h.tags, h.nl, h.order, Rounded(size))];
            && FreeChunk(h, n) && !IsHead(h.nl, n)
            && MIN_CHUNK <= Rounded(size) <= h.tags[n].size && Rounded(size) % MIN_CHUNK == 0
            && n + h.tags[n].size in h.tags
            && Malloc(h, size).0 == Carve(h, n, Rounded(size))
            && Malloc(h, size).1 == n + SIZEOF_ALLOCNODE
  {
    RoundedCoversRequest(size);
    var n := h.order[FirstFit(h.tags, h.nl, h.order, Rounded(size))];
    ListedInner(h, {}, n);
    InnerNext(h, n);
  }

  lemma CarveKeepsInv(h: Heap, n: Addr, req: int)
    requires Inv(h) && FreeChunk(h, n) && n + h.tags[n].size in h.tags
    requires MIN_CHUNK <= req <= h.tags[n].size && req % MIN_CHUNK == 0
    ensures var h' := Carve(h, n, req);
            Inv(h') && Live(h', n) && h'.tags[n].size == req
  {
    ClaimKeepsInv(h, n);
    TrimKeepsInv(Claim(h, n), n, req);
  }

  /** `mm_malloc` keeps both views well formed and in agreement. */
  lemma MallocKeepsInv(h: Heap, size: int)
    requires Inv(h) && Grantable(size)
    ensures Inv(Malloc(h, size).0)
    ensures Malloc(h, size).1 != 0 ==> Live(Malloc(h, size).0, Malloc(h, size).1 - SIZEOF_ALLOCNODE)
  {
    if size >= 1 {
      var p := FirstFit(h.tags, h.nl, h.order, Rounded(size));
      if p < |h.order| {
        MallocTakes(h, size);
        CarveKeepsInv(h, h.order[p], Rounded(size));
      }
    }
  }

  /** `mm_free` keeps both views well formed and in agreement. */
  lemma FreeKeepsInv(h: Heap, p: Addr)
    requires Inv(h)
    requires p == 0 || Live(h, p - SIZEOF_ALLOCNODE)
    ensures Inv(Free(h, p))
  {
    if p != 0 {
      var n := p - SIZEOF_ALLOCNODE;
      ReleaseDetached(h, n);
      ForwardDetached(Release(h, n), n);
      var h1 := Forward(Release(h, n), n);
      BackwardDetached(h1, n);
      PutKeepsInv(Backward(h1, n), BackNode(h1, n));
    }
  }
}
