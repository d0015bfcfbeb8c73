/** What the allocator promises about single calls: best fit and exact undo. */
module MmTheorems {
  import opened Basics
  import opened MmConfig
  import opened MmLayout
  import opened MmIndex
  import opened MmSpec

  // ----- initialisation

  /** The chain of bucket heads `mm_initialize` builds before any chunk is added. */
  function Heads(nl: Addr, count: nat): seq<Addr> {
    seq(count, k => Head(nl, k))
  }

  function InitTags(base: Addr, end: Addr): Tags {
    var room := end - base - SIZEOF_ALLOCNODE;
    map[base := Tag(SIZEOF_ALLOCNODE, 0, true),
        base + SIZEOF_ALLOCNODE := Tag(room, SIZEOF_ALLOCNODE, false),
        end := Tag(SIZEOF_ALLOCNODE, room, true)]
  }

  /** The heap after `mm_initialize`: one free chunk between the guards. */
  function InitHeap(base: Addr, end: Addr, nl: Addr): Heap {
    Put(Heap(base, end, nl, InitTags(base, end), Heads(nl, NNODES)), base + SIZEOF_ALLOCNODE)
  }

  lemma HeadsSorted(tags: Tags, nl: Addr)
    ensures StrictlySorted(tags, nl, Heads(nl, NNODES))
    ensures NoDup(Heads(nl, NNODES))
    ensures forall n :: n in Heads(nl, NNODES) <==> IsHead(nl, n)
  {
    var s := Heads(nl, NNODES);
    forall i, j | 0 <= i < j < |s| ensures Rank(tags, nl, s[i]) < Rank(tags, nl, s[j]) && s[i] != s[j] {
      RankOfHead(tags, nl, i);
      RankOfHead(tags, nl, j);
      HeadRankMonotone(i, j);
    }
    forall n | IsHead(nl, n) ensures n in s {
      assert s[(n - nl) / 16] == n;
    }
  }

  lemma InitTiled(base: Addr, end: Addr, nl: Addr)
    requires Placed(base, end, nl)
    ensures var tags := InitTags(base, end);
            && Tiled(tags, base, end) && Granular(tags, base, end)
            && Separated(tags, end, {base + SIZEOF_ALLOCNODE})
  {
    var tags := InitTags(base, end);
    var d := {base + SIZEOF_ALLOCNODE};
    forall a {:trigger Fits(tags, base, end, a)} | a in tags ensures Fits(tags, base, end, a) {
      InitFits(base, end, a);
    }
    forall a, b {:trigger Before(tags, a, b)} ensures Before(tags, a, b) {
      assert a in tags ==> a == base || a == base + SIZEOF_ALLOCNODE || a == end;
    }
    forall a {:trigger Aligned(tags, base, end, a)} ensures Aligned(tags, base, end, a) {
      assert a in tags ==> a == base || a == base + SIZEOF_ALLOCNODE || a == end;
    }
    forall a {:trigger Fenced(tags, end, a, d)} | a in tags ensures Fenced(tags, end, a, d) {
      assert a == base || a == base + SIZEOF_ALLOCNODE || a == end;
    }
  }

  lemma InitFits(base: Addr, end: Addr, a: Addr)
    requires base + SIZEOF_ALLOCNODE + MIN_CHUNK <= end && a in InitTags(base, end)
    ensures Fits(InitTags(base, end), base, end, a)
  {
    assert a == base || a == base + SIZEOF_ALLOCNODE || a == end;
  }

  /** `mm_initialize` establishes the invariant. */
  lemma InitInv(base: Addr, end: Addr, nl: Addr)
    requires Placed(base, end, nl)
    ensures Inv(InitHeap(base, end, nl))
    ensures forall n :: !Live(InitHeap(base, end, nl), n)
  {
    var tags := InitTags(base, end);
    var n := base + SIZEOF_ALLOCNODE;
    var h := Heap(base, end, nl, tags, Heads(nl, NNODES));
    InitTiled(base, end, nl);
    HeadsSorted(tags, nl);
    forall m {:trigger Listed(tags, nl, h.order, {n}, m)} ensures Listed(tags, nl, h.order, {n}, m) {}
    PutKeepsInv(h, n);
  }

  // ----- best fit

  /** Everything before the chosen node ranks strictly below it: it is the first among equals. */
  lemma FirstFitRanks(h: Heap, req: int)
    requires Inv(h) && req >= MIN_CHUNK
    ensures var p := FirstFit(h.tags, h.nl, h.order, req);
            p < |h.order| ==>
              && FreeChunk(h, h.order[p]) && !IsHead(h.nl, h.order[p])
              && forall i :: 0 <= i < p ==>
                   Rank(h.tags, h.nl, h.order[i]) < Rank(h.tags, h.nl, h.order[p])
  {
    var p := FirstFit(h.tags, h.nl, h.order, req);
    if p < |h.order| {
      var n := h.order[p];
      ListedInner(h, {}, n);
      forall i | 0 <= i < p ensures Rank(h.tags, h.nl, h.order[i]) < Rank(h.tags, h.nl, n) {
        var m := h.order[i];
        ListedInner(h, {}, m);
        if IsHead(h.nl, m) {
          HeadRankVersusSize((m - h.nl) / 16, h.tags[n].size);
          assert Rank(h.tags, h.nl, m) <= Rank(h.tags, h.nl, n);
        }
      }
    }
  }

  /** What a successful call returns, for the chunk `n` it found. */
  ghost predicate Served(h: Heap, req: int, n: Addr, h': Heap) {
    && (n + SIZEOF_ALLOCNODE) % MIN_CHUNK == 0
    && FreeChunk(h, n) && h.tags[n].size >= req
    && (forall m :: FreeChunk(h, m) && h.tags[m].size >= req ==> h.tags[n].size <= h.tags[m].size)
    && Live(h', n) && h'.tags[n].size == req
  }

  lemma FitIsServed(h: Heap, req: int, p: nat)
    requires Inv(h) && p == FirstFit(h.tags, h.nl, h.order, req) < |h.order|
    requires FreeChunk(h, h.order[p]) && h.order[p] + h.tags[h.order[p]].size in h.tags
    requires MIN_CHUNK <= req <= h.tags[h.order[p]].size && req % MIN_CHUNK == 0
    ensures Served(h, req, h.order[p], Carve(h, h.order[p], req))
  {
    FitsAreSmallest(h, req);
    CarveKeepsInv(h, h.order[p], req);
    AlignedPointer(h, h.order[p]);
  }

  lemma MallocServes(h: Heap, size: int)
    requires Inv(h) && Grantable(size) && size >= 1
    requires FirstFit(h.tags, h.nl, h.order, Rounded(size)) < |h.order|
    ensures var h', ptr := Malloc(h, size).0, Malloc(h, size).1;
            ptr != 0 && Served(h, Rounded(size), ptr - SIZEOF_ALLOCNODE, h')
  {
    var p := FirstFit(h.tags, h.nl, h.order, Rounded(size));
    MallocTakes(h, size);
    FitIsServed(h, Rounded(size), p);
    AlignedPointer(h, h.order[p]);
  }

  /**
   * `mm_malloc` fails exactly when no free chunk is large enough, and otherwise takes a smallest
   * sufficient one; the pointer is granule-aligned and its chunk is exactly the rounded request.
   */
  lemma MallocIsBestFit(h: Heap, size: int)
    requires Inv(h) && Grantable(size) && size >= 1
    ensures var h', ptr := Malloc(h, size).0, Malloc(h, size).1;
            && (ptr == 0 <==> forall m :: FreeChunk(h, m) ==> h.tags[m].size < Rounded(size))
            && (ptr == 0 ==> h' == h)
            && (ptr != 0 ==> Served(h, Rounded(size), ptr - SIZEOF_ALLOCNODE, h'))
  {
    var req := Rounded(size);
    RoundedCoversRequest(size);
    var p := FirstFit(h.tags, h.nl, h.order, req);
    if p < |h.order| {
      MallocServes(h, size);
    } else {
      FitsAreSmallest(h, req);
      assert Malloc(h, size).0 == h && Malloc(h, size).1 == 0;
    }
  }

  lemma AlignedPointer(h: Heap, n: Addr)
    requires Inv(h) && Inner(h, n)
    ensures (n + SIZEOF_ALLOCNODE) % MIN_CHUNK == 0 && n + SIZEOF_ALLOCNODE > 0
  {
    assert Aligned(h.tags, h.base, h.end, n);
  }

  lemma FitsAreSmallest(h: Heap, req: int)
    requires Inv(h) && req >= MIN_CHUNK
    ensures var p := FirstFit(h.tags, h.nl, h.order, req);
            forall m :: FreeChunk(h, m) && h.tags[m].size >= req ==>
                          p < |h.order| && h.order[p] in h.tags && h.tags[h.order[p]].size <= h.tags[m].size
  {
    var p := FirstFit(h.tags, h.nl, h.order, req);
    forall m | FreeChunk(h, m) && h.tags[m].size >= req
      ensures p < |h.order| && h.order[p] in h.tags && h.tags[h.order[p]].size <= h.tags[m].size
    {
      FitIsSmallest(h, req, m);
    }
  }

  lemma FitIsSmallest(h: Heap, req: int, m: Addr)
    requires Inv(h) && req >= MIN_CHUNK
    requires FreeChunk(h, m) && h.tags[m].size >= req
    ensures var p := FirstFit(h.tags, h.nl, h.order, req);
            p < |h.order| && h.order[p] in h.tags && h.tags[h.order[p]].size <= h.tags[m].size
  {
    var p := FirstFit(h.tags, h.nl, h.order, req);
    HeadNotInner(h, m);
    assert Listed(h.tags, h.nl, h.order, {}, m);
    var j := IndexOf(h.order, m);
    assert h.order[j] == m;
    assert p <= j;
    if p < j {
      assert Rank(h.tags, h.nl, h.order[p]) <= Rank(h.tags, h.nl, h.order[j]);
    }
  }

  /** Each free chunk sits between the head of its own bucket and the next head. */
  lemma InOwnBucket(h: Heap, i: nat, k: nat)
    requires Inv(h) && i < |h.order| && !IsHead(h.nl, h.order[i])
    requires k < NNODES
    ensures FreeChunk(h, h.order[i])
    ensures BucketOf(h.tags[h.order[i]].size) < NNODES
    ensures k <= BucketOf(h.tags[h.order[i]].size) ==> IndexOf(h.order, Head(h.nl, k)) < i
    ensures k > BucketOf(h.tags[h.order[i]].size) ==> i < IndexOf(h.order, Head(h.nl, k)) < |h.order|
  {
    var n := h.order[i];
    ListedInner(h, {}, n);
    assert h.tags[n].size >= MIN_CHUNK by { InnerNext(h, n); }
    BucketBounds(h.tags[n].size);
    if k <= BucketOf(h.tags[n].size) {
      HeadBelow(h, i, k);
    } else {
      HeadAbove(h, i, k);
    }
  }

  lemma HeadBelow(h: Heap, i: nat, k: nat)
    requires Inv(h) && i < |h.order| && FreeChunk(h, h.order[i]) && !IsHead(h.nl, h.order[i])
    requires h.tags[h.order[i]].size >= MIN_CHUNK
    requires k < NNODES && k <= BucketOf(h.tags[h.order[i]].size)
    ensures IndexOf(h.order, Head(h.nl, k)) < i
  {
    RankOfHead(h.tags, h.nl, k);
    HeadRankVersusSize(k, h.tags[h.order[i]].size);
    assert Listed(h.tags, h.nl, h.order, {}, Head(h.nl, k));
    SortedOrder(h.tags, h.nl, h.order, IndexOf(h.order, Head(h.nl, k)), i);
  }

  lemma HeadAbove(h: Heap, i: nat, k: nat)
    requires Inv(h) && i < |h.order| && FreeChunk(h, h.order[i]) && !IsHead(h.nl, h.order[i])
    requires h.tags[h.order[i]].size >= MIN_CHUNK
    requires k < NNODES && k > BucketOf(h.tags[h.order[i]].size)
    ensures i < IndexOf(h.order, Head(h.nl, k)) < |h.order|
  {
    RankOfHead(h.tags, h.nl, k);
    HeadRankVersusSize(k, h.tags[h.order[i]].size);
    assert Listed(h.tags, h.nl, h.order, {}, Head(h.nl, k));
    SortedOrder(h.tags, h.nl, h.order, i, IndexOf(h.order, Head(h.nl, k)));
  }

  // ----- malloc then free is the identity

  lemma PutUndoesTake(h: Heap, p: nat)
    requires Inv(h) && p < |h.order|
    requires forall i :: 0 <= i < p ==> Rank(h.tags, h.nl, h.order[i]) < Rank(h.tags, h.nl, h.order[p])
    ensures Put(Take(h, h.order[p]), h.order[p]) == h
  {
    var n := h.order[p];
    WithoutAt(h.order, p);
    RemoveMembers(h.order, p);
    LowerBoundIs(h.tags, h.nl, RemoveAt(h.order, p), Rank(h.tags, h.nl, n), p);
  }

  /** Merging a split chunk gives back the whole chunk, off the list. */
  lemma ForwardUndoesSplit(h: Heap, split: Heap, n: Addr, req: int)
    requires Tiled(h.tags, h.base, h.end) && Inner(h, n) && n + h.tags[n].size in h.tags
    requires MIN_CHUNK <= req && req + MIN_CHUNK <= h.tags[n].size
    requires split.(tags := h.tags, order := h.order) == h
    requires split.tags == SplitTags(h.tags, n, req)
    requires Tiled(split.tags, h.base, h.end) && Inner(split, n)
    requires Without(split.order, n + req) == Without(h.order, n)
    ensures Forward(split, n) == Take(h, n)
  {
    SplitTiled(h.tags, h.base, h.end, n, req);
    MergeUndoesSplit(h.tags, h.base, h.end, n, req);
  }

  lemma MergeUndoesTrim(h: Heap, n: Addr, req: int)
    requires Inv(h) && FreeChunk(h, n) && n in h.order
    requires n + h.tags[n].size in h.tags
    requires MIN_CHUNK <= req && req + MIN_CHUNK <= h.tags[n].size
    requires var h' := Release(Carve(h, n, req), n);
             Tiled(h'.tags, h'.base, h'.end) && Inner(h', n)
    ensures Forward(Release(Carve(h, n, req), n), n) == Take(h, n)
  {
    var h' := Release(Carve(h, n, req), n);
    assert h'.tags == SplitTags(h.tags, n, req);
    RemainderLeaves(h, n, req);
    ForwardUndoesSplit(h, h', n, req);
  }

  lemma RemainderLeaves(h: Heap, n: Addr, req: int)
    requires Inv(h) && FreeChunk(h, n) && n in h.order
    requires n + h.tags[n].size in h.tags
    requires MIN_CHUNK <= req && req + MIN_CHUNK <= h.tags[n].size
    ensures Without(Carve(h, n, req).order, n + req) == Without(h.order, n)
  {
    var r := n + req;
    var order1 := Without(h.order, n);
    WithoutMembers(h.order, n);
    assert r !in order1 by {
      SplitTiled(h.tags, h.base, h.end, n, req);
      InnerNext(h, n);
      HeadNotInner(h, r);
      assert Listed(h.tags, h.nl, h.order, {}, r);
    }
    var split := SplitTags(WithAlloc(h.tags, n, true), n, req);
    InsertThenWithout(order1, LowerBound(split, h.nl, order1, Rank(split, h.nl, r)), r);
  }

  lemma ReleaseUndoesClaim(h: Heap, n: Addr)
    requires Inv(h) && FreeChunk(h, n)
    requires Tiled(Release(Claim(h, n), n).tags, h.base, h.end)
    ensures Forward(Release(Claim(h, n), n), n) == Take(h, n)
  {
    assert Release(Claim(h, n), n).tags == h.tags;
    InnerNext(h, n);
    FencedAt(h, {}, n);
  }

  /** Freeing `ptr` is possible in `h'` and gives exactly `h`. */
  ghost predicate FreeGives(h': Heap, ptr: Addr, h: Heap) {
    Inv(h') && Live(h', ptr - SIZEOF_ALLOCNODE) && Free(h', ptr) == h
  }

  lemma FreeUndoesCarve(h: Heap, p: nat, req: int)
    requires Inv(h) && p < |h.order| && FreeChunk(h, h.order[p])
    requires h.order[p] + h.tags[h.order[p]].size in h.tags
    requires MIN_CHUNK <= req <= h.tags[h.order[p]].size && req % MIN_CHUNK == 0
    requires forall i :: 0 <= i < p ==> Rank(h.tags, h.nl, h.order[i]) < Rank(h.tags, h.nl, h.order[p])
    ensures FreeGives(Carve(h, h.order[p], req), h.order[p] + SIZEOF_ALLOCNODE, h)
  {
    var n := h.order[p];
    var h' := Carve(h, n, req);
    CarveKeepsInv(h, n, req);
    ReleaseDetached(h', n);
    if h.tags[n].size - req >= SIZEOF_FREENODE {
      MergeUndoesTrim(h, n, req);
    } else {
      ReleaseUndoesClaim(h, n);
    }
    BackwardIsIdle(h, n);
    PutUndoesTake(h, p);
    AlignedPointer(h, n);
  }

  lemma BackwardIsIdle(h: Heap, n: Addr)
    requires Inv(h) && FreeChunk(h, n)
    ensures Backward(Take(h, n), n) == Take(h, n) && BackNode(Take(h, n), n) == n
  {
    InnerNext(h, n);
    FencedAt(h, {}, n);
  }

  lemma InsertThenWithout<T>(s: seq<T>, i: nat, x: T)
    requires NoDup(s) && x !in s && i <= |s|
    ensures Without(InsertAt(s, i, x), x) == s
  {
    InsertMembers(s, i, x);
    WithoutAt(InsertAt(s, i, x), i);
  }

  lemma FreeUndoesFit(h: Heap, p: nat, req: int, h': Heap, ptr: Addr)
    requires Inv(h) && p == FirstFit(h.tags, h.nl, h.order, req) < |h.order| && h.order[p] in h.tags
    requires FreeChunk(h, h.order[p]) && h.order[p] + h.tags[h.order[p]].size in h.tags
    requires MIN_CHUNK <= req <= h.tags[h.order[p]].size && req % MIN_CHUNK == 0
    requires h' == Carve(h, h.order[p], req) && ptr == h.order[p] + SIZEOF_ALLOCNODE
    ensures FreeGives(h', ptr, h)
  {
    FirstFitRanks(h, req);
    FreeUndoesCarve(h, p, req);
  }

  lemma MallocFound(h: Heap, size: int)
    requires Inv(h) && Grantable(size) && Malloc(h, size).1 != 0
    ensures size >= 1 && FirstFit(h.tags, h.nl, h.order, Rounded(size)) < |h.order|
  {
  }

  /** A successful `mm_malloc` followed by `mm_free` restores the layout and the exact list order. */
  lemma FreeUndoesMalloc(h: Heap, size: int, h': Heap, ptr: Addr)
    requires Inv(h) && Grantable(size)
    requires h' == Malloc(h, size).0 && ptr == Malloc(h, size).1 && ptr != 0
    ensures FreeGives(h', ptr, h)
  {
    MallocFound(h, size);
    MallocTakes(h, size);
    FreeUndoesFit(h, FirstFit(h.tags, h.nl, h.order, Rounded(size)), Rounded(size), h', ptr);
  }
}
