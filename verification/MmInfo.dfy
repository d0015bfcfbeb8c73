/** Accounting: the physical walk of `mm_mallinfo` against the free list. */
module MmInfo {
  import opened Basics
  import opened MmConfig
  import opened MmLayout
  import opened MmIndex
  import opened MmSpec

  /** Total weight of a list of nodes. */
  ghost function Sum(w: Addr -> int, s: seq<Addr>): int {
    if s == [] then 0 else w(s[0]) + Sum(w, s[1..])
  }

  /** Bytes of a chunk; bucket heads count 0. */
  ghost function SizeIn(tags: Tags): Addr -> int {
    (n: Addr) => if n in tags then tags[n].size else 0
  }

  /** 1 for a chunk, 0 for a bucket head. */
  ghost function OneIn(tags: Tags): Addr -> int {
    (n: Addr) => if n in tags then 1 else 0
  }

  /** Bytes on the free list. */
  ghost function FreeBytes(h: Heap): int {
    Sum(SizeIn(h.tags), h.order)
  }

  function HeapSize(h: Heap): int {
    h.end + SIZEOF_ALLOCNODE - h.base
  }

  /** Bytes in allocated chunks, both guards included. */
  ghost function Used(h: Heap): int {
    HeapSize(h) - FreeBytes(h)
  }

  lemma {:induction false} SumConcat(w: Addr -> int, s: seq<Addr>, t: seq<Addr>)
    ensures Sum(w, s + t) == Sum(w, s) + Sum(w, t)
  {
    if s == [] {
      assert s + t == t;
    } else {
      SumConcat(w, s[1..], t);
      assert (s + t)[1..] == s[1..] + t;
    }
  }

  lemma SumInsert(w: Addr -> int, s: seq<Addr>, i: nat, x: Addr)
    requires i <= |s|
    ensures Sum(w, InsertAt(s, i, x)) == Sum(w, s) + w(x)
  {
    SumConcat(w, s[..i], s[i..]);
    assert s[..i] + s[i..] == s;
    SumConcat(w, s[..i] + [x], s[i..]);
    SumConcat(w, s[..i], [x]);
    assert Sum(w, [x]) == w(x) + Sum(w, []);
  }

  lemma SumRemove(w: Addr -> int, s: seq<Addr>, i: nat)
    requires i < |s|
    ensures Sum(w, RemoveAt(s, i)) == Sum(w, s) - w(s[i])
  {
    var t := RemoveAt(s, i);
    assert InsertAt(t, i, s[i]) == s;
    SumInsert(w, t, i, s[i]);
  }

  lemma {:induction false} SumFrame(w: Addr -> int, w': Addr -> int, s: seq<Addr>)
    requires forall i :: 0 <= i < |s| ==> w(s[i]) == w'(s[i])
    ensures Sum(w, s) == Sum(w', s)
  {
    if s != [] {
      SumFrame(w, w', s[1..]);
    }
  }

  /** Lists with the same weighty members have the same weight, whatever their order. */
  lemma {:induction false} SumPermutation(w: Addr -> int, s: seq<Addr>, t: seq<Addr>)
    requires NoDup(s) && NoDup(t)
    requires forall i :: 0 <= i < |s| ==> s[i] in t
    requires forall x :: x in t && w(x) != 0 ==> x in s
    ensures Sum(w, s) == Sum(w, t)
    decreases |t|
  {
    if t != [] {
      var y := t[0];
      assert forall x :: x in t <==> x == y || x in t[1..];
      assert y !in t[1..];
      if y in s {
        WithoutMembers(s, y);
        SumRemove(w, s, IndexOf(s, y));
        var rest := Without(s, y);
        assert forall i :: 0 <= i < |rest| ==> rest[i] in rest;
        SumPermutation(w, rest, t[1..]);
      } else {
        assert forall i :: 0 <= i < |s| ==> s[i] in s;
        SumPermutation(w, s, t[1..]);
      }
    }
  }

  // ----- the physical walk

  /** The free chunks met by stepping from `a` by `size` until `end`. */
  ghost function FreeWalk(tags: Tags, a: Addr, end: Addr): seq<Addr>
    decreases end - a
  {
    if a !in tags || a >= end || tags[a].size <= 0 then []
    else (if tags[a].alloc then [] else [a]) + FreeWalk(tags, a + tags[a].size, end)
  }

  lemma StepForward(tags: Tags, base: Addr, end: Addr, a: Addr)
    requires Tiled(tags, base, end) && a in tags && a < end
    ensures tags[a].size > 0 && a + tags[a].size in tags && a + tags[a].size <= end
  {
    assert Fits(tags, base, end, a);
    assert Before(tags, a, end);
  }

  /** The walk meets every free chunk from `a` on, each once, in address order. */
  lemma {:induction false} WalkMeetsAll(tags: Tags, base: Addr, end: Addr, a: Addr)
    requires Tiled(tags, base, end) && a in tags
    ensures NoDup(FreeWalk(tags, a, end))
    ensures forall x :: x in FreeWalk(tags, a, end) <==> x in tags && a <= x < end && !tags[x].alloc
    decreases end - a
  {
    if a < end {
      StepForward(tags, base, end, a);
      var b := a + tags[a].size;
      WalkMeetsAll(tags, base, end, b);
      var rest := FreeWalk(tags, b, end);
      var here := if tags[a].alloc then [] else [a];
      assert FreeWalk(tags, a, end) == here + rest;
      forall x | x in tags && a <= x < end && !tags[x].alloc ensures x in here + rest {
        assert Before(tags, a, x);
      }
    } else {
      assert FreeWalk(tags, a, end) == [];
    }
  }

  /** Count and bytes of the walk are those of the free list. */
  lemma WalkAgreesWithList(h: Heap)
    requires Inv(h)
    ensures var walk := FreeWalk(h.tags, h.base, h.end);
            && Sum(SizeIn(h.tags), walk) == FreeBytes(h)
            && Sum(OneIn(h.tags), walk) == Sum(OneIn(h.tags), h.order)
  {
    var walk := FreeWalk(h.tags, h.base, h.end);
    WalkMeetsAll(h.tags, h.base, h.end, h.base);
    forall i | 0 <= i < |walk| ensures walk[i] in h.order {
      assert walk[i] in walk;
      assert Listed(h.tags, h.nl, h.order, {}, walk[i]);
    }
    forall x | x in h.order && x in h.tags ensures x in walk {
      ListedInner(h, {}, x);
    }
    SumPermutation(SizeIn(h.tags), walk, h.order);
    SumPermutation(OneIn(h.tags), walk, h.order);
  }

  // ----- effect of the operations on the accounts

  lemma PutAddsBytes(h: Heap, n: Addr)
    requires n in h.tags
    ensures FreeBytes(Put(h, n)) == FreeBytes(h) + h.tags[n].size
  {
    SumInsert(SizeIn(h.tags), h.order, LowerBound(h.tags, h.nl, h.order, Rank(h.tags, h.nl, n)), n);
  }

  lemma TakeDropsBytes(h: Heap, n: Addr)
    requires n in h.tags && n in h.order
    ensures FreeBytes(Take(h, n)) == FreeBytes(h) - h.tags[n].size
  {
    SumRemove(SizeIn(h.tags), h.order, IndexOf(h.order, n));
  }

  /** Tags of chunks that are not listed do not count. */
  lemma BytesFrame(h: Heap, tags': Tags)
    requires forall n :: n in h.order ==>
               (n in h.tags <==> n in tags') && (n in h.tags ==> tags'[n].size == h.tags[n].size)
    ensures FreeBytes(h.(tags := tags')) == FreeBytes(h)
  {
    forall i | 0 <= i < |h.order| ensures SizeIn(h.tags)(h.order[i]) == SizeIn(tags')(h.order[i]) {
      var n := h.order[i];
      assert n in h.order;
      assert n in h.tags <==> n in tags';
    }
    SumFrame(SizeIn(h.tags), SizeIn(tags'), h.order);
  }

  lemma CarveUses(h: Heap, n: Addr, req: int)
    requires Inv(h) && FreeChunk(h, n) && n + h.tags[n].size in h.tags
    requires MIN_CHUNK <= req <= h.tags[n].size && req % MIN_CHUNK == 0
    ensures Used(Carve(h, n, req)) == Used(h) + req
  {
    ClaimUses(h, n);
    ClaimKeepsInv(h, n);
    TrimUses(Claim(h, n), n, req);
  }

  lemma ClaimUses(h: Heap, n: Addr)
    requires Inv(h) && FreeChunk(h, n)
    ensures Used(Claim(h, n)) == Used(h) + h.tags[n].size
  {
    HeadNotInner(h, n);
    assert Listed(h.tags, h.nl, h.order, {}, n);
    TakeDropsBytes(h, n);
    BytesFrame(Take(h, n), WithAlloc(h.tags, n, true));
  }

  lemma TrimUses(h: Heap, n: Addr, req: int)
    requires Inv(h) && Live(h, n) && n + h.tags[n].size in h.tags
    requires MIN_CHUNK <= req <= h.tags[n].size && req % MIN_CHUNK == 0
    ensures Used(Trim(h, n, req)) == Used(h) - h.tags[n].size + req
  {
    if h.tags[n].size - req >= SIZEOF_FREENODE {
      SplitTiled(h.tags, h.base, h.end, n, req);
      var split := h.(tags := SplitTags(h.tags, n, req));
      forall m | m in h.order ensures m != n && m != n + req {
        assert Listed(h.tags, h.nl, h.order, {}, m);
        InnerNext(h, n);
        HeadNotInner(h, n);
        HeadNotInner(h, n + req);
      }
      BytesFrame(h, split.tags);
      PutAddsBytes(split, n + req);
    } else {
      assert Aligned(h.tags, h.base, h.end, n);
    }
  }

  /** Merging moves bytes between the list and the detached chunk but keeps their total. */
  lemma ForwardKeepsBytes(h: Heap, n: Addr)
    requires Detached(h, n)
    ensures Inner(Forward(h, n), n)
    ensures FreeBytes(Forward(h, n)) + Forward(h, n).tags[n].size == FreeBytes(h) + h.tags[n].size
  {
    InnerNext(h, n);
    var next := n + h.tags[n].size;
    if h.tags[next].alloc {
      ForwardIdle(h, n);
    } else {
      ForwardFree(h, n, next);
      InnerNext(h, next);
      MergeKeepsBytes(h, n, next, next);
    }
  }

  lemma BackwardKeepsBytes(h: Heap, n: Addr)
    requires Detached(h, n)
    ensures Inner(Backward(h, n), BackNode(h, n))
    ensures FreeBytes(Backward(h, n)) + Backward(h, n).tags[BackNode(h, n)].size
            == FreeBytes(h) + h.tags[n].size
  {
    InnerNext(h, n);
    var prev := n - h.tags[n].prec;
    if h.tags[prev].alloc {
      BackwardIdle(h, n);
    } else {
      BackwardFree(h, n, prev);
      BackwardMergeKeepsBytes(h, n, prev);
    }
  }

  lemma BackwardMergeKeepsBytes(h: Heap, n: Addr, prev: Addr)
    requires Detached(h, n) && FreeChunk(h, prev) && prev + h.tags[prev].size == n
    requires n + h.tags[n].size in h.tags
    ensures var h' := Take(h, prev).(tags := MergeTags(h.tags, prev));
            Inner(h', prev) && FreeBytes(h') + h'.tags[prev].size == FreeBytes(h) + h.tags[n].size
  {
    InnerNext(h, n);
    InnerNext(h, prev);
    MergeKeepsBytes(h, prev, n, prev);
  }

  /** `a` and `b` are adjacent free chunks, `listed` the one of them on the list. */
  lemma MergeKeepsBytes(h: Heap, a: Addr, b: Addr, listed: Addr)
    requires FreeChunk(h, a) && FreeChunk(h, b) && b == a + h.tags[a].size
    requires b + h.tags[b].size in h.tags && h.tags[a].size > 0 && h.tags[b].size > 0
    requires WellFormed(h, {if listed == a then b else a}) && (listed == a || listed == b)
    ensures FreeBytes(Take(h, listed).(tags := MergeTags(h.tags, a)))
            == FreeBytes(h) - h.tags[listed].size
  {
    HeadNotInner(h, a);
    HeadNotInner(h, b);
    var d := {if listed == a then b else a};
    assert Listed(h.tags, h.nl, h.order, d, a) && Listed(h.tags, h.nl, h.order, d, b);
    TakeDropsBytes(h, listed);
    WithoutMembers(h.order, listed);
    var rest := Take(h, listed);
    assert a !in rest.order && b !in rest.order;
    MergeBytesFrame(rest, a, b);
  }

  lemma MergeBytesFrame(h: Heap, a: Addr, b: Addr)
    requires a in h.tags && b in h.tags && b == a + h.tags[a].size && b + h.tags[b].size in h.tags
    requires h.tags[a].size > 0 && h.tags[b].size > 0
    requires a !in h.order && b !in h.order
    ensures FreeBytes(h.(tags := MergeTags(h.tags, a))) == FreeBytes(h)
  {
    BytesFrame(h, MergeTags(h.tags, a));
  }

  /** `mm_free` gives back exactly the bytes of the freed chunk. */
  lemma FreeReturnsBytes(h: Heap, p: Addr)
    requires Inv(h) && p != 0 && Live(h, p - SIZEOF_ALLOCNODE)
    ensures Used(Free(h, p)) == Used(h) - h.tags[p - SIZEOF_ALLOCNODE].size
  {
    var n := p - SIZEOF_ALLOCNODE;
    ReleaseDetached(h, n);
    var h1 := Release(h, n);
    BytesFrame(h, h1.tags);
    ForwardDetached(h1, n);
    ForwardKeepsBytes(h1, n);
    var h2 := Forward(h1, n);
    BackwardKeepsBytes(h2, n);
    PutAddsBytes(Backward(h2, n), BackNode(h2, n));
    FreeIsPut(h, n, p);
  }

  lemma FreeIsPut(h: Heap, n: Addr, p: Addr)
    requires Inv(h) && p != 0 && n == p - SIZEOF_ALLOCNODE && Live(h, n)
    requires Detached(Release(h, n), n) && Detached(Forward(Release(h, n), n), n)
    ensures var h2 := Forward(Release(h, n), n);
            Free(h, p) == Put(Backward(h2, n), BackNode(h2, n))
            && Free(h, p).base == h.base && Free(h, p).end == h.end && Free(h, p).nl == h.nl
  {
  }
}
