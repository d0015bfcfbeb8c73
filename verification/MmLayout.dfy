/**
 * The physical view of the heap: the boundary tags of every chunk, keyed by chunk address.
 * `prec` is the `preceding` field with the allocated bit masked off; `alloc` is that bit.
 */
module MmLayout {
  import opened MmConfig

  type Addr = int

  datatype Tag = Tag(size: int, prec: int, alloc: bool)

  type Tags = map<Addr, Tag>

  /** The chunk at `a` agrees with the tags of its two physical neighbours. */
  ghost predicate Fits(tags: Tags, base: Addr, end: Addr, a: Addr)
    requires a in tags
  {
    && base <= a <= end
    && (a == base || a == end ==> tags[a].size == SIZEOF_ALLOCNODE && tags[a].alloc)
    && (a == base ==> tags[a].prec == 0)
    && (base < a < end ==> tags[a].size >= MIN_CHUNK)
    && (a < end ==> a + tags[a].size in tags && tags[a + tags[a].size].prec == tags[a].size)
    && (base < a ==> a - tags[a].prec in tags && tags[a - tags[a].prec].size == tags[a].prec)
  }

  /** The chunks cover [base, end + 8) from start guard to end guard without gap or overlap. */
  ghost predicate Tiled(tags: Tags, base: Addr, end: Addr) {
    && base in tags && end in tags
    && base + SIZEOF_ALLOCNODE + MIN_CHUNK <= end
    && (forall a {:trigger Fits(tags, base, end, a)} :: a in tags ==> Fits(tags, base, end, a))
    && Ordered(tags)
  }

  ghost predicate Before(tags: Tags, a: Addr, b: Addr) {
    a in tags && b in tags && a < b ==> a + tags[a].size <= b
  }

  /** Chunks do not overlap. */
  ghost predicate Ordered(tags: Tags) {
    forall a, b {:trigger Before(tags, a, b)} :: Before(tags, a, b)
  }

  ghost predicate Aligned(tags: Tags, base: Addr, end: Addr, a: Addr) {
    a in tags && base < a < end ==>
      (a - base) % MIN_CHUNK == SIZEOF_ALLOCNODE && tags[a].size % MIN_CHUNK == 0
  }

  /** Every chunk between the guards starts 8 past a granule and is whole granules long. */
  ghost predicate Granular(tags: Tags, base: Addr, end: Addr) {
    && (end - base) % MIN_CHUNK == SIZEOF_ALLOCNODE
    && forall a {:trigger Aligned(tags, base, end, a)} :: Aligned(tags, base, end, a)
  }

  /** At least one of `a` and its physical successor is allocated, unless `d` is one of them. */
  ghost predicate Fenced(tags: Tags, end: Addr, a: Addr, d: set<Addr>)
    requires a in tags
  {
    a < end && a + tags[a].size in tags ==>
      tags[a].alloc || tags[a + tags[a].size].alloc || a in d || a + tags[a].size in d
  }

  /** No two adjacent chunks are both free, apart from pairs involving a chunk in `d`. */
  ghost predicate Separated(tags: Tags, end: Addr, d: set<Addr>) {
    forall a {:trigger Fenced(tags, end, a, d)} :: a in tags ==> Fenced(tags, end, a, d)
  }

  function WithAlloc(tags: Tags, a: Addr, alloc: bool): Tags
    requires a in tags
  {
    tags[a := tags[a].(alloc := alloc)]
  }

  /** Cuts the chunk at `n` after `req` bytes and repairs the tag of its old successor. */
  function SplitTags(tags: Tags, n: Addr, req: int): Tags
    requires n in tags && n + tags[n].size in tags
  {
    var next := n + tags[n].size;
    var remaining := tags[n].size - req;
    tags[n + req := Tag(remaining, req, false)]
        [n := tags[n].(size := req)]
        [next := tags[next].(prec := remaining)]
  }

  /** Merges the chunk at `n` with its successor and repairs the tag of the one beyond. */
  function MergeTags(tags: Tags, n: Addr): Tags
    requires n in tags && n + tags[n].size in tags
    requires var next := n + tags[n].size; next + tags[next].size in tags
  {
    var next := n + tags[n].size;
    var total := tags[n].size + tags[next].size;
    var beyond := next + tags[next].size;
    (tags - {next})[n := tags[n].(size := total)]
                   [beyond := tags[beyond].(prec := total)]
  }

  lemma WithAllocTiled(tags: Tags, base: Addr, end: Addr, a: Addr, alloc: bool)
    requires Tiled(tags, base, end)
    requires a in tags && base < a < end
    ensures Tiled(WithAlloc(tags, a, alloc), base, end)
  {
    var tags' := WithAlloc(tags, a, alloc);
    forall b {:trigger Fits(tags', base, end, b)} | b in tags' ensures Fits(tags', base, end, b) {
      assert Fits(tags, base, end, b);
    }
    forall b, c {:trigger Before(tags', b, c)} ensures Before(tags', b, c) {
      assert Before(tags, b, c);
    }
  }

  lemma WithAllocGranular(tags: Tags, base: Addr, end: Addr, n: Addr, alloc: bool)
    requires Granular(tags, base, end) && n in tags
    ensures Granular(WithAlloc(tags, n, alloc), base, end)
  {
    var tags' := WithAlloc(tags, n, alloc);
    forall a {:trigger Aligned(tags', base, end, a)} ensures Aligned(tags', base, end, a) {
      assert Aligned(tags, base, end, a);
    }
  }

  lemma SplitFits(tags: Tags, base: Addr, end: Addr, n: Addr, req: int, a: Addr)
    requires Tiled(tags, base, end)
    requires n in tags && base < n < end
    requires MIN_CHUNK <= req && req + MIN_CHUNK <= tags[n].size
    requires n + tags[n].size in tags
    requires a in SplitTags(tags, n, req)
    ensures Fits(SplitTags(tags, n, req), base, end, a)
  {
    var next := n + tags[n].size;
    assert Fits(tags, base, end, n);
    assert Before(tags, n, end);
    if a != n + req {
      assert Fits(tags, base, end, a);
      assert Before(tags, n, a) && Before(tags, a, n) && Before(tags, a, next);
      assert Before(tags, n, n + req);
    }
  }

  lemma SplitTiled(tags: Tags, base: Addr, end: Addr, n: Addr, req: int)
    requires Tiled(tags, base, end)
    requires n in tags && base < n < end
    requires MIN_CHUNK <= req && req + MIN_CHUNK <= tags[n].size
    ensures n + tags[n].size in tags
    ensures n + req !in tags
    ensures Tiled(SplitTags(tags, n, req), base, end)
  {
    assert Fits(tags, base, end, n);
    assert Before(tags, n, n + req);
    var tags' := SplitTags(tags, n, req);
    forall a {:trigger Fits(tags', base, end, a)} | a in tags' ensures Fits(tags', base, end, a) {
      SplitFits(tags, base, end, n, req, a);
    }
    forall a, b {:trigger Before(tags', a, b)} ensures Before(tags', a, b) {
      assert Before(tags, a, b) && Before(tags, n, b) && Before(tags, a, n) && Before(tags, n, a);
    }
  }

  lemma SplitGranular(tags: Tags, base: Addr, end: Addr, n: Addr, req: int)
    requires Tiled(tags, base, end) && Granular(tags, base, end)
    requires n in tags && base < n < end
    requires req % MIN_CHUNK == 0
    requires MIN_CHUNK <= req && req + MIN_CHUNK <= tags[n].size
    requires n + tags[n].size in tags
    ensures Granular(SplitTags(tags, n, req), base, end)
  {
    var tags' := SplitTags(tags, n, req);
    assert Aligned(tags, base, end, n);
    assert Fits(tags, base, end, n);
    forall a {:trigger Aligned(tags', base, end, a)} ensures Aligned(tags', base, end, a) {
      assert Aligned(tags, base, end, a);
    }
  }

  lemma MergeFits(tags: Tags, base: Addr, end: Addr, n: Addr, a: Addr)
    requires Tiled(tags, base, end)
    requires n in tags && base < n && n + tags[n].size < end
    requires n + tags[n].size in tags
    requires var next := n + tags[n].size; next + tags[next].size in tags
    requires a in MergeTags(tags, n)
    ensures Fits(MergeTags(tags, n), base, end, a)
  {
    var next := n + tags[n].size;
    var beyond := next + tags[next].size;
    assert Fits(tags, base, end, n);
    assert Fits(tags, base, end, next);
    assert Fits(tags, base, end, a);
    assert Before(tags, a, n) && Before(tags, a, next) && Before(tags, a, beyond);
    assert Before(tags, n, a) && Before(tags, next, a);
  }

  lemma MergeTiled(tags: Tags, base: Addr, end: Addr, n: Addr)
    requires Tiled(tags, base, end)
    requires n in tags && base < n && n + tags[n].size < end
    ensures var next := n + tags[n].size;
            && next in tags && next + tags[next].size in tags
            && tags[next].size >= MIN_CHUNK
            && next + tags[next].size <= end
    ensures Tiled(MergeTags(tags, n), base, end)
  {
    assert Fits(tags, base, end, n);
    var next := n + tags[n].size;
    assert Fits(tags, base, end, next);
    var tags' := MergeTags(tags, n);
    assert Fits(tags, base, end, next + tags[next].size);
    forall a {:trigger Fits(tags', base, end, a)} | a in tags' ensures Fits(tags', base, end, a) {
      MergeFits(tags, base, end, n, a);
    }
    forall a, b {:trigger Before(tags', a, b)} ensures Before(tags', a, b) {
      assert Before(tags, a, b) && Before(tags, next, b);
    }
  }

  lemma MergeKeepsPrev(tags: Tags, base: Addr, end: Addr, n: Addr)
    requires Tiled(tags, base, end)
    requires n in tags && base < n && n + tags[n].size < end
    requires n + tags[n].size in tags
    requires var next := n + tags[n].size; next + tags[next].size in tags
    ensures var tags' := MergeTags(tags, n);
            var prev := n - tags[n].prec;
            && n in tags' && tags'[n].prec == tags[n].prec
            && prev in tags && prev in tags' && tags'[prev] == tags[prev]
  {
    assert Fits(tags, base, end, n);
    assert Fits(tags, base, end, n + tags[n].size);
    assert Fits(tags, base, end, n - tags[n].prec);
  }

  lemma MergeGranular(tags: Tags, base: Addr, end: Addr, n: Addr)
    requires Tiled(tags, base, end) && Granular(tags, base, end)
    requires n in tags && base < n && n + tags[n].size < end
    requires n + tags[n].size in tags
    requires var next := n + tags[n].size; next + tags[next].size in tags
    ensures Granular(MergeTags(tags, n), base, end)
  {
    var tags' := MergeTags(tags, n);
    assert Fits(tags, base, end, n);
    assert Aligned(tags, base, end, n) && Aligned(tags, base, end, n + tags[n].size);
    forall a {:trigger Aligned(tags', base, end, a)} ensures Aligned(tags', base, end, a) {
      assert Aligned(tags, base, end, a);
    }
  }

  /** Merging the two halves of a split chunk restores every boundary tag. */
  lemma MergeUndoesSplit(tags: Tags, base: Addr, end: Addr, n: Addr, req: int)
    requires Tiled(tags, base, end)
    requires n in tags && base < n < end
    requires MIN_CHUNK <= req && req + MIN_CHUNK <= tags[n].size
    requires n + tags[n].size in tags
    ensures var tags' := SplitTags(tags, n, req);
            && n + req in tags' && n + req + tags'[n + req].size in tags'
            && tags'[n].size == req
            && MergeTags(tags', n) == tags
  {
    assert Fits(tags, base, end, n);
    SplitTiled(tags, base, end, n, req);
  }

  // ----- no two adjacent free chunks

  lemma ClaimSeparated(tags: Tags, end: Addr, n: Addr)
    requires Separated(tags, end, {}) && n in tags
    ensures Separated(WithAlloc(tags, n, true), end, {})
  {
    var tags' := WithAlloc(tags, n, true);
    forall a {:trigger Fenced(tags', end, a, {})} | a in tags' ensures Fenced(tags', end, a, {}) {
      assert Fenced(tags, end, a, {});
    }
  }

  lemma ReleaseSeparated(tags: Tags, end: Addr, n: Addr)
    requires Separated(tags, end, {}) && n in tags
    ensures Separated(WithAlloc(tags, n, false), end, {n})
  {
    var tags' := WithAlloc(tags, n, false);
    forall a {:trigger Fenced(tags', end, a, {n})} | a in tags' ensures Fenced(tags', end, a, {n}) {
      assert Fenced(tags, end, a, {});
    }
  }

  lemma SplitSeparated(tags: Tags, base: Addr, end: Addr, n: Addr, req: int)
    requires Tiled(tags, base, end) && Separated(tags, end, {})
    requires n in tags && base < n < end && tags[n].alloc
    requires n + tags[n].size in tags && tags[n + tags[n].size].alloc
    requires MIN_CHUNK <= req && req + MIN_CHUNK <= tags[n].size
    ensures Separated(SplitTags(tags, n, req), end, {n + req})
  {
    var tags' := SplitTags(tags, n, req);
    var d := {n + req};
    forall a {:trigger Fenced(tags', end, a, d)} | a in tags' ensures Fenced(tags', end, a, d) {
      if a != n && a != n + req {
        assert Fenced(tags, end, a, {});
        assert Fits(tags, base, end, a);
        assert Fits(tags, base, end, n);
      }
    }
  }

  lemma MergeSeparated(tags: Tags, base: Addr, end: Addr, n: Addr)
    requires Tiled(tags, base, end)
    requires n in tags && base < n && n + tags[n].size < end
    requires n + tags[n].size in tags
    requires var next := n + tags[n].size; next + tags[next].size in tags
    requires Separated(tags, end, {n, n + tags[n].size})
    ensures Separated(MergeTags(tags, n), end, {n})
  {
    var tags' := MergeTags(tags, n);
    var next := n + tags[n].size;
    forall a {:trigger Fenced(tags', end, a, {n})} | a in tags' ensures Fenced(tags', end, a, {n}) {
      if a != n {
        assert Fenced(tags, end, a, {n, next});
        assert Fits(tags, base, end, a);
        assert Fits(tags, base, end, n);
      }
    }
  }

  lemma SeparatedWeaken(tags: Tags, end: Addr, d: set<Addr>, d': set<Addr>)
    requires Separated(tags, end, d) && d <= d'
    ensures Separated(tags, end, d')
  {
    forall a {:trigger Fenced(tags, end, a, d')} | a in tags ensures Fenced(tags, end, a, d') {
      assert Fenced(tags, end, a, d);
    }
  }

  /** A detached chunk between two allocated ones needs no exemption. */
  lemma SeparatedStrengthen(tags: Tags, base: Addr, end: Addr, n: Addr)
    requires Tiled(tags, base, end) && Separated(tags, end, {n})
    requires n in tags && base < n < end
    requires n + tags[n].size in tags && tags[n + tags[n].size].alloc
    requires n - tags[n].prec in tags && tags[n - tags[n].prec].alloc
    ensures Separated(tags, end, {})
  {
    forall a {:trigger Fenced(tags, end, a, {})} | a in tags ensures Fenced(tags, end, a, {}) {
      assert Fenced(tags, end, a, {n});
      assert Fits(tags, base, end, a);
    }
  }
}
