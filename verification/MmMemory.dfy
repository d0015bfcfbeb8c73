/**
 * Word memory behind the two views: where boundary tags and list links are stored, which words
 * the allocator owns, and how single pointer updates act on the stored list.
 */
module MmMemory {
  import opened Basics
  import opened MmConfig
  import opened MmBytes
  import opened MmLayout
  import opened MmIndex
  import opened MmSpec

  // ----- the allocated bit of a `preceding` word

  function AllocBitOf(w: int): int {
    if w >= ALLOC_BIT then ALLOC_BIT else 0
  }

  function SetAllocBit(w: int): int {
    if w >= ALLOC_BIT then w else w + ALLOC_BIT
  }

  function ClearAllocBit(w: int): int {
    if w >= ALLOC_BIT then w - ALLOC_BIT else w
  }

  function Encode(prec: int, alloc: bool): int {
    if alloc then prec + ALLOC_BIT else prec
  }

  // ----- storage of the views

  ghost predicate TagStored(mem: Memory, tag: Tag, a: Addr) {
    && a + SIZE in mem && mem[a + SIZE] == tag.size
    && a + PRECEDING in mem && mem[a + PRECEDING] == Encode(tag.prec, tag.alloc)
  }

  ghost predicate TagsStored(mem: Memory, tags: Tags) {
    forall a {:trigger TagStored(mem, tags[a], a)} :: a in tags ==> TagStored(mem, tags[a], a)
  }

  function NextOf(order: seq<Addr>, i: int): Addr {
    if 0 <= i && i + 1 < |order| then order[i + 1] else 0
  }

  function PrevOf(order: seq<Addr>, i: int): Addr {
    if 0 < i <= |order| then order[i - 1] else 0
  }

  ghost predicate LinkStored(mem: Memory, order: seq<Addr>, i: int)
    requires 0 <= i < |order|
  {
    && order[i] + FLINK in mem && mem[order[i] + FLINK] == NextOf(order, i)
    && order[i] + BLINK in mem && mem[order[i] + BLINK] == PrevOf(order, i)
  }

  /** `flink` and `blink` of every listed node point to its neighbours: a doubly linked list. */
  ghost predicate LinksStored(mem: Memory, order: seq<Addr>) {
    forall i {:trigger LinkStored(mem, order, i)} :: 0 <= i < |order| ==> LinkStored(mem, order, i)
  }

  ghost predicate HeadStored(mem: Memory, nl: Addr, k: int) {
    Head(nl, k) + SIZE in mem && mem[Head(nl, k) + SIZE] == 0
  }

  /** Bucket heads have size 0. */
  ghost predicate HeadsStored(mem: Memory, nl: Addr) {
    forall k {:trigger HeadStored(mem, nl, k)} :: 0 <= k < NNODES ==> HeadStored(mem, nl, k)
  }

  ghost predicate Stored(mem: Memory, h: Heap) {
    TagsStored(mem, h.tags) && LinksStored(mem, h.order) && HeadsStored(mem, h.nl)
  }

  // ----- frames

  ghost predicate SameAt(mem: Memory, mem': Memory, x: Addr) {
    (x in mem <==> x in mem') && (x in mem && x in mem' ==> mem[x] == mem'[x])
  }

  /** Only link words of the listed nodes differ. */
  ghost predicate OnlyLinks(mem: Memory, mem': Memory, nodes: seq<Addr>) {
    forall x {:trigger SameAt(mem, mem', x)} ::
      x - FLINK in nodes || x - BLINK in nodes || SameAt(mem, mem', x)
  }

  /** The bytes a client may use: everything in its chunk behind the header. */
  predicate InPayload(h: Heap, n: Addr, x: Addr) {
    Live(h, n) && n + SIZEOF_ALLOCNODE <= x < n + h.tags[n].size
  }

  /** A word of the bucket array, or one in the region outside every live payload, `d` apart. */
  ghost predicate Owned(h: Heap, d: set<Addr>, x: Addr) {
    && IsWord(x)
    && (|| h.nl <= x < h.nl + 16 * NNODES
        || (h.base <= x < h.end + SIZEOF_ALLOCNODE && forall n :: n !in d ==> !InPayload(h, n, x)))
  }

  /** Memory changed only in words the allocator owned. */
  ghost predicate OnlyOwned(mem: Memory, mem': Memory, h: Heap, d: set<Addr>) {
    forall x {:trigger SameAt(mem, mem', x)} :: Owned(h, d, x) || SameAt(mem, mem', x)
  }

  lemma FieldsAreWords(a: Addr)
    requires IsWord(a)
    ensures IsWord(a + SIZE) && IsWord(a + PRECEDING) && IsWord(a + FLINK) && IsWord(a + BLINK)
  {
    var k :| a == Words(k);
    assert a + PRECEDING == Words(k + 1) && a + FLINK == Words(k + 2) && a + BLINK == Words(k + 3);
  }

  /** Boundary tags and list nodes are word-aligned. */
  lemma TagIsWord(h: Heap, a: Addr)
    requires Placed(h.base, h.end, h.nl) && Tiled(h.tags, h.base, h.end)
    requires Granular(h.tags, h.base, h.end) && a in h.tags
    ensures IsWord(a)
  {
    assert Fits(h.tags, h.base, h.end, a);
    assert Aligned(h.tags, h.base, h.end, a);
    WordAfterBase(h.base, a);
  }

  lemma WordAfterBase(base: Addr, a: Addr)
    requires base % MIN_CHUNK == 0 && (a == base || (a - base) % MIN_CHUNK == SIZEOF_ALLOCNODE)
    ensures IsWord(a)
  {
    var k := base / MIN_CHUNK + (a - base) / MIN_CHUNK;
    if a == base {
      FourTimes(a, 4 * (base / MIN_CHUNK));
    } else {
      FourTimes(a, 4 * k + 2);
    }
  }

  lemma FourTimes(x: int, k: int)
    requires x == 4 * k
    ensures IsWord(x)
  {
    assert x == Words(k);
  }

  lemma NodeIsWord(h: Heap, m: Addr)
    requires Inv(h) && m in h.order
    ensures IsWord(m)
  {
    ListedInner(h, {}, m);
    if m in h.tags {
      TagIsWord(h, m);
    } else {
      FourTimes(m - h.nl, 4 * ((m - h.nl) / 16));
      WordsAdd(h.nl, m - h.nl);
    }
  }

  lemma ChunkIsWords(h: Heap, n: Addr)
    requires Inv(h) && Inner(h, n)
    ensures IsWord(n) && IsWord(h.tags[n].size)
  {
    TagIsWord(h, n);
    assert Aligned(h.tags, h.base, h.end, n);
    GranulesAreWords(h.tags[n].size);
  }

  lemma GranulesAreWords(size: int)
    requires size % MIN_CHUNK == 0
    ensures IsWord(size)
  {
    FourTimes(size, 4 * (size / MIN_CHUNK));
  }

  /** Payloads are made of whole words. */
  lemma PayloadWord(h: Heap, n: Addr, b: Addr)
    requires Inv(h) && InPayload(h, n, b)
    ensures IsWord(WordOf(b)) && InPayload(h, n, WordOf(b))
  {
    ChunkIsWords(h, n);
    WordInChunk(n, h.tags[n].size, b);
  }

  lemma WordInChunk(n: Addr, size: int, b: Addr)
    requires IsWord(n) && IsWord(size) && n + SIZEOF_ALLOCNODE <= b < n + size
    ensures IsWord(WordOf(b)) && n + SIZEOF_ALLOCNODE <= WordOf(b) < n + size
  {
    FieldsAreWords(n);
    WordsAdd(n, size);
    WordWithin(n + SIZEOF_ALLOCNODE, n + size, b);
  }

  /** Every byte of every live payload, `d` apart, is as it was. */
  ghost predicate SparesPayloads(mem: Memory, mem': Memory, h: Heap, d: set<Addr>) {
    forall n, b {:trigger InPayload(h, n, b)} ::
      n !in d && InPayload(h, n, b) ==> ByteAt(mem', b) == ByteAt(mem, b)
  }

  /** No byte of a word the allocator owns lies in a live payload. */
  lemma OwnedBytes(h: Heap, d: set<Addr>, x: Addr, n: Addr, b: Addr)
    requires Inv(h) && Owned(h, d, x) && x <= b < x + WORD_BYTES && n !in d
    ensures !InPayload(h, n, b)
  {
    WordOfInside(x, b);
    if InPayload(h, n, b) {
      PayloadWord(h, n, b);
      InnerNext(h, n);
    }
  }

  lemma OwnedSparesPayloads(mem: Memory, mem': Memory, h: Heap, d: set<Addr>)
    requires Inv(h) && OnlyOwned(mem, mem', h, d)
    ensures SparesPayloads(mem, mem', h, d)
  {
    forall n, b {:trigger InPayload(h, n, b)} | n !in d && InPayload(h, n, b)
      ensures ByteAt(mem', b) == ByteAt(mem, b)
    {
      OwnedSparesByte(mem, mem', h, d, n, b);
    }
  }

  lemma OwnedSparesByte(mem: Memory, mem': Memory, h: Heap, d: set<Addr>, n: Addr, b: Addr)
    requires Inv(h) && OnlyOwned(mem, mem', h, d) && n !in d && InPayload(h, n, b)
    ensures ByteAt(mem', b) == ByteAt(mem, b)
  {
    PayloadWord(h, n, b);
    PayloadNotOwned(h, d, n, WordOf(b));
    assert SameAt(mem, mem', WordOf(b));
  }

  lemma PayloadNotOwned(h: Heap, d: set<Addr>, n: Addr, x: Addr)
    requires Inv(h) && n !in d && InPayload(h, n, x)
    ensures !Owned(h, d, x)
  {
    InnerNext(h, n);
  }

  lemma OnlyOwnedTransitive(m0: Memory, m1: Memory, m2: Memory, h: Heap, d: set<Addr>)
    requires OnlyOwned(m0, m1, h, d) && OnlyOwned(m1, m2, h, d)
    ensures OnlyOwned(m0, m2, h, d)
  {
    forall x {:trigger SameAt(m0, m2, x)} ensures Owned(h, d, x) || SameAt(m0, m2, x) {
      assert SameAt(m0, m1, x) || Owned(h, d, x);
      assert SameAt(m1, m2, x) || Owned(h, d, x);
    }
  }

  lemma OwnedWrite(mem: Memory, h: Heap, d: set<Addr>, x: Addr, v: int)
    requires Owned(h, d, x)
    ensures OnlyOwned(mem, mem[x := v], h, d)
  {
  }

  lemma OwnedTag(h: Heap, d: set<Addr>, a: Addr)
    requires Inv(h) && a in h.tags
    ensures Owned(h, d, a + SIZE) && Owned(h, d, a + PRECEDING)
  {
    TagIsWord(h, a);
    FieldsAreWords(a);
    assert Fits(h.tags, h.base, h.end, a);
    forall n, x | (x == a + SIZE || x == a + PRECEDING) && n in h.tags
      ensures !InPayload(h, n, x)
    {
      assert Before(h.tags, a, n) && Before(h.tags, n, a);
    }
  }

  /** Words inside a chunk that is not live, or is in `d`. */
  lemma OwnedInside(h: Heap, d: set<Addr>, n: Addr, x: Addr)
    requires Tiled(h.tags, h.base, h.end) && Inner(h, n)
    requires !h.tags[n].alloc || n in d
    requires n <= x < n + h.tags[n].size && IsWord(x)
    ensures Owned(h, d, x)
  {
    InnerNext(h, n);
    forall m | m !in d && m in h.tags ensures !InPayload(h, m, x) {
      assert Before(h.tags, m, n) && Before(h.tags, n, m);
    }
  }

  lemma OwnedLinks(h: Heap, d: set<Addr>, m: Addr)
    requires Inv(h) && m in h.order
    ensures Owned(h, d, m + FLINK) && Owned(h, d, m + BLINK)
  {
    ListedInner(h, {}, m);
    NodeIsWord(h, m);
    FieldsAreWords(m);
    if m in h.tags {
      InnerNext(h, m);
      OwnedInside(h, d, m, m + FLINK);
      OwnedInside(h, d, m, m + BLINK);
    }
  }

  lemma OnlyLinksOwned(mem: Memory, mem': Memory, h: Heap, d: set<Addr>, nodes: seq<Addr>)
    requires OnlyLinks(mem, mem', nodes)
    requires forall m :: m in nodes ==> Owned(h, d, m + FLINK) && Owned(h, d, m + BLINK)
    ensures OnlyOwned(mem, mem', h, d)
  {
    forall x {:trigger SameAt(mem, mem', x)} ensures Owned(h, d, x) || SameAt(mem, mem', x) {
      if x - FLINK in nodes {
        assert Owned(h, d, x - FLINK + FLINK);
      } else if x - BLINK in nodes {
        assert Owned(h, d, x - BLINK + BLINK);
      }
    }
  }

  lemma OrderOwned(h: Heap, d: set<Addr>)
    requires Inv(h)
    ensures forall m :: m in h.order ==> Owned(h, d, m + FLINK) && Owned(h, d, m + BLINK)
  {
    forall m | m in h.order ensures Owned(h, d, m + FLINK) && Owned(h, d, m + BLINK) {
      OwnedLinks(h, d, m);
    }
  }

  // ----- list nodes do not overlap

  ghost predicate Apart(order: seq<Addr>) {
    forall a, b :: a in order && b in order && a < b ==> a + SIZEOF_FREENODE <= b
  }

  lemma NodesApart(h: Heap, d: set<Addr>, a: Addr, b: Addr)
    requires Shaped(h, d) && a < b
    requires IsHead(h.nl, a) || (Inner(h, a) && !h.tags[a].alloc)
    requires IsHead(h.nl, b) || (Inner(h, b) && !h.tags[b].alloc)
    ensures a + SIZEOF_FREENODE <= b
  {
    if Inner(h, a) {
      InnerNext(h, a);
    }
    if Inner(h, b) {
      InnerNext(h, b);
    }
    assert Before(h.tags, a, b);
  }

  lemma ShapedApart(h: Heap, d: set<Addr>, nodes: seq<Addr>)
    requires Shaped(h, d)
    requires forall m :: m in nodes ==> m in h.order || (Inner(h, m) && !h.tags[m].alloc)
    ensures Apart(nodes)
    ensures forall m :: m in nodes ==> m != 0
  {
    forall a, b | a in nodes && b in nodes && a < b ensures a + SIZEOF_FREENODE <= b {
      if a in h.order { ListedInner(h, d, a); }
      if b in h.order { ListedInner(h, d, b); }
      assert Listed(h.tags, h.nl, h.order, d, a) && Listed(h.tags, h.nl, h.order, d, b);
      NodesApart(h, d, a, b);
    }
    forall m | m in nodes ensures m != 0 {
      if m in h.order { ListedInner(h, d, m); }
      assert Listed(h.tags, h.nl, h.order, d, m);
    }
  }

  /** Link words of list nodes are never boundary tags or sizes of bucket heads. */
  lemma LinksMissTags(mem: Memory, mem': Memory, h: Heap, d: set<Addr>, nodes: seq<Addr>)
    requires Shaped(h, d) && OnlyLinks(mem, mem', nodes)
    requires forall m :: m in nodes ==> m in h.order || (Inner(h, m) && !h.tags[m].alloc)
    requires TagsStored(mem, h.tags) && HeadsStored(mem, h.nl)
    ensures TagsStored(mem', h.tags) && HeadsStored(mem', h.nl)
  {
    forall a {:trigger TagStored(mem', h.tags[a], a)} | a in h.tags ensures TagStored(mem', h.tags[a], a) {
      assert TagStored(mem, h.tags[a], a);
      TagMissesLink(h, d, nodes, a, 4);
      TagMissesLink(h, d, nodes, a, 8);
      TagMissesLink(h, d, nodes, a, 12);
      assert SameAt(mem, mem', a + SIZE) && SameAt(mem, mem', a + PRECEDING);
    }
    forall k {:trigger HeadStored(mem', h.nl, k)} | 0 <= k < NNODES ensures HeadStored(mem', h.nl, k) {
      assert HeadStored(mem, h.nl, k);
      HeadMissesLink(h, d, nodes, k, FLINK);
      HeadMissesLink(h, d, nodes, k, BLINK);
      assert SameAt(mem, mem', Head(h.nl, k) + SIZE);
    }
  }

  lemma TagMissesLink(h: Heap, d: set<Addr>, nodes: seq<Addr>, a: Addr, off: int)
    requires Shaped(h, d) && a in h.tags && 4 <= off <= 12
    requires forall m :: m in nodes ==> m in h.order || (Inner(h, m) && !h.tags[m].alloc)
    ensures a - off !in nodes
  {
    assert Fits(h.tags, h.base, h.end, a);
    var m := a - off;
    assert Before(h.tags, m, a);
    if m in h.order { ListedInner(h, d, m); }
    if Inner(h, m) { InnerNext(h, m); }
  }

  lemma HeadMissesLink(h: Heap, d: set<Addr>, nodes: seq<Addr>, k: int, off: int)
    requires Shaped(h, d) && 0 <= k < NNODES && 0 < off < 16
    requires forall m :: m in nodes ==> m in h.order || (Inner(h, m) && !h.tags[m].alloc)
    ensures Head(h.nl, k) - off !in nodes
  {
    RankOfHead(h.tags, h.nl, k);
    var m := Head(h.nl, k) - off;
    if m in nodes {
      if m in h.order { ListedInner(h, d, m); }
      if Inner(h, m) { InnerNext(h, m); }
    }
  }

  // ----- pointer surgery

  /** `blink->flink = flink; if (flink) flink->blink = blink`. */
  function UnlinkWrites(mem: Memory, order: seq<Addr>, i: nat): Memory
    requires 0 < i < |order|
  {
    var mem1 := mem[order[i - 1] + FLINK := NextOf(order, i)];
    if i + 1 < |order| then mem1[order[i + 1] + BLINK := order[i - 1]] else mem1
  }

  /** The writes of `mm_addfreechunk` that put `n` at position `j`. */
  function LinkWrites(mem: Memory, order: seq<Addr>, j: nat, n: Addr): Memory
    requires 0 < j <= |order|
  {
    var mem1 := mem[order[j - 1] + FLINK := n][n + BLINK := order[j - 1]][n + FLINK := NextOf(order, j - 1)];
    if j < |order| then mem1[order[j] + BLINK := n] else mem1
  }

  lemma UnlinkStored(mem: Memory, order: seq<Addr>, i: nat)
    requires LinksStored(mem, order) && Apart(order) && NoDup(order) && 0 < i < |order|
    ensures LinksStored(UnlinkWrites(mem, order, i), RemoveAt(order, i))
    ensures OnlyLinks(mem, UnlinkWrites(mem, order, i), order)
  {
    var mem' := UnlinkWrites(mem, order, i);
    var order' := RemoveAt(order, i);
    forall k {:trigger LinkStored(mem', order', k)} | 0 <= k < |order'| ensures LinkStored(mem', order', k) {
      var k0 := if k < i then k else k + 1;
      assert order'[k] == order[k0];
      assert LinkStored(mem, order, k0);
      assert order[k0] in order && order[i - 1] in order;
      assert i + 1 < |order| ==> order[i + 1] in order;
      assert NextOf(order', k) == if k == i - 1 then NextOf(order, i) else NextOf(order, k0);
      assert PrevOf(order', k) == if k == i then order[i - 1] else PrevOf(order, k0);
    }
  }

  lemma OldLinkStoredAfter(mem: Memory, order: seq<Addr>, j: nat, n: Addr, k: nat)
    requires LinksStored(mem, order) && NoDup(order) && 0 < j <= |order| && k < |order|
    requires Apart(order + [n]) && n !in order
    ensures LinkStored(LinkWrites(mem, order, j, n), InsertAt(order, j, n), if k < j then k else k + 1)
  {
    var nodes := order + [n];
    assert LinkStored(mem, order, k);
    assert order[k] in nodes && nodes[|order|] in nodes && order[j - 1] in nodes;
    assert j < |order| ==> order[j] in nodes;
  }

  lemma NewLinkStoredAfter(mem: Memory, order: seq<Addr>, j: nat, n: Addr)
    requires 0 < j <= |order| && Apart(order + [n]) && n !in order
    ensures LinkStored(LinkWrites(mem, order, j, n), InsertAt(order, j, n), j)
  {
    var nodes := order + [n];
    assert nodes[|order|] in nodes && order[j - 1] in nodes;
    assert j < |order| ==> order[j] in nodes;
  }

  lemma LinkStoredAfter(mem: Memory, order: seq<Addr>, j: nat, n: Addr)
    requires LinksStored(mem, order) && NoDup(order) && 0 < j <= |order|
    requires Apart(order + [n]) && n !in order
    ensures LinksStored(LinkWrites(mem, order, j, n), InsertAt(order, j, n))
    ensures OnlyLinks(mem, LinkWrites(mem, order, j, n), order + [n])
  {
    var mem' := LinkWrites(mem, order, j, n);
    var order' := InsertAt(order, j, n);
    forall k {:trigger LinkStored(mem', order', k)} | 0 <= k < |order'| ensures LinkStored(mem', order', k) {
      if k == j {
        NewLinkStoredAfter(mem, order, j, n);
      } else {
        OldLinkStoredAfter(mem, order, j, n, if k < j then k else k - 1);
      }
    }
    LinkWritesFrame(mem, order, j, n);
  }

  lemma LinkWritesFrame(mem: Memory, order: seq<Addr>, j: nat, n: Addr)
    requires 0 < j <= |order|
    ensures OnlyLinks(mem, LinkWrites(mem, order, j, n), order + [n])
  {
    var nodes := order + [n];
    assert nodes[|order|] == n && nodes[j - 1] == order[j - 1];
    assert j < |order| ==> nodes[j] == order[j];
  }

  // ----- boundary-tag updates

  /** Neither a link word nor the size of a bucket head. */
  ghost predicate NonIndex(h: Heap, x: Addr) {
    x - FLINK !in h.order && x - BLINK !in h.order && !IsHead(h.nl, x)
  }

  lemma IndexSurvives(mem: Memory, h: Heap, x: Addr, v: int)
    requires LinksStored(mem, h.order) && HeadsStored(mem, h.nl) && NonIndex(h, x)
    ensures LinksStored(mem[x := v], h.order) && HeadsStored(mem[x := v], h.nl)
  {
    var mem' := mem[x := v];
    forall i {:trigger LinkStored(mem', h.order, i)} | 0 <= i < |h.order| ensures LinkStored(mem', h.order, i) {
      assert LinkStored(mem, h.order, i);
      assert h.order[i] in h.order;
    }
    forall k {:trigger HeadStored(mem', h.nl, k)} | 0 <= k < NNODES ensures HeadStored(mem', h.nl, k) {
      assert HeadStored(mem, h.nl, k);
      RankOfHead(h.tags, h.nl, k);
    }
  }

  lemma TagIsNonIndex(h: Heap, d: set<Addr>, a: Addr)
    requires Shaped(h, d) && a in h.tags
    ensures NonIndex(h, a + SIZE) && NonIndex(h, a + PRECEDING)
  {
    TagMissesLink(h, d, h.order, a, 4);
    TagMissesLink(h, d, h.order, a, 8);
    TagMissesLink(h, d, h.order, a, 12);
    assert Fits(h.tags, h.base, h.end, a);
  }

  /** Words of a chunk that is off the list, live payloads in particular. */
  lemma InsideIsNonIndex(h: Heap, d: set<Addr>, n: Addr, x: Addr)
    requires Shaped(h, d) && Inner(h, n) && n !in h.order && n <= x < n + h.tags[n].size
    ensures NonIndex(h, x)
  {
    InnerNext(h, n);
    HeadNotInner(h, x);
    NodeMisses(h, d, n, x, x - FLINK);
    NodeMisses(h, d, n, x, x - BLINK);
  }

  lemma NodeMisses(h: Heap, d: set<Addr>, n: Addr, x: Addr, m: Addr)
    requires Shaped(h, d) && Inner(h, n) && n !in h.order && n <= x < n + h.tags[n].size
    requires m <= x < m + SIZEOF_FREENODE && n + h.tags[n].size <= h.end
    ensures m !in h.order
  {
    assert Before(h.tags, m, n) && Before(h.tags, n, m);
    if m in h.order {
      ListedInner(h, d, m);
    }
    if Inner(h, m) {
      InnerNext(h, m);
    }
  }

  /** Chunk headers do not overlap. */
  lemma TagsApart(h: Heap, a: Addr, b: Addr)
    requires Tiled(h.tags, h.base, h.end) && a in h.tags && b in h.tags && a < b
    ensures a + SIZEOF_ALLOCNODE <= b
  {
    assert Fits(h.tags, h.base, h.end, a);
    assert Before(h.tags, a, b);
  }

  /** `preceding |= MM_ALLOC_BIT`, or its inverse. */
  lemma AllocStored(mem: Memory, h: Heap, d: set<Addr>, n: Addr, alloc: bool)
    requires Shaped(h, d) && Stored(mem, h) && n in h.tags
    ensures var mem' := mem[n + PRECEDING := Encode(h.tags[n].prec, alloc)];
            Stored(mem', h.(tags := WithAlloc(h.tags, n, alloc)))
  {
    var x, v := n + PRECEDING, Encode(h.tags[n].prec, alloc);
    var mem', tags' := mem[x := v], WithAlloc(h.tags, n, alloc);
    TagIsNonIndex(h, d, n);
    IndexSurvives(mem, h, x, v);
    forall a {:trigger TagStored(mem', tags'[a], a)} | a in tags' ensures TagStored(mem', tags'[a], a) {
      assert TagStored(mem, h.tags[a], a);
      if a < n { TagsApart(h, a, n); } else if n < a { TagsApart(h, n, a); }
    }
  }

  /** The four header writes of a split. */
  function SplitWrites(mem: Memory, tags: Tags, n: Addr, req: int): Memory
    requires n in tags && n + tags[n].size in tags
  {
    var remaining := tags[n].size - req;
    var next := n + tags[n].size;
    mem[n + req + SIZE := remaining]
       [n + req + PRECEDING := req]
       [n + SIZE := req]
       [next + PRECEDING := Encode(remaining, tags[next].alloc)]
  }

  lemma SplitTagStored(mem: Memory, h: Heap, n: Addr, req: int, a: Addr)
    requires Tiled(h.tags, h.base, h.end) && TagsStored(mem, h.tags)
    requires Inner(h, n) && n + h.tags[n].size in h.tags
    requires MIN_CHUNK <= req && req + MIN_CHUNK <= h.tags[n].size
    requires a in SplitTags(h.tags, n, req)
    ensures TagStored(SplitWrites(mem, h.tags, n, req), SplitTags(h.tags, n, req)[a], a)
  {
    var next := n + h.tags[n].size;
    if a != n + req {
      assert TagStored(mem, h.tags[a], a);
      assert TagStored(mem, h.tags[n], n) && TagStored(mem, h.tags[next], next);
      assert Before(h.tags, n, a);
      if a < n { TagsApart(h, a, n); } else if n < a { TagsApart(h, n, a); }
      if a < next { TagsApart(h, a, next); } else if next < a { TagsApart(h, next, a); }
    }
  }

  lemma SplitStored(mem: Memory, h: Heap, d: set<Addr>, n: Addr, req: int)
    requires Shaped(h, d) && Stored(mem, h)
    requires Inner(h, n) && n !in h.order && n + h.tags[n].size in h.tags
    requires MIN_CHUNK <= req && req + MIN_CHUNK <= h.tags[n].size
    ensures Stored(SplitWrites(mem, h.tags, n, req), h.(tags := SplitTags(h.tags, n, req)))
  {
    var mem', tags' := SplitWrites(mem, h.tags, n, req), SplitTags(h.tags, n, req);
    var r, next, remaining := n + req, n + h.tags[n].size, h.tags[n].size - req;
    forall a {:trigger TagStored(mem', tags'[a], a)} | a in tags' ensures TagStored(mem', tags'[a], a) {
      SplitTagStored(mem, h, n, req, a);
    }
    InsideIsNonIndex(h, d, n, r + SIZE);
    InsideIsNonIndex(h, d, n, r + PRECEDING);
    TagIsNonIndex(h, d, n);
    TagIsNonIndex(h, d, next);
    var mem1 := mem[r + SIZE := remaining];
    var mem2 := mem1[r + PRECEDING := req];
    var mem3 := mem2[n + SIZE := req];
    IndexSurvives(mem, h, r + SIZE, remaining);
    IndexSurvives(mem1, h, r + PRECEDING, req);
    IndexSurvives(mem2, h, n + SIZE, req);
    IndexSurvives(mem3, h, next + PRECEDING, Encode(remaining, h.tags[next].alloc));
  }

  /** The two header writes of a merge. */
  function MergeWrites(mem: Memory, tags: Tags, n: Addr): Memory
    requires n in tags && n + tags[n].size in tags
    requires var next := n + tags[n].size; next + tags[next].size in tags
  {
    var next := n + tags[n].size;
    var total := tags[n].size + tags[next].size;
    var beyond := next + tags[next].size;
    mem[n + SIZE := total][beyond + PRECEDING := Encode(total, tags[beyond].alloc)]
  }

  lemma MergeTagStored(mem: Memory, h: Heap, n: Addr, next: Addr, a: Addr)
    requires Tiled(h.tags, h.base, h.end) && TagsStored(mem, h.tags)
    requires Inner(h, n) && Inner(h, next) && next == n + h.tags[n].size
    requires next + h.tags[next].size in h.tags
    requires a in MergeTags(h.tags, n)
    ensures TagStored(MergeWrites(mem, h.tags, n), MergeTags(h.tags, n)[a], a)
  {
    var beyond := next + h.tags[next].size;
    InnerNext(h, n);
    InnerNext(h, next);
    assert TagStored(mem, h.tags[a], a);
    assert TagStored(mem, h.tags[n], n) && TagStored(mem, h.tags[beyond], beyond);
    if a < n { TagsApart(h, a, n); } else if n < a { TagsApart(h, n, a); }
    if a < beyond { TagsApart(h, a, beyond); } else if beyond < a { TagsApart(h, beyond, a); }
    TagsApart(h, n, beyond);
  }

  lemma MergeStored(mem: Memory, h: Heap, d: set<Addr>, n: Addr, next: Addr)
    requires Shaped(h, d) && Stored(mem, h)
    requires Inner(h, n) && Inner(h, next) && next == n + h.tags[n].size
    requires next + h.tags[next].size in h.tags
    ensures Stored(MergeWrites(mem, h.tags, n), h.(tags := MergeTags(h.tags, n)))
  {
    var mem', tags' := MergeWrites(mem, h.tags, n), MergeTags(h.tags, n);
    var beyond, total := next + h.tags[next].size, h.tags[n].size + h.tags[next].size;
    forall a {:trigger TagStored(mem', tags'[a], a)} | a in tags' ensures TagStored(mem', tags'[a], a) {
      MergeTagStored(mem, h, n, next, a);
    }
    TagIsNonIndex(h, d, n);
    TagIsNonIndex(h, d, beyond);
    IndexSurvives(mem, h, n + SIZE, total);
    IndexSurvives(mem[n + SIZE := total], h, beyond + PRECEDING, Encode(total, h.tags[beyond].alloc));
  }

  /** A client writing any byte of its own payload disturbs neither view. */
  lemma PayloadStored(mem: Memory, h: Heap, n: Addr, b: Addr, v: int)
    requires Inv(h) && Stored(mem, h) && InPayload(h, n, b)
    ensures Stored(WithByte(mem, b, v), h)
  {
    PayloadWord(h, n, b);
    PayloadWordStored(mem, h, n, WordOf(b), WordAt(mem, WordOf(b)) + (v - ByteAt(mem, b)) * Weight(b));
  }

  lemma PayloadWordStored(mem: Memory, h: Heap, n: Addr, x: Addr, v: int)
    requires Inv(h) && Stored(mem, h) && InPayload(h, n, x)
    ensures Stored(mem[x := v], h)
  {
    HeadNotInner(h, n);
    assert Listed(h.tags, h.nl, h.order, {}, n);
    InsideIsNonIndex(h, {}, n, x);
    IndexSurvives(mem, h, x, v);
    var mem' := mem[x := v];
    forall a {:trigger TagStored(mem', h.tags[a], a)} | a in h.tags ensures TagStored(mem', h.tags[a], a) {
      assert TagStored(mem, h.tags[a], a);
      assert Fits(h.tags, h.base, h.end, a);
      assert Before(h.tags, a, n) && Before(h.tags, n, a);
    }
  }

  // ----- walking the list

  /** Reading the list node at position `j`. */
  lemma NodeAt(mem: Memory, h: Heap, d: set<Addr>, j: nat)
    requires Shaped(h, d) && Stored(mem, h) && j < |h.order|
    ensures h.order[j] != 0
    ensures h.order[j] + SIZE in mem && h.order[j] + FLINK in mem
    ensures mem[h.order[j] + FLINK] == NextOf(h.order, j)
    ensures IsHead(h.nl, h.order[j]) ==> mem[h.order[j] + SIZE] == 0
    ensures !IsHead(h.nl, h.order[j]) ==>
              && FreeChunk(h, h.order[j])
              && mem[h.order[j] + SIZE] == h.tags[h.order[j]].size >= MIN_CHUNK
              && Rank(h.tags, h.nl, h.order[j]) == 2 * h.tags[h.order[j]].size
  {
    var n := h.order[j];
    ListedInner(h, d, n);
    assert LinkStored(mem, h.order, j);
    if IsHead(h.nl, n) {
      var k := (n - h.nl) / 16;
      assert Head(h.nl, k) == n;
      assert HeadStored(mem, h.nl, k);
    } else {
      InnerNext(h, n);
      assert TagStored(mem, h.tags[n], n);
    }
  }

  /** Position of a bucket head; nothing up to it ranks above it. */
  lemma HeadAt(h: Heap, d: set<Addr>, k: nat)
    requires Shaped(h, d) && k < NNODES
    ensures IndexOf(h.order, Head(h.nl, k)) < |h.order|
    ensures forall t :: 0 <= t <= IndexOf(h.order, Head(h.nl, k)) ==>
              Rank(h.tags, h.nl, h.order[t]) <= HeadRank(k)
  {
    RankOfHead(h.tags, h.nl, k);
    assert Listed(h.tags, h.nl, h.order, d, Head(h.nl, k));
  }

  lemma HeadNumber(tags: Tags, nl: Addr, n: Addr) returns (k: nat)
    requires IsHead(nl, n)
    ensures k < NNODES && n == Head(nl, k) && Rank(tags, nl, n) == HeadRank(k)
  {
    k := (n - nl) / 16;
  }

  /** A head met after the head of bucket `ndx` belongs to a later bucket. */
  lemma LaterHead(h: Heap, d: set<Addr>, ndx: nat, j: nat) returns (k: nat)
    requires Shaped(h, d) && ndx < NNODES && j < |h.order| && IsHead(h.nl, h.order[j])
    requires IndexOf(h.order, Head(h.nl, ndx)) < j
    ensures ndx < k < NNODES && Rank(h.tags, h.nl, h.order[j]) == HeadRank(k)
  {
    var i := IndexOf(h.order, Head(h.nl, ndx));
    RankOfHead(h.tags, h.nl, ndx);
    k := HeadNumber(h.tags, h.nl, h.order[j]);
    assert h.order[i] != h.order[j];
    assert Rank(h.tags, h.nl, h.order[i]) <= Rank(h.tags, h.nl, h.order[j]);
    HeadRankMonotone(k, ndx);
  }
}
