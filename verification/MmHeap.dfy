/**
 * The allocator as it runs: pointer updates on word memory. `tags` and `order` are the ghost
 * views that memory represents; every method is proved against the functions of `MmSpec`.
 */
module MmHeap {
  import opened Basics
  import opened MmConfig
  import opened MmLayout
  import opened MmIndex
  import opened MmSpec
  import opened MmTheorems
  import opened MmInfo
  import opened MmBytes
  import opened MmMemory

  datatype HeapInfo = HeapInfo(arena: int, ordblks: int, mxordblk: int, uordblks: int, fordblks: int)

  /** `mallinfo` of a heap: sizes, count and maximum over its free list. */
  ghost predicate Describes(info: HeapInfo, h: Heap) {
    && info.arena == HeapSize(h)
    && info.ordblks == Sum(OneIn(h.tags), h.order)
    && info.fordblks == FreeBytes(h)
    && info.uordblks + info.fordblks == HeapSize(h)
    && (forall m :: FreeChunk(h, m) ==> h.tags[m].size <= info.mxordblk)
    && (info.mxordblk == 0 || exists m :: FreeChunk(h, m) && h.tags[m].size == info.mxordblk)
  }

  /** The span of an aligned region, end guard included, can hold a heap beside the node list. */
  ghost predicate Roomy(heapbase: Addr, regionend: Addr, nl: Addr) {
    Placed(heapbase, regionend - SIZEOF_ALLOCNODE, nl)
  }

  class MmHeap {
    var mem: Memory
    const nl: Addr
    var heapstart: Addr
    var heapend: Addr
    var heapsize: int
    var maxUsed: int
    ghost var tags: Tags
    ghost var order: seq<Addr>

    ghost function View(): Heap
      reads this
    {
      Heap(heapstart, heapend, nl, tags, order)
    }

    ghost predicate Valid()
      reads this
    {
      Inv(View()) && Stored(mem, View()) && heapsize == HeapSize(View())
    }

    constructor (nl: Addr, ram: Memory)
      ensures this.nl == nl && mem == ram && maxUsed == 0
    {
      this.nl := nl;
      mem := ram;
      heapstart, heapend, heapsize, maxUsed := 0, 0, 0, 0;
      tags, order := map[], [];
    }

    /** `mm_initialize`: chains the bucket heads and adds the one region. */
    method Initialize(start: Addr, size: int)
      requires Placed(AlignUp(start), AlignDown(Add32(start, size)) - SIZEOF_ALLOCNODE, nl)
      modifies this`mem, this`heapstart, this`heapend, this`heapsize, this`tags, this`order
      ensures Valid()
      ensures View() == InitHeap(AlignUp(start), AlignDown(Add32(start, size)) - SIZEOF_ALLOCNODE, nl)
      ensures OnlyOwned(old(mem), mem, View(), {})
    {
      heapsize := 0;
      ghost var mem0 := mem;
      ChainStart(mem, nl);
      mem := ZeroFill(mem, nl, 4 * NNODES);
      var i := 1;
      while i < NNODES
        invariant 1 <= i <= NNODES && heapsize == 0
        invariant Chained(mem, nl, i)
        invariant OnlyArray(mem0, mem, nl)
      {
        ChainStep(mem0, mem, nl, i);
        mem := mem[Head(nl, i - 1) + FLINK := Head(nl, i)];
        mem := mem[Head(nl, i) + BLINK := Head(nl, i - 1)];
        i := i + 1;
      }
      assert i == NNODES;
      ChainDone(mem, nl);
      order := Heads(nl, NNODES);
      AddRegion(start, size, mem0);
    }

    /** The heap is the one region of a span, and only its own words were written since `mem0`. */
    ghost predicate Laid(mem0: Memory, heapbase: Addr, regionend: Addr)
      reads this
    {
      Valid() && View() == InitHeap(heapbase, regionend - SIZEOF_ALLOCNODE, nl) && OnlyOwned(mem0, mem, View(), {})
    }

    /** `mm_addregion` on a heap without regions. */
    method AddRegion(start: Addr, size: int, ghost mem0: Memory)
      requires Roomy(AlignUp(start), AlignDown(Add32(start, size)), nl)
      requires heapsize == 0 && order == Heads(nl, NNODES)
      requires LinksStored(mem, order) && HeadsStored(mem, nl)
      requires OnlyArray(mem0, mem, nl)
      modifies this`mem, this`heapstart, this`heapend, this`heapsize, this`tags, this`order
      ensures Laid(mem0, AlignUp(start), AlignDown(Add32(start, size)))
    {
      var heapbase := AlignUp(start);
      var regionend := AlignDown(Add32(start, size));
      AddSpan(heapbase, regionend, mem0);
    }

    /** `mm_addregion` after the alignment of its arguments. */
    method AddSpan(heapbase: Addr, regionend: Addr, ghost mem0: Memory)
      requires Roomy(heapbase, regionend, nl)
      requires heapsize == 0 && order == Heads(nl, NNODES)
      requires LinksStored(mem, order) && HeadsStored(mem, nl)
      requires OnlyArray(mem0, mem, nl)
      modifies this`mem, this`heapstart, this`heapend, this`heapsize, this`tags, this`order
      ensures Laid(mem0, heapbase, regionend)
    {
      ghost var mem1 := mem;
      heapsize := heapsize + (regionend - heapbase);
      ghost var mem2 := LaySpan(heapbase, regionend);
      SpanDone(mem0, mem1, mem2, mem, heapstart, heapend, nl);
    }

    /** The writes of `mm_addregion`; `mem2` is memory before the insertion. */
    method LaySpan(heapbase: Addr, regionend: Addr) returns (ghost mem2: Memory)
      requires Placed(heapbase, regionend - SIZEOF_ALLOCNODE, nl)
      requires order == Heads(nl, NNODES) && LinksStored(mem, order) && HeadsStored(mem, nl)
      modifies this`mem, this`heapstart, this`heapend, this`tags, this`order
      ensures heapstart == heapbase && heapend == regionend - SIZEOF_ALLOCNODE
      ensures View() == InitHeap(heapstart, heapend, nl) && Stored(mem, View())
      ensures mem2 == RegionWrites(old(mem), heapstart, heapend)
      ensures OnlyLinks(mem2, mem, old(order) + [heapbase + SIZEOF_ALLOCNODE])
    {
      WriteGuards(heapbase, regionend);
      mem2 := mem;
      var node := heapbase + SIZEOF_ALLOCNODE;
      AddFreeChunk(node, {node});
    }

    /** The guard nodes of `mm_addregion` and the free chunk between them. */
    method WriteGuards(heapbase: Addr, regionend: Addr)
      requires Placed(heapbase, regionend - SIZEOF_ALLOCNODE, nl)
      requires order == Heads(nl, NNODES) && LinksStored(mem, order) && HeadsStored(mem, nl)
      modifies this`mem, this`heapstart, this`heapend, this`tags
      ensures heapstart == heapbase && heapend == regionend - SIZEOF_ALLOCNODE
      ensures tags == InitTags(heapstart, heapend)
      ensures mem == RegionWrites(old(mem), heapstart, heapend)
      ensures Shaped(View(), {heapbase + SIZEOF_ALLOCNODE}) && Stored(mem, View())
    {
      ghost var mem1 := mem;
      WriteHeaders(heapbase, regionend);
      tags := InitTags(heapstart, heapend);
      RegionStored(mem1, View());
    }

    method WriteHeaders(heapbase: Addr, regionend: Addr)
      requires heapbase + 2 * SIZEOF_ALLOCNODE + MIN_CHUNK <= regionend
      requires regionend - heapbase < ALLOC_BIT
      modifies this`mem, this`heapstart, this`heapend
      ensures heapstart == heapbase && heapend == regionend - SIZEOF_ALLOCNODE
      ensures mem == RegionWrites(old(mem), heapstart, heapend)
    {
      var bytes := regionend - heapbase;
      heapstart := heapbase;
      mem := mem[heapstart + SIZE := SIZEOF_ALLOCNODE];
      mem := mem[heapstart + PRECEDING := ALLOC_BIT];
      var node := heapbase + SIZEOF_ALLOCNODE;
      mem := mem[node + SIZE := bytes - 2 * SIZEOF_ALLOCNODE];
      mem := mem[node + PRECEDING := SIZEOF_ALLOCNODE];
      heapend := regionend - SIZEOF_ALLOCNODE;
      mem := mem[heapend + SIZE := SIZEOF_ALLOCNODE];
      assert mem[node + SIZE] == heapend - heapstart - SIZEOF_ALLOCNODE;
      mem := mem[heapend + PRECEDING := SetAllocBit(mem[node + SIZE])];
    }

    /** Unlinks a node: its list neighbours are joined. */
    method Unlink(node: Addr, ghost d: set<Addr>)
      requires Shaped(View(), d) && Stored(mem, View())
      requires node in order && Inner(View(), node)
      modifies this`mem, this`order
      ensures View() == Take(old(View()), node)
      ensures Stored(mem, View())
      ensures OnlyLinks(old(mem), mem, old(order))
    {
      ghost var h, mem0 := View(), mem;
      ghost var i := IndexOf(order, node);
      UnlinkReads(mem, h, d, node);
      var flink, blink := mem[node + FLINK], mem[node + BLINK];
      mem := mem[blink + FLINK := flink];
      if flink != 0 {
        mem := mem[flink + BLINK := blink];
      }
      assert mem == UnlinkWrites(mem0, order, i);
      UnlinkDone(mem0, h, d, node);
      order := RemoveAt(order, i);
    }

    /** `mm_addfreechunk`. */
    method AddFreeChunk(node: Addr, ghost d: set<Addr>)
      requires Shaped(View(), d) && Stored(mem, View())
      requires FreeChunk(View(), node) && node in d
      modifies this`mem, this`order
      ensures View() == Put(old(View()), node)
      ensures Stored(mem, View())
      ensures OnlyLinks(old(mem), mem, old(order) + [node])
    {
      ghost var h, mem0 := View(), mem;
      ghost var j := LowerBound(tags, nl, order, Rank(tags, nl, node));
      var prev, next := FindSlot(node, d);
      mem := mem[prev + FLINK := node];
      mem := mem[node + BLINK := prev];
      mem := mem[node + FLINK := next];
      if next != 0 {
        mem := mem[next + BLINK := node];
      }
      InsertLinks(mem0, h, d, j, node);
      assert mem == LinkWrites(mem0, order, j, node);
      order := InsertAt(order, j, node);
    }

    /** The search loop of `mm_addfreechunk`: the neighbours of the node's place in the list. */
    method FindSlot(node: Addr, ghost d: set<Addr>) returns (prev: Addr, next: Addr)
      requires Shaped(View(), d) && Stored(mem, View())
      requires FreeChunk(View(), node) && node in d
      ensures Cursor(mem, order, LowerBound(tags, nl, order, Rank(tags, nl, node)), prev, next)
    {
      ghost var h := View();
      ChunkSize(mem, h, d, node);
      var size := mem[node + SIZE];
      var ndx := Size2Ndx(size);
      prev := Head(nl, ndx);
      ghost var j := SlotStart(mem, h, d, size, ndx);
      next := mem[prev + FLINK];
      while next != 0 && mem[next + SIZE] != 0 && mem[next + SIZE] < size
        invariant Slotting(mem, h, size, ndx, j, prev, next)
        decreases |order| - j
      {
        SlotStep(mem, h, d, size, ndx, j, prev, next);
        prev := next;
        next := mem[next + FLINK];
        j := j + 1;
      }
      SlotEnd(mem, h, d, size, ndx, j, prev, next);
      LowerBoundIs(tags, nl, order, Rank(tags, nl, node), j);
    }

    /**
     * The search loop of `mm_malloc`: from the head of the request's bucket to the first node that
     * is large enough. It finds what a scan of the whole list would find.
     */
    method Search(req: int) returns (node: Addr)
      requires Valid() && req >= MIN_CHUNK
      ensures var p := FirstFit(tags, nl, order, req);
              node == if p < |order| then order[p] else 0
      ensures node == 0 <==> FirstFit(tags, nl, order, req) == |order|
    {
      ghost var h := View();
      var ndx := NNODES - 1;
      if req < MAX_CHUNK {
        ndx := Size2Ndx(req);
      }
      assert ndx == BucketOf(req);
      ghost var j := SearchStart(mem, h, req, ndx);
      node := mem[Head(nl, ndx) + FLINK];
      while node != 0 && mem[node + SIZE] < req
        invariant Scanning(mem, h, req, j, node)
        decreases |order| - j
      {
        SearchStep(mem, h, req, j, node);
        node := mem[node + FLINK];
        j := j + 1;
      }
      SearchEnd(mem, h, req, j, node);
    }

    /** The split branch of `mm_malloc`; `node` is already off the list. */
    method Split(node: Addr, req: int)
      requires Shaped(View(), {node}) && Stored(mem, View()) && FreeChunk(View(), node)
      requires MIN_CHUNK <= req && req + MIN_CHUNK <= tags[node].size && IsWord(req)
      requires node + tags[node].size in tags
      modifies this`mem, this`tags, this`order
      ensures tags == SplitTags(old(tags), node, req)
      ensures View() == Put(old(View()).(tags := tags), node + req)
      ensures Shaped(View(), {node}) && Stored(mem, View()) && FreeChunk(View(), node)
      ensures OnlySplit(old(mem), mem, old(View()), node, req)
    {
      ghost var h := View();
      InnerNext(h, node);
      ghost var next0 := node + tags[node].size;
      assert TagStored(mem, tags[node], node) && TagStored(mem, tags[next0], next0);
      ghost var mem0 := mem;
      var remaining := mem[node + SIZE] - req;
      var next := node + mem[node + SIZE];
      var remainder := node + req;
      mem := mem[remainder + SIZE := remaining];
      mem := mem[remainder + PRECEDING := req];
      mem := mem[node + SIZE := req];
      SplitHeaders(mem0, mem, h, node, req);
      mem := mem[next + PRECEDING := remaining + AllocBitOf(mem[next + PRECEDING])];
      assert mem == SplitWrites(mem0, tags, node, req);
      SplitShaped(h, node, req);
      HeadNotInner(h, node);
      assert Listed(tags, nl, order, {node}, node);
      SplitStored(mem0, h, {node}, node, req);
      tags := SplitTags(tags, node, req);
      ghost var mem1 := mem;
      AddFreeChunk(remainder, {node, remainder});
      PutShaped(h.(tags := tags), node, remainder);
      SplitFrame(mem0, mem1, mem, h, node, req);
    }

    /** Takes a free chunk off the list, splits it if worthwhile and marks it allocated. */
    method CarveOut(node: Addr, req: int)
      requires Valid() && FreeChunk(View(), node)
      requires MIN_CHUNK <= req <= tags[node].size && req % MIN_CHUNK == 0
      requires node + tags[node].size in tags
      modifies this`mem, this`tags, this`order
      ensures View() == Carve(old(View()), node, req)
      ensures Valid()
      ensures OnlyOwned(old(mem), mem, old(View()), {})
    {
      ghost var h, mem0 := View(), mem;
      GranulesAreWords(req);
      TakeAndTrim(node, req);
      ghost var mem2, h2 := mem, View();
      MarkAllocated(node);
      CarveDone(h, h2, View(), node, req);
      CarveFrame(h, mem0, mem2, mem, node, mem[node + PRECEDING]);
    }

    /** The list and split half of `CarveOut`. */
    method TakeAndTrim(node: Addr, req: int)
      requires Inv(View()) && Stored(mem, View()) && FreeChunk(View(), node)
      requires MIN_CHUNK <= req <= tags[node].size && node + tags[node].size in tags && IsWord(req)
      modifies this`mem, this`tags, this`order
      ensures View() == Trim(Take(old(View()), node), node, req)
      ensures Shaped(View(), {node}) && Stored(mem, View()) && FreeChunk(View(), node)
      ensures OnlyOwned(old(mem), mem, old(View()), {})
    {
      ghost var h, mem0 := View(), mem;
      TakeFirst(h, node);
      Unlink(node, {});
      ghost var mem1 := mem;
      SplitIfRoom(node, req);
      TrimFrame(h, mem0, mem1, mem, node, req);
    }

    /** Splits the chunk when the rest can stand as a free chunk. */
    method SplitIfRoom(node: Addr, req: int)
      requires Shaped(View(), {node}) && Stored(mem, View()) && FreeChunk(View(), node)
      requires MIN_CHUNK <= req <= tags[node].size && node + tags[node].size in tags && IsWord(req)
      modifies this`mem, this`tags, this`order
      ensures View() == Trim(old(View()), node, req)
      ensures Shaped(View(), {node}) && Stored(mem, View()) && FreeChunk(View(), node)
      ensures OnlySplit(old(mem), mem, old(View()), node, req)
    {
      assert TagStored(mem, tags[node], node);
      var remaining := mem[node + SIZE] - req;
      if remaining >= SIZEOF_FREENODE {
        Split(node, req);
      }
    }

    /** `node->preceding |= MM_ALLOC_BIT` on a chunk that is off the list. */
    method MarkAllocated(node: Addr)
      requires Shaped(View(), {node}) && Stored(mem, View()) && Inner(View(), node)
      modifies this`mem, this`tags
      ensures tags == WithAlloc(old(tags), node, true)
      ensures Stored(mem, View())
      ensures node + PRECEDING in mem && mem == old(mem)[node + PRECEDING := mem[node + PRECEDING]]
    {
      ghost var h, mem0 := View(), mem;
      assert TagStored(mem, tags[node], node);
      PrecBound(h, node);
      mem := mem[node + PRECEDING := SetAllocBit(mem[node + PRECEDING])];
      AllocStored(mem0, h, {node}, node, true);
      tags := WithAlloc(tags, node, true);
    }

    /**
     * `mm_malloc`. A request that is rounded to 0 is followed by itself, and only up to the peak
     * update, whose walk need not end on the memory such a request leaves.
     */
    method Malloc(size: int) returns (ret: Addr)
      requires Valid() && 0 <= size < WORD_MODULUS
      modifies this`mem, this`tags, this`order, this`maxUsed
      ensures Grantable(size) ==> Valid() && View() == MmSpec.Malloc(old(View()), size).0
      ensures Grantable(size) ==> ret == MmSpec.Malloc(old(View()), size).1
      ensures Grantable(size) ==> OnlyOwned(old(mem), mem, old(View()), {})
      ensures Grantable(size) ==> SparesPayloads(old(mem), mem, old(View()), {})
      ensures Grantable(size) ==>
                maxUsed == if size < 1 || Used(View()) <= old(maxUsed) then old(maxUsed) else Used(View())
      ensures !Grantable(size) ==> |old(order)| > 1 && ret == old(order)[1] + SIZEOF_ALLOCNODE
      ensures !Grantable(size) ==>
                forall h {:trigger Stored(mem, h)} :: Inv(h) && h.nl == nl ==> !Stored(mem, h)
    {
      RoundedCoversRequest(size);
      if size >= 1 && AlignUp(Add32(size, SIZEOF_ALLOCNODE)) == 0 {
        ret := MallocOfNothing(size);
      } else {
        ret := MallocGrantable(size);
      }
    }

    method MallocGrantable(size: int) returns (ret: Addr)
      requires Valid() && Grantable(size)
      modifies this`mem, this`tags, this`order, this`maxUsed
      ensures Valid()
      ensures View() == MmSpec.Malloc(old(View()), size).0
      ensures ret == MmSpec.Malloc(old(View()), size).1
      ensures OnlyOwned(old(mem), mem, old(View()), {})
      ensures SparesPayloads(old(mem), mem, old(View()), {})
      ensures maxUsed == if size < 1 || Used(View()) <= old(maxUsed) then old(maxUsed) else Used(View())
    {
      ret := 0;
      if size < 1 {
        return;
      }
      ghost var h, mem0 := View(), mem;
      RoundedCoversRequest(size);
      var req := AlignUp(Add32(size, SIZEOF_ALLOCNODE));
      var node := Search(req);
      if node != 0 {
        MallocTakes(h, size);
        CarveOut(node, req);
        ret := node + SIZEOF_ALLOCNODE;
      }
      OwnedSparesPayloads(mem0, mem, h, {});
      var peak := MaxUsedSizeUpdate();
    }

    /**
     * What `mm_malloc` does, up to the peak update, with a request that is rounded to 0: nothing is
     * smaller than that, so it takes the node behind the first bucket head, and what it leaves is
     * no heap any more.
     */
    method MallocOfNothing(size: int) returns (ret: Addr)
      requires Valid() && 0 <= size < WORD_MODULUS && !Grantable(size)
      modifies this`mem
      ensures |order| > 1 && ret == order[1] + SIZEOF_ALLOCNODE
      ensures forall h {:trigger Stored(mem, h)} :: Inv(h) && h.nl == nl ==> !Stored(mem, h)
    {
      RoundedCoversRequest(size);
      var req := AlignUp(Add32(size, SIZEOF_ALLOCNODE));
      ret := CarveFirst(req);
    }

    method CarveFirst(req: int) returns (ret: Addr)
      requires Valid() && req == 0
      modifies this`mem
      ensures |order| > 1 && ret == order[1] + SIZEOF_ALLOCNODE
      ensures forall h {:trigger Stored(mem, h)} :: Inv(h) && h.nl == nl ==> !Stored(mem, h)
    {
      FirstNodes(mem, View());
      ret := SearchNothing(req, order[1], order[2]);
      NoHeapStored(mem, nl, order[0], order[1]);
    }

    /** The search for nothing stops at once, at the node behind the first bucket head. */
    method SearchNothing(req: int, ghost second: Addr, ghost third: Addr) returns (ret: Addr)
      requires req == 0 && Begins(mem, nl, Head(nl, 0), second, third)
      modifies this`mem
      ensures ret == second + SIZEOF_ALLOCNODE && Ruined(mem, nl, Head(nl, 0), second)
    {
      var ndx := Size2Ndx(req);
      var first := Head(nl, ndx);
      var node := mem[first + FLINK];
      ret := node + SIZEOF_ALLOCNODE;
      TakeNothing(first, node, mem[node + FLINK]);
    }

    /** Unlinking, splitting, reinserting and marking with a size of 0. */
    method TakeNothing(first: Addr, node: Addr, flink: Addr)
      requires Begins(mem, nl, first, node, flink)
      modifies this`mem
      ensures Ruined(mem, nl, first, node)
    {
      var blink := mem[node + BLINK];
      mem := mem[blink + FLINK := flink];
      mem := mem[flink + BLINK := blink];
      var remaining := mem[node + SIZE] - 0;
      if remaining >= SIZEOF_FREENODE {
        var next, remainder := node + mem[node + SIZE], node + 0;
        mem := mem[remainder + SIZE := remaining][remainder + PRECEDING := 0][node + SIZE := 0];
        mem := mem[next + PRECEDING := remaining + AllocBitOf(WordAt(mem, next + PRECEDING))];
        mem := mem[first + FLINK := remainder][remainder + BLINK := first];
        mem := mem[remainder + FLINK := flink][flink + BLINK := remainder];
      }
      mem := mem[node + PRECEDING := SetAllocBit(WordAt(mem, node + PRECEDING))];
    }

    /** Merges two adjacent free chunks; `listed` is the one still on the list, `off` the other. */
    method Absorb(first: Addr, second: Addr, beyond: Addr, listed: Addr, ghost off: Addr)
      requires Shaped(View(), {off}) && Stored(mem, View())
      requires FreeChunk(View(), first) && FreeChunk(View(), second)
      requires second == first + tags[first].size
      requires beyond == second + tags[second].size && beyond in tags
      requires listed in order && Inner(View(), listed) && {off} + {listed} == {first, second}
      modifies this`mem, this`tags, this`order
      ensures View() == Take(old(View()), listed).(tags := MergeTags(old(tags), first))
      ensures Stored(mem, View())
      ensures OnlyMerge(old(mem), mem, old(View()))
    {
      ghost var h, mem0 := View(), mem;
      Unlink(listed, {off});
      ghost var mem1 := mem;
      ListedInner(h, {off}, listed);
      TakeIndexed(h.tags, nl, h.order, {off}, listed);
      JoinHeaders(first, second, beyond);
      MergeFrame(mem0, mem1, mem, h, first, second);
    }

    /** The boundary-tag writes of a merge. */
    method JoinHeaders(first: Addr, second: Addr, beyond: Addr)
      requires Shaped(View(), {first, second}) && Stored(mem, View())
      requires Inner(View(), first) && Inner(View(), second)
      requires second == first + tags[first].size
      requires beyond == second + tags[second].size && beyond in tags
      modifies this`mem, this`tags
      ensures tags == MergeTags(old(tags), first)
      ensures mem == MergeWrites(old(mem), old(tags), first)
      ensures Stored(mem, View())
    {
      ghost var h, mem1 := View(), mem;
      assert TagStored(mem, tags[first], first) && TagStored(mem, tags[second], second);
      mem := mem[first + SIZE := mem[first + SIZE] + mem[second + SIZE]];
      MergeHeaders(mem1, mem, h, first, second, beyond);
      mem := mem[beyond + PRECEDING := mem[first + SIZE] + AllocBitOf(mem[beyond + PRECEDING])];
      MergeStored(mem1, h, {first, second}, first, second);
      tags := MergeTags(tags, first);
    }

    /** First half of `mm_free`: absorbs the successor of `node` if it is free. */
    method MergeNext(node: Addr) returns (next: Addr)
      requires Detached(View(), node) && Stored(mem, View())
      modifies this`mem, this`tags, this`order
      ensures View() == Forward(old(View()), node)
      ensures Stored(mem, View())
      ensures node in tags && next == node + tags[node].size
      ensures OnlyMerge(old(mem), mem, old(View()))
    {
      ghost var h := View();
      InnerNext(h, node);
      assert TagStored(mem, tags[node], node);
      next := node + mem[node + SIZE];
      assert TagStored(mem, tags[next], next);
      NextPrec(h, node);
      if AllocBitOf(mem[next + PRECEDING]) == 0 {
        ForwardFree(h, node, next);
        var andbeyond := next + mem[next + SIZE];
        Absorb(node, next, andbeyond, next, node);
        next := andbeyond;
      }
    }

    /** Second half of `mm_free`: lets a free predecessor absorb `node`. */
    method MergePrev(node: Addr, next: Addr) returns (merged: Addr)
      requires Detached(View(), node) && Stored(mem, View())
      requires next == node + tags[node].size
      modifies this`mem, this`tags, this`order
      ensures View() == Backward(old(View()), node) && merged == BackNode(old(View()), node)
      ensures Stored(mem, View())
      ensures OnlyMerge(old(mem), mem, old(View()))
    {
      ghost var h := View();
      InnerNext(h, node);
      PrecBound(h, node);
      assert TagStored(mem, tags[node], node);
      var prev := node - mem[node + PRECEDING];
      assert TagStored(mem, tags[prev], prev);
      PrevPrec(h, node);
      merged := node;
      if AllocBitOf(mem[prev + PRECEDING]) == 0 {
        BackwardFree(h, node, prev);
        Absorb(prev, node, next, prev, node);
        merged := prev;
      }
    }

    /** `mm_free`. */
    method Free(p: Addr)
      requires Valid()
      requires p == 0 || Live(View(), p - SIZEOF_ALLOCNODE)
      modifies this`mem, this`tags, this`order
      ensures Valid()
      ensures View() == MmSpec.Free(old(View()), p)
      ensures OnlyOwned(old(mem), mem, old(View()), {p - SIZEOF_ALLOCNODE})
      ensures SparesPayloads(old(mem), mem, old(View()), {p - SIZEOF_ALLOCNODE})
    {
      if p == 0 {
        return;
      }
      ghost var h, mem0 := View(), mem;
      var node := p - SIZEOF_ALLOCNODE;
      FreeNode(node);
      FreeKeepsInv(h, p);
      OwnedSparesPayloads(mem0, mem, h, {node});
    }

    /** `mm_free` on the node of the block. */
    method FreeNode(node: Addr)
      requires Inv(View()) && Stored(mem, View()) && Live(View(), node)
      modifies this`mem, this`tags, this`order
      ensures View() == MmSpec.Free(old(View()), node + SIZEOF_ALLOCNODE) && Stored(mem, View())
      ensures OnlyOwned(old(mem), mem, old(View()), {node})
    {
      ghost var h, mem0 := View(), mem;
      ReleaseBlock(node);
      ReleaseDetached(h, node);
      ghost var mem1 := mem;
      Coalesce(node, h, mem0, mem1);
    }

    /** `node->preceding &= ~MM_ALLOC_BIT`. */
    method ReleaseBlock(node: Addr)
      requires Inv(View()) && Stored(mem, View()) && Live(View(), node)
      modifies this`mem, this`tags
      ensures View() == Release(old(View()), node) && Stored(mem, View())
      ensures node + PRECEDING in mem && mem == old(mem)[node + PRECEDING := mem[node + PRECEDING]]
    {
      ghost var h, mem0 := View(), mem;
      assert TagStored(mem, tags[node], node);
      PrecBound(h, node);
      mem := mem[node + PRECEDING := ClearAllocBit(mem[node + PRECEDING])];
      AllocStored(mem0, h, {}, node, false);
      tags := WithAlloc(tags, node, false);
    }

    /** Both merges and the insertion; `h` and `mem0` are heap and memory before the call. */
    method Coalesce(node: Addr, ghost h: Heap, ghost mem0: Memory, ghost mem1: Memory)
      requires Inv(h) && Live(h, node) && View() == Release(h, node) && Detached(View(), node)
      requires mem == mem1 && Stored(mem, View())
      requires node + PRECEDING in mem1 && mem1 == mem0[node + PRECEDING := mem1[node + PRECEDING]]
      modifies this`mem, this`tags, this`order
      ensures View() == MmSpec.Free(h, node + SIZEOF_ALLOCNODE) && Stored(mem, View())
      ensures OnlyOwned(mem0, mem, h, {node})
    {
      ghost var h1 := View();
      var next := MergeNext(node);
      ghost var mem2, h2 := mem, View();
      ForwardDetached(h1, node);
      var merged := MergePrev(node, next);
      BackwardDetached(h2, node);
      ghost var mem3 := mem;
      AddFreeChunk(merged, {merged});
      FreeFrame(h, node, mem0, mem1, mem2, mem3, mem);
    }

    /** A client stores a byte in its own block. */
    method ClientStore(block: Addr, b: Addr, v: int)
      requires Valid() && InPayload(View(), block, b) && 0 <= v < 0x100
      modifies this`mem
      ensures Valid() && View() == old(View()) && mem == WithByte(old(mem), b, v)
    {
      PayloadStored(mem, View(), block, b, v);
      mem := WithByte(mem, b, v);
    }

    /** `mm_mallinfo`. */
    method Mallinfo() returns (info: HeapInfo)
      requires Valid()
      ensures Describes(info, View())
    {
      ghost var h := View();
      var mxordblk, ordblks, uordblks, fordblks := 0, 0, 0, 0;
      var node := heapstart;
      while node < heapend
        invariant Counted(h, node, mxordblk, ordblks, uordblks, fordblks)
        decreases heapend - node
      {
        CountStep(mem, h, node, mxordblk, ordblks, uordblks, fordblks);
        if AllocBitOf(mem[node + PRECEDING]) != 0 {
          uordblks := uordblks + mem[node + SIZE];
        } else {
          ordblks := ordblks + 1;
          fordblks := fordblks + mem[node + SIZE];
          if mem[node + SIZE] > mxordblk {
            mxordblk := mem[node + SIZE];
          }
        }
        node := node + mem[node + SIZE];
      }
      CountEnd(h, node, mxordblk, ordblks, uordblks, fordblks);
      uordblks := uordblks + SIZEOF_ALLOCNODE;
      info := HeapInfo(heapsize, ordblks, mxordblk, uordblks, fordblks);
    }

    /** `mm_max_usedsize_update`. */
    method MaxUsedSizeUpdate() returns (peak: int)
      requires Valid()
      modifies this`maxUsed
      ensures Valid()
      ensures peak == maxUsed == if Used(View()) > old(maxUsed) then Used(View()) else old(maxUsed)
    {
      var info := Mallinfo();
      if info.uordblks > maxUsed {
        maxUsed := info.uordblks;
      }
      peak := maxUsed;
    }
  }

  // ----- initialisation

  /** `x` is the address of one of the `words` words at `from`. */
  ghost predicate InWords(from: Addr, words: int, x: Addr) {
    from <= x < from + 4 * words && IsWord(x - from)
  }

  /** `memset` of `words` words to 0. */
  function ZeroFill(mem: Memory, from: Addr, words: nat): Memory {
    if words == 0 then mem else ZeroFill(mem, from, words - 1)[from + 4 * (words - 1) := 0]
  }

  lemma {:induction false} ZeroFilled(mem: Memory, from: Addr, words: nat)
    ensures forall k :: 0 <= k < words ==>
              from + 4 * k in ZeroFill(mem, from, words) && ZeroFill(mem, from, words)[from + 4 * k] == 0
    ensures forall x {:trigger SameAt(mem, ZeroFill(mem, from, words), x)} ::
              InWords(from, words, x) || SameAt(mem, ZeroFill(mem, from, words), x)
  {
    if words != 0 {
      ZeroFilled(mem, from, words - 1);
      var mem1, mem2 := ZeroFill(mem, from, words - 1), ZeroFill(mem, from, words);
      forall x {:trigger SameAt(mem, mem2, x)} ensures InWords(from, words, x) || SameAt(mem, mem2, x) {
        assert InWords(from, words - 1, x) || SameAt(mem, mem1, x);
        assert from + 4 * (words - 1) - from == Words(words - 1);
      }
    }
  }

  lemma ChainStart(mem: Memory, nl: Addr)
    ensures Chained(ZeroFill(mem, nl, 4 * NNODES), nl, 1)
    ensures OnlyArray(mem, ZeroFill(mem, nl, 4 * NNODES), nl)
  {
    var mem' := ZeroFill(mem, nl, 4 * NNODES);
    ZeroFilled(mem, nl, 4 * NNODES);
    forall k {:trigger ChainedAt(mem', nl, 1, k)} | 0 <= k < NNODES ensures ChainedAt(mem', nl, 1, k) {
      assert nl + 4 * (4 * k) == Head(nl, k) + SIZE;
      assert nl + 4 * (4 * k + 2) == Head(nl, k) + FLINK;
      assert nl + 4 * (4 * k + 3) == Head(nl, k) + BLINK;
    }
  }

  /** Only words of the bucket array differ. */
  ghost predicate OnlyArray(mem: Memory, mem': Memory, nl: Addr) {
    forall x {:trigger SameAt(mem, mem', x)} :: InWords(nl, 4 * NNODES, x) || SameAt(mem, mem', x)
  }

  /** Bucket head `k` after the heads below `i` have been chained. */
  ghost predicate ChainedAt(mem: Memory, nl: Addr, i: int, k: int) {
    && HeadStored(mem, nl, k)
    && Head(nl, k) + FLINK in mem && mem[Head(nl, k) + FLINK] == (if k + 1 < i then Head(nl, k + 1) else 0)
    && Head(nl, k) + BLINK in mem && mem[Head(nl, k) + BLINK] == (if 0 < k < i then Head(nl, k - 1) else 0)
  }

  ghost predicate Chained(mem: Memory, nl: Addr, i: int) {
    forall k {:trigger ChainedAt(mem, nl, i, k)} :: 0 <= k < NNODES ==> ChainedAt(mem, nl, i, k)
  }

  lemma ChainStep(mem0: Memory, mem: Memory, nl: Addr, i: int)
    requires 1 <= i < NNODES && Chained(mem, nl, i)
    requires OnlyArray(mem0, mem, nl)
    ensures var mem' := mem[Head(nl, i - 1) + FLINK := Head(nl, i)][Head(nl, i) + BLINK := Head(nl, i - 1)];
            && Chained(mem', nl, i + 1)
            && OnlyArray(mem0, mem', nl)
  {
    var mem' := mem[Head(nl, i - 1) + FLINK := Head(nl, i)][Head(nl, i) + BLINK := Head(nl, i - 1)];
    forall k {:trigger ChainedAt(mem', nl, i + 1, k)} | 0 <= k < NNODES ensures ChainedAt(mem', nl, i + 1, k) {
      assert ChainedAt(mem, nl, i, k);
    }
    forall x {:trigger SameAt(mem0, mem', x)} ensures InWords(nl, 4 * NNODES, x) || SameAt(mem0, mem', x) {
      assert InWords(nl, 4 * NNODES, x) || SameAt(mem0, mem, x);
      assert Head(nl, i - 1) + FLINK - nl == Words(4 * i - 2) && Head(nl, i) + BLINK - nl == Words(4 * i + 3);
    }
  }

  lemma ChainDone(mem: Memory, nl: Addr)
    requires Chained(mem, nl, NNODES)
    ensures LinksStored(mem, Heads(nl, NNODES)) && HeadsStored(mem, nl)
  {
    var order := Heads(nl, NNODES);
    forall i {:trigger LinkStored(mem, order, i)} | 0 <= i < |order| ensures LinkStored(mem, order, i) {
      assert ChainedAt(mem, nl, NNODES, i);
    }
    forall k {:trigger HeadStored(mem, nl, k)} | 0 <= k < NNODES ensures HeadStored(mem, nl, k) {
      assert ChainedAt(mem, nl, NNODES, k);
    }
  }

  /** The six header words of a fresh region. */
  function RegionWrites(mem: Memory, base: Addr, end: Addr): Memory {
    var node, room := base + SIZEOF_ALLOCNODE, end - base - SIZEOF_ALLOCNODE;
    mem[base + SIZE := SIZEOF_ALLOCNODE][base + PRECEDING := ALLOC_BIT]
       [node + SIZE := room][node + PRECEDING := SIZEOF_ALLOCNODE]
       [end + SIZE := SIZEOF_ALLOCNODE][end + PRECEDING := Encode(room, true)]
  }

  lemma RegionShaped(h: Heap)
    requires Placed(h.base, h.end, h.nl)
    requires h.tags == InitTags(h.base, h.end) && h.order == Heads(h.nl, NNODES)
    ensures Shaped(h, {h.base + SIZEOF_ALLOCNODE})
  {
    var d := {h.base + SIZEOF_ALLOCNODE};
    InitTiled(h.base, h.end, h.nl);
    HeadsSorted(h.tags, h.nl);
    forall m {:trigger Listed(h.tags, h.nl, h.order, d, m)} ensures Listed(h.tags, h.nl, h.order, d, m) {}
  }

  lemma RegionTagsStored(mem: Memory, base: Addr, end: Addr)
    requires base + SIZEOF_ALLOCNODE + MIN_CHUNK <= end
    ensures TagsStored(RegionWrites(mem, base, end), InitTags(base, end))
  {
  }

  lemma RegionStored(mem: Memory, h: Heap)
    requires Placed(h.base, h.end, h.nl)
    requires h.tags == InitTags(h.base, h.end) && h.order == Heads(h.nl, NNODES)
    requires LinksStored(mem, h.order) && HeadsStored(mem, h.nl)
    ensures Shaped(h, {h.base + SIZEOF_ALLOCNODE})
    ensures Stored(RegionWrites(mem, h.base, h.end), h)
  {
    var node, room := h.base + SIZEOF_ALLOCNODE, h.end - h.base - SIZEOF_ALLOCNODE;
    RegionShaped(h);
    RegionTagsStored(mem, h.base, h.end);
    var mem1 := HeaderSurvives(mem, h, node, h.base, SIZEOF_ALLOCNODE, ALLOC_BIT);
    var mem2 := HeaderSurvives(mem1, h, node, node, room, SIZEOF_ALLOCNODE);
    var mem3 := HeaderSurvives(mem2, h, node, h.end, SIZEOF_ALLOCNODE, Encode(room, true));
  }

  /** Writing the two header words of a chunk keeps the stored index. */
  lemma HeaderSurvives(mem: Memory, h: Heap, d: Addr, a: Addr, size: int, preceding: int) returns (mem': Memory)
    requires Shaped(h, {d}) && a in h.tags && LinksStored(mem, h.order) && HeadsStored(mem, h.nl)
    ensures mem' == mem[a + SIZE := size][a + PRECEDING := preceding]
    ensures LinksStored(mem', h.order) && HeadsStored(mem', h.nl)
  {
    TagIsNonIndex(h, {d}, a);
    IndexSurvives(mem, h, a + SIZE, size);
    IndexSurvives(mem[a + SIZE := size], h, a + PRECEDING, preceding);
    mem' := mem[a + SIZE := size][a + PRECEDING := preceding];
  }

  lemma SpanDone(mem0: Memory, mem1: Memory, mem2: Memory, mem3: Memory, base: Addr, end: Addr, nl: Addr)
    requires Placed(base, end, nl) && OnlyArray(mem0, mem1, nl) && mem2 == RegionWrites(mem1, base, end)
    requires OnlyLinks(mem2, mem3, Heads(nl, NNODES) + [base + SIZEOF_ALLOCNODE])
    ensures Inv(InitHeap(base, end, nl)) && OnlyOwned(mem0, mem3, InitHeap(base, end, nl), {})
    ensures HeapSize(InitHeap(base, end, nl)) == end + SIZEOF_ALLOCNODE - base
  {
    InitInv(base, end, nl);
    var h := Heap(base, end, nl, InitTags(base, end), Heads(nl, NNODES));
    RegionFrame(mem0, mem1, mem2, mem3, h, base + SIZEOF_ALLOCNODE);
  }

  /** Everything `mm_initialize` writes belongs to the heap it sets up. */
  lemma RegionFrame(mem0: Memory, mem1: Memory, mem2: Memory, mem3: Memory, h: Heap, node: Addr)
    requires Inv(Put(h, node)) && node == h.base + SIZEOF_ALLOCNODE && h.tags == InitTags(h.base, h.end)
    requires OnlyArray(mem0, mem1, h.nl)
    requires mem2 == RegionWrites(mem1, h.base, h.end)
    requires OnlyLinks(mem2, mem3, h.order + [node])
    ensures OnlyOwned(mem0, mem3, Put(h, node), {})
  {
    var h' := Put(h, node);
    ArrayFrame(mem0, mem1, h');
    HeadersFrame(mem1, mem2, h');
    ListFrame(mem2, mem3, h', h.order + [node]) by {
      InsertMembers(h.order, LowerBound(h.tags, h.nl, h.order, Rank(h.tags, h.nl, node)), node);
    }
    OnlyOwnedTransitive(mem0, mem1, mem2, h', {});
    OnlyOwnedTransitive(mem0, mem2, mem3, h', {});
  }

  lemma ArrayFrame(mem: Memory, mem': Memory, h: Heap)
    requires Inv(h) && OnlyArray(mem, mem', h.nl)
    ensures OnlyOwned(mem, mem', h, {})
  {
    forall x {:trigger SameAt(mem, mem', x)} ensures Owned(h, {}, x) || SameAt(mem, mem', x) {
      if InWords(h.nl, 4 * NNODES, x) {
        WordsAdd(h.nl, x - h.nl);
      }
    }
  }

  lemma ListFrame(mem: Memory, mem': Memory, h: Heap, nodes: seq<Addr>)
    requires Inv(h) && OnlyLinks(mem, mem', nodes) && forall m :: m in nodes ==> m in h.order
    ensures OnlyOwned(mem, mem', h, {})
  {
    OrderOwned(h, {});
    OnlyLinksOwned(mem, mem', h, {}, nodes);
  }

  lemma HeadersFrame(mem: Memory, mem': Memory, h: Heap)
    requires Inv(h) && h.tags == InitTags(h.base, h.end) && mem' == RegionWrites(mem, h.base, h.end)
    ensures OnlyOwned(mem, mem', h, {})
  {
    OwnedTag(h, {}, h.base);
    OwnedTag(h, {}, h.base + SIZEOF_ALLOCNODE);
    OwnedTag(h, {}, h.end);
  }

  // ----- unlinking

  lemma UnlinkReads(mem: Memory, h: Heap, d: set<Addr>, node: Addr)
    requires Shaped(h, d) && Stored(mem, h) && node in h.order && Inner(h, node)
    ensures var i := IndexOf(h.order, node);
            && 0 < i < |h.order| && h.order[i] == node && h.order[i - 1] != 0
            && node + FLINK in mem && mem[node + FLINK] == NextOf(h.order, i)
            && node + BLINK in mem && mem[node + BLINK] == h.order[i - 1]
            && (i + 1 < |h.order| ==> h.order[i + 1] != 0)
  {
    var i := IndexOf(h.order, node);
    InnerNotFirst(h, d, node);
    LinksAt(mem, h.order, node);
    NotNull(h, d, h.order[i - 1]);
    if i + 1 < |h.order| {
      NotNull(h, d, h.order[i + 1]);
    }
  }

  lemma InnerNotFirst(h: Heap, d: set<Addr>, node: Addr)
    requires Shaped(h, d) && Inner(h, node)
    ensures h.order != [] && node != h.order[0]
  {
  }

  /** The links of a stored list at a node that is not its first. */
  lemma LinksAt(mem: Memory, order: seq<Addr>, n: Addr)
    requires LinksStored(mem, order) && n in order && n != order[0]
    ensures var i := IndexOf(order, n);
            && 0 < i < |order| && order[i] == n
            && n + FLINK in mem && mem[n + FLINK] == NextOf(order, i)
            && n + BLINK in mem && mem[n + BLINK] == order[i - 1]
            && order[i - 1] + FLINK in mem && mem[order[i - 1] + FLINK] == n
  {
    var i := IndexOf(order, n);
    assert LinkStored(mem, order, i) && LinkStored(mem, order, i - 1);
  }

  lemma NotNull(h: Heap, d: set<Addr>, m: Addr)
    requires Shaped(h, d) && m in h.order
    ensures m > 0
  {
    ListedInner(h, d, m);
  }

  lemma UnlinkDone(mem: Memory, h: Heap, d: set<Addr>, node: Addr)
    requires Shaped(h, d) && Stored(mem, h) && node in h.order && 0 < IndexOf(h.order, node) < |h.order|
    ensures var i := IndexOf(h.order, node);
            var mem' := UnlinkWrites(mem, h.order, i);
            && Stored(mem', h.(order := RemoveAt(h.order, i))) && OnlyLinks(mem, mem', h.order)
  {
    var i := IndexOf(h.order, node);
    ShapedApart(h, d, h.order);
    UnlinkStored(mem, h.order, i);
    LinksMissTags(mem, UnlinkWrites(mem, h.order, i), h, d, h.order);
  }

  // ----- a request rounded to 0

  predicate Away(a: Addr, b: Addr) {
    a + SIZEOF_FREENODE <= b || b + SIZEOF_FREENODE <= a
  }

  /** `first`, `node` and `flink` are the first three nodes of the list. */
  ghost predicate Begins(mem: Memory, nl: Addr, first: Addr, node: Addr, flink: Addr) {
    && first == Head(nl, 0) && flink != 0
    && Away(first, node) && Away(first, flink) && Away(node, flink)
    && first + FLINK in mem && mem[first + FLINK] == node
    && node + FLINK in mem && mem[node + FLINK] == flink
    && node + BLINK in mem && mem[node + BLINK] == first
    && node + SIZE in mem
    && (if IsHead(nl, node) then mem[node + SIZE] == 0 else Follows(mem, first, node, mem[node + SIZE]))
  }

  /** The free chunk at `node` has a neighbour, away from the bucket heads. */
  predicate Follows(mem: Memory, first: Addr, node: Addr, size: int) {
    && size >= MIN_CHUNK && node + size + PRECEDING in mem
    && (node + size + SIZEOF_ALLOCNODE <= first || first + SIZEOF_FREENODE <= node + size)
  }

  lemma FirstNodes(mem: Memory, h: Heap)
    requires Inv(h) && Stored(mem, h)
    ensures |h.order| > 2 && Begins(mem, h.nl, h.order[0], h.order[1], h.order[2])
  {
    ManyNodes(h);
    assert LinkStored(mem, h.order, 0) && LinkStored(mem, h.order, 1);
    FirstApart(h);
    NodeAt(mem, h, {}, 1);
    if !IsHead(h.nl, h.order[1]) {
      FirstChunk(mem, h, h.order[1]);
    }
  }

  lemma FirstChunk(mem: Memory, h: Heap, n: Addr)
    requires Inv(h) && Stored(mem, h) && FreeChunk(h, n)
    ensures Follows(mem, Head(h.nl, 0), n, h.tags[n].size)
  {
    InnerNext(h, n);
    assert TagStored(mem, h.tags[n + h.tags[n].size], n + h.tags[n].size);
  }

  lemma FirstApart(h: Heap)
    requires Inv(h) && |h.order| > 2
    ensures Away(h.order[0], h.order[1]) && Away(h.order[0], h.order[2]) && Away(h.order[1], h.order[2])
    ensures h.order[2] != 0
  {
    ShapedApart(h, {}, h.order);
    assert h.order[0] in h.order && h.order[1] in h.order && h.order[2] in h.order;
  }

  lemma ManyNodes(h: Heap)
    requires Inv(h)
    ensures |h.order| > 2
  {
    forall k | 0 <= k < 3 ensures Head(h.nl, k) in h.order {
      RankOfHead(h.tags, h.nl, k);
      assert Listed(h.tags, h.nl, h.order, {}, Head(h.nl, k));
    }
    var i, j, k := IndexOf(h.order, Head(h.nl, 0)), IndexOf(h.order, Head(h.nl, 1)), IndexOf(h.order, Head(h.nl, 2));
    assert h.order[i] == Head(h.nl, 0) && h.order[j] == Head(h.nl, 1) && h.order[k] == Head(h.nl, 2);
  }

  lemma HeadListed(h: Heap, n: Addr)
    requires Inv(h) && IsHead(h.nl, n)
    ensures n in h.order && h.order[0] == Head(h.nl, 0)
  {
    assert Listed(h.tags, h.nl, h.order, {}, n);
  }

  /** The node behind the first head is a bucket head that lost its place or a chunk of size 0. */
  ghost predicate Ruined(mem: Memory, nl: Addr, first: Addr, node: Addr) {
    && first == Head(nl, 0) && node != first
    && first + FLINK in mem && node + BLINK in mem && node + SIZE in mem
    && (IsHead(nl, node) ==> mem[node + BLINK] == first && mem[first + FLINK] != node)
    && (!IsHead(nl, node) ==> mem[first + FLINK] == node && mem[node + SIZE] == 0)
  }

  lemma NoHeapStored(mem: Memory, nl: Addr, first: Addr, node: Addr)
    requires Ruined(mem, nl, first, node)
    ensures forall h {:trigger Stored(mem, h)} :: Inv(h) && h.nl == nl ==> !Stored(mem, h)
  {
    forall h {:trigger Stored(mem, h)} | Inv(h) && h.nl == nl ensures !Stored(mem, h) {
      if IsHead(nl, node) {
        LostHeadNotStored(mem, h, node);
      } else {
        EmptyChunkNotStored(mem, h, node);
      }
    }
  }

  /** Behind the first head of a stored heap comes another head or a chunk of some size. */
  lemma EmptyChunkNotStored(mem: Memory, h: Heap, n: Addr)
    requires Inv(h) && !IsHead(h.nl, n)
    requires Head(h.nl, 0) + FLINK in mem && mem[Head(h.nl, 0) + FLINK] == n
    requires n + SIZE in mem && mem[n + SIZE] == 0
    ensures !Stored(mem, h)
  {
    if Stored(mem, h) {
      FirstNodes(mem, h);
    }
  }

  /** In a stored heap the node before a head leads to that head. */
  lemma LostHeadNotStored(mem: Memory, h: Heap, n: Addr)
    requires Inv(h) && IsHead(h.nl, n) && n != Head(h.nl, 0)
    requires n + BLINK in mem && mem[n + BLINK] == Head(h.nl, 0)
    requires Head(h.nl, 0) + FLINK in mem && mem[Head(h.nl, 0) + FLINK] != n
    ensures !Stored(mem, h)
  {
    if Stored(mem, h) {
      HeadListed(h, n);
      LinksAt(mem, h.order, n);
    }
  }

  // ----- malloc

  lemma PrecBound(h: Heap, n: Addr)
    requires Placed(h.base, h.end, h.nl) && Tiled(h.tags, h.base, h.end) && Inner(h, n)
    ensures 0 < h.tags[n].prec < ALLOC_BIT
  {
    InnerNext(h, n);
  }

  /** Splitting first and marking allocated afterwards is the same as the other way round. */
  lemma CarveSteps(h: Heap, h2: Heap, n: Addr, req: int)
    requires Inv(h) && FreeChunk(h, n) && n + h.tags[n].size in h.tags
    requires MIN_CHUNK <= req <= h.tags[n].size
    requires h2 == Trim(Take(h, n), n, req)
    ensures n in h2.tags
    ensures h2.(tags := WithAlloc(h2.tags, n, true)) == Carve(h, n, req)
  {
    if h.tags[n].size - req >= SIZEOF_FREENODE {
      AllocCommutesSplit(h, n, req);
    }
  }

  lemma TakeFirst(h: Heap, n: Addr)
    requires Inv(h) && FreeChunk(h, n)
    ensures n in h.order && Shaped(Take(h, n), {n})
  {
    HeadNotInner(h, n);
    assert Listed(h.tags, h.nl, h.order, {}, n);
    TakeIndexed(h.tags, h.nl, h.order, {}, n);
    assert {} + {n} == {n};
  }

  lemma CarveDone(h: Heap, h2: Heap, h3: Heap, n: Addr, req: int)
    requires Inv(h) && FreeChunk(h, n) && n + h.tags[n].size in h.tags
    requires MIN_CHUNK <= req <= h.tags[n].size && req % MIN_CHUNK == 0
    requires h2 == Trim(Take(h, n), n, req)
    requires n in h2.tags && h3 == h2.(tags := WithAlloc(h2.tags, n, true))
    ensures h3 == Carve(h, n, req) && Inv(h3)
    ensures HeapSize(h3) == HeapSize(h)
  {
    CarveSteps(h, h2, n, req);
    CarveKeepsInv(h, n, req);
  }

  lemma AllocCommutesSplit(h: Heap, n: Addr, req: int)
    requires Tiled(h.tags, h.base, h.end) && Inner(h, n) && n + h.tags[n].size in h.tags
    requires MIN_CHUNK <= req && req + MIN_CHUNK <= h.tags[n].size
    ensures var t1, t2 := SplitTags(h.tags, n, req), SplitTags(WithAlloc(h.tags, n, true), n, req);
            var s := Without(h.order, n);
            && WithAlloc(t1, n, true) == t2
            && LowerBound(t1, h.nl, s, Rank(t1, h.nl, n + req)) == LowerBound(t2, h.nl, s, Rank(t2, h.nl, n + req))
  {
    var t1, t2 := SplitTags(h.tags, n, req), SplitTags(WithAlloc(h.tags, n, true), n, req);
    assert WithAlloc(t1, n, true) == t2;
    LowerBoundFrame(t1, t2, h.nl, Without(h.order, n), Rank(t1, h.nl, n + req));
  }

  lemma TrimFrame(h: Heap, mem0: Memory, mem1: Memory, mem2: Memory, n: Addr, req: int)
    requires Inv(h) && FreeChunk(h, n) && n in h.order
    requires OnlyLinks(mem0, mem1, h.order)
    requires OnlySplit(mem1, mem2, Take(h, n), n, req)
    ensures OnlyOwned(mem0, mem2, h, {})
  {
    OrderOwned(h, {});
    OnlyLinksOwned(mem0, mem1, h, {}, h.order);
    OnlySplitOwned(mem1, mem2, h, n, req);
    OnlyOwnedTransitive(mem0, mem1, mem2, h, {});
  }

  lemma CarveFrame(h: Heap, mem0: Memory, mem2: Memory, mem3: Memory, n: Addr, v: int)
    requires Inv(h) && FreeChunk(h, n)
    requires OnlyOwned(mem0, mem2, h, {}) && mem3 == mem2[n + PRECEDING := v]
    ensures OnlyOwned(mem0, mem3, h, {})
  {
    OwnedTag(h, {}, n);
    OwnedWrite(mem2, h, {}, n + PRECEDING, v);
    OnlyOwnedTransitive(mem0, mem2, mem3, h, {});
  }

  lemma OnlySplitOwned(mem: Memory, mem': Memory, h: Heap, n: Addr, req: int)
    requires Inv(h) && FreeChunk(h, n) && n in h.order
    requires OnlySplit(mem, mem', Take(h, n), n, req)
    ensures OnlyOwned(mem, mem', h, {})
  {
    InnerNext(h, n);
    OrderOwned(h, {});
    OwnedTag(h, {}, n + h.tags[n].size);
    WithoutMembers(h.order, n);
    TagIsWord(h, n);
    forall x {:trigger SameAt(mem, mem', x)} ensures Owned(h, {}, x) || SameAt(mem, mem', x) {
      var order1 := Without(h.order, n);
      if x - FLINK in order1 {
        assert Owned(h, {}, x - FLINK + FLINK);
      } else if x - BLINK in order1 {
        assert Owned(h, {}, x - BLINK + BLINK);
      } else if n <= x < n + h.tags[n].size && IsWord(x - n) {
        WordsAdd(n, x - n);
        OwnedInside(h, {}, n, x);
      }
    }
  }

  lemma NextPrec(h: Heap, n: Addr)
    requires Shaped(h, {n}) && FreeChunk(h, n) && n + h.tags[n].size in h.tags
    ensures 0 < h.tags[n + h.tags[n].size].prec < ALLOC_BIT
  {
    InnerNext(h, n);
  }

  lemma PrevPrec(h: Heap, n: Addr)
    requires Shaped(h, {n}) && FreeChunk(h, n) && n - h.tags[n].prec in h.tags
    ensures 0 <= h.tags[n - h.tags[n].prec].prec < ALLOC_BIT
  {
    var prev := n - h.tags[n].prec;
    assert Fits(h.tags, h.base, h.end, prev);
    InnerNext(h, n);
    if h.base < prev {
      InnerNext(h, prev);
    }
  }

  /** Header words between the two writes of a merge. */
  lemma MergeHeaders(mem0: Memory, mem: Memory, h: Heap, a: Addr, b: Addr, beyond: Addr)
    requires Placed(h.base, h.end, h.nl) && Tiled(h.tags, h.base, h.end) && TagsStored(mem0, h.tags)
    requires Inner(h, a) && Inner(h, b) && b == a + h.tags[a].size && beyond == b + h.tags[b].size
    requires beyond in h.tags
    requires mem == mem0[a + SIZE := h.tags[a].size + h.tags[b].size]
    ensures beyond + PRECEDING in mem
    ensures AllocBitOf(mem[beyond + PRECEDING]) == Encode(0, h.tags[beyond].alloc)
  {
    InnerNext(h, a);
    InnerNext(h, b);
    TagsApart(h, a, beyond);
    assert TagStored(mem0, h.tags[beyond], beyond);
  }

  /** A merge writes links of listed nodes and boundary tags. */
  ghost predicate OnlyMerge(mem: Memory, mem': Memory, h: Heap) {
    forall x {:trigger SameAt(mem, mem', x)} ::
      || x - FLINK in h.order || x - BLINK in h.order
      || x - SIZE in h.tags || x - PRECEDING in h.tags
      || SameAt(mem, mem', x)
  }

  lemma MergeFrame(mem0: Memory, mem1: Memory, mem2: Memory, h: Heap, a: Addr, b: Addr)
    requires OnlyLinks(mem0, mem1, h.order)
    requires a in h.tags && b == a + h.tags[a].size && b in h.tags && b + h.tags[b].size in h.tags
    requires mem2 == MergeWrites(mem1, h.tags, a)
    ensures OnlyMerge(mem0, mem2, h)
  {
    forall x {:trigger SameAt(mem0, mem2, x)}
      ensures || x - FLINK in h.order || x - BLINK in h.order
              || x - SIZE in h.tags || x - PRECEDING in h.tags
              || SameAt(mem0, mem2, x)
    {
      assert SameAt(mem0, mem1, x) || x - FLINK in h.order || x - BLINK in h.order;
    }
  }

  lemma OnlyMergeOwned(mem: Memory, mem': Memory, h: Heap, h1: Heap, n: Addr)
    requires Inv(h) && OnlyMerge(mem, mem', h1)
    requires forall m :: m in h1.order ==> m in h.order
    requires forall a :: a in h1.tags ==> a in h.tags
    ensures OnlyOwned(mem, mem', h, {n})
  {
    OrderOwned(h, {n});
    forall x {:trigger SameAt(mem, mem', x)} ensures Owned(h, {n}, x) || SameAt(mem, mem', x) {
      if x - FLINK in h1.order {
        assert Owned(h, {n}, x - FLINK + FLINK);
      } else if x - BLINK in h1.order {
        assert Owned(h, {n}, x - BLINK + BLINK);
      } else if x - SIZE in h1.tags {
        OwnedTag(h, {n}, x - SIZE);
      } else if x - PRECEDING in h1.tags {
        OwnedTag(h, {n}, x - PRECEDING);
      }
    }
  }

  lemma TakeShrinks(h: Heap, n: Addr)
    requires NoDup(h.order) && n in h.order
    ensures forall m :: m in Take(h, n).order ==> m in h.order
  {
    WithoutMembers(h.order, n);
  }

  /** Merging neither lists new nodes nor creates new boundary tags. */
  lemma ForwardShrinks(h: Heap, n: Addr)
    requires Detached(h, n)
    ensures forall m :: m in Forward(h, n).order ==> m in h.order
    ensures forall a :: a in Forward(h, n).tags ==> a in h.tags
  {
    InnerNext(h, n);
    var next := n + h.tags[n].size;
    if h.tags[next].alloc {
      ForwardIdle(h, n);
    } else {
      ForwardFree(h, n, next);
      TakeShrinks(h, next);
    }
  }

  lemma BackwardShrinks(h: Heap, n: Addr)
    requires Detached(h, n)
    ensures forall m :: m in Backward(h, n).order ==> m in h.order
    ensures forall a :: a in Backward(h, n).tags ==> a in h.tags
    ensures BackNode(h, n) == n || BackNode(h, n) in h.order
  {
    InnerNext(h, n);
    var prev := n - h.tags[n].prec;
    if h.tags[prev].alloc {
      BackwardIdle(h, n);
    } else {
      BackwardFree(h, n, prev);
      TakeShrinks(h, prev);
    }
  }

  /** All words `mm_free` writes were its own, or in the block it frees. */
  lemma FreeFrame(h: Heap, n: Addr, mem0: Memory, mem1: Memory, mem2: Memory, mem3: Memory, mem4: Memory)
    requires Inv(h) && Live(h, n)
    requires n + PRECEDING in mem1 && mem1 == mem0[n + PRECEDING := mem1[n + PRECEDING]]
    requires Detached(Release(h, n), n) && Detached(Forward(Release(h, n), n), n)
    requires OnlyMerge(mem1, mem2, Release(h, n))
    requires OnlyMerge(mem2, mem3, Forward(Release(h, n), n))
    requires var h2 := Forward(Release(h, n), n);
             OnlyLinks(mem3, mem4, Backward(h2, n).order + [BackNode(h2, n)])
    ensures OnlyOwned(mem0, mem4, h, {n})
  {
    var h1 := Release(h, n);
    var h2 := Forward(h1, n);
    ForwardShrinks(h1, n);
    MergesOwned(h, n, h1, h2, mem0, mem1, mem2, mem3);
    InsertionOwned(h, n, h2, mem3, mem4);
    OnlyOwnedTransitive(mem0, mem3, mem4, h, {n});
  }

  lemma MergesOwned(h: Heap, n: Addr, h1: Heap, h2: Heap, mem0: Memory, mem1: Memory, mem2: Memory, mem3: Memory)
    requires Inv(h) && Live(h, n) && n + PRECEDING in mem1
    requires mem1 == mem0[n + PRECEDING := mem1[n + PRECEDING]]
    requires OnlyMerge(mem1, mem2, h1) && OnlyMerge(mem2, mem3, h2)
    requires Within(h1, h) && Within(h2, h)
    ensures OnlyOwned(mem0, mem3, h, {n})
  {
    OwnedTag(h, {n}, n);
    OwnedWrite(mem0, h, {n}, n + PRECEDING, mem1[n + PRECEDING]);
    OnlyMergeOwned(mem1, mem2, h, h1, n);
    OnlyOwnedTransitive(mem0, mem1, mem2, h, {n});
    OnlyMergeOwned(mem2, mem3, h, h2, n);
    OnlyOwnedTransitive(mem0, mem2, mem3, h, {n});
  }

  /** The list nodes and boundary tags of `h1` are among those of `h`. */
  ghost predicate Within(h1: Heap, h: Heap) {
    && (forall m :: m in h1.order ==> m in h.order)
    && (forall a :: a in h1.tags ==> a in h.tags)
  }

  lemma InsertionOwned(h: Heap, n: Addr, h2: Heap, mem3: Memory, mem4: Memory)
    requires Inv(h) && Live(h, n) && Detached(h2, n) && Within(h2, h)
    requires OnlyLinks(mem3, mem4, Backward(h2, n).order + [BackNode(h2, n)])
    ensures OnlyOwned(mem3, mem4, h, {n})
  {
    BackwardShrinks(h2, n);
    var nodes := Backward(h2, n).order + [BackNode(h2, n)];
    assert forall m :: m in nodes ==> m in h.order || m == n;
    NodesOwned(h, n, nodes);
    OnlyLinksOwned(mem3, mem4, h, {n}, nodes);
  }

  lemma NodesOwned(h: Heap, n: Addr, nodes: seq<Addr>)
    requires Inv(h) && Live(h, n) && forall m :: m in nodes ==> m in h.order || m == n
    ensures forall m :: m in nodes ==> Owned(h, {n}, m + FLINK) && Owned(h, {n}, m + BLINK)
  {
    OrderOwned(h, {n});
    InnerNext(h, n);
    TagIsWord(h, n);
    FieldsAreWords(n);
    OwnedInside(h, {n}, n, n + FLINK);
    OwnedInside(h, {n}, n, n + BLINK);
  }

  /** What the walk of `mm_mallinfo` knows when it stands at `node`. */
  ghost predicate Counted(h: Heap, node: Addr, mx: int, ord: int, uord: int, ford: int) {
    && node in h.tags && h.base <= node <= h.end
    && uord + ford == node - h.base
    && ord + Sum(OneIn(h.tags), FreeWalk(h.tags, node, h.end)) == Sum(OneIn(h.tags), FreeWalk(h.tags, h.base, h.end))
    && ford + Sum(SizeIn(h.tags), FreeWalk(h.tags, node, h.end)) == Sum(SizeIn(h.tags), FreeWalk(h.tags, h.base, h.end))
    && mx >= 0
    && (forall m :: FreeChunk(h, m) && m < node ==> h.tags[m].size <= mx)
    && (mx == 0 || exists m :: FreeChunk(h, m) && h.tags[m].size == mx)
  }

  lemma CountStep(mem: Memory, h: Heap, node: Addr, mx: int, ord: int, uord: int, ford: int)
    requires Inv(h) && Stored(mem, h) && Counted(h, node, mx, ord, uord, ford) && node < h.end
    ensures node + SIZE in mem && node + PRECEDING in mem
    ensures mem[node + SIZE] == h.tags[node].size > 0
    ensures AllocBitOf(mem[node + PRECEDING]) != 0 <==> h.tags[node].alloc
    ensures var size, next := h.tags[node].size, node + h.tags[node].size;
            if h.tags[node].alloc then Counted(h, next, mx, ord, uord + size, ford)
            else Counted(h, next, if size > mx then size else mx, ord + 1, uord, ford + size)
  {
    assert TagStored(mem, h.tags[node], node);
    StepForward(h.tags, h.base, h.end, node);
    var next := node + h.tags[node].size;
    assert Fits(h.tags, h.base, h.end, node);
    if h.base < node {
      PrecBound(h, node);
    }
    WalkUnfolds(h, node);
    forall m | FreeChunk(h, m) && m < next ensures m < node || m == node {
      assert Before(h.tags, node, m);
    }
    if !h.tags[node].alloc {
      assert FreeChunk(h, node);
    }
  }

  lemma WalkUnfolds(h: Heap, node: Addr)
    requires node in h.tags && node < h.end && h.tags[node].size > 0
    ensures var rest := FreeWalk(h.tags, node + h.tags[node].size, h.end);
            forall w :: Sum(w, FreeWalk(h.tags, node, h.end))
                        == (if h.tags[node].alloc then 0 else w(node)) + Sum(w, rest)
  {
    var rest := FreeWalk(h.tags, node + h.tags[node].size, h.end);
    if h.tags[node].alloc {
      assert [] + rest == rest;
    } else {
      assert ([node] + rest)[1..] == rest;
    }
  }

  lemma CountEnd(h: Heap, node: Addr, mx: int, ord: int, uord: int, ford: int)
    requires Inv(h) && Counted(h, node, mx, ord, uord, ford) && node >= h.end
    ensures Describes(HeapInfo(HeapSize(h), ord, mx, uord + SIZEOF_ALLOCNODE, ford), h)
  {
    WalkAgreesWithList(h);
  }

  /** Header words before the last write of a split. */
  lemma SplitHeaders(mem0: Memory, mem: Memory, h: Heap, n: Addr, req: int)
    requires Placed(h.base, h.end, h.nl) && Tiled(h.tags, h.base, h.end) && TagsStored(mem0, h.tags)
    requires Inner(h, n) && n + h.tags[n].size in h.tags
    requires MIN_CHUNK <= req && req + MIN_CHUNK <= h.tags[n].size
    requires mem == mem0[n + req + SIZE := h.tags[n].size - req][n + req + PRECEDING := req][n + SIZE := req]
    ensures var next := n + h.tags[n].size;
            && next + PRECEDING in mem
            && AllocBitOf(mem[next + PRECEDING]) == Encode(0, h.tags[next].alloc)
  {
    var next := n + h.tags[n].size;
    InnerNext(h, n);
    assert TagStored(mem0, h.tags[next], next);
    TagsApart(h, n, next);
  }

  lemma SplitShaped(h: Heap, n: Addr, req: int)
    requires Shaped(h, {n}) && FreeChunk(h, n) && n + h.tags[n].size in h.tags
    requires MIN_CHUNK <= req && req + MIN_CHUNK <= h.tags[n].size
    ensures var h' := h.(tags := SplitTags(h.tags, n, req));
            Shaped(h', {n, n + req}) && FreeChunk(h', n + req) && FreeChunk(h', n)
  {
    InnerNext(h, n);
    SplitTiled(h.tags, h.base, h.end, n, req);
    IndexedFrame(h.tags, SplitTags(h.tags, n, req), h.nl, h.order, {n}, {n, n + req});
  }

  lemma PutShaped(h: Heap, n: Addr, r: Addr)
    requires Shaped(h, {n, r}) && FreeChunk(h, r) && n != r
    ensures Shaped(Put(h, r), {n})
  {
    InnerNext(h, r);
    HeadNotInner(h, r);
    assert {n} + {r} == {n, r};
    PutIndexedBeside(h.tags, h.nl, h.order, {n}, r);
  }

  /** A split writes four header words, and links of listed nodes and of the remainder. */
  ghost predicate OnlySplit(mem: Memory, mem': Memory, h: Heap, n: Addr, req: int)
    requires n in h.tags
  {
    forall x {:trigger SameAt(mem, mem', x)} ::
      || x - FLINK in h.order || x - BLINK in h.order
      || (n <= x < n + h.tags[n].size && IsWord(x - n))
      || x == n + h.tags[n].size + PRECEDING
      || SameAt(mem, mem', x)
  }

  lemma SplitFrame(mem0: Memory, mem1: Memory, mem2: Memory, h: Heap, n: Addr, req: int)
    requires n in h.tags && n + h.tags[n].size in h.tags
    requires MIN_CHUNK <= req && req + MIN_CHUNK <= h.tags[n].size && IsWord(req)
    requires mem1 == SplitWrites(mem0, h.tags, n, req)
    requires OnlyLinks(mem1, mem2, h.order + [n + req])
    ensures OnlySplit(mem0, mem2, h, n, req)
  {
    FieldsAreWords(req);
    FourTimes(n - n, 0);
    forall x {:trigger SameAt(mem0, mem2, x)}
      ensures || x - FLINK in h.order || x - BLINK in h.order
              || (n <= x < n + h.tags[n].size && IsWord(x - n))
              || x == n + h.tags[n].size + PRECEDING
              || SameAt(mem0, mem2, x)
    {
      assert SameAt(mem1, mem2, x) || x - FLINK in h.order + [n + req] || x - BLINK in h.order + [n + req];
    }
  }

  /** Positions whose node `mm_malloc` passes over. */
  ghost predicate Unfit(h: Heap, req: int, t: int)
    requires 0 <= t < |h.order|
  {
    IsHead(h.nl, h.order[t]) || h.order[t] !in h.tags || h.tags[h.order[t]].size < req
  }

  lemma LowRankUnfit(h: Heap, d: set<Addr>, req: int, t: int)
    requires Shaped(h, d) && 0 <= t < |h.order| && Rank(h.tags, h.nl, h.order[t]) < 2 * req
    ensures Unfit(h, req, t)
  {
    ListedInner(h, d, h.order[t]);
  }

  /** The scan stands at `node`, position `j`, and has passed over unfit nodes only. */
  ghost predicate Scanning(mem: Memory, h: Heap, req: int, j: nat, node: Addr) {
    && 0 < j <= |h.order|
    && Cursor(mem, h.order, j, h.order[j - 1], node)
    && forall t :: 0 <= t < j ==> Unfit(h, req, t)
  }

  lemma SearchStart(mem: Memory, h: Heap, req: int, ndx: nat) returns (j: nat)
    requires Inv(h) && Stored(mem, h) && req >= MIN_CHUNK
    requires ndx == BucketOf(req) && ndx < NNODES
    ensures Head(h.nl, ndx) + FLINK in mem
    ensures Scanning(mem, h, req, j, mem[Head(h.nl, ndx) + FLINK])
  {
    j := SlotStart(mem, h, {}, req, ndx);
    forall t | 0 <= t < j ensures Unfit(h, req, t) {
      LowRankUnfit(h, {}, req, t);
    }
  }

  lemma SearchStep(mem: Memory, h: Heap, req: int, j: nat, node: Addr)
    requires Inv(h) && Stored(mem, h) && Scanning(mem, h, req, j, node)
    requires node != 0 && mem[node + SIZE] < req
    ensures node + FLINK in mem
    ensures Scanning(mem, h, req, j + 1, mem[node + FLINK])
  {
    NodeAt(mem, h, {}, j);
    CursorAt(mem, h, {}, j + 1);
    assert Unfit(h, req, j);
  }

  lemma SearchEnd(mem: Memory, h: Heap, req: int, j: nat, node: Addr)
    requires Inv(h) && Stored(mem, h) && req >= MIN_CHUNK && Scanning(mem, h, req, j, node)
    requires node == 0 || mem[node + SIZE] >= req
    ensures j == FirstFit(h.tags, h.nl, h.order, req)
    ensures node == if j < |h.order| then h.order[j] else 0
    ensures node == 0 <==> j == |h.order|
  {
    if j < |h.order| {
      NodeAt(mem, h, {}, j);
    }
    forall i | 0 <= i < j
      ensures !(!IsHead(h.nl, h.order[i]) && h.order[i] in h.tags && h.tags[h.order[i]].size >= req)
    {
      assert Unfit(h, req, i);
    }
    FirstFitIs(h.tags, h.nl, h.order, req, j);
  }

  /** `prev` and `next` are the neighbours of position `j`, and can be read. */
  ghost predicate Cursor(mem: Memory, order: seq<Addr>, j: nat, prev: Addr, next: Addr) {
    && 0 < j <= |order|
    && prev == order[j - 1]
    && next == NextOf(order, j - 1)
    && (next != 0 <==> j < |order|)
    && (next != 0 ==> next + SIZE in mem && next + FLINK in mem)
  }

  lemma CursorAt(mem: Memory, h: Heap, d: set<Addr>, j: nat)
    requires Shaped(h, d) && Stored(mem, h) && 0 < j <= |h.order|
    ensures h.order[j - 1] + FLINK in mem
    ensures Cursor(mem, h.order, j, h.order[j - 1], mem[h.order[j - 1] + FLINK])
  {
    NodeAt(mem, h, d, j - 1);
    if j < |h.order| {
      NodeAt(mem, h, d, j);
    }
  }

  lemma ChunkSize(mem: Memory, h: Heap, d: set<Addr>, n: Addr)
    requires Shaped(h, d) && Stored(mem, h) && FreeChunk(h, n)
    ensures n + SIZE in mem && mem[n + SIZE] == h.tags[n].size >= MIN_CHUNK
    ensures Rank(h.tags, h.nl, n) == 2 * h.tags[n].size
  {
    InnerNext(h, n);
    HeadNotInner(h, n);
    assert TagStored(mem, h.tags[n], n);
  }

  /** The scan stands between `prev` and `next` and has passed over nodes of lower rank only. */
  ghost predicate Slotting(mem: Memory, h: Heap, size: int, ndx: int, j: nat, prev: Addr, next: Addr) {
    && Cursor(mem, h.order, j, prev, next)
    && IndexOf(h.order, Head(h.nl, ndx)) < j
    && forall t :: 0 <= t < j ==> Rank(h.tags, h.nl, h.order[t]) < 2 * size
  }

  /** Starting behind the head of the right bucket skips only nodes of lower rank. */
  lemma SlotStart(mem: Memory, h: Heap, d: set<Addr>, size: int, ndx: nat) returns (j: nat)
    requires Shaped(h, d) && Stored(mem, h) && size >= MIN_CHUNK && ndx == BucketOf(size) && ndx < NNODES
    ensures Head(h.nl, ndx) + FLINK in mem
    ensures Slotting(mem, h, size, ndx, j, Head(h.nl, ndx), mem[Head(h.nl, ndx) + FLINK])
  {
    HeadRankVersusSize(ndx, size);
    HeadAt(h, d, ndx);
    j := IndexOf(h.order, Head(h.nl, ndx)) + 1;
    CursorAt(mem, h, d, j);
  }

  lemma SlotStep(mem: Memory, h: Heap, d: set<Addr>, size: int, ndx: nat, j: nat, prev: Addr, next: Addr)
    requires Shaped(h, d) && Stored(mem, h) && Slotting(mem, h, size, ndx, j, prev, next)
    requires next != 0 && 0 != mem[next + SIZE] < size
    ensures next + FLINK in mem
    ensures Slotting(mem, h, size, ndx, j + 1, next, mem[next + FLINK])
  {
    RankAt(mem, h, d, j);
    CursorAt(mem, h, d, j + 1);
    SlotsOneMore(mem, h, size, ndx, j, prev, next);
  }

  /** A node whose stored size is not 0 ranks by that size. */
  lemma RankAt(mem: Memory, h: Heap, d: set<Addr>, j: nat)
    requires Shaped(h, d) && Stored(mem, h) && j < |h.order|
    requires h.order[j] + SIZE in mem && mem[h.order[j] + SIZE] != 0
    ensures Rank(h.tags, h.nl, h.order[j]) == 2 * mem[h.order[j] + SIZE]
  {
    NodeAt(mem, h, d, j);
  }

  lemma SlotsOneMore(mem: Memory, h: Heap, size: int, ndx: nat, j: nat, prev: Addr, next: Addr)
    requires Slotting(mem, h, size, ndx, j, prev, next) && next != 0 && next + FLINK in mem
    requires Rank(h.tags, h.nl, next) < 2 * size
    requires Cursor(mem, h.order, j + 1, next, mem[next + FLINK])
    ensures Slotting(mem, h, size, ndx, j + 1, next, mem[next + FLINK])
  {
    assert next == h.order[j];
  }

  lemma SlotEnd(mem: Memory, h: Heap, d: set<Addr>, size: int, ndx: nat, j: nat, prev: Addr, next: Addr)
    requires Shaped(h, d) && Stored(mem, h) && size >= MIN_CHUNK && ndx == BucketOf(size) && ndx < NNODES
    requires Slotting(mem, h, size, ndx, j, prev, next)
    requires next == 0 || mem[next + SIZE] == 0 || mem[next + SIZE] >= size
    ensures j < |h.order| ==> Rank(h.tags, h.nl, h.order[j]) >= 2 * size
  {
    if j < |h.order| {
      NodeAt(mem, h, d, j);
      if IsHead(h.nl, next) {
        var k := LaterHead(h, d, ndx, j);
        HeadRankVersusSize(k, size);
      }
    }
  }

  /** Storing the links of a newly placed node. */
  lemma InsertLinks(mem: Memory, h: Heap, d: set<Addr>, j: nat, n: Addr)
    requires Shaped(h, d) && Stored(mem, h) && FreeChunk(h, n) && n in d && 0 < j <= |h.order|
    ensures Stored(LinkWrites(mem, h.order, j, n), h.(order := InsertAt(h.order, j, n)))
    ensures OnlyLinks(mem, LinkWrites(mem, h.order, j, n), h.order + [n])
  {
    HeadNotInner(h, n);
    assert Listed(h.tags, h.nl, h.order, d, n);
    ShapedApart(h, d, h.order + [n]);
    LinkStoredAfter(mem, h.order, j, n);
    LinksMissTags(mem, LinkWrites(mem, h.order, j, n), h, d, h.order + [n]);
  }
}
