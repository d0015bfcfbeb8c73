/**
 * The index view of the heap: one free list, threaded through the zero-sized bucket heads
 * `mm_nodelist[0..19)`. The list is a sequence of node addresses sorted by `Rank`, which puts
 * a bucket head just below the smallest size of its bucket.
 */
module MmIndex {
  import opened Basics
  import opened MmConfig
  import opened MmLayout

  // ----- sequences without repetition

  lemma InsertMembers<T>(s: seq<T>, i: nat, x: T)
    requires i <= |s|
    ensures forall y :: y in InsertAt(s, i, x) <==> y == x || y in s
    ensures NoDup(s) && x !in s ==> NoDup(InsertAt(s, i, x))
    ensures RemoveAt(InsertAt(s, i, x), i) == s
  {
    var t := InsertAt(s, i, x);
    assert t[i] == x;
    forall y | y in s ensures y in t {
      var j :| 0 <= j < |s| && s[j] == y;
      assert t[if j < i then j else j + 1] == y;
    }
  }

  lemma RemoveMembers<T>(s: seq<T>, i: nat)
    requires i < |s| && NoDup(s)
    ensures NoDup(RemoveAt(s, i))
    ensures forall y :: y in RemoveAt(s, i) <==> y in s && y != s[i]
    ensures InsertAt(RemoveAt(s, i), i, s[i]) == s
  {
    var t := RemoveAt(s, i);
    forall y | y in s && y != s[i] ensures y in t {
      var j :| 0 <= j < |s| && s[j] == y;
      assert t[if j < i then j else j - 1] == y;
    }
  }

  /** Position of the first occurrence of `x`, or the length. */
  function IndexOf<T(==)>(s: seq<T>, x: T): (i: nat)
    ensures i <= |s|
    ensures x !in s[..i]
    ensures i < |s| ==> s[i] == x
    ensures i == |s| <==> x !in s
  {
    if s == [] then 0
    else if s[0] == x then 0
    else
      var i := 1 + IndexOf(s[1..], x);
      assert s[..i] == [s[0]] + s[1..][..i - 1];
      i
  }

  /** Unlinks one node. */
  function Without<T(==)>(s: seq<T>, x: T): seq<T> {
    var i := IndexOf(s, x);
    if i < |s| then RemoveAt(s, i) else s
  }

  lemma WithoutAt<T>(s: seq<T>, i: nat)
    requires NoDup(s) && i < |s|
    ensures IndexOf(s, s[i]) == i && Without(s, s[i]) == RemoveAt(s, i)
  {
    var j := IndexOf(s, s[i]);
    assert forall k :: 0 <= k < j ==> s[k] == s[..j][k];
  }

  lemma WithoutMembers<T>(s: seq<T>, x: T)
    requires NoDup(s) && x in s
    ensures NoDup(Without(s, x))
    ensures forall y :: y in Without(s, x) <==> y in s && y != x
  {
    RemoveMembers(s, IndexOf(s, x));
  }

  // ----- bucket heads and ranks

  function Head(nl: Addr, k: int): Addr {
    nl + 16 * k
  }

  predicate IsHead(nl: Addr, n: Addr) {
    nl <= n < nl + 16 * NNODES && (n - nl) % 16 == 0
  }

  function HeadRank(k: nat): int {
    2 * Pow2(k + 4) - 1
  }

  /** Sort key of the free list: bucket head k falls just below the sizes of bucket k. */
  function Rank(tags: Tags, nl: Addr, n: Addr): int {
    if IsHead(nl, n) then HeadRank((n - nl) / 16)
    else if n in tags then 2 * tags[n].size
    else 0
  }

  lemma RankOfHead(tags: Tags, nl: Addr, k: nat)
    requires k < NNODES
    ensures IsHead(nl, Head(nl, k))
    ensures Rank(tags, nl, Head(nl, k)) == HeadRank(k)
  {
  }

  /** A head ranks below a chunk exactly when it is the head of the chunk's bucket or an earlier one. */
  lemma HeadRankVersusSize(k: nat, size: int)
    requires k < NNODES && size >= MIN_CHUNK
    ensures HeadRank(k) != 2 * size
    ensures HeadRank(k) < 2 * size <==> k <= BucketOf(size)
  {
    BucketBounds(size);
    var b := BucketOf(size);
    if k <= b {
      Pow2Monotone(k + 4, b + 4);
    } else {
      Pow2Monotone(b + 5, k + 4);
    }
  }

  lemma HeadRankMonotone(j: nat, k: nat)
    ensures HeadRank(j) < HeadRank(k) <==> j < k
  {
    if j < k {
      Pow2Monotone(j + 4, k + 4);
    } else {
      Pow2Monotone(k + 4, j + 4);
    }
  }

  ghost predicate Sorted(tags: Tags, nl: Addr, s: seq<Addr>) {
    forall i, j :: 0 <= i < j < |s| ==> Rank(tags, nl, s[i]) <= Rank(tags, nl, s[j])
  }

  /** Lower rank means earlier in the list. */
  lemma SortedOrder(tags: Tags, nl: Addr, s: seq<Addr>, i: nat, j: nat)
    requires Sorted(tags, nl, s) && i < |s| && j < |s| && Rank(tags, nl, s[i]) < Rank(tags, nl, s[j])
    ensures i < j
  {
  }

  /** Number of leading nodes that rank below `r`. */
  function LowerBound(tags: Tags, nl: Addr, s: seq<Addr>, r: int): (p: nat)
    ensures p <= |s|
  {
    if s == [] || Rank(tags, nl, s[0]) >= r then 0
    else 1 + LowerBound(tags, nl, s[1..], r)
  }

  /** In a sorted list the lower bound is the only position that separates the ranks at `r`. */
  lemma {:induction false} LowerBoundIs(tags: Tags, nl: Addr, s: seq<Addr>, r: int, p: nat)
    requires p <= |s|
    requires forall i :: 0 <= i < p ==> Rank(tags, nl, s[i]) < r
    requires p < |s| ==> Rank(tags, nl, s[p]) >= r
    ensures LowerBound(tags, nl, s, r) == p
  {
    if p > 0 {
      LowerBoundIs(tags, nl, s[1..], r, p - 1);
    }
  }

  lemma {:induction false} LowerBoundSeparates(tags: Tags, nl: Addr, s: seq<Addr>, r: int)
    requires Sorted(tags, nl, s)
    ensures forall i :: 0 <= i < LowerBound(tags, nl, s, r) ==> Rank(tags, nl, s[i]) < r
    ensures forall i :: LowerBound(tags, nl, s, r) <= i < |s| ==> Rank(tags, nl, s[i]) >= r
  {
    if s != [] && Rank(tags, nl, s[0]) < r {
      LowerBoundSeparates(tags, nl, s[1..], r);
      assert forall i :: 1 <= i < |s| ==> s[i] == s[1..][i - 1];
    }
  }

  /** Changing tags of chunks that are not listed keeps the order. */
  lemma SortedFrame(tags: Tags, tags': Tags, nl: Addr, s: seq<Addr>)
    requires Sorted(tags, nl, s)
    requires forall i :: 0 <= i < |s| ==> Rank(tags', nl, s[i]) == Rank(tags, nl, s[i])
    ensures Sorted(tags', nl, s)
  {
  }

  lemma {:induction false} LowerBoundFrame(tags: Tags, tags': Tags, nl: Addr, s: seq<Addr>, r: int)
    requires forall i :: 0 <= i < |s| ==> Rank(tags', nl, s[i]) == Rank(tags, nl, s[i])
    ensures LowerBound(tags', nl, s, r) == LowerBound(tags, nl, s, r)
  {
    if s != [] {
      LowerBoundFrame(tags, tags', nl, s[1..], r);
    }
  }

  lemma SortedRemove(tags: Tags, nl: Addr, s: seq<Addr>, i: nat)
    requires Sorted(tags, nl, s) && i < |s|
    ensures Sorted(tags, nl, RemoveAt(s, i))
  {
  }

  lemma SortedInsert(tags: Tags, nl: Addr, s: seq<Addr>, n: Addr)
    requires Sorted(tags, nl, s)
    ensures Sorted(tags, nl, InsertAt(s, LowerBound(tags, nl, s, Rank(tags, nl, n)), n))
  {
    var r := Rank(tags, nl, n);
    LowerBoundSeparates(tags, nl, s, r);
    var p := LowerBound(tags, nl, s, r);
    var t := InsertAt(s, p, n);
    forall i, j | 0 <= i < j < |t| ensures Rank(tags, nl, t[i]) <= Rank(tags, nl, t[j]) {
      assert t[i] == (if i < p then s[i] else if i == p then n else s[i - 1]);
      assert t[j] == (if j < p then s[j] else if j == p then n else s[j - 1]);
    }
  }

  /** Two strictly sorted lists with the same members are equal. */
  lemma {:induction false} StrictlySortedUnique(tags: Tags, nl: Addr, s: seq<Addr>, t: seq<Addr>)
    requires StrictlySorted(tags, nl, s) && StrictlySorted(tags, nl, t)
    requires forall x :: x in s <==> x in t
    ensures s == t
    decreases |s|
  {
    if s == [] {
      assert forall i :: 0 <= i < |t| ==> t[i] in t;
    } else {
      assert s[0] in s && s[0] in t;
      assert t[0] in t && t[0] in s;
      assert s[0] == t[0];
      forall x ensures x in s[1..] <==> x in t[1..] {
        assert x in s <==> x == s[0] || x in s[1..];
        assert x in t <==> x == t[0] || x in t[1..];
      }
      StrictlySortedUnique(tags, nl, s[1..], t[1..]);
      assert s == [s[0]] + s[1..] && t == [t[0]] + t[1..];
    }
  }

  ghost predicate StrictlySorted(tags: Tags, nl: Addr, s: seq<Addr>) {
    forall i, j :: 0 <= i < j < |s| ==> Rank(tags, nl, s[i]) < Rank(tags, nl, s[j])
  }

  /**
   * Position of the first chunk of at least `req` bytes, skipping bucket heads; the length if
   * there is none. This is the naive scan from the very front of the list.
   */
  function FirstFit(tags: Tags, nl: Addr, s: seq<Addr>, req: int): (p: nat)
    ensures p <= |s|
    ensures forall i :: 0 <= i < p ==> !(!IsHead(nl, s[i]) && s[i] in tags && tags[s[i]].size >= req)
    ensures p < |s| ==> !IsHead(nl, s[p]) && s[p] in tags && tags[s[p]].size >= req
  {
    if s == [] then 0
    else if !IsHead(nl, s[0]) && s[0] in tags && tags[s[0]].size >= req then 0
    else 1 + FirstFit(tags, nl, s[1..], req)
  }

  lemma {:induction false} FirstFitIs(tags: Tags, nl: Addr, s: seq<Addr>, req: int, p: nat)
    requires p <= |s|
    requires forall i :: 0 <= i < p ==> !(!IsHead(nl, s[i]) && s[i] in tags && tags[s[i]].size >= req)
    requires p < |s| ==> !IsHead(nl, s[p]) && s[p] in tags && tags[s[p]].size >= req
    ensures FirstFit(tags, nl, s, req) == p
  {
    if 0 < p {
      FirstFitIs(tags, nl, s[1..], req, p - 1);
    }
  }

  // ----- the index agrees with the tags

  /** `n` is on the list exactly when it is a bucket head or a free chunk outside `d`. */
  ghost predicate Listed(tags: Tags, nl: Addr, order: seq<Addr>, d: set<Addr>, n: Addr) {
    n in order <==> IsHead(nl, n) || (n in tags && !tags[n].alloc && n !in d)
  }

  /** The list holds the bucket heads and the free chunks outside `d`, each once, by rank. */
  ghost predicate Indexed(tags: Tags, nl: Addr, order: seq<Addr>, d: set<Addr>) {
    && NoDup(order)
    && 0 < |order| && order[0] == nl
    && (forall n {:trigger Listed(tags, nl, order, d, n)} :: Listed(tags, nl, order, d, n))
    && Sorted(tags, nl, order)
  }

  lemma TakeIndexed(tags: Tags, nl: Addr, order: seq<Addr>, d: set<Addr>, n: Addr)
    requires Indexed(tags, nl, order, d) && n in order && !IsHead(nl, n)
    ensures Indexed(tags, nl, Without(order, n), d + {n})
  {
    WithoutMembers(order, n);
    SortedRemove(tags, nl, order, IndexOf(order, n));
    forall m {:trigger Listed(tags, nl, Without(order, n), d + {n}, m)}
      ensures Listed(tags, nl, Without(order, n), d + {n}, m)
    {
      assert Listed(tags, nl, order, d, m);
    }
  }

  /** Changes that keep the set of listed chunks and their sizes keep the index. */
  lemma IndexedFrame(tags: Tags, tags': Tags, nl: Addr, order: seq<Addr>, d: set<Addr>, d': set<Addr>)
    requires Indexed(tags, nl, order, d)
    requires forall n :: n in tags && !tags[n].alloc && n !in d ==>
                           n in tags' && !tags'[n].alloc && n !in d' && tags'[n].size == tags[n].size
    requires forall n :: n in tags' && !tags'[n].alloc && n !in d' ==>
                           n in tags && !tags[n].alloc && n !in d
    ensures Indexed(tags', nl, order, d')
  {
    forall i | 0 <= i < |order| ensures Rank(tags', nl, order[i]) == Rank(tags, nl, order[i]) {
      assert Listed(tags, nl, order, d, order[i]);
    }
    SortedFrame(tags, tags', nl, order);
    forall n {:trigger Listed(tags', nl, order, d', n)} ensures Listed(tags', nl, order, d', n) {
      assert Listed(tags, nl, order, d, n);
    }
  }

  /** Listing `n` while the chunks in `d` stay off the list. */
  lemma PutIndexedBeside(tags: Tags, nl: Addr, order: seq<Addr>, d: set<Addr>, n: Addr)
    requires Indexed(tags, nl, order, d + {n}) && n !in d
    requires n in tags && !tags[n].alloc && tags[n].size >= MIN_CHUNK && !IsHead(nl, n)
    ensures Indexed(tags, nl, InsertAt(order, LowerBound(tags, nl, order, Rank(tags, nl, n)), n), d)
  {
    var r := Rank(tags, nl, n);
    var p := LowerBound(tags, nl, order, r);
    assert Listed(tags, nl, order, d + {n}, n);
    InsertMembers(order, p, n);
    SortedInsert(tags, nl, order, n);
    assert p > 0 by {
      RankOfHead(tags, nl, 0);
      BucketBounds(tags[n].size);
      HeadRankVersusSize(0, tags[n].size);
    }
    var order' := InsertAt(order, p, n);
    forall m {:trigger Listed(tags, nl, order', d, m)} ensures Listed(tags, nl, order', d, m) {
      assert Listed(tags, nl, order, d + {n}, m);
    }
  }

  lemma PutIndexed(tags: Tags, nl: Addr, order: seq<Addr>, n: Addr)
    requires Indexed(tags, nl, order, {n})
    requires n in tags && !tags[n].alloc && tags[n].size >= MIN_CHUNK && !IsHead(nl, n)
    ensures Indexed(tags, nl, InsertAt(order, LowerBound(tags, nl, order, Rank(tags, nl, n)), n), {})
  {
    assert {} + {n} == {n};
    PutIndexedBeside(tags, nl, order, {}, n);
  }
}
