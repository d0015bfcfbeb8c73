/** Constants, alignment and bucket arithmetic of the heap allocator (32-bit build). */
module MmConfig {
  import opened Basics

  const MIN_CHUNK: int := 16
  const MAX_CHUNK: int := 0x40_0000
  const NNODES: int := 19
  const GRAN_MASK: int := 15
  const ALLOC_BIT: int := 0x8000_0000
  const SIZEOF_ALLOCNODE: int := 8
  const SIZEOF_FREENODE: int := 16
  const WORD_MODULUS: int := 0x1_0000_0000
  const WORD_BYTES: int := 4

  function Words(k: int): int {
    WORD_BYTES * k
  }

  /** A multiple of the word size. */
  ghost predicate IsWord(x: int) {
    exists k {:trigger Words(k)} :: x == Words(k)
  }

  lemma WordIsMultiple(x: int)
    ensures IsWord(x) <==> x % WORD_BYTES == 0
  {
    if x % WORD_BYTES == 0 {
      assert x == Words(x / WORD_BYTES);
    }
  }

  lemma WordsAdd(x: int, y: int)
    requires IsWord(x) && IsWord(y)
    ensures IsWord(x + y)
  {
    var j :| x == Words(j);
    var k :| y == Words(k);
    assert x + y == Words(j + k);
  }

  // Byte offsets of the fields of a node; allocated nodes only own the first two.
  const SIZE: int := 0
  const PRECEDING: int := 4
  const FLINK: int := 8
  const BLINK: int := 12

  /** Addition of 32-bit unsigned words. */
  function Add32(a: int, b: int): int {
    (a + b) % WORD_MODULUS
  }

  /** `a & ~GRAN_MASK` on a 32-bit word. */
  function AlignDown(a: int): int {
    a - a % MIN_CHUNK
  }

  /** `(a + GRAN_MASK) & ~GRAN_MASK` on a 32-bit word, wrap-around included. */
  function AlignUp(a: int): int {
    AlignDown(Add32(a, GRAN_MASK))
  }

  /** The chunk size `mm_malloc` derives from a request. */
  function Rounded(size: int): int {
    AlignUp(Add32(size, SIZEOF_ALLOCNODE))
  }

  /** Requests for which the rounding does not wrap. */
  predicate Representable(size: int) {
    0 <= size <= WORD_MODULUS - SIZEOF_ALLOCNODE - GRAN_MASK - 1
  }

  /** Requests that are not rounded to a chunk of no bytes. */
  predicate Grantable(size: int) {
    Representable(size) || WORD_MODULUS - SIZEOF_ALLOCNODE < size < WORD_MODULUS
  }

  /**
   * The rounded chunk holds header and payload exactly when the rounding does not wrap; then it
   * is the smallest granule multiple that does. Of the others, those up to 2^32 - 8 become 0 and
   * the last seven become one granule.
   */
  lemma RoundedCoversRequest(size: int)
    requires 0 <= size < WORD_MODULUS
    ensures Rounded(size) % MIN_CHUNK == 0
    ensures Rounded(size) >= size + SIZEOF_ALLOCNODE <==> Representable(size)
    ensures Representable(size) ==>
              && MIN_CHUNK <= Rounded(size) < WORD_MODULUS
              && Rounded(size) < size + SIZEOF_ALLOCNODE + MIN_CHUNK
    ensures !Representable(size) ==> Rounded(size) == if Grantable(size) then MIN_CHUNK else 0
  {
    var s := Add32(size, SIZEOF_ALLOCNODE);
    var t := Add32(s, GRAN_MASK);
    assert Rounded(size) == t - t % 16;
    if size + 23 < WORD_MODULUS {
      assert s == size + 8 && t == size + 23;
    } else if size + 8 < WORD_MODULUS {
      assert s == size + 8 && t == size + 23 - WORD_MODULUS;
    } else {
      assert s == size + 8 - WORD_MODULUS && t == size + 23 - WORD_MODULUS;
    }
  }

  function Log2(n: int): nat
    decreases n
  {
    if n <= 1 then 0 else 1 + Log2(n / 2)
  }

  lemma {:induction false} Log2Bounds(n: int)
    requires n >= 1
    ensures Pow2(Log2(n)) <= n < Pow2(Log2(n) + 1)
    decreases n
  {
    if n > 1 {
      Log2Bounds(n / 2);
    }
  }

  /** The bucket a chunk of the given size belongs to. */
  function BucketOf(size: int): nat {
    if size >= MAX_CHUNK then NNODES - 1 else Log2(size / MIN_CHUNK)
  }

  lemma Pow2Of22()
    ensures Pow2(22) == MAX_CHUNK
  {
    assert Pow2(10) == 1024;
    assert Pow2(20) == 1024 * Pow2(10);
  }

  lemma {:induction false} Pow2Shift4(n: nat)
    ensures Pow2(n + 4) == 16 * Pow2(n)
  {
    assert Pow2(n + 4) == 2 * Pow2(n + 3) == 4 * Pow2(n + 2) == 8 * Pow2(n + 1);
  }

  /** Bucket k holds the sizes in [2^(k+4), 2^(k+5)); the last bucket is open above. */
  lemma BucketBounds(size: int)
    requires size >= MIN_CHUNK
    ensures 0 <= BucketOf(size) < NNODES
    ensures Pow2(BucketOf(size) + 4) <= size
    ensures BucketOf(size) == NNODES - 1 <==> size >= MAX_CHUNK
    ensures size < MAX_CHUNK ==> size < Pow2(BucketOf(size) + 5)
  {
    Pow2Of22();
    if size < MAX_CHUNK {
      var q := size / 16;
      Log2Bounds(q);
      var k := Log2(q);
      Pow2Shift4(k);
      Pow2Shift4(k + 1);
      if k >= 18 {
        Pow2Monotone(22, k + 4);
        assert false;
      }
    }
  }

  /** The shifting loop of `mm_size2ndx`. */
  method Size2Ndx(size: int) returns (ndx: int)
    requires size >= 0
    ensures ndx == BucketOf(size)
    ensures size < 2 * MIN_CHUNK ==> ndx == 0
    ensures 0 <= ndx < NNODES
  {
    if size >= MAX_CHUNK {
      return NNODES - 1;
    }
    ndx := 0;
    var rest := size / 16;
    while rest > 1
      invariant rest >= 0 && ndx >= 0
      invariant ndx + Log2(rest) == Log2(size / 16)
    {
      ndx := ndx + 1;
      rest := rest / 2;
    }
    if size >= 16 {
      BucketBounds(size);
    }
  }
}
