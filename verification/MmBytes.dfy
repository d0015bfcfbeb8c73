/** Word memory and the bytes in it: 32-bit little-endian words at addresses divisible by four. */
module MmBytes {
  import opened MmConfig
  import opened MmLayout

  /** Contents of 32-bit words, keyed by the address of their first byte. */
  type Memory = map<Addr, int>

  function WordAt(mem: Memory, w: Addr): int {
    if w in mem then mem[w] else 0
  }

  /** The word that byte `b` is part of. */
  function WordOf(b: Addr): Addr {
    b - b % WORD_BYTES
  }

  /** The weight of a byte within its word. */
  function Weight(b: Addr): int {
    var i := b % WORD_BYTES;
    if i == 0 then 1 else if i == 1 then 0x100 else if i == 2 then 0x1_0000 else 0x100_0000
  }

  function ByteAt(mem: Memory, b: Addr): int {
    WordAt(mem, WordOf(b)) / Weight(b) % 0x100
  }

  /** Storing the byte `v` at `b`. */
  function WithByte(mem: Memory, b: Addr, v: int): Memory {
    mem[WordOf(b) := WordAt(mem, WordOf(b)) + (v - ByteAt(mem, b)) * Weight(b)]
  }

  /** A byte store changes that byte alone. */
  lemma WithByteChangesOne(mem: Memory, b: Addr, v: int, c: Addr)
    requires 0 <= v < 0x100
    ensures ByteAt(WithByte(mem, b, v), c) == if c == b then v else ByteAt(mem, c)
  {
    if WordOf(c) == WordOf(b) {
      SameByte(b, c);
      DigitReplaced(WordAt(mem, WordOf(b)), Weight(b), v, Weight(c));
    }
  }

  lemma SameByte(b: Addr, c: Addr)
    requires WordOf(c) == WordOf(b)
    ensures Weight(b) == Weight(c) <==> b == c
  {
  }

  /** An interval between word boundaries holds the whole word of each of its bytes. */
  lemma WordWithin(lo: Addr, hi: Addr, b: Addr)
    requires IsWord(lo) && IsWord(hi) && lo <= b < hi
    ensures IsWord(WordOf(b)) && lo <= WordOf(b) < hi
  {
    WordIsMultiple(lo);
    WordIsMultiple(hi);
    WordIsMultiple(WordOf(b));
  }

  lemma WordOfInside(x: Addr, b: Addr)
    requires IsWord(x) && x <= b < x + WORD_BYTES
    ensures WordOf(b) == x
  {
    WordIsMultiple(x);
  }

  // ----- replacing one base-256 digit of a number

  predicate IsWeight(m: int) {
    m == 1 || m == 0x100 || m == 0x1_0000 || m == 0x100_0000
  }

  lemma DivIs(w: int, k: int, q: int, r: int)
    requires k > 0 && 0 <= r < k && w == q * k + r
    ensures w / k == q
  {
    var d := w / k - q;
    assert w == k * (w / k) + w % k;
    assert d * k == r - w % k;
    assert d > 0 ==> d * k >= k;
    assert d < 0 ==> d * k <= -k;
  }

  lemma DivShift(w: int, c: int, k: int)
    requires k > 0
    ensures (w + c * k) / k == w / k + c
  {
    DivIs(w + c * k, k, w / k + c, w % k);
  }

  lemma DivParts(a: int, b: int, p: int, s: int, r: int)
    requires 0 <= s < b && 0 <= r < a
    ensures 0 <= s * a + r < a * b
    ensures a * (b * p + s) + r == p * (a * b) + (s * a + r)
  {
    assert (s + 1) * a <= b * a;
    assert s * a >= 0;
  }

  lemma DivDiv(w: int, a: int, b: int)
    requires a > 0 && b > 0
    ensures a * b > 0 && w / (a * b) == w / a / b
  {
    var q := w / a;
    DivParts(a, b, q / b, q % b, w % a);
    DivIs(w, a * b, q / b, q % b * a + w % a);
  }

  lemma LastDigit(q: int, v: int)
    requires 0 <= v < 0x100
    ensures (q - q % 0x100 + v) % 0x100 == v && (q - q % 0x100 + v) / 0x100 == q / 0x100
  {
  }

  lemma LowerDigit(w: int, m: int, t: int, k: int, j: int)
    requires k > 0 && m == k * 0x100 * j
    ensures (w + t * m) / k % 0x100 == w / k % 0x100
  {
    assert t * m == t * j * 0x100 * k;
    DivShift(w, t * j * 0x100, k);
    assert (w / k + t * j * 0x100) % 0x100 == w / k % 0x100;
  }

  lemma HigherDigit(w: int, m: int, v: int, k: int, j: int)
    requires m > 0 && j > 0 && k == m * 0x100 * j && 0 <= v < 0x100
    ensures (w + (v - w / m % 0x100) * m) / k == w / k
  {
    var q := w / m;
    var w' := w + (v - q % 0x100) * m;
    DivShift(w, v - q % 0x100, m);
    LastDigit(q, v);
    DivDiv(w, m, 0x100);
    DivDiv(w', m, 0x100);
    DivDiv(w, m * 0x100, j);
    DivDiv(w', m * 0x100, j);
  }

  lemma DigitReplaced(w: int, m: int, v: int, k: int)
    requires IsWeight(m) && IsWeight(k) && 0 <= v < 0x100
    ensures (w + (v - w / m % 0x100) * m) / k % 0x100 == if k == m then v else w / k % 0x100
  {
    if k == m {
      DivShift(w, v - w / m % 0x100, m);
      LastDigit(w / m, v);
    } else if k < m {
      LowerDigit(w, m, v - w / m % 0x100, k, m / 0x100 / k);
    } else {
      HigherDigit(w, m, v, k, k / 0x100 / m);
    }
  }
}
