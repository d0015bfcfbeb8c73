/**
 * The prescaler search of the second-generation timer. The range ASSERT of the start operation
 * is taken as compiled out, so every 32-bit tick count is handled.
 */
module HgTimer {
  import opened Basics

  const RET_OK: int := 0
  const RET_ERR: int := -1
  const EINVAL: int := 22
  const ENONET: int := 64

  const WORD: int := 0x1_0000_0000
  const HALF_WORD: int := 0x1_0000
  const PRESCALERS: int := 8
  const MHZ: int := 1000000

  /** The tick product on 32 bits. */
  function Ticks(tmoUs: nat, apbClk: nat): (t: int)
    ensures 0 <= t < WORD
  {
    tmoUs * (apbClk / MHZ) % WORD
  }

  /** The tick product does not wrap. */
  predicate NoWrap(tmoUs: nat, apbClk: nat) {
    tmoUs * (apbClk / MHZ) < WORD
  }

  /**
   * Without wrap-around the count is the time in clock periods: exactly for a clock of whole
   * megahertz, and otherwise too small by less than one period a microsecond.
   */
  lemma TicksAreTime(tmoUs: nat, apbClk: nat)
    requires NoWrap(tmoUs, apbClk)
    ensures apbClk % MHZ == 0 ==> Ticks(tmoUs, apbClk) * MHZ == tmoUs * apbClk
    ensures Ticks(tmoUs, apbClk) * MHZ <= tmoUs * apbClk
    ensures tmoUs > 0 ==> tmoUs * apbClk < (Ticks(tmoUs, apbClk) + tmoUs) * MHZ
  {
    var mhz, rest := apbClk / MHZ, apbClk % MHZ;
    assert tmoUs * mhz >= 0;
    assert Ticks(tmoUs, apbClk) == tmoUs * mhz;
    assert apbClk == mhz * MHZ + rest;
    Spread(tmoUs, mhz, MHZ, rest);
    Below(tmoUs, rest, MHZ);
  }

  lemma Spread(t: int, a: int, b: int, c: int)
    ensures t * (a * b + c) == t * a * b + t * c
  {
    assert t * (a * b + c) == t * (a * b) + t * c;
    assert t * (a * b) == t * a * b;
  }

  lemma Below(t: nat, c: nat, b: nat)
    requires c < b
    ensures 0 <= t * c && (t > 0 ==> t * c < t * b)
  {
    assert t * b - t * c == t * (b - c);
  }

  /** The value written to the period register. */
  function Reload(ticks: int, i: nat): (pr: int)
    ensures 0 <= pr < WORD
  {
    (ticks / Pow2(i) - 1) % WORD
  }

  /** The shifted count fits 16 bits. */
  predicate Fits(ticks: int, i: nat) {
    ticks / Pow2(i) < HALF_WORD
  }

  predicate IsLeastFit(ticks: int, i: nat) {
    Fits(ticks, i) && forall j: nat {:trigger Fits(ticks, j)} :: j < i ==> !Fits(ticks, j)
  }

  lemma DivLess(a: int, b: int, c: int)
    requires 0 <= a && 0 < b && 0 < c
    ensures a / b < c <==> a < b * c
  {
    assert a == b * (a / b) + a % b;
    if a / b < c {
      assert b * (a / b) + b <= b * c by {
        assert b * (a / b + 1) <= b * c;
      }
    } else {
      assert b * c <= b * (a / b);
    }
  }

  /** The test on the upper half of the tick word is the test that the shifted count fits. */
  lemma UpperHalfTest(ticks: int, i: nat)
    requires 0 <= ticks
    ensures ticks / HALF_WORD < Pow2(i) <==> Fits(ticks, i)
  {
    DivLess(ticks, HALF_WORD, Pow2(i));
    DivLess(ticks, Pow2(i), HALF_WORD);
    assert HALF_WORD * Pow2(i) == Pow2(i) * HALF_WORD;
  }

  lemma FitsBound(ticks: int, i: nat)
    requires 0 <= ticks
    ensures Fits(ticks, i) <==> ticks < HALF_WORD * Pow2(i)
  {
    DivLess(ticks, Pow2(i), HALF_WORD);
  }

  /** Some prescaler fits exactly the counts below 2^23. */
  lemma PrescalerExists(ticks: int)
    requires 0 <= ticks
    ensures (exists i: nat {:trigger Fits(ticks, i)} :: i < PRESCALERS && Fits(ticks, i))
            <==> ticks < 0x80_0000
  {
    assert Pow2(7) == 128 by {
      assert Pow2(4) == 16;
    }
    FitsBound(ticks, 7);
    if i: nat :| i < PRESCALERS && Fits(ticks, i) {
      FitsBound(ticks, i);
      Pow2Monotone(i, 7);
      assert HALF_WORD * Pow2(i) <= HALF_WORD * Pow2(7);
    }
  }

  /** The period `(TMR_PR + 1) * 2^i` is never longer than the count and at most 2^-15 shorter. */
  lemma PeriodIsClose(ticks: int, i: nat)
    requires 0 < ticks < WORD && IsLeastFit(ticks, i)
    ensures Reload(ticks, i) < HALF_WORD - 1
    ensures var period := (Reload(ticks, i) + 1) * Pow2(i);
            0 < period <= ticks && (ticks - period) * 0x8000 < ticks
  {
    var p := Pow2(i);
    var q := ticks / p;
    assert ticks == p * q + ticks % p;
    if i == 0 {
      assert p == 1 && q == ticks;
    } else {
      var half := Pow2(i - 1);
      assert p == 2 * half;
      assert !Fits(ticks, i - 1);
      FitsBound(ticks, i - 1);
      assert q >= 1 by {
        DivLess(ticks, p, 1);
      }
    }
    assert q >= 1 && Reload(ticks, i) == q - 1;
    assert (q - 1 + 1) * p == p * q;
    assert p * q > 0;
  }

  /** The period in clock periods of a time in microseconds: never longer, and short by less than 2^-15 of it. */
  predicate IsPeriodFor(pr: int, psc: nat, tmoUs: nat, apbClk: nat) {
    var programmed, asked := (pr + 1) * Pow2(psc) * MHZ, tmoUs * apbClk;
    0 < programmed <= asked && (asked - programmed) * 0x8000 < asked
  }

  lemma TicksPositive(tmoUs: nat, apbClk: nat)
    requires NoWrap(tmoUs, apbClk) && apbClk % MHZ == 0 && apbClk > 0 && tmoUs > 0
    ensures Ticks(tmoUs, apbClk) > 0
  {
    TicksAreTime(tmoUs, apbClk);
    assert tmoUs * apbClk > 0;
  }

  /** For a clock of whole megahertz the timer runs for the time asked for. */
  lemma PeriodIsTime(tmoUs: nat, apbClk: nat, i: nat)
    requires NoWrap(tmoUs, apbClk) && apbClk % MHZ == 0 && IsLeastFit(Ticks(tmoUs, apbClk), i)
    requires Ticks(tmoUs, apbClk) > 0
    ensures IsPeriodFor(Reload(Ticks(tmoUs, apbClk), i), i, tmoUs, apbClk)
  {
    var ticks := Ticks(tmoUs, apbClk);
    TicksAreTime(tmoUs, apbClk);
    PeriodIsClose(ticks, i);
    Scaled((Reload(ticks, i) + 1) * Pow2(i), ticks);
  }

  lemma Scaled(period: int, ticks: int)
    requires 0 < period <= ticks && (ticks - period) * 0x8000 < ticks
    ensures 0 < period * MHZ <= ticks * MHZ
    ensures (ticks * MHZ - period * MHZ) * 0x8000 < ticks * MHZ
  {
  }

  /** A count that vanished, from a slow clock or a wrapped product, programs the longest period. */
  lemma ReloadFitsIff(ticks: int, i: nat)
    requires 0 <= ticks < WORD && IsLeastFit(ticks, i)
    ensures Reload(ticks, i) < HALF_WORD <==> ticks != 0
    ensures ticks == 0 ==> Reload(ticks, i) == WORD - 1
  {
    if ticks != 0 {
      PeriodIsClose(ticks, i);
    } else {
      assert 0 / Pow2(i) == 0;
    }
  }

  /**
   * A smaller prescaler would still give a 16-bit register value exactly when it leaves a shifted
   * count of 2^16, which the search refuses although 2^16 - 1 would be written.
   */
  lemma SearchSkipsFullScale(ticks: int, j: nat)
    requires 0 < ticks < WORD && !Fits(ticks, j)
    ensures Reload(ticks, j) < HALF_WORD <==> ticks / Pow2(j) == HALF_WORD
  {
    assert Pow2(j) >= 1;
    assert ticks / Pow2(j) <= ticks by {
      DivLess(ticks, Pow2(j), ticks + 1);
      assert ticks < ticks + 1 <= Pow2(j) * (ticks + 1);
    }
  }

  /** The value written would fit the 16-bit register. */
  predicate RegisterFits(ticks: int, j: nat) {
    Reload(ticks, j) < HALF_WORD
  }

  predicate FullScale(ticks: int, j: nat) {
    ticks / Pow2(j) == HALF_WORD
  }

  /** At 2^16 ticks the search takes prescaler 1 although 0 would write 2^16 - 1. */
  lemma FullScaleIsSkipped()
    ensures IsLeastFit(0x1_0000, 1) && RegisterFits(0x1_0000, 0) && Reload(0x1_0000, 0) == 0xFFFF
  {
    assert Pow2(0) == 1 && Pow2(1) == 2;
    assert !Fits(0x1_0000, 0) && Fits(0x1_0000, 1);
  }

  lemma FitsFrom(ticks: int, i: nat, j: nat)
    requires 0 <= ticks && Fits(ticks, i) && i <= j
    ensures Fits(ticks, j)
  {
    FitsBound(ticks, i);
    FitsBound(ticks, j);
    Pow2Monotone(i, j);
    assert HALF_WORD * Pow2(i) <= HALF_WORD * Pow2(j);
  }

  /** What the search ends with: the least fit, or 8 when nothing fits. */
  predicate IsSearchResult(ticks: int, i: nat) {
    && i <= PRESCALERS && (i < PRESCALERS ==> Fits(ticks, i))
    && forall j: nat {:trigger Fits(ticks, j)} :: j < i ==> !Fits(ticks, j)
  }

  /**
   * The search takes the least prescaler whose register value fits 16 bits, or fails because there
   * is none, exactly when no prescaler leaves a shifted count of 2^16.
   */
  lemma LeastRegisterFitIff(ticks: int, i: nat)
    requires 0 < ticks < WORD && IsSearchResult(ticks, i)
    ensures i < PRESCALERS ==> RegisterFits(ticks, i)
    ensures (forall j: nat {:trigger RegisterFits(ticks, j)} :: j < i ==> !RegisterFits(ticks, j))
            <==> (forall j: nat {:trigger FullScale(ticks, j)} :: j < PRESCALERS ==> !FullScale(ticks, j))
  {
    if i < PRESCALERS {
      ReloadFitsIff(ticks, i);
    }
    forall j: nat {:trigger RegisterFits(ticks, j)} {:trigger FullScale(ticks, j)} | j < PRESCALERS
      ensures j < i ==> (RegisterFits(ticks, j) <==> FullScale(ticks, j))
      ensures j >= i ==> !FullScale(ticks, j)
    {
      if j < i {
        SearchSkipsFullScale(ticks, j);
      } else {
        FitsFrom(ticks, i, j);
      }
    }
  }

  /** Some prescaler's register value fits for the counts up to 2^23 + 127, 0 apart. */
  lemma RegisterFitExists(ticks: int)
    requires 0 <= ticks < WORD
    ensures (exists j: nat {:trigger RegisterFits(ticks, j)} :: j < PRESCALERS && RegisterFits(ticks, j))
            <==> 0 < ticks < 0x80_0080
  {
    assert Pow2(7) == 128 by {
      assert Pow2(4) == 16;
    }
    if ticks == 0 {
      forall j: nat {:trigger RegisterFits(ticks, j)} | j < PRESCALERS ensures !RegisterFits(ticks, j) {
        assert 0 / Pow2(j) == 0;
      }
    } else {
      RegisterBound(ticks, 7);
      forall j: nat {:trigger RegisterFits(ticks, j)} | j < PRESCALERS && RegisterFits(ticks, j)
        ensures ticks < 0x80_0080
      {
        RegisterBound(ticks, j);
        Pow2Monotone(j, 7);
        assert (HALF_WORD + 1) * Pow2(j) <= (HALF_WORD + 1) * Pow2(7);
      }
      if ticks < 0x80_0080 {
        SomeRegisterFits(ticks);
      }
    }
  }

  lemma RegisterBound(ticks: int, j: nat)
    requires 0 < ticks < WORD
    ensures RegisterFits(ticks, j) ==> ticks < (HALF_WORD + 1) * Pow2(j)
    ensures Pow2(j) <= ticks < (HALF_WORD + 1) * Pow2(j) ==> RegisterFits(ticks, j)
  {
    DivLess(ticks, Pow2(j), HALF_WORD + 1);
    DivLess(ticks, Pow2(j), 1);
    DivLess(ticks, Pow2(j), WORD);
    assert ticks < Pow2(j) * WORD;
    assert Pow2(j) * (HALF_WORD + 1) == (HALF_WORD + 1) * Pow2(j);
  }

  lemma SomeRegisterFits(ticks: int)
    requires 0 < ticks < 0x80_0080
    ensures exists j: nat {:trigger RegisterFits(ticks, j)} :: j < PRESCALERS && RegisterFits(ticks, j)
  {
    if ticks >= 128 {
      assert Pow2(7) == 128 by {
        assert Pow2(4) == 16;
      }
      RegisterBound(ticks, 7);
      assert RegisterFits(ticks, 7);
    } else {
      RegisterBound(ticks, 0);
      assert Pow2(0) == 1 && RegisterFits(ticks, 0);
    }
  }

  /** The search loop of `hgtimer_v2_start`. */
  method Prescaler(ticks: int) returns (i: nat)
    requires 0 <= ticks
    ensures IsSearchResult(ticks, i)
    ensures i < PRESCALERS ==> IsLeastFit(ticks, i)
  {
    i := 0;
    while i < PRESCALERS
      invariant i <= PRESCALERS
      invariant forall j: nat {:trigger Fits(ticks, j)} :: j < i ==> !Fits(ticks, j)
    {
      UpperHalfTest(ticks, i);
      if ticks / HALF_WORD < Pow2(i) {
        break;
      }
      i := i + 1;
    }
  }

  /** The control bits and registers the start operation writes. */
  datatype Regs = Regs(pr: int, cnt: int, psc: nat, running: bool, interrupt: bool)

  class Timer {
    var isOpen: bool
    var cb: nat
    var cbData: int
    var hw: Regs

    constructor (hw: Regs)
      ensures !isOpen && this.hw == hw
    {
      isOpen, cb, cbData, this.hw := false, 0, 0, hw;
    }

    /** `hgtimer_v2_start`. */
    method Start(tmoUs: nat, apbClk: nat, cb: nat, cbData: int) returns (ret: int)
      modifies this
      ensures isOpen == old(isOpen)
      ensures ret == if !isOpen then -ENONET else if tmoUs == 0 then -EINVAL
                     else if Ticks(tmoUs, apbClk) < 0x80_0000 then RET_OK else RET_ERR
      ensures ret != RET_OK ==> hw == old(hw) && this.cb == old(this.cb) && this.cbData == old(this.cbData)
      ensures ret == RET_OK ==>
                && var ticks := Ticks(tmoUs, apbClk);
                && IsLeastFit(ticks, hw.psc) && hw.pr == Reload(ticks, hw.psc)
                && hw.cnt == 0 && hw.running && hw.interrupt == (cb != 0)
                && this.cb == cb && this.cbData == cbData
      ensures ret == RET_OK && NoWrap(tmoUs, apbClk) && apbClk % MHZ == 0 && apbClk > 0 ==>
                IsPeriodFor(hw.pr, hw.psc, tmoUs, apbClk)
    {
      if !isOpen {
        return -ENONET;
      }
      if tmoUs == 0 {
        return -EINVAL;
      }
      var ticks := Ticks(tmoUs, apbClk);
      var i := Prescaler(ticks);
      PrescalerExists(ticks);
      if i == PRESCALERS {
        return RET_ERR;
      }
      this.cb, this.cbData := cb, cbData;
      hw := hw.(interrupt := cb != 0);
      hw := hw.(cnt := 0, pr := Reload(ticks, i));
      hw := hw.(psc := i, running := true);
      ret := RET_OK;
      if NoWrap(tmoUs, apbClk) && apbClk % MHZ == 0 && apbClk > 0 {
        TicksPositive(tmoUs, apbClk);
        PeriodIsTime(tmoUs, apbClk, i);
      }
    }
  }
}
