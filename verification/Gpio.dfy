/**
 * The packed GPIO register file: 2-bit modes, 4-bit alternate functions, pulls and drive
 * strengths, many pins to a register. Every setter is proved to change one pin's field only.
 */
module Gpio {

  type Word = bv32

  const RET_OK: int := 0
  const EINVAL: int := 22

  // ----- packed fields

  /** The bit of slot `k`, thirty-two to a register. */
  function Get1(w: Word, k: Word): Word
    requires k < 32
  {
    (w >> k) & 1
  }

  /** `w | BIT(k)` or `w & ~BIT(k)`. */
  function Put1(w: Word, k: Word, on: bool): Word
    requires k < 32
  {
    if on then w | ((1 as Word) << k) else w & !((1 as Word) << k)
  }

  lemma Put1Get1(w: Word, k: Word, on: bool)
    requires k < 32
    ensures Get1(Put1(w, k, on), k) == if on then 1 else 0
  {
  }

  lemma Put1Spares(w: Word, k: Word, on: bool, j: Word)
    requires k < 32 && j < 32 && j != k
    ensures Get1(Put1(w, k, on), j) == Get1(w, j)
  {
  }

  /** The 2-bit field of slot `k`, sixteen to a register. */
  function Get2(w: Word, k: Word): Word
    requires k < 16
  {
    (w >> (k * 2)) & 3
  }

  /** The 4-bit field of slot `k`, eight to a register. */
  function Get4(w: Word, k: Word): Word
    requires k < 8
  {
    (w >> (k * 4)) & 0xF
  }

  function Set2(w: Word, k: Word, v: Word): Word
    requires k < 16
  {
    (w & !((3 as Word) << (k * 2))) | (v << (k * 2))
  }

  function Set4(w: Word, k: Word, v: Word): Word
    requires k < 8
  {
    (w & !((0xF as Word) << (k * 4))) | (v << (k * 4))
  }

  lemma Set2Get2(w: Word, k: Word, v: Word, j: Word)
    requires k < 16 && j < 16 && v <= 3
    ensures Get2(Set2(w, k, v), j) == if j == k then v else Get2(w, j)
  {
  }

  lemma Set4Get4(w: Word, k: Word, v: Word, j: Word)
    requires k < 8 && j < 8 && v <= 0xF
    ensures Get4(Set4(w, k, v), j) == if j == k then v else Get4(w, j)
  {
  }

  function Clear4(w: Word, k: Word): Word
    requires k < 8
  {
    w & !((0xF as Word) << (k * 4))
  }

  function Clear2(w: Word, k: Word): Word
    requires k < 16
  {
    w & !((3 as Word) << (k * 2))
  }

  function Fill2(w: Word, k: Word): Word
    requires k < 16
  {
    w | ((3 as Word) << (k * 2))
  }

  lemma Clear4Get4(w: Word, k: Word, j: Word)
    requires k < 8 && j < 8
    ensures Get4(Clear4(w, k), j) == if j == k then 0 else Get4(w, j)
  {
  }

  lemma Clear2Get2(w: Word, k: Word, j: Word)
    requires k < 16 && j < 16
    ensures Get2(Clear2(w, k), j) == if j == k then 0 else Get2(w, j)
  {
  }

  lemma Fill2Get2(w: Word, k: Word, j: Word)
    requires k < 16 && j < 16
    ensures Get2(Fill2(w, k), j) == if j == k then 3 else Get2(w, j)
  {
  }

  // ----- the bit-spreading of hggpio_v2_afio

  /** Moves bit i of a 16-bit mask to bit 2i. */
  function SpreadMode(bits: Word): Word {
    var m1 := ((bits & 0xFF00) << 8) | (bits & 0x00FF);
    var m2 := ((m1 & 0x00F000F0) << 4) | (m1 & 0x000F000F);
    var m3 := ((m2 & 0x0C0C0C0C) << 2) | (m2 & 0x03030303);
    ((m3 & 0x22222222) << 1) | (m3 & 0x11111111)
  }

  /** Spreads the mode mask once more; even positions are pins 0 to 7, odd ones pins 8 to 15. */
  function SpreadAfr(mode: Word): Word {
    var a0 := (mode >> 15) | mode;
    var a1 := ((a0 & 0xFF00) << 8) | (a0 & 0x00FF);
    var a2 := ((a1 & 0x00F000F0) << 4) | (a1 & 0x000F000F);
    ((a2 & 0x0C0C0C0C) << 2) | (a2 & 0x03030303)
  }

  /** The spread masks select exactly the pin's 2-bit mode and its nibble in one of two registers. */
  lemma SpreadSelectsPin(k: Word)
    requires k < 16
    ensures SpreadMode((1 as Word) << k) == (1 as Word) << (k * 2)
    ensures var afr := SpreadAfr((1 as Word) << (k * 2));
            && afr & 0x11111111 == (if k < 8 then (1 as Word) << (k * 4) else 0)
            && (afr >> 1) & 0x11111111 == (if k < 8 then 0 else (1 as Word) << ((k - 8) * 4))
  {
  }

  /** `(w & ~(mask * 0x0F)) | (mask * af)`. */
  function Stamp(w: Word, mask: Word, af: Word): Word {
    (w & !(mask * 0x0F)) | (mask * af)
  }

  /** `(w & ~mask) | (mask << 1)`. */
  function AltMode(w: Word, mask: Word): Word {
    (w & !mask) | (mask << 1)
  }

  /** Clearing the low bit and setting the high bit of a 2-bit field gives mode 2. */
  lemma AltModeIsTwo(w: Word, k: Word)
    requires k < 16
    ensures Get2(AltMode(w, (1 as Word) << (k * 2)), k) == 2
  {
  }

  lemma AltModeSpares(w: Word, k: Word, j: Word)
    requires k < 16 && j < 16 && j != k
    ensures Get2(AltMode(w, (1 as Word) << (k * 2)), j) == Get2(w, j)
  {
  }

  /** Multiplying the mask by 15 or by the function number clears or sets the nibble. */
  lemma StampSetsNibble(w: Word, k: Word, af: Word)
    requires k < 8 && af <= 0xF
    ensures Stamp(w, (1 as Word) << (k * 4), af) == Set4(w, k, af)
  {
  }

  lemma StampOfNothing(w: Word, mask: Word, af: Word)
    requires mask == 0
    ensures Stamp(w, mask, af) == w
  {
  }

  // ----- the register file as an array of pins

  /** What the registers say about one pin. */
  datatype Pin =
    Pin(mode: Word, af: Word, pullUp: Word, pullDown: Word, drive: Word, openDrain: Word)

  /** The modelled registers; arrays of four hold pins 0-7, 8-15, 16-23 and 24-31. */
  datatype Regs = Regs(
    MODE0: Word, MODE1: Word,
    AFR0: Word, AFR1: Word, AFR2: Word, AFR3: Word,
    PU0EN: Word, PU1EN: Word, PU2EN: Word, PU3EN: Word,
    PD0EN: Word, PD1EN: Word, PD2EN: Word, PD3EN: Word,
    DR0: Word, DR1: Word, DR2: Word, DR3: Word,
    OD: Word)

  function Pick4(r0: Word, r1: Word, r2: Word, r3: Word, q: Word): Word
    requires q < 32
  {
    if q < 8 then Get4(r0, q) else if q < 16 then Get4(r1, q - 8)
    else if q < 24 then Get4(r2, q - 16) else Get4(r3, q - 24)
  }

  function Pick2(r0: Word, r1: Word, q: Word): Word
    requires q < 32
  {
    if q < 16 then Get2(r0, q) else Get2(r1, q - 16)
  }

  function PinAt(r: Regs, q: Word): Pin
    requires q < 32
  {
    Pin(Pick2(r.MODE0, r.MODE1, q),
        Pick4(r.AFR0, r.AFR1, r.AFR2, r.AFR3, q),
        Pick4(r.PU0EN, r.PU1EN, r.PU2EN, r.PU3EN, q),
        Pick4(r.PD0EN, r.PD1EN, r.PD2EN, r.PD3EN, q),
        Pick4(r.DR0, r.DR1, r.DR2, r.DR3, q),
        Get1(r.OD, q))
  }

  /** `r'` is `r` with the record of pin `k` replaced by `pin` and no other pin changed. */
  ghost predicate PinUpdated(r: Regs, k: Word, pin: Pin, r': Regs)
    requires k < 32
  {
    forall q: Word {:trigger PinAt(r', q)} :: q < 32 ==> PinAt(r', q) == if q == k then pin else PinAt(r, q)
  }

  /** The register for pins `lo` to `lo + 7`, with the nibble of pin `k` set if it is one of them. */
  function Put4(r: Word, lo: Word, k: Word, v: Word): Word
    requires k < 32
  {
    if lo <= k && k - lo < 8 then Set4(r, k - lo, v) else r
  }

  /** The register for pins `lo` to `lo + 15`, with the mode of pin `k` set if it is one of them. */
  function Put2(r: Word, lo: Word, k: Word, v: Word): Word
    requires k < 32
  {
    if lo <= k && k - lo < 16 then Set2(r, k - lo, v) else r
  }

  /** One register of a bank read back after an update. */
  lemma Put4Get4(r: Word, lo: Word, k: Word, v: Word, q: Word)
    requires k < 32 && q < 32 && v <= 0xF && lo <= 24 && lo <= q && q - lo < 8
    ensures Get4(Put4(r, lo, k, v), q - lo) == if q == k then v else Get4(r, q - lo)
  {
    if lo <= k && k - lo < 8 {
      Set4Get4(r, k - lo, v, q - lo);
    }
  }

  lemma Put2Get2(r: Word, lo: Word, k: Word, v: Word, q: Word)
    requires k < 32 && q < 32 && v <= 3 && lo <= 16 && lo <= q && q - lo < 16
    ensures Get2(Put2(r, lo, k, v), q - lo) == if q == k then v else Get2(r, q - lo)
  {
    if lo <= k && k - lo < 16 {
      Set2Get2(r, k - lo, v, q - lo);
    }
  }

  /** The same bank with the nibble of pin `k` cleared. */
  function Wipe4(r: Word, lo: Word, k: Word): Word
    requires k < 32
  {
    if lo <= k && k - lo < 8 then Clear4(r, k - lo) else r
  }

  function Wipe2(r: Word, lo: Word, k: Word): Word
    requires k < 32
  {
    if lo <= k && k - lo < 16 then Clear2(r, k - lo) else r
  }

  function Flood2(r: Word, lo: Word, k: Word): Word
    requires k < 32
  {
    if lo <= k && k - lo < 16 then Fill2(r, k - lo) else r
  }

  function Alter2(r: Word, lo: Word, k: Word): Word
    requires k < 32
  {
    if lo <= k && k - lo < 16 then AltMode(r, (1 as Word) << ((k - lo) * 2)) else r
  }

  lemma Wipe4Get4(r: Word, lo: Word, k: Word, q: Word)
    requires k < 32 && q < 32 && lo <= 24 && lo <= q && q - lo < 8
    ensures Get4(Wipe4(r, lo, k), q - lo) == if q == k then 0 else Get4(r, q - lo)
  {
    if lo <= k && k - lo < 8 {
      Clear4Get4(r, k - lo, q - lo);
    }
  }

  lemma Wipe2Get2(r: Word, lo: Word, k: Word, q: Word)
    requires k < 32 && q < 32 && lo <= 16 && lo <= q && q - lo < 16
    ensures Get2(Wipe2(r, lo, k), q - lo) == if q == k then 0 else Get2(r, q - lo)
  {
    if lo <= k && k - lo < 16 {
      Clear2Get2(r, k - lo, q - lo);
    }
  }

  lemma Flood2Get2(r: Word, lo: Word, k: Word, q: Word)
    requires k < 32 && q < 32 && lo <= 16 && lo <= q && q - lo < 16
    ensures Get2(Flood2(r, lo, k), q - lo) == if q == k then 3 else Get2(r, q - lo)
  {
    if lo <= k && k - lo < 16 {
      Fill2Get2(r, k - lo, q - lo);
    }
  }

  lemma Alter2Get2(r: Word, lo: Word, k: Word, q: Word)
    requires k < 32 && q < 32 && lo <= 16 && lo <= q && q - lo < 16
    ensures Get2(Alter2(r, lo, k), q - lo) == if q == k then 2 else Get2(r, q - lo)
  {
    if lo <= k && k - lo < 16 {
      if q == k {
        AltModeIsTwo(r, k - lo);
      } else {
        AltModeSpares(r, k - lo, q - lo);
      }
    }
  }

  lemma Pick4Wipe4(r0: Word, r1: Word, r2: Word, r3: Word, k: Word, q: Word)
    requires k < 32 && q < 32
    ensures Pick4(Wipe4(r0, 0, k), Wipe4(r1, 8, k), Wipe4(r2, 16, k), Wipe4(r3, 24, k), q)
            == if q == k then 0 else Pick4(r0, r1, r2, r3, q)
  {
    if q < 8 {
      Wipe4Get4(r0, 0, k, q);
    } else if q < 16 {
      Wipe4Get4(r1, 8, k, q);
    } else if q < 24 {
      Wipe4Get4(r2, 16, k, q);
    } else {
      Wipe4Get4(r3, 24, k, q);
    }
  }

  lemma Pick2Wipe2(r0: Word, r1: Word, k: Word, q: Word)
    requires k < 32 && q < 32
    ensures Pick2(Wipe2(r0, 0, k), Wipe2(r1, 16, k), q) == if q == k then 0 else Pick2(r0, r1, q)
  {
    if q < 16 {
      Wipe2Get2(r0, 0, k, q);
    } else {
      Wipe2Get2(r1, 16, k, q);
    }
  }

  lemma Pick2Flood2(r0: Word, r1: Word, k: Word, q: Word)
    requires k < 32 && q < 32
    ensures Pick2(Flood2(r0, 0, k), Flood2(r1, 16, k), q) == if q == k then 3 else Pick2(r0, r1, q)
  {
    if q < 16 {
      Flood2Get2(r0, 0, k, q);
    } else {
      Flood2Get2(r1, 16, k, q);
    }
  }

  lemma Pick2Alter2(r0: Word, r1: Word, k: Word, q: Word)
    requires k < 32 && q < 32
    ensures Pick2(Alter2(r0, 0, k), Alter2(r1, 16, k), q) == if q == k then 2 else Pick2(r0, r1, q)
  {
    if q < 16 {
      Alter2Get2(r0, 0, k, q);
    } else {
      Alter2Get2(r1, 16, k, q);
    }
  }

  lemma Pick4Put4(r0: Word, r1: Word, r2: Word, r3: Word, k: Word, v: Word, q: Word)
    requires k < 32 && q < 32 && v <= 0xF
    ensures Pick4(Put4(r0, 0, k, v), Put4(r1, 8, k, v), Put4(r2, 16, k, v), Put4(r3, 24, k, v), q)
            == if q == k then v else Pick4(r0, r1, r2, r3, q)
  {
    if q < 8 {
      Put4Get4(r0, 0, k, v, q);
    } else if q < 16 {
      Put4Get4(r1, 8, k, v, q);
    } else if q < 24 {
      Put4Get4(r2, 16, k, v, q);
    } else {
      Put4Get4(r3, 24, k, v, q);
    }
  }

  lemma Pick2Put2(r0: Word, r1: Word, k: Word, v: Word, q: Word)
    requires k < 32 && q < 32 && v <= 3
    ensures Pick2(Put2(r0, 0, k, v), Put2(r1, 16, k, v), q) == if q == k then v else Pick2(r0, r1, q)
  {
    if q < 16 {
      Put2Get2(r0, 0, k, v, q);
    } else {
      Put2Get2(r1, 16, k, v, q);
    }
  }

  // ----- one field of one pin

  function PutAf(r: Regs, k: Word, v: Word): Regs
    requires k < 32
  {
    r.(AFR0 := Put4(r.AFR0, 0, k, v), AFR1 := Put4(r.AFR1, 8, k, v),
       AFR2 := Put4(r.AFR2, 16, k, v), AFR3 := Put4(r.AFR3, 24, k, v))
  }

  lemma PutAfUpdates(r: Regs, k: Word, v: Word)
    requires k < 32 && v <= 0xF
    ensures PinUpdated(r, k, PinAt(r, k).(af := v), PutAf(r, k, v))
  {
    var r' := PutAf(r, k, v);
    forall q: Word {:trigger PinAt(r', q)} | q < 32
      ensures PinAt(r', q) == if q == k then PinAt(r, k).(af := v) else PinAt(r, q)
    {
      Pick4Put4(r.AFR0, r.AFR1, r.AFR2, r.AFR3, k, v, q);
    }
  }

  function PutPullUp(r: Regs, k: Word, v: Word): Regs
    requires k < 32
  {
    r.(PU0EN := Put4(r.PU0EN, 0, k, v), PU1EN := Put4(r.PU1EN, 8, k, v),
       PU2EN := Put4(r.PU2EN, 16, k, v), PU3EN := Put4(r.PU3EN, 24, k, v))
  }

  lemma PutPullUpUpdates(r: Regs, k: Word, v: Word)
    requires k < 32 && v <= 0xF
    ensures PinUpdated(r, k, PinAt(r, k).(pullUp := v), PutPullUp(r, k, v))
  {
    var r' := PutPullUp(r, k, v);
    forall q: Word {:trigger PinAt(r', q)} | q < 32
      ensures PinAt(r', q) == if q == k then PinAt(r, k).(pullUp := v) else PinAt(r, q)
    {
      Pick4Put4(r.PU0EN, r.PU1EN, r.PU2EN, r.PU3EN, k, v, q);
    }
  }

  function PutPullDown(r: Regs, k: Word, v: Word): Regs
    requires k < 32
  {
    r.(PD0EN := Put4(r.PD0EN, 0, k, v), PD1EN := Put4(r.PD1EN, 8, k, v),
       PD2EN := Put4(r.PD2EN, 16, k, v), PD3EN := Put4(r.PD3EN, 24, k, v))
  }

  lemma PutPullDownUpdates(r: Regs, k: Word, v: Word)
    requires k < 32 && v <= 0xF
    ensures PinUpdated(r, k, PinAt(r, k).(pullDown := v), PutPullDown(r, k, v))
  {
    var r' := PutPullDown(r, k, v);
    forall q: Word {:trigger PinAt(r', q)} | q < 32
      ensures PinAt(r', q) == if q == k then PinAt(r, k).(pullDown := v) else PinAt(r, q)
    {
      Pick4Put4(r.PD0EN, r.PD1EN, r.PD2EN, r.PD3EN, k, v, q);
    }
  }

  function PutDrive(r: Regs, k: Word, v: Word): Regs
    requires k < 32
  {
    r.(DR0 := Put4(r.DR0, 0, k, v), DR1 := Put4(r.DR1, 8, k, v),
       DR2 := Put4(r.DR2, 16, k, v), DR3 := Put4(r.DR3, 24, k, v))
  }

  lemma PutDriveUpdates(r: Regs, k: Word, v: Word)
    requires k < 32 && v <= 0xF
    ensures PinUpdated(r, k, PinAt(r, k).(drive := v), PutDrive(r, k, v))
  {
    var r' := PutDrive(r, k, v);
    forall q: Word {:trigger PinAt(r', q)} | q < 32
      ensures PinAt(r', q) == if q == k then PinAt(r, k).(drive := v) else PinAt(r, q)
    {
      Pick4Put4(r.DR0, r.DR1, r.DR2, r.DR3, k, v, q);
    }
  }

  function PutMode(r: Regs, k: Word, v: Word): Regs
    requires k < 32
  {
    r.(MODE0 := Put2(r.MODE0, 0, k, v), MODE1 := Put2(r.MODE1, 16, k, v))
  }

  lemma PutModeUpdates(r: Regs, k: Word, v: Word)
    requires k < 32 && v <= 3
    ensures PinUpdated(r, k, PinAt(r, k).(mode := v), PutMode(r, k, v))
  {
    var r' := PutMode(r, k, v);
    forall q: Word {:trigger PinAt(r', q)} | q < 32
      ensures PinAt(r', q) == if q == k then PinAt(r, k).(mode := v) else PinAt(r, q)
    {
      Pick2Put2(r.MODE0, r.MODE1, k, v, q);
    }
  }

  function WipePulls(r: Regs, k: Word): Regs
    requires k < 32
  {
    r.(PD0EN := Wipe4(r.PD0EN, 0, k), PD1EN := Wipe4(r.PD1EN, 8, k),
       PD2EN := Wipe4(r.PD2EN, 16, k), PD3EN := Wipe4(r.PD3EN, 24, k),
       PU0EN := Wipe4(r.PU0EN, 0, k), PU1EN := Wipe4(r.PU1EN, 8, k),
       PU2EN := Wipe4(r.PU2EN, 16, k), PU3EN := Wipe4(r.PU3EN, 24, k))
  }

  lemma WipePullsUpdates(r: Regs, k: Word)
    requires k < 32
    ensures PinUpdated(r, k, PinAt(r, k).(pullUp := 0, pullDown := 0), WipePulls(r, k))
  {
    var r' := WipePulls(r, k);
    forall q: Word {:trigger PinAt(r', q)} | q < 32
      ensures PinAt(r', q) == if q == k then PinAt(r, k).(pullUp := 0, pullDown := 0) else PinAt(r, q)
    {
      Pick4Wipe4(r.PU0EN, r.PU1EN, r.PU2EN, r.PU3EN, k, q);
      Pick4Wipe4(r.PD0EN, r.PD1EN, r.PD2EN, r.PD3EN, k, q);
    }
  }

  function WipeMode(r: Regs, k: Word): Regs
    requires k < 32
  {
    r.(MODE0 := Wipe2(r.MODE0, 0, k), MODE1 := Wipe2(r.MODE1, 16, k))
  }

  lemma WipeModeUpdates(r: Regs, k: Word)
    requires k < 32
    ensures PinUpdated(r, k, PinAt(r, k).(mode := 0), WipeMode(r, k))
  {
    var r' := WipeMode(r, k);
    forall q: Word {:trigger PinAt(r', q)} | q < 32
      ensures PinAt(r', q) == if q == k then PinAt(r, k).(mode := 0) else PinAt(r, q)
    {
      Pick2Wipe2(r.MODE0, r.MODE1, k, q);
    }
  }

  function FloodMode(r: Regs, k: Word): Regs
    requires k < 32
  {
    r.(MODE0 := Flood2(r.MODE0, 0, k), MODE1 := Flood2(r.MODE1, 16, k))
  }

  lemma FloodModeUpdates(r: Regs, k: Word)
    requires k < 32
    ensures PinUpdated(r, k, PinAt(r, k).(mode := 3), FloodMode(r, k))
  {
    var r' := FloodMode(r, k);
    forall q: Word {:trigger PinAt(r', q)} | q < 32
      ensures PinAt(r', q) == if q == k then PinAt(r, k).(mode := 3) else PinAt(r, q)
    {
      Pick2Flood2(r.MODE0, r.MODE1, k, q);
    }
  }

  function AlterMode(r: Regs, k: Word): Regs
    requires k < 32
  {
    r.(MODE0 := Alter2(r.MODE0, 0, k), MODE1 := Alter2(r.MODE1, 16, k))
  }

  lemma AlterModeUpdates(r: Regs, k: Word)
    requires k < 32
    ensures PinUpdated(r, k, PinAt(r, k).(mode := 2), AlterMode(r, k))
  {
    var r' := AlterMode(r, k);
    forall q: Word {:trigger PinAt(r', q)} | q < 32
      ensures PinAt(r', q) == if q == k then PinAt(r, k).(mode := 2) else PinAt(r, q)
    {
      Pick2Alter2(r.MODE0, r.MODE1, k, q);
    }
  }

  function PutOpenDrain(r: Regs, k: Word, on: bool): Regs
    requires k < 32
  {
    r.(OD := Put1(r.OD, k, on))
  }

  lemma OpenDrainUpdates(r: Regs, k: Word, on: bool)
    requires k < 32
    ensures PinUpdated(r, k, PinAt(r, k).(openDrain := if on then 1 else 0), PutOpenDrain(r, k, on))
  {
    var r' := PutOpenDrain(r, k, on);
    forall q: Word {:trigger PinAt(r', q)} | q < 32
      ensures PinAt(r', q) == if q == k then PinAt(r, k).(openDrain := if on then 1 else 0) else PinAt(r, q)
    {
      if q == k {
        Put1Get1(r.OD, k, on);
      } else {
        Put1Spares(r.OD, k, on, q);
      }
    }
  }

  /** Two updates of the same pin are one. */
  lemma UpdatesCompose(r: Regs, k: Word, pin1: Pin, r1: Regs, pin2: Pin, r2: Regs)
    requires k < 32 && PinUpdated(r, k, pin1, r1) && PinUpdated(r1, k, pin2, r2)
    ensures PinUpdated(r, k, pin2, r2)
  {
    forall q: Word {:trigger PinAt(r2, q)} | q < 32 ensures PinAt(r2, q) == if q == k then pin2 else PinAt(r, q) {
      assert PinAt(r1, q) == if q == k then pin1 else PinAt(r, q);
    }
  }

  /** Cases of the pull setting of `gpio_pin_mode`, with or without open drain. */
  datatype PullMode = PullNone | PullUp | PullDown | Unknown

  /** The pull levels the hardware knows. */
  predicate IsLevel(v: Word) {
    v == 0 || v == 1 || v == 2 || v == 6
  }

  /** `hggpio_v2_pin_num`: the slot of a pin within its device. */
  function SlotOf(first: Word, pin: Word): Word {
    pin - first
  }

  // ----- runs of setters

  /** What one successful call sets in the record of its pin. */
  datatype Setting =
    | Mode(mode: Word)
    | Alternate(af: Word)
    | Up(level: Word)
    | Down(level: Word)
    | NoPulls
    | Drive(drive: Word)
    | OpenDrain(on: bool)

  function With(p: Pin, s: Setting): Pin {
    match s
    case Mode(v) => p.(mode := v)
    case Alternate(v) => p.(af := v, mode := 2)
    case Up(v) => p.(pullUp := v)
    case Down(v) => p.(pullDown := v)
    case NoPulls => p.(pullUp := 0, pullDown := 0)
    case Drive(v) => p.(drive := v)
    case OpenDrain(on) => p.(openDrain := if on then 1 else 0)
  }

  function PullSetting(pull: PullMode, level: Word): Setting {
    match pull
    case PullUp => Up(level)
    case PullDown => Down(level)
    case _ => NoPulls
  }

  datatype Write = Write(slot: Word, setting: Setting)

  /** The step the contracts of the setters describe. */
  ghost predicate Writes(r: Regs, w: Write, r': Regs) {
    w.slot < 32 && PinUpdated(r, w.slot, With(PinAt(r, w.slot), w.setting), r')
  }

  lemma IsWrite(r: Regs, k: Word, s: Setting, pin: Pin, r': Regs)
    requires k < 32 && pin == With(PinAt(r, k), s) && PinUpdated(r, k, pin, r')
    ensures Writes(r, Write(k, s), r')
  {
  }

  /** The record of pin `q` after the calls, taking only those on `q` into account. */
  function Replay(p: Pin, q: Word, ws: seq<Write>): Pin {
    if ws == [] then p else
      var rest, w := Replay(p, q, ws[..|ws| - 1]), ws[|ws| - 1];
      if w.slot == q then With(rest, w.setting) else rest
  }

  /** A step that writes pin `w.slot` alone, seen from pin `q`. */
  lemma ReplayStep(r: Regs, w: Write, r': Regs, p: Pin, ws: seq<Write>, q: Word)
    requires q < 32 && Writes(r, w, r') && PinAt(r, q) == Replay(p, q, ws)
    ensures PinAt(r', q) == Replay(p, q, ws + [w])
  {
    assert (ws + [w])[..|ws|] == ws;
    assert PinAt(r', q) == if q == w.slot then With(PinAt(r, w.slot), w.setting) else PinAt(r, q);
  }

  /** Over every run of writes, the registers are an array of independent pin records. */
  lemma {:induction false} RunRefinesPins(rs: seq<Regs>, ws: seq<Write>, q: Word)
    requires |rs| == |ws| + 1 && q < 32
    requires forall i :: 0 <= i < |ws| ==> Writes(rs[i], ws[i], rs[i + 1])
    ensures PinAt(rs[|ws|], q) == Replay(PinAt(rs[0], q), q, ws)
    decreases |ws|
  {
    if ws != [] {
      var n := |ws| - 1;
      RunRefinesPins(rs[..n + 1], ws[..n], q);
      assert Writes(rs[n], ws[n], rs[n + 1]);
    }
  }

  lemma {:induction false} ReplayConcat(p: Pin, q: Word, ws: seq<Write>, ws': seq<Write>)
    ensures Replay(p, q, ws + ws') == Replay(Replay(p, q, ws), q, ws')
    decreases |ws'|
  {
    if ws' == [] {
      assert ws + ws' == ws;
    } else {
      var n := |ws'| - 1;
      assert (ws + ws')[..|ws| + n] == ws + ws'[..n];
      ReplayConcat(p, q, ws, ws'[..n]);
    }
  }

  // ----- calls on a device

  /** A call of the device's interface; a mode is a pull setting with or without open drain. */
  datatype Call =
    | ModeCall(pull: PullMode, openDrain: bool, level: Word)
    | StrengthCall(drive: Word)
    | DirCall(direction: Word)
    | AnalogCall(value: bool)
    | AfioCall(af: Word)

  /** Arguments that are values of their enumerations. */
  predicate Typed(c: Call) {
    (c.ModeCall? ==> IsLevel(c.level)) && (c.AfioCall? ==> c.af <= 0xF)
  }

  /** Arguments that are refused whatever the pin. */
  predicate BadArgument(c: Call) {
    match c
    case ModeCall(pull, _, _) => pull.Unknown?
    case StrengthCall(drive) => drive > 7
    case DirCall(direction) => direction > 1
    case _ => false
  }

  predicate Refused(first: Word, last: Word, pin: Word, c: Call) {
    pin < first || pin > last || BadArgument(c)
  }

  function CodeOf(first: Word, last: Word, pin: Word, c: Call): int {
    if Refused(first, last, pin, c) then -EINVAL else RET_OK
  }

  /** What an accepted call writes to slot `k`. */
  function Settings(k: Word, c: Call): seq<Write> {
    match c
    case ModeCall(pull, on, level) => [Write(k, OpenDrain(on)), Write(k, PullSetting(pull, level))]
    case StrengthCall(drive) => [Write(k, Drive(drive))]
    case DirCall(direction) => [Write(k, Mode(direction))]
    case AnalogCall(value) => [Write(k, Mode(if value then 3 else 1))]
    case AfioCall(af) => [Write(k, Alternate(af))]
  }

  function WritesOf(first: Word, last: Word, pin: Word, c: Call): seq<Write> {
    if Refused(first, last, pin, c) then [] else Settings(SlotOf(first, pin), c)
  }

  /** The return values are those of the first calls. */
  predicate Answered(first: Word, last: Word, calls: seq<(Word, Call)>, rets: seq<int>) {
    && |rets| <= |calls|
    && forall i :: 0 <= i < |rets| ==> rets[i] == CodeOf(first, last, calls[i].0, calls[i].1)
  }

  /** The writes of a sequence of calls. */
  function LogOf(first: Word, last: Word, calls: seq<(Word, Call)>): seq<Write> {
    if calls == [] then [] else
      var n := |calls| - 1;
      LogOf(first, last, calls[..n]) + WritesOf(first, last, calls[n].0, calls[n].1)
  }

  /** The registers hold what the logged writes make of the pins at the start. */
  ghost predicate Replays(start: Regs, ws: seq<Write>, r: Regs) {
    forall q: Word {:trigger PinAt(r, q)} :: q < 32 ==> PinAt(r, q) == Replay(PinAt(start, q), q, ws)
  }

  lemma ReplaysOneMore(start: Regs, ws: seq<Write>, r: Regs, w: Write, r': Regs)
    requires Replays(start, ws, r) && Writes(r, w, r')
    ensures Replays(start, ws + [w], r')
  {
    forall q: Word {:trigger PinAt(r', q)} | q < 32
      ensures PinAt(r', q) == Replay(PinAt(start, q), q, ws + [w])
    {
      assert PinAt(r, q) == Replay(PinAt(start, q), q, ws);
      ReplayStep(r, w, r', PinAt(start, q), ws, q);
    }
  }

  /** One more write in the log is one write to the registers. */
  lemma LogIsWrites(start: Regs, ws: seq<Write>, r: Regs, w: Write, r': Regs)
    requires Replays(start, ws, r) && Replays(start, ws + [w], r') && w.slot < 32
    ensures Writes(r, w, r')
  {
    var k := w.slot;
    forall q: Word {:trigger PinAt(r', q)} | q < 32
      ensures PinAt(r', q) == if q == k then With(PinAt(r, k), w.setting) else PinAt(r, q)
    {
      assert PinAt(r, q) == Replay(PinAt(start, q), q, ws);
      assert (ws + [w])[..|ws|] == ws;
    }
  }

  /** A call that is refused, and one that is not. */
  lemma Refusal(first: Word, last: Word, pin: Word, c: Call, log: seq<Write>)
    requires Refused(first, last, pin, c)
    ensures CodeOf(first, last, pin, c) == -EINVAL && log + WritesOf(first, last, pin, c) == log
  {
  }

  lemma Acceptance(first: Word, last: Word, pin: Word, c: Call)
    requires !Refused(first, last, pin, c)
    ensures CodeOf(first, last, pin, c) == RET_OK
    ensures WritesOf(first, last, pin, c) == Settings(SlotOf(first, pin), c)
  {
  }

  lemma LogOneMore(first: Word, last: Word, calls: seq<(Word, Call)>, i: nat, log: seq<Write>)
    requires i < |calls|
    ensures log + LogOf(first, last, calls[..i + 1])
            == log + LogOf(first, last, calls[..i]) + WritesOf(first, last, calls[i].0, calls[i].1)
  {
    assert calls[..i + 1][..i] == calls[..i];
  }

  /** The first `i` calls are answered, and their writes are behind `log0` in the log. */
  ghost predicate Progress(first: Word, last: Word, calls: seq<(Word, Call)>, i: nat,
                           log0: seq<Write>, log: seq<Write>, rets: seq<int>)
  {
    && i <= |calls| && |rets| == i && Answered(first, last, calls, rets)
    && log == log0 + LogOf(first, last, calls[..i])
  }

  lemma NoneLogged(first: Word, last: Word, calls: seq<(Word, Call)>, log: seq<Write>)
    ensures Progress(first, last, calls, 0, log, log, [])
  {
    assert calls[..0] == [];
  }

  lemma OneMoreIssued(first: Word, last: Word, calls: seq<(Word, Call)>, i: nat,
                      log0: seq<Write>, log1: seq<Write>, rets: seq<int>, ret: int, log2: seq<Write>)
    requires i < |calls| && Progress(first, last, calls, i, log0, log1, rets)
    requires ret == CodeOf(first, last, calls[i].0, calls[i].1)
    requires log2 == log1 + WritesOf(first, last, calls[i].0, calls[i].1)
    ensures Progress(first, last, calls, i + 1, log0, log2, rets + [ret])
  {
    LogOneMore(first, last, calls, i, log0);
  }

  lemma AllLogged(first: Word, last: Word, calls: seq<(Word, Call)>,
                  log0: seq<Write>, log: seq<Write>, rets: seq<int>)
    requires Progress(first, last, calls, |calls|, log0, log, rets)
    ensures |rets| == |calls| && Answered(first, last, calls, rets) && log == log0 + LogOf(first, last, calls)
  {
    assert calls[..|calls|] == calls;
  }

  /** What holds from the start holds from any point of the log. */
  lemma ReplaysFrom(start: Regs, ws: seq<Write>, r: Regs, ws': seq<Write>, r': Regs)
    requires Replays(start, ws, r) && Replays(start, ws + ws', r')
    ensures forall q: Word {:trigger PinAt(r', q)} :: q < 32 ==> PinAt(r', q) == Replay(PinAt(r, q), q, ws')
  {
    forall q: Word {:trigger PinAt(r', q)} | q < 32 ensures PinAt(r', q) == Replay(PinAt(r, q), q, ws') {
      assert PinAt(r, q) == Replay(PinAt(start, q), q, ws);
      ReplayConcat(PinAt(start, q), q, ws, ws');
    }
  }

  // ----- which field of which pin a call sets

  /** The record of a pin after an accepted call on it. */
  function Result(p: Pin, c: Call): Pin {
    match c
    case ModeCall(PullUp, on, level) => p.(openDrain := if on then 1 else 0, pullUp := level)
    case ModeCall(PullDown, on, level) => p.(openDrain := if on then 1 else 0, pullDown := level)
    case ModeCall(_, on, _) => p.(openDrain := if on then 1 else 0, pullUp := 0, pullDown := 0)
    case StrengthCall(drive) => p.(drive := drive)
    case DirCall(direction) => p.(mode := direction)
    case AnalogCall(value) => p.(mode := if value then 3 else 1)
    case AfioCall(af) => p.(mode := 2, af := af)
  }

  lemma ReplayOne(p: Pin, q: Word, w: Write)
    ensures Replay(p, q, [w]) == if w.slot == q then With(p, w.setting) else p
  {
    assert [w][..0] == [];
  }

  lemma ReplayTwo(p: Pin, q: Word, w: Write, w': Write)
    requires w.slot == w'.slot
    ensures Replay(p, q, [w, w']) == if w.slot == q then With(With(p, w.setting), w'.setting) else p
  {
    assert [w, w'][..1] == [w];
    ReplayOne(p, q, w);
  }

  lemma ModeReplay(p: Pin, q: Word, k: Word, pull: PullMode, on: bool, level: Word)
    ensures var c := ModeCall(pull, on, level);
            Replay(p, q, Settings(k, c)) == if q == k then Result(p, c) else p
  {
    var w, w' := Write(k, OpenDrain(on)), Write(k, PullSetting(pull, level));
    ReplayTwo(p, q, w, w');
    PullAfterDrain(p, pull, on, level);
  }

  lemma PullAfterDrain(p: Pin, pull: PullMode, on: bool, level: Word)
    ensures With(With(p, OpenDrain(on)), PullSetting(pull, level)) == Result(p, ModeCall(pull, on, level))
  {
  }

  lemma SettingsReplay(p: Pin, q: Word, k: Word, c: Call)
    ensures Replay(p, q, Settings(k, c)) == if q == k then Result(p, c) else p
  {
    match c
    case ModeCall(pull, on, level) => ModeReplay(p, q, k, pull, on, level);
    case StrengthCall(drive) => ReplayOne(p, q, Write(k, Drive(drive)));
    case DirCall(direction) => ReplayOne(p, q, Write(k, Mode(direction)));
    case AnalogCall(value) => ReplayOne(p, q, Write(k, Mode(if value then 3 else 1)));
    case AfioCall(af) => ReplayOne(p, q, Write(k, Alternate(af)));
  }

  /** Slot `k` is that of the pin. */
  predicate HasSlot(first: Word, pin: Word, k: Word) {
    k == pin - first
  }

  /** A call sets the record of the pin it names, counted from the first pin of the device, and no other. */
  lemma CallReplay(p: Pin, q: Word, first: Word, last: Word, pin: Word, c: Call)
    ensures Replay(p, q, WritesOf(first, last, pin, c))
            == if !Refused(first, last, pin, c) && HasSlot(first, pin, q) then Result(p, c) else p
  {
    if !Refused(first, last, pin, c) {
      SettingsReplay(p, q, SlotOf(first, pin), c);
    }
  }

  /** The call changed the record of its own pin as `Result` says, and no other pin. */
  ghost predicate Landed(r: Regs, first: Word, pin: Word, c: Call, r': Regs) {
    pin - first < 32 && PinUpdated(r, pin - first, Result(PinAt(r, pin - first), c), r')
  }

  lemma CallLands(start: Regs, log: seq<Write>, r: Regs, first: Word, last: Word, pin: Word, c: Call, r': Regs)
    requires !Refused(first, last, pin, c) && SlotOf(first, pin) < 32
    requires Replays(start, log, r) && Replays(start, log + WritesOf(first, last, pin, c), r')
    ensures Landed(r, first, pin, c, r')
  {
    SettingsLand(start, log, r, SlotOf(first, pin), c, r');
  }

  lemma SettingsLand(start: Regs, log: seq<Write>, r: Regs, k: Word, c: Call, r': Regs)
    requires k < 32 && Replays(start, log, r) && Replays(start, log + Settings(k, c), r')
    ensures PinUpdated(r, k, Result(PinAt(r, k), c), r')
  {
    ReplaysFrom(start, log, r, Settings(k, c), r');
    forall q: Word {:trigger PinAt(r', q)} | q < 32
      ensures PinAt(r', q) == if q == k then Result(PinAt(r, k), c) else PinAt(r, q)
    {
      SettingsReplay(PinAt(r, q), q, k, c);
    }
  }

  /** The register fields of slot `k`, one by one. */
  ghost predicate Fields(r: Regs, k: Word, p: Pin)
    requires k < 32
  {
    && Pick2(r.MODE0, r.MODE1, k) == p.mode
    && Pick4(r.AFR0, r.AFR1, r.AFR2, r.AFR3, k) == p.af
    && Pick4(r.PU0EN, r.PU1EN, r.PU2EN, r.PU3EN, k) == p.pullUp
    && Pick4(r.PD0EN, r.PD1EN, r.PD2EN, r.PD3EN, k) == p.pullDown
    && Pick4(r.DR0, r.DR1, r.DR2, r.DR3, k) == p.drive
    && Get1(r.OD, k) == p.openDrain
  }

  lemma FieldsAt(r: Regs, k: Word)
    requires k < 32
    ensures Fields(r, k, PinAt(r, k))
  {
  }

  function Pulled(p: Pin, pull: PullMode, level: Word): Pin {
    if pull.PullUp? then p.(pullUp := level)
    else if pull.PullDown? then p.(pullDown := level)
    else p.(pullUp := 0, pullDown := 0)
  }

  lemma ResultIs(p: Pin, c: Call)
    ensures c.DirCall? ==> Result(p, c) == p.(mode := c.direction)
    ensures c.AnalogCall? ==> Result(p, c) == p.(mode := if c.value then 3 else 1)
    ensures c.AfioCall? ==> Result(p, c) == p.(mode := 2, af := c.af)
    ensures c.StrengthCall? ==> Result(p, c) == p.(drive := c.drive)
    ensures c.ModeCall? ==> Result(p, c) == Pulled(p.(openDrain := if c.openDrain then 1 else 0), c.pull, c.level)
  {
  }

  /** What each accepted call leaves in the registers of its pin; `k` is the pin counted from the first one. */
  lemma LandedFields(r: Regs, first: Word, pin: Word, c: Call, r': Regs, k: Word, p: Pin)
    requires k == pin - first && k < 32 && p == PinAt(r, k) && Landed(r, first, pin, c, r')
    ensures Fields(r', k, Result(p, c))
    ensures c.DirCall? ==> Result(p, c) == p.(mode := c.direction)
    ensures c.AnalogCall? ==> Result(p, c) == p.(mode := if c.value then 3 else 1)
    ensures c.AfioCall? ==> Result(p, c) == p.(mode := 2, af := c.af)
    ensures c.StrengthCall? ==> Result(p, c) == p.(drive := c.drive)
    ensures c.ModeCall? ==> Result(p, c) == Pulled(p.(openDrain := if c.openDrain then 1 else 0), c.pull, c.level)
  {
    LandedRecord(r, first, pin, c, r', k);
    ResultIs(p, c);
  }

  lemma LandedRecord(r: Regs, first: Word, pin: Word, c: Call, r': Regs, k: Word)
    requires k == pin - first && k < 32 && Landed(r, first, pin, c, r')
    ensures Fields(r', k, Result(PinAt(r, k), c))
  {
    FieldsAt(r', k);
    assert PinAt(r', k) == Result(PinAt(r, k), c);
  }

  /** The other slots keep every field. */
  lemma OthersKept(r: Regs, first: Word, pin: Word, c: Call, r': Regs, q: Word)
    requires Landed(r, first, pin, c, r') && q < 32 && q != pin - first
    ensures Fields(r', q, PinAt(r, q))
  {
    FieldsAt(r', q);
    assert PinAt(r', q) == PinAt(r, q);
  }

  datatype Field = ModeField | AfField | PullUpField | PullDownField | DriveField | OpenDrainField

  function ValueOf(p: Pin, f: Field): Word {
    match f
    case ModeField => p.mode
    case AfField => p.af
    case PullUpField => p.pullUp
    case PullDownField => p.pullDown
    case DriveField => p.drive
    case OpenDrainField => p.openDrain
  }

  /** The call decides the field. */
  predicate Governs(c: Call, f: Field) {
    match c
    case ModeCall(pull, _, _) =>
      f.OpenDrainField? || (f.PullUpField? && !pull.PullDown?) || (f.PullDownField? && !pull.PullUp?)
    case StrengthCall(_) => f.DriveField?
    case DirCall(_) => f.ModeField?
    case AnalogCall(_) => f.ModeField?
    case AfioCall(_) => f.ModeField? || f.AfField?
  }

  /** The value the call gives to a field it decides. */
  function NewValue(c: Call, f: Field): Word {
    match c
    case ModeCall(pull, on, level) =>
      if f.OpenDrainField? then (if on then 1 else 0) else if pull.PullUp? || pull.PullDown? then level else 0
    case StrengthCall(drive) => drive
    case DirCall(direction) => direction
    case AnalogCall(value) => if value then 3 else 1
    case AfioCall(af) => if f.ModeField? then 2 else af
  }

  lemma ResultSets(p: Pin, c: Call, f: Field)
    ensures ValueOf(Result(p, c), f) == if Governs(c, f) then NewValue(c, f) else ValueOf(p, f)
  {
    if c.ModeCall? {
      ModeResultSets(p, c.pull, c.openDrain, c.level, f);
    }
  }

  lemma ModeResultSets(p: Pin, pull: PullMode, on: bool, level: Word, f: Field)
    ensures var c := ModeCall(pull, on, level);
            ValueOf(Result(p, c), f) == if Governs(c, f) then NewValue(c, f) else ValueOf(p, f)
  {
  }

  /** The call is an accepted one on the pin and decides the field. */
  predicate Decides(first: Word, last: Word, call: (Word, Call), pin: Word, f: Field) {
    call.0 == pin && !Refused(first, last, pin, call.1) && Governs(call.1, f)
  }

  /** What the last deciding call says, `v` if there is none. */
  function Latest(first: Word, last: Word, calls: seq<(Word, Call)>, pin: Word, f: Field, v: Word): Word {
    if calls == [] then v else
      var n := |calls| - 1;
      if Decides(first, last, calls[n], pin, f) then NewValue(calls[n].1, f)
      else Latest(first, last, calls[..n], pin, f, v)
  }

  lemma {:induction false} LatestIs(first: Word, last: Word, calls: seq<(Word, Call)>, pin: Word, f: Field,
                                    v: Word, i: int)
    requires -1 <= i < |calls| && (i >= 0 ==> Decides(first, last, calls[i], pin, f))
    requires forall j :: i < j < |calls| ==> !Decides(first, last, calls[j], pin, f)
    ensures Latest(first, last, calls, pin, f, v) == if i < 0 then v else NewValue(calls[i].1, f)
    decreases |calls|
  {
    if calls != [] && i < |calls| - 1 {
      LatestIs(first, last, calls[..|calls| - 1], pin, f, v, i);
    }
  }

  /**
   * After any sequence of calls each field of each pin is what the last accepted call on that pin
   * that decides the field says.
   */
  lemma {:induction false} LastCallDecides(first: Word, last: Word, calls: seq<(Word, Call)>,
                                           pin: Word, k: Word, f: Field, p: Pin)
    requires HasSlot(first, pin, k)
    ensures ValueOf(Replay(p, k, LogOf(first, last, calls)), f) == Latest(first, last, calls, pin, f, ValueOf(p, f))
    decreases |calls|
  {
    if calls != [] {
      var n := |calls| - 1;
      var log, call := LogOf(first, last, calls[..n]), calls[n];
      LastCallDecides(first, last, calls[..n], pin, k, f, p);
      ReplayConcat(p, k, log, WritesOf(first, last, call.0, call.1));
      OneCallDecides(first, last, call, pin, k, f, Replay(p, k, log));
    }
  }

  lemma CallsDecide(r: Regs, first: Word, last: Word, calls: seq<(Word, Call)>, r': Regs)
    requires forall q: Word {:trigger PinAt(r', q)} :: q < 32 ==>
               PinAt(r', q) == Replay(PinAt(r, q), q, LogOf(first, last, calls))
    ensures forall pin: Word, k: Word, f: Field {:trigger HasSlot(first, pin, k), ValueOf(PinAt(r', k), f)} ::
              HasSlot(first, pin, k) && k < 32 ==>
                ValueOf(PinAt(r', k), f) == Latest(first, last, calls, pin, f, ValueOf(PinAt(r, k), f))
  {
    forall pin: Word, k: Word, f: Field {:trigger HasSlot(first, pin, k), ValueOf(PinAt(r', k), f)}
      | HasSlot(first, pin, k) && k < 32
      ensures ValueOf(PinAt(r', k), f) == Latest(first, last, calls, pin, f, ValueOf(PinAt(r, k), f))
    {
      LastCallDecides(first, last, calls, pin, k, f, PinAt(r, k));
    }
  }

  lemma OneCallDecides(first: Word, last: Word, call: (Word, Call), pin: Word, k: Word, f: Field, p: Pin)
    requires HasSlot(first, pin, k)
    ensures ValueOf(Replay(p, k, WritesOf(first, last, call.0, call.1)), f)
            == if Decides(first, last, call, pin, f) then NewValue(call.1, f) else ValueOf(p, f)
  {
    CallReplay(p, k, first, last, call.0, call.1);
    SameSlot(first, pin, call.0, k);
    ResultSets(p, call.1, f);
  }

  lemma SameSlot(first: Word, pin: Word, pin': Word, k: Word)
    requires HasSlot(first, pin, k)
    ensures HasSlot(first, pin', k) <==> pin == pin'
  {
  }

  // ----- the setters

  /** The spread masks of slot `k` of a half: mode bit, nibble of the low and of the high register. */
  function LowMask(k: Word): Word
    requires k < 16
  {
    if k < 8 then (1 as Word) << (k * 4) else 0
  }

  function HighMask(k: Word): Word
    requires k < 16
  {
    if k < 8 then 0 else (1 as Word) << ((k - 8) * 4)
  }

  lemma StampPair(lo: Word, hi: Word, k: Word, af: Word)
    requires k < 16 && af <= 0xF
    ensures Stamp(lo, LowMask(k), af) == if k < 8 then Set4(lo, k, af) else lo
    ensures Stamp(hi, HighMask(k), af) == if k < 8 then hi else Set4(hi, k - 8, af)
  {
    if k < 8 {
      StampSetsNibble(lo, k, af);
      StampOfNothing(hi, HighMask(k), af);
    } else {
      StampSetsNibble(hi, k - 8, af);
      StampOfNothing(lo, LowMask(k), af);
    }
  }

  /** The two spreading sequences, for a mask with one bit. */
  method SpreadPin(bits: Word, k: Word) returns (pinMode: Word, afrl: Word, afrh: Word)
    requires k < 16 && bits == (1 as Word) << k
    ensures pinMode == (1 as Word) << (k * 2) && afrl == LowMask(k) && afrh == HighMask(k)
  {
    SpreadSelectsPin(k);
    pinMode := SpreadMode(bits);
    var afr := SpreadAfr(pinMode);
    afrl := afr & 0x11111111;
    afrh := (afr >> 1) & 0x11111111;
  }

  lemma HighHalf(k: Word)
    requires 16 <= k < 32
    ensures k - 16 < 16
    ensures ((1 as Word) << k) >> 16 == (1 as Word) << (k - 16)
  {
  }

  lemma AfioUpdates(r: Regs, k: Word, af: Word)
    requires k < 32 && af <= 0xF
    ensures PinUpdated(r, k, PinAt(r, k).(af := af, mode := 2), AlterMode(PutAf(r, k, af), k))
  {
    var r1 := PutAf(r, k, af);
    PutAfUpdates(r, k, af);
    AlterModeUpdates(r1, k);
    UpdatesCompose(r, k, PinAt(r1, k), r1, PinAt(r1, k).(mode := 2), AlterMode(r1, k));
  }

  class Gpio {
    var hw: Regs
    const first: Word
    const last: Word
    ghost const start: Regs
    ghost var log: seq<Write>

    constructor (first: Word, last: Word, hw: Regs)
      ensures this.first == first && this.last == last && this.hw == hw
      ensures Valid() && start == hw && log == []
    {
      this.first, this.last, this.hw := first, last, hw;
      this.start, this.log := hw, [];
    }

    /**
     * After every run of calls, refused ones included, the record of each pin is what the logged
     * writes of that pin alone make of it.
     */
    ghost predicate Valid()
      reads this
    {
      Replays(start, log, hw)
    }

    /** Every pin of the device has one of the 32 slots its registers hold. */
    ghost predicate Sized() {
      forall p: Word {:trigger SlotOf(first, p)} :: first <= p <= last ==> SlotOf(first, p) < 32
    }

    /** `hggpio_v2_set_pull`. */
    method SetPull(pin: Word, pull: PullMode, level: Word) returns (ret: int)
      requires Valid() && IsLevel(level)
      modifies this
      ensures Valid() && ret == if pin >= 32 || pull.Unknown? then -EINVAL else RET_OK
      ensures ret != RET_OK ==> hw == old(hw) && log == old(log)
      ensures ret == RET_OK ==>
                var w := Write(pin, PullSetting(pull, level)); Writes(old(hw), w, hw) && log == old(log) + [w]
    {
      if pin >= 32 {
        return -EINVAL;
      }
      if pull.Unknown? {
        return -EINVAL;
      }
      ghost var r, w := hw, Write(pin, PullSetting(pull, level));
      SwitchPull(pin, pull, level);
      ReplaysOneMore(start, log, r, w, hw);
      log := log + [w];
      ret := RET_OK;
    }

    method SwitchPull(pin: Word, pull: PullMode, level: Word)
      requires pin < 32 && IsLevel(level) && !pull.Unknown?
      modifies this`hw
      ensures Writes(old(hw), Write(pin, PullSetting(pull, level)), hw)
    {
      ghost var r := hw;
      if pull.PullNone? {
        ClearPulls(pin);
        IsWrite(r, pin, NoPulls, PinAt(r, pin).(pullUp := 0, pullDown := 0), hw);
      } else if pull.PullUp? {
        PullUpNibble(pin, level);
        IsWrite(r, pin, Up(level), PinAt(r, pin).(pullUp := level), hw);
      } else {
        PullDownNibble(pin, level);
        IsWrite(r, pin, Down(level), PinAt(r, pin).(pullDown := level), hw);
      }
    }

    method ClearPulls(pin: Word)
      requires pin < 32
      modifies this`hw
      ensures PinUpdated(old(hw), pin, PinAt(old(hw), pin).(pullUp := 0, pullDown := 0), hw)
    {
      ghost var r := hw;
      if pin < 8 {
        hw := hw.(PD0EN := Clear4(hw.PD0EN, pin), PU0EN := Clear4(hw.PU0EN, pin));
      } else if pin < 16 {
        hw := hw.(PD1EN := Clear4(hw.PD1EN, pin - 8), PU1EN := Clear4(hw.PU1EN, pin - 8));
      } else if pin < 24 {
        hw := hw.(PD2EN := Clear4(hw.PD2EN, pin - 16), PU2EN := Clear4(hw.PU2EN, pin - 16));
      } else {
        hw := hw.(PD3EN := Clear4(hw.PD3EN, pin - 24), PU3EN := Clear4(hw.PU3EN, pin - 24));
      }
      assert hw == WipePulls(r, pin);
      WipePullsUpdates(r, pin);
    }

    method PullUpNibble(pin: Word, level: Word)
      requires pin < 32 && IsLevel(level)
      modifies this`hw
      ensures PinUpdated(old(hw), pin, PinAt(old(hw), pin).(pullUp := level), hw)
    {
      ghost var r := hw;
      if pin < 8 {
        hw := hw.(PU0EN := Set4(hw.PU0EN, pin, level));
      } else if pin < 16 {
        hw := hw.(PU1EN := Set4(hw.PU1EN, pin - 8, level));
      } else if pin < 24 {
        hw := hw.(PU2EN := Set4(hw.PU2EN, pin - 16, level));
      } else {
        hw := hw.(PU3EN := Set4(hw.PU3EN, pin - 24, level));
      }
      assert hw == PutPullUp(r, pin, level);
      PutPullUpUpdates(r, pin, level);
    }

    method PullDownNibble(pin: Word, level: Word)
      requires pin < 32 && IsLevel(level)
      modifies this`hw
      ensures PinUpdated(old(hw), pin, PinAt(old(hw), pin).(pullDown := level), hw)
    {
      ghost var r := hw;
      if pin < 8 {
        hw := hw.(PD0EN := Set4(hw.PD0EN, pin, level));
      } else if pin < 16 {
        hw := hw.(PD1EN := Set4(hw.PD1EN, pin - 8, level));
      } else if pin < 24 {
        hw := hw.(PD2EN := Set4(hw.PD2EN, pin - 16, level));
      } else {
        hw := hw.(PD3EN := Set4(hw.PD3EN, pin - 24, level));
      }
      assert hw == PutPullDown(r, pin, level);
      PutPullDownUpdates(r, pin, level);
    }

    /** `hggpio_v2_set_driver_strength`; strengths run from 0 to 7. */
    method SetDriverStrength(pin: Word, drive: Word) returns (ret: int)
      requires Valid()
      modifies this
      ensures Valid() && ret == if drive > 7 || pin >= 32 then -EINVAL else RET_OK
      ensures ret != RET_OK ==> hw == old(hw) && log == old(log)
      ensures ret == RET_OK ==>
                var w := Write(pin, Drive(drive)); Writes(old(hw), w, hw) && log == old(log) + [w]
    {
      if drive > 7 || pin >= 32 {
        return -EINVAL;
      }
      ghost var r, w := hw, Write(pin, Drive(drive));
      DriveNibble(pin, drive);
      ReplaysOneMore(start, log, r, w, hw);
      log := log + [w];
      ret := RET_OK;
    }

    method DriveNibble(pin: Word, drive: Word)
      requires pin < 32 && drive <= 7
      modifies this`hw
      ensures PinUpdated(old(hw), pin, PinAt(old(hw), pin).(drive := drive), hw)
    {
      ghost var r := hw;
      if pin < 8 {
        hw := hw.(DR0 := Set4(hw.DR0, pin, drive));
      } else if pin < 16 {
        hw := hw.(DR1 := Set4(hw.DR1, pin - 8, drive));
      } else if pin < 24 {
        hw := hw.(DR2 := Set4(hw.DR2, pin - 16, drive));
      } else {
        hw := hw.(DR3 := Set4(hw.DR3, pin - 24, drive));
      }
      assert hw == PutDrive(r, pin, drive);
      PutDriveUpdates(r, pin, drive);
    }

    /** `hggpio_v2_dir`: mode 0 for input, 1 for output. */
    method Dir(pin: Word, direction: Word) returns (ret: int)
      requires Valid() && Sized()
      modifies this
      ensures Valid() && ret == CodeOf(first, last, pin, DirCall(direction))
      ensures log == old(log) + WritesOf(first, last, pin, DirCall(direction))
      ensures ret != RET_OK ==> hw == old(hw)
      ensures ret == if first <= pin <= last && direction <= 1 then RET_OK else -EINVAL
      ensures ret == RET_OK ==> Landed(old(hw), first, pin, DirCall(direction), hw)
    {
      ghost var c := DirCall(direction);
      if pin < first || pin > last || direction > 1 {
        Refusal(first, last, pin, c, log);
        return -EINVAL;
      }
      Acceptance(first, last, pin, c);
      ghost var r := hw;
      SetDir(SlotOf(first, pin), direction);
      CallLands(start, old(log), r, first, last, pin, c, hw);
      ret := RET_OK;
    }

    method SetDir(k: Word, direction: Word)
      requires Valid() && k < 32 && direction <= 1
      modifies this
      ensures Valid() && log == old(log) + [Write(k, Mode(direction))]
    {
      ghost var r, w := hw, Write(k, Mode(direction));
      if direction == 0 {
        InputMode(k);
      } else {
        OutputMode(k);
      }
      ReplaysOneMore(start, log, r, w, hw);
      log := log + [w];
    }

    method InputMode(k: Word)
      requires k < 32
      modifies this`hw
      ensures PinUpdated(old(hw), k, PinAt(old(hw), k).(mode := 0), hw)
    {
      ghost var r := hw;
      if k >= 16 {
        hw := hw.(MODE1 := Clear2(hw.MODE1, k - 16));
      } else {
        hw := hw.(MODE0 := Clear2(hw.MODE0, k));
      }
      assert hw == WipeMode(r, k);
      WipeModeUpdates(r, k);
    }

    method OutputMode(k: Word)
      requires k < 32
      modifies this`hw
      ensures PinUpdated(old(hw), k, PinAt(old(hw), k).(mode := 1), hw)
    {
      ghost var r := hw;
      if k >= 16 {
        hw := hw.(MODE1 := Set2(hw.MODE1, k - 16, 1));
      } else {
        hw := hw.(MODE0 := Set2(hw.MODE0, k, 1));
      }
      assert hw == PutMode(r, k, 1);
      PutModeUpdates(r, k, 1);
    }

    method AnalogMode(k: Word)
      requires k < 32
      modifies this`hw
      ensures PinUpdated(old(hw), k, PinAt(old(hw), k).(mode := 3), hw)
    {
      ghost var r := hw;
      if k >= 16 {
        hw := hw.(MODE1 := Fill2(hw.MODE1, k - 16));
      } else {
        hw := hw.(MODE0 := Fill2(hw.MODE0, k));
      }
      assert hw == FloodMode(r, k);
      FloodModeUpdates(r, k);
    }

    /** `hggpio_v2_anolog_en`: mode 3 when enabled, output mode when disabled. */
    method AnalogEn(pin: Word, value: bool) returns (ret: int)
      requires Valid() && Sized()
      modifies this
      ensures Valid() && ret == CodeOf(first, last, pin, AnalogCall(value))
      ensures log == old(log) + WritesOf(first, last, pin, AnalogCall(value))
      ensures ret != RET_OK ==> hw == old(hw)
      ensures ret == if first <= pin <= last then RET_OK else -EINVAL
      ensures ret == RET_OK ==> Landed(old(hw), first, pin, AnalogCall(value), hw)
    {
      ghost var c := AnalogCall(value);
      if pin < first || pin > last {
        Refusal(first, last, pin, c, log);
        return -EINVAL;
      }
      Acceptance(first, last, pin, c);
      ghost var r := hw;
      SetAnalog(SlotOf(first, pin), value);
      CallLands(start, old(log), r, first, last, pin, c, hw);
      ret := RET_OK;
    }

    method SetAnalog(k: Word, value: bool)
      requires Valid() && k < 32
      modifies this
      ensures Valid() && log == old(log) + [Write(k, Mode(if value then 3 else 1))]
    {
      ghost var r, w := hw, Write(k, Mode(if value then 3 else 1));
      if value {
        AnalogMode(k);
      } else {
        OutputMode(k);
      }
      ReplaysOneMore(start, log, r, w, hw);
      log := log + [w];
    }

    /** `hggpio_v2_afio`: selects the alternate function and mode 2. */
    method Afio(pin: Word, af: Word) returns (ret: int)
      requires Valid() && Sized() && af <= 0xF
      modifies this
      ensures Valid() && ret == CodeOf(first, last, pin, AfioCall(af))
      ensures log == old(log) + WritesOf(first, last, pin, AfioCall(af))
      ensures ret != RET_OK ==> hw == old(hw)
      ensures ret == if first <= pin <= last then RET_OK else -EINVAL
      ensures ret == RET_OK ==> Landed(old(hw), first, pin, AfioCall(af), hw)
    {
      ghost var c := AfioCall(af);
      if pin < first || pin > last {
        Refusal(first, last, pin, c, log);
        return -EINVAL;
      }
      Acceptance(first, last, pin, c);
      ghost var r := hw;
      SetAfio(SlotOf(first, pin), af);
      CallLands(start, old(log), r, first, last, pin, c, hw);
      ret := RET_OK;
    }

    method SetAfio(k: Word, af: Word)
      requires Valid() && k < 32 && af <= 0xF
      modifies this
      ensures Valid() && log == old(log) + [Write(k, Alternate(af))]
    {
      ghost var r, w := hw, Write(k, Alternate(af));
      if k <= 15 {
        AfioLow(k, af);
      } else {
        AfioHigh(k, af);
      }
      AfioUpdates(r, k, af);
      ReplaysOneMore(start, log, r, w, hw);
      log := log + [w];
    }

    method AfioLow(k: Word, af: Word)
      requires k < 16 && af <= 0xF
      modifies this`hw
      ensures hw == AlterMode(PutAf(old(hw), k, af), k)
    {
      var pinMode, afrl, afrh := SpreadPin((1 as Word) << k, k);
      StampPair(hw.AFR0, hw.AFR1, k, af);
      hw := hw.(AFR0 := Stamp(hw.AFR0, afrl, af));
      hw := hw.(AFR1 := Stamp(hw.AFR1, afrh, af));
      hw := hw.(MODE0 := AltMode(hw.MODE0, pinMode));
    }

    method AfioHigh(k: Word, af: Word)
      requires 16 <= k < 32 && af <= 0xF
      modifies this`hw
      ensures hw == AlterMode(PutAf(old(hw), k, af), k)
    {
      HighHalf(k);
      var pinMode, afrl, afrh := SpreadPin(((1 as Word) << k) >> 16, k - 16);
      StampPair(hw.AFR2, hw.AFR3, k - 16, af);
      hw := hw.(AFR2 := Stamp(hw.AFR2, afrl, af));
      hw := hw.(AFR3 := Stamp(hw.AFR3, afrh, af));
      hw := hw.(MODE1 := AltMode(hw.MODE1, pinMode));
    }

    /** `hggpio_v2_mode` with `hggpio_v2_set_mode`: open drain first, then the pull. */
    method PinMode(pin: Word, pull: PullMode, openDrain: bool, level: Word) returns (ret: int)
      requires Valid() && Sized() && IsLevel(level)
      modifies this
      ensures Valid() && ret == CodeOf(first, last, pin, ModeCall(pull, openDrain, level))
      ensures log == old(log) + WritesOf(first, last, pin, ModeCall(pull, openDrain, level))
      ensures ret != RET_OK ==> hw == old(hw)
      ensures ret == if first <= pin <= last && !pull.Unknown? then RET_OK else -EINVAL
      ensures ret == RET_OK ==> Landed(old(hw), first, pin, ModeCall(pull, openDrain, level), hw)
    {
      ghost var c := ModeCall(pull, openDrain, level);
      if pin < first || pin > last {
        Refusal(first, last, pin, c, log);
        return -EINVAL;
      }
      ghost var r := hw;
      ret := SetMode(SlotOf(first, pin), pull, openDrain, level);
      if ret != RET_OK {
        Refusal(first, last, pin, c, log);
      } else {
        Acceptance(first, last, pin, c);
        CallLands(start, old(log), r, first, last, pin, c, hw);
      }
    }

    /** `hggpio_v2_set_mode`. */
    method SetMode(k: Word, pull: PullMode, openDrain: bool, level: Word) returns (ret: int)
      requires Valid() && k < 32 && IsLevel(level)
      modifies this
      ensures Valid() && ret == if pull.Unknown? then -EINVAL else RET_OK
      ensures ret != RET_OK ==> hw == old(hw) && log == old(log)
      ensures ret == RET_OK ==> log == old(log) + Settings(k, ModeCall(pull, openDrain, level))
    {
      if pull.Unknown? {
        return -EINVAL;
      }
      SetOpenDrain(k, openDrain);
      ret := SetPull(k, pull, level);
      assert log == old(log) + [Write(k, OpenDrain(openDrain)), Write(k, PullSetting(pull, level))];
    }

    method SetOpenDrain(k: Word, on: bool)
      requires Valid() && k < 32
      modifies this
      ensures Valid() && log == old(log) + [Write(k, OpenDrain(on))]
      ensures Writes(old(hw), Write(k, OpenDrain(on)), hw)
    {
      ghost var r, w := hw, Write(k, OpenDrain(on));
      hw := hw.(OD := Put1(hw.OD, k, on));
      OpenDrainUpdates(r, k, on);
      IsWrite(r, k, OpenDrain(on), PinAt(r, k).(openDrain := if on then 1 else 0), hw);
      ReplaysOneMore(start, log, r, w, hw);
      log := log + [w];
    }

    /** `hggpio_v2_driver_strength`. */
    method DriverStrength(pin: Word, drive: Word) returns (ret: int)
      requires Valid() && Sized()
      modifies this
      ensures Valid() && ret == CodeOf(first, last, pin, StrengthCall(drive))
      ensures log == old(log) + WritesOf(first, last, pin, StrengthCall(drive))
      ensures ret != RET_OK ==> hw == old(hw)
      ensures ret == if first <= pin <= last && drive <= 7 then RET_OK else -EINVAL
      ensures ret == RET_OK ==> Landed(old(hw), first, pin, StrengthCall(drive), hw)
    {
      if pin < first || pin > last {
        return -EINVAL;
      }
      ghost var c, r := StrengthCall(drive), hw;
      ret := SetDriverStrength(SlotOf(first, pin), drive);
      if ret == RET_OK {
        CallLands(start, old(log), r, first, last, pin, c, hw);
      }
    }

    /** One call on any pin, whether or not it is refused. */
    method Issue(pin: Word, c: Call) returns (ret: int)
      requires Valid() && Sized() && Typed(c)
      modifies this
      ensures Valid() && ret == CodeOf(first, last, pin, c)
      ensures log == old(log) + WritesOf(first, last, pin, c)
      ensures if ret == RET_OK then Landed(old(hw), first, pin, c, hw) else hw == old(hw)
    {
      match c
      case ModeCall(pull, on, level) => ret := PinMode(pin, pull, on, level);
      case StrengthCall(drive) => ret := DriverStrength(pin, drive);
      case DirCall(direction) => ret := Dir(pin, direction);
      case AnalogCall(value) => ret := AnalogEn(pin, value);
      case AfioCall(af) => ret := Afio(pin, af);
    }

    method IssueEach(calls: seq<(Word, Call)>) returns (rets: seq<int>)
      requires Valid() && Sized() && forall i :: 0 <= i < |calls| ==> Typed(calls[i].1)
      modifies this
      ensures Valid() && log == old(log) + LogOf(first, last, calls)
      ensures |rets| == |calls| && Answered(first, last, calls, rets)
    {
      rets := [];
      NoneLogged(first, last, calls, log);
      for i := 0 to |calls|
        invariant Valid() && Progress(first, last, calls, i, old(log), log, rets)
      {
        ghost var log1 := log;
        var ret := Issue(calls[i].0, calls[i].1);
        OneMoreIssued(first, last, calls, i, old(log), log1, rets, ret, log);
        rets := rets + [ret];
      }
      AllLogged(first, last, calls, old(log), log, rets);
    }

    /**
     * After every sequence of calls, refused ones included, each pin's record is what the accepted
     * calls on that pin alone make of its record before: every field is what the last accepted call
     * on the pin that decides it says.
     */
    method IssueAll(calls: seq<(Word, Call)>) returns (rets: seq<int>)
      requires Valid() && Sized() && forall i :: 0 <= i < |calls| ==> Typed(calls[i].1)
      modifies this
      ensures Valid() && log == old(log) + LogOf(first, last, calls)
      ensures |rets| == |calls| && Answered(first, last, calls, rets)
      ensures forall q: Word {:trigger PinAt(hw, q)} :: q < 32 ==>
                PinAt(hw, q) == Replay(PinAt(old(hw), q), q, LogOf(first, last, calls))
      ensures forall pin: Word, k: Word, f: Field {:trigger HasSlot(first, pin, k), ValueOf(PinAt(hw, k), f)} ::
                HasSlot(first, pin, k) && k < 32 ==>
                  ValueOf(PinAt(hw, k), f) == Latest(first, last, calls, pin, f, ValueOf(PinAt(old(hw), k), f))
    {
      rets := IssueEach(calls);
      ReplaysFrom(start, old(log), old(hw), LogOf(first, last, calls), hw);
      CallsDecide(old(hw), first, last, calls, hw);
    }
  }
}
