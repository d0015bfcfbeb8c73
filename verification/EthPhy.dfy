/**
 * The Ethernet PHY state machine: link tracking, link-change events, the negotiation timeout
 * and the choice of a forced speed. What the PHY driver callbacks return and leave in the
 * device is an input of each step.
 */
module EthPhy {

  const WORD: int := 0x1_0000_0000

  // ----- registers

  type Reg = bv16

  const BMSR_LSTATUS: Reg := 0x4
  const BMSR_ANEGCOMPLETE: Reg := 0x20
  const BMCR_FULLDPLX: Reg := 0x100
  const BMCR_SPEED1000: Reg := 0x40
  const BMCR_SPEED100: Reg := 0x2000

  type Errno = x: int | x < 0 witness -1

  /** What a register read returns. */
  datatype Answer = Failed(err: Errno) | Got(value: Reg)

  /** A bit of `mask` is set in the register. */
  predicate Has(x: Answer, mask: Reg) {
    x.Got? && x.value & mask != 0
  }

  // ----- forced settings

  datatype Duplex = Half | Full

  datatype Setting = Setting(speed: int, duplex: Duplex, bit: int)

  const SUPPORTED_AUTONEG: int := 6

  /** The settings table, fastest first; `bit` is the number of the SUPPORTED_ bit. */
  const SETTINGS: seq<Setting> := [
    Setting(1000, Full, 5), Setting(1000, Half, 4),
    Setting(100, Full, 3), Setting(100, Half, 2),
    Setting(10, Full, 1), Setting(10, Half, 0)]

  const LAST: int := 5

  /** A feature word, as the set of its bits. */
  type Features = set<int>

  predicate Offers(features: Features, i: int)
    requires 0 <= i <= LAST
  {
    SETTINGS[i].bit in features
  }

  /** No setting from `lo` up to `hi` is offered. */
  predicate NoneOffered(features: Features, lo: int, hi: int)
    requires 0 <= lo && hi <= LAST + 1
  {
    forall j {:trigger Offers(features, j)} :: lo <= j < hi ==> !Offers(features, j)
  }

  /** `idx` is the first offered setting from `start` on, or the last setting when none is. */
  predicate IsPick(features: Features, start: int, idx: int)
    requires 0 <= start <= LAST
  {
    && start <= idx <= LAST
    && NoneOffered(features, start, idx)
    && (Offers(features, idx) || idx == LAST)
  }

  function Pick(features: Features, start: int): (idx: int)
    requires 0 <= start <= LAST
    ensures IsPick(features, start, idx)
    decreases LAST - start
  {
    if Offers(features, start) || start == LAST then start else Pick(features, start + 1)
  }

  lemma {:induction false} PickUnique(features: Features, start: int, idx: int)
    requires 0 <= start <= LAST && IsPick(features, start, idx)
    ensures idx == Pick(features, start)
  {
    assert IsPick(features, start, Pick(features, start));
  }

  /** `eth_phy_find_setting`. */
  method FindSetting(advertising: Features) returns (idx: int)
    ensures IsPick(advertising, 0, idx)
  {
    idx := 0;
    while idx < |SETTINGS| && SETTINGS[idx].bit !in advertising
      invariant 0 <= idx <= LAST + 1
      invariant NoneOffered(advertising, 0, idx)
    {
      assert !Offers(advertising, idx);
      idx := idx + 1;
    }
    if idx == |SETTINGS| {
      idx := |SETTINGS| - 1;
    }
  }

  /** `eth_phy_find_valid`: searches towards slower settings. */
  method FindValid(start: int, features: Features) returns (idx: int)
    requires 0 <= start <= LAST
    ensures IsPick(features, start, idx)
  {
    idx := start;
    while idx < |SETTINGS| && SETTINGS[idx].bit !in features
      invariant start <= idx <= LAST + 1
      invariant NoneOffered(features, start, idx)
    {
      assert !Offers(features, idx);
      idx := idx + 1;
    }
    if idx == |SETTINGS| {
      idx := |SETTINGS| - 1;
    }
  }

  /** The setting `eth_phy_sanitize_settings` forces. */
  function Chosen(advertising: Features, supported: Features): int {
    Pick(supported, Pick(advertising, 0))
  }

  /**
   * The forced setting is supported exactly when some supported setting is no faster than the
   * fastest advertised one (the slowest setting, when nothing is advertised).
   */
  lemma ChosenSupported(advertising: Features, supported: Features)
    ensures Offers(supported, Chosen(advertising, supported))
            <==> exists j {:trigger Offers(supported, j)} ::
                   Pick(advertising, 0) <= j <= LAST && Offers(supported, j)
  {
    var start := Pick(advertising, 0);
    var idx := Chosen(advertising, supported);
    assert IsPick(supported, start, idx);
    if j :| start <= j <= LAST && Offers(supported, j) {
      assert idx <= j;
    }
  }

  /** When the device advertises only what it supports, its fastest advertised setting is forced. */
  lemma ChosenIsFastest(advertising: Features, supported: Features, j: int)
    requires advertising <= supported
    requires 0 <= j <= LAST && Offers(advertising, j)
    ensures var idx := Chosen(advertising, supported);
            Offers(advertising, idx) && Offers(supported, idx) && idx <= j
  {
    var start := Pick(advertising, 0);
    assert IsPick(advertising, 0, start);
    assert Offers(advertising, start);
    assert SETTINGS[start].bit in supported;
    assert Offers(supported, start);
    assert Pick(supported, start) == start;
  }

  // ----- the device

  datatype State =
    Down | Starting | Ready | Pending | Up | An | Running | NoLink | Forcing | ChangeLink | Halted | Resuming

  /**
   * The device. `events` are the link values reported so far and `configs` counts the calls of
   * the driver's `config_aneg`.
   */
  datatype Phy = Phy(state: State, link: bool, autoneg: bool, timeout: int,
                     advertising: Features, supported: Features, speed: int, duplex: Duplex,
                     events: seq<bool>, configs: nat)

  /** What a status read returns and leaves in the device. */
  datatype Reading = Reading(err: int, link: bool, speed: int, duplex: Duplex)

  /** What `config_aneg` returns and leaves in the device. */
  datatype Config = Config(err: int, advertising: Features)

  /** The driver's answers during one pass of the state machine. */
  datatype Input = Input(status: Reading, bmsr: Answer, config: Config)

  /** `eth_phy_aneg_done`: a read error, or the completion bit. */
  function AnegDone(bmsr: Answer): int {
    if bmsr.Failed? then bmsr.err else if Has(bmsr, BMSR_ANEGCOMPLETE) then 0x20 else 0
  }

  function Sanitized(p: Phy): Phy {
    var s := SETTINGS[Chosen(p.advertising, p.supported)];
    p.(autoneg := p.autoneg && SUPPORTED_AUTONEG in p.supported, speed := s.speed, duplex := s.duplex)
  }

  /** `eth_phy_start_aneg`. */
  function Negotiate(p: Phy, c: Config): Phy {
    var q := if p.autoneg then p else Sanitized(p);
    var r := q.(advertising := c.advertising, configs := q.configs + 1);
    if c.err < 0 || r.state.Halted? then r
    else r.(state := if r.autoneg then An else Forcing)
  }

  function Report(p: Phy): Phy {
    p.(events := p.events + [p.link])
  }

  function Read(p: Phy, r: Reading): Phy {
    p.(link := r.link, speed := r.speed, duplex := r.duplex)
  }

  /** `0 == link_timeout--`, on 32 bits. */
  function CountDown(p: Phy): Phy {
    p.(timeout := if p.timeout == 0 then WORD - 1 else p.timeout - 1)
  }

  function Expire(p: Phy, c: Config): Phy {
    if p.timeout == 0 then Negotiate(CountDown(p), c) else CountDown(p)
  }

  /** One pass of `eth_phy_state_machine`. */
  function Tick(p: Phy, i: Input): Phy {
    match p.state
    case Up => Negotiate(p, i.config)
    case An =>
      var q := Read(p, i.status);
      if i.status.err < 0 then q
      else if !q.link then Report(q.(state := NoLink))
      else if AnegDone(i.bmsr) < 0 then q
      else if AnegDone(i.bmsr) > 0 then Report(q.(state := Running))
      else Expire(q, i.config)
    case NoLink =>
      var q := Read(p, i.status);
      if i.status.err != 0 || !q.link then q else Report(q.(state := Running))
    case Forcing =>
      var q := p.(link := i.status.link);
      if i.status.err != 0 then q
      else if q.link then Report(q.(state := Running))
      else if q.timeout == 0 then Negotiate(Report(CountDown(q)), i.config)
      else Report(CountDown(q))
    case Running =>
      var q := Read(p, i.status);
      if i.status.err != 0 then q
      else Report(q.(state := if q.link then Running else NoLink))
    case Halted => if p.link then Report(p.(link := false)) else p
    case _ => p
  }

  // ----- link and events agree over every run

  /** One pass of the state machine, or a call of `eth_phy_start_aneg` from outside. */
  datatype Action = Pass(i: Input) | Start(c: Config)

  function Step(p: Phy, a: Action): Phy {
    match a
    case Pass(i) => Tick(p, i)
    case Start(c) => Negotiate(p, c)
  }

  predicate Reported(p: Phy) {
    p.events != [] && p.events[|p.events| - 1] == p.link
  }

  /** RUNNING means link up, NOLINK means link down, and the last event said so. */
  predicate Tracks(p: Phy) {
    && (p.state.Running? ==> p.link && Reported(p))
    && (p.state.NoLink? ==> !p.link && Reported(p))
  }

  /** The read does not fail after having changed the link while the state depends on it. */
  predicate Sound(p: Phy, a: Action) {
    a.Pass? && (p.state.Running? || p.state.NoLink?) ==>
      a.i.status.err == 0 || a.i.status.link == p.link
  }

  /** A pass breaks the agreement exactly when its read fails and yet changes the link. */
  lemma StepTracksIff(p: Phy, a: Action)
    requires Tracks(p)
    ensures Tracks(Step(p, a)) <==> Sound(p, a)
  {
    match a
    case Pass(i) => PassTracksIff(p, i);
    case Start(c) => StartTracks(p, c);
  }

  lemma StartTracks(p: Phy, c: Config)
    requires Tracks(p)
    ensures Tracks(Negotiate(p, c))
  {
  }

  lemma PassTracksIff(p: Phy, i: Input)
    requires Tracks(p)
    ensures Tracks(Tick(p, i)) <==> Sound(p, Pass(i))
  {
    match p.state
    case An => AnTracks(p, i);
    case Forcing => ForcingTracks(p, i);
    case Up => StartTracks(p, i.config);
    case _ =>
  }

  lemma AnTracks(p: Phy, i: Input)
    requires Tracks(p) && p.state.An?
    ensures Tracks(Tick(p, i))
  {
    StartTracks(CountDown(Read(p, i.status)), i.config);
  }

  lemma ForcingTracks(p: Phy, i: Input)
    requires Tracks(p) && p.state.Forcing?
    ensures Tracks(Tick(p, i))
  {
    StartTracks(Report(CountDown(p.(link := i.status.link))), i.config);
  }

  /** A foreign driver whose read fails like that breaks it. */
  lemma FailedReadBreaksTracking(p: Phy)
    requires p.state.Running? && Tracks(p)
    ensures var r := Reading(-1, false, p.speed, p.duplex);
            var q := Tick(p, Input(r, Got(0), Config(0, p.advertising)));
            q.state.Running? && !q.link && q.events == p.events
  {
  }

  function Run(p: Phy, acts: seq<Action>): Phy {
    if acts == [] then p else Step(Run(p, acts[..|acts| - 1]), acts[|acts| - 1])
  }

  predicate TracksAfter(p: Phy, acts: seq<Action>, k: int)
    requires 0 <= k <= |acts|
  {
    Tracks(Run(p, acts[..k]))
  }

  predicate SoundAt(p: Phy, acts: seq<Action>, k: int)
    requires 0 <= k < |acts|
  {
    Sound(Run(p, acts[..k]), acts[k])
  }

  predicate AlwaysTracks(p: Phy, acts: seq<Action>) {
    forall k {:trigger TracksAfter(p, acts, k)} :: 0 <= k <= |acts| ==> TracksAfter(p, acts, k)
  }

  predicate AlwaysSound(p: Phy, acts: seq<Action>) {
    forall k {:trigger SoundAt(p, acts, k)} :: 0 <= k < |acts| ==> SoundAt(p, acts, k)
  }

  lemma RunOneMore(p: Phy, acts: seq<Action>, k: int)
    requires 0 <= k < |acts|
    ensures Run(p, acts[..k + 1]) == Step(Run(p, acts[..k]), acts[k])
  {
    assert acts[..k + 1][..k] == acts[..k];
  }

  lemma TracksOneMore(p: Phy, acts: seq<Action>, k: int)
    requires 0 <= k < |acts| && TracksAfter(p, acts, k)
    ensures TracksAfter(p, acts, k + 1) <==> SoundAt(p, acts, k)
  {
    RunOneMore(p, acts, k);
    TracksIff(Run(p, acts[..k]), acts[k], Run(p, acts[..k + 1]));
  }

  lemma TracksIff(p: Phy, a: Action, q: Phy)
    requires Tracks(p) && q == Step(p, a)
    ensures Tracks(q) <==> Sound(p, a)
  {
    StepTracksIff(p, a);
  }

  lemma {:induction false} SoundRunTracks(p: Phy, acts: seq<Action>, k: int)
    requires Tracks(p) && AlwaysSound(p, acts) && 0 <= k <= |acts|
    ensures TracksAfter(p, acts, k)
    decreases k
  {
    if k > 0 {
      SoundRunTracks(p, acts, k - 1);
      TracksOneMore(p, acts, k - 1);
      assert SoundAt(p, acts, k - 1);
    }
  }

  /**
   * From ETH_PHY_UP, state, link and last event agree after every step of a run exactly when no
   * status read of the run fails after changing the link.
   */
  lemma RunTracksIff(p: Phy, acts: seq<Action>)
    requires p.state.Up?
    ensures AlwaysTracks(p, acts) <==> AlwaysSound(p, acts)
  {
    if AlwaysSound(p, acts) {
      forall k {:trigger TracksAfter(p, acts, k)} | 0 <= k <= |acts| ensures TracksAfter(p, acts, k) {
        SoundRunTracks(p, acts, k);
      }
    }
    if AlwaysTracks(p, acts) {
      forall k {:trigger SoundAt(p, acts, k)} | 0 <= k < |acts| ensures SoundAt(p, acts, k) {
        assert TracksAfter(p, acts, k) && TracksAfter(p, acts, k + 1);
        TracksOneMore(p, acts, k);
      }
    }
  }

  /** From ETH_PHY_UP only these states are ever reached. */
  lemma {:induction false} ReachableStates(p: Phy, acts: seq<Action>)
    requires p.state.Up?
    ensures Run(p, acts).state in {Up, An, Running, NoLink, Forcing}
  {
    if acts != [] {
      ReachableStates(p, acts[..|acts| - 1]);
    }
  }

  predicate HasPass(acts: seq<Action>) {
    exists k :: 0 <= k < |acts| && acts[k].Pass?
  }

  /**
   * Nothing leaves HALTED. A link that was up is reported down by the first pass, and nothing is
   * reported otherwise.
   */
  lemma {:induction false} HaltedIsFinal(p: Phy, acts: seq<Action>)
    requires p.state.Halted?
    ensures var q := Run(p, acts);
            && q.state.Halted?
            && q.link == (p.link && !HasPass(acts))
            && q.events == p.events + (if p.link && HasPass(acts) then [false] else [])
  {
    if acts != [] {
      var n := |acts| - 1;
      HaltedIsFinal(p, acts[..n]);
      assert HasPass(acts) <==> HasPass(acts[..n]) || acts[n].Pass? by {
        if HasPass(acts[..n]) {
          var k :| 0 <= k < n && acts[..n][k].Pass?;
          assert acts[k].Pass?;
        }
        if k :| 0 <= k < |acts| && acts[k].Pass? {
          assert k < n ==> acts[..n][k].Pass?;
        }
      }
    }
  }

  // ----- the drivers of this repository

  /** The registers the generic driver reads; the status register is read twice. */
  datatype Mii = Mii(bmsr0: Answer, bmsr1: Answer, stat1000: Answer, ctrl1000: Answer,
                     lpa: Answer, advertise: Answer, bmcr: Answer)

  /** Modes that both ends advertise, by SUPPORTED_ bit; the gigabit ones if they were read. */
  function Common(m: Mii, gigabit: bool): Features {
    (if gigabit && Has(m.stat1000, 0x800) && Has(m.ctrl1000, 0x200) then {5} else {}) +
    (if gigabit && Has(m.stat1000, 0x400) && Has(m.ctrl1000, 0x100) then {4} else {}) +
    (if Has(m.lpa, 0x100) && Has(m.advertise, 0x100) then {3} else {}) +
    (if Has(m.lpa, 0x80) && Has(m.advertise, 0x80) then {2} else {}) +
    (if Has(m.lpa, 0x40) && Has(m.advertise, 0x40) then {1} else {})
  }

  predicate Gigabit(supported: Features) {
    4 in supported || 5 in supported
  }

  /** The setting of the control register, when negotiation is off. */
  function ForcedMode(bmcr: Answer): (int, Duplex) {
    (if Has(bmcr, BMCR_SPEED1000) then 1000 else if Has(bmcr, BMCR_SPEED100) then 100 else 10,
     if Has(bmcr, BMCR_FULLDPLX) then Full else Half)
  }

  /** What `genphy_read_status` returns and leaves, negative register reads included. */
  function GenphyReading(p: Phy, m: Mii): Reading {
    var link := Has(m.bmsr1, BMSR_LSTATUS);
    var gigabit := Gigabit(p.supported);
    if m.bmsr0.Failed? then Reading(m.bmsr0.err, p.link, p.speed, p.duplex)
    else if m.bmsr1.Failed? then Reading(m.bmsr1.err, p.link, p.speed, p.duplex)
    else if p.autoneg then
      if gigabit && m.stat1000.Failed? then Reading(m.stat1000.err, link, p.speed, p.duplex)
      else if gigabit && m.ctrl1000.Failed? then Reading(m.ctrl1000.err, link, p.speed, p.duplex)
      else if m.lpa.Failed? then Reading(m.lpa.err, link, p.speed, p.duplex)
      else if m.advertise.Failed? then Reading(m.advertise.err, link, p.speed, p.duplex)
      else
        var s := SETTINGS[Pick(Common(m, gigabit), 0)];
        Reading(0, link, s.speed, s.duplex)
    else if m.bmcr.Failed? then Reading(m.bmcr.err, link, p.speed, p.duplex)
    else Reading(0, link, ForcedMode(m.bmcr).0, ForcedMode(m.bmcr).1)
  }

  /** `phy_read` returns 16 unsigned bits. */
  predicate FromBus(m: Mii) {
    && m.bmsr0.Got? && m.bmsr1.Got? && m.stat1000.Got? && m.ctrl1000.Got?
    && m.lpa.Got? && m.advertise.Got? && m.bmcr.Got?
  }

  /** The pass got its answers from the generic driver. */
  ghost predicate Shipped(p: Phy, i: Input) {
    i.bmsr.Got? && exists m :: FromBus(m) && i.status == GenphyReading(p, m)
  }

  /** No read of the generic driver fails. */
  lemma ShippedNeverFails(p: Phy, i: Input)
    requires Shipped(p, i)
    ensures i.status.err == 0 && AnegDone(i.bmsr) >= 0
  {
    var m :| FromBus(m) && i.status == GenphyReading(p, m);
  }

  predicate AnsweredAt(acts: seq<Action>, k: int)
    requires 0 <= k < |acts|
  {
    acts[k].Pass? ==> acts[k].i.status.err == 0
  }

  /** When no read fails, state, link and last event agree after every step. */
  lemma AnsweredRunTracks(p: Phy, acts: seq<Action>)
    requires p.state.Up? && forall k {:trigger AnsweredAt(acts, k)} :: 0 <= k < |acts| ==> AnsweredAt(acts, k)
    ensures AlwaysTracks(p, acts)
  {
    forall k {:trigger SoundAt(p, acts, k)} | 0 <= k < |acts| ensures SoundAt(p, acts, k) {
      assert AnsweredAt(acts, k);
    }
    RunTracksIff(p, acts);
  }

  ghost predicate ShippedAt(p: Phy, acts: seq<Action>, k: int)
    requires 0 <= k < |acts|
  {
    acts[k].Pass? ==> Shipped(Run(p, acts[..k]), acts[k].i)
  }

  /** With the drivers of this repository they agree after every step of every run. */
  lemma ShippedRunTracks(p: Phy, acts: seq<Action>)
    requires p.state.Up? && forall k {:trigger ShippedAt(p, acts, k)} :: 0 <= k < |acts| ==> ShippedAt(p, acts, k)
    ensures AlwaysTracks(p, acts)
  {
    forall k {:trigger AnsweredAt(acts, k)} | 0 <= k < |acts| ensures AnsweredAt(acts, k) {
      assert ShippedAt(p, acts, k);
      if acts[k].Pass? {
        ShippedNeverFails(Run(p, acts[..k]), acts[k].i);
      }
    }
    AnsweredRunTracks(p, acts);
  }

  // ----- the timeout

  /** Negotiation goes on with the link up, or a forced setting brings no link. */
  predicate Waiting(p: Phy, i: Input) {
    || (p.state.An? && i.status.err >= 0 && i.status.link && AnegDone(i.bmsr) == 0)
    || (p.state.Forcing? && i.status.err == 0 && !i.status.link)
  }

  lemma WaitingCounts(p: Phy, i: Input)
    requires Waiting(p, i)
    ensures var q := Tick(p, i);
            && q.timeout == (if p.timeout == 0 then WORD - 1 else p.timeout - 1)
            && q.configs == p.configs + (if p.timeout == 0 then 1 else 0)
            && (p.timeout != 0 || (p.state.An? <==> p.autoneg) ==> q.state == p.state)
            && (p.autoneg ==> q.autoneg) && (!p.autoneg ==> !q.autoneg)
  {
  }

  function Passes(p: Phy, ins: seq<Input>): Phy {
    if ins == [] then p else Tick(Passes(p, ins[..|ins| - 1]), ins[|ins| - 1])
  }

  predicate WaitsAt(p: Phy, ins: seq<Input>, k: int)
    requires 0 <= k < |ins|
  {
    Waiting(Passes(p, ins[..k]), ins[k])
  }

  predicate AlwaysWaits(p: Phy, ins: seq<Input>) {
    forall k {:trigger WaitsAt(p, ins, k)} :: 0 <= k < |ins| ==> WaitsAt(p, ins, k)
  }

  lemma WaitsBefore(p: Phy, ins: seq<Input>, n: int)
    requires AlwaysWaits(p, ins) && 0 <= n <= |ins|
    ensures AlwaysWaits(p, ins[..n])
  {
    forall k {:trigger WaitsAt(p, ins[..n], k)} | 0 <= k < n ensures WaitsAt(p, ins[..n], k) {
      assert WaitsAt(p, ins, k);
      assert ins[..n][..k] == ins[..k];
    }
  }

  /** `link_timeout = n` leaves n passes alone and calls `config_aneg` on pass n + 1. */
  lemma {:induction false} RestartsAfterTimeout(p: Phy, ins: seq<Input>)
    requires 0 <= p.timeout < WORD && AlwaysWaits(p, ins) && |ins| <= p.timeout + 1
    ensures var q := Passes(p, ins);
            && (|ins| <= p.timeout ==>
                  q.configs == p.configs && q.timeout == p.timeout - |ins| && q.state == p.state)
            && (|ins| == p.timeout + 1 ==> q.configs == p.configs + 1)
  {
    if ins != [] {
      var n := |ins| - 1;
      WaitsBefore(p, ins, n);
      RestartsAfterTimeout(p, ins[..n]);
      assert WaitsAt(p, ins, n);
      WaitingCounts(Passes(p, ins[..n]), ins[n]);
    }
  }

  /** Calls of `config_aneg` within the first k passes: one on pass n + 1, then one every 2^32 passes. */
  function Restarts(n: int, k: int): int {
    if k <= n then 0 else (k - n - 1) / WORD + 1
  }

  function Remaining(n: int, k: int): int {
    if k <= n then n - k else WORD - 1 - (k - n - 1) % WORD
  }

  lemma RestartsStep(n: int, k: int)
    requires 0 <= n < WORD && 0 <= k
    ensures Restarts(n, k + 1) == Restarts(n, k) + (if Remaining(n, k) == 0 then 1 else 0)
    ensures Remaining(n, k + 1) == if Remaining(n, k) == 0 then WORD - 1 else Remaining(n, k) - 1
  {
    if k > n {
      var d := k - n - 1;
      assert d == WORD * (d / WORD) + d % WORD;
      if d % WORD == WORD - 1 {
        assert d + 1 == WORD * (d / WORD + 1);
      } else {
        assert d + 1 == WORD * (d / WORD) + (d % WORD + 1);
      }
    }
  }

  /**
   * The timeout is never reloaded: while the wait goes on, `config_aneg` is called on pass n + 1 and
   * after that only once every 2^32 passes.
   */
  lemma {:induction false} TimeoutIsNeverReloaded(p: Phy, ins: seq<Input>)
    requires 0 <= p.timeout < WORD && AlwaysWaits(p, ins) && (p.state.An? <==> p.autoneg)
    ensures var q := Passes(p, ins);
            && q.state == p.state && q.autoneg == p.autoneg
            && q.configs == p.configs + Restarts(p.timeout, |ins|)
            && q.timeout == Remaining(p.timeout, |ins|)
  {
    if ins != [] {
      var n := |ins| - 1;
      WaitsBefore(p, ins, n);
      TimeoutIsNeverReloaded(p, ins[..n]);
      assert WaitsAt(p, ins, n);
      WaitingCounts(Passes(p, ins[..n]), ins[n]);
      RestartsStep(p.timeout, n);
    }
  }

  // ----- the driver

  const LPA_10FULL: Reg := 0x0040
  const LPA_100HALF: Reg := 0x0080
  const LPA_100FULL: Reg := 0x0100
  const LPA_1000HALF: Reg := 0x0400
  const LPA_1000FULL: Reg := 0x0800

  function Bits(x: Answer): Reg {
    if x.Got? then x.value else 0
  }

  /** Masking the ability words with each other tests the bits of both ends. */
  lemma BothBits(x: Reg, y: Reg)
    ensures x & y & 0x0040 != 0 <==> x & 0x0040 != 0 && y & 0x0040 != 0
    ensures x & y & 0x0080 != 0 <==> x & 0x0080 != 0 && y & 0x0080 != 0
    ensures x & y & 0x0100 != 0 <==> x & 0x0100 != 0 && y & 0x0100 != 0
    ensures x & y & 0x0180 != 0 <==> x & y & 0x0100 != 0 || x & y & 0x0080 != 0
  {
  }

  lemma BothGigabits(x: Reg, y: Reg)
    ensures x & (y << 2) & 0x0800 != 0 <==> x & 0x0800 != 0 && y & 0x0200 != 0
    ensures x & (y << 2) & 0x0400 != 0 <==> x & 0x0400 != 0 && y & 0x0100 != 0
    ensures x & (y << 2) & 0x0C00 != 0 <==> x & (y << 2) & 0x0800 != 0 || x & (y << 2) & 0x0400 != 0
  {
  }

  lemma GigabitEnds(m: Mii, x: Reg, y: Reg)
    requires x == Bits(m.stat1000) && y == Bits(m.ctrl1000)
    ensures x & (y << 2) & 0x0800 != 0 <==> 5 in Common(m, true)
    ensures x & (y << 2) & 0x0C00 != 0 <==> 5 in Common(m, true) || 4 in Common(m, true)
  {
    BothGigabits(x, y);
    HasBits(m.stat1000, x);
    HasBits(m.ctrl1000, y);
  }

  lemma SlowEnds(m: Mii, gigabit: bool, x: Reg, y: Reg)
    requires x == Bits(m.lpa) && y == Bits(m.advertise)
    ensures x & y & 0x0100 != 0 <==> 3 in Common(m, gigabit)
    ensures x & y & 0x0180 != 0 <==> 3 in Common(m, gigabit) || 2 in Common(m, gigabit)
    ensures x & y & 0x0040 != 0 <==> 1 in Common(m, gigabit)
  {
    BothBits(x, y);
    HasBits(m.lpa, x);
    HasBits(m.advertise, y);
  }

  lemma HasBits(a: Answer, x: Reg)
    requires x == Bits(a)
    ensures Has(a, 0x0040) <==> x & 0x0040 != 0
    ensures Has(a, 0x0080) <==> x & 0x0080 != 0
    ensures Has(a, 0x0100) <==> x & 0x0100 != 0
    ensures Has(a, 0x0200) <==> x & 0x0200 != 0
    ensures Has(a, 0x0400) <==> x & 0x0400 != 0
    ensures Has(a, 0x0800) <==> x & 0x0800 != 0
  {
  }

  /** The mode resolution of `genphy_read_status`, from the registers of both ends. */
  method ResolveMode(m: Mii, gigabit: bool) returns (speed: int, duplex: Duplex)
    ensures var s := SETTINGS[Pick(Common(m, gigabit), 0)]; speed == s.speed && duplex == s.duplex
  {
    var lpagb: Reg := 0;
    if gigabit {
      lpagb := Bits(m.stat1000) & (Bits(m.ctrl1000) << 2);
    }
    var lpa := Bits(m.lpa) & Bits(m.advertise);
    GigabitEnds(m, Bits(m.stat1000), Bits(m.ctrl1000));
    SlowEnds(m, gigabit, Bits(m.lpa), Bits(m.advertise));
    speed, duplex := 10, Half;
    if lpagb & (LPA_1000FULL | LPA_1000HALF) != 0 {
      speed := 1000;
      if lpagb & LPA_1000FULL != 0 {
        duplex := Full;
      }
    } else if lpa & (LPA_100FULL | LPA_100HALF) != 0 {
      speed := 100;
      if lpa & LPA_100FULL != 0 {
        duplex := Full;
      }
    } else if lpa & LPA_10FULL != 0 {
      duplex := Full;
    }
    ghost var common := Common(m, gigabit);
    ghost var idx := if 5 in common then 0 else if 4 in common then 1 else if 3 in common then 2
                     else if 2 in common then 3 else if 1 in common then 4 else 5;
    assert IsPick(Common(m, gigabit), 0, idx);
    PickUnique(Common(m, gigabit), 0, idx);
  }

  class EthPhy {
    var state: State
    var link: bool
    var autoneg: bool
    var linkTimeout: int
    var advertising: Features
    var supported: Features
    var speed: int
    var duplex: Duplex
    ghost var events: seq<bool>
    ghost var configs: nat

    ghost function View(): Phy
      reads this
    {
      Phy(state, link, autoneg, linkTimeout, advertising, supported, speed, duplex, events, configs)
    }

    method PhyEvent()
      modifies this`events
      ensures View() == Report(old(View()))
    {
      events := events + [link];
    }

    method ReadStatus(r: Reading) returns (err: int)
      modifies this
      ensures View() == Read(old(View()), r) && err == r.err
    {
      link, speed, duplex := r.link, r.speed, r.duplex;
      err := r.err;
    }

    /** `genphy_update_link`. */
    method GenphyUpdateLink(m: Mii) returns (err: int)
      modifies this`link
      ensures err == if m.bmsr0.Failed? then m.bmsr0.err else if m.bmsr1.Failed? then m.bmsr1.err else 0
      ensures link == if err == 0 then Has(m.bmsr1, BMSR_LSTATUS) else old(link)
    {
      var status := m.bmsr0;
      if status.Failed? {
        return status.err;
      }
      status := m.bmsr1;
      if status.Failed? {
        return status.err;
      }
      link := Has(status, BMSR_LSTATUS);
      err := 0;
    }

    /** `genphy_read_status`: the fastest mode both ends advertise, or the forced one. */
    method GenphyReadStatus(m: Mii) returns (err: int)
      modifies this`link, this`speed, this`duplex
      ensures View() == Read(old(View()), GenphyReading(old(View()), m))
      ensures err == GenphyReading(old(View()), m).err
    {
      err := GenphyUpdateLink(m);
      if err != 0 {
        return;
      }
      if !autoneg {
        if m.bmcr.Failed? {
          return m.bmcr.err;
        }
        duplex := if Has(m.bmcr, BMCR_FULLDPLX) then Full else Half;
        speed := if Has(m.bmcr, BMCR_SPEED1000) then 1000 else if Has(m.bmcr, BMCR_SPEED100) then 100 else 10;
        return 0;
      }
      if Gigabit(supported) {
        if m.stat1000.Failed? {
          return m.stat1000.err;
        }
        if m.ctrl1000.Failed? {
          return m.ctrl1000.err;
        }
      }
      if m.lpa.Failed? {
        return m.lpa.err;
      }
      if m.advertise.Failed? {
        return m.advertise.err;
      }
      speed, duplex := ResolveMode(m, Gigabit(supported));
    }

    method SanitizeSettings()
      modifies this`autoneg, this`speed, this`duplex
      ensures View() == Sanitized(old(View()))
    {
      var features := supported;
      if SUPPORTED_AUTONEG !in features {
        autoneg := false;
      }
      var first := FindSetting(advertising);
      PickUnique(advertising, 0, first);
      var idx := FindValid(first, features);
      PickUnique(features, first, idx);
      speed := SETTINGS[idx].speed;
      duplex := SETTINGS[idx].duplex;
    }

    method StartAneg(c: Config) returns (ok: bool)
      modifies this
      ensures View() == Negotiate(old(View()), c)
      ensures ok == (c.err >= 0)
    {
      if !autoneg {
        SanitizeSettings();
      }
      advertising, configs := c.advertising, configs + 1;
      if c.err < 0 {
        return false;
      }
      if state != Halted {
        if autoneg {
          state := An;
        } else {
          state := Forcing;
        }
      }
      ok := true;
    }

    /** The post-decrement of `link_timeout`; tells whether it was zero. */
    method TimeoutExpired() returns (expired: bool)
      modifies this`linkTimeout
      ensures View() == CountDown(old(View()))
      ensures expired == (old(linkTimeout) == 0)
    {
      expired := linkTimeout == 0;
      linkTimeout := if linkTimeout == 0 then WORD - 1 else linkTimeout - 1;
    }

    /** `eth_phy_state_machine`. */
    method StateMachine(i: Input)
      modifies this
      ensures View() == Tick(old(View()), i)
    {
      var needsAneg := false;
      match state {
        case Up =>
          needsAneg := true;
        case An =>
          var err := ReadStatus(i.status);
          if err >= 0 {
            if !link {
              state := NoLink;
              PhyEvent();
            } else {
              err := AnegDone(i.bmsr);
              if err > 0 {
                state := Running;
                PhyEvent();
              } else if err == 0 {
                needsAneg := TimeoutExpired();
              }
            }
          }
        case NoLink =>
          var err := ReadStatus(i.status);
          if err == 0 && link {
            state := Running;
            PhyEvent();
          }
        case Forcing =>
          link := i.status.link;
          if i.status.err == 0 {
            if link {
              state := Running;
            } else {
              needsAneg := TimeoutExpired();
            }
            PhyEvent();
          }
        case Running =>
          var err := ReadStatus(i.status);
          if err == 0 {
            state := if link then Running else NoLink;
            PhyEvent();
          }
        case Halted =>
          if link {
            link := false;
            PhyEvent();
          }
        case _ =>
      }
      if needsAneg {
        var _ := StartAneg(i.config);
      }
    }
  }
}
