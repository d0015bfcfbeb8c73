/**
 * The generic PHY driver's negotiation set-up: which registers `config_aneg` writes and when it
 * really restarts negotiation.
 */
module EthConfig {
  import opened EthPhy

  const BMCR_ANRESTART: Reg := 0x0200
  const BMCR_ISOLATE: Reg := 0x0400
  const BMCR_ANENABLE: Reg := 0x1000

  /** The bits of the advertisement register that the driver manages. */
  const ADVERTISED: Reg := 0x0FE0

  /** `eth_phy_adv_to_mii_adv_t`; pause and asymmetric pause are features 13 and 14. */
  function AdvertOf(f: Features): Reg {
    (if 0 in f then 0x0020 else 0) | (if 1 in f then 0x0040 else 0) |
    (if 2 in f then 0x0080 else 0) | (if 3 in f then 0x0100 else 0) |
    (if 13 in f then 0x0400 else 0) | (if 14 in f then 0x0800 else 0)
  }

  /** A value of managed bits only. */
  predicate Managed(want: Reg) {
    want & !ADVERTISED == 0
  }

  lemma AdvertIsManaged(f: Features)
    ensures Managed(AdvertOf(f))
  {
  }

  /** The advertisement register with its managed bits replaced. */
  function WithAdvert(a: Reg, want: Reg): Reg {
    (a & !ADVERTISED) | want
  }

  predicate Advertises(a: Reg, want: Reg) {
    a & ADVERTISED == want
  }

  /** Negotiation is on and the PHY is not isolated. */
  predicate Negotiates(b: Reg) {
    b & BMCR_ANENABLE != 0 && b & BMCR_ISOLATE == 0
  }

  function WithRestart(b: Reg): Reg {
    (b | (BMCR_ANENABLE | BMCR_ANRESTART)) & !BMCR_ISOLATE
  }

  lemma AdvertInPlace(a: Reg, want: Reg)
    requires Managed(want)
    ensures WithAdvert(a, want) == a <==> Advertises(a, want)
  {
  }

  lemma AdvertTaken(a: Reg, want: Reg)
    requires Managed(want)
    ensures Advertises(WithAdvert(a, want), want)
  {
  }

  /** Bits 0x0200 and 0x1000 set, 0x0400 clear, the others as they were. */
  predicate AsksRestart(b: Reg, b': Reg) {
    b' & 0x0200 == 0x0200 && b' & 0x1000 == 0x1000 && b' & 0x0400 == 0 && b' & 0xE9FF == b & 0xE9FF
  }

  /** The managed bits are those wanted, the others as they were. */
  predicate Replaces(a: Reg, want: Reg, a': Reg) {
    a' & 0x0FE0 == want && a' & 0xF01F == a & 0xF01F
  }

  lemma AdvertKeepsRest(a: Reg, want: Reg)
    requires Managed(want)
    ensures Replaces(a, want, WithAdvert(a, want))
  {
  }

  lemma RestartBits(b: Reg)
    ensures AsksRestart(b, WithRestart(b)) && Negotiates(WithRestart(b))
  {
  }

  /** The registers, and the values written to the control register so far. */
  datatype Mdio = Mdio(advertise: Reg, bmcr: Reg, written: seq<Reg>)

  /** How many of the values ask for a restart. */
  function Restarts(ws: seq<Reg>): nat {
    if ws == [] then 0 else Restarts(ws[..|ws| - 1]) + if ws[|ws| - 1] & 0x0200 != 0 then 1 else 0
  }

  lemma RestartsOneMore(ws: seq<Reg>, b: Reg)
    ensures Restarts(ws + [b]) == Restarts(ws) + if b & 0x0200 != 0 then 1 else 0
  {
    assert (ws + [b])[..|ws|] == ws;
  }

  /** The advertisement is in place and negotiation is on. */
  predicate Settled(m: Mdio, want: Reg) {
    Advertises(m.advertise, want) && Negotiates(m.bmcr)
  }

  lemma SettledMeans(m: Mdio, want: Reg)
    ensures Settled(m, want) <==>
              m.advertise & 0x0FE0 == want && m.bmcr & 0x1000 != 0 && m.bmcr & 0x0400 == 0
  {
  }

  /** `genphy_restart_aneg`. */
  function Restarted(m: Mdio): Mdio {
    m.(bmcr := WithRestart(m.bmcr), written := m.written + [WithRestart(m.bmcr)])
  }

  /** `genphy_config_aneg` with negotiation enabled, for the advertisement wanted. */
  function Configured(m: Mdio, want: Reg): Mdio {
    if WithAdvert(m.advertise, want) != m.advertise then Restarted(m.(advertise := WithAdvert(m.advertise, want)))
    else if !Negotiates(m.bmcr) then Restarted(m)
    else m
  }

  /**
   * Negotiation is restarted exactly when the registers are not settled, and they are afterwards. The
   * restart is one write of the control register that changes the three bits concerned only.
   */
  lemma ConfigRestartsIff(m: Mdio, want: Reg)
    requires Managed(want)
    ensures Settled(Configured(m, want), want)
    ensures Settled(m, want) <==> Configured(m, want) == m
    ensures !Settled(m, want) ==>
              && AsksRestart(m.bmcr, Configured(m, want).bmcr)
              && Configured(m, want).written == m.written + [Configured(m, want).bmcr]
    ensures Restarts(Configured(m, want).written) == Restarts(m.written) + if Settled(m, want) then 0 else 1
  {
    AdvertInPlace(m.advertise, want);
    AdvertTaken(m.advertise, want);
    RestartBits(m.bmcr);
    RestartBit(WithRestart(m.bmcr));
    RestartsOneMore(m.written, WithRestart(m.bmcr));
  }

  lemma RestartBit(b: Reg)
    ensures b & 0x0200 == 0x0200 <==> b & 0x0200 != 0
  {
  }

  /** The PHY clears the restart bit by itself. */
  function SelfClear(m: Mdio, clears: bool): Mdio {
    if clears then m.(bmcr := m.bmcr & !BMCR_ANRESTART) else m
  }

  lemma ClearBits(b: Reg)
    ensures Negotiates(b & !BMCR_ANRESTART) <==> Negotiates(b)
  {
  }

  lemma SelfClearSettled(m: Mdio, clears: bool, want: Reg)
    ensures Settled(SelfClear(m, clears), want) <==> Settled(m, want)
  {
    ClearBits(m.bmcr);
  }

  // ----- forced settings

  /** What `genphy_setup_forced` writes to the control register. */
  function ForcedReg(speed: int, duplex: Duplex): Reg {
    (if speed == 1000 then BMCR_SPEED1000 else if speed == 100 then BMCR_SPEED100 else 0) |
    (if duplex == Full then BMCR_FULLDPLX else 0)
  }

  /** A forced setting is what the status read finds in the control register, where no other bit is set. */
  lemma ForcedRoundTrip(speed: int, duplex: Duplex)
    ensures ForcedReg(speed, duplex) & 0xDEBF == 0
    ensures ForcedMode(Got(ForcedReg(speed, duplex))) == (speed, duplex) <==> speed in {10, 100, 1000}
  {
  }

  /** `genphy_setup_forced`. */
  function Forced(m: Mdio, speed: int, duplex: Duplex): Mdio {
    m.(bmcr := ForcedReg(speed, duplex), written := m.written + [ForcedReg(speed, duplex)])
  }

  // ----- the state machine with this driver

  /** What `genphy_config_aneg` returns and leaves in the device. */
  predicate ShippedConfig(p: Phy, c: Config) {
    c.err == 0 && c.advertising == if p.autoneg then p.advertising * p.supported else p.advertising
  }

  datatype System = System(phy: Phy, mdio: Mdio)

  /** `genphy_config_aneg`, called in a pass from `p` to `p'`. */
  function Called(m: Mdio, p: Phy, p': Phy): Mdio {
    if p.autoneg then Configured(m, AdvertOf(p.advertising * p.supported)) else Forced(m, p'.speed, p'.duplex)
  }

  /** One pass; the driver is called when the state machine counts a call. */
  function Pass(s: System, i: Input, clears: bool): System {
    var p, m := Tick(s.phy, i), SelfClear(s.mdio, clears);
    System(p, if p.configs > s.phy.configs then Called(m, s.phy, p) else m)
  }

  function Run(s: System, ins: seq<Input>, clears: seq<bool>): System
    requires |clears| == |ins|
  {
    if ins == [] then s
    else var n := |ins| - 1; Pass(Run(s, ins[..n], clears[..n]), ins[n], clears[n])
  }

  /** The pass waits in AN and any call of the driver in it is this driver's. */
  predicate WaitsShipped(s: System, i: Input) {
    s.phy.state.An? && Waiting(s.phy, i) && ShippedConfig(s.phy, i.config)
  }

  predicate WaitsShippedAt(s: System, ins: seq<Input>, clears: seq<bool>, k: int)
    requires |clears| == |ins| && 0 <= k < |ins|
  {
    WaitsShipped(Run(s, ins[..k], clears[..k]), ins[k])
  }

  predicate AlwaysWaitsShipped(s: System, ins: seq<Input>, clears: seq<bool>)
    requires |clears| == |ins|
  {
    forall k {:trigger WaitsShippedAt(s, ins, clears, k)} :: 0 <= k < |ins| ==> WaitsShippedAt(s, ins, clears, k)
  }

  /** The features the driver advertises for the device, and registers settled on them. */
  predicate Ready(s: System, f: Features) {
    s.phy.autoneg && s.phy.advertising * s.phy.supported == f && Settled(s.mdio, AdvertOf(f))
  }

  /** Starting negotiation with this driver settles the registers. */
  lemma StartSettles(p: Phy, c: Config, m: Mdio)
    requires p.autoneg && ShippedConfig(p, c)
    ensures var f := p.advertising * p.supported;
            Ready(System(Negotiate(p, c), Configured(m, AdvertOf(f))), f)
  {
    var f := p.advertising * p.supported;
    AdvertIsManaged(f);
    ConfigRestartsIff(m, AdvertOf(f));
    assert f * p.supported == f;
  }

  lemma PassRestartsNothing(s: System, i: Input, clears: bool, f: Features)
    requires WaitsShipped(s, i) && Ready(s, f)
    ensures var s' := Pass(s, i, clears);
            Ready(s', f) && s'.mdio.written == s.mdio.written && s'.mdio.advertise == s.mdio.advertise
  {
    var m := SelfClear(s.mdio, clears);
    AdvertIsManaged(f);
    SelfClearSettled(s.mdio, clears, AdvertOf(f));
    ConfigRestartsIff(m, AdvertOf(f));
    var p, p' := s.phy, Tick(s.phy, i);
    assert p'.supported == p.supported && (p'.advertising == p.advertising || p'.advertising == f);
    assert f * p.supported == f;
  }

  /**
   * Once the registers are settled, no timeout restarts negotiation: every call of `config_aneg`
   * that a wait brings about writes nothing.
   */
  lemma {:induction false} TimeoutsRestartNothing(s: System, ins: seq<Input>, clears: seq<bool>, f: Features)
    requires |clears| == |ins| && AlwaysWaitsShipped(s, ins, clears) && Ready(s, f)
    ensures var s' := Run(s, ins, clears);
            Ready(s', f) && s'.mdio.written == s.mdio.written && s'.mdio.advertise == s.mdio.advertise
    decreases |ins|
  {
    if ins != [] {
      var n := |ins| - 1;
      forall k {:trigger WaitsShippedAt(s, ins[..n], clears[..n], k)} | 0 <= k < n
        ensures WaitsShippedAt(s, ins[..n], clears[..n], k)
      {
        assert WaitsShippedAt(s, ins, clears, k);
        assert ins[..n][..k] == ins[..k] && clears[..n][..k] == clears[..k];
      }
      TimeoutsRestartNothing(s, ins[..n], clears[..n], f);
      assert WaitsShippedAt(s, ins, clears, n);
      PassRestartsNothing(Run(s, ins[..n], clears[..n]), ins[n], clears[n], f);
    }
  }

  /**
   * A pass of UP with negotiation enabled settles the registers, with one restart if they were not
   * settled before.
   */
  lemma UpSettles(s: System, i: Input, clears: bool)
    requires s.phy.state.Up? && s.phy.autoneg && ShippedConfig(s.phy, i.config)
    ensures var s', f := Pass(s, i, clears), s.phy.advertising * s.phy.supported;
            && s'.phy.state.An? && Ready(s', f)
            && (if Settled(s.mdio, AdvertOf(f)) then s'.mdio.written == s.mdio.written
                else s'.mdio.written == s.mdio.written + [s'.mdio.bmcr] && s'.mdio.bmcr & 0x0200 == 0x0200)
  {
    var f := s.phy.advertising * s.phy.supported;
    var m := SelfClear(s.mdio, clears);
    AdvertIsManaged(f);
    SelfClearSettled(s.mdio, clears, AdvertOf(f));
    ConfigRestartsIff(m, AdvertOf(f));
    StartSettles(s.phy, i.config, m);
  }

  /** A pass of UP with negotiation off forces the chosen setting, and the status read will find it. */
  lemma UpForces(s: System, i: Input, clears: bool)
    requires s.phy.state.Up? && !s.phy.autoneg && ShippedConfig(s.phy, i.config)
    ensures var s', chosen := Pass(s, i, clears), SETTINGS[Chosen(s.phy.advertising, s.phy.supported)];
            && s'.phy.state.Forcing? && s'.mdio.written == s.mdio.written + [s'.mdio.bmcr]
            && ForcedMode(Got(s'.mdio.bmcr)) == (chosen.speed, chosen.duplex)
  {
    var chosen := SETTINGS[Chosen(s.phy.advertising, s.phy.supported)];
    ForcedRoundTrip(chosen.speed, chosen.duplex);
  }

  /**
   * Bringing up a PHY: however long negotiation then takes and however often the timeout expires,
   * negotiation is restarted once if the registers were not settled at first, and else never.
   */
  lemma BringUpRestartsOnce(s: System, i: Input, clear: bool, ins: seq<Input>, clears: seq<bool>)
    requires s.phy.state.Up? && s.phy.autoneg && ShippedConfig(s.phy, i.config)
    requires |clears| == |ins| && AlwaysWaitsShipped(Pass(s, i, clear), ins, clears)
    ensures var s', f := Run(Pass(s, i, clear), ins, clears), s.phy.advertising * s.phy.supported;
            && Ready(s', f)
            && Restarts(s'.mdio.written) == Restarts(s.mdio.written) + if Settled(s.mdio, AdvertOf(f)) then 0 else 1
  {
    var s1 := Pass(s, i, clear);
    UpSettles(s, i, clear);
    TimeoutsRestartNothing(s1, ins, clears, s.phy.advertising * s.phy.supported);
    RestartBit(s1.mdio.bmcr);
    RestartsOneMore(s.mdio.written, s1.mdio.bmcr);
  }

  // ----- both ends

  /** Each mode has its own bit in the advertisement, whatever else the register holds. */
  lemma AdvertBits(a: Reg, f: Features)
    ensures WithAdvert(a, AdvertOf(f)) & 0x0020 != 0 <==> 0 in f
    ensures WithAdvert(a, AdvertOf(f)) & 0x0040 != 0 <==> 1 in f
    ensures WithAdvert(a, AdvertOf(f)) & 0x0080 != 0 <==> 2 in f
    ensures WithAdvert(a, AdvertOf(f)) & 0x0100 != 0 <==> 3 in f
    ensures WithAdvert(a, AdvertOf(f)) & 0x0400 != 0 <==> 13 in f
    ensures WithAdvert(a, AdvertOf(f)) & 0x0800 != 0 <==> 14 in f
  {
  }

  /**
   * What one end advertises and the other reads: when both ends advertise what their feature words
   * say, the status read finds the modes the two words have in common.
   */
  lemma EndsAgree(m: Mii, a: Reg, f: Features, b: Reg, g: Features)
    requires m.advertise == Got(WithAdvert(a, AdvertOf(f))) && m.lpa == Got(WithAdvert(b, AdvertOf(g)))
    ensures Common(m, false) == f * g * {1, 2, 3}
  {
    AdvertBits(a, f);
    AdvertBits(b, g);
  }

  /** With the generic driver the link a pass sees is bit 2 of the second status read. */
  lemma LinkIsStatusBit(p: Phy, m: Mii)
    requires FromBus(m)
    ensures GenphyReading(p, m).link <==> m.bmsr1.value & 0x0004 != 0
  {
  }

  /** So negotiation settles on the fastest of them, 10 half if there is none. */
  lemma NegotiatedIsFastest(p: Phy, m: Mii, a: Reg, f: Features, b: Reg, g: Features)
    requires FromBus(m) && p.autoneg && !Gigabit(p.supported)
    requires m.advertise == Got(WithAdvert(a, AdvertOf(f))) && m.lpa == Got(WithAdvert(b, AdvertOf(g)))
    ensures var r := GenphyReading(p, m);
            exists k :: IsPick(f * g * {1, 2, 3}, 0, k)
                        && r.speed == SETTINGS[k].speed && r.duplex == SETTINGS[k].duplex
  {
    EndsAgree(m, a, f, b, g);
    assert IsPick(f * g * {1, 2, 3}, 0, Pick(f * g * {1, 2, 3}, 0));
  }

  /** The part of the driver that owns the registers. */
  class Port {
    var mdio: Mdio
    var advertising: Features
    const supported: Features

    constructor (mdio: Mdio, advertising: Features, supported: Features)
      ensures this.mdio == mdio && this.advertising == advertising && this.supported == supported
    {
      this.mdio, this.advertising, this.supported := mdio, advertising, supported;
    }

    /** `genphy_config_advert`; whether the advertisement changed. */
    method ConfigAdvert() returns (changed: bool)
      modifies this
      ensures advertising == old(advertising) * supported
      ensures mdio == old(mdio).(advertise := WithAdvert(old(mdio.advertise), AdvertOf(advertising)))
      ensures Replaces(old(mdio.advertise), AdvertOf(advertising), mdio.advertise)
      ensures changed == (mdio.advertise != old(mdio.advertise))
    {
      advertising := advertising * supported;
      AdvertIsManaged(advertising);
      changed := PutAdvert(AdvertOf(advertising));
    }

    method PutAdvert(want: Reg) returns (changed: bool)
      requires Managed(want)
      modifies this`mdio
      ensures mdio == old(mdio).(advertise := WithAdvert(old(mdio.advertise), want))
      ensures Replaces(old(mdio.advertise), want, mdio.advertise)
      ensures changed == (mdio.advertise != old(mdio.advertise))
    {
      AdvertKeepsRest(mdio.advertise, want);
      var adv := WithAdvert(mdio.advertise, want);
      changed := adv != mdio.advertise;
      if changed {
        mdio := mdio.(advertise := adv);
      }
    }

    method RestartAneg()
      modifies this`mdio
      ensures mdio == Restarted(old(mdio)) && AsksRestart(old(mdio.bmcr), mdio.bmcr)
    {
      RestartBits(mdio.bmcr);
      var ctl := mdio.bmcr;
      ctl := ctl | (BMCR_ANENABLE | BMCR_ANRESTART);
      ctl := ctl & !BMCR_ISOLATE;
      WriteControl(ctl);
    }

    method WriteControl(ctl: Reg)
      modifies this`mdio
      ensures mdio == old(mdio).(bmcr := ctl, written := old(mdio.written) + [ctl])
    {
      mdio := mdio.(bmcr := ctl, written := mdio.written + [ctl]);
    }

    /** `genphy_setup_forced`: the register then reads as the forced setting. */
    method SetupForced(speed: int, duplex: Duplex)
      modifies this`mdio
      ensures mdio == Forced(old(mdio), speed, duplex)
      ensures speed in {10, 100, 1000} ==> ForcedMode(Got(mdio.bmcr)) == (speed, duplex)
      ensures mdio.bmcr & 0xDEBF == 0
    {
      var ctl: Reg := 0;
      if speed == 1000 {
        ctl := ctl | BMCR_SPEED1000;
      } else if speed == 100 {
        ctl := ctl | BMCR_SPEED100;
      }
      if duplex == Full {
        ctl := ctl | BMCR_FULLDPLX;
      }
      WriteControl(ctl);
      ForcedRoundTrip(speed, duplex);
    }

    /** The second half of `genphy_config_aneg`: a restart if the advertisement changed or negotiation was off. */
    method RestartIfNeeded(advertised: bool, ghost m: Mdio, ghost want: Reg)
      requires Managed(want) && mdio == m.(advertise := WithAdvert(m.advertise, want))
      requires advertised == (mdio.advertise != m.advertise)
      modifies this`mdio
      ensures mdio == Configured(m, want)
      ensures !Settled(m, want) ==> AsksRestart(m.bmcr, mdio.bmcr) && mdio.written == m.written + [mdio.bmcr]
    {
      ConfigRestartsIff(m, want);
      var changed := advertised;
      if !changed {
        changed := !Negotiates(mdio.bmcr);
      }
      if changed {
        RestartAneg();
      }
    }

    /** `genphy_config_aneg`; register reads cannot fail. */
    method ConfigAneg(autoneg: bool, speed: int, duplex: Duplex) returns (result: int)
      modifies this
      ensures result == 0
      ensures autoneg ==> advertising == old(advertising) * supported
      ensures autoneg ==> mdio == Configured(old(mdio), AdvertOf(advertising))
      ensures autoneg && !Settled(old(mdio), AdvertOf(advertising)) ==>
                AsksRestart(old(mdio.bmcr), mdio.bmcr) && mdio.written == old(mdio.written) + [mdio.bmcr]
      ensures !autoneg ==> advertising == old(advertising) && mdio == Forced(old(mdio), speed, duplex)
    {
      if !autoneg {
        SetupForced(speed, duplex);
        return 0;
      }
      ghost var m := mdio;
      var changed := ConfigAdvert();
      AdvertIsManaged(advertising);
      RestartIfNeeded(changed, m, AdvertOf(advertising));
      result := 0;
    }
  }
}
