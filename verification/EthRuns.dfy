/**
 * Which states the PHY goes through and what it reports, as functions of the link values and
 * completion bits that the passes see.
 */
module EthRuns {
  import opened EthPhy

  /** No register read of the pass fails. */
  predicate Answered(i: Input) {
    i.status.err == 0 && i.bmsr.Got?
  }

  predicate AllAnswered(ins: seq<Input>) {
    forall k :: 0 <= k < |ins| ==> Answered(ins[k])
  }

  /** The pass sees negotiation complete: bit 5 of the status register. */
  predicate Complete(i: Input) {
    i.bmsr.Got? && i.bmsr.value & 0x0020 != 0
  }

  // ----- one pass

  /** A pass that sees the link, and with negotiation its completion, ends in RUNNING and says so. */
  lemma LinkUpRuns(p: Phy, i: Input)
    requires Answered(i) && i.status.link
    requires p.state in {NoLink, Forcing, Running} || (p.state.An? && Complete(i))
    ensures var q := Tick(p, i);
            && q.state.Running? && q.link && q.events == p.events + [true]
            && (!p.state.Forcing? ==> q.speed == i.status.speed && q.duplex == i.status.duplex)
            && q.configs == p.configs && q.timeout == p.timeout && q.autoneg == p.autoneg
  {
  }

  /** A pass that sees the link gone ends in NOLINK and says so. */
  lemma LinkDownStops(p: Phy, i: Input)
    requires Answered(i) && !i.status.link && p.state in {An, Running}
    ensures var q := Tick(p, i);
            && q.state.NoLink? && !q.link && q.events == p.events + [false]
            && q.configs == p.configs && q.timeout == p.timeout && q.autoneg == p.autoneg
  {
  }

  /** NOLINK without a link stays and is silent. */
  lemma NoLinkStays(p: Phy, i: Input)
    requires Answered(i) && !i.status.link && p.state.NoLink?
    ensures var q := Tick(p, i);
            q.state.NoLink? && !q.link && q.events == p.events && q.configs == p.configs && q.timeout == p.timeout
  {
  }

  /** AN with the link up and negotiation going on is silent; with negotiation enabled it stays. */
  lemma AnHolds(p: Phy, i: Input)
    requires Answered(i) && i.status.link && !Complete(i) && p.state.An? && p.autoneg
    ensures var q := Tick(p, i);
            && q.state.An? && q.autoneg && q.link && q.events == p.events
            && q.configs == p.configs + (if p.timeout == 0 then 1 else 0)
  {
  }

  /** FORCING without a link says so each time and stays. */
  lemma ForcingHolds(p: Phy, i: Input)
    requires Answered(i) && !i.status.link && p.state.Forcing? && !p.autoneg
    ensures var q := Tick(p, i);
            && q.state.Forcing? && !q.autoneg && !q.link && q.events == p.events + [false]
            && q.configs == p.configs + (if p.timeout == 0 then 1 else 0)
  {
  }

  /** A pass whose status read fails changes neither state nor timeout and reports nothing. */
  lemma FailedReadHolds(p: Phy, i: Input)
    requires p.state in {An, NoLink, Forcing, Running} && i.status.err < 0
    ensures var q := Tick(p, i);
            && q.state == p.state && q.events == p.events && q.configs == p.configs
            && q.timeout == p.timeout && q.autoneg == p.autoneg && q.link == i.status.link
  {
  }

  /** Nor does a pass of AN whose completion test fails. */
  lemma FailedTestHolds(p: Phy, i: Input)
    requires p.state.An? && i.status.err == 0 && i.status.link && i.bmsr.Failed?
    ensures var q := Tick(p, i);
            && q.state.An? && q.events == p.events && q.configs == p.configs
            && q.timeout == p.timeout && q.autoneg == p.autoneg && q.link
  {
  }

  /** In the states the machine has no case for nothing happens. */
  lemma OtherStatesRest(p: Phy, i: Input)
    requires p.state in {Down, Starting, Ready, Pending, ChangeLink, Resuming}
    ensures Tick(p, i) == p
  {
  }

  /**
   * `eth_phy_start_aneg` in any state: one call of the driver, then AN, or with negotiation off
   * FORCING with the setting that is forced; an error or HALTED keeps the state.
   */
  lemma StartNegotiates(p: Phy, c: Config)
    ensures var q := Negotiate(p, c);
            && q.state == (if c.err < 0 || p.state.Halted? then p.state else if p.autoneg then An else Forcing)
            && q.autoneg == p.autoneg && q.configs == p.configs + 1 && q.advertising == c.advertising
            && q.events == p.events && q.link == p.link && q.timeout == p.timeout && q.supported == p.supported
            && (p.autoneg ==> q.speed == p.speed && q.duplex == p.duplex)
            && (!p.autoneg ==>
                  var forced := SETTINGS[Chosen(p.advertising, p.supported)];
                  q.speed == forced.speed && q.duplex == forced.duplex)
  {
  }

  /** UP calls the driver once and goes on to AN, or with negotiation off to FORCING; an error keeps it in UP. */
  lemma UpStarts(p: Phy, i: Input)
    requires p.state.Up?
    ensures var q := Tick(p, i);
            && q.state == (if i.config.err < 0 then Up else if p.autoneg then An else Forcing)
            && q.autoneg == p.autoneg && q.configs == p.configs + 1
            && q.events == p.events && q.link == p.link && q.timeout == p.timeout
            && (!p.autoneg ==>
                  var forced := SETTINGS[Chosen(p.advertising, p.supported)];
                  q.speed == forced.speed && q.duplex == forced.duplex)
  {
  }

  // ----- runs

  /** No pass sees the wait of AN end: the link stays up and negotiation goes on. */
  predicate Negotiating(ins: seq<Input>) {
    forall k :: 0 <= k < |ins| ==> ins[k].status.link && !Complete(ins[k])
  }

  /** No pass sees a link. */
  predicate Dark(ins: seq<Input>) {
    forall k :: 0 <= k < |ins| ==> !ins[k].status.link
  }

  /** What pass `n` adds to the reports: its link value, unless the link was and is down. */
  function LinkReport(ins: seq<Input>, n: nat): seq<bool>
    requires n < |ins|
  {
    if ins[n].status.link || (n > 0 && ins[n - 1].status.link) then [ins[n].status.link] else []
  }

  /** What the last pass reports when the first began in AN: nothing during negotiation, then its end, then as above. */
  function AnReport(ins: seq<Input>): seq<bool>
    requires ins != []
  {
    var n := |ins| - 1;
    if Negotiating(ins) then [] else if Negotiating(ins[..n]) then [ins[n].status.link] else LinkReport(ins, n)
  }

  function AnReports(ins: seq<Input>): seq<bool> {
    if ins == [] then [] else AnReports(ins[..|ins| - 1]) + AnReport(ins)
  }

  /** The same for FORCING, which reports every pass until the link comes. */
  function ForcingReport(ins: seq<Input>): seq<bool>
    requires ins != []
  {
    var n := |ins| - 1;
    if Dark(ins[..n]) then [ins[n].status.link] else LinkReport(ins, n)
  }

  function ForcingReports(ins: seq<Input>): seq<bool> {
    if ins == [] then [] else ForcingReports(ins[..|ins| - 1]) + ForcingReport(ins)
  }

  /** RUNNING or NOLINK, as the last pass saw the link. */
  predicate Settles(p: Phy, ins: seq<Input>) {
    && ins != [] && p.link == ins[|ins| - 1].status.link
    && p.state == if p.link then Running else NoLink
  }

  lemma SettledPass(p: Phy, ins: seq<Input>, i: Input)
    requires Settles(p, ins) && Answered(i)
    ensures Settles(Tick(p, i), ins + [i])
    ensures Tick(p, i).events == p.events + LinkReport(ins + [i], |ins|)
  {
    if i.status.link {
      LinkUpRuns(p, i);
    } else if p.link {
      LinkDownStops(p, i);
    } else {
      NoLinkStays(p, i);
    }
  }

  lemma AnPass(p: Phy, ins: seq<Input>, n: nat)
    requires |ins| == n + 1 && Negotiating(ins[..n]) && Answered(ins[n]) && p.state.An? && p.autoneg
    ensures var q := Tick(p, ins[n]);
            if Negotiating(ins) then q.state.An? && q.autoneg && q.events == p.events
            else Settles(q, ins) && q.events == p.events + [ins[n].status.link]
  {
    var i := ins[n];
    assert Negotiating(ins) <==> i.status.link && !Complete(i) by {
      assert forall k :: 0 <= k < n ==> ins[k] == ins[..n][k];
    }
    if !i.status.link {
      LinkDownStops(p, i);
    } else if Complete(i) {
      LinkUpRuns(p, i);
    } else {
      AnHolds(p, i);
    }
  }

  lemma ForcingPass(p: Phy, ins: seq<Input>, n: nat)
    requires |ins| == n + 1 && Dark(ins[..n]) && Answered(ins[n]) && p.state.Forcing? && !p.autoneg
    ensures var q := Tick(p, ins[n]);
            && q.events == p.events + [ins[n].status.link]
            && if Dark(ins) then q.state.Forcing? && !q.autoneg else Settles(q, ins)
  {
    var i := ins[n];
    assert Dark(ins) <==> !i.status.link by {
      assert forall k :: 0 <= k < n ==> ins[k] == ins[..n][k];
    }
    if i.status.link {
      LinkUpRuns(p, i);
    } else {
      ForcingHolds(p, i);
    }
  }

  lemma Longer<T>(s: seq<T>, n: nat)
    requires |s| == n + 1
    ensures s[..n] + [s[n]] == s
  {
  }

  /**
   * Every run from AN without failing reads: the state stays AN exactly as long as the passes see
   * the link up and negotiation going on; the first other pass ends the wait, and from then on the
   * state is RUNNING or NOLINK as the last pass saw the link. The reports are those of `AnReports`.
   */
  lemma {:induction false} AnRun(p: Phy, ins: seq<Input>)
    requires p.state.An? && p.autoneg && AllAnswered(ins)
    ensures var q := Passes(p, ins);
            AnOrSettled(q, ins) && q.events == p.events + AnReports(ins)
    decreases |ins|
  {
    if ins != [] {
      var n := |ins| - 1;
      AnRun(p, ins[..n]);
      AnOneMore(Passes(p, ins[..n]), ins, n);
      Gather(p.events, AnReports(ins[..n]), AnReport(ins));
    }
  }

  ghost predicate AnOrSettled(p: Phy, ins: seq<Input>) {
    if Negotiating(ins) then p.state.An? && p.autoneg else Settles(p, ins)
  }

  lemma AnOneMore(p: Phy, ins: seq<Input>, n: nat)
    requires |ins| == n + 1 && Answered(ins[n]) && AnOrSettled(p, ins[..n])
    ensures AnOrSettled(Tick(p, ins[n]), ins) && Tick(p, ins[n]).events == p.events + AnReport(ins)
  {
    if Negotiating(ins[..n]) {
      AnPass(p, ins, n);
    } else {
      Longer(ins, n);
      SettledPass(p, ins[..n], ins[n]);
      StillEnded(ins, n);
    }
  }

  ghost predicate ForcingOrSettled(p: Phy, ins: seq<Input>) {
    if Dark(ins) then p.state.Forcing? && !p.autoneg else Settles(p, ins)
  }

  lemma ForcingOneMore(p: Phy, ins: seq<Input>, n: nat)
    requires |ins| == n + 1 && Answered(ins[n]) && ForcingOrSettled(p, ins[..n])
    ensures ForcingOrSettled(Tick(p, ins[n]), ins) && Tick(p, ins[n]).events == p.events + ForcingReport(ins)
  {
    if Dark(ins[..n]) {
      ForcingPass(p, ins, n);
    } else {
      Longer(ins, n);
      SettledPass(p, ins[..n], ins[n]);
      StillLit(ins, n);
    }
  }

  lemma Gather<T>(a: seq<T>, b: seq<T>, c: seq<T>)
    ensures a + b + c == a + (b + c)
  {
  }

  lemma StillEnded(ins: seq<Input>, n: nat)
    requires n <= |ins| && !Negotiating(ins[..n])
    ensures !Negotiating(ins)
  {
    var k :| 0 <= k < n && !(ins[..n][k].status.link && !Complete(ins[..n][k]));
    assert ins[k] == ins[..n][k];
  }

  lemma StillLit(ins: seq<Input>, n: nat)
    requires n <= |ins| && !Dark(ins[..n])
    ensures !Dark(ins)
  {
    var k :| 0 <= k < n && ins[..n][k].status.link;
    assert ins[k] == ins[..n][k];
  }

  /** Every run from FORCING: it stays until the first pass that sees the link. */
  lemma {:induction false} ForcingRun(p: Phy, ins: seq<Input>)
    requires p.state.Forcing? && !p.autoneg && AllAnswered(ins)
    ensures var q := Passes(p, ins);
            ForcingOrSettled(q, ins) && q.events == p.events + ForcingReports(ins)
    decreases |ins|
  {
    if ins != [] {
      var n := |ins| - 1;
      ForcingRun(p, ins[..n]);
      ForcingOneMore(Passes(p, ins[..n]), ins, n);
      Gather(p.events, ForcingReports(ins[..n]), ForcingReport(ins));
    }
  }

  // ----- with the drivers of this repository

  ghost predicate ShippedPass(p: Phy, ins: seq<Input>, k: int)
    requires 0 <= k < |ins|
  {
    Shipped(Passes(p, ins[..k]), ins[k])
  }

  lemma ShippedAnswers(p: Phy, ins: seq<Input>)
    requires forall k {:trigger ShippedPass(p, ins, k)} :: 0 <= k < |ins| ==> ShippedPass(p, ins, k)
    ensures AllAnswered(ins)
  {
    forall k | 0 <= k < |ins| ensures Answered(ins[k]) {
      assert ShippedPass(p, ins, k);
      ShippedNeverFails(Passes(p, ins[..k]), ins[k]);
    }
  }

  lemma LastPass(p: Phy, ins: seq<Input>, i: Input)
    ensures Passes(p, ins + [i]) == Tick(Passes(p, ins), i)
  {
    assert (ins + [i])[..|ins|] == ins;
  }

  lemma {:induction false} PassesFrom(p: Phy, i: Input, ins: seq<Input>)
    ensures Passes(p, [i] + ins) == Passes(Tick(p, i), ins)
    decreases |ins|
  {
    if ins == [] {
      assert [i] + ins == [i] && [i][..0] == [];
    } else {
      var n := |ins| - 1;
      PassesFrom(p, i, ins[..n]);
      LastPass(p, [i] + ins[..n], ins[n]);
      LastPass(Tick(p, i), ins[..n], ins[n]);
      Longer(ins, n);
      assert [i] + ins == [i] + ins[..n] + [ins[n]];
    }
  }

  /**
   * The whole life of a PHY from ETH_PHY_UP with the drivers of this repository, whose `config_aneg`
   * returns 0: state and reports after any number of passes.
   */
  lemma LifeOfPhy(p: Phy, i: Input, ins: seq<Input>)
    requires p.state.Up? && i.config.err == 0
    requires forall k {:trigger ShippedPass(Tick(p, i), ins, k)} ::
               0 <= k < |ins| ==> ShippedPass(Tick(p, i), ins, k)
    ensures var q := Passes(p, [i] + ins);
            && (p.autoneg ==> if Negotiating(ins) then q.state.An? else Settles(q, ins))
            && (!p.autoneg ==> if Dark(ins) then q.state.Forcing? else Settles(q, ins))
            && q.events == p.events + if p.autoneg then AnReports(ins) else ForcingReports(ins)
  {
    PassesFrom(p, i, ins);
    UpStarts(p, i);
    ShippedAnswers(Tick(p, i), ins);
    if p.autoneg {
      AnRun(Tick(p, i), ins);
    } else {
      ForcingRun(Tick(p, i), ins);
    }
  }
}
