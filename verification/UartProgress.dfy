/**
 * What the draining task achieves: a pass alone sends the oldest bytes as one frame, and a pass
 * that finds bytes sends a frame however the interrupts interleave.
 */
module UartProgress {
  import opened RingBuffer
  import opened UartP2p

  predicate OfTask(a: Action) {
    !a.Receive? && !a.Store? && !a.Publish?
  }

  /** The unread bytes of the ring. */
  function InRing(s: State): seq<Byte>
    requires InRange(|s.rbq|, s.qsize, s.rpos, s.wpos)
  {
    Unread(s.rbq, s.qsize, s.rpos, s.wpos)
  }

  // ----- the task alone

  /** The only step the task can make. */
  function TaskStep(s: State): Action {
    match s.consumer
    case Waiting => Wake
    case Testing => Test
    case Getting => Recheck
    case Fetching => Fetch
    case Advancing => Advance
    case Counting => Increment
  }

  ghost predicate CanStep(s: State) {
    Bounded(s) && (s.consumer in {Getting, Fetching, Advancing, Counting} ==> s.count < FRAME_MAX)
  }

  /** The state after `n` steps of the task. */
  ghost function Solo(s: State, n: nat): State
    decreases n
  {
    if n == 0 || !CanStep(s) then s else Solo(Do(s, TaskStep(s)), n - 1)
  }

  lemma {:induction false} SoloAdds(s: State, m: nat, n: nat)
    ensures Solo(s, m + n) == Solo(Solo(s, m), n)
    decreases m
  {
    if m > 0 && CanStep(s) {
      SoloAdds(Do(s, TaskStep(s)), m - 1, n);
    }
  }

  predicate Alone(run: seq<Action>) {
    forall i :: 0 <= i < |run| ==> OfTask(run[i])
  }

  lemma OnlyStep(s: State, a: Action)
    requires Enabled(s, a) && OfTask(a)
    ensures a == TaskStep(s)
  {
  }

  lemma StepSolo(s: State, s': State, n: nat)
    requires CanStep(s) && s' == Do(s, TaskStep(s))
    ensures Solo(s, n + 1) == Solo(s', n)
  {
  }

  /** Steps of the task alone leave no choice. */
  lemma {:induction false} AloneIsSolo(s: State, run: seq<Action>)
    requires Inv(s) && Schedule(s, run) && Alone(run)
    ensures After(s, run) == Solo(s, |run|)
    decreases |run|
  {
    if run != [] {
      StepKeepsInv(s, run[0]);
      OnlyStep(s, run[0]);
      AloneIsSolo(Do(s, run[0]), run[1..]);
      StepSolo(s, Do(s, run[0]), |run| - 1);
    }
  }

  /** The task is never blocked. */
  lemma {:induction false} CanGoAlone(s: State, n: nat) returns (run: seq<Action>)
    requires Inv(s)
    ensures |run| == n && Alone(run) && Schedule(s, run)
    decreases n
  {
    if n == 0 {
      run := [];
    } else {
      StepKeepsInv(s, TaskStep(s));
      var rest := CanGoAlone(Do(s, TaskStep(s)), n - 1);
      run := [TaskStep(s)] + rest;
      assert run[1..] == rest;
    }
  }

  /** What one round of the loop leaves. */
  function Drained(s: State): State
    requires Bounded(s) && s.count < FRAME_MAX
  {
    s.(txbuf := s.txbuf[s.count := s.rbq[s.rpos]], rpos := NextPos(s.qsize, s.rpos), count := s.count + 1)
  }

  /** The five states of a round. */
  lemma RoundStates(s: State, s1: State, s2: State, s3: State, s4: State)
    requires Bounded(s) && s.consumer.Testing? && s.count < FRAME_MAX && s.wpos != s.rpos
    requires s1 == s.(consumer := Getting) && s2 == s.(consumer := Fetching)
    requires s3 == s.(txbuf := s.txbuf[s.count := s.rbq[s.rpos]], consumer := Advancing)
    requires s4 == s3.(rpos := NextPos(s.qsize, s.rpos), consumer := Counting)
    ensures Do(s, TaskStep(s)) == s1 && Do(s1, TaskStep(s1)) == s2 && Do(s2, TaskStep(s2)) == s3
    ensures Do(s3, TaskStep(s3)) == s4 && Do(s4, TaskStep(s4)) == Drained(s)
  {
  }

  /** One round: five steps that move the oldest byte from the ring to the buffer. */
  lemma Round(s: State)
    requires Bounded(s) && s.consumer.Testing? && s.count < FRAME_MAX && s.wpos != s.rpos
    ensures Solo(s, 5) == Drained(s)
  {
    var s1, s2 := s.(consumer := Getting), s.(consumer := Fetching);
    var s3 := s.(txbuf := s.txbuf[s.count := s.rbq[s.rpos]], consumer := Advancing);
    var s4 := s3.(rpos := NextPos(s.qsize, s.rpos), consumer := Counting);
    RoundStates(s, s1, s2, s3, s4);
    StepSolo(s, s1, 4);
    StepSolo(s1, s2, 3);
    StepSolo(s2, s3, 2);
    StepSolo(s3, s4, 1);
    StepSolo(s4, Drained(s), 0);
  }

  /** The task stands at the loop test of `s` after `k` rounds. */
  ghost predicate After5(s: State, k: nat, t: State)
    requires Bounded(s) && k <= |InRing(s)| && s.count + k <= FRAME_MAX
  {
    && Bounded(t) && t.consumer.Testing? && t.count == s.count + k
    && t.txbuf[..t.count] == s.txbuf[..s.count] + InRing(s)[..k]
    && InRing(t) == InRing(s)[k..]
    && t.frames == s.frames && t.accepted == s.accepted && t.producer == s.producer
  }

  lemma RoundMoves(s: State, u: seq<Byte>)
    requires Bounded(s) && s.consumer.Testing? && s.count < FRAME_MAX && s.wpos != s.rpos && u == InRing(s)
    ensures u != [] && Bounded(Drained(s)) && InRing(Drained(s)) == u[1..]
    ensures Drained(s).txbuf[..s.count + 1] == s.txbuf[..s.count] + [u[0]]
  {
    ConsumeDrops(s.rbq, s.qsize, s.rpos, s.wpos);
  }

  lemma FirstRound(s: State, u: seq<Byte>, k: nat)
    requires Bounded(s) && s.consumer.Testing? && s.count < FRAME_MAX && u == InRing(s) && 0 < k <= |u|
    ensures Solo(s, 5 * k) == Solo(Drained(s), 5 * (k - 1))
    ensures Bounded(Drained(s)) && InRing(Drained(s)) == u[1..]
    ensures Drained(s).txbuf[..s.count + 1] == s.txbuf[..s.count] + [u[0]]
  {
    NotEmpty(s);
    RoundMoves(s, u);
    RoundFirst(s, 5 * (k - 1));
  }

  lemma NotEmpty(s: State)
    requires Bounded(s) && |InRing(s)| > 0
    ensures s.wpos != s.rpos
  {
    CountIsLength(s.rbq, s.qsize, s.rpos, s.wpos);
  }

  lemma RoundFirst(s: State, n: nat)
    requires Bounded(s) && s.consumer.Testing? && s.count < FRAME_MAX && s.wpos != s.rpos
    ensures Solo(s, n + 5) == Solo(Drained(s), n)
  {
    Round(s);
    SoloAdds(s, 5, n);
  }

  lemma OneMoreRound(s: State, s': State, u: seq<Byte>, k: nat, t: State)
    requires Bounded(s) && s.count < FRAME_MAX && s' == Drained(s) && Bounded(s')
    requires u == InRing(s) && 0 < k <= |u| && s.count + k <= FRAME_MAX && InRing(s') == u[1..]
    requires s'.txbuf[..s.count + 1] == s.txbuf[..s.count] + [u[0]] && After5(s', k - 1, t)
    ensures After5(s, k, t)
  {
    SlicesJoin(s.txbuf[..s.count], u, k);
  }

  lemma SlicesJoin<T>(a: seq<T>, u: seq<T>, k: nat)
    requires 0 < k <= |u|
    ensures a + [u[0]] + u[1..][..k - 1] == a + u[..k]
    ensures u[1..][k - 1..] == u[k..]
  {
  }

  lemma {:induction false} Rounds(s: State, k: nat)
    requires Bounded(s) && s.consumer.Testing? && k <= |InRing(s)| && s.count + k <= FRAME_MAX
    ensures After5(s, k, Solo(s, 5 * k))
    decreases k
  {
    var u := InRing(s);
    if k == 0 {
      assert u[..0] == [] && u[0..] == u;
    } else {
      FirstRound(s, u, k);
      var s' := Drained(s);
      Rounds(s', k - 1);
      OneMoreRound(s, s', u, k, Solo(s', 5 * (k - 1)));
    }
  }

  /** How many bytes a pass takes. */
  function Share(n: nat): nat {
    if n < 1500 then n else 1500
  }

  /**
   * A pass of the task alone, 5 steps a byte and two more: it sends the oldest bytes of the ring,
   * up to 1500, as one frame, nothing when there are none, and leaves the rest.
   */
  lemma PassSends(s: State, run: seq<Action>)
    requires Inv(s) && s.consumer.Waiting? && Schedule(s, run) && Alone(run)
    requires |run| == 5 * Share(|InRing(s)|) + 2
    ensures var t, u := After(s, run), InRing(s);
            var k := Share(|u|);
            && Inv(t) && t.consumer.Waiting?
            && t.frames == s.frames + (if k == 0 then [] else [u[..k]])
            && InRing(t) == u[k..]
            && t.accepted == s.accepted && t.producer == s.producer
  {
    PipelineConserves(s, run);
    AloneIsSolo(s, run);
    SoloPass(s);
  }

  lemma SoloPass(s: State)
    requires Bounded(s) && s.consumer.Waiting?
    ensures var u := InRing(s);
            var k := Share(|u|);
            var t := Solo(s, 5 * k + 2);
            && Bounded(t) && t.consumer.Waiting?
            && t.frames == s.frames + (if k == 0 then [] else [u[..k]])
            && InRing(t) == u[k..]
            && t.accepted == s.accepted && t.producer == s.producer
  {
    var k := Share(|InRing(s)|);
    var s1 := Do(s, Wake);
    StepSolo(s, s1, 5 * k + 1);
    Rounds(s1, k);
    SoloAdds(s1, 5 * k, 1);
    var s2 := Solo(s1, 5 * k);
    CountIsLength(s2.rbq, s2.qsize, s2.rpos, s2.wpos);
    assert s2.count == FRAME_MAX || InRing(s2) == [];
    assert s2.txbuf[..s2.count] == [] + InRing(s)[..k] == InRing(s)[..k];
    StepSolo(s2, Do(s2, Test), 0);
    assert s.frames + [] == s.frames;
  }

  // ----- the interrupt alone

  /** An interrupt appends its byte, or changes nothing when all slots but one are taken. */
  lemma InterruptAppends(s: State, v: Byte)
    requires Inv(s) && s.producer.Ready?
    ensures |InRing(s)| == s.qsize - 1 ==> Do(s, Receive(v)) == s
    ensures |InRing(s)| < s.qsize - 1 ==>
              && var s1 := Do(s, Receive(v));
              && s1.producer == Storing(v) && Bounded(s1) && ConsumerInv(s1)
              && var s2 := Do(s1, Store);
              && s2.producer == Publishing(v) && Bounded(s2)
              && (s2.consumer in {Getting, Fetching, Advancing, Counting} ==> s2.count < FRAME_MAX)
              && var t := Do(s2, Publish);
              && t.producer.Ready? && Bounded(t) && InRing(t) == InRing(s) + [v]
              && t.accepted == s.accepted + [v] && t.frames == s.frames
  {
    CountIsLength(s.rbq, s.qsize, s.rpos, s.wpos);
    StoreKeepsUnread(s.rbq, s.qsize, s.rpos, s.wpos, v);
    if NextPos(s.qsize, s.wpos) != s.rpos {
      PublishAppends(s.rbq[s.wpos := v], s.qsize, s.rpos, s.wpos);
    }
  }

  // ----- the task among interrupts

  /** A frame is sent exactly at a loop test with bytes drained that finds the buffer full or the ring empty. */
  lemma FrameSentIff(s: State, a: Action)
    requires Inv(s) && Enabled(s, a)
    ensures Do(s, a).frames != s.frames <==>
              a == Test && s.count > 0 && (s.count == FRAME_MAX || InRing(s) == [])
    ensures Do(s, a).frames != s.frames ==>
              && Do(s, a).frames == s.frames + [s.txbuf[..s.count]]
              && Do(s, a).consumer.Waiting?
  {
    CountIsLength(s.rbq, s.qsize, s.rpos, s.wpos);
  }

  /** A pass is on that has drained a byte or will find one. */
  predicate Fed(s: State) {
    !s.consumer.Waiting? && (s.count > 0 || s.wpos != s.rpos || s.consumer.Counting?)
  }

  /** Steps of the task until its pass is over, at most. */
  function Left(s: State): int {
    5 * (FRAME_MAX - s.count) +
    match s.consumer
    case Waiting => 0
    case Testing => 1
    case Getting => 0
    case Fetching => -1
    case Advancing => -2
    case Counting => -3
  }

  function TaskSteps(run: seq<Action>): nat {
    if run == [] then 0 else (if OfTask(run[0]) then 1 else 0) + TaskSteps(run[1..])
  }

  /** Every step of the task uses up one of those left; the interrupt changes nothing of this. */
  lemma FedStep(s: State, a: Action)
    requires Inv(s) && Enabled(s, a) && Fed(s)
    ensures var s' := Do(s, a);
            || (|s'.frames| == |s.frames| + 1 && s'.consumer.Waiting?)
            || (Fed(s') && s'.frames == s.frames && Left(s') == Left(s) - (if OfTask(a) then 1 else 0))
    ensures Left(s) > 0
  {
  }

  lemma {:induction false} FramesOnlyGrow(s: State, run: seq<Action>)
    requires Inv(s) && Schedule(s, run)
    ensures |After(s, run).frames| >= |s.frames|
    decreases |run|
  {
    if run != [] {
      StepKeepsInv(s, run[0]);
      FramesOnlyGrow(Do(s, run[0]), run[1..]);
    }
  }

  lemma {:induction false} FedPassSends(s: State, run: seq<Action>)
    requires Inv(s) && Schedule(s, run) && Fed(s) && TaskSteps(run) >= Left(s)
    ensures |After(s, run).frames| > |s.frames|
    decreases |run|
  {
    FedStep(s, TaskStep(s));
    StepKeepsInv(s, run[0]);
    FedStep(s, run[0]);
    var s' := Do(s, run[0]);
    if Fed(s') && s'.frames == s.frames {
      FedPassSends(s', run[1..]);
    } else {
      FramesOnlyGrow(s', run[1..]);
    }
  }

  /**
   * In every interleaving: when the ring holds a byte while the task waits, a frame has been sent
   * by the time the task has made 7502 steps, whatever the interrupts do in between.
   */
  lemma {:induction false} WokenTaskSends(s: State, run: seq<Action>)
    requires Inv(s) && Schedule(s, run) && s.consumer.Waiting? && InRing(s) != []
    requires TaskSteps(run) >= 5 * FRAME_MAX + 2
    ensures |After(s, run).frames| > |s.frames|
    decreases |run|
  {
    CountIsLength(s.rbq, s.qsize, s.rpos, s.wpos);
    StepKeepsInv(s, run[0]);
    var s' := Do(s, run[0]);
    CountIsLength(s'.rbq, s'.qsize, s'.rpos, s'.wpos);
    if OfTask(run[0]) {
      FedPassSends(s', run[1..]);
    } else {
      WokenTaskSends(s', run[1..]);
    }
  }
}
