/**
 * The UART-to-radio pipeline: the receive interrupt feeds the ring buffer with `RB_SET` while the
 * p2p task drains it with `RB_GET` and sends frames. The two interleave at every memory access.
 */
module UartP2p {
  import opened RingBuffer

  type Byte = bv8

  const FRAME_MAX: int := 1500

  /** Where the interrupt handler stands inside `RB_SET`. */
  datatype Producer =
    | Ready
    | Storing(v: Byte)      // the full test passed
    | Publishing(v: Byte)   // the slot is written, `wpos` not yet moved

  /** Where the task stands inside `uart_p2p_tx_data`. */
  datatype Consumer =
    | Waiting               // in the semaphore
    | Testing               // at the loop condition
    | Getting               // loop condition passed, before the test inside RB_GET
    | Fetching              // that test passed
    | Advancing             // the slot is read, `rpos` not yet moved
    | Counting              // RB_GET done, before `count++`

  /**
   * `accepted` are the bytes published to the ring so far, `frames` those sent; both are history.
   */
  datatype State = State(
    rbq: seq<Byte>, qsize: int, rpos: int, wpos: int,
    producer: Producer, consumer: Consumer,
    txbuf: seq<Byte>, count: int,
    accepted: seq<Byte>, frames: seq<seq<Byte>>)

  datatype Action =
    | Receive(v: Byte)      // the interrupt delivers a byte; full test of RB_SET
    | Store
    | Publish
    | Wake
    | Test
    | Recheck
    | Fetch
    | Advance
    | Increment

  predicate Enabled(s: State, a: Action) {
    match a
    case Receive(_) => s.producer.Ready?
    case Store => s.producer.Storing?
    case Publish => s.producer.Publishing?
    case Wake => s.consumer.Waiting?
    case Test => s.consumer.Testing?
    case Recheck => s.consumer.Getting?
    case Fetch => s.consumer.Fetching?
    case Advance => s.consumer.Advancing?
    case Increment => s.consumer.Counting?
  }

  ghost predicate Bounded(s: State) {
    InRange(|s.rbq|, s.qsize, s.rpos, s.wpos) && |s.txbuf| == FRAME_MAX && 0 <= s.count <= FRAME_MAX
  }

  /** One memory access of the interrupt handler or of the task. */
  function Do(s: State, a: Action): State
    requires Bounded(s) && Enabled(s, a)
    requires s.consumer in {Getting, Fetching, Advancing, Counting} ==> s.count < FRAME_MAX
  {
    match a
    case Receive(v) =>
      if NextPos(s.qsize, s.wpos) == s.rpos then s else s.(producer := Storing(v))
    case Store =>
      s.(rbq := s.rbq[s.wpos := s.producer.v], producer := Publishing(s.producer.v))
    case Publish =>
      s.(wpos := NextPos(s.qsize, s.wpos), producer := Ready, accepted := s.accepted + [s.producer.v])
    case Wake =>
      s.(count := 0, consumer := Testing)
    case Test =>
      if s.count < FRAME_MAX && s.wpos != s.rpos then s.(consumer := Getting)
      else if s.count > 0 then s.(frames := s.frames + [s.txbuf[..s.count]], consumer := Waiting, count := 0)
      else s.(consumer := Waiting)
    case Recheck =>
      if s.wpos != s.rpos then s.(consumer := Fetching) else s.(consumer := Counting)
    case Fetch =>
      s.(txbuf := s.txbuf[s.count := s.rbq[s.rpos]], consumer := Advancing)
    case Advance =>
      s.(rpos := NextPos(s.qsize, s.rpos), consumer := Counting)
    case Increment =>
      s.(count := s.count + 1, consumer := Testing)
  }

  function Concat(frames: seq<seq<Byte>>): seq<Byte> {
    if frames == [] then [] else Concat(frames[..|frames| - 1]) + frames[|frames| - 1]
  }

  /** Bytes taken out of the ring and not yet sent. */
  function Pending(s: State): seq<Byte>
    requires Bounded(s) && (s.consumer.Counting? ==> s.count < FRAME_MAX)
  {
    s.txbuf[..if s.consumer.Counting? then s.count + 1 else s.count]
  }

  ghost predicate ProducerInv(s: State)
    requires Bounded(s)
  {
    && (!s.producer.Ready? ==> NextPos(s.qsize, s.wpos) != s.rpos)
    && (s.producer.Publishing? ==> s.rbq[s.wpos] == s.producer.v)
  }

  ghost predicate ConsumerInv(s: State)
    requires Bounded(s)
  {
    && (s.consumer in {Getting, Fetching, Advancing, Counting} ==> s.count < FRAME_MAX)
    && (s.consumer in {Getting, Fetching, Advancing} ==> s.wpos != s.rpos)
    && (s.consumer.Advancing? ==> s.txbuf[s.count] == s.rbq[s.rpos])
    && (s.consumer.Waiting? ==> s.count == 0)
  }

  /** Nothing is lost, duplicated or reordered between the interrupt and the frames sent. */
  ghost predicate Conserved(s: State)
    requires Bounded(s) && ConsumerInv(s)
  {
    s.accepted == Concat(s.frames) + Pending(s) + Unread(s.rbq, s.qsize, s.rpos, s.wpos)
  }

  ghost predicate FramesInv(s: State) {
    forall i :: 0 <= i < |s.frames| ==> 1 <= |s.frames[i]| <= FRAME_MAX
  }

  ghost predicate Inv(s: State) {
    Bounded(s) && ProducerInv(s) && ConsumerInv(s) && Conserved(s) && FramesInv(s)
  }

  /** The parts of the invariant, with the sequences it speaks of named. */
  lemma Assemble(s: State, sent: seq<Byte>, pending: seq<Byte>, unread: seq<Byte>)
    requires Bounded(s) && ProducerInv(s) && ConsumerInv(s) && FramesInv(s)
    requires Concat(s.frames) == sent && Pending(s) == pending
    requires Unread(s.rbq, s.qsize, s.rpos, s.wpos) == unread && s.accepted == sent + pending + unread
    ensures Inv(s)
  {
  }

  lemma StoreStep(s: State)
    requires Inv(s) && s.producer.Storing?
    ensures Inv(Do(s, Store))
  {
    StoreKeepsUnread(s.rbq, s.qsize, s.rpos, s.wpos, s.producer.v);
    Assemble(Do(s, Store), Concat(s.frames), Pending(s), Unread(s.rbq, s.qsize, s.rpos, s.wpos));
  }

  lemma PublishStep(s: State)
    requires Inv(s) && s.producer.Publishing?
    ensures Inv(Do(s, Publish))
  {
    var unread, v := Unread(s.rbq, s.qsize, s.rpos, s.wpos), s.producer.v;
    PublishAppends(s.rbq, s.qsize, s.rpos, s.wpos);
    Append(Concat(s.frames) + Pending(s), unread, v);
    Assemble(Do(s, Publish), Concat(s.frames), Pending(s), unread + [v]);
  }

  lemma ProducerStep(s: State, a: Action)
    requires Inv(s) && Enabled(s, a) && (a.Receive? || a.Store? || a.Publish?)
    ensures Inv(Do(s, a))
  {
    if a.Store? {
      StoreStep(s);
    } else if a.Publish? {
      PublishStep(s);
    } else {
      Assemble(Do(s, a), Concat(s.frames), Pending(s), Unread(s.rbq, s.qsize, s.rpos, s.wpos));
    }
  }

  lemma Append<T>(a: seq<T>, b: seq<T>, x: T)
    ensures a + b + [x] == a + (b + [x])
  {
  }

  lemma Regroup<T>(a: seq<T>, p: seq<T>, x: T, rest: seq<T>)
    ensures a + p + ([x] + rest) == a + (p + [x]) + rest
  {
  }

  lemma ConcatAppend(frames: seq<seq<Byte>>, f: seq<Byte>)
    ensures Concat(frames + [f]) == Concat(frames) + f
  {
    assert (frames + [f])[..|frames|] == frames;
  }

  /** Sending the drained bytes moves them from `txbuf` to the frames. */
  lemma SendStep(s: State)
    requires Inv(s) && s.consumer.Testing? && s.count > 0
    ensures Inv(s.(frames := s.frames + [s.txbuf[..s.count]], consumer := Waiting, count := 0))
  {
    var frame := s.txbuf[..s.count];
    var s' := s.(frames := s.frames + [frame], consumer := Waiting, count := 0);
    ConcatAppend(s.frames, frame);
    assert Pending(s) == frame && Pending(s') == [];
    assert Concat(s'.frames) + [] == Concat(s.frames) + frame;
  }

  lemma TestStep(s: State)
    requires Inv(s) && s.consumer.Testing?
    ensures Inv(Do(s, Test))
  {
    if !(s.count < FRAME_MAX && s.wpos != s.rpos) && s.count > 0 {
      SendStep(s);
    } else {
      assert Pending(Do(s, Test)) == Pending(s);
    }
  }

  lemma FetchStep(s: State)
    requires Inv(s) && s.consumer.Fetching?
    ensures Inv(Do(s, Fetch))
  {
    assert Pending(Do(s, Fetch)) == Pending(s);
  }

  /** The fetched byte counts as taken out once `rpos` has moved past it. */
  lemma PendingGrows(s: State)
    requires Inv(s) && s.consumer.Advancing?
    ensures Pending(s.(consumer := Counting)) == Pending(s) + [s.rbq[s.rpos]]
  {
    assert s.txbuf[..s.count + 1] == s.txbuf[..s.count] + [s.txbuf[s.count]];
  }

  lemma AdvanceShape(s: State)
    requires Inv(s) && s.consumer.Advancing?
    ensures var s' := Do(s, Advance);
            && s' == s.(rpos := NextPos(s.qsize, s.rpos), consumer := Counting)
            && Bounded(s') && ProducerInv(s') && ConsumerInv(s') && FramesInv(s')
  {
  }

  lemma AdvanceStep(s: State)
    requires Inv(s) && s.consumer.Advancing?
    ensures Inv(Do(s, Advance))
  {
    var x, rpos := s.rbq[s.rpos], NextPos(s.qsize, s.rpos);
    var sent, pending, rest := Concat(s.frames), Pending(s), Unread(s.rbq, s.qsize, rpos, s.wpos);
    PendingGrows(s);
    AdvanceShape(s);
    ConsumeDrops(s.rbq, s.qsize, s.rpos, s.wpos);
    Regroup(sent, pending, x, rest);
    Assemble(Do(s, Advance), sent, pending + [x], rest);
  }

  lemma ConsumerStep(s: State, a: Action)
    requires Inv(s) && Enabled(s, a) && !(a.Receive? || a.Store? || a.Publish?)
    ensures Inv(Do(s, a))
  {
    match a
    case Test => TestStep(s);
    case Fetch => FetchStep(s);
    case Advance => AdvanceStep(s);
    case Wake => assert Pending(Do(s, a)) == Pending(s);
    case Recheck => assert Pending(Do(s, a)) == Pending(s);
    case Increment => assert Pending(Do(s, a)) == Pending(s);
  }

  /** Every interleaving keeps the invariant. */
  lemma StepKeepsInv(s: State, a: Action)
    requires Inv(s) && Enabled(s, a)
    ensures Inv(Do(s, a))
  {
    if a.Receive? || a.Store? || a.Publish? {
      ProducerStep(s, a);
    } else {
      ConsumerStep(s, a);
    }
  }

  /** A sequence of memory accesses of the two sides, in any order. */
  ghost predicate Schedule(s: State, run: seq<Action>)
    requires Inv(s)
    decreases |run|
  {
    run == [] ||
    (&& Enabled(s, run[0])
     && (StepKeepsInv(s, run[0]); Schedule(Do(s, run[0]), run[1..])))
  }

  ghost function After(s: State, run: seq<Action>): State
    requires Inv(s) && Schedule(s, run)
    decreases |run|
  {
    if run == [] then s else
      StepKeepsInv(s, run[0]);
      After(Do(s, run[0]), run[1..])
  }

  function Init(rbq: seq<Byte>, qsize: int, txbuf: seq<Byte>): State {
    State(rbq, qsize, 0, 0, Ready, Waiting, txbuf, 0, [], [])
  }

  lemma InitInv(rbq: seq<Byte>, qsize: int, txbuf: seq<Byte>)
    requires 1 <= qsize <= |rbq| && |txbuf| == FRAME_MAX
    ensures Inv(Init(rbq, qsize, txbuf))
  {
  }

  /**
   * In every interleaving, frames plus drained bytes plus ring contents are exactly the accepted
   * bytes in order; the ring count is its length; every frame holds 1 to 1500 bytes.
   */
  lemma {:induction false} PipelineConserves(s: State, run: seq<Action>)
    requires Inv(s) && Schedule(s, run)
    ensures var t := After(s, run);
            && Inv(t)
            && t.accepted == Concat(t.frames) + Pending(t) + Unread(t.rbq, t.qsize, t.rpos, t.wpos)
            && |Unread(t.rbq, t.qsize, t.rpos, t.wpos)| == CountOf(t.qsize, t.rpos, t.wpos) < t.qsize
            && (t.consumer.Waiting? ==> Pending(t) == [])
            && forall i :: 0 <= i < |t.frames| ==> 1 <= |t.frames[i]| <= FRAME_MAX
    decreases |run|
  {
    if run == [] {
      CountIsLength(s.rbq, s.qsize, s.rpos, s.wpos);
    } else {
      StepKeepsInv(s, run[0]);
      PipelineConserves(Do(s, run[0]), run[1..]);
    }
  }

  /** The byte between the full test of the interrupt handler and its publication. */
  function InFlight(s: State): seq<Byte> {
    match s.producer
    case Ready => []
    case Storing(v) => [v]
    case Publishing(v) => [v]
  }

  /** The byte this step brings in: a received one that meets a ring with room. */
  function TakenBy(s: State, a: Action): seq<Byte> {
    if a.Receive? && NextPos(s.qsize, s.wpos) != s.rpos then [a.v] else []
  }

  ghost function Taken(s: State, run: seq<Action>): seq<Byte>
    requires Inv(s) && Schedule(s, run)
    decreases |run|
  {
    if run == [] then [] else
      StepKeepsInv(s, run[0]);
      TakenBy(s, run[0]) + Taken(Do(s, run[0]), run[1..])
  }

  lemma StepTakes(s: State, a: Action)
    requires Inv(s) && Enabled(s, a)
    ensures Do(s, a).accepted + InFlight(Do(s, a)) == s.accepted + InFlight(s) + TakenBy(s, a)
  {
  }

  lemma Chain<T>(a: seq<T>, b: seq<T>, c: seq<T>)
    ensures a + b + c == a + (b + c)
  {
  }

  /** What is accepted, with the byte in flight, is what the interrupts brought while there was room. */
  lemma {:induction false} AcceptedIsTaken(s: State, run: seq<Action>)
    requires Inv(s) && Schedule(s, run)
    ensures var t := After(s, run);
            t.accepted + InFlight(t) == s.accepted + InFlight(s) + Taken(s, run)
    decreases |run|
  {
    if run == [] {
      assert s.accepted + InFlight(s) + [] == s.accepted + InFlight(s);
    } else {
      StepKeepsInv(s, run[0]);
      var s' := Do(s, run[0]);
      StepTakes(s, run[0]);
      AcceptedIsTaken(s', run[1..]);
      Chain(s.accepted + InFlight(s), TakenBy(s, run[0]), Taken(s', run[1..]));
    }
  }

  /**
   * From the start, in every interleaving: the frames sent, the bytes being drained, the ring and
   * the byte in flight are together exactly the received bytes that met a ring with room, in order.
   */
  lemma PipelineDelivers(rbq: seq<Byte>, qsize: int, txbuf: seq<Byte>, run: seq<Action>)
    requires Inv(Init(rbq, qsize, txbuf)) && Schedule(Init(rbq, qsize, txbuf), run)
    ensures var s := Init(rbq, qsize, txbuf);
            var t := After(s, run);
            Inv(t) && Taken(s, run)
                      == Concat(t.frames) + Pending(t) + Unread(t.rbq, t.qsize, t.rpos, t.wpos) + InFlight(t)
  {
    var s := Init(rbq, qsize, txbuf);
    PipelineConserves(s, run);
    AcceptedIsTaken(s, run);
    assert s.accepted + InFlight(s) + Taken(s, run) == Taken(s, run);
  }

  /** The producer's store never changes an unread byte, wherever the consumer stands. */
  lemma StoreNeverOverwritesUnread(s: State)
    requires Inv(s) && s.producer.Storing?
    ensures var t := Do(s, Store);
            Unread(t.rbq, t.qsize, t.rpos, t.wpos) == Unread(s.rbq, s.qsize, s.rpos, s.wpos)
    ensures s.consumer in {Getting, Fetching, Advancing} ==>
              Do(s, Store).rbq[s.rpos] == s.rbq[s.rpos]
  {
    StoreKeepsUnread(s.rbq, s.qsize, s.rpos, s.wpos, s.producer.v);
  }

  /** The second emptiness test, inside `RB_GET`, never fails: `count` counts real bytes only. */
  lemma RecheckNeverFails(s: State)
    requires Inv(s) && s.consumer.Getting?
    ensures Do(s, Recheck).consumer.Fetching?
  {
  }

  /** `uart_p2p_tx_data` without interruption: sends the oldest bytes, at most 1500 of them. */
  method TxData(rb: Ring<Byte>, txbuf: array<Byte>) returns (count: int)
    requires rb.Valid() && txbuf.Length == FRAME_MAX && txbuf != rb.rbq
    modifies rb, txbuf
    ensures rb.Valid() && rb.qsize == old(rb.qsize)
    ensures 0 <= count <= FRAME_MAX
    ensures old(rb.Contents()) == txbuf[..count] + rb.Contents()
    ensures count < FRAME_MAX ==> rb.Contents() == []
  {
    count := 0;
    ghost var sent: seq<Byte>, left := [], rb.Contents();
    while count < FRAME_MAX && rb.wpos != rb.rpos
      invariant 0 <= count <= FRAME_MAX && rb.Valid() && rb.qsize == old(rb.qsize)
      invariant sent == txbuf[..count] && left == rb.Contents()
      invariant old(rb.Contents()) == sent + left
      decreases FRAME_MAX - count
    {
      CountIsLength(rb.rbq[..], rb.qsize, rb.rpos, rb.wpos);
      var v := rb.Get(txbuf[count]);
      assert sent + left == (sent + [v]) + rb.Contents();
      left := rb.Contents();
      txbuf[count] := v;
      count := count + 1;
      assert txbuf[..count] == sent + [v];
      sent := sent + [v];
    }
    CountIsLength(rb.rbq[..], rb.qsize, rb.rpos, rb.wpos);
  }
}
