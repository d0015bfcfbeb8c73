/**
 * The memory-to-memory DMA driver shared by any number of tasks. Tasks, and the two channels of
 * the engine, step in any order; every byte moved is a step of its own.
 */
module MemDma {

  type Byte = bv8

  const CHANNELS: int := 2

  /** Byte memory; addresses outside the map read as 0. */
  type Memory = map<int, Byte>

  function At(mem: Memory, a: int): Byte {
    if a in mem then mem[a] else 0
  }

  // ----- the calls and what they mean

  datatype Call =
    | Memcpy(dest: int, src: int, count: nat)
    | Memset(dest: int, val: Byte, count: nat)

  /** Calls that return at once: nothing to move, or a NULL pointer. */
  predicate Trivial(c: Call) {
    c.count == 0 || c.dest == 0 || (c.Memcpy? && c.src == 0)
  }

  predicate InDest(c: Call, a: int) {
    c.dest <= a < c.dest + c.count
  }

  predicate InSrc(c: Call, a: int) {
    c.Memcpy? && c.src <= a < c.src + c.count
  }

  /** Byte `i` of the result, on memory `mem`. */
  function Want(mem: Memory, c: Call, i: int): Byte {
    match c
    case Memcpy(_, src, _) => At(mem, src + i)
    case Memset(_, val, _) => val
  }

  /** `mem'` is what plain `memcpy` or `memset` makes of `mem`. */
  ghost predicate Plain(mem: Memory, c: Call, mem': Memory) {
    forall a {:trigger At(mem', a)} ::
      At(mem', a) == if InDest(c, a) then Want(mem, c, a - c.dest) else At(mem, a)
  }

  // ----- channels

  /** `busy_flag` as the set of its bit numbers. */
  type Flags = set<int>

  /** `mem_dma_get_free_ch`: claims the lowest free channel, -1 if there is none. */
  method GetFreeCh(flags: Flags) returns (ch: int, flags': Flags)
    ensures ch == ChannelFor(flags) && flags' == if ch < 0 then flags else flags + {ch}
    ensures -1 <= ch < CHANNELS && (ch >= 0 ==> ch !in flags)
    ensures forall k :: 0 <= k < (if ch < 0 then CHANNELS else ch) ==> k in flags
  {
    flags' := flags;
    ch := 0;
    while ch < CHANNELS
      invariant 0 <= ch <= CHANNELS && flags' == flags
      invariant forall k :: 0 <= k < ch ==> k in flags
    {
      if ch !in flags' {
        flags' := flags' + {ch};
        break;
      }
      ch := ch + 1;
    }
    ch := if ch < 2 then ch else -1;
  }

  /** The channel a claim gets: the lowest free one. */
  function ChannelFor(flags: Flags): int {
    if 0 !in flags then 0 else if 1 !in flags then 1 else -1
  }

  /** The registers of one channel; `pos` is how far the engine has come. */
  datatype Channel = Channel(enabled: bool, fill: bool, sadr: int, tadr: int, data: Byte, dlen: int, pos: int)

  // ----- the system

  datatype Phase =
    | Idle
    | Claiming(call: Call)
    | Programming(call: Call, ch: int)
    | Polling(call: Call, ch: int)
    | Fallback(call: Call, done: nat)

  /** `abs` is memory as it would be if each call took effect when it returns. */
  datatype System = System(flags: Flags, channels: seq<Channel>, tasks: seq<Phase>, mem: Memory, abs: Memory)

  datatype Action =
    | Begin(task: nat, call: Call)
    | Claim(task: nat)
    | Program(task: nat)
    | Engine(ch: nat)
    | Release(task: nat)
    | CpuMove(task: nat)
    | CpuReturn(task: nat)

  predicate Holds(p: Phase, ch: int) {
    (p.Programming? || p.Polling?) && p.ch == ch
  }

  /** How many bytes of the task's call are in place. */
  function Progress(s: System, p: Phase): int
    requires |s.channels| == CHANNELS && (p.Polling? ==> 0 <= p.ch < CHANNELS)
  {
    match p
    case Polling(_, ch) => s.channels[ch].pos
    case Fallback(_, done) => done
    case _ => 0
  }

  /** The two calls touch no byte that the other writes. */
  ghost predicate Compatible(c: Call, c': Call) {
    forall a {:trigger InDest(c, a)} {:trigger InDest(c', a)} ::
      && (InDest(c, a) ==> !InDest(c', a) && !InSrc(c', a))
      && (InDest(c', a) ==> !InSrc(c, a))
  }

  ghost predicate SelfCompatible(c: Call) {
    forall a {:trigger InDest(c, a)} :: InDest(c, a) ==> !InSrc(c, a)
  }

  /** Callers must not touch a buffer that a call in flight writes, nor write one it reads. */
  ghost predicate Admissible(s: System, t: nat, c: Call) {
    Trivial(c) ||
    (&& SelfCompatible(c)
     && forall u :: 0 <= u < |s.tasks| && u != t && !s.tasks[u].Idle? ==> Compatible(c, s.tasks[u].call))
  }

  ghost predicate Enabled(s: System, a: Action)
    requires |s.channels| == CHANNELS
  {
    match a
    case Begin(t, c) => t < |s.tasks| && s.tasks[t].Idle? && Admissible(s, t, c)
    case Claim(t) => t < |s.tasks| && s.tasks[t].Claiming?
    case Program(t) => t < |s.tasks| && s.tasks[t].Programming? && 0 <= s.tasks[t].ch < CHANNELS
    case Engine(ch) => ch < CHANNELS && s.channels[ch].enabled
    case Release(t) =>
      t < |s.tasks| && s.tasks[t].Polling? && 0 <= s.tasks[t].ch < CHANNELS && !s.channels[s.tasks[t].ch].enabled
    case CpuMove(t) => t < |s.tasks| && s.tasks[t].Fallback? && s.tasks[t].done < s.tasks[t].call.count
    case CpuReturn(t) => t < |s.tasks| && s.tasks[t].Fallback? && s.tasks[t].done >= s.tasks[t].call.count
  }

  /** Plain `memcpy` or `memset` of the first `n` bytes. */
  function Apply(mem: Memory, c: Call, n: nat): Memory {
    if n == 0 then mem else Apply(mem, c, n - 1)[c.dest + (n - 1) := Want(mem, c, n - 1)]
  }

  lemma {:induction false} ApplyIs(mem: Memory, c: Call, n: nat)
    ensures forall a {:trigger At(Apply(mem, c, n), a)} ::
      At(Apply(mem, c, n), a) == if c.dest <= a < c.dest + n then Want(mem, c, a - c.dest) else At(mem, a)
  {
    if n > 0 {
      ApplyIs(mem, c, n - 1);
      var mem1, mem2 := Apply(mem, c, n - 1), Apply(mem, c, n);
      forall a {:trigger At(mem2, a)}
        ensures At(mem2, a) == if c.dest <= a < c.dest + n then Want(mem, c, a - c.dest) else At(mem, a)
      {
        assert a != c.dest + (n - 1) ==> At(mem2, a) == At(mem1, a);
      }
    }
  }

  /** The registers a task writes for its call; `DLEN` is one less than the byte count. */
  function Registers(c: Call): Channel {
    match c
    case Memcpy(dest, src, count) => Channel(true, false, src, dest, 0, count - 1, 0)
    case Memset(dest, val, count) => Channel(true, true, 0, dest, val, count - 1, 0)
  }

  /** One byte moved by the engine; it disables itself after the last one. */
  function Moved(c: Channel): Channel {
    c.(pos := c.pos + 1, enabled := c.pos < c.dlen)
  }

  function EngineByte(mem: Memory, c: Channel): Byte {
    if c.fill then c.data else At(mem, c.sadr + c.pos)
  }

  ghost function Do(s: System, a: Action): System
    requires |s.channels| == CHANNELS && Enabled(s, a)
  {
    match a
    case Begin(t, c) =>
      if Trivial(c) then s else s.(tasks := s.tasks[t := Claiming(c)])
    case Claim(t) =>
      var ch, c := ChannelFor(s.flags), s.tasks[t].call;
      if ch < 0 then s.(tasks := s.tasks[t := Fallback(c, 0)])
      else s.(flags := s.flags + {ch}, tasks := s.tasks[t := Programming(c, ch)])
    case Program(t) =>
      var p := s.tasks[t];
      s.(channels := s.channels[p.ch := Registers(p.call)], tasks := s.tasks[t := Polling(p.call, p.ch)])
    case Engine(ch) =>
      var c := s.channels[ch];
      s.(mem := s.mem[c.tadr + c.pos := EngineByte(s.mem, c)], channels := s.channels[ch := Moved(c)])
    case Release(t) =>
      var p := s.tasks[t];
      s.(flags := s.flags - {p.ch}, tasks := s.tasks[t := Idle], abs := Apply(s.abs, p.call, p.call.count))
    case CpuMove(t) =>
      var p := s.tasks[t];
      s.(mem := s.mem[p.call.dest + p.done := Want(s.mem, p.call, p.done)],
         tasks := s.tasks[t := Fallback(p.call, p.done + 1)])
    case CpuReturn(t) =>
      var p := s.tasks[t];
      s.(tasks := s.tasks[t := Idle], abs := Apply(s.abs, p.call, p.call.count))
  }

  // ----- the invariant

  /** The channel works on the call. */
  predicate Serves(ch: Channel, c: Call) {
    && 0 <= ch.pos <= c.count
    && (ch.enabled <==> ch.pos < c.count)
    && ch.tadr == c.dest && ch.dlen == c.count - 1 && (ch.fill <==> c.Memset?)
    && (match c case Memcpy(_, src, _) => ch.sadr == src case Memset(_, val, _) => ch.data == val)
  }

  ghost predicate PhaseOk(s: System, p: Phase)
    requires |s.channels| == CHANNELS
  {
    && (!p.Idle? ==> !Trivial(p.call) && SelfCompatible(p.call))
    && (p.Programming? || p.Polling? ==> 0 <= p.ch < CHANNELS && p.ch in s.flags)
    && (p.Programming? ==> !s.channels[p.ch].enabled)
    && (p.Polling? ==> Serves(s.channels[p.ch], p.call))
    && (p.Fallback? ==> p.done <= p.call.count)
  }

  /** The bytes in place are those of the plain operation on `abs`. */
  ghost predicate InPlace(s: System, p: Phase)
    requires |s.channels| == CHANNELS && PhaseOk(s, p)
  {
    !p.Idle? ==> forall i {:trigger Want(s.abs, p.call, i)} ::
                   0 <= i < Progress(s, p) ==> At(s.mem, p.call.dest + i) == Want(s.abs, p.call, i)
  }

  ghost predicate TaskOk(s: System, t: int)
    requires |s.channels| == CHANNELS
  {
    0 <= t < |s.tasks| ==> PhaseOk(s, s.tasks[t]) && InPlace(s, s.tasks[t])
  }

  ghost predicate PairOk(s: System, t: int, u: int) {
    0 <= t < |s.tasks| && 0 <= u < |s.tasks| && t != u ==>
      && (!s.tasks[t].Idle? && !s.tasks[u].Idle? ==> Compatible(s.tasks[t].call, s.tasks[u].call))
      && !(exists ch :: Holds(s.tasks[t], ch) && Holds(s.tasks[u], ch))
  }

  /** The task that holds the channel. */
  ghost predicate Held(s: System, ch: int) {
    exists t :: 0 <= t < |s.tasks| && Holds(s.tasks[t], ch)
  }

  ghost predicate Running(s: System, ch: int) {
    exists t :: 0 <= t < |s.tasks| && s.tasks[t].Polling? && s.tasks[t].ch == ch
  }

  ghost predicate ChannelOk(s: System, ch: int)
    requires |s.channels| == CHANNELS
  {
    0 <= ch < CHANNELS ==> (ch in s.flags <==> Held(s, ch)) && (s.channels[ch].enabled ==> Running(s, ch))
  }

  /** Outside the destinations of calls in flight, memory is `abs`. */
  ghost predicate Settled(s: System, a: int) {
    At(s.mem, a) == At(s.abs, a) ||
    exists t :: 0 <= t < |s.tasks| && !s.tasks[t].Idle? && InDest(s.tasks[t].call, a)
  }

  ghost predicate Inv(s: System) {
    && |s.channels| == CHANNELS
    && (forall t {:trigger TaskOk(s, t)} :: TaskOk(s, t))
    && (forall t, u {:trigger PairOk(s, t, u)} :: PairOk(s, t, u))
    && (forall ch {:trigger ChannelOk(s, ch)} :: ChannelOk(s, ch))
    && (forall a {:trigger Settled(s, a)} :: Settled(s, a))
  }

  /** The parts of the invariant, for a successor state. */
  lemma Assemble(s: System)
    requires |s.channels| == CHANNELS
    requires forall t {:trigger TaskOk(s, t)} :: TaskOk(s, t)
    requires forall t, u {:trigger PairOk(s, t, u)} :: PairOk(s, t, u)
    requires forall ch {:trigger ChannelOk(s, ch)} :: ChannelOk(s, ch)
    requires forall a {:trigger Settled(s, a)} :: Settled(s, a)
    ensures Inv(s)
  {
  }

  /** Task `t` goes from `s` to `s'` alone and stays in flight with the same call, or starts one. */
  ghost predicate Alone(s: System, s': System, t: nat) {
    && t < |s.tasks| == |s'.tasks| && s'.tasks == s.tasks[t := s'.tasks[t]]
    && |s'.channels| == |s.channels| == CHANNELS
    && (s.tasks[t].Idle? || (!s'.tasks[t].Idle? && s'.tasks[t].call == s.tasks[t].call))
  }

  /** A byte covered by a destination stays covered while its task stays in flight. */
  lemma CoverKept(s: System, s': System, t: nat, a: int)
    requires Alone(s, s', t)
    requires Settled(s, a) && At(s'.mem, a) == At(s.mem, a) && At(s'.abs, a) == At(s.abs, a)
    ensures Settled(s', a)
  {
    if At(s.mem, a) != At(s.abs, a) {
      var u :| 0 <= u < |s.tasks| && !s.tasks[u].Idle? && InDest(s.tasks[u].call, a);
      assert !s'.tasks[u].Idle? && InDest(s'.tasks[u].call, a);
    }
  }

  lemma SettledKept(s: System, s': System, t: nat)
    requires Inv(s) && Alone(s, s', t) && s'.mem == s.mem && s'.abs == s.abs
    ensures forall a {:trigger Settled(s', a)} :: Settled(s', a)
  {
    forall a {:trigger Settled(s', a)} ensures Settled(s', a) {
      assert Settled(s, a);
      CoverKept(s, s', t, a);
    }
  }

  /** Holding and polling of a channel by the other tasks. */
  lemma OtherHolders(s: System, s': System, t: nat, ch: int)
    requires t < |s.tasks| == |s'.tasks| && s'.tasks == s.tasks[t := s'.tasks[t]]
    ensures Held(s', ch) && !Holds(s'.tasks[t], ch) ==> Held(s, ch)
    ensures Running(s', ch) && !(s'.tasks[t].Polling? && s'.tasks[t].ch == ch) ==> Running(s, ch)
  {
    if Held(s', ch) {
      var u :| 0 <= u < |s'.tasks| && Holds(s'.tasks[u], ch);
      assert u != t ==> Holds(s.tasks[u], ch);
    }
    if Running(s', ch) {
      var u :| 0 <= u < |s'.tasks| && s'.tasks[u].Polling? && s'.tasks[u].ch == ch;
      assert u != t ==> s.tasks[u].Polling? && s.tasks[u].ch == ch;
    }
  }

  /** When task `t` keeps what it holds, all channels are held and polled as before. */
  lemma HoldersKept(s: System, s': System, t: nat, ch: int)
    requires t < |s.tasks| == |s'.tasks| && s'.tasks == s.tasks[t := s'.tasks[t]]
    requires Holds(s.tasks[t], ch) <==> Holds(s'.tasks[t], ch)
    requires (s.tasks[t].Polling? && s.tasks[t].ch == ch) <==> (s'.tasks[t].Polling? && s'.tasks[t].ch == ch)
    ensures Held(s', ch) <==> Held(s, ch)
    ensures Running(s', ch) <==> Running(s, ch)
  {
    assert s.tasks == s'.tasks[t := s.tasks[t]];
    OtherHolders(s, s', t, ch);
    OtherHolders(s', s, t, ch);
    assert Holds(s.tasks[t], ch) ==> Held(s, ch) && Held(s', ch);
  }

  lemma BeginKeepsInv(s: System, t: nat, c: Call)
    requires Inv(s) && Enabled(s, Begin(t, c)) && !Trivial(c)
    ensures Inv(Do(s, Begin(t, c)))
  {
    var s' := Do(s, Begin(t, c));
    forall u {:trigger TaskOk(s', u)} ensures TaskOk(s', u) {
      assert TaskOk(s, u);
    }
    forall u, v {:trigger PairOk(s', u, v)} ensures PairOk(s', u, v) {
      assert PairOk(s, u, v) && PairOk(s, v, u);
    }
    forall ch {:trigger ChannelOk(s', ch)} ensures ChannelOk(s', ch) {
      assert ChannelOk(s, ch);
      HoldersKept(s, s', t, ch);
    }
    SettledKept(s, s', t);
    Assemble(s');
  }

  lemma ClaimKeepsInv(s: System, t: nat)
    requires Inv(s) && Enabled(s, Claim(t))
    ensures Inv(Do(s, Claim(t)))
  {
    var s' := Do(s, Claim(t));
    var got := ChannelFor(s.flags);
    forall u {:trigger TaskOk(s', u)} ensures TaskOk(s', u) {
      assert TaskOk(s, u) && TaskOk(s, t);
      if got >= 0 {
        assert ChannelOk(s, got);
        NotRunning(s, got);
      }
    }
    forall u, v {:trigger PairOk(s', u, v)} ensures PairOk(s', u, v) {
      assert PairOk(s, u, v);
      if got >= 0 {
        assert ChannelOk(s, got);
        NobodyHolds(s, got);
      }
    }
    forall ch {:trigger ChannelOk(s', ch)} ensures ChannelOk(s', ch) {
      assert ChannelOk(s, ch);
      if ch == got && got >= 0 {
        assert Holds(s'.tasks[t], ch);
        NotRunning(s, got);
      } else {
        HoldersKept(s, s', t, ch);
      }
    }
    SettledKept(s, s', t);
    Assemble(s');
  }

  lemma NobodyHolds(s: System, ch: int)
    requires |s.channels| == CHANNELS && ChannelOk(s, ch) && 0 <= ch < CHANNELS && ch !in s.flags
    ensures forall u :: 0 <= u < |s.tasks| ==> !Holds(s.tasks[u], ch)
  {
  }

  lemma NotRunning(s: System, ch: int)
    requires |s.channels| == CHANNELS && ChannelOk(s, ch) && 0 <= ch < CHANNELS && ch !in s.flags
    ensures !s.channels[ch].enabled
  {
    NobodyHolds(s, ch);
  }

  lemma ProgramKeepsInv(s: System, t: nat)
    requires Inv(s) && Enabled(s, Program(t))
    ensures Inv(Do(s, Program(t)))
  {
    var s' := Do(s, Program(t));
    var ch0 := s.tasks[t].ch;
    forall u {:trigger TaskOk(s', u)} ensures TaskOk(s', u) {
      assert TaskOk(s, u) && TaskOk(s, t);
      ChannelsDiffer(s, t, u);
    }
    forall u, v {:trigger PairOk(s', u, v)} ensures PairOk(s', u, v) {
      assert PairOk(s, u, v);
      forall ch
        ensures !(0 <= u < |s.tasks| && 0 <= v < |s.tasks| && u != v
                  && Holds(s'.tasks[u], ch) && Holds(s'.tasks[v], ch))
      {
        if 0 <= u < |s.tasks| && 0 <= v < |s.tasks| && u != v {
          assert Holds(s'.tasks[u], ch) <==> Holds(s.tasks[u], ch);
          assert Holds(s'.tasks[v], ch) <==> Holds(s.tasks[v], ch);
        }
      }
    }
    forall ch {:trigger ChannelOk(s', ch)} ensures ChannelOk(s', ch) {
      assert ChannelOk(s, ch);
      if ch == ch0 {
        assert TaskOk(s, t);
        assert s'.tasks[t].Polling? && s'.tasks[t].ch == ch && Holds(s'.tasks[t], ch);
      } else {
        HoldersKept(s, s', t, ch);
      }
    }
    SettledKept(s, s', t);
    Assemble(s');
  }

  /** Two tasks never hold the same channel. */
  lemma ChannelsDiffer(s: System, t: int, u: int)
    requires Inv(s) && 0 <= t < |s.tasks| && (s.tasks[t].Programming? || s.tasks[t].Polling?)
    ensures 0 <= u < |s.tasks| && u != t && (s.tasks[u].Programming? || s.tasks[u].Polling?) ==>
              s.tasks[u].ch != s.tasks[t].ch
  {
    assert PairOk(s, t, u);
    assert Holds(s.tasks[t], s.tasks[t].ch);
    if 0 <= u < |s.tasks| && (s.tasks[u].Programming? || s.tasks[u].Polling?) {
      assert Holds(s.tasks[u], s.tasks[u].ch);
    }
  }

  // ----- moving bytes

  /** Bytes a call still has to read are as in `abs`: nobody in flight writes them. */
  lemma SourceSettled(s: System, t: nat, k: nat)
    requires Inv(s) && t < |s.tasks| && !s.tasks[t].Idle? && k < s.tasks[t].call.count
    ensures Want(s.mem, s.tasks[t].call, k) == Want(s.abs, s.tasks[t].call, k)
  {
    var c := s.tasks[t].call;
    assert TaskOk(s, t);
    if c.Memcpy? {
      var a := c.src + k;
      assert Settled(s, a);
      assert InSrc(c, a);
      forall u | 0 <= u < |s.tasks| && !s.tasks[u].Idle? ensures !InDest(s.tasks[u].call, a) {
        assert PairOk(s, t, u);
      }
    }
  }

  lemma ProgressBound(s: System, p: Phase)
    requires |s.channels| == CHANNELS && PhaseOk(s, p) && !p.Idle?
    ensures 0 <= Progress(s, p) <= p.call.count
  {
  }

  /** A byte stored for one call is in no other call's destination. */
  lemma OthersInPlace(s: System, s': System, t: nat, u: nat, k: nat)
    requires Inv(s) && t < |s.tasks| && u < |s.tasks| && u != t
    requires !s.tasks[t].Idle? && k < s.tasks[t].call.count
    requires |s'.channels| == CHANNELS && s'.abs == s.abs
    requires s'.mem == s.mem[s.tasks[t].call.dest + k := Want(s.mem, s.tasks[t].call, k)]
    requires PhaseOk(s', s.tasks[u]) && Progress(s', s.tasks[u]) == Progress(s, s.tasks[u])
    ensures InPlace(s', s.tasks[u])
  {
    var p, c := s.tasks[u], s.tasks[t].call;
    assert TaskOk(s, u) && PairOk(s, t, u);
    if !p.Idle? {
      ProgressBound(s, p);
      assert InDest(c, c.dest + k);
      forall i {:trigger Want(s'.abs, p.call, i)} | 0 <= i < Progress(s', p)
        ensures At(s'.mem, p.call.dest + i) == Want(s'.abs, p.call, i)
      {
        assert InDest(p.call, p.call.dest + i);
        assert At(s.mem, p.call.dest + i) == Want(s.abs, p.call, i);
      }
    }
  }

  /** The stored byte is the right one. */
  lemma OwnInPlace(s: System, s': System, t: nat, p': Phase, k: nat)
    requires Inv(s) && t < |s.tasks| && !s.tasks[t].Idle? && PhaseOk(s, s.tasks[t])
    requires k == Progress(s, s.tasks[t]) < s.tasks[t].call.count
    requires |s'.channels| == CHANNELS && s'.abs == s.abs
    requires s'.mem == s.mem[s.tasks[t].call.dest + k := Want(s.mem, s.tasks[t].call, k)]
    requires !p'.Idle? && p'.call == s.tasks[t].call && PhaseOk(s', p') && Progress(s', p') == k + 1
    ensures InPlace(s', p')
  {
    var c := p'.call;
    assert TaskOk(s, t);
    SourceSettled(s, t, k);
    forall i {:trigger Want(s'.abs, c, i)} | 0 <= i < k + 1
      ensures At(s'.mem, c.dest + i) == Want(s'.abs, c, i)
    {
      if i < k {
        assert At(s.mem, c.dest + i) == Want(s.abs, c, i);
      }
    }
  }

  lemma MoveSettled(s: System, s': System, t: nat, k: nat)
    requires Inv(s) && Alone(s, s', t) && !s.tasks[t].Idle? && k < s.tasks[t].call.count
    requires s'.abs == s.abs && s'.mem == s.mem[s.tasks[t].call.dest + k := Want(s.mem, s.tasks[t].call, k)]
    ensures forall a {:trigger Settled(s', a)} :: Settled(s', a)
  {
    var c := s.tasks[t].call;
    forall a {:trigger Settled(s', a)} ensures Settled(s', a) {
      assert Settled(s, a);
      if a == c.dest + k {
        assert !s'.tasks[t].Idle? && InDest(s'.tasks[t].call, a);
      } else {
        CoverKept(s, s', t, a);
      }
    }
  }

  lemma CpuMoveKeepsInv(s: System, t: nat)
    requires Inv(s) && Enabled(s, CpuMove(t))
    ensures Inv(Do(s, CpuMove(t)))
  {
    var s' := Do(s, CpuMove(t));
    var k := s.tasks[t].done;
    forall u {:trigger TaskOk(s', u)} ensures TaskOk(s', u) {
      assert TaskOk(s, u) && TaskOk(s, t);
      if u == t {
        OwnInPlace(s, s', t, s'.tasks[t], k);
      } else if 0 <= u < |s.tasks| {
        OthersInPlace(s, s', t, u, k);
      }
    }
    forall u, v {:trigger PairOk(s', u, v)} ensures PairOk(s', u, v) {
      assert PairOk(s, u, v);
    }
    forall ch {:trigger ChannelOk(s', ch)} ensures ChannelOk(s', ch) {
      assert ChannelOk(s, ch);
      HoldersKept(s, s', t, ch);
    }
    MoveSettled(s, s', t, k);
    Assemble(s');
  }

  lemma EngineTask(s: System, ch: nat) returns (t: nat)
    requires Inv(s) && Enabled(s, Engine(ch))
    ensures t < |s.tasks| && s.tasks[t].Polling? && s.tasks[t].ch == ch
    ensures PhaseOk(s, s.tasks[t])
  {
    assert ChannelOk(s, ch);
    t :| 0 <= t < |s.tasks| && s.tasks[t].Polling? && s.tasks[t].ch == ch;
    assert TaskOk(s, t);
  }

  lemma EngineKeepsTask(s: System, ch: nat, t: nat, u: nat)
    requires Inv(s) && Enabled(s, Engine(ch)) && u < |s.tasks|
    requires t < |s.tasks| && s.tasks[t].Polling? && s.tasks[t].ch == ch && PhaseOk(s, s.tasks[t])
    ensures TaskOk(Do(s, Engine(ch)), u)
  {
    var s' := Do(s, Engine(ch));
    var k := s.channels[ch].pos;
    assert TaskOk(s, u);
    if u == t {
      OwnInPlace(s, s', t, s.tasks[t], k);
    } else {
      ChannelsDiffer(s, t, u);
      OthersInPlace(s, s', t, u, k);
    }
  }

  lemma EngineKeepsInv(s: System, ch: nat)
    requires Inv(s) && Enabled(s, Engine(ch))
    ensures Inv(Do(s, Engine(ch)))
  {
    var s' := Do(s, Engine(ch));
    var t := EngineTask(s, ch);
    forall u {:trigger TaskOk(s', u)} ensures TaskOk(s', u) {
      if 0 <= u < |s.tasks| {
        EngineKeepsTask(s, ch, t, u);
      }
    }
    forall u, v {:trigger PairOk(s', u, v)} ensures PairOk(s', u, v) {
      assert PairOk(s, u, v);
    }
    forall k {:trigger ChannelOk(s', k)} ensures ChannelOk(s', k) {
      assert ChannelOk(s, k);
      HoldersKept(s, s', t, k);
    }
    MoveSettled(s, s', t, s.channels[ch].pos);
    Assemble(s');
  }

  // ----- returning

  /** A return makes the call's effect on `abs` that of the plain operation. */
  lemma ReturnSettled(s: System, s': System, t: nat)
    requires Inv(s) && t < |s.tasks| == |s'.tasks| && !s.tasks[t].Idle?
    requires s'.tasks == s.tasks[t := Idle] && s'.mem == s.mem
    requires PhaseOk(s, s.tasks[t]) && Progress(s, s.tasks[t]) == s.tasks[t].call.count
    requires s'.abs == Apply(s.abs, s.tasks[t].call, s.tasks[t].call.count)
    ensures forall a {:trigger Settled(s', a)} :: Settled(s', a)
  {
    var c := s.tasks[t].call;
    ApplyIs(s.abs, c, c.count);
    assert TaskOk(s, t);
    forall a {:trigger Settled(s', a)} ensures Settled(s', a) {
      assert Settled(s, a);
      if InDest(c, a) {
        assert At(s.mem, c.dest + (a - c.dest)) == Want(s.abs, c, a - c.dest);
      } else if At(s.mem, a) != At(s.abs, a) {
        var u :| 0 <= u < |s.tasks| && !s.tasks[u].Idle? && InDest(s.tasks[u].call, a);
        assert !s'.tasks[u].Idle? && InDest(s'.tasks[u].call, a);
      }
    }
  }

  /** Calls still in flight do not notice a return. */
  lemma ReturnInPlace(s: System, s': System, t: nat, u: nat)
    requires Inv(s) && t < |s.tasks| && u < |s.tasks| && u != t && !s.tasks[t].Idle?
    requires s'.mem == s.mem && s'.abs == Apply(s.abs, s.tasks[t].call, s.tasks[t].call.count)
    requires |s'.channels| == CHANNELS && PhaseOk(s', s.tasks[u])
    requires Progress(s', s.tasks[u]) == Progress(s, s.tasks[u])
    ensures InPlace(s', s.tasks[u])
  {
    var p, c := s.tasks[u], s.tasks[t].call;
    ApplyIs(s.abs, c, c.count);
    assert TaskOk(s, u) && PairOk(s, t, u);
    if !p.Idle? {
      ProgressBound(s, p);
      forall i {:trigger Want(s'.abs, p.call, i)} | 0 <= i < Progress(s', p)
        ensures At(s'.mem, p.call.dest + i) == Want(s'.abs, p.call, i)
      {
        assert At(s.mem, p.call.dest + i) == Want(s.abs, p.call, i);
        if p.call.Memcpy? {
          assert InSrc(p.call, p.call.src + i);
          assert !InDest(c, p.call.src + i);
        }
      }
    }
  }

  lemma ReleaseKeepsInv(s: System, t: nat)
    requires Inv(s) && Enabled(s, Release(t))
    ensures Inv(Do(s, Release(t)))
  {
    var s' := Do(s, Release(t));
    var ch0 := s.tasks[t].ch;
    assert TaskOk(s, t);
    forall u {:trigger TaskOk(s', u)} ensures TaskOk(s', u) {
      assert TaskOk(s, u);
      ChannelsDiffer(s, t, u);
      if 0 <= u < |s.tasks| && u != t {
        ReturnInPlace(s, s', t, u);
      }
    }
    forall u, v {:trigger PairOk(s', u, v)} ensures PairOk(s', u, v) {
      assert PairOk(s, u, v);
    }
    forall ch {:trigger ChannelOk(s', ch)} ensures ChannelOk(s', ch) {
      assert ChannelOk(s, ch);
      if ch == ch0 {
        ReleasedNotHeld(s, s', t);
      } else {
        HoldersKept(s, s', t, ch);
      }
    }
    ReturnSettled(s, s', t);
    Assemble(s');
  }

  lemma ReleasedNotHeld(s: System, s': System, t: nat)
    requires Inv(s) && t < |s.tasks| && s.tasks[t].Polling? && s'.tasks == s.tasks[t := Idle]
    ensures !Held(s', s.tasks[t].ch)
  {
    var ch := s.tasks[t].ch;
    forall u | 0 <= u < |s'.tasks| ensures !Holds(s'.tasks[u], ch) {
      ChannelsDiffer(s, t, u);
    }
  }

  lemma CpuReturnKeepsInv(s: System, t: nat)
    requires Inv(s) && Enabled(s, CpuReturn(t))
    ensures Inv(Do(s, CpuReturn(t)))
  {
    var s' := Do(s, CpuReturn(t));
    assert TaskOk(s, t);
    forall u {:trigger TaskOk(s', u)} ensures TaskOk(s', u) {
      assert TaskOk(s, u);
      if 0 <= u < |s.tasks| && u != t {
        ReturnInPlace(s, s', t, u);
      }
    }
    forall u, v {:trigger PairOk(s', u, v)} ensures PairOk(s', u, v) {
      assert PairOk(s, u, v);
    }
    forall ch {:trigger ChannelOk(s', ch)} ensures ChannelOk(s', ch) {
      assert ChannelOk(s, ch);
      HoldersKept(s, s', t, ch);
    }
    ReturnSettled(s, s', t);
    Assemble(s');
  }

  // ----- runs

  /** Every step of every task and of the engine keeps the invariant. */
  lemma StepKeepsInv(s: System, a: Action)
    requires Inv(s) && Enabled(s, a)
    ensures Inv(Do(s, a))
  {
    match a
    case Begin(t, c) => if !Trivial(c) { BeginKeepsInv(s, t, c); }
    case Claim(t) => ClaimKeepsInv(s, t);
    case Program(t) => ProgramKeepsInv(s, t);
    case Engine(ch) => EngineKeepsInv(s, ch);
    case Release(t) => ReleaseKeepsInv(s, t);
    case CpuMove(t) => CpuMoveKeepsInv(s, t);
    case CpuReturn(t) => CpuReturnKeepsInv(s, t);
  }

  /** A claim gets a channel exactly when one is free, the lowest, and marks it busy; else the CPU does the work. */
  lemma ClaimIffFree(s: System, t: nat)
    requires Inv(s) && Enabled(s, Claim(t))
    ensures var s', c := Do(s, Claim(t)), s.tasks[t].call;
            && (s'.tasks[t].Programming? <==> exists ch :: 0 <= ch < CHANNELS && ch !in s.flags)
            && (s'.tasks[t].Programming? ==>
                  var ch := s'.tasks[t].ch;
                  && s'.tasks[t].call == c && 0 <= ch < CHANNELS && ch !in s.flags && s'.flags == s.flags + {ch}
                  && forall k :: 0 <= k < ch ==> k in s.flags)
            && (!s'.tasks[t].Programming? ==> s'.tasks[t] == Fallback(c, 0) && s'.flags == s.flags)
  {
    assert s.tasks[t].Claiming?;
  }

  /** On `abs`, a step is nothing, or the plain operation of the call that returns. */
  lemma StepRefinesPlain(s: System, a: Action)
    requires Inv(s) && Enabled(s, a)
    ensures match a
            case Release(t) => Plain(s.abs, s.tasks[t].call, Do(s, a).abs)
            case CpuReturn(t) => Plain(s.abs, s.tasks[t].call, Do(s, a).abs)
            case _ => Do(s, a).abs == s.abs
  {
    match a
    case Release(t) => ApplyIs(s.abs, s.tasks[t].call, s.tasks[t].call.count);
    case CpuReturn(t) => ApplyIs(s.abs, s.tasks[t].call, s.tasks[t].call.count);
    case _ =>
  }

  /** The task whose call returns with this step. */
  predicate Returns(s: System, a: Action, t: nat) {
    (a.Release? || a.CpuReturn?) && a.task == t < |s.tasks|
  }

  /**
   * When a call returns, its destination holds the bytes asked for, read from memory as it then
   * is, whatever the other tasks and the engine are in the middle of.
   */
  lemma ReturnDelivers(s: System, a: Action, t: nat, i: nat)
    requires Inv(s) && Enabled(s, a) && Returns(s, a, t) && i < s.tasks[t].call.count
    ensures var c := s.tasks[t].call; At(Do(s, a).mem, c.dest + i) == Want(s.mem, c, i)
  {
    assert TaskOk(s, t);
    var p := s.tasks[t];
    assert Progress(s, p) >= p.call.count;
    assert At(s.mem, p.call.dest + i) == Want(s.abs, p.call, i);
    SourceSettled(s, t, i);
  }

  /** In plain terms: a copy returns with the destination equal to the source, a fill with the value everywhere. */
  lemma ReturnCopies(s: System, a: Action, t: nat, i: nat)
    requires Inv(s) && Enabled(s, a) && Returns(s, a, t) && i < s.tasks[t].call.count
    ensures var c, mem := s.tasks[t].call, Do(s, a).mem;
            && (c.Memcpy? ==> At(mem, c.dest + i) == At(mem, c.src + i))
            && (c.Memset? ==> At(mem, c.dest + i) == c.val)
  {
    ReturnDelivers(s, a, t, i);
  }

  /** The plain operations themselves. */
  lemma ApplyCopies(mem: Memory, c: Call, a: int)
    ensures c.Memcpy? ==>
              At(Apply(mem, c, c.count), a)
              == At(mem, if c.dest <= a < c.dest + c.count then c.src + (a - c.dest) else a)
    ensures c.Memset? ==>
              At(Apply(mem, c, c.count), a) == if c.dest <= a < c.dest + c.count then c.val else At(mem, a)
  {
    ApplyIs(mem, c, c.count);
  }

  ghost predicate Schedule(s: System, run: seq<Action>)
    requires Inv(s)
    decreases |run|
  {
    run == [] ||
    (&& Enabled(s, run[0])
     && (StepKeepsInv(s, run[0]); Schedule(Do(s, run[0]), run[1..])))
  }

  ghost function After(s: System, run: seq<Action>): System
    requires Inv(s) && Schedule(s, run)
    decreases |run|
  {
    if run == [] then s else
      StepKeepsInv(s, run[0]);
      After(Do(s, run[0]), run[1..])
  }

  function Init(tasks: nat, mem: Memory): System {
    var off := Channel(false, false, 0, 0, 0, 0, 0);
    System({}, [off, off], seq(tasks, _ => Idle), mem, mem)
  }

  lemma InitInv(tasks: nat, mem: Memory)
    ensures Inv(Init(tasks, mem))
  {
    var s := Init(tasks, mem);
    forall t {:trigger TaskOk(s, t)} ensures TaskOk(s, t) {}
    forall t, u {:trigger PairOk(s, t, u)} ensures PairOk(s, t, u) {}
    forall ch {:trigger ChannelOk(s, ch)} ensures ChannelOk(s, ch) {}
    forall a {:trigger Settled(s, a)} ensures Settled(s, a) {}
    Assemble(s);
  }

  /** The call that returns with this step, if any. */
  ghost function ReturnedBy(s: System, a: Action): seq<Call>
    requires |s.channels| == CHANNELS && Enabled(s, a)
  {
    match a
    case Release(t) => [s.tasks[t].call]
    case CpuReturn(t) => [s.tasks[t].call]
    case _ => []
  }

  /** The calls that return during the run, in order. */
  ghost function Returned(s: System, run: seq<Action>): seq<Call>
    requires Inv(s) && Schedule(s, run)
    decreases |run|
  {
    if run == [] then [] else
      StepKeepsInv(s, run[0]);
      ReturnedBy(s, run[0]) + Returned(Do(s, run[0]), run[1..])
  }

  // ----- no call is dropped

  /** There is something to move and nothing is NULL. */
  predicate Proper(c: Call) {
    c.count > 0 && c.dest != 0 && (c.Memcpy? ==> c.src != 0)
  }

  /** The proper call begun with this step, if any. */
  function BegunBy(a: Action): seq<Call> {
    if a.Begin? && Proper(a.call) then [a.call] else []
  }

  /** The proper calls begun during the run, in order. */
  function Begun(run: seq<Action>): seq<Call> {
    if run == [] then [] else BegunBy(run[0]) + Begun(run[1..])
  }

  function Times(c: Call, calls: seq<Call>): nat {
    multiset(calls)[c]
  }

  lemma TimesConcat(c: Call, a: seq<Call>, b: seq<Call>)
    ensures Times(c, a + b) == Times(c, a) + Times(c, b)
  {
  }

  lemma TimesOnce(c: Call, c': Call)
    ensures Times(c, [c']) == (if c == c' then 1 else 0) && Times(c, []) == 0
  {
  }

  function Works(p: Phase, c: Call): nat {
    if !p.Idle? && p.call == c then 1 else 0
  }

  /** How often the call is in flight. */
  function InFlight(tasks: seq<Phase>, c: Call): nat {
    if tasks == [] then 0 else Works(tasks[0], c) + InFlight(tasks[1..], c)
  }

  lemma {:induction false} InFlightUpdate(tasks: seq<Phase>, t: nat, p: Phase, c: Call)
    requires t < |tasks|
    ensures InFlight(tasks[t := p], c) == InFlight(tasks, c) - Works(tasks[t], c) + Works(p, c)
    decreases |tasks|
  {
    if t == 0 {
      assert tasks[0 := p][1..] == tasks[1..];
    } else {
      InFlightUpdate(tasks[1..], t - 1, p, c);
      assert tasks[t := p][1..] == tasks[1..][t - 1 := p];
    }
  }

  lemma {:induction false} NothingInFlight(tasks: seq<Phase>, c: Call)
    requires forall t :: 0 <= t < |tasks| ==> tasks[t].Idle?
    ensures InFlight(tasks, c) == 0
    decreases |tasks|
  {
    if tasks != [] {
      NothingInFlight(tasks[1..], c);
    }
  }

  /** A step moves calls from begun to in flight, or from in flight to returned. */
  lemma StepKeepsCalls(s: System, a: Action, c: Call)
    requires Inv(s) && Enabled(s, a)
    ensures Times(c, ReturnedBy(s, a)) + InFlight(Do(s, a).tasks, c) == Times(c, BegunBy(a)) + InFlight(s.tasks, c)
  {
    TimesOnce(c, if a.Begin? then a.call else c);
    if !a.Engine? {
      TimesOnce(c, if s.tasks[a.task].Idle? then c else s.tasks[a.task].call);
      InFlightUpdate(s.tasks, a.task, Do(s, a).tasks[a.task], c);
    }
  }

  lemma {:induction false} RunKeepsCalls(s: System, run: seq<Action>, c: Call)
    requires Inv(s) && Schedule(s, run)
    ensures Times(c, Returned(s, run)) + InFlight(After(s, run).tasks, c)
            == Times(c, Begun(run)) + InFlight(s.tasks, c)
    decreases |run|
  {
    if run != [] {
      StepKeepsInv(s, run[0]);
      var s' := Do(s, run[0]);
      StepKeepsCalls(s, run[0], c);
      RunKeepsCalls(s', run[1..], c);
      TimesConcat(c, ReturnedBy(s, run[0]), Returned(s', run[1..]));
      TimesConcat(c, BegunBy(run[0]), Begun(run[1..]));
    }
  }

  /** In every interleaving, when no call is in flight every proper call begun has returned once. */
  lemma AllReturned(s: System, run: seq<Action>)
    requires Inv(s) && Schedule(s, run) && AllIdle(s) && AllIdle(After(s, run))
    ensures multiset(Returned(s, run)) == multiset(Begun(run))
  {
    forall c ensures multiset(Returned(s, run))[c] == multiset(Begun(run))[c] {
      RunKeepsCalls(s, run, c);
      NothingInFlight(s.tasks, c);
      NothingInFlight(After(s, run).tasks, c);
      assert Times(c, Returned(s, run)) == Times(c, Begun(run));
    }
  }

  /** The calls done one after the other, each as one plain operation. */
  function ApplyAll(mem: Memory, calls: seq<Call>): Memory
    decreases |calls|
  {
    if calls == [] then mem else ApplyAll(Apply(mem, calls[0], calls[0].count), calls[1..])
  }

  /** On `abs`, a run is its returned calls. */
  lemma {:induction false} RunAppliesReturned(s: System, run: seq<Action>)
    requires Inv(s) && Schedule(s, run)
    ensures After(s, run).abs == ApplyAll(s.abs, Returned(s, run))
    decreases |run|
  {
    if run != [] {
      StepKeepsInv(s, run[0]);
      var s', first := Do(s, run[0]), ReturnedBy(s, run[0]);
      var rest := Returned(s', run[1..]);
      RunAppliesReturned(s', run[1..]);
      if first != [] {
        assert (first + rest)[1..] == rest;
      } else {
        assert first + rest == rest;
      }
    }
  }

  /**
   * In every interleaving: no channel has two holders, and `busy_flag` is exactly the set of held
   * channels.
   */
  lemma {:induction false} RunIsSafe(s: System, run: seq<Action>)
    requires Inv(s) && Schedule(s, run)
    ensures var z := After(s, run);
            && Inv(z)
            && (forall t, u, ch :: (0 <= t < |z.tasks| && 0 <= u < |z.tasks|
                                    && Holds(z.tasks[t], ch) && Holds(z.tasks[u], ch)) ==> t == u)
            && (forall ch :: 0 <= ch < CHANNELS ==> (ch in z.flags <==> Held(z, ch)))
    decreases |run|
  {
    if run == [] {
      forall t, u, ch | 0 <= t < |s.tasks| && 0 <= u < |s.tasks| && Holds(s.tasks[t], ch) && Holds(s.tasks[u], ch)
        ensures t == u
      {
        assert PairOk(s, t, u);
      }
      forall ch | 0 <= ch < CHANNELS ensures ch in s.flags <==> Held(s, ch) {
        assert ChannelOk(s, ch);
      }
    } else {
      StepKeepsInv(s, run[0]);
      RunIsSafe(Do(s, run[0]), run[1..]);
    }
  }

  ghost predicate AllIdle(s: System) {
    forall t :: 0 <= t < |s.tasks| ==> s.tasks[t].Idle?
  }

  /**
   * In every interleaving from the start, whenever no call is in flight every proper call begun has
   * returned once, and memory is what these calls, done one after the other as plain operations in
   * the order of their returns, make of the initial memory.
   */
  lemma RunIsSequential(tasks: nat, mem: Memory, run: seq<Action>)
    requires Inv(Init(tasks, mem)) && Schedule(Init(tasks, mem), run)
    requires AllIdle(After(Init(tasks, mem), run))
    ensures var s := Init(tasks, mem);
            && multiset(Returned(s, run)) == multiset(Begun(run))
            && forall a :: At(After(s, run).mem, a) == At(ApplyAll(mem, Returned(s, run)), a)
  {
    var s := Init(tasks, mem);
    AllReturned(s, run);
    RunAppliesReturned(s, run);
    RunIsSafe(s, run);
    var z := After(s, run);
    forall a ensures At(z.mem, a) == At(z.abs, a) {
      assert Settled(z, a);
    }
  }

  // ----- calls come to an end

  /** Steps until the call returns, at most. */
  function Cost(channels: seq<Channel>, p: Phase): nat {
    match p
    case Idle => 0
    case Claiming(c) => c.count + 3
    case Programming(c, _) => c.count + 2
    case Polling(c, ch) =>
      if 0 <= ch < |channels| && channels[ch].pos <= c.count then c.count - channels[ch].pos + 1 else 0
    case Fallback(c, done) => if done <= c.count then c.count - done + 1 else 0
  }

  function Costs(s: System): seq<nat> {
    seq(|s.tasks|, t requires 0 <= t < |s.tasks| => Cost(s.channels, s.tasks[t]))
  }

  function Total(xs: seq<nat>): nat {
    if xs == [] then 0 else xs[0] + Total(xs[1..])
  }

  lemma {:induction false} TotalUpdate(xs: seq<nat>, t: nat, x: nat)
    requires t < |xs|
    ensures Total(xs[t := x]) == Total(xs) - xs[t] + x
    decreases |xs|
  {
    if t == 0 {
      assert xs[0 := x][1..] == xs[1..];
    } else {
      TotalUpdate(xs[1..], t - 1, x);
      assert xs[t := x][1..] == xs[1..][t - 1 := x];
    }
  }

  /** The task a step works for. */
  ghost predicate WorksFor(s: System, a: Action, t: nat) {
    t < |s.tasks| && match a
    case Begin(_, _) => false
    case Engine(ch) => s.tasks[t].Polling? && s.tasks[t].ch == ch
    case _ => a.task == t
  }

  /** A step that begins no call brings one task one step or more nearer to its return. */
  lemma StepCosts(s: System, a: Action) returns (t: nat)
    requires Inv(s) && Enabled(s, a) && !a.Begin?
    ensures WorksFor(s, a, t)
    ensures Cost(Do(s, a).channels, Do(s, a).tasks[t]) < Cost(s.channels, s.tasks[t])
  {
    if a.Engine? {
      t := EngineTask(s, a.ch);
    } else {
      t := a.task;
    }
    assert TaskOk(s, t);
  }

  lemma OtherCosts(s: System, a: Action, t: nat, u: nat)
    requires Inv(s) && Enabled(s, a) && WorksFor(s, a, t) && u < |s.tasks| && u != t
    ensures u < |Do(s, a).tasks| && Cost(Do(s, a).channels, Do(s, a).tasks[u]) == Cost(s.channels, s.tasks[u])
  {
    assert TaskOk(s, t) && TaskOk(s, u);
    if s.tasks[u].Polling? {
      ChannelsDiffer(s, u, t);
    }
  }

  lemma StepLowersTotal(s: System, a: Action)
    requires Inv(s) && Enabled(s, a) && !a.Begin?
    ensures Total(Costs(Do(s, a))) < Total(Costs(s))
  {
    var s' := Do(s, a);
    var t := StepCosts(s, a);
    forall u | 0 <= u < |s.tasks| && u != t ensures Costs(s')[u] == Costs(s)[u] {
      OtherCosts(s, a, t, u);
    }
    assert Costs(s') == Costs(s)[t := Costs(s')[t]];
    TotalUpdate(Costs(s), t, Costs(s')[t]);
  }

  predicate Quiet(run: seq<Action>) {
    forall i :: 0 <= i < |run| ==> !run[i].Begin?
  }

  /** Without new calls no interleaving goes on for ever: the steps are bounded by the work left. */
  lemma {:induction false} QuietRunIsBounded(s: System, run: seq<Action>)
    requires Inv(s) && Schedule(s, run) && Quiet(run)
    ensures |run| + Total(Costs(After(s, run))) <= Total(Costs(s))
    decreases |run|
  {
    if run != [] {
      StepKeepsInv(s, run[0]);
      StepLowersTotal(s, run[0]);
      QuietRunIsBounded(Do(s, run[0]), run[1..]);
    }
  }

  /** A task in flight, or the channel that serves it, can always make a step. */
  lemma NeverStuck(s: System, t: nat) returns (a: Action)
    requires Inv(s) && t < |s.tasks| && !s.tasks[t].Idle?
    ensures Enabled(s, a) && WorksFor(s, a, t)
  {
    assert TaskOk(s, t);
    match s.tasks[t]
    case Claiming(_) => a := Claim(t);
    case Programming(_, _) => a := Program(t);
    case Polling(_, ch) => a := if s.channels[ch].enabled then Engine(ch) else Release(t);
    case Fallback(c, done) => a := if done < c.count then CpuMove(t) else CpuReturn(t);
  }

  /** From every reachable state the calls in flight can be brought to their returns. */
  lemma {:induction false} CanFinish(s: System) returns (run: seq<Action>)
    requires Inv(s)
    ensures Schedule(s, run) && Quiet(run) && AllIdle(After(s, run))
    decreases Total(Costs(s))
  {
    if AllIdle(s) {
      run := [];
    } else {
      var t :| 0 <= t < |s.tasks| && !s.tasks[t].Idle?;
      var a := NeverStuck(s, t);
      StepKeepsInv(s, a);
      StepLowersTotal(s, a);
      var rest := CanFinish(Do(s, a));
      run := [a] + rest;
      assert run[1..] == rest;
    }
  }

  /** Nothing but a new call can happen exactly when every call has returned. */
  lemma RestsIffIdle(s: System)
    requires Inv(s)
    ensures AllIdle(s) <==> forall a: Action {:trigger Enabled(s, a)} :: Enabled(s, a) ==> a.Begin?
  {
    if AllIdle(s) {
      forall a: Action {:trigger Enabled(s, a)} | Enabled(s, a) ensures a.Begin? {
        if a.Engine? {
          var t := EngineTask(s, a.ch);
        }
      }
    } else {
      var t :| 0 <= t < |s.tasks| && !s.tasks[t].Idle?;
      var a := NeverStuck(s, t);
      assert !a.Begin?;
    }
  }
}
