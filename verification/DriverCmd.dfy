/**
 * The driver-command hook table: a single pass over a fixed array that inserts before it knows
 * whether the pair is already stored further on, and then frees the later slot.
 */
module DriverCmd {

  const EEXIST: int := 17
  const ENOMEM: int := 12
  const EINVAL: int := 22

  /** The sentinel of the 8-bit slot index. */
  const NO_SLOT: int := 255

  /** A slot; handler 0 is NULL. */
  datatype Hook = Hook(hdl: nat, priv: nat)

  const EMPTY: Hook := Hook(0, 0)

  /** The registered pairs. */
  ghost function Pairs(t: seq<Hook>): set<Hook> {
    set i | 0 <= i < |t| && t[i].hdl != 0 :: t[i]
  }

  /** Empty slots are fully zero. */
  predicate Zeroed(t: seq<Hook>) {
    forall i :: 0 <= i < |t| && t[i].hdl == 0 ==> t[i] == EMPTY
  }

  /** No pair is stored twice. */
  predicate NoDuplicates(t: seq<Hook>) {
    forall i, j :: 0 <= i < j < |t| && t[i].hdl != 0 ==> t[i] != t[j]
  }

  predicate Valid(t: seq<Hook>) {
    Zeroed(t) && NoDuplicates(t)
  }

  // ----- the two-pass meaning of the operations

  /** The first slot from `i` on that equals `h`, or the length of the table. */
  function Find(t: seq<Hook>, h: Hook, i: int): (r: int)
    requires 0 <= i <= |t|
    ensures i <= r <= |t|
    ensures forall j :: i <= j < r ==> t[j] != h
    ensures r < |t| ==> t[r] == h
    decreases |t| - i
  {
    if i == |t| || t[i] == h then i else Find(t, h, i + 1)
  }

  /** The first slot from `i` on that holds handler `hdl`, or the length of the table. */
  function FindHandler(t: seq<Hook>, hdl: nat, i: int): (r: int)
    requires 0 <= i <= |t|
    ensures i <= r <= |t|
    ensures forall j :: i <= j < r ==> t[j].hdl != hdl
    ensures r < |t| ==> t[r].hdl == hdl
    decreases |t| - i
  {
    if i == |t| || t[i].hdl == hdl then i else FindHandler(t, hdl, i + 1)
  }

  /** A stored pair moves to the first empty slot when that comes first. */
  function Registered(t: seq<Hook>, h: Hook): seq<Hook> {
    var d, e := Find(t, h, 0), Find(t, EMPTY, 0);
    if d < |t| then (if e < d then t[e := h][d := EMPTY] else t)
    else if e < |t| then t[e := h]
    else t
  }

  function RegisterCode(t: seq<Hook>, h: Hook): int {
    if h.hdl == 0 then -EINVAL
    else if Find(t, h, 0) < |t| then -EEXIST
    else if Find(t, EMPTY, 0) < |t| then 0
    else -ENOMEM
  }

  function Unregistered(t: seq<Hook>, hdl: nat): seq<Hook> {
    var r := FindHandler(t, hdl, 0);
    if r < |t| then t[r := EMPTY] else t
  }

  lemma StoredIsFound(t: seq<Hook>, h: Hook)
    requires h.hdl != 0
    ensures h in Pairs(t) <==> Find(t, h, 0) < |t|
  {
    if Find(t, h, 0) < |t| {
      assert t[Find(t, h, 0)] == h;
    }
  }

  /** Taking an empty slot adds the pair. */
  lemma FillAdds(t: seq<Hook>, h: Hook, e: int)
    requires Zeroed(t) && h.hdl != 0 && 0 <= e < |t| && t[e] == EMPTY
    ensures Zeroed(t[e := h]) && Pairs(t[e := h]) == Pairs(t) + {h}
    ensures NoDuplicates(t) && h !in Pairs(t) ==> NoDuplicates(t[e := h])
  {
    var u := t[e := h];
    assert u[e] == h;
    forall i | 0 <= i < |t| && t[i].hdl != 0 ensures t[i] in Pairs(u) {
      assert u[i] == t[i];
    }
    if NoDuplicates(t) && h !in Pairs(t) {
      forall i, j | 0 <= i < j < |u| && u[i].hdl != 0 ensures u[i] != u[j] {
        assert t[j].hdl != 0 ==> t[j] in Pairs(t);
        assert t[i].hdl != 0 ==> t[i] in Pairs(t);
      }
    }
  }

  /** Emptying a slot of a table without duplicates removes its pair. */
  lemma ClearRemoves(t: seq<Hook>, r: int)
    requires Valid(t) && 0 <= r < |t| && t[r].hdl != 0
    ensures Valid(t[r := EMPTY]) && Pairs(t[r := EMPTY]) == Pairs(t) - {t[r]}
  {
    var u := t[r := EMPTY];
    forall i | 0 <= i < |t| && t[i].hdl != 0 && t[i] != t[r] ensures t[i] in Pairs(u) {
      assert u[i] == t[i];
    }
    forall h | h in Pairs(u) ensures h in Pairs(t) && h != t[r] {
      var i :| 0 <= i < |u| && u[i].hdl != 0 && u[i] == h;
      assert t[i] == h && (i < r || r < i);
    }
  }

  /** Moving a pair to an empty slot keeps the set of pairs. */
  lemma MoveKeeps(t: seq<Hook>, h: Hook, e: int, d: int)
    requires Valid(t) && h.hdl != 0 && 0 <= e < |t| && 0 <= d < |t| && t[e] == EMPTY && t[d] == h
    ensures Valid(t[e := h][d := EMPTY]) && Pairs(t[e := h][d := EMPTY]) == Pairs(t)
  {
    ClearRemoves(t, d);
    var u := t[d := EMPTY];
    FillAdds(u, h, e);
    assert t[e := h][d := EMPTY] == u[e := h];
    assert h in Pairs(t) by {
      assert t[d] == h;
    }
  }

  /**
   * Registration adds the pair, or keeps the set of pairs when the pair is stored already or the
   * table is full, although the pass inserts early and may move the stored pair.
   */
  lemma RegisterAddsPair(t: seq<Hook>, h: Hook)
    requires Valid(t) && h.hdl != 0
    ensures Valid(Registered(t, h))
    ensures RegisterCode(t, h) == -EEXIST <==> h in Pairs(t)
    ensures RegisterCode(t, h) == -ENOMEM <==>
              h !in Pairs(t) && forall i :: 0 <= i < |t| ==> t[i].hdl != 0
    ensures Pairs(Registered(t, h)) == Pairs(t) + (if RegisterCode(t, h) == 0 then {h} else {})
  {
    var d, e := Find(t, h, 0), Find(t, EMPTY, 0);
    StoredIsFound(t, h);
    if d < |t| {
      if e < d {
        MoveKeeps(t, h, e, d);
      }
    } else if e < |t| {
      FillAdds(t, h, e);
    }
  }

  /** Unregistration removes the first pair of the handler and nothing else. */
  lemma UnregisterRemovesPair(t: seq<Hook>, hdl: nat)
    requires Valid(t) && hdl != 0
    ensures Valid(Unregistered(t, hdl))
    ensures var r := FindHandler(t, hdl, 0);
            Pairs(Unregistered(t, hdl)) == Pairs(t) - (if r < |t| then {t[r]} else {})
  {
    var r := FindHandler(t, hdl, 0);
    if r < |t| {
      ClearRemoves(t, r);
    }
  }

  /** Unregistering undoes a registration exactly when no earlier slot holds the same handler. */
  lemma UnregisterUndoesRegister(t: seq<Hook>, h: Hook)
    requires Valid(t) && RegisterCode(t, h) == 0
    ensures Unregistered(Registered(t, h), h.hdl) == t
            <==> FindHandler(t, h.hdl, 0) > Find(t, EMPTY, 0)
  {
    var e := Find(t, EMPTY, 0);
    var u := Registered(t, h);
    var r, f := FindHandler(u, h.hdl, 0), FindHandler(t, h.hdl, 0);
    assert u == t[e := h] && u[e] == h;
    assert r <= e;
    if f > e {
      assert r == e;
      assert t[e := h][e := EMPTY] == t;
    } else {
      assert t[f].hdl == h.hdl && u[f] == t[f];
      assert r <= f < e;
      assert Unregistered(u, h.hdl)[r] == EMPTY != t[r];
    }
  }

  // ----- runs

  datatype Op = Register(h: Hook) | Unregister(hdl: nat)

  function Apply(t: seq<Hook>, op: Op): seq<Hook> {
    match op
    case Register(h) => if h.hdl == 0 then t else Registered(t, h)
    case Unregister(hdl) => if hdl == 0 then t else Unregistered(t, hdl)
  }

  function Run(t: seq<Hook>, ops: seq<Op>): seq<Hook> {
    if ops == [] then t else Apply(Run(t, ops[..|ops| - 1]), ops[|ops| - 1])
  }

  lemma ApplyKeepsValid(t: seq<Hook>, op: Op)
    requires Valid(t)
    ensures Valid(Apply(t, op)) && |Apply(t, op)| == |t|
  {
    match op
    case Register(h) => if h.hdl != 0 { RegisterAddsPair(t, h); }
    case Unregister(hdl) => if hdl != 0 { UnregisterRemovesPair(t, hdl); }
  }

  /** From the zeroed table of any length, no run stores a pair twice or leaves a half-empty slot. */
  lemma {:induction false} RunKeepsValid(n: nat, ops: seq<Op>)
    ensures var t := Run(seq(n, _ => EMPTY), ops); Valid(t) && |t| == n
  {
    if ops != [] {
      RunKeepsValid(n, ops[..|ops| - 1]);
      ApplyKeepsValid(Run(seq(n, _ => EMPTY), ops[..|ops| - 1]), ops[|ops| - 1]);
    }
  }

  // ----- the table

  /** What the pass has done to the table `t` before slot `i`. */
  predicate Passed(t: seq<Hook>, now: seq<Hook>, h: Hook, i: int, hold: int) {
    && 0 <= i <= |t| == |now| <= NO_SLOT
    && Find(t, h, 0) >= i
    && if hold == NO_SLOT then now == t && Find(t, EMPTY, 0) >= i
       else 0 <= hold < i && hold == Find(t, EMPTY, 0) && now == t[hold := h]
  }

  class HookTable {
    const slots: array<Hook>

    constructor (n: nat)
      requires n <= NO_SLOT
      ensures fresh(slots) && slots.Length == n
      ensures slots[..] == seq(n, _ => EMPTY)
    {
      slots := new Hook[n](_ => EMPTY);
    }

    /** `driver_cmd_hdl_register`. */
    method HdlRegister(hdl: nat, data: nat) returns (ret: int)
      requires slots.Length <= NO_SLOT
      modifies slots
      ensures ret == RegisterCode(old(slots[..]), Hook(hdl, data))
      ensures slots[..] == Apply(old(slots[..]), Register(Hook(hdl, data)))
    {
      if hdl == 0 {
        return -EINVAL;
      }
      ghost var t, h := slots[..], Hook(hdl, data);
      var hold := NO_SLOT;
      var i := 0;
      while i < slots.Length
        invariant Passed(t, slots[..], h, i, hold)
      {
        if slots[i].hdl == hdl && slots[i].priv == data {
          if hold != NO_SLOT {
            slots[i] := Hook(0, 0);
          }
          return -EEXIST;
        }
        if slots[i].hdl == 0 && slots[i].priv == 0 && hold == NO_SLOT {
          slots[i] := Hook(hdl, data);
          hold := i;
        }
        i := i + 1;
      }
      if hold == NO_SLOT {
        return -ENOMEM;
      }
      return 0;
    }

    /** `driver_cmd_hdl_unregister`. */
    method HdlUnregister(hdl: nat) returns (ret: int)
      modifies slots
      ensures ret == if hdl != 0 && exists i :: 0 <= i < slots.Length && old(slots[i].hdl) == hdl then 0 else -EINVAL
      ensures slots[..] == Apply(old(slots[..]), Unregister(hdl))
    {
      if hdl == 0 {
        return -EINVAL;
      }
      ghost var t := slots[..];
      var i := 0;
      while i < slots.Length
        invariant 0 <= i <= slots.Length && slots[..] == t
        invariant forall j :: 0 <= j < i ==> slots[j].hdl != hdl
      {
        if slots[i].hdl == hdl {
          slots[i] := Hook(0, 0);
          assert FindHandler(t, hdl, 0) == i;
          return 0;
        }
        i := i + 1;
      }
      return -EINVAL;
    }
  }
}
