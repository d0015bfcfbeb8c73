/**
 * The device manager: a list of device objects looked up by id. A device object is its list node;
 * its remaining field, the id, is in the node's body.
 */
module DevRegistry {
  import opened Basics
  import opened ListHead

  class DevBody {
    var devId: int

    constructor ()
    {
      devId := 0;
    }
  }

  const RET_OK: int := 0
  const RET_ERR: int := -1
  const EEXIST: int := 17

  /** The fields around a device's list node. */
  predicate IsDevice(n: Node) {
    n.body is DevBody
  }

  function Body(n: Node): DevBody
    requires IsDevice(n)
  {
    n.body as DevBody
  }

  /** Every listed device is found in the table under its own id, and nothing else is. */
  ghost predicate Agrees(devs: seq<Node>, table: map<int, Node>)
    reads set n | n in devs && IsDevice(n) :: Body(n)
  {
    && (forall i :: 0 <= i < |devs| ==>
          IsDevice(devs[i]) && Body(devs[i]).devId in table && table[Body(devs[i]).devId] == devs[i])
    && (forall id :: id in table ==> table[id] in devs && Body(table[id]).devId == id)
  }

  /** Different device objects have different fields. */
  ghost predicate Injective(devs: seq<Node>) {
    && (forall i :: 0 <= i < |devs| ==> IsDevice(devs[i]))
    && (forall i, j :: 0 <= i < j < |devs| ==> Body(devs[i]) != Body(devs[j]))
  }

  class DevMgr {
    const head: Node
    var inited: bool
    ghost var devs: seq<Node>
    ghost var table: map<int, Node>

    constructor ()
      ensures Valid() && !inited
    {
      head := new Node(null);
      inited, devs, table := false, [], map[];
    }

    /** Once initialised, the ring is well formed and agrees with the finite map `table`. */
    ghost predicate Valid()
      reads this, head, devs, set n | n in devs && IsDevice(n) :: Body(n)
    {
      inited ==> List(head, devs) && Injective(devs) && Agrees(devs, table)
    }

    /** `dev_init`. */
    method Init() returns (ret: int)
      modifies this, head
      ensures Valid() && inited && table == map[] && ret == RET_OK
    {
      InitListHead(head);
      devs, table := [], map[];
      inited := true;
      ret := RET_OK;
    }

    /** `dev_get`. */
    method Get(id: int) returns (dev: Node?)
      requires Valid()
      ensures dev == if inited && id in table then table[id] else null
    {
      dev := null;
      if !inited {
        return;
      }
      ghost var ring := [head] + devs;
      ghost var k := 0;
      NextIs(head, devs, 0);
      var pos := head.next;
      while pos != head
        invariant 0 <= k <= |devs| && dev == null
        invariant k < |devs| ==> devs[k] != head
        invariant pos == if k < |devs| then devs[k] else head
        invariant forall j :: 0 <= j < k ==> Body(devs[j]).devId != id
        decreases |devs| - k
      {
        if Body(pos).devId == id {
          dev := pos;
          return;
        }
        k := k + 1;
        NextIs(head, devs, k);
        pos := pos.next;
      }
      AbsentId(devs, table, id);
    }

    /**
     * `dev_register`. Registering an object that is listed already, under a fresh id, is accepted
     * and leaves no list behind; nothing else does.
     */
    method Register(id: int, device: Node?) returns (ret: int)
      requires Valid()
      requires device != null ==>
                 && IsDevice(device) && device != head
                 && forall d :: d in devs && d != device && IsDevice(d) ==> Body(d) != Body(device)
      modifies this, head, devs, device, if device != null then {Body(device)} else {}
      ensures inited == old(inited)
      ensures ret == if !inited || device == null then RET_ERR else if id in old(table) then -EEXIST else RET_OK
      ensures ret != RET_OK ==> Valid() && table == old(table)
      ensures ret == RET_OK && device !in old(devs) ==> Valid() && table == old(table)[id := device]
      ensures ret == RET_OK && device in old(devs) ==>
                forall es: seq<Node> {:trigger List(head, es)} :: !List(head, es)
    {
      if !inited || device == null {
        return RET_ERR;
      }
      var dev := Get(id);
      if dev != null {
        return -EEXIST;
      }
      Enlist(id, device);
      ret := RET_OK;
    }

    method Enlist(id: int, device: Node)
      requires Valid() && inited && IsDevice(device) && device != head && id !in table
      requires forall d :: d in devs && d != device && IsDevice(d) ==> Body(d) != Body(device)
      modifies this, head, devs, device, Body(device)
      ensures inited
      ensures device !in old(devs) ==> Valid() && table == old(table)[id := device]
      ensures device in old(devs) ==> forall es: seq<Node> {:trigger List(head, es)} :: !List(head, es)
    {
      Body(device).devId := id;
      AddTail(device, head, devs);
      devs := devs + [device];
      table := table[id := device];
    }

    /** `dev_unregister`: afterwards the id of `device` is absent. */
    method Unregister(device: Node?) returns (ret: int)
      requires Valid()
      requires device != null ==> IsDevice(device)
      modifies this, head, devs
      ensures Valid() && inited == old(inited)
      ensures ret == if !inited || device == null then RET_ERR else RET_OK
      ensures table == if ret == RET_OK then old(table) - {Body(device).devId} else old(table)
    {
      if !inited || device == null {
        return RET_ERR;
      }
      var dev := Get(Body(device).devId);
      if dev != null {
        Delist(dev);
      }
      ret := RET_OK;
    }

    method Delist(dev: Node)
      requires Valid() && inited && dev in devs && IsDevice(dev)
      modifies this`devs, this`table, head, devs
      ensures Valid() && inited && table == old(table) - {Body(dev).devId}
    {
      ghost var i := Position(devs, dev);
      AgreesRemoved(devs, table, i);
      Del(dev, head, devs, i);
      table := table - {Body(dev).devId};
      devs := RemoveAt(devs, i);
    }
  }

  /** Unlinking a device and dropping its id keep list and table in agreement. */
  lemma AgreesRemoved(devs: seq<Node>, table: map<int, Node>, i: nat)
    requires Agrees(devs, table) && Injective(devs) && i < |devs|
    ensures Injective(RemoveAt(devs, i))
    ensures Agrees(RemoveAt(devs, i), table - {Body(devs[i]).devId})
  {
    InjectiveRemoved(devs, i);
    var rest, id := RemoveAt(devs, i), Body(devs[i]).devId;
    forall j | 0 <= j < |rest|
      ensures IsDevice(rest[j]) && Body(rest[j]).devId in table - {id} && table[Body(rest[j]).devId] == rest[j]
    {
      KeptDevice(devs, table, i, if j < i then j else j + 1);
    }
    forall x | x in table - {id} ensures table[x] in rest && Body(table[x]).devId == x {
      var k := Position(devs, table[x]);
      assert rest[if k < i then k else k - 1] == table[x];
    }
  }

  lemma InjectiveRemoved(devs: seq<Node>, i: nat)
    requires Injective(devs) && i < |devs|
    ensures Injective(RemoveAt(devs, i))
  {
  }

  /** Another listed device keeps its entry. */
  lemma KeptDevice(devs: seq<Node>, table: map<int, Node>, i: nat, k: nat)
    requires Agrees(devs, table) && Injective(devs) && i < |devs| && k < |devs| && k != i
    ensures Body(devs[k]).devId in table - {Body(devs[i]).devId} && table[Body(devs[k]).devId] == devs[k]
  {
    assert Body(devs[k]) != Body(devs[i]);
  }

  lemma AbsentId(devs: seq<Node>, table: map<int, Node>, id: int)
    requires Agrees(devs, table) && forall j :: 0 <= j < |devs| ==> Body(devs[j]).devId != id
    ensures id !in table
  {
  }

  lemma NextIs(head: Node, devs: seq<Node>, k: nat)
    requires List(head, devs) && k <= |devs|
    ensures ([head] + devs)[k].next == if k < |devs| then devs[k] else head
    ensures k < |devs| ==> devs[k] != head
  {
    ListParts(head, devs, k);
    var ring := [head] + devs;
    assert ([head] + devs[..k])[k] == ring[k];
    assert k < |devs| ==> ring[k + 1] == devs[k];
  }

  ghost function Position(devs: seq<Node>, d: Node): (i: nat)
    requires d in devs
    ensures i < |devs| && devs[i] == d
  {
    var i :| 0 <= i < |devs| && devs[i] == d;
    i
  }
}
