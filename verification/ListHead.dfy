/**
 * The intrusive circular doubly linked list. A list is a ring of nodes through its head;
 * `entries` is the abstract list, front to back.
 */
module ListHead {
  import opened Basics

  /** `body` is what `container_of` reaches: the fields of the structure around the node, if any. */
  class Node {
    var next: Node?
    var prev: Node?
    const body: object?

    constructor (body: object?)
      ensures next == null && prev == null && this.body == body
    {
      next, prev := null, null;
      this.body := body;
    }
  }

  /** `next` and `prev` agree between the two nodes. */
  ghost predicate Joined(a: Node, b: Node)
    reads a, b
  {
    a.next == b && b.prev == a
  }

  ghost predicate JoinedAt(s: seq<Node>, i: nat)
    requires i + 1 < |s|
    reads s
  {
    Joined(s[i], s[i + 1])
  }

  /** Consecutive nodes are joined; the outer pointers of the two ends are free. */
  ghost predicate Chain(s: seq<Node>)
    reads s
  {
    NoDup(s) && forall i: nat {:trigger JoinedAt(s, i)} :: i + 1 < |s| ==> JoinedAt(s, i)
  }

  /** `head` heads a well-formed circular list with the given entries. */
  ghost predicate List(head: Node, entries: seq<Node>)
    reads head, entries
  {
    var ring := [head] + entries;
    Chain(ring) && Joined(ring[|ring| - 1], head)
  }

  lemma ChainParts(s: seq<Node>, i: nat)
    requires Chain(s) && 0 < i < |s|
    ensures Chain(s[..i]) && Chain(s[i..]) && Joined(s[i - 1], s[i])
  {
    assert JoinedAt(s, i - 1);
    forall k: nat {:trigger JoinedAt(s[..i], k)} | k + 1 < i ensures JoinedAt(s[..i], k) {
      assert JoinedAt(s, k);
    }
    forall k: nat {:trigger JoinedAt(s[i..], k)} | k + 1 < |s| - i ensures JoinedAt(s[i..], k) {
      assert JoinedAt(s, i + k);
    }
  }

  lemma ChainConcat(a: seq<Node>, b: seq<Node>)
    requires Chain(a) && Chain(b) && a != [] && b != []
    requires Joined(a[|a| - 1], b[0])
    requires forall x :: x in a ==> x !in b
    ensures Chain(a + b)
  {
    var s := a + b;
    forall k: nat {:trigger JoinedAt(s, k)} | k + 1 < |s| ensures JoinedAt(s, k) {
      if k + 1 < |a| {
        assert JoinedAt(a, k);
      } else if k >= |a| {
        assert JoinedAt(b, k - |a|);
      }
    }
    forall i, j | 0 <= i < j < |s| ensures s[i] != s[j] {
      if i < |a| <= j {
        assert s[i] in a && s[j] in b;
      }
    }
  }

  /** A node between two chains. */
  lemma ChainAround(front: seq<Node>, n: Node, back: seq<Node>)
    requires Chain(front) && Chain(back) && Disjoint(front, back)
    requires n !in front && n !in back
    requires front != [] ==> Joined(front[|front| - 1], n)
    requires back != [] ==> Joined(n, back[0])
    ensures Chain(front + [n] + back)
  {
    if front != [] {
      ChainConcat(front, [n]);
    } else {
      assert front + [n] == [n];
    }
    if back != [] {
      ChainConcat(front + [n], back);
    } else {
      assert front + [n] + back == front + [n];
    }
  }

  /** A chain survives changes to the outer pointers of its ends. */
  twostate lemma ChainKept(s: seq<Node>)
    requires old(Chain(s))
    requires forall i :: 0 <= i < |s| - 1 ==> s[i].next == old(s[i].next)
    requires forall i :: 1 <= i < |s| ==> s[i].prev == old(s[i].prev)
    ensures Chain(s)
  {
    forall k: nat {:trigger JoinedAt(s, k)} | k + 1 < |s| ensures JoinedAt(s, k) {
      assert old(JoinedAt(s, k));
    }
  }

  ghost predicate Disjoint<T>(a: seq<T>, b: seq<T>) {
    forall x :: x in a ==> x !in b
  }

  /** The ends of a sequence without repetition occur once. */
  lemma Ends<T>(s: seq<T>)
    requires NoDup(s) && s != []
    ensures forall k :: 1 <= k < |s| ==> s[k] != s[0]
    ensures forall k :: 0 <= k < |s| - 1 ==> s[k] != s[|s| - 1]
    ensures forall k :: 0 <= k < |s| ==> s[k] in s
  {
  }

  lemma NoDupParts<T>(s: seq<T>, i: nat)
    requires NoDup(s) && i <= |s|
    ensures Disjoint(s[..i], s[i..])
  {
  }

  /** A list cut open at position `i` of its entries. */
  lemma ListParts(head: Node, entries: seq<Node>, i: nat)
    requires List(head, entries) && i <= |entries|
    ensures Chain([head] + entries[..i]) && Chain(entries[i..])
    ensures Disjoint([head] + entries[..i], entries[i..])
    ensures ([head] + entries[..i])[i].next == if i < |entries| then entries[i] else head
    ensures (if i < |entries| then entries[i] else head).prev == ([head] + entries[..i])[i]
  {
    var ring := [head] + entries;
    if i < |entries| {
      ChainParts(ring, i + 1);
      assert ring[..i + 1] == [head] + entries[..i] && ring[i + 1..] == entries[i..];
      NoDupParts(ring, i + 1);
    } else {
      assert entries[..i] == entries;
    }
  }

  /** A list cut open on both sides of entry `i`. */
  lemma EntryParts(head: Node, entries: seq<Node>, i: nat)
    requires List(head, entries) && i < |entries|
    ensures var front, back := [head] + entries[..i], entries[i + 1..];
            var next := if back == [] then head else back[0];
            && Chain(front) && Chain(back) && Disjoint(front, back)
            && Joined(front[i], entries[i]) && Joined(entries[i], next)
            && entries[i] !in front && entries[i] !in back
            && (back != [] ==> Joined(back[|back| - 1], head))
  {
    ListParts(head, entries, i);
    ListParts(head, entries, i + 1);
    assert [head] + entries[..i + 1] == [head] + entries[..i] + [entries[i]];
    assert ([head] + entries[..i + 1])[i + 1] == entries[i];
    var front, back := [head] + entries[..i], entries[i + 1..];
    assert entries[i] in entries[i..];
    forall x | x in front ensures x !in back {
      assert x in [head] + entries[..i + 1];
    }
  }

  // ----- the list as a sequence

  function RotateLeft<T>(s: seq<T>): seq<T> {
    if s == [] then [] else s[1..] + [s[0]]
  }

  function RotateTimes<T>(s: seq<T>, n: nat): seq<T>
    decreases n
  {
    if n == 0 then s else RotateTimes(RotateLeft(s), n - 1)
  }

  lemma {:induction false} RotateTimesIs<T>(s: seq<T>, n: nat)
    requires n <= |s|
    ensures RotateTimes(s, n) == s[n..] + s[..n]
    decreases n
  {
    if n > 0 {
      var t := RotateLeft(s);
      RotateTimesIs(t, n - 1);
      assert t[n - 1..] == s[n..] + [s[0]];
      assert t[..n - 1] == s[1..n];
      assert s[..n] == [s[0]] + s[1..n];
    }
  }

  /** As many rotations as there are entries give back the list. */
  lemma FullRotationIsIdentity<T>(s: seq<T>)
    ensures RotateTimes(s, |s|) == s
  {
    RotateTimesIs(s, |s|);
  }

  // ----- the operations

  /** `INIT_LIST_HEAD`. */
  method InitListHead(list: Node)
    modifies list
    ensures List(list, [])
  {
    list.next := list;
    list.prev := list;
  }

  /** `__list_add` between the chains `front` and `back` of a ring. */
  method InsertBetween(nhead: Node, prev: Node, next: Node, ghost front: seq<Node>, ghost back: seq<Node>)
    requires front != [] && Chain(front) && Chain(back) && Disjoint(front, back)
    requires prev == front[|front| - 1] && next == (if back == [] then front[0] else back[0])
    requires nhead !in front && nhead !in back
    modifies nhead, prev, next
    ensures Chain(front + [nhead] + back)
    ensures Joined(nhead, next) && prev.next == nhead
    ensures prev != next ==> prev.prev == old(prev.prev) && next.next == old(next.next)
  {
    Ends(front);
    if back != [] { Ends(back); }
    next.prev := nhead;
    nhead.next := next;
    nhead.prev := prev;
    prev.next := nhead;
    ChainKept(front);
    ChainKept(back);
    ChainAround(front, nhead, back);
  }

  /** `list_add`. */
  method Add(nhead: Node, head: Node, ghost entries: seq<Node>)
    requires List(head, entries) && nhead != head && nhead !in entries
    modifies nhead, head, entries
    ensures List(head, [nhead] + entries)
  {
    ListParts(head, entries, 0);
    assert entries[0..] == entries && [head] + entries[..0] == [head];
    if entries != [] { Ends(entries); }
    InsertBetween(nhead, head, head.next, [head], entries);
    ghost var ring := [head] + ([nhead] + entries);
    assert [head] + [nhead] + entries == ring;
    assert entries != [] ==> ring[|ring| - 1] == entries[|entries| - 1];
  }

  /** `next` leads from position `j` of the path to the one after it, which is not the start. */
  ghost predicate Leads(path: seq<Node>, j: int)
    requires 0 <= j && j + 1 < |path|
    reads path
  {
    path[j].next == path[j + 1] && path[j + 1] != path[0]
  }

  /** Following `next` from the head of a list stays in the list and can be undone by `prev`. */
  lemma {:induction false} NextStays(head: Node, entries: seq<Node>, path: seq<Node>, k: nat)
    requires List(head, entries) && k < |path| && path[0] == head
    requires forall j {:trigger Leads(path, j)} :: 0 <= j < k ==> Leads(path, j)
    ensures path[k] in [head] + entries
    ensures k > 0 ==> path[k].prev == path[k - 1]
    decreases k
  {
    if k > 0 {
      NextStays(head, entries, path, k - 1);
      assert Leads(path, k - 1);
      var m :| 0 <= m <= |entries| && ([head] + entries)[m] == path[k - 1];
      ListParts(head, entries, m);
      assert ([head] + entries[..m])[m] == path[k - 1];
    }
  }

  lemma NoList(head: Node, path: seq<Node>, k: nat)
    requires 0 < k < |path| && path[0] == head
    requires forall j {:trigger Leads(path, j)} :: 0 <= j < k ==> Leads(path, j)
    requires path[k].prev != path[k - 1]
    ensures forall entries: seq<Node> {:trigger List(head, entries)} :: !List(head, entries)
  {
    forall entries: seq<Node> {:trigger List(head, entries)} ensures !List(head, entries) {
      if List(head, entries) {
        NextStays(head, entries, path, k);
      }
    }
  }

  lemma RingLeads(head: Node, entries: seq<Node>)
    requires List(head, entries)
    ensures forall j {:trigger Leads([head] + entries, j)} :: 0 <= j < |entries| ==> Leads([head] + entries, j)
    ensures head.prev == ([head] + entries)[|entries|]
  {
    var ring := [head] + entries;
    forall j {:trigger Leads(ring, j)} | 0 <= j < |entries| ensures Leads(ring, j) {
      assert JoinedAt(ring, j);
    }
  }

  /** The four writes of `__list_add` before the head. */
  method LinkLast(nhead: Node, head: Node, prev: Node)
    requires nhead != head && head.prev == prev
    modifies nhead, head, prev
    ensures head.prev == nhead && nhead.prev == prev && prev.next == nhead
    ensures nhead != prev ==> nhead.next == head
    ensures head != prev ==> head.next == old(head.next)
    ensures prev != head && prev != nhead ==> prev.prev == old(prev.prev)
  {
    head.prev := nhead;
    nhead.next := head;
    nhead.prev := prev;
    prev.next := nhead;
  }

  /** `list_add_tail`; a node that is listed already is inserted twice, and no list is left. */
  method AddTail(nhead: Node, head: Node, ghost entries: seq<Node>)
    requires List(head, entries) && nhead != head
    modifies nhead, head, entries
    ensures nhead !in entries ==> List(head, entries + [nhead])
    ensures nhead in entries ==> forall es: seq<Node> {:trigger List(head, es)} :: !List(head, es)
  {
    ghost var ring := [head] + entries;
    RingLeads(head, entries);
    Ends(ring);
    var prev := head.prev;
    LinkLast(nhead, head, prev);
    if nhead in entries {
      ghost var i :| 0 <= i < |entries| && entries[i] == nhead;
      forall j {:trigger Leads(ring, j)} | 0 <= j <= i ensures Leads(ring, j) {
        assert old(Leads(ring, j)) && ring[j] != ring[i + 1] && ring[j] != ring[|entries|];
      }
      NoList(head, ring, i + 1);
    } else {
      ghost var ring' := ring + [nhead];
      forall k: nat {:trigger JoinedAt(ring', k)} | k + 1 < |ring'| ensures JoinedAt(ring', k) {
        if k < |entries| {
          assert old(JoinedAt(ring, k));
        }
      }
      assert ring' == [head] + (entries + [nhead]);
    }
  }

  /** `__list_del_entry`: the neighbours are joined, the entry keeps its stale pointers. */
  method DelEntry(entry: Node, ghost head: Node, ghost entries: seq<Node>, ghost i: nat)
    requires List(head, entries) && i < |entries| && entries[i] == entry
    modifies head, entries
    ensures List(head, RemoveAt(entries, i))
    ensures entry.next == old(entry.next) && entry.prev == old(entry.prev)
  {
    ghost var front, back := [head] + entries[..i], entries[i + 1..];
    EntryParts(head, entries, i);
    var prev, next := entry.prev, entry.next;
    Ends(front);
    if back != [] { Ends(back); }
    next.prev := prev;
    prev.next := next;
    ChainKept(front);
    ChainKept(back);
    if back != [] {
      ChainConcat(front, back);
    } else {
      assert front + back == front;
    }
    assert [head] + RemoveAt(entries, i) == front + back;
  }

  /** `list_del`. */
  method Del(entry: Node, ghost head: Node, ghost entries: seq<Node>, ghost i: nat)
    requires List(head, entries) && i < |entries| && entries[i] == entry
    modifies head, entries
    ensures List(head, RemoveAt(entries, i))
    ensures entry.next == null && entry.prev == null
  {
    EntryParts(head, entries, i);
    DelEntry(entry, head, entries, i);
    ghost var rest := RemoveAt(entries, i);
    assert entry != head && entry !in rest;
    entry.next := null;
    entry.prev := null;
  }

  /** The pointer writes of `list_replace`, between the chains around the replaced node. */
  method ReplaceBetween(old_: Node, nhead: Node, ghost front: seq<Node>, ghost back: seq<Node>)
    requires Chain(front) && Chain(back) && Disjoint(front, back)
    requires old_ !in front && old_ !in back && nhead !in front && nhead !in back && nhead != old_
    requires old_.prev == if front != [] then front[|front| - 1] else if back != [] then back[|back| - 1] else old_
    requires old_.next == if back != [] then back[0] else if front != [] then front[0] else old_
    modifies nhead, old_, front, back
    ensures Chain(front) && Chain(back)
    ensures front != [] ==> Joined(front[|front| - 1], nhead)
    ensures front == [] && back != [] ==> Joined(back[|back| - 1], nhead)
    ensures front == [] && back == [] ==> Joined(nhead, nhead)
    ensures back != [] ==> Joined(nhead, back[0])
    ensures back == [] && front != [] ==> Joined(nhead, front[0])
    ensures back != [] && front != [] ==>
              front[0].prev == old(front[0].prev) && back[|back| - 1].next == old(back[|back| - 1].next)
  {
    if front != [] { Ends(front); }
    if back != [] { Ends(back); }
    nhead.next := old_.next;
    nhead.next.prev := nhead;
    nhead.prev := old_.prev;
    nhead.prev.next := nhead;
    ChainKept(front);
    ChainKept(back);
  }

  /** `list_replace`: `nhead` takes the place of node `i` of the ring, be it the head or an entry. */
  method Replace(old_: Node, nhead: Node, ghost head: Node, ghost entries: seq<Node>, ghost i: nat)
    requires List(head, entries) && i <= |entries| && ([head] + entries)[i] == old_
    requires nhead != head && nhead !in entries
    modifies nhead, head, entries
    ensures i == 0 ==> List(nhead, entries)
    ensures i > 0 ==> List(head, entries[i - 1 := nhead])
  {
    ghost var ring := [head] + entries;
    ghost var front, back := ring[..i], ring[i + 1..];
    ReplaceParts(head, entries, i);
    ReplaceBetween(old_, nhead, front, back);
    ReplaceAssembled(head, entries, i, nhead);
  }

  lemma ReplaceAssembled(head: Node, entries: seq<Node>, i: nat, n: Node)
    requires i <= |entries| && n != head && n !in entries
    requires var ring := [head] + entries;
             var front, back := ring[..i], ring[i + 1..];
             && Chain(front) && Chain(back) && Disjoint(front, back)
             && (front != [] ==> Joined(front[i - 1], n))
             && (back != [] ==> Joined(n, back[0]) && Joined(back[|back| - 1], if i == 0 then n else head))
             && (back == [] ==> Joined(n, if i == 0 then n else head))
    ensures i == 0 ==> List(n, entries)
    ensures i > 0 ==> List(head, entries[i - 1 := n])
  {
    var ring := [head] + entries;
    var front, back := ring[..i], ring[i + 1..];
    ChainAround(front, n, back);
    if i == 0 {
      assert front + [n] + back == [n] + entries;
    } else {
      assert front + [n] + back == [head] + entries[i - 1 := n];
    }
  }

  lemma ReplaceParts(head: Node, entries: seq<Node>, i: nat)
    requires List(head, entries) && i <= |entries|
    ensures var ring := [head] + entries;
            var front, back := ring[..i], ring[i + 1..];
            && Chain(front) && Chain(back) && Disjoint(front, back)
            && ring[i] !in front && ring[i] !in back
            && (front != [] ==> Joined(front[i - 1], ring[i]))
            && (back != [] ==> Joined(ring[i], back[0]))
            && (back == [] ==> Joined(ring[i], head))
            && (back != [] ==> Joined(back[|back| - 1], head))
  {
    var ring := [head] + entries;
    if i > 0 {
      EntryParts(head, entries, i - 1);
      assert ring[..i] == [head] + entries[..i - 1] && ring[i + 1..] == entries[i..];
    } else {
      ListParts(head, entries, 0);
      assert ring[..0] == [] && ring[1..] == entries && entries[0..] == entries;
      assert ([head] + entries[..0])[0] == head;
    }
  }

  /** No node of one list, head included, is in the other. */
  ghost predicate Separate(head: Node, entries: seq<Node>, head2: Node, entries2: seq<Node>) {
    Disjoint([head] + entries, [head2] + entries2)
  }

  lemma SeparateMembers(head: Node, entries: seq<Node>, head2: Node, entries2: seq<Node>)
    requires Separate(head, entries, head2, entries2)
    ensures head != head2 && head !in entries2 && head2 !in entries
    ensures forall x :: x in entries ==> x !in entries2
  {
    assert ([head] + entries)[0] in [head] + entries;
    assert ([head2] + entries2)[0] in [head2] + entries2;
    forall x | x in entries ensures x != head2 && x !in entries2 {
      assert x in [head] + entries;
    }
  }

  /** None of the given nodes belongs to the list. */
  ghost predicate Untouched(head: Node, entries: seq<Node>, nodes: seq<Node>) {
    head !in nodes && forall i :: 0 <= i < |entries| ==> entries[i] !in nodes
  }

  lemma UntouchedMembers(other: Node, others: seq<Node>, nhead: Node, head: Node, entries: seq<Node>)
    ensures Untouched(other, others, [nhead, head] + entries) ==>
              && other != nhead && other != head && other !in entries
              && forall i :: 0 <= i < |others| ==> others[i] != nhead && others[i] != head && others[i] !in entries
  {
    var nodes := [nhead, head] + entries;
    assert nodes[0] == nhead && nodes[1] == head;
    assert forall x :: x in entries ==> x in nodes;
  }

  /** `list_add` on one list leaves any other list alone. */
  method AddBeside(nhead: Node, head: Node, ghost entries: seq<Node>, ghost other: Node, ghost others: seq<Node>)
    requires List(head, entries) && nhead != head && nhead !in entries
    requires head == other || (List(other, others) && Untouched(other, others, [nhead, head] + entries))
    modifies nhead, head, entries
    ensures List(head, [nhead] + entries)
    ensures head != other ==> List(other, others)
  {
    UntouchedMembers(other, others, nhead, head, entries);
    Add(nhead, head, entries);
  }

  /** `list_add_tail` on one list leaves any other list alone. */
  method AddTailBeside(nhead: Node, head: Node, ghost entries: seq<Node>, ghost other: Node, ghost others: seq<Node>)
    requires List(head, entries) && nhead != head && nhead !in entries
    requires head == other || (List(other, others) && Untouched(other, others, [nhead, head] + entries))
    modifies nhead, head, entries
    ensures List(head, entries + [nhead])
    ensures head != other ==> List(other, others)
  {
    UntouchedMembers(other, others, nhead, head, entries);
    AddTail(nhead, head, entries);
  }

  /** `__list_del_entry` on one list leaves any other list alone. */
  method DelBeside(entry: Node, ghost src: Node, ghost srcEntries: seq<Node>, ghost i: nat,
                   ghost head: Node, ghost entries: seq<Node>)
    requires List(src, srcEntries) && i < |srcEntries| && srcEntries[i] == entry
    requires head == src || (List(head, entries) && Untouched(head, entries, [src] + srcEntries))
    modifies src, srcEntries
    ensures List(src, RemoveAt(srcEntries, i))
    ensures head != src ==> List(head, entries)
  {
    UntouchedMembers(head, entries, src, src, srcEntries);
    assert [src, src] + srcEntries == [src] + ([src] + srcEntries);
    DelEntry(entry, src, srcEntries, i);
  }

  /** The two lists of a move do not interfere. */
  lemma MoveParts(src: Node, srcEntries: seq<Node>, i: nat, head: Node, entries: seq<Node>)
    requires List(src, srcEntries) && i < |srcEntries|
    requires head != src ==> Separate(src, srcEntries, head, entries)
    requires head == src ==> entries == RemoveAt(srcEntries, i)
    ensures srcEntries[i] != head && srcEntries[i] !in entries
    ensures head != src ==> Untouched(head, entries, [src] + srcEntries)
    ensures head != src ==> Untouched(src, RemoveAt(srcEntries, i), [srcEntries[i], head] + entries)
  {
    EntryParts(src, srcEntries, i);
    assert srcEntries[i] !in RemoveAt(srcEntries, i) && srcEntries[i] != src;
    if head != src {
      SeparateMembers(src, srcEntries, head, entries);
      var rest := RemoveAt(srcEntries, i);
      assert forall j :: 0 <= j < |rest| ==> rest[j] in rest && rest[j] in srcEntries;
      assert forall j :: 0 <= j < |entries| ==> entries[j] in entries;
    }
  }

  /** `list_move`, to the front of the same list or of another one. */
  method Move(entry: Node, head: Node, ghost src: Node, ghost srcEntries: seq<Node>, ghost i: nat,
              ghost entries: seq<Node>)
    requires List(src, srcEntries) && i < |srcEntries| && srcEntries[i] == entry
    requires if head == src then entries == RemoveAt(srcEntries, i)
             else List(head, entries) && Separate(src, srcEntries, head, entries)
    modifies src, srcEntries, head, entries
    ensures List(head, [entry] + entries)
    ensures head != src ==> List(src, RemoveAt(srcEntries, i))
  {
    MoveParts(src, srcEntries, i, head, entries);
    DelBeside(entry, src, srcEntries, i, head, entries);
    AddBeside(entry, head, entries, src, RemoveAt(srcEntries, i));
  }

  /** `list_move_tail`, to the back of the same list or of another one. */
  method MoveTail(entry: Node, head: Node, ghost src: Node, ghost srcEntries: seq<Node>, ghost i: nat,
                  ghost entries: seq<Node>)
    requires List(src, srcEntries) && i < |srcEntries| && srcEntries[i] == entry
    requires if head == src then entries == RemoveAt(srcEntries, i)
             else List(head, entries) && Separate(src, srcEntries, head, entries)
    modifies src, srcEntries, head, entries
    ensures List(head, entries + [entry])
    ensures head != src ==> List(src, RemoveAt(srcEntries, i))
  {
    MoveParts(src, srcEntries, i, head, entries);
    DelBeside(entry, src, srcEntries, i, head, entries);
    AddTailBeside(entry, head, entries, src, RemoveAt(srcEntries, i));
  }

  /** `list_empty`. */
  method IsEmpty(head: Node, ghost entries: seq<Node>) returns (r: bool)
    requires List(head, entries)
    ensures r <==> entries == []
  {
    ListParts(head, entries, 0);
    assert ([head] + entries[..0])[0] == head;
    if entries != [] { Ends([head] + entries); assert ([head] + entries)[1] == entries[0]; }
    r := head.next == head;
  }

  /** `list_is_singular`. */
  method IsSingular(head: Node, ghost entries: seq<Node>) returns (r: bool)
    requires List(head, entries)
    ensures r <==> |entries| == 1
  {
    var empty := IsEmpty(head, entries);
    ListParts(head, entries, 0);
    assert ([head] + entries[..0])[0] == head;
    ghost var ring := [head] + entries;
    if |entries| > 1 { assert ring[1] != ring[|ring| - 1]; }
    r := !empty && head.next == head.prev;
  }

  /** `list_rotate_left`. */
  method Rotate(head: Node, ghost entries: seq<Node>)
    requires List(head, entries)
    modifies head, entries
    ensures List(head, RotateLeft(entries))
  {
    var empty := IsEmpty(head, entries);
    if !empty {
      ListParts(head, entries, 0);
      assert ([head] + entries[..0])[0] == head;
      assert RemoveAt(entries, 0) == entries[1..];
      var first := head.next;
      MoveTail(first, head, head, entries, 0, entries[1..]);
    }
  }

  /** `n` rotations; as many as there are entries give back the list. */
  method RotateMany(head: Node, n: nat, ghost entries: seq<Node>)
    requires List(head, entries)
    modifies head, entries
    ensures List(head, RotateTimes(entries, n))
    ensures n == |entries| ==> List(head, entries)
    decreases n
  {
    if n > 0 {
      Rotate(head, entries);
      assert forall x :: x in RotateLeft(entries) ==> x in entries;
      RotateMany(head, n - 1, RotateLeft(entries));
    }
    FullRotationIsIdentity(entries);
  }

  /** `__list_cut_position`: the first `k` entries go to `list`. */
  method CutAt(list: Node, head: Node, entry: Node, ghost entries: seq<Node>, ghost k: nat)
    requires List(head, entries) && 0 < k <= |entries| && entries[k - 1] == entry
    requires list != head && list !in entries
    modifies list, head, entries
    ensures List(list, entries[..k]) && List(head, entries[k..])
  {
    ghost var front, back := entries[..k], entries[k..];
    CutParts(head, entries, k);
    Ends(front);
    if back != [] { Ends(back); }
    var newFirst := entry.next;
    list.next := head.next;
    list.next.prev := list;
    list.prev := entry;
    entry.next := list;
    head.next := newFirst;
    newFirst.prev := head;
    ChainKept(front);
    ChainKept(back);
    ChainConcat([list], front);
    if back != [] {
      ChainConcat([head], back);
    } else {
      assert [head] + back == [head];
    }
  }

  lemma CutParts(head: Node, entries: seq<Node>, k: nat)
    requires List(head, entries) && 0 < k <= |entries|
    ensures var front, back := entries[..k], entries[k..];
            && Chain(front) && Chain(back) && Disjoint(front, back)
            && head !in front && head !in back
            && Joined(head, front[0])
            && front[k - 1].next == (if back != [] then back[0] else head)
            && (back != [] ==> Joined(back[|back| - 1], head))
  {
    ListParts(head, entries, k);
    var open := [head] + entries[..k];
    ChainParts(open, 1);
    assert open[1..] == entries[..k] && open[k] == entries[k - 1];
    Ends(open);
    assert head in open;
    forall x | x in entries[..k] ensures x !in entries[k..] && x != head {
      assert x in open[1..];
    }
  }

  /** `list_cut_position`. */
  method CutPosition(list: Node, head: Node, entry: Node, ghost entries: seq<Node>, ghost k: nat)
    requires List(head, entries) && k <= |entries|
    requires entry == ([head] + entries)[k] || (|entries| <= 1 && entry != head && entry !in entries)
    requires list != head && list !in entries
    modifies list, head, entries
    ensures entry != ([head] + entries)[k] || entries == [] ==>
              List(head, entries) && list.next == old(list.next) && list.prev == old(list.prev)
    ensures entry == ([head] + entries)[k] && entries != [] ==>
              List(list, entries[..k]) && List(head, entries[k..])
  {
    var empty := IsEmpty(head, entries);
    if empty {
      return;
    }
    var singular := IsSingular(head, entries);
    ListParts(head, entries, 0);
    assert ([head] + entries[..0])[0] == head;
    if singular && head.next != entry && head != entry {
      return;
    }
    Ends([head] + entries);
    if entry == head {
      InitListHead(list);
      assert entries[..0] == [] && entries[0..] == entries;
    } else {
      CutAt(list, head, entry, entries, k);
    }
  }

  /** `__list_splice`: the entries of `list` go between the chains `front` and `back` of a ring. */
  method SpliceBetween(list: Node, prev: Node, next: Node,
                       ghost front: seq<Node>, ghost mid: seq<Node>, ghost back: seq<Node>)
    requires front != [] && mid != [] && Chain(front) && Chain(mid) && Chain(back)
    requires Disjoint(front, back) && Disjoint(front, mid) && Disjoint(mid, back)
    requires prev == front[|front| - 1] && next == (if back == [] then front[0] else back[0])
    requires list.next == mid[0] && list.prev == mid[|mid| - 1]
    requires list !in front && list !in mid && list !in back
    modifies prev, next, mid
    ensures Chain(front + mid + back) && Joined(mid[|mid| - 1], next)
    ensures prev != next ==> prev.prev == old(prev.prev) && next.next == old(next.next)
  {
    Ends(front);
    Ends(mid);
    if back != [] { Ends(back); }
    var first, last := list.next, list.prev;
    first.prev := prev;
    prev.next := first;
    last.next := next;
    next.prev := last;
    ChainKept(front);
    ChainKept(mid);
    ChainKept(back);
    ChainConcat(front, mid);
    if back != [] {
      ChainConcat(front + mid, back);
    } else {
      assert front + mid + back == front + mid;
    }
  }

  lemma SpliceParts(list: Node, added: seq<Node>, head: Node, entries: seq<Node>)
    requires List(list, added) && added != [] && List(head, entries) && Separate(list, added, head, entries)
    ensures Chain(added) && list.next == added[0] && list.prev == added[|added| - 1]
    ensures Chain([head] + entries) && Chain(entries)
    ensures Disjoint([head] + entries, added) && Disjoint([head], entries)
    ensures Disjoint(added, entries) && Disjoint([head], added)
    ensures list !in added && list != head && list !in entries
    ensures head.next == if entries == [] then head else entries[0]
  {
    SeparateMembers(list, added, head, entries);
    CutParts(list, added, |added|);
    assert added[..|added|] == added;
    ListParts(head, entries, 0);
    assert ([head] + entries[..0]) == [head] && entries[0..] == entries;
    var ring := [list] + added;
    assert ring[|ring| - 1] == added[|added| - 1];
  }

  /** `list_splice`. */
  method Splice(list: Node, head: Node, ghost added: seq<Node>, ghost entries: seq<Node>)
    requires List(list, added) && List(head, entries) && Separate(list, added, head, entries)
    modifies head, added, entries
    ensures List(head, added + entries)
    ensures list.next == old(list.next) && list.prev == old(list.prev)
  {
    var empty := IsEmpty(list, added);
    SeparateMembers(list, added, head, entries);
    if empty {
      assert added + entries == entries;
    } else {
      SpliceParts(list, added, head, entries);
      if entries != [] { Ends(entries); }
      ghost var ring := [head] + entries;
      assert entries != [] ==> ring[|ring| - 1] == entries[|entries| - 1];
      SpliceBetween(list, head, head.next, [head], added, entries);
      ghost var ring' := [head] + (added + entries);
      assert [head] + added + entries == ring';
      assert ring'[|ring'| - 1] == if entries != [] then entries[|entries| - 1] else added[|added| - 1];
    }
  }

  /** `list_splice_tail`. */
  method SpliceTail(list: Node, head: Node, ghost added: seq<Node>, ghost entries: seq<Node>)
    requires List(list, added) && List(head, entries) && Separate(list, added, head, entries)
    modifies head, added, entries
    ensures List(head, entries + added)
    ensures list.next == old(list.next) && list.prev == old(list.prev)
  {
    var empty := IsEmpty(list, added);
    SeparateMembers(list, added, head, entries);
    if empty {
      assert entries + added == entries;
    } else {
      SpliceParts(list, added, head, entries);
      SpliceBetween(list, head.prev, head, [head] + entries, added, []);
      ghost var ring' := [head] + (entries + added);
      assert [head] + entries + added + [] == ring';
      assert ring'[|ring'| - 1] == added[|added| - 1];
    }
  }

  /** `list_splice_init`. */
  method SpliceInit(list: Node, head: Node, ghost added: seq<Node>, ghost entries: seq<Node>)
    requires List(list, added) && List(head, entries) && Separate(list, added, head, entries)
    modifies list, head, added, entries
    ensures List(head, added + entries) && List(list, [])
  {
    var empty := IsEmpty(list, added);
    SeparateMembers(list, added, head, entries);
    if !empty {
      SpliceParts(list, added, head, entries);
      Splice(list, head, added, entries);
      InitListHead(list);
    } else {
      assert added + entries == entries;
    }
  }

  /** `list_splice_tail_init`. */
  method SpliceTailInit(list: Node, head: Node, ghost added: seq<Node>, ghost entries: seq<Node>)
    requires List(list, added) && List(head, entries) && Separate(list, added, head, entries)
    modifies list, head, added, entries
    ensures List(head, entries + added) && List(list, [])
  {
    var empty := IsEmpty(list, added);
    SeparateMembers(list, added, head, entries);
    if !empty {
      SpliceParts(list, added, head, entries);
      SpliceTail(list, head, added, entries);
      InitListHead(list);
    } else {
      assert entries + added == entries;
    }
  }

  /** Cutting at any entry into `list` and splicing back restores the list. */
  method CutThenSplice(list: Node, head: Node, entry: Node, ghost entries: seq<Node>, ghost k: nat)
    requires List(head, entries) && k <= |entries| && entry == ([head] + entries)[k]
    requires list != head && list !in entries && (entries == [] ==> List(list, []))
    modifies list, head, entries
    ensures List(head, entries)
  {
    Ends([head] + entries);
    CutPosition(list, head, entry, entries, k);
    CutSeparate(list, head, entries, k);
    Splice(list, head, entries[..k], entries[k..]);
    assert entries[..k] + entries[k..] == entries;
  }

  lemma CutSeparate(list: Node, head: Node, entries: seq<Node>, k: nat)
    requires NoDup([head] + entries) && k <= |entries| && list != head && list !in entries
    ensures Separate(list, entries[..k], head, entries[k..])
  {
    var a, b := [list] + entries[..k], [head] + entries[k..];
    var ring := [head] + entries;
    assert forall j :: 0 <= j < |entries| ==> entries[j] == ring[j + 1];
    forall i, j | 0 <= i < |a| && 0 <= j < |b| ensures a[i] != b[j] {
      if i > 0 {
        assert a[i] == ring[i] && b[j] == if j == 0 then ring[0] else ring[k + j];
      }
    }
  }
}
