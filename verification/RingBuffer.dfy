/** The ring buffer macros, used by one caller at a time. */
module RingBuffer {

  /** `RB_NPOS`: the position after `pos`. */
  function NextPos(qsize: int, pos: int): int {
    if pos + 1 >= qsize then 0 else pos + 1
  }

  /** The positions are usable: `qsize` slots exist and both indices point at one of them. */
  predicate InRange(slots: int, qsize: int, rpos: int, wpos: int) {
    1 <= qsize <= slots && 0 <= rpos < qsize && 0 <= wpos < qsize
  }

  /** The unread values, oldest first. */
  function Unread<T>(rbq: seq<T>, qsize: int, rpos: int, wpos: int): seq<T>
    requires InRange(|rbq|, qsize, rpos, wpos)
  {
    if rpos <= wpos then rbq[rpos..wpos] else rbq[rpos..qsize] + rbq[..wpos]
  }

  /** `RB_COUNT`. */
  function CountOf(qsize: int, rpos: int, wpos: int): int {
    if rpos <= wpos then wpos - rpos else qsize - rpos + wpos
  }

  /** `RB_COUNT` is the number of unread values; full means one slot short of `qsize`. */
  lemma CountIsLength<T>(rbq: seq<T>, qsize: int, rpos: int, wpos: int)
    requires InRange(|rbq|, qsize, rpos, wpos)
    ensures |Unread(rbq, qsize, rpos, wpos)| == CountOf(qsize, rpos, wpos) < qsize
    ensures wpos == rpos <==> Unread(rbq, qsize, rpos, wpos) == []
    ensures NextPos(qsize, wpos) == rpos <==> CountOf(qsize, rpos, wpos) == qsize - 1
  {
    if wpos == rpos {
      assert rbq[rpos..wpos] == [];
    } else {
      assert |Unread(rbq, qsize, rpos, wpos)| > 0;
    }
  }

  /** Storing in the slot at `wpos` disturbs no unread value. */
  lemma StoreKeepsUnread<T>(rbq: seq<T>, qsize: int, rpos: int, wpos: int, v: T)
    requires InRange(|rbq|, qsize, rpos, wpos)
    ensures Unread(rbq[wpos := v], qsize, rpos, wpos) == Unread(rbq, qsize, rpos, wpos)
  {
  }

  /** Moving `wpos` past a stored value appends it. */
  lemma PublishAppends<T>(rbq: seq<T>, qsize: int, rpos: int, wpos: int)
    requires InRange(|rbq|, qsize, rpos, wpos) && NextPos(qsize, wpos) != rpos
    ensures Unread(rbq, qsize, rpos, NextPos(qsize, wpos)) == Unread(rbq, qsize, rpos, wpos) + [rbq[wpos]]
  {
    if rpos <= wpos && wpos + 1 >= qsize {
      assert rbq[rpos..qsize] == rbq[rpos..wpos] + [rbq[wpos]];
    } else if rpos > wpos {
      assert rbq[..wpos + 1] == rbq[..wpos] + [rbq[wpos]];
    }
  }

  /** Moving `rpos` drops the oldest value. */
  lemma ConsumeDrops<T>(rbq: seq<T>, qsize: int, rpos: int, wpos: int)
    requires InRange(|rbq|, qsize, rpos, wpos) && wpos != rpos
    ensures Unread(rbq, qsize, rpos, wpos) == [rbq[rpos]] + Unread(rbq, qsize, NextPos(qsize, rpos), wpos)
  {
    if rpos <= wpos {
      SplitFirst(rbq, rpos, wpos);
    } else {
      SplitFirst(rbq, rpos, qsize);
      Associate(rbq[rpos], rbq[rpos + 1..qsize], rbq[..wpos]);
      if rpos + 1 >= qsize {
        assert rbq[0..wpos] == rbq[..wpos] == rbq[rpos + 1..qsize] + rbq[..wpos];
      }
    }
  }

  lemma SplitFirst<T>(s: seq<T>, lo: int, hi: int)
    requires 0 <= lo < hi <= |s|
    ensures s[lo..hi] == [s[lo]] + s[lo + 1..hi]
  {
  }

  lemma Associate<T>(x: T, a: seq<T>, b: seq<T>)
    ensures ([x] + a) + b == [x] + (a + b)
  {
  }

  class Ring<T> {
    var rpos: int
    var wpos: int
    var qsize: int
    const rbq: array<T>

    ghost predicate Valid()
      reads this
    {
      InRange(rbq.Length, qsize, rpos, wpos)
    }

    ghost function Contents(): seq<T>
      requires Valid()
      reads this, rbq
    {
      Unread(rbq[..], qsize, rpos, wpos)
    }

    /** `RB_INIT_R`. */
    constructor (size: int, buff: array<T>)
      requires 1 <= size <= buff.Length
      ensures Valid() && rbq == buff && qsize == size && Contents() == []
    {
      qsize, rpos, wpos := size, 0, 0;
      rbq := buff;
    }

    /** `RB_COUNT`. */
    method Count() returns (n: int)
      requires Valid()
      ensures n == |Contents()|
    {
      CountIsLength(rbq[..], qsize, rpos, wpos);
      n := if rpos <= wpos then wpos - rpos else qsize - rpos + wpos;
    }

    /** `RB_SET`: appends unless the buffer is full. */
    method Set(val: T)
      requires Valid()
      modifies this, rbq
      ensures Valid() && qsize == old(qsize)
      ensures Contents() == if |old(Contents())| == qsize - 1 then old(Contents()) else old(Contents()) + [val]
    {
      CountIsLength(rbq[..], qsize, rpos, wpos);
      if NextPos(qsize, wpos) != rpos {
        StoreKeepsUnread(rbq[..], qsize, rpos, wpos, val);
        PublishAppends(rbq[..][wpos := val], qsize, rpos, wpos);
        rbq[wpos] := val;
        wpos := NextPos(qsize, wpos);
      }
    }

    /** `RB_GET`: removes the oldest value; `val` keeps its value when there is none. */
    method Get(val: T) returns (val': T)
      requires Valid()
      modifies this
      ensures Valid() && qsize == old(qsize)
      ensures if old(Contents()) == [] then val' == val && Contents() == []
              else old(Contents()) == [val'] + Contents()
    {
      CountIsLength(rbq[..], qsize, rpos, wpos);
      val' := val;
      if wpos != rpos {
        ConsumeDrops(rbq[..], qsize, rpos, wpos);
        val' := rbq[rpos];
        rpos := NextPos(qsize, rpos);
      }
    }

    /** `RB_SET_OR`: keeps the last `qsize - 1` values ever written. */
    method SetOver(val: T)
      requires Valid()
      modifies this, rbq
      ensures Valid() && qsize == old(qsize)
      ensures var all := old(Contents()) + [val];
              Contents() == if |all| > qsize - 1 then all[1..] else all
    {
      CountIsLength(rbq[..], qsize, rpos, wpos);
      ghost var was := Contents();
      if NextPos(qsize, wpos) == rpos {
        if wpos != rpos {
          ConsumeDrops(rbq[..], qsize, rpos, wpos);
          assert was[1..] + [val] == (was + [val])[1..];
        } else {
          assert (was + [val])[1..] == [];
        }
        rpos := NextPos(qsize, rpos);
      }
      CountIsLength(rbq[..], qsize, rpos, wpos);
      StoreKeepsUnread(rbq[..], qsize, rpos, wpos, val);
      if qsize > 1 {
        PublishAppends(rbq[..][wpos := val], qsize, rpos, wpos);
      }
      rbq[wpos] := val;
      wpos := NextPos(qsize, wpos);
    }
  }
}
