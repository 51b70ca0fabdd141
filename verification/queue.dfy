/** The ring queue: a bounded first-in first-out sequence in a fixed array. */
module Queues {
  const QUEUESIZE := 1000

  // ---------- The ring as a value ----------

  /** count cells from `first`, wrapping at QUEUESIZE. */
  ghost function Ring(q: seq<int>, first: int, count: int): (s: seq<int>)
    requires |q| == QUEUESIZE + 1 && 0 <= first < QUEUESIZE && 0 <= count <= QUEUESIZE
    ensures |s| == count
  {
    if first + count <= QUEUESIZE then q[first..first + count]
    else q[first..QUEUESIZE] + q[..first + count - QUEUESIZE]
  }

  ghost function End(first: int, count: int): int {
    if first + count < QUEUESIZE then first + count else first + count - QUEUESIZE
  }

  /** Writing behind the last cell appends. */
  lemma RingPush(q: seq<int>, first: int, count: int, x: int)
    requires |q| == QUEUESIZE + 1 && 0 <= first < QUEUESIZE && 0 <= count < QUEUESIZE
    ensures 0 <= End(first, count) < QUEUESIZE
    ensures Ring(q[End(first, count) := x], first, count + 1) == Ring(q, first, count) + [x]
  {
    var q' := q[End(first, count) := x];
    if first + count + 1 <= QUEUESIZE {
      assert q'[first..first + count + 1] == q[first..first + count] + [x];
    } else if first + count == QUEUESIZE {
      assert q'[first..QUEUESIZE] == q[first..QUEUESIZE] && q'[..1] == [x];
    } else {
      var e := first + count - QUEUESIZE;
      assert q'[first..QUEUESIZE] == q[first..QUEUESIZE] && q'[..e + 1] == q[..e] + [x];
    }
  }

  /** Stepping past the first cell removes it. */
  lemma RingPop(q: seq<int>, first: int, count: int)
    requires |q| == QUEUESIZE + 1 && 0 <= first < QUEUESIZE && 0 < count <= QUEUESIZE
    ensures Ring(q, first, count)[0] == q[first]
    ensures Ring(q, End(first, 1), count - 1) == Ring(q, first, count)[1..]
  {
    if first + count <= QUEUESIZE {
      assert q[first..first + count][1..] == q[first + 1..first + count];
      assert first + 1 == QUEUESIZE ==> count == 1;
    } else {
      var tail := q[..first + count - QUEUESIZE];
      assert (q[first..QUEUESIZE] + tail)[1..] == q[first..QUEUESIZE][1..] + tail;
      assert q[first..QUEUESIZE][1..] == q[first + 1..QUEUESIZE];
    }
  }

  class Queue {
    const q: array<int>
    var first: int
    var last: int
    var count: int

    ghost predicate Valid()
      reads this, q
    {
      && q.Length == QUEUESIZE + 1
      && 0 <= first < QUEUESIZE && 0 <= count <= QUEUESIZE
      && last == if count == 0 && first == 0 then QUEUESIZE - 1
                 else if first + count - 1 < QUEUESIZE then first + count - 1 else first + count - 1 - QUEUESIZE
    }

    /** The queued elements, oldest first. */
    ghost function Contents(): (s: seq<int>)
      requires Valid()
      reads this, q
      ensures |s| == count
    {
      Ring(q[..], first, count)
    }

    constructor ()
      ensures Valid() && fresh(q) && Contents() == []
    {
      q := new int[QUEUESIZE + 1];
      first, last, count := 0, QUEUESIZE - 1, 0;
    }

    /** Appends x; a full queue only prints a warning and stays as it is. */
    method Enqueue(x: int)
      requires Valid()
      modifies this, q
      ensures Valid()
      ensures Contents() == if |old(Contents())| < QUEUESIZE then old(Contents()) + [x] else old(Contents())
    {
      if count < QUEUESIZE {
        hide Ring;
        RingPush(q[..], first, count, x);
        ghost var cells := q[..];
        last := (last + 1) % QUEUESIZE;
        q[last] := x;
        count := count + 1;
        assert q[..] == cells[last := x];
      }
    }

    /** Removes the oldest element; on an empty queue the result is not determined. */
    method Dequeue() returns (x: int)
      requires Valid()
      modifies this
      ensures Valid()
      ensures old(Contents()) != [] ==> x == old(Contents())[0] && Contents() == old(Contents())[1..]
      ensures old(Contents()) == [] ==> Contents() == []
    {
      if count <= 0 {
        x := *;
      } else {
        hide Ring;
        RingPop(q[..], first, count);
        x := q[first];
        first := (first + 1) % QUEUESIZE;
        count := count - 1;
      }
    }

    method Head() returns (x: int)
      requires Valid()
      ensures Contents() != [] ==> x == Contents()[0]
    {
      x := q[first];
      if count > 0 { RingPop(q[..], first, count); }
    }

    method IsEmpty() returns (empty: bool)
      requires Valid()
      ensures empty <==> Contents() == []
    {
      empty := count <= 0;
    }
  }
}
