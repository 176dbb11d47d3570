/**
 * The server work queue of the mod entry class (GotMod.java): tasks are
 * queued with a tick count, every server tick decrements each count by
 * one, and those tasks whose count has reached zero or below run in queue
 * order and leave the queue. A task's action is an opaque id; running it
 * is reported as the sequence of ids, in order.
 */
module WorkQueue {
  import opened JavaMath

  /** A queued `Tuple<Runnable, Integer>`: the action and its remaining ticks, which the tick decrements in place. */
  class Task {
    const action: int
    var ticks: int

    constructor (action: int, ticks: int)
      ensures this.action == action && this.ticks == ticks
    {
      this.action := action;
      this.ticks := ticks;
    }
  }

  /** `t.getB() - 1` on a boxed Java int: Integer.MIN_VALUE wraps to Integer.MAX_VALUE. */
  function Decrement(n: int): (r: int)
    requires IsInt32(n)
    ensures IsInt32(r)
    ensures n > IntMin ==> r == n - 1
    ensures n == IntMin ==> r == IntMax
  {
    Wrap32(n - 1)
  }

  /** Those tasks of q whose count is positive, in queue order: those a tick keeps. */
  function Kept(q: seq<Task>): (k: seq<Task>)
    reads q
    ensures |k| <= |q|
  {
    if q == [] then []
    else
      var last := q[|q| - 1];
      Kept(q[..|q| - 1]) + (if last.ticks > 0 then [last] else [])
  }

  /** Those tasks of q whose count is zero or below, in queue order: those a tick runs. */
  function Fired(q: seq<Task>): (f: seq<Task>)
    reads q
    ensures |f| <= |q|
  {
    if q == [] then []
    else
      var last := q[|q| - 1];
      Fired(q[..|q| - 1]) + (if last.ticks <= 0 then [last] else [])
  }

  /** The action ids of a sequence of tasks. */
  function Actions(q: seq<Task>): (a: seq<int>)
    reads q
    ensures |a| == |q|
    ensures forall i :: 0 <= i < |q| ==> a[i] == q[i].action
  {
    if q == [] then [] else Actions(q[..|q| - 1]) + [q[|q| - 1].action]
  }

  /** The kept tasks are exactly the queued tasks with a positive count. */
  lemma {:induction false} KeptMembers(q: seq<Task>, t: Task)
    ensures t in Kept(q) <==> t in q && t.ticks > 0
  {
    if q != [] {
      var n := |q| - 1;
      KeptMembers(q[..n], t);
      assert q == q[..n] + [q[n]];
    }
  }

  /** The fired tasks are exactly the queued tasks with a count of zero or below. */
  lemma {:induction false} FiredMembers(q: seq<Task>, t: Task)
    ensures t in Fired(q) <==> t in q && t.ticks <= 0
  {
    if q != [] {
      var n := |q| - 1;
      FiredMembers(q[..n], t);
      assert q == q[..n] + [q[n]];
    }
  }

  /** A tick splits the queue: every task either stays or runs, never both, and none is lost. */
  lemma {:induction false} KeptAndFiredPartition(q: seq<Task>)
    ensures multiset(Kept(q)) + multiset(Fired(q)) == multiset(q)
  {
    if q != [] {
      var n := |q| - 1;
      var p := q[..n];
      KeptAndFiredPartition(p);
      assert q == p + [q[n]];
      assert multiset(q) == multiset(p) + multiset{q[n]};
      if q[n].ticks > 0 {
        assert Kept(q) == Kept(p) + [q[n]];
        assert Fired(q) == Fired(p);
      } else {
        assert Kept(q) == Kept(p);
        assert Fired(q) == Fired(p) + [q[n]];
      }
    }
  }

  /** Every task is a distinct object (each `queueServerWork` creates a new tuple). */
  predicate Distinct(q: seq<Task>) {
    forall i, j :: 0 <= i < j < |q| ==> q[i] != q[j]
  }

  /** Keeping part of a queue of distinct tasks leaves them distinct. */
  lemma {:induction false} KeptDistinct(q: seq<Task>)
    requires Distinct(q)
    ensures Distinct(Kept(q))
  {
    if q != [] {
      var n := |q| - 1;
      assert Distinct(q[..n]);
      KeptDistinct(q[..n]);
      KeptMembers(q[..n], q[n]);
    }
  }

  /** The static `WORK_QUEUE`. */
  class ServerWorkQueue {
    var queue: seq<Task>

    /** Queued tasks are distinct objects and every count is a Java int. */
    ghost predicate Valid()
      reads this, queue
    {
      && Distinct(queue)
      && forall k :: 0 <= k < |queue| ==> IsInt32(queue[k].ticks)
    }

    constructor ()
      ensures Valid() && queue == []
    {
      queue := [];
    }

    /** `queueServerWork`: appends a new task with the given action and count. */
    method QueueServerWork(ticks: int, action: int)
      requires Valid() && IsInt32(ticks)
      modifies this
      ensures Valid()
      ensures |queue| == |old(queue)| + 1 && queue[..|old(queue)|] == old(queue)
      ensures fresh(queue[|queue| - 1])
      ensures queue[|queue| - 1].action == action && queue[|queue| - 1].ticks == ticks
    {
      var t := new Task(action, ticks);
      queue := queue + [t];
      assert queue[..|old(queue)|] == old(queue);
    }

    /**
     * `onServerTick`: decrements every count by one, in place, then runs
     * those tasks whose count is now zero or below, in queue order, and
     * removes exactly those; the others stay, in their order.
     */
    method OnServerTick() returns (ran: seq<int>)
      requires Valid()
      modifies this, queue
      ensures Valid()
      ensures forall i :: 0 <= i < |old(queue)| ==> old(queue)[i].ticks == Decrement(old(queue[i].ticks))
      ensures queue == Kept(old(queue))
      ensures ran == Actions(Fired(old(queue)))
      ensures forall i :: 0 <= i < |queue| ==> queue[i].ticks > 0
    {
      var ready := DecrementAll(queue);
      ran := Actions(ready);
      queue := RemoveAll(queue, ready);
      forall i | 0 <= i < |queue|
        ensures queue[i].ticks > 0 && IsInt32(queue[i].ticks)
      {
        KeptMembers(old(queue), queue[i]);
        var j :| 0 <= j < |old(queue)| && old(queue)[j] == queue[i];
      }
      assert Valid() by {
        KeptDistinct(old(queue));
      }
    }
  }

  /**
   * The first loop of `onServerTick`: decrements each count in place and
   * collects, in queue order, those tasks whose count is now zero or below.
   */
  method DecrementAll(q: seq<Task>) returns (ready: seq<Task>)
    requires Distinct(q)
    requires forall k :: 0 <= k < |q| ==> IsInt32(q[k].ticks)
    modifies q
    ensures forall i :: 0 <= i < |q| ==> q[i].ticks == Decrement(old(q[i].ticks))
    ensures ready == Fired(q)
  {
    ready := [];
    for i := 0 to |q|
      invariant forall k :: 0 <= k < i ==> q[k].ticks == Decrement(old(q[k].ticks))
      invariant forall k :: i <= k < |q| ==> q[k].ticks == old(q[k].ticks)
      invariant ready == Fired(q[..i])
    {
      var t := q[i];
      assert t !in q[..i];
      t.ticks := Decrement(t.ticks);
      assert q[..i + 1][..i] == q[..i];
      if t.ticks <= 0 {
        ready := ready + [t];
      }
    }
    assert q[..|q|] == q;
  }

  /**
   * `removeAll(ready)` with identity equality (tuples do not override
   * `equals`): those tasks of q not in `ready`, in order. When `ready` is
   * the fired part of q, that is the kept part.
   */
  method RemoveAll(q: seq<Task>, ready: seq<Task>) returns (rest: seq<Task>)
    requires ready == Fired(q)
    ensures rest == Kept(q)
  {
    rest := [];
    for i := 0 to |q|
      invariant rest == Kept(q[..i])
    {
      assert q[..i + 1] == q[..i] + [q[i]];
      assert q[..i + 1][..i] == q[..i];
      FiredMembers(q, q[i]);
      if q[i] !in ready {
        rest := rest + [q[i]];
      }
    }
    assert q[..|q|] == q;
  }

  /** The count of a task queued with n after k ticks, each a Java int decrement. */
  function Countdown(n: int, k: nat): (r: int)
    requires IsInt32(n)
    ensures IsInt32(r)
  {
    if k == 0 then n else Decrement(Countdown(n, k - 1))
  }

  /** Without wrap-around, k ticks subtract k. */
  lemma {:induction false} CountdownValue(n: int, k: nat)
    requires IsInt32(n) && n - k >= IntMin
    ensures Countdown(n, k) == n - k
  {
    if k > 0 {
      CountdownValue(n, k - 1);
    }
  }

  /**
   * A task queued with n >= 1 stays for ticks 1 to n - 1 and runs on tick
   * n; one queued with IntMin < n <= 0 runs on the first tick. Since a
   * tick removes every task it runs, each runs exactly once.
   */
  lemma RunsOnSchedule(n: int, k: nat)
    requires IsInt32(n) && n > IntMin && 1 <= k <= RunTick(n)
    ensures Countdown(n, k) <= 0 <==> k == RunTick(n)
  {
    CountdownValue(n, k);
  }

  /** The tick on which a task queued with n runs: n itself when positive, else the next one. */
  function RunTick(n: int): nat {
    if n >= 1 then n else 1
  }

  /** A task queued with Integer.MIN_VALUE does not run on the first tick: its count wraps to Integer.MAX_VALUE. */
  lemma MinValueWraps()
    ensures Countdown(IntMin, 1) == IntMax
    ensures Countdown(IntMin, 1) > 0
  {
  }
}
