/** The delayed-execution queue: the records of `mDelayedExecutionList` (an
    absolute deadline on the wrapping clock and a callback) and the pure
    meaning of one pass of `loop()` over them: the records that are due fire
    in insertion order and leave the queue, the others stay in order. */
module DelayQueue {
  import opened Effects
  import opened Millis

  const MaxDelayedExecutionListSize: nat := 10

  datatype DelayedTask = DelayedTask(targetMillis: Millis, callback: DelayedCallback)

  predicate IsDue(task: DelayedTask, now: Millis)
  {
    Reached(now, task.targetMillis)
  }

  /** The records of `tasks` that are due at `now`, in insertion order. */
  function Due(tasks: seq<DelayedTask>, now: Millis): seq<DelayedTask>
  {
    if tasks == [] then []
    else (if IsDue(tasks[0], now) then [tasks[0]] else []) + Due(tasks[1..], now)
  }

  /** The records of `tasks` that are not yet due at `now`, in insertion order. */
  function Pending(tasks: seq<DelayedTask>, now: Millis): seq<DelayedTask>
  {
    if tasks == [] then []
    else (if IsDue(tasks[0], now) then [] else [tasks[0]]) + Pending(tasks[1..], now)
  }

  /** The callback invocations of firing `tasks` one after the other. */
  function FireEvents(tasks: seq<DelayedTask>): seq<Event>
  {
    seq(|tasks|, k requires 0 <= k < |tasks| => DelayedCallbackCalled(tasks[k].callback))
  }

  /** Firing two stretches of records one after the other is firing them
      together. */
  lemma FireEventsAppend(a: seq<DelayedTask>, b: seq<DelayedTask>)
    ensures FireEvents(a + b) == FireEvents(a) + FireEvents(b)
  {
  }

  lemma {:induction false} DueAppend(a: seq<DelayedTask>, b: seq<DelayedTask>, now: Millis)
    ensures Due(a + b, now) == Due(a, now) + Due(b, now)
    ensures Pending(a + b, now) == Pending(a, now) + Pending(b, now)
  {
    if a != [] {
      assert (a + b)[1..] == a[1..] + b;
      DueAppend(a[1..], b, now);
    } else {
      assert a + b == b;
    }
  }

  /** The in-place pass keeps the queue as the kept records of the first `k`
      original records followed by the unvisited ones; the slot right after
      the kept ones holds original record `k`. */
  lemma PassVisits(tasks: seq<DelayedTask>, k: nat, now: Millis)
    requires k < |tasks|
    ensures |Pending(tasks[..k], now)| < |Pending(tasks[..k], now) + tasks[k..]|
    ensures (Pending(tasks[..k], now) + tasks[k..])[|Pending(tasks[..k], now)|] == tasks[k]
  {
  }

  /** Firing the visited record removes exactly its slot. */
  lemma PassFires(tasks: seq<DelayedTask>, k: nat, now: Millis)
    requires k < |tasks| && IsDue(tasks[k], now)
    ensures var queue, i := Pending(tasks[..k], now) + tasks[k..], |Pending(tasks[..k], now)|;
      Pending(tasks[..k + 1], now) + tasks[k + 1..] == queue[..i] + queue[i + 1..]
    ensures FireEvents(Due(tasks[..k + 1], now)) ==
      FireEvents(Due(tasks[..k], now)) + [DelayedCallbackCalled(tasks[k].callback)]
  {
    assert tasks[..k + 1] == tasks[..k] + [tasks[k]];
    DueAppend(tasks[..k], [tasks[k]], now);
    assert tasks[k..] == [tasks[k]] + tasks[k + 1..];
    assert Due(tasks[..k + 1], now) == Due(tasks[..k], now) + [tasks[k]];
    FireEventsAppend(Due(tasks[..k], now), [tasks[k]]);
  }

  /** Keeping the visited record moves the boundary one slot on. */
  lemma PassKeeps(tasks: seq<DelayedTask>, k: nat, now: Millis)
    requires k < |tasks| && !IsDue(tasks[k], now)
    ensures Pending(tasks[..k + 1], now) + tasks[k + 1..] == Pending(tasks[..k], now) + tasks[k..]
    ensures |Pending(tasks[..k + 1], now)| == |Pending(tasks[..k], now)| + 1
    ensures FireEvents(Due(tasks[..k + 1], now)) == FireEvents(Due(tasks[..k], now))
  {
    assert tasks[..k + 1] == tasks[..k] + [tasks[k]];
    DueAppend(tasks[..k], [tasks[k]], now);
    assert tasks[k..] == [tasks[k]] + tasks[k + 1..];
  }

  /** One pass splits the queue: every due record fires, every other record
      stays, nothing is lost or duplicated, and each part is exactly the
      records with (or without) a reached deadline. */
  lemma {:induction false} DuePendingPartition(tasks: seq<DelayedTask>, now: Millis)
    ensures multiset(Due(tasks, now)) + multiset(Pending(tasks, now)) == multiset(tasks)
    ensures forall t :: t in Due(tasks, now) <==> t in tasks && IsDue(t, now)
    ensures forall t :: t in Pending(tasks, now) <==> t in tasks && !IsDue(t, now)
  {
    if tasks != [] {
      DuePendingPartition(tasks[1..], now);
      assert tasks == [tasks[0]] + tasks[1..];
    }
  }

  /** When every deadline has been reached, one pass fires all records in
      their insertion order (not deadline order) and empties the queue. */
  lemma {:induction false} AllDueFireInInsertionOrder(tasks: seq<DelayedTask>, now: Millis)
    requires forall k :: 0 <= k < |tasks| ==> IsDue(tasks[k], now)
    ensures Due(tasks, now) == tasks
    ensures Pending(tasks, now) == []
  {
    if tasks != [] {
      AllDueFireInInsertionOrder(tasks[1..], now);
    }
  }

  /** A record scheduled with delay `d` (at most half a wrap) at time `t` is
      still waiting at every `p < d` milliseconds later and is due at every
      `p >= d` up to half a wrap after its deadline, also across the clock
      wrap. In particular a delay of 0 is due at the very next pass. */
  lemma DueExactlyAfterDelay(t: Millis, d: int, p: int, callback: DelayedCallback)
    requires 0 <= d < HalfModulus
    requires 0 <= p < d + HalfModulus
    ensures IsDue(DelayedTask(Add(t, d), callback), Add(t, p)) <==> d <= p
  {
    ReachedIffDelayPassed(t, d, p);
  }
}
