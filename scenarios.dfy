/** Client runs of the timed queue, each a sequence of atomic steps as a
    producer thread and the consumer thread would interleave them. Every
    result here follows from the contracts of `TimedQueue` alone. Times are
    in seconds. */
module TimedQueueScenarios {
  import opened Wrappers
  import opened Entries
  import opened TimedQueueModel

  /** Delay 2, `A` queued at 0: a pass at 2 does not fire (the comparison
      is strict), a pass at 3 delivers `(A, x)`, and the insertion into the
      empty queue signals the consumer. */
  method ExpiresAfterDelay() returns (signal: bool, atTwo: Option<(string, char)>, atThree: Option<(string, char)>)
    ensures signal
    ensures atTwo == None && atThree == Some(("A", 'x'))
  {
    var q := new TimedQueue<string, char>(2);
    signal := q.ReQueue("A", 'x', 0);
    atTwo := q.TryConsume(2);
    atThree := q.TryConsume(3);
  }

  /** Delay 2, `A` queued at 0 with `x` and again at 1 with `y`: the stale
      entry never surfaces, `(A, y)` is delivered once 3 has passed, and
      only the first insertion signals. */
  method RefreshReplaces()
    returns (first: bool, second: bool, atThree: Option<(string, char)>, atFour: Option<(string, char)>)
    ensures first && !second
    ensures atThree == None && atFour == Some(("A", 'y'))
  {
    var q := new TimedQueue<string, char>(2);
    first := q.ReQueue("A", 'x', 0);
    second := q.ReQueue("A", 'y', 1);
    atThree := q.TryConsume(3);
    atFour := q.TryConsume(4);
  }

  /** `A` then `B` with the same delay: `A` is delivered first. */
  method DeliveredInInsertionOrder() returns (first: Option<(string, char)>, second: Option<(string, char)>)
    ensures first == Some(("A", 'x')) && second == Some(("B", 'y'))
  {
    var q := new TimedQueue<string, char>(2);
    var s := q.ReQueue("A", 'x', 0);
    s := q.ReQueue("B", 'y', 1);
    first := q.TryConsume(5);
    second := q.TryConsume(5);
  }

  /** A removed key is never delivered: after `A` is removed, the pass
      delivers `B`, and the queue is then empty again. */
  method RemovedNeverDelivered() returns (r: Option<(string, char)>, w: WaitOutcome)
    ensures r == Some(("B", 'y')) && w == Blocked
  {
    var q := new TimedQueue<string, char>(2);
    var s := q.ReQueue("A", 'x', 0);
    s := q.ReQueue("B", 'y', 0);
    q.Remove("A");
    r := q.TryConsume(10);
    w := q.WaitStep();
  }

  /** On an empty queue the consumer blocks until `notify`, after which it
      returns with nothing. */
  method ShutdownOnEmpty() returns (before: WaitOutcome, after: WaitOutcome)
    ensures before == Blocked && after == Shutdown
  {
    var q := new TimedQueue<string, char>(2);
    before := q.WaitStep();
    q.Notify();
    after := q.WaitStep();
  }

  /** The break flag does not cut a non-empty queue short: the consumer
      goes on to the expiry check. */
  method ShutdownWaitsForEntries() returns (w: WaitOutcome, r: Option<(string, char)>)
    ensures w == Ready && r == Some(("A", 'x'))
  {
    var q := new TimedQueue<string, char>(2);
    var s := q.ReQueue("A", 'x', 0);
    q.Notify();
    w := q.WaitStep();
    r := q.TryConsume(3);
  }

  /** The consumer sees a non-empty list and drops the lock; a producer
      then removes the only entry before the consumer re-locks for the
      expiry check. The list is empty at that check, so the source's
      `m_list.back()` has no element to read (`TryConsumeAsWritten` cannot
      be called here), while the checked pass reports nothing. */
  method RemoveBetweenWaitAndConsume() returns (w: WaitOutcome, emptyAtCheck: bool, r: Option<(string, char)>)
    ensures w == Ready && emptyAtCheck && r == None
  {
    var q := new TimedQueue<string, char>(2);
    var s := q.ReQueue("A", 'x', 0);
    w := q.WaitStep();
    q.Remove("A");
    emptyAtCheck := q.list == [];
    r := q.TryConsume(3);
  }

  /** Delay 2, `A` queued at 0 and `B` at 1. The consumer's pass at 2
      sees `A` not yet due and sleeps; meanwhile a producer removes `A`. The
      pass at 3 then looks at `B`, due at 3, and sleeps again; the pass at
      4 delivers `(B, y)`, not the element the consumer first waited on. */
  method BackRemovedDuringSleep()
    returns (atTwo: Option<(string, char)>, atThree: Option<(string, char)>, atFour: Option<(string, char)>)
    ensures atTwo == None && atThree == None && atFour == Some(("B", 'y'))
  {
    var q := new TimedQueue<string, char>(2);
    var s := q.ReQueue("A", 'x', 0);
    s := q.ReQueue("B", 'y', 1);
    atTwo := q.TryConsume(2);
    q.Remove("A");
    atThree := q.TryConsume(3);
    atFour := q.TryConsume(4);
  }

  /** The consumer's retry loop with clock readings 1, 2, 3 and 5 and `A`
      expiring at 2: the first two passes find nothing strictly past the
      expiry time, the third delivers `(A, x)`, and the last reading is
      never taken. */
  method RetriesUntilPast() returns (r: Option<(string, char)>, passes: nat, w: WaitOutcome)
    ensures r == Some(("A", 'x')) && passes == 3 && w == Blocked
  {
    var q := new TimedQueue<string, char>(2);
    var s := q.ReQueue("A", 'x', 0);
    var readings: seq<nat> := [1, 2, 3, 5];
    assert Last(q.list).time == 2 && readings[2] > 2;
    r, passes := q.ConsumeWhenExpired(readings);
    assert passes - 1 != 0 && passes - 1 != 1 && passes - 1 != 3;
    w := q.WaitStep();
  }
}
