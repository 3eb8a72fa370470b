/**
 * What one exchange sees of the serial line. The buffer is cleared, the frame
 * is written, and then the buffer is checked once before the first sleep and
 * once after every sleep of `WaitDelay` milliseconds. The asynchronous arrival
 * callback is replaced by a script: chunk t of an `Arrivals` value holds the
 * bytes appended to the buffer just before check t (bytes keep arriving in
 * order; nothing arrives after the script ends).
 */
module Polling {
  import opened Bytes
  import opened Codec

  /** Milliseconds slept between two checks of the reply buffer. */
  const WaitDelay: nat := 30

  /** What every command in the driver waits for a reply, in milliseconds. */
  const DefaultWaitMs: nat := 1000

  type Arrivals = seq<seq<byte>>

  /** The bytes appended just before check t. */
  function Tick(arrivals: Arrivals, t: nat): seq<byte>
  {
    if t < |arrivals| then arrivals[t] else []
  }

  /** The buffer at check t: everything delivered since it was cleared. */
  function Received(arrivals: Arrivals, t: nat): seq<byte>
  {
    if t == 0 then Tick(arrivals, 0) else Received(arrivals, t - 1) + Tick(arrivals, t)
  }

  /** How many sleeps the poll loop may take: `waitTimeMs / WaitDelay`. */
  function PollBudget(waitTimeMs: nat): nat
  {
    waitTimeMs / WaitDelay
  }

  /**
   * The check at which the poll loop stops, searching from check t: the first
   * check whose buffer length equals `byteCount`, or the last check allowed.
   */
  function StopTick(arrivals: Arrivals, byteCount: int, budget: nat, t: nat): nat
    requires t <= budget
    decreases budget - t
  {
    if |Received(arrivals, t)| == byteCount || t == budget then t
    else StopTick(arrivals, byteCount, budget, t + 1)
  }

  /** The buffer when the exchange returns. */
  function Reply(arrivals: Arrivals, byteCount: int, budget: nat): seq<byte>
  {
    Received(arrivals, StopTick(arrivals, byteCount, budget, 0))
  }

  /** An exchange succeeds exactly when the final buffer length equals the expected count. */
  predicate Succeeds(arrivals: Arrivals, byteCount: int, budget: nat)
  {
    |Reply(arrivals, byteCount, budget)| == byteCount
  }

  /** With the default wait the loop sleeps at most 33 times. */
  lemma DefaultBudget()
    ensures PollBudget(DefaultWaitMs) == 33
  {
  }

  /**
   * The loop stops at the first matching check at or after t, never later than
   * the budget; when it stops on the budget no check before matched.
   */
  lemma {:induction false} StopTickFirst(arrivals: Arrivals, byteCount: int, budget: nat, t: nat)
    requires t <= budget
    decreases budget - t
    ensures var s := StopTick(arrivals, byteCount, budget, t);
      && t <= s <= budget
      && (|Received(arrivals, s)| == byteCount || s == budget)
      && forall u :: t <= u < s ==> |Received(arrivals, u)| != byteCount
  {
    if |Received(arrivals, t)| == byteCount || t == budget {
    } else {
      StopTickFirst(arrivals, byteCount, budget, t + 1);
    }
  }

  /** An exchange succeeds iff the buffer length matches at some check within the budget. */
  lemma SucceedsIff(arrivals: Arrivals, byteCount: int, budget: nat)
    ensures Succeeds(arrivals, byteCount, budget)
      <==> exists t :: 0 <= t <= budget && |Received(arrivals, t)| == byteCount
  {
    StopTickFirst(arrivals, byteCount, budget, 0);
    var s := StopTick(arrivals, byteCount, budget, 0);
    if |Received(arrivals, s)| == byteCount {
      assert 0 <= s <= budget;
      assert Succeeds(arrivals, byteCount, budget);
      assert exists t :: 0 <= t <= budget && |Received(arrivals, t)| == byteCount;
    } else {
      // the loop ran out of budget: no check matched
      forall t | 0 <= t <= budget
        ensures |Received(arrivals, t)| != byteCount
      {
        assert t < s || t == s;
      }
    }
  }

  /** Bytes only accumulate: an earlier buffer is a prefix of a later one. */
  lemma {:induction false} ReceivedGrows(arrivals: Arrivals, t: nat, u: nat)
    requires t <= u
    ensures Received(arrivals, t) <= Received(arrivals, u)
  {
    if t < u {
      ReceivedGrows(arrivals, t, u - 1);
    }
  }

  /**
   * An over-long reply is a failure, not a truncated success: once more bytes
   * than expected are in the buffer at the first check, no later check can match.
   */
  lemma OverlongReplyFails(arrivals: Arrivals, byteCount: int, budget: nat)
    requires |Received(arrivals, 0)| > byteCount
    ensures !Succeeds(arrivals, byteCount, budget)
  {
    SucceedsIff(arrivals, byteCount, budget);
    forall t | 0 <= t <= budget
      ensures |Received(arrivals, t)| != byteCount
    {
      ReceivedGrows(arrivals, 0, t);
    }
  }

  /** A reply that is complete before the first check is returned as it is. */
  lemma ImmediateReply(arrivals: Arrivals, byteCount: int, budget: nat)
    requires |arrivals| > 0 && |arrivals[0]| == byteCount
    ensures Succeeds(arrivals, byteCount, budget) && Reply(arrivals, byteCount, budget) == arrivals[0]
  {
  }
}
