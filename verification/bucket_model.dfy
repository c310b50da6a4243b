/**
 * The numeric bucket state of a token-bucket rate limiter as a value: a
 * sequence of longs where slot 0 is the timestamp (nanoseconds) of the last
 * refill and slot `i + 1` is the current token count of bandwidth `i`.
 *
 * The bandwidths themselves are opaque (type parameter `B`); what the state
 * needs from them — the refill growth function, the limited/guaranteed
 * classification and the per-bandwidth delay — is passed in as functions.
 */
module BucketModel {
  import opened Int64
  import opened Folds

  /** Position of the last-refill timestamp in the state. */
  const TIMESTAMP_SLOT: nat := 0

  /** Slot holding the token count of bandwidth `i`. */
  function SizeSlot(i: nat): nat {
    i + 1
  }

  /** Every bandwidth slot holds a non-negative token count. */
  predicate TokensNonNegative(s: seq<Long>) {
    forall k :: 1 <= k < |s| ==> s[k] >= 0
  }

  // ---------------------------------------------------------------------------
  // Slot accessors

  /** Reads slot `offset`: the refill timestamp at slot 0, otherwise the
      token count of bandwidth `offset - 1`. */
  function GetLong(s: seq<Long>, offset: int): (v: Long)
    requires 0 <= offset < |s|
    ensures offset >= 1 ==> v == Sizes(s, |s| - 1)[offset - 1]
  {
    s[offset]
  }

  /** Writes `value` into slot `offset`; `partialStateIndex` is not used by the
      state itself. */
  function SetLong(s: seq<Long>, partialStateIndex: int, offset: int, value: Long): (r: seq<Long>)
    requires 0 <= offset < |s|
    ensures |r| == |s|
    ensures GetLong(r, offset) == value
    ensures forall k :: 0 <= k < |s| && k != offset ==> r[k] == s[k]
  {
    s[offset := value]
  }

  /** The refill timestamp: what `getLong` reads at the timestamp slot. */
  function LastRefillTime(s: seq<Long>): (t: Long)
    requires |s| >= 1
    ensures t == GetLong(s, TIMESTAMP_SLOT)
  {
    s[TIMESTAMP_SLOT]
  }

  function SetLastRefillTime(s: seq<Long>, currentTimeNanos: Long): (r: seq<Long>)
    requires |s| >= 1
    ensures |r| == |s|
    ensures LastRefillTime(r) == currentTimeNanos
    ensures forall k :: 1 <= k < |s| ==> r[k] == s[k]
  {
    s[TIMESTAMP_SLOT := currentTimeNanos]
  }

  /** A write followed by a read of the same slot returns the value written;
      a read of any other slot sees the old value. */
  lemma GetAfterSetLong(s: seq<Long>, partialStateIndex: int, offset: int, value: Long, k: int)
    requires 0 <= offset < |s| && 0 <= k < |s|
    ensures GetLong(SetLong(s, partialStateIndex, offset, value), k) ==
            if k == offset then value else GetLong(s, k)
  {
  }

  /** Setting the timestamp twice keeps only the second; the token slots are
      never touched. */
  lemma SetLastRefillTimeOverwrites(s: seq<Long>, t1: Long, t2: Long)
    requires |s| >= 1
    ensures SetLastRefillTime(SetLastRefillTime(s, t1), t2) == SetLastRefillTime(s, t2)
    ensures SetLastRefillTime(s, LastRefillTime(s)) == s
  {
  }

  // ---------------------------------------------------------------------------
  // Consume

  /** One bandwidth slot after consuming: Java's `Math.max(0, size - toConsume)`
      with `long` subtraction. */
  function ConsumedSlot(size: Long, toConsume: Long): (r: Long)
    ensures r >= 0
    ensures InRange(size - toConsume) ==> r == Max(0, size - toConsume)
  {
    Max(0, Sub(size, toConsume))
  }

  /** The state after `consume(toConsume)`: every bandwidth slot is debited and
      clamped at zero; the timestamp is left alone. */
  function Consume(s: seq<Long>, toConsume: Long): (r: seq<Long>)
    ensures |r| == |s|
    ensures |s| >= 1 ==> LastRefillTime(r) == LastRefillTime(s)
    ensures TokensNonNegative(r)
    ensures forall k :: 1 <= k < |s| && InRange(s[k] - toConsume) ==> r[k] == Max(0, s[k] - toConsume)
  {
    seq(|s|, k requires 0 <= k < |s| => if k == TIMESTAMP_SLOT then s[k] else ConsumedSlot(s[k], toConsume))
  }

  /** For a non-negative amount on non-negative slots no subtraction wraps, so
      every slot becomes exactly `max(0, old - toConsume)` and never grows. */
  lemma ConsumeDebitsEverySlot(s: seq<Long>, toConsume: Long)
    requires toConsume >= 0 && TokensNonNegative(s)
    ensures forall k :: 1 <= k < |s| ==>
              Consume(s, toConsume)[k] == Max(0, s[k] - toConsume) &&
              Consume(s, toConsume)[k] <= s[k]
  {
    forall k | 1 <= k < |s|
      ensures Consume(s, toConsume)[k] == Max(0, s[k] - toConsume)
    {
      SubOfNonNegativesIsExact(s[k], toConsume);
    }
  }

  /** Consuming nothing from a state with non-negative slots changes nothing. */
  lemma ConsumeZeroIsNoop(s: seq<Long>)
    requires TokensNonNegative(s)
    ensures Consume(s, 0) == s
  {
  }

  /** Two consumptions of non-negative amounts from a non-negative state
      amount to one consumption of their sum. */
  lemma ConsumeTwiceIsConsumeSum(s: seq<Long>, a: Long, b: Long)
    requires a >= 0 && b >= 0 && InRange(a + b) && TokensNonNegative(s)
    ensures Consume(Consume(s, a), b) == Consume(s, a + b)
  {
  }

  // ---------------------------------------------------------------------------
  // Refill

  /** What the source demands before a refill: the timestamp slot exists and,
      unless the refill is a no-op, every bandwidth has a slot. */
  predicate CanRefill<B>(s: seq<Long>, bandwidths: seq<B>, currentTimeNanos: Long) {
    |s| >= 1 && (s[TIMESTAMP_SLOT] != currentTimeNanos ==> |bandwidths| < |s|)
  }

  /** The state after `refill(bandwidths, currentTimeNanos)`. `newSize(b, size,
      last, now)` is the bandwidth's growth function `getNewSize`. */
  function Refill<B>(s: seq<Long>, bandwidths: seq<B>, newSize: (B, Long, Long, Long) -> Long,
                     currentTimeNanos: Long): (r: seq<Long>)
    requires CanRefill(s, bandwidths, currentTimeNanos)
    ensures |r| == |s|
    ensures LastRefillTime(r) == currentTimeNanos
  {
    if LastRefillTime(s) == currentTimeNanos then s
    else
      var last := LastRefillTime(s);
      seq(|s|, k requires 0 <= k < |s| =>
        if k == TIMESTAMP_SLOT then currentTimeNanos
        else if k <= |bandwidths| then newSize(bandwidths[k - 1], s[k], last, currentTimeNanos)
        else s[k])
  }

  /** A refill to a new timestamp grows bandwidth `i` from its old size over
      the interval from the old timestamp to the new one, and leaves slots
      beyond the bandwidths untouched. */
  lemma RefillAdvancesEveryBandwidth<B>(s: seq<Long>, bandwidths: seq<B>,
                                        newSize: (B, Long, Long, Long) -> Long, now: Long)
    requires CanRefill(s, bandwidths, now) && LastRefillTime(s) != now
    ensures forall i :: 0 <= i < |bandwidths| ==>
              Refill(s, bandwidths, newSize, now)[SizeSlot(i)] ==
              newSize(bandwidths[i], s[SizeSlot(i)], LastRefillTime(s), now)
    ensures forall k :: |bandwidths| < k < |s| ==> Refill(s, bandwidths, newSize, now)[k] == s[k]
  {
    var r := Refill(s, bandwidths, newSize, now);
    forall i | 0 <= i < |bandwidths|
      ensures r[SizeSlot(i)] == newSize(bandwidths[i], s[SizeSlot(i)], LastRefillTime(s), now)
    {
    }
  }

  /** A refill to the timestamp already recorded changes nothing ... */
  lemma RefillAtSameTimeIsNoop<B>(s: seq<Long>, bandwidths: seq<B>, newSize: (B, Long, Long, Long) -> Long)
    requires |s| >= 1
    ensures Refill(s, bandwidths, newSize, LastRefillTime(s)) == s
  {
  }

  /** ... hence refilling twice to the same timestamp equals refilling once. */
  lemma RefillIdempotent<B>(s: seq<Long>, bandwidths: seq<B>, newSize: (B, Long, Long, Long) -> Long, now: Long)
    requires CanRefill(s, bandwidths, now)
    ensures Refill(Refill(s, bandwidths, newSize, now), bandwidths, newSize, now) ==
            Refill(s, bandwidths, newSize, now)
  {
  }

  /** If every bandwidth's growth function never exceeds that bandwidth's
      capacity, no refilled bandwidth slot exceeds its capacity: the clamp is
      the growth function's, the refill only routes values. */
  lemma RefillRespectsCapacity<B>(s: seq<Long>, bandwidths: seq<B>, newSize: (B, Long, Long, Long) -> Long,
                                  capacity: B -> Long, now: Long)
    requires |s| >= 1 && |bandwidths| < |s|
    requires forall b, size, last, t :: newSize(b, size, last, t) <= capacity(b)
    requires forall i :: 0 <= i < |bandwidths| ==> s[SizeSlot(i)] <= capacity(bandwidths[i])
    ensures forall i :: 0 <= i < |bandwidths| ==>
              Refill(s, bandwidths, newSize, now)[SizeSlot(i)] <= capacity(bandwidths[i])
  {
    if LastRefillTime(s) != now {
      RefillAdvancesEveryBandwidth(s, bandwidths, newSize, now);
      var r := Refill(s, bandwidths, newSize, now);
      forall i | 0 <= i < |bandwidths|
        ensures r[SizeSlot(i)] <= capacity(bandwidths[i])
      {
        var grown := newSize(bandwidths[i], s[SizeSlot(i)], LastRefillTime(s), now);
        assert r[SizeSlot(i)] == grown;
      }
    }
  }

  // ---------------------------------------------------------------------------
  // Availability

  /** The flag of every bandwidth under a classification function. */
  function Classify<B>(bandwidths: seq<B>, p: B -> bool): (flags: seq<bool>)
    ensures |flags| == |bandwidths|
    ensures forall i :: 0 <= i < |bandwidths| ==> flags[i] == p(bandwidths[i])
  {
    seq(|bandwidths|, i requires 0 <= i < |bandwidths| => p(bandwidths[i]))
  }

  /** The token counts of the first `n` bandwidths. */
  function Sizes(s: seq<Long>, n: nat): (sizes: seq<Long>)
    requires n < |s|
    ensures |sizes| == n
    ensures forall i :: 0 <= i < n ==> sizes[i] == s[SizeSlot(i)]
  {
    s[1..n + 1]
  }

  /** The slot layout: a state is its refill timestamp followed by the token
      counts of its `|s| - 1` bandwidths, so the two accessors together read
      every slot exactly once. */
  lemma StateLayout(s: seq<Long>)
    requires |s| >= 1
    ensures s == [LastRefillTime(s)] + Sizes(s, |s| - 1)
  {
  }

  /** Tokens available now: the larger of the tightest limited bandwidth
      (`LONG_MAX` when none is limited) and the last non-limited (guaranteed)
      bandwidth (0 when none). The answer is therefore one of the token
      counts or one of those two defaults, never a value made up in between. */
  function AvailableTokens(sizes: seq<Long>, limited: seq<bool>): (r: Long)
    requires |sizes| == |limited|
    ensures r == LONG_MAX || r == 0 || exists i :: 0 <= i < |sizes| && r == sizes[i]
  {
    MinLimitedIsMinimum(sizes, limited, |sizes|);
    LastIndexIsLast(limited, false, |sizes|);
    LastMatchingIsLast(sizes, limited, false, 0, |sizes|);
    Max(MinLimited(sizes, limited, |sizes|), LastMatching(sizes, limited, false, 0, |sizes|))
  }

  /** The guarantee is a floor: the answer is never below the tokens of the
      last non-limited (guaranteed) bandwidth. */
  lemma AvailableAtLeastGuarantee(sizes: seq<Long>, limited: seq<bool>)
    requires |sizes| == |limited|
    ensures forall j :: 0 <= j < |sizes| && !limited[j] &&
                        (forall k :: j < k < |sizes| ==> limited[k]) ==>
              AvailableTokens(sizes, limited) >= sizes[j]
  {
    forall j | 0 <= j < |sizes| && !limited[j] && (forall k :: j < k < |sizes| ==> limited[k])
      ensures LastMatching(sizes, limited, false, 0, |sizes|) == sizes[j]
    {
      LastMatchingAt(sizes, limited, false, 0, |sizes|, j);
    }
  }

  /** Without any guaranteed bandwidth and with non-negative token counts the
      answer is exactly the tightest limited bandwidth: bounded by every
      limited slot and equal to one of them, or `LONG_MAX` when there is none. */
  lemma AvailableWithoutGuaranteeIsLimitation(sizes: seq<Long>, limited: seq<bool>)
    requires |sizes| == |limited|
    requires forall i :: 0 <= i < |sizes| ==> limited[i]
    requires forall i :: 0 <= i < |sizes| ==> sizes[i] >= 0
    ensures AvailableTokens(sizes, limited) == MinLimited(sizes, limited, |sizes|)
    ensures forall i :: 0 <= i < |sizes| ==> AvailableTokens(sizes, limited) <= sizes[i]
    ensures |sizes| == 0 ==> AvailableTokens(sizes, limited) == LONG_MAX
    ensures |sizes| > 0 ==> exists i :: 0 <= i < |sizes| && AvailableTokens(sizes, limited) == sizes[i]
  {
    MinLimitedIsMinimum(sizes, limited, |sizes|);
    LastIndexIsLast(limited, false, |sizes|);
    LastMatchingIsLast(sizes, limited, false, 0, |sizes|);
  }

  // ---------------------------------------------------------------------------
  // Delay until tokens are available

  /** The delay each bandwidth reports for itself: `delay(b, size, now, tokens)`
      is the bandwidth's own `delayNanosAfterWillBePossibleToConsume`. */
  function Delays<B>(s: seq<Long>, bandwidths: seq<B>, delay: (B, Long, Long, Long) -> Long,
                     currentTime: Long, tokensToConsume: Long): (ds: seq<Long>)
    requires |bandwidths| < |s|
    ensures |ds| == |bandwidths|
    ensures forall i :: 0 <= i < |bandwidths| ==>
              ds[i] == delay(bandwidths[i], s[SizeSlot(i)], currentTime, tokensToConsume)
  {
    seq<Long>(|bandwidths|, i requires 0 <= i < |bandwidths| =>
      delay(bandwidths[i], s[SizeSlot(i)], currentTime, tokensToConsume))
  }

  /** The combined delay: zero as soon as some guaranteed bandwidth is ready;
      otherwise the slowest limited bandwidth, unless the (last) guaranteed
      bandwidth becomes ready sooner. The `LONG_MAX` start value of the
      guaranteed accumulator never leaks out: the answer is 0 or one of the
      reported delays. */
  function CombinedDelay(delays: seq<Long>, guaranteed: seq<bool>): (r: Long)
    requires |delays| == |guaranteed|
    ensures r == 0 || exists i :: 0 <= i < |delays| && r == delays[i]
  {
    MaxLimitedDelayIsMaximum(delays, guaranteed, |delays|);
    LastIndexIsLast(guaranteed, true, |delays|);
    LastMatchingIsLast(delays, guaranteed, true, LONG_MAX, |delays|);
    if GuaranteeMet(delays, guaranteed, |delays|) then 0
    else Min(MaxLimitedDelay(delays, guaranteed, |delays|),
             LastMatching(delays, guaranteed, true, LONG_MAX, |delays|))
  }

  /** A guaranteed bandwidth with zero delay makes the whole answer zero,
      whatever the limited bandwidths say. */
  lemma ReadyGuaranteeShortCircuits(delays: seq<Long>, guaranteed: seq<bool>, i: nat)
    requires |delays| == |guaranteed| && i < |delays|
    requires guaranteed[i] && delays[i] == 0
    ensures CombinedDelay(delays, guaranteed) == 0
  {
  }

  /** With no guaranteed bandwidth the answer is the slowest limited delay,
      0 when there is none: never negative, at least every delay, and 0 or one
      of them. */
  lemma DelayWithoutGuaranteeIsSlowestLimited(delays: seq<Long>, guaranteed: seq<bool>)
    requires |delays| == |guaranteed|
    requires forall i :: 0 <= i < |guaranteed| ==> !guaranteed[i]
    ensures CombinedDelay(delays, guaranteed) >= 0
    ensures forall i :: 0 <= i < |delays| ==> delays[i] <= CombinedDelay(delays, guaranteed)
    ensures CombinedDelay(delays, guaranteed) == 0 ||
            exists i :: 0 <= i < |delays| && CombinedDelay(delays, guaranteed) == delays[i]
  {
    MaxLimitedDelayIsMaximum(delays, guaranteed, |delays|);
    LastIndexIsLast(guaranteed, true, |delays|);
    LastMatchingIsLast(delays, guaranteed, true, LONG_MAX, |delays|);
  }

  /** When a guarantee exists but none is ready, the answer never exceeds the
      last guaranteed bandwidth's delay nor the slowest limited delay, and is
      one of the two. */
  lemma DelayBoundedByGuarantee(delays: seq<Long>, guaranteed: seq<bool>, j: nat)
    requires |delays| == |guaranteed| && j < |delays|
    requires guaranteed[j] && forall k :: j < k < |delays| ==> !guaranteed[k]
    requires !GuaranteeMet(delays, guaranteed, |delays|)
    ensures CombinedDelay(delays, guaranteed) <= delays[j]
    ensures CombinedDelay(delays, guaranteed) <= MaxLimitedDelay(delays, guaranteed, |delays|)
    ensures CombinedDelay(delays, guaranteed) == delays[j] ||
            CombinedDelay(delays, guaranteed) == MaxLimitedDelay(delays, guaranteed, |delays|)
  {
    LastMatchingAt(delays, guaranteed, true, LONG_MAX, |delays|, j);
  }

  // ---------------------------------------------------------------------------
  // Scenarios

  /** One limited bandwidth holding 10 tokens: consuming 7 leaves 3. */
  lemma ConsumeScenario()
    ensures Consume([0, 10], 7) == [0, 3]
  {
  }

  /** An exhausted limited bandwidth next to a guaranteed one holding 1 token:
      1 token is available until the guaranteed one is consumed too. */
  lemma GuaranteeScenario()
    ensures AvailableTokens([0, 1], [true, false]) == 1
    ensures Consume([0, 0, 1], 1) == [0, 0, 0]
    ensures AvailableTokens([0, 0], [true, false]) == 0
  {
    assert Consume([0, 0, 1], 1)[2] == 0;
    assert Consume([0, 0, 1], 1)[1] == 0;
  }
}
