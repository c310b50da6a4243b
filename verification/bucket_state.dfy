/**
 * `BucketState` as the mutable object it is: a fixed-length array of longs,
 * updated in place by loops. Every operation with a counterpart in the
 * value-level model `BucketModel` is proved to compute what that counterpart
 * describes; the copying operations, which have none, are specified by the
 * array contents they produce and proved to leave arrays independent of their
 * source.
 */
module Bucket {
  import opened Int64
  import opened Folds
  import BucketModel

  class BucketState {
    /** slot 0: last refill timestamp in nanoseconds; slot `i + 1`: tokens of bandwidth `i` */
    const state: array<Long>

    /** Wraps (does not copy) the given array, like the source's private constructor. */
    constructor (state: array<Long>)
      ensures this.state == state
    {
      this.state := state;
    }

    /** An independent snapshot: a fresh array with the same slots. */
    method Clone() returns (c: BucketState)
      ensures fresh(c) && fresh(c.state)
      ensures c.state[..] == state[..]
    {
      var copy := new Long[state.Length];
      var i := 0;
      while i < state.Length
        invariant 0 <= i <= state.Length
        invariant copy[..i] == state[..i]
      {
        copy[i] := state[i];
        i := i + 1;
      }
      c := new BucketState(copy);
    }

    function GetLong(offset: int): (v: Long)
      requires 0 <= offset < state.Length
      reads state
      ensures v == BucketModel.GetLong(state[..], offset)
    {
      state[offset]
    }

    method SetLong(partialStateIndex: int, offset: int, value: Long)
      requires 0 <= offset < state.Length
      modifies state
      ensures state[..] == BucketModel.SetLong(old(state[..]), partialStateIndex, offset, value)
      ensures GetLong(offset) == value
    {
      state[offset] := value;
    }

    /** Overwrites every slot of this state with the corresponding slot of
        `source` (a prefix of it when `source` is longer). */
    method CopyStateFrom(source: BucketState)
      requires source.state.Length >= state.Length
      modifies state
      ensures state[..] == old(source.state[..state.Length])
    {
      forall k | 0 <= k < state.Length {
        state[k] := source.state[k];
      }
    }

    function GetLastRefillTimeNanos(): (t: Long)
      requires state.Length >= 1
      reads state
      ensures t == BucketModel.LastRefillTime(state[..])
    {
      state[0]
    }

    method SetLastRefillTime(currentTimeNanos: Long)
      requires state.Length >= 1
      modifies state
      ensures state[..] == BucketModel.SetLastRefillTime(old(state[..]), currentTimeNanos)
      ensures GetLastRefillTimeNanos() == currentTimeNanos
    {
      state[0] := currentTimeNanos;
    }

    method Consume(toConsume: Long)
      modifies state
      ensures state[..] == BucketModel.Consume(old(state[..]), toConsume)
    {
      if state.Length == 0 {
        return;
      }
      var i := 1;
      while i < state.Length
        invariant 1 <= i <= state.Length
        invariant forall k :: 0 <= k < state.Length && (k == 0 || k >= i) ==> state[k] == old(state[k])
        invariant forall k :: 1 <= k < i && k < state.Length ==>
                    state[k] == BucketModel.ConsumedSlot(old(state[k]), toConsume)
      {
        state[i] := Max(0, Sub(state[i], toConsume));
        i := i + 1;
      }
    }

    method Refill<B>(bandwidths: seq<B>, newSize: (B, Long, Long, Long) -> Long, currentTimeNanos: Long)
      requires BucketModel.CanRefill(state[..], bandwidths, currentTimeNanos)
      modifies state
      ensures state[..] == BucketModel.Refill(old(state[..]), bandwidths, newSize, currentTimeNanos)
    {
      var lastRefillTimeNanos := GetLastRefillTimeNanos();
      if lastRefillTimeNanos == currentTimeNanos {
        return;
      }
      var i := 0;
      while i < |bandwidths|
        invariant 0 <= i <= |bandwidths|
        invariant state[0] == lastRefillTimeNanos
        invariant forall k :: i < k < state.Length ==> state[k] == old(state[k])
        invariant forall k :: 0 <= k < i ==>
                    state[k + 1] == newSize(bandwidths[k], old(state[k + 1]), lastRefillTimeNanos, currentTimeNanos)
      {
        var currentSize := state[i + 1];
        state[i + 1] := newSize(bandwidths[i], currentSize, lastRefillTimeNanos, currentTimeNanos);
        i := i + 1;
      }
      SetLastRefillTime(currentTimeNanos);
    }

    /** Tokens available now. A bandwidth for which `isLimited` is false is the
        guaranteed one; the source recognises it inside the same array. */
    method GetAvailableTokens<B>(limitedBandwidths: seq<B>, isLimited: B -> bool) returns (available: Long)
      requires |limitedBandwidths| < state.Length
      ensures available == BucketModel.AvailableTokens(
                             BucketModel.Sizes(state[..], |limitedBandwidths|),
                             BucketModel.Classify(limitedBandwidths, isLimited))
    {
      ghost var sizes := BucketModel.Sizes(state[..], |limitedBandwidths|);
      ghost var limited := BucketModel.Classify(limitedBandwidths, isLimited);
      var availableByGuarantee: Long := 0;
      var availableByLimitation: Long := LONG_MAX;
      var i := 0;
      while i < |limitedBandwidths|
        invariant 0 <= i <= |limitedBandwidths|
        invariant availableByLimitation == MinLimited(sizes, limited, i)
        invariant availableByGuarantee == LastMatching(sizes, limited, false, 0, i)
      {
        var currentSize := state[i + 1];
        if isLimited(limitedBandwidths[i]) {
          availableByLimitation := Min(availableByLimitation, currentSize);
        } else {
          availableByGuarantee := currentSize;
        }
        i := i + 1;
      }
      available := Max(availableByLimitation, availableByGuarantee);
    }

    /** Nanoseconds until `tokensToConsume` tokens can be consumed.
        `delay(b, size, currentTime, tokens)` is the bandwidth's own delay. */
    method DelayNanosAfterWillBePossibleToConsume<B>(bandwidths: seq<B>, isGuaranteed: B -> bool,
                                                     delay: (B, Long, Long, Long) -> Long,
                                                     currentTime: Long, tokensToConsume: Long)
      returns (r: Long)
      requires |bandwidths| < state.Length
      ensures r == BucketModel.CombinedDelay(
                     BucketModel.Delays(state[..], bandwidths, delay, currentTime, tokensToConsume),
                     BucketModel.Classify(bandwidths, isGuaranteed))
    {
      ghost var delays := BucketModel.Delays(state[..], bandwidths, delay, currentTime, tokensToConsume);
      ghost var guaranteed := BucketModel.Classify(bandwidths, isGuaranteed);
      var delayLimited: Long := 0;
      var delayGuaranteed: Long := LONG_MAX;
      var i := 0;
      while i < |bandwidths|
        invariant 0 <= i <= |bandwidths|
        invariant !GuaranteeMet(delays, guaranteed, i)
        invariant delayLimited == MaxLimitedDelay(delays, guaranteed, i)
        invariant delayGuaranteed == LastMatching(delays, guaranteed, true, LONG_MAX, i)
      {
        var currentSize := state[i + 1];
        var d := delay(bandwidths[i], currentSize, currentTime, tokensToConsume);
        assert d == delays[i];
        GuaranteeMetStep(delays, guaranteed, i);
        if isGuaranteed(bandwidths[i]) {
          assert guaranteed[i];
          if d == 0 {
            assert GuaranteeMet(delays, guaranteed, |delays|);
            return 0;
          } else {
            delayGuaranteed := d;
          }
          i := i + 1;
          continue;
        }
        assert !guaranteed[i];
        if d > delayLimited {
          delayLimited := d;
        }
        i := i + 1;
      }
      r := Min(delayLimited, delayGuaranteed);
    }
  }

  /** Writing to a clone leaves the original's slots as they were. */
  method CloneIsIndependent(original: BucketState, offset: int, value: Long) returns (copy: BucketState)
    requires 0 <= offset < original.state.Length
    ensures fresh(copy) && fresh(copy.state)
    ensures copy.state[..] == BucketModel.SetLong(original.state[..], 0, offset, value)
    ensures original.state[..] == old(original.state[..])
  {
    copy := original.Clone();
    copy.SetLong(0, offset, value);
  }
}
