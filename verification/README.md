# BucketState: the numeric core of a token-bucket rate limiter

A Dafny model of `BucketState` from bucket4j. A bucket's state is a flat
array of Java `long`s. Slot 0 is the timestamp, in nanoseconds, of the last
refill. Slot `i + 1` is the current token count of bandwidth `i`. The model
covers the operations on that array:

- slot access and copying: `clone`, `copyStateFrom`, `getLong`, `setLong`,
  `getLastRefillTimeNanos`, `setLastRefillTime`;
- `consume`: debits every bandwidth slot and clamps it at zero;
- `refill`: grows every bandwidth slot to the current time, then stamps the time;
- `getAvailableTokens`: takes the tightest limited bandwidth, with the
  guaranteed bandwidth as a floor;
- `delayNanosAfterWillBePossibleToConsume`: combines the per-bandwidth delays.

Files:

- `int64.dfy` (module `Int64`): the `long` range, `LONG_MAX` (Java's
  `Long.MAX_VALUE`) and two's-complement wrap-around of `long` subtraction.
- `folds.dfy` (module `Folds`): the loop accumulators as recursive folds.
  `MinLimited` is the minimum over limited bandwidths. `MaxLimitedDelay` is the
  maximum over limited delays. `LastMatching` gives the last entry of a given
  kind. An inductive lemma for each fold characterises it completely: a bound
  on every entry, and the result is one of the entries or the default.
- `bucket_model.dfy` (module `BucketModel`): the state as a value (`seq<Long>`),
  each operation as a function, and the lemmas relating them.
- `bucket_state.dfy` (module `Bucket`): the class `BucketState`. It wraps a
  `const state: array<Long>` and updates it in place with loops, like the Java
  code. Each method with a `BucketModel` counterpart is proved to compute what
  that function says. `Clone` and `CopyStateFrom` have no counterpart: they are
  specified directly by the array contents they produce.

The bandwidths are an opaque type parameter `B`. The state needs four things
from a bandwidth, and each is passed in as a function: the growth function
`getNewSize`, the `isLimited` and `isGuaranteed` classifications, and the
bandwidth's own delay.

Three behaviours of the code are easy to misread; the model follows the code:

- `getAvailableTokens` never reads its `guaranteedBandwidth` parameter. It
  treats any entry of the array with `isLimited() == false` as the guarantee.
  When there are several such entries, the last one wins. The model drops the
  parameter and keeps the "last non-limited entry" rule.
- The delay computation likewise keeps the delay of the last guaranteed entry.
  It short-circuits to 0 at the first guaranteed entry whose delay is 0.
- `consume` subtracts with `long` arithmetic. `BucketModel.Consume` says the
  result is exactly `max(0, old - toConsume)` whenever the subtraction stays in
  the `long` range, which always holds for non-negative slots and amounts.

## Model

| member | source | states |
|---|---|---|
| `Int64.Sub` | src/main/java/com/github/bucket4j/common/BucketState.java:96 | Java `long` subtraction: the exact difference whenever it fits in a long, otherwise a value congruent to it modulo 2^64 |
| `Int64.SubOfNonNegativesIsExact` | src/main/java/com/github/bucket4j/common/BucketState.java:96 | subtracting a non-negative long from a non-negative long never wraps |
| `Int64.Wrap` | src/main/java/com/github/bucket4j/common/BucketState.java:96 | the `long` Java's arithmetic yields: the value itself when it fits in a long, otherwise the value of the range congruent to it modulo 2^64 |
| `Int64.Max` | src/main/java/com/github/bucket4j/common/BucketState.java:96 | `Math.max` (also line 91): at least both arguments and equal to one of them |
| `Int64.Min` | src/main/java/com/github/bucket4j/common/BucketState.java:119 | `Math.min` (also line 86): at most both arguments and equal to one of them |
| `BucketModel.GetLong` | src/main/java/com/github/bucket4j/common/BucketState.java:42-44 | reading a slot other than the timestamp gives the token count of the bandwidth stored there |
| `BucketModel.LastRefillTime` | src/main/java/com/github/bucket4j/common/BucketState.java:139-141 | the refill timestamp is what `getLong` reads at slot 0 |
| `BucketModel.StateLayout` | src/main/java/com/github/bucket4j/common/BucketState.java:42-44 | a state is its refill timestamp followed by the token counts of its bandwidths, one slot each |
| `BucketModel.SetLong` | src/main/java/com/github/bucket4j/common/BucketState.java:50-52 | writing slot `offset` keeps the length, makes `getLong(offset)` the written value and leaves every other slot unchanged |
| `BucketModel.GetAfterSetLong` | src/main/java/com/github/bucket4j/common/BucketState.java:42-52 | after `setLong(_, offset, v)`, reading slot `offset` gives `v` and reading any other slot gives its old value |
| `BucketModel.SetLastRefillTime` | src/main/java/com/github/bucket4j/common/BucketState.java:135-141 | after `setLastRefillTime(t)`, `getLastRefillTimeNanos()` returns `t` and no token slot changes |
| `BucketModel.SetLastRefillTimeOverwrites` | src/main/java/com/github/bucket4j/common/BucketState.java:135-141 | the second of two timestamp writes wins; writing back the current timestamp is a no-op |
| `BucketModel.ConsumedSlot` | src/main/java/com/github/bucket4j/common/BucketState.java:96 | a consumed slot is never negative, and equals `max(0, size - toConsume)` when the subtraction does not wrap |
| `BucketModel.Consume` | src/main/java/com/github/bucket4j/common/BucketState.java:94-98 | consume keeps the length and the timestamp, leaves every token slot non-negative, and sets each slot to `max(0, old - toConsume)` wherever that difference fits in a long |
| `BucketModel.ConsumeDebitsEverySlot` | src/main/java/com/github/bucket4j/common/BucketState.java:94-98 | for a non-negative amount on non-negative slots, each slot becomes exactly `max(0, old - toConsume)` and never grows |
| `BucketModel.ConsumeZeroIsNoop` | src/main/java/com/github/bucket4j/common/BucketState.java:94-98 | `consume(0)` on a state with non-negative slots changes nothing |
| `BucketModel.ConsumeTwiceIsConsumeSum` | src/main/java/com/github/bucket4j/common/BucketState.java:94-98 | on non-negative slots, consuming `a` and then `b` equals consuming `a + b` |
| `BucketModel.Refill` | src/main/java/com/github/bucket4j/common/BucketState.java:122-133 | refill keeps the length and always leaves the timestamp equal to the requested time |
| `BucketModel.RefillAdvancesEveryBandwidth` | src/main/java/com/github/bucket4j/common/BucketState.java:127-132 | for a new timestamp, slot `i + 1` becomes `getNewSize(old size, old timestamp, now)` for every bandwidth `i`; slots beyond the bandwidths are untouched |
| `BucketModel.RefillAtSameTimeIsNoop` | src/main/java/com/github/bucket4j/common/BucketState.java:123-126 | a refill to the recorded timestamp leaves the whole state unchanged |
| `BucketModel.RefillIdempotent` | src/main/java/com/github/bucket4j/common/BucketState.java:122-133 | refilling twice to the same timestamp equals refilling once |
| `BucketModel.RefillRespectsCapacity` | src/main/java/com/github/bucket4j/common/BucketState.java:127-131 | if every growth function stays within its bandwidth's capacity, so does every refilled slot |
| `Folds.MinLimitedIsMinimum` | src/main/java/com/github/bucket4j/common/BucketState.java:81-87 | the `availableByLimitation` accumulator is at most every limited slot and equals one of them, or is `LONG_MAX`; with no limited entry it is `LONG_MAX` |
| `Folds.LastIndexIsLast` | src/main/java/com/github/bucket4j/common/BucketState.java:80-89 | the entry whose value overwrites `availableByGuarantee` last is a non-limited entry with no non-limited entry after it, or there is none |
| `Folds.LastMatchingIsLast` | src/main/java/com/github/bucket4j/common/BucketState.java:80-89 | the overwritten accumulator ends holding the value of the last entry of the wanted kind, or its initial value when there is none; this covers `availableByGuarantee` (initially 0) and the guaranteed delay (initially `LONG_MAX`, lines 102 and 111) |
| `Folds.LastMatchingAt` | src/main/java/com/github/bucket4j/common/BucketState.java:107-113 | if entry `j` is guaranteed and no later entry is, the guaranteed-delay accumulator ends holding `j`'s delay |
| `Folds.MaxLimitedDelayIsMaximum` | src/main/java/com/github/bucket4j/common/BucketState.java:115-117 | the limited-delay accumulator is non-negative, at least every limited delay, and either 0 or one of them |
| `Folds.GuaranteeMetStep` | src/main/java/com/github/bucket4j/common/BucketState.java:107-110 | a guaranteed zero delay exists among the first `n + 1` entries exactly when one exists among the first `n` or entry `n` is one |
| `BucketModel.AvailableTokens` | src/main/java/com/github/bucket4j/common/BucketState.java:79-91 | the available tokens are always one of the bandwidths' token counts, or `LONG_MAX` (no limited bandwidth), or 0 (the floor when there is no guaranteed bandwidth) |
| `BucketModel.AvailableAtLeastGuarantee` | src/main/java/com/github/bucket4j/common/BucketState.java:79-91 | the available tokens are never below the tokens of the last non-limited bandwidth |
| `BucketModel.AvailableWithoutGuaranteeIsLimitation` | src/main/java/com/github/bucket4j/common/BucketState.java:79-91 | with only limited bandwidths and non-negative slots, the available tokens are the minimum slot: at most every slot and equal to one of them, or `LONG_MAX` when there are no bandwidths |
| `BucketModel.CombinedDelay` | src/main/java/com/github/bucket4j/common/BucketState.java:100-120 | the combined delay is 0 or one of the reported delays; the `LONG_MAX` start value of the guaranteed accumulator never leaks out |
| `BucketModel.ReadyGuaranteeShortCircuits` | src/main/java/com/github/bucket4j/common/BucketState.java:107-110 | a guaranteed bandwidth with zero delay makes the combined delay 0 |
| `BucketModel.DelayWithoutGuaranteeIsSlowestLimited` | src/main/java/com/github/bucket4j/common/BucketState.java:101-119 | with no guaranteed bandwidth, the combined delay is non-negative, at least every bandwidth's delay, and either 0 or one of them |
| `BucketModel.DelayBoundedByGuarantee` | src/main/java/com/github/bucket4j/common/BucketState.java:101-119 | when no guarantee is ready, the combined delay is the smaller of the last guaranteed delay and the slowest limited delay |
| `BucketModel.ConsumeScenario` | src/main/java/com/github/bucket4j/common/BucketState.java:94-98 | consuming 7 from a bandwidth holding 10 leaves 3 |
| `BucketModel.GuaranteeScenario` | src/main/java/com/github/bucket4j/common/BucketState.java:79-98 | a guaranteed bandwidth holding 1 token next to an exhausted limited one reports 1 available; consuming 1 empties both, and then 0 is available |
| `Bucket.BucketState.Clone` | src/main/java/com/github/bucket4j/common/BucketState.java:34-36 | the clone owns a fresh array of the same length holding the same slots |
| `Bucket.CloneIsIndependent` | src/main/java/com/github/bucket4j/common/BucketState.java:34-52 | writing a slot of a clone leaves every slot of the original unchanged |
| `Bucket.BucketState.CopyStateFrom` | src/main/java/com/github/bucket4j/common/BucketState.java:54-56 | after copying, every slot equals the source's slot at the same index |
| `Bucket.BucketState.GetLong` | src/main/java/com/github/bucket4j/common/BucketState.java:42-44 | reading the array slot gives what `BucketModel.GetLong` says for the array's contents |
| `Bucket.BucketState.GetLastRefillTimeNanos` | src/main/java/com/github/bucket4j/common/BucketState.java:139-141 | reading slot 0 of the array gives `BucketModel.LastRefillTime` of its contents |
| `Bucket.BucketState.SetLong` | src/main/java/com/github/bucket4j/common/BucketState.java:50-52 | the in-place write changes only slot `offset`, and `getLong(offset)` then returns the value written |
| `Bucket.BucketState.SetLastRefillTime` | src/main/java/com/github/bucket4j/common/BucketState.java:135-141 | the in-place write changes only slot 0, and `getLastRefillTimeNanos()` then returns it |
| `Bucket.BucketState.Consume` | src/main/java/com/github/bucket4j/common/BucketState.java:94-98 | the in-place loop leaves the array equal to `BucketModel.Consume` of its old contents |
| `Bucket.BucketState.Refill` | src/main/java/com/github/bucket4j/common/BucketState.java:122-133 | the in-place loop leaves the array equal to `BucketModel.Refill` of its old contents |
| `Bucket.BucketState.GetAvailableTokens` | src/main/java/com/github/bucket4j/common/BucketState.java:79-92 | the loop returns the larger of the `MinLimited` and `LastMatching` folds over the bandwidth slots |
| `Bucket.BucketState.DelayNanosAfterWillBePossibleToConsume` | src/main/java/com/github/bucket4j/common/BucketState.java:100-120 | the loop, with its early return, returns 0 if some guaranteed delay is 0; otherwise it returns the smaller of the `MaxLimitedDelay` fold and the last guaranteed delay (`LONG_MAX` when there is none) |

## Left out

- `getDouble` and `setDouble` (BucketState.java:38-48) reinterpret floating-point bit patterns, which the model does not cover. As written they also disagree with each other: `getDouble` converts its offset argument rather than the slot at that offset, and `setDouble` always writes slot 0.
- `createInitialState` (BucketState.java:58-77) is left out. It relies on `Preconditions.checkCompatibility`, `StateInitializer`, `Bandwidth.createInitialBandwidthState`, `TimeMeter` and `BucketConfiguration`, none of which is part of this model. Its slot layout therefore cannot be stated.
- The bodies of `getNewSize`, `isLimited`, `isGuaranteed` and the per-bandwidth delay are foreign calls. They become function parameters, so properties that depend on them appear only as hypotheses. Examples are the capacity clamp and "the delay is 0 exactly when enough tokens are available".
- The `long` to `double` conversions in `refill`, `getAvailableTokens` and the delay computation, and the final `(long)` cast, are modelled as exact integers. Rounding above 2^53 is floating-point behaviour.
- The time source is left out: the current time is a plain parameter.
- `toString`, `Serializable`, and any locking or concurrency around a shared state.
- Bucket.BucketState.DelayNanosAfterWillBePossibleToConsume: requires a slot for every bandwidth. The source would return 0 without throwing when a guaranteed zero-delay entry comes before the first missing slot.
- Bucket.BucketState.GetAvailableTokens: requires a slot for every bandwidth. The source throws `ArrayIndexOutOfBoundsException` otherwise.
- BucketModel.Refill: requires `CanRefill`, which asks for a timestamp slot and, when the time differs from the recorded one, a slot for every bandwidth. The source throws `ArrayIndexOutOfBoundsException` at line 123 on an empty array. With more bandwidths than slots it rewrites the slots it has and then throws at line 129 (reading the first missing slot), before line 132 stamps the time, leaving a half-refilled state with the old timestamp. Neither path is modelled.
- Bucket.BucketState.Refill: the same `CanRefill` requirement, for the same two exception paths of lines 123 and 129.
- Bucket.BucketState.CopyStateFrom: requires the source array to be at least as long as this one. `System.arraycopy` at line 55 throws when it is shorter.
- BucketModel.GetLong: requires an offset inside the array. The source throws `ArrayIndexOutOfBoundsException` at line 43 otherwise.
- Bucket.BucketState.GetLong: the same offset requirement, for the exception at line 43.
- BucketModel.SetLong: requires an offset inside the array. The source throws `ArrayIndexOutOfBoundsException` at line 51 otherwise.
- Bucket.BucketState.SetLong: the same offset requirement, for the exception at line 51.
- BucketModel.SetLastRefillTime: requires a non-empty array. The source throws `ArrayIndexOutOfBoundsException` at line 136 otherwise.
- Bucket.BucketState.SetLastRefillTime: the same requirement, for the exception at line 136.
- BucketModel.LastRefillTime: requires a non-empty array. The source throws `ArrayIndexOutOfBoundsException` at line 140 otherwise.
- Bucket.BucketState.GetLastRefillTimeNanos: the same requirement, for the exception at line 140.
