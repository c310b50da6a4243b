/**
 * The accumulations that the availability query and the delay computation of
 * `BucketState` perform over their bandwidth arrays, stated as recursive folds
 * over the first `n` entries, in the order the loops visit them. Each entry `i`
 * comes with a value (a token count or a delay) and a classification flag
 * (whether the bandwidth is limited, respectively guaranteed).
 *
 * The folds are plain definitions; the lemmas below say what each computes,
 * independently of how: a bound on every entry and membership of the result.
 */
module Folds {
  import opened Int64

  /** The `availableByLimitation` accumulator over the first `n` entries. */
  function MinLimited(sizes: seq<Long>, limited: seq<bool>, n: nat): Long
    requires n <= |sizes| && n <= |limited|
    decreases n
  {
    if n == 0 then LONG_MAX
    else if limited[n - 1] then Min(MinLimited(sizes, limited, n - 1), sizes[n - 1])
    else MinLimited(sizes, limited, n - 1)
  }

  /** The `delayAfterWillBePossibleToConsumeLimited` accumulator over the
      first `n` entries: guaranteed entries are skipped. */
  function MaxLimitedDelay(delays: seq<Long>, guaranteed: seq<bool>, n: nat): Long
    requires n <= |delays| && n <= |guaranteed|
    decreases n
  {
    if n == 0 then 0
    else if guaranteed[n - 1] then MaxLimitedDelay(delays, guaranteed, n - 1)
    else Max(MaxLimitedDelay(delays, guaranteed, n - 1), delays[n - 1])
  }

  /** Index of the last of the first `n` entries whose flag equals `want`, or
      -1 when there is none. */
  function LastIndex(flags: seq<bool>, want: bool, n: nat): int
    requires n <= |flags|
    decreases n
  {
    if n == 0 then -1
    else if flags[n - 1] == want then n - 1
    else LastIndex(flags, want, n - 1)
  }

  /** An accumulator overwritten by every entry whose flag equals `want`,
      starting from `default` (`availableByGuarantee` and
      `delayAfterWillBePossibleToConsumeGuaranteed`). */
  function LastMatching(vals: seq<Long>, flags: seq<bool>, want: bool, default: Long, n: nat): Long
    requires n <= |vals| && n <= |flags|
    decreases n
  {
    if n == 0 then default
    else if flags[n - 1] == want then vals[n - 1]
    else LastMatching(vals, flags, want, default, n - 1)
  }

  /** Some entry among the first `n` is guaranteed and has a zero delay. */
  predicate GuaranteeMet(delays: seq<Long>, guaranteed: seq<bool>, n: nat)
    requires n <= |delays| && n <= |guaranteed|
  {
    exists i :: 0 <= i < n && guaranteed[i] && delays[i] == 0
  }

  /** `MinLimited` is the minimum over the limited entries: no larger than any
      of them, and one of them unless it is the sentinel `LONG_MAX` — which it
      is whenever there is no limited entry. */
  lemma {:induction false} MinLimitedIsMinimum(sizes: seq<Long>, limited: seq<bool>, n: nat)
    requires n <= |sizes| && n <= |limited|
    ensures forall i :: 0 <= i < n && limited[i] ==> MinLimited(sizes, limited, n) <= sizes[i]
    ensures MinLimited(sizes, limited, n) == LONG_MAX ||
            exists i :: 0 <= i < n && limited[i] && MinLimited(sizes, limited, n) == sizes[i]
    ensures (forall i :: 0 <= i < n ==> !limited[i]) ==> MinLimited(sizes, limited, n) == LONG_MAX
    decreases n
  {
    if n > 0 {
      MinLimitedIsMinimum(sizes, limited, n - 1);
    }
  }

  /** `MaxLimitedDelay` is the maximum over the non-guaranteed entries, floored
      at 0: never negative, no smaller than any of them, and 0 or one of them. */
  lemma {:induction false} MaxLimitedDelayIsMaximum(delays: seq<Long>, guaranteed: seq<bool>, n: nat)
    requires n <= |delays| && n <= |guaranteed|
    ensures MaxLimitedDelay(delays, guaranteed, n) >= 0
    ensures forall i :: 0 <= i < n && !guaranteed[i] ==> delays[i] <= MaxLimitedDelay(delays, guaranteed, n)
    ensures MaxLimitedDelay(delays, guaranteed, n) == 0 ||
            exists i :: 0 <= i < n && !guaranteed[i] && MaxLimitedDelay(delays, guaranteed, n) == delays[i]
    decreases n
  {
    if n > 0 {
      MaxLimitedDelayIsMaximum(delays, guaranteed, n - 1);
    }
  }

  /** `LastIndex` finds the last matching entry: -1 when no entry matches,
      otherwise a matching entry with no matching entry after it. */
  lemma {:induction false} LastIndexIsLast(flags: seq<bool>, want: bool, n: nat)
    requires n <= |flags|
    ensures -1 <= LastIndex(flags, want, n) < n
    ensures LastIndex(flags, want, n) >= 0 ==> flags[LastIndex(flags, want, n)] == want
    ensures forall k :: LastIndex(flags, want, n) < k < n ==> flags[k] != want
    decreases n
  {
    if n > 0 && flags[n - 1] != want {
      LastIndexIsLast(flags, want, n - 1);
    }
  }

  /** The overwritten accumulator holds the value of the last matching entry,
      or the default when no entry matches. */
  lemma {:induction false} LastMatchingIsLast(vals: seq<Long>, flags: seq<bool>, want: bool, default: Long, n: nat)
    requires n <= |vals| && n <= |flags|
    ensures LastIndex(flags, want, n) < 0 ==> LastMatching(vals, flags, want, default, n) == default
    ensures LastIndex(flags, want, n) >= 0 ==>
              LastIndex(flags, want, n) < n &&
              LastMatching(vals, flags, want, default, n) == vals[LastIndex(flags, want, n)]
    decreases n
  {
    LastIndexIsLast(flags, want, n);
    if n > 0 && flags[n - 1] != want {
      LastMatchingIsLast(vals, flags, want, default, n - 1);
    }
  }

  /** The entry `j` that matches with no match after it is the one whose
      value the overwritten accumulator holds. */
  lemma LastMatchingAt(vals: seq<Long>, flags: seq<bool>, want: bool, default: Long, n: nat, j: nat)
    requires n <= |vals| && n <= |flags| && j < n
    requires flags[j] == want && forall k :: j < k < n ==> flags[k] != want
    ensures LastMatching(vals, flags, want, default, n) == vals[j]
  {
    LastIndexIsLast(flags, want, n);
    LastMatchingIsLast(vals, flags, want, default, n);
  }

  /** Extending the prefix by one entry adds exactly that entry's test. */
  lemma GuaranteeMetStep(delays: seq<Long>, guaranteed: seq<bool>, n: nat)
    requires n < |delays| && n < |guaranteed|
    ensures GuaranteeMet(delays, guaranteed, n + 1) <==>
            GuaranteeMet(delays, guaranteed, n) || (guaranteed[n] && delays[n] == 0)
  {
  }
}
