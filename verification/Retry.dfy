/** Retrying with exponential backoff: how often the operation runs, what is returned, and how long
    each sleep is. Durations are real numbers of seconds. */
module Retry {

  datatype Config = Config(maxRetries: nat, initialDelay: real, maxDelay: real, multiplier: real)

  datatype Outcome<T> = Success(value: T) | Failure(code: int, retryable: bool)

  /** Durations are not negative. */
  ghost predicate GoodConfig(cfg: Config) {
    cfg.initialDelay >= 0.0 && cfg.maxDelay >= 0.0 && cfg.multiplier >= 0.0
  }

  function MinReal(a: real, b: real): real { if a <= b then a else b }

  /** The outcome that ends the loop at attempt `k` (counting from 0). */
  predicate Ends<T>(cfg: Config, o: Outcome<T>, k: nat) {
    o.Success? || !o.retryable || k + 1 > cfg.maxRetries
  }

  function Times(a: real, b: real): real { a * b }

  function Next(cfg: Config, delay: real): real {
    MinReal(Times(delay, cfg.multiplier), cfg.maxDelay)
  }

  /** The delay after `k` updates. */
  function Delay(cfg: Config, k: nat): real {
    if k == 0 then cfg.initialDelay else Next(cfg, Delay(cfg, k - 1))
  }

  function Power(b: real, n: nat): real {
    if n == 0 then 1.0 else Times(b, Power(b, n - 1))
  }

  /** `retry_with_backoff`, where `answers(k)` is what the operation does on attempt `k`. The loop ends
      by `maxRetries` + 1 attempts whatever the answers are. */
  method RetryWithBackoff<T>(cfg: Config, answers: nat -> Outcome<T>)
    returns (r: Outcome<T>, attempts: nat, sleeps: seq<real>)
    ensures 1 <= attempts <= cfg.maxRetries + 1
    ensures r == answers(attempts - 1) && Ends(cfg, r, attempts - 1)
    ensures forall k: nat :: k < attempts - 1 ==> !Ends(cfg, answers(k), k)
    ensures |sleeps| == attempts - 1
    ensures forall k :: 0 <= k < |sleeps| ==> sleeps[k] == Delay(cfg, k)
  {
    hide Times;
    attempts, sleeps := 0, [];
    var delay := cfg.initialDelay;
    while true
      invariant attempts <= cfg.maxRetries
      invariant forall k: nat :: k < attempts ==> !Ends(cfg, answers(k), k)
      invariant |sleeps| == attempts && delay == Delay(cfg, attempts)
      invariant forall k :: 0 <= k < |sleeps| ==> sleeps[k] == Delay(cfg, k)
      decreases cfg.maxRetries - attempts
    {
      r := answers(attempts);
      attempts := attempts + 1;
      if r.Success? { return; }
      if attempts > cfg.maxRetries || !r.retryable { return; }
      sleeps := sleeps + [delay];
      delay := Next(cfg, delay);
    }
  }

  lemma TimesRules(a: real, b: real, c: real)
    ensures Times(Times(a, b), c) == Times(a, Times(c, b))
    ensures Times(a, 1.0) == a
    ensures a >= 0.0 && b >= 1.0 ==> Times(a, b) >= a
    ensures a >= 0.0 && b >= 0.0 && b <= 1.0 ==> 0.0 <= Times(a, b) <= a
  {
  }

  /** Scaling a capped delay. */
  lemma ScaleCapped(x: real, cap: real, m: real)
    requires m >= 0.0
    ensures Times(MinReal(x, cap), m) == MinReal(Times(x, m), Times(cap, m))
  {
  }

  lemma {:induction false} PowerSmall(b: real, n: nat)
    requires 0.0 <= b <= 1.0
    ensures 0.0 <= Power(b, n) <= 1.0
  {
    hide Times;
    if n > 0 {
      PowerSmall(b, n - 1);
      TimesRules(b, Power(b, n - 1), 1.0);
    }
  }

  /** With a multiplier of at least 1, each delay after the first is the exponential one, capped; the
      first is not capped. */
  lemma {:induction false} GrowingDelay(cfg: Config, k: nat)
    requires GoodConfig(cfg) && cfg.multiplier >= 1.0 && k >= 1
    ensures Delay(cfg, k) == MinReal(Times(cfg.initialDelay, Power(cfg.multiplier, k)), cfg.maxDelay)
  {
    hide Times;
    var m := cfg.multiplier;
    TimesRules(cfg.initialDelay, Power(m, k - 1), m);
    if k == 1 {
      assert Delay(cfg, 0) == cfg.initialDelay;
    } else {
      GrowingDelay(cfg, k - 1);
      ScaleCapped(Times(cfg.initialDelay, Power(m, k - 1)), cfg.maxDelay, m);
      TimesRules(cfg.maxDelay, m, 1.0);
    }
    FirstPower(cfg.initialDelay, m);
  }

  lemma FirstPower(a: real, m: real)
    ensures Times(a, Power(m, 1)) == Times(a, m) && Times(a, Power(m, 0)) == a
  {
  }

  /** With a multiplier of at most 1 the cap acts once, on the second delay, and then decays with it. */
  lemma {:induction false} ShrinkingDelay(cfg: Config, k: nat)
    requires GoodConfig(cfg) && cfg.multiplier <= 1.0 && k >= 1
    ensures Delay(cfg, k) == MinReal(Times(cfg.initialDelay, Power(cfg.multiplier, k)),
                                     Times(cfg.maxDelay, Power(cfg.multiplier, k - 1)))
  {
    hide Times;
    var m := cfg.multiplier;
    TimesRules(cfg.initialDelay, Power(m, k - 1), m);
    FirstPower(cfg.initialDelay, m);
    FirstPower(cfg.maxDelay, m);
    if k == 1 {
      assert Delay(cfg, 0) == cfg.initialDelay;
    } else {
      ShrinkingDelay(cfg, k - 1);
      ScaleCapped(Times(cfg.initialDelay, Power(m, k - 1)), Times(cfg.maxDelay, Power(m, k - 2)), m);
      TimesRules(cfg.maxDelay, Power(m, k - 2), m);
      PowerSmall(m, k - 1);
      TimesRules(cfg.maxDelay, Power(m, k - 1), 1.0);
    }
  }

  /** No delay after the first exceeds the cap; the first does exactly when it is configured to. */
  lemma DelayWithinCapIff(cfg: Config)
    ensures (forall k :: Delay(cfg, k) <= cfg.maxDelay) <==> cfg.initialDelay <= cfg.maxDelay
  {
    hide Times;
    if cfg.initialDelay <= cfg.maxDelay {
      forall k ensures Delay(cfg, k) <= cfg.maxDelay {}
    } else {
      assert Delay(cfg, 0) > cfg.maxDelay;
    }
  }
}
