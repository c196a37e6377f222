/** The loop of cmd/ptah-cert-rotator that reconciles the certificates for ever: when its passes
start, how long it waits after a failure, and what its probes show.

Time is counted in nanoseconds from the first pass. What the loop cannot decide itself - how a
pass went and how long it took, what the jitter answered, whether the context was cancelled - is
one Round for each turn of the loop.
 */
module Supervisor {
  import opened Results
  import opened Durations
  import opened RotatorConfig

  datatype Probe = Probe(live: bool, ready: bool)

  class ProbeState {
    var live: bool
    var ready: bool
    /** Every state a request could have seen. */
    ghost var history: seq<Probe>

    constructor ()
      ensures !live && !ready && history == [Probe(false, false)]
    {
      live, ready, history := false, false, [Probe(false, false)];
    }

    method SetLive(value: bool)
      modifies this
      ensures live == value && ready == old(ready)
      ensures history == old(history) + [Probe(value, old(ready))]
    {
      live := value;
      history := history + [Probe(live, ready)];
    }

    method SetReady(value: bool)
      modifies this
      ensures ready == value && live == old(live)
      ensures history == old(history) + [Probe(old(live), value)]
    {
      ready := value;
      history := history + [Probe(live, ready)];
    }
  }

  /** What the probe endpoints answer over several supervisors. */
  method Healthy(states: seq<ProbeState>, ready: bool) returns (healthy: bool)
    ensures healthy <==> forall k :: 0 <= k < |states| ==> states[k].live && (ready ==> states[k].ready)
  {
    for k := 0 to |states|
      invariant forall i :: 0 <= i < k ==> states[i].live && (ready ==> states[i].ready)
    {
      if !states[k].live || (ready && !states[k].ready) {
        return false;
      }
    }
    return true;
  }

  // -------------------------------------------------------------------- retries

  /** The delay the code starts with: some extra up to a fifth of the base, and none of a base that
      is not positive, whatever the difference it is cut to wraps around to. */
  function RetryDelayWithJitter(base: Duration, maximum: Duration, random: nat): (delay: Duration)
    ensures base < maximum ==> base <= delay <= maximum
    ensures base < maximum ==> delay - base <= if base < 0 then 0 else base / 5
    ensures maximum <= base ==> delay == maximum
  {
    if base >= maximum then maximum
    else
      var maximumExtra := Smaller(Quotient(base, 5), Wrap(maximum - base));
      if maximumExtra <= 0 then base
      else Add(base, random % (maximumExtra + 1))
  }

  function ClampRetryDelay(delay: Duration, base: Duration, maximum: Duration): (clamped: Duration)
    ensures base <= maximum ==> base <= clamped <= maximum
    ensures base <= delay <= maximum ==> clamped == delay
  {
    Smaller(Larger(delay, base), maximum)
  }

  function NextRetryDelay(current: Duration, maximum: Duration): (next: Duration)
    ensures 0 < current ==> next == if 2 * current <= maximum then 2 * current else maximum
  {
    if current >= maximum || current > Wrap(maximum - current) then maximum
    else Smaller(Wrap(2 * current), maximum)
  }

  function Power2(n: nat): (p: nat)
    ensures 1 <= p
  {
    if n == 0 then 1 else 2 * Power2(n - 1)
  }

  /** The base of the delay after so many failures in a row, in exact arithmetic. */
  function Backoff(c: SupervisorConfig, failures: nat): (base: int)
    requires Positive(c)
    ensures c.retryInitial <= base <= c.retryMax
  {
    InitialGrows(c, failures);
    if c.retryInitial * Power2(failures) <= c.retryMax then c.retryInitial * Power2(failures) else c.retryMax
  }

  lemma InitialGrows(c: SupervisorConfig, failures: nat)
    requires Positive(c)
    ensures c.retryInitial <= c.retryInitial * Power2(failures)
    ensures c.retryInitial * Power2(failures + 1) == 2 * (c.retryInitial * Power2(failures))
  {
    Scales(c.retryInitial, Power2(failures));
    assert Power2(failures + 1) == 2 * Power2(failures);
  }

  lemma Scales(a: nat, p: nat)
    requires 1 <= p
    ensures a <= a * p && a * (2 * p) == 2 * (a * p)
  {
  }

  /** Doubling a base until it reaches the maximum doubles the exact one. */
  lemma BackoffDoubles(c: SupervisorConfig, failures: nat)
    requires Positive(c)
    ensures NextRetryDelay(Backoff(c, failures), c.retryMax) == Backoff(c, failures + 1)
    ensures Backoff(c, 0) == c.retryInitial
  {
    hide Power2;
    InitialGrows(c, failures);
    Starts(c);
  }

  lemma Starts(c: SupervisorConfig)
    requires Positive(c)
    ensures Backoff(c, 0) == c.retryInitial
  {
  }

  // ------------------------------------------------------------------- the loop

  datatype Round = Round(
    cancelledBefore: bool, failed: bool, timedOut: bool, elapsed: nat, cancelledAfter: bool,
    pending: bool, requeueAfter: Duration, jitter: Duration, waited: bool)
  {
    /** A pass that outlives its own deadline failed even if it reports no error. */
    predicate Succeeded() { !failed && !timedOut }
    predicate Completes() { !cancelledBefore && !cancelledAfter }
  }

  /** A completed pass: when it started and ended, whether it succeeded and left the probe ready,
      and how long the loop then waits. */
  datatype Pass = Pass(start: nat, end: nat, succeeded: bool, ready: bool, delay: Duration)

  /** How many of the rounds before k failed without a success between them and k. */
  function FailuresBefore(rounds: seq<Round>, k: nat): nat
    requires k <= |rounds|
  {
    if k == 0 || rounds[k - 1].Succeeded() then 0 else 1 + FailuresBefore(rounds, k - 1)
  }

  function Delay(c: SupervisorConfig, round: Round, failures: nat): (delay: Duration)
    requires Positive(c)
    ensures 0 < delay
    ensures round.Succeeded() ==> delay <= c.runInterval
    ensures !round.Succeeded() ==> Backoff(c, failures) <= delay <= c.retryMax
  {
    if round.Succeeded() then
      if 0 < round.requeueAfter < c.runInterval then round.requeueAfter else c.runInterval
    else ClampRetryDelay(round.jitter, Backoff(c, failures), c.retryMax)
  }

  /** When pass k starts: each starts as soon as the wait after the one before it is over. */
  function Start(c: SupervisorConfig, rounds: seq<Round>, k: nat): nat
    requires Positive(c) && k <= |rounds|
  {
    if k == 0 then 0
    else Start(c, rounds, k - 1) + rounds[k - 1].elapsed + Delay(c, rounds[k - 1], FailuresBefore(rounds, k - 1))
  }

  function PassAt(c: SupervisorConfig, rounds: seq<Round>, k: nat): Pass
    requires Positive(c) && k < |rounds|
  {
    Pass(Start(c, rounds, k), Start(c, rounds, k) + rounds[k].elapsed, rounds[k].Succeeded(),
         rounds[k].Succeeded() && !rounds[k].pending, Delay(c, rounds[k], FailuresBefore(rounds, k)))
  }

  /** How many passes the loop completes: up to the first round that is cancelled or not waited out. */
  ghost predicate IsCompleted(rounds: seq<Round>, n: nat) {
    && n <= |rounds|
    && (forall k :: 0 <= k < n ==> rounds[k].Completes())
    && (forall k :: 0 <= k < n - 1 ==> rounds[k].waited)
    && (n < |rounds| ==> !rounds[n].Completes() || (0 < n && !rounds[n - 1].waited))
  }

  /** What a request can see while the loop runs: live throughout, ready as the last completed
      pass left it, and at the end neither. */
  function Shown(passes: seq<Pass>): seq<Probe> {
    if passes == [] then [] else Shown(passes[..|passes| - 1]) + [Probe(true, passes[|passes| - 1].ready)]
  }

  method Run(c: SupervisorConfig, probes: ProbeState, rounds: seq<Round>)
    returns (refusal: Option<Refusal>, passes: seq<Pass>)
    modifies probes
    ensures refusal.None? <==> Positive(c)
    ensures refusal.Some? ==> passes == [] && probes.live == old(probes.live) && probes.ready == old(probes.ready)
    ensures refusal.Some? ==> probes.history == old(probes.history)
    ensures refusal.None? ==> IsCompleted(rounds, |passes|)
    ensures refusal.None? ==> forall k :: 0 <= k < |passes| ==> passes[k] == PassAt(c, rounds, k)
    ensures refusal.None? ==> !probes.live && !probes.ready
    ensures ReadyOnlyLive(old(probes.history)) ==> ReadyOnlyLive(probes.history)
    ensures refusal.None? ==>
      probes.history == old(probes.history) + [Probe(true, old(probes.ready))] + Shown(passes) +
        [Probe(true, false), Probe(false, false)]
  {
    passes := [];
    refusal := Validate(c);
    if refusal.Some? {
      return;
    }
    probes.SetLive(true);
    passes := Loop(c, probes, rounds);
    ShownIsLive(passes);
    probes.SetReady(false);
    probes.SetLive(false);
  }

  ghost predicate ReadyOnlyLive(history: seq<Probe>) {
    forall k :: 0 <= k < |history| && history[k].ready ==> history[k].live
  }

  lemma {:induction false} ShownIsLive(passes: seq<Pass>)
    ensures forall k :: 0 <= k < |Shown(passes)| ==> Shown(passes)[k].live
  {
    if passes == [] {
    } else {
      ShownIsLive(passes[..|passes| - 1]);
    }
  }

  method Loop(c: SupervisorConfig, probes: ProbeState, rounds: seq<Round>) returns (passes: seq<Pass>)
    requires Positive(c) && probes.live
    modifies probes
    ensures IsCompleted(rounds, |passes|)
    ensures forall k :: 0 <= k < |passes| ==> passes[k] == PassAt(c, rounds, k)
    ensures probes.live && probes.history == old(probes.history) + Shown(passes)
  {
    hide Backoff, Delay, Shown;
    passes := [];
    var clock := 0;
    var retryDelay := c.retryInitial;
    Starts(c);
    NothingShown();
    for k := 0 to |rounds|
      invariant |passes| == k && (forall i :: 0 <= i < k ==> rounds[i].Completes() && rounds[i].waited)
      invariant forall i :: 0 <= i < k ==> passes[i] == PassAt(c, rounds, i)
      invariant clock == Start(c, rounds, k) && retryDelay == Backoff(c, FailuresBefore(rounds, k))
      invariant probes.live && probes.history == old(probes.history) + Shown(passes)
    {
      var round := rounds[k];
      if round.cancelledBefore {
        return;
      }
      if round.cancelledAfter {
        return;
      }
      var delay;
      retryDelay, delay := Settle(c, probes, round, retryDelay, FailuresBefore(rounds, k));
      var pass := Pass(clock, clock + round.elapsed, round.Succeeded(), probes.ready, delay);
      ShownNext(passes, pass);
      passes := passes + [pass];
      if !round.waited {
        return;
      }
      clock := clock + round.elapsed + delay;
    }
  }

  /** What the loop does with a pass: the probe it sets, the delay it chooses, and the base of the
      next delay it would choose after a failure. */
  method Settle(c: SupervisorConfig, probes: ProbeState, round: Round, retryDelay: Duration, ghost failures: nat)
    returns (next: Duration, delay: Duration)
    requires Positive(c) && retryDelay == Backoff(c, failures)
    modifies probes
    ensures delay == Delay(c, round, failures)
    ensures next == Backoff(c, if round.Succeeded() then 0 else failures + 1)
    ensures probes.live == old(probes.live) && probes.ready == (round.Succeeded() && !round.pending)
    ensures probes.history == old(probes.history) + [Probe(probes.live, probes.ready)]
  {
    hide Backoff;
    var failed := round.failed;
    if !failed && round.timedOut {
      failed := true;
    }
    BackoffDoubles(c, failures);
    if !failed {
      probes.SetReady(!round.pending);
      next := c.retryInitial;
      delay := c.runInterval;
      if 0 < round.requeueAfter {
        delay := Smaller(delay, round.requeueAfter);
      }
      return;
    }
    probes.SetReady(false);
    delay := ClampRetryDelay(round.jitter, retryDelay, c.retryMax);
    next := NextRetryDelay(retryDelay, c.retryMax);
  }

  lemma NothingShown()
    ensures Shown([]) == []
  {
  }

  lemma ShownNext(passes: seq<Pass>, pass: Pass)
    ensures Shown(passes + [pass]) == Shown(passes) + [Probe(true, pass.ready)]
  {
    assert (passes + [pass])[..|passes|] == passes;
  }

  // ------------------------------------------------------------------- the timing

  /** From the start of one pass to the start of the next, when the pass keeps to its timeout. */
  lemma GapBetweenStarts(c: SupervisorConfig, rounds: seq<Round>, k: nat)
    requires Positive(c) && k < |rounds| && rounds[k].elapsed <= c.operationTimeout
    ensures Start(c, rounds, k) < Start(c, rounds, k + 1)
    ensures rounds[k].Succeeded() ==> Start(c, rounds, k + 1) - Start(c, rounds, k) <= c.runInterval + c.operationTimeout
    ensures !rounds[k].Succeeded() ==> Start(c, rounds, k + 1) - Start(c, rounds, k) <= c.retryMax + c.operationTimeout
  {
    hide Backoff, Delay;
  }

  /** After a success the next pass starts when the pass asked for it, if it asked for a time within
      the interval, and else when the interval is over. */
  lemma StartsWhenAsked(c: SupervisorConfig, rounds: seq<Round>, k: nat)
    requires Positive(c) && k < |rounds| && rounds[k].Succeeded()
    ensures var end, asked, next := PassAt(c, rounds, k).end, rounds[k].requeueAfter, Start(c, rounds, k + 1);
      && (0 < asked ==> next <= end + asked)
      && (next == end + c.runInterval || (next == end + asked && 0 < asked < c.runInterval))
      && (asked <= 0 ==> next == end + c.runInterval)
  {
  }

  /** After a failure it starts as much later as was drawn from the base, and never later than a fifth
      more than the base or the maximum. */
  lemma StartsAsDrawn(c: SupervisorConfig, rounds: seq<Round>, k: nat, random: nat)
    requires Positive(c) && k < |rounds| && !rounds[k].Succeeded()
    requires rounds[k].jitter == RetryDelayWithJitter(Backoff(c, FailuresBefore(rounds, k)), c.retryMax, random)
    ensures var end, base, next := PassAt(c, rounds, k).end, Backoff(c, FailuresBefore(rounds, k)), Start(c, rounds, k + 1);
      && next == end + rounds[k].jitter
      && end + base <= next <= end + base + base / 5 && next <= end + c.retryMax
  {
    hide Backoff;
  }

  predicate Timely(c: SupervisorConfig, rounds: seq<Round>, n: nat)
    requires n <= |rounds|
  {
    forall k :: 0 <= k < n ==> rounds[k].Succeeded() && rounds[k].elapsed <= c.operationTimeout
  }

  lemma {:induction false} FirstStartFrom(c: SupervisorConfig, rounds: seq<Round>, n: nat, x: real) returns (k: nat)
    requires Positive(c) && n <= |rounds| && Timely(c, rounds, n)
    requires 0.0 <= x <= Start(c, rounds, n) as real
    ensures k <= n && x <= Start(c, rounds, k) as real < x + (c.runInterval + c.operationTimeout) as real
  {
    hide Delay;
    if n == 0 {
      k := 0;
    } else if x <= Start(c, rounds, n - 1) as real {
      k := FirstStartFrom(c, rounds, n - 1, x);
    } else {
      GapBetweenStarts(c, rounds, n - 1);
      k := n;
    }
  }

  /** A certificate that comes to its renewal threshold at x is met by a pass less than a cycle
      later, early enough that the CA switch after it is over before the certificate expires. */
  lemma RenewedInTime(c: SupervisorConfig, r: RotationConfig, o: ResultOptions, rounds: seq<Round>, n: nat, x: real)
    returns (k: nat)
    requires Accepted(c, r, o) && n <= |rounds| && Timely(c, rounds, n)
    requires 0.0 <= x <= Start(c, rounds, n) as real
    ensures k <= n && x <= Start(c, rounds, k) as real < x + (c.runInterval + c.operationTimeout) as real
    ensures Start(c, rounds, k) as real + r.caSwitchDelay as real < x + r.renewalThreshold as real
  {
    hide Start;
    k := FirstStartFrom(c, rounds, n, x);
  }

  /** The same of the passes a run of the supervisor made, as Run gives them back. */
  lemma PassesRenewInTime(
    c: SupervisorConfig, r: RotationConfig, o: ResultOptions, rounds: seq<Round>, passes: seq<Pass>, n: nat, x: real)
    returns (k: nat)
    requires Accepted(c, r, o) && IsCompleted(rounds, |passes|)
    requires forall i :: 0 <= i < |passes| ==> passes[i] == PassAt(c, rounds, i)
    requires n < |passes| && 0.0 <= x <= passes[n].start as real
    requires forall i :: 0 <= i < n ==> passes[i].succeeded && passes[i].end - passes[i].start <= c.operationTimeout
    ensures k <= n && x <= passes[k].start as real < x + (c.runInterval + c.operationTimeout) as real
    ensures passes[k].start as real + r.caSwitchDelay as real < x + r.renewalThreshold as real
  {
    forall i | 0 <= i < n ensures rounds[i].Succeeded() && rounds[i].elapsed <= c.operationTimeout {
      assert passes[i] == PassAt(c, rounds, i);
    }
    k := RenewedInTime(c, r, o, rounds, n, x);
  }

  /** Passes keep starting: time does not run out before them. */
  lemma {:induction false} StartsGoOn(c: SupervisorConfig, rounds: seq<Round>, n: nat)
    requires Positive(c) && n <= |rounds|
    ensures n <= Start(c, rounds, n)
  {
    hide Delay;
    if n == 0 {
    } else {
      StartsGoOn(c, rounds, n - 1);
    }
  }

  /** After n failures in a row the loop waits between the initial delay doubled n times, or the
      maximum if that is less, and the maximum, whatever the jitter answered. */
  lemma WaitAfterFailures(c: SupervisorConfig, rounds: seq<Round>, k: nat, n: nat)
    requires Positive(c) && k < |rounds| && n <= k
    requires forall i :: k - n <= i <= k ==> !rounds[i].Succeeded()
    requires n == k || rounds[k - n - 1].Succeeded()
    ensures FailuresBefore(rounds, k) == n
    ensures var base := if c.retryInitial * Power2(n) <= c.retryMax then c.retryInitial * Power2(n) else c.retryMax;
      base <= PassAt(c, rounds, k).delay <= c.retryMax
  {
    hide Power2;
    CountsFailures(rounds, k, n);
  }

  lemma {:induction false} CountsFailures(rounds: seq<Round>, k: nat, n: nat)
    requires n <= k <= |rounds|
    requires forall i :: k - n <= i < k ==> !rounds[i].Succeeded()
    requires n == k || rounds[k - n - 1].Succeeded()
    ensures FailuresBefore(rounds, k) == n
  {
    if n == 0 {
    } else {
      CountsFailures(rounds, k - 1, n - 1);
    }
  }
}
