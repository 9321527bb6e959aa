/**
 * The request pacing of `enforce_api_rate_limit`: a process-wide counter,
 * bumped before every service attempt, and a one-minute pause whenever the
 * new count is a multiple of `MaxRequestsBeforePause`. The pause itself is
 * modelled as an event counted in `pauses`.
 */
module Pacing {

  const MaxRequestsBeforePause: nat := 10

  /** The counter of requests made so far and the pauses taken so far. */
  datatype Pacer = Pacer(counter: nat, pauses: nat)

  /** The state at process start: `request_counter = 0`, no pause yet. */
  const Initial: Pacer := Pacer(0, 0)

  /** One pause for every completed block of `MaxRequestsBeforePause` requests. */
  predicate Paced(p: Pacer) {
    p.pauses == p.counter / MaxRequestsBeforePause
  }

  /** `enforce_api_rate_limit`: count the request, pause when the count hits a multiple. */
  function EnforceRateLimit(p: Pacer): (r: Pacer)
    ensures r.counter == p.counter + 1
    ensures Paced(p) ==> Paced(r)
  {
    var counter := p.counter + 1;
    if counter % MaxRequestsBeforePause == 0 then Pacer(counter, p.pauses + 1)
    else Pacer(counter, p.pauses)
  }

  /** `n` consecutive calls of `EnforceRateLimit`. */
  function Run(p: Pacer, n: nat): (r: Pacer)
    ensures r.counter == p.counter + n
    decreases n
  {
    if n == 0 then p else Run(EnforceRateLimit(p), n - 1)
  }

  /** A call pauses exactly when it moves the counter into a new block of ten. */
  lemma StepPauses(p: Pacer)
    ensures EnforceRateLimit(p).pauses - p.pauses
         == (p.counter + 1) / MaxRequestsBeforePause - p.counter / MaxRequestsBeforePause
  {
  }

  /** `n` calls from any state pause once per multiple of ten they pass. */
  lemma {:induction false} RunPauses(p: Pacer, n: nat)
    ensures Run(p, n).pauses
         == p.pauses + (p.counter + n) / MaxRequestsBeforePause - p.counter / MaxRequestsBeforePause
    decreases n
  {
    if n > 0 {
      StepPauses(p);
      RunPauses(EnforceRateLimit(p), n - 1);
    }
  }

  /** From process start, `n` requests produce `n div 10` pauses. */
  lemma PausesFromStart(n: nat)
    ensures Run(Initial, n).pauses == n / MaxRequestsBeforePause
    ensures Paced(Run(Initial, n))
  {
    RunPauses(Initial, n);
  }

  /** Any ten consecutive requests contain exactly one pause. */
  lemma TenRequestsOnePause(p: Pacer)
    ensures Run(p, MaxRequestsBeforePause).pauses == p.pauses + 1
  {
    RunPauses(p, MaxRequestsBeforePause);
  }

  /** Running `a` calls and then `b` more is running `a + b` calls. */
  lemma {:induction false} RunCompose(p: Pacer, a: nat, b: nat)
    ensures Run(Run(p, a), b) == Run(p, a + b)
    decreases a
  {
    if a > 0 {
      RunCompose(EnforceRateLimit(p), a - 1, b);
    }
  }
}
