/** `getSolutionLoop` and `asyncGetSolutionLoop`: ask for the solution right
    away; while the reply is an error or empty, give up if the deadline has
    passed and otherwise ask again 3000 ms later. Real time is replaced by
    the clock reading observed with each reply, so a run is determined by
    the start time, the timeout and the sequence of observed checks. */
module Polling {
  import opened Wrappers

  /** The `timeout` of both loops when the caller passes none, in seconds. */
  const DefaultTimeout: int := 30
  /** The delay before a check is repeated, in milliseconds. */
  const RetryDelay: int := 3000
  /** What the callback form reports on timeout. */
  const CallbackTimeout: string := "captcha timeout"
  /** The message of the error the promise form rejects with on timeout. */
  const PromiseTimeout: string := "Captcha Timeout"

  /** One check: the clock reading (ms) when the reply to the solution
      query arrived, and that reply. */
  datatype Attempt = Attempt(clock: int, reply: Result<string>)

  /** `Pending`: the checks given ran out before a verdict. */
  datatype Outcome = Solved(solution: string) | Timeout | Pending

  /** The verdict and how many checks were consumed to reach it. */
  datatype Run = Run(outcome: Outcome, checks: nat)

  /** An error or an empty solution means "not solved yet". */
  predicate NotYet(reply: Result<string>) {
    reply.Err? || reply.value == ""
  }

  /** The loop goes on after this check: not solved, and `end - now > 0`. */
  predicate Continues(deadline: int, a: Attempt) {
    NotYet(a.reply) && deadline - a.clock > 0
  }

  /** The default parameter `timeout = 30`: an omitted timeout is 30 s. */
  function TimeoutOrDefault(timeout: Option<int>): (t: int)
    ensures timeout.Some? ==> t == timeout.value
    ensures timeout.None? ==> t == DefaultTimeout
  {
    if timeout.Some? then timeout.value else DefaultTimeout
  }

  /** `endTime`: the start time plus the timeout in seconds. */
  function Deadline(start: int, timeout: int): (d: int) {
    start + timeout * 1000
  }

  /** The verdict of a check that stops the loop. */
  function Stop(a: Attempt): (o: Outcome)
    ensures o.Solved? <==> !NotYet(a.reply)
    ensures o.Solved? ==> a.reply == Ok(o.solution) && o.solution != ""
  {
    if NotYet(a.reply) then Timeout else Solved(a.reply.value)
  }

  /** The reference semantics: the checks in order, each either stopping
      the loop or handing over to the next one. */
  function Poll(deadline: int, attempts: seq<Attempt>): (r: Run)
    ensures r.checks <= |attempts|
    ensures !r.outcome.Pending? ==> 1 <= r.checks
    ensures r.outcome.Pending? <==> r.checks == |attempts| && forall j :: 0 <= j < |attempts| ==> Continues(deadline, attempts[j])
    decreases |attempts|
  {
    if attempts == [] then Run(Pending, 0)
    else if !Continues(deadline, attempts[0]) then Run(Stop(attempts[0]), 1)
    else
      var rest := Poll(deadline, attempts[1..]);
      assert forall j :: 1 <= j < |attempts| ==> attempts[j] == attempts[1..][j - 1];
      Run(rest.outcome, rest.checks + 1)
  }

  /** The loop over the observed checks. */
  method GetSolutionLoop(start: int, timeout: Option<int>, attempts: seq<Attempt>)
    returns (outcome: Outcome, checks: nat)
    ensures Run(outcome, checks) == Poll(Deadline(start, TimeoutOrDefault(timeout)), attempts)
  {
    var end := start + TimeoutOrDefault(timeout) * 1000;
    checks := 0;
    outcome := Pending;
    while checks < |attempts|
      invariant 0 <= checks <= |attempts|
      invariant forall j :: 0 <= j < checks ==> Continues(end, attempts[j])
      invariant Poll(end, attempts)
        == Run(Poll(end, attempts[checks..]).outcome, Poll(end, attempts[checks..]).checks + checks)
      decreases |attempts| - checks
    {
      var a := attempts[checks];
      assert attempts[checks..][1..] == attempts[checks + 1..];
      checks := checks + 1;
      if !NotYet(a.reply) {
        outcome := Solved(a.reply.value);
        return;
      }
      if end - a.clock <= 0 {
        outcome := Timeout;
        return;
      }
    }
  }

  /** What each form reports: the callback's error string or the promise's
      error message on timeout, the solution otherwise; nothing while the
      loop is still waiting. */
  function Report(outcome: Outcome, promise: bool): (r: Option<Result<string>>)
    ensures r.None? <==> outcome.Pending?
    ensures outcome.Solved? ==> r == Some(Ok(outcome.solution))
    ensures outcome.Timeout? ==> r.Some? && r.value.Err?
    ensures outcome.Timeout? && promise ==> r.value.error == PromiseTimeout
    ensures outcome.Timeout? && !promise ==> r.value.error == CallbackTimeout
  {
    match outcome
    case Solved(s) => Some(Ok(s))
    case Timeout => Some(Err(if promise then PromiseTimeout else CallbackTimeout))
    case Pending => None
  }

  /** The loop stops at the first check that does not continue it, with
      that check's verdict. */
  lemma {:induction false} FirstStop(deadline: int, attempts: seq<Attempt>, k: nat)
    requires k < |attempts| && !Continues(deadline, attempts[k])
    requires forall j :: 0 <= j < k ==> Continues(deadline, attempts[j])
    ensures Poll(deadline, attempts) == Run(Stop(attempts[k]), k + 1)
    decreases k
  {
    if k > 0 {
      assert Continues(deadline, attempts[0]);
      var rest := attempts[1..];
      assert forall j :: 0 <= j < k - 1 ==> rest[j] == attempts[j + 1];
      FirstStop(deadline, rest, k - 1);
    }
  }

  /** Every stopped run ends at a check that does not continue the loop,
      after checks that all did. */
  lemma {:induction false} StoppedRun(deadline: int, attempts: seq<Attempt>)
    requires !Poll(deadline, attempts).outcome.Pending?
    ensures var r := Poll(deadline, attempts);
      && 1 <= r.checks
      && !Continues(deadline, attempts[r.checks - 1])
      && r.outcome == Stop(attempts[r.checks - 1])
      && forall j :: 0 <= j < r.checks - 1 ==> Continues(deadline, attempts[j])
    decreases |attempts|
  {
    if Continues(deadline, attempts[0]) {
      var rest := attempts[1..];
      StoppedRun(deadline, rest);
      var r := Poll(deadline, rest);
      assert forall j :: 0 <= j < r.checks ==> rest[j] == attempts[j + 1];
    }
  }

  /** Success only with a non-empty reply, and the first one: every check
      before it failed and found time left. */
  lemma SolvedIsFirstSolution(deadline: int, attempts: seq<Attempt>)
    requires Poll(deadline, attempts).outcome.Solved?
    ensures var r := Poll(deadline, attempts);
      && attempts[r.checks - 1].reply == Ok(r.outcome.solution)
      && r.outcome.solution != ""
      && forall j :: 0 <= j < r.checks - 1 ==> NotYet(attempts[j].reply)
  {
    StoppedRun(deadline, attempts);
  }

  /** Timeout only when the check that ended the loop failed and its clock
      had reached the deadline. */
  lemma TimeoutOnlyPastDeadline(deadline: int, attempts: seq<Attempt>)
    requires Poll(deadline, attempts).outcome.Timeout?
    ensures var r := Poll(deadline, attempts);
      && NotYet(attempts[r.checks - 1].reply)
      && attempts[r.checks - 1].clock >= deadline
  {
    StoppedRun(deadline, attempts);
  }

  /** The first check is made at once: a solution in its reply is taken
      even when its clock is already past the deadline. */
  lemma FirstReplyWins(deadline: int, attempts: seq<Attempt>)
    requires attempts != [] && !NotYet(attempts[0].reply)
    ensures Poll(deadline, attempts) == Run(Solved(attempts[0].reply.value), 1)
  {
  }

  /** Two check sequences that agree on every clock, on which replies are
      "not yet" and on every solution give the same run: an error counts
      exactly like an empty solution. */
  lemma {:induction false} NotYetInterchangeable(deadline: int, xs: seq<Attempt>, ys: seq<Attempt>)
    requires |xs| == |ys|
    requires forall i :: 0 <= i < |xs| ==> xs[i].clock == ys[i].clock
    requires forall i :: 0 <= i < |xs| ==> NotYet(xs[i].reply) == NotYet(ys[i].reply)
    requires forall i :: 0 <= i < |xs| && !NotYet(xs[i].reply) ==> xs[i].reply == ys[i].reply
    ensures Poll(deadline, xs) == Poll(deadline, ys)
    decreases |xs|
  {
    if xs != [] {
      var xr, yr := xs[1..], ys[1..];
      assert forall i :: 0 <= i < |xr| ==> xr[i] == xs[i + 1] && yr[i] == ys[i + 1];
      NotYetInterchangeable(deadline, xr, yr);
    }
  }

  /** An error reply in place of an empty one changes nothing. */
  lemma ErrorLikeEmpty(deadline: int, before: seq<Attempt>, clock: int, e: string, after: seq<Attempt>)
    ensures Poll(deadline, before + [Attempt(clock, Err(e))] + after)
         == Poll(deadline, before + [Attempt(clock, Ok(""))] + after)
  {
    var xs := before + [Attempt(clock, Err(e))] + after;
    var ys := before + [Attempt(clock, Ok(""))] + after;
    assert forall i :: 0 <= i < |xs| && i != |before| ==> xs[i] == ys[i];
    NotYetInterchangeable(deadline, xs, ys);
  }

  /** The checks happen no earlier than the start and each retry at least
      `RetryDelay` after the previous check. */
  predicate WellTimed(start: int, attempts: seq<Attempt>) {
    && (attempts != [] ==> attempts[0].clock >= start)
    && forall i :: 0 < i < |attempts| ==> attempts[i].clock >= attempts[i - 1].clock + RetryDelay
  }

  /** The most checks a run with this timeout can make. */
  function MaxChecks(timeout: int): (n: nat)
    ensures n >= 1
  {
    if timeout * 1000 <= 0 then 1 else (timeout * 1000 - 1) / RetryDelay + 2
  }

  /** Check `i` of a well-timed run happens at least `i` delays after the
      start. */
  lemma {:induction false} ClockLowerBound(start: int, attempts: seq<Attempt>, i: nat)
    requires WellTimed(start, attempts) && i < |attempts|
    ensures attempts[i].clock >= start + RetryDelay * i
    decreases i
  {
    if i > 0 {
      ClockLowerBound(start, attempts, i - 1);
    }
  }

  /** A check that continues the loop happened before the deadline, so in
      a well-timed run only the first few can. */
  lemma ContinuingCheckEarly(start: int, timeout: int, attempts: seq<Attempt>, j: nat)
    requires WellTimed(start, attempts) && j < |attempts|
    requires Continues(Deadline(start, timeout), attempts[j])
    ensures j + 2 <= MaxChecks(timeout)
  {
    ClockLowerBound(start, attempts, j);
    var t := timeout * 1000;
    assert RetryDelay * j < t;
    assert RetryDelay * j <= t - 1;
    DivBound(t - 1, j);
  }

  lemma DivBound(m: int, j: nat)
    requires RetryDelay * j <= m
    ensures j <= m / RetryDelay
  {
  }

  /** In a well-timed run the loop makes at most `MaxChecks(timeout)`
      checks, and given that many observations it always reaches a
      verdict. */
  lemma CheckBound(start: int, timeout: int, attempts: seq<Attempt>)
    requires WellTimed(start, attempts)
    ensures Poll(Deadline(start, timeout), attempts).checks <= MaxChecks(timeout)
    ensures |attempts| >= MaxChecks(timeout) ==> !Poll(Deadline(start, timeout), attempts).outcome.Pending?
  {
    var d := Deadline(start, timeout);
    var r := Poll(d, attempts);
    if r.outcome.Pending? {
      if |attempts| >= MaxChecks(timeout) {
        var j := MaxChecks(timeout) - 1;
        ContinuingCheckEarly(start, timeout, attempts, j);
      }
      if r.checks >= 2 {
        ContinuingCheckEarly(start, timeout, attempts, r.checks - 2);
      }
    } else {
      StoppedRun(d, attempts);
      if r.checks >= 2 {
        ContinuingCheckEarly(start, timeout, attempts, r.checks - 2);
      }
    }
  }

  /** The loop method taken over a well-timed run that is long enough never
      leaves the caller waiting. */
  method LoopReachesVerdict(start: int, timeout: Option<int>, attempts: seq<Attempt>)
    returns (outcome: Outcome, checks: nat)
    requires WellTimed(start, attempts) && |attempts| >= MaxChecks(TimeoutOrDefault(timeout))
    ensures !outcome.Pending? && 1 <= checks <= MaxChecks(TimeoutOrDefault(timeout))
  {
    outcome, checks := GetSolutionLoop(start, timeout, attempts);
    CheckBound(start, TimeoutOrDefault(timeout), attempts);
  }

  /** With the default timeout a well-timed run makes at most 11 checks:
      one at once and one every 3 s until the 30 s have passed. */
  lemma DefaultTimeoutChecks(start: int, attempts: seq<Attempt>)
    requires WellTimed(start, attempts)
    ensures Poll(Deadline(start, TimeoutOrDefault(None)), attempts).checks <= 11
    ensures |attempts| >= 11 ==> !Poll(Deadline(start, TimeoutOrDefault(None)), attempts).outcome.Pending?
  {
    assert MaxChecks(DefaultTimeout) == 11;
    CheckBound(start, DefaultTimeout, attempts);
  }
}
