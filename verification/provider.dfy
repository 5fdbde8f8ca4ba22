/**
 `DeepSeekProvider.invoke`: a retry loop behind a circuit breaker. Time is in milliseconds.
 What the transport answers, and what the clock shows, are parameters.
 */
module Provider {
  import opened Prelude

  const OPEN_MS := 30_000
  const FAILURES_TO_OPEN := 3
  const MAX_SAFE := 9_007_199_254_740_991.0

  /** A `retry-after` header by what `Number` and `Date.parse` make of it, when they are finite. */
  datatype Header = Header(seconds: Option<real>, date: Option<real>)

  datatype Usage = Usage(prompt: Option<real>, completion: Option<real>, cacheHit: Option<real>,
                         cacheMiss: Option<real>)

  datatype Counts = Counts(inputTokens: real, outputTokens: real, cacheHitTokens: real, cacheMissTokens: real)

  /** What one call of the transport leads to. */
  datatype Reply =
    | Thrown(name: string)                                   // no connection, aborted, or a body that is not JSON
    | Busy(status: int, retryAfter: Option<Header>, at: real)  // 429 or 500 and above, answered at that time
    | Refused(status: int)                                   // any other status that is not ok
    | Empty                                                  // no content
    | Content(text: string, usage: Usage)

  datatype Outcome =
    | Answered(text: string, counts: Counts, retryCount: nat)
    | ResponseError(message: string)
    | Unavailable(reason: string)

  datatype Circuit = Circuit(failureCount: nat, openUntil: int)

  // ----- one reply -----

  function UsageCounter(value: Option<real>): Option<real> {
    if value.None? then Some(0.0)
    else if value.value != value.value.Floor as real || value.value > MAX_SAFE || value.value < 0.0 then None
    else value
  }

  function Power(base: nat, exponent: nat): nat {
    if exponent == 0 then 1 else base * Power(base, exponent - 1)
  }

  function Min(a: real, b: real): real {
    if a <= b then a else b
  }

  function RetryDelayMs(retryAfter: Option<Header>, attempt: nat, now: real): (delay: real)
    ensures 0.0 <= delay <= 5_000.0
    ensures retryAfter.None? ==> delay <= 2_000.0
  {
    if retryAfter.Some? && retryAfter.value.seconds.Some? && retryAfter.value.seconds.value >= 0.0 then
      Min(5_000.0, retryAfter.value.seconds.value * 1_000.0)
    else if retryAfter.Some? && retryAfter.value.date.Some? then
      Min(5_000.0, if retryAfter.value.date.value - now >= 0.0 then retryAfter.value.date.value - now else 0.0)
    else Min(2_000.0, 250.0 * Power(2, attempt) as real)
  }

  /** Without a header the delay doubles from 250 ms and stays at two seconds from the fourth retry on. */
  lemma {:induction false} BackoffDoubles(attempt: nat, now: real)
    ensures attempt < 3 ==> RetryDelayMs(None, attempt + 1, now) == 2.0 * RetryDelayMs(None, attempt, now)
    ensures attempt >= 3 ==> RetryDelayMs(None, attempt, now) == 2_000.0
    decreases attempt
  {
    assert Power(2, 0) == 1 && Power(2, 1) == 2 && Power(2, 2) == 4;
    assert Power(2, 3) == 8;
    if attempt > 3 {
      BackoffDoubles(attempt - 1, now);
      assert Power(2, attempt) >= Power(2, attempt - 1);
    }
  }

  /** A reply the loop does not try again after. */
  predicate IsFinal(reply: Reply) {
    reply.Refused? || reply.Empty? || reply.Content?
  }

  function FinalOutcome(reply: Reply, attempt: nat): Outcome
    requires IsFinal(reply)
  {
    match reply
    case Refused(_) => ResponseError("DeepSeek HTTP")
    case Empty => ResponseError("DeepSeek response content is missing")
    case Content(text, usage) =>
      var prompt, completion := UsageCounter(usage.prompt), UsageCounter(usage.completion);
      var hit, miss := UsageCounter(usage.cacheHit), UsageCounter(usage.cacheMiss);
      if prompt.None? || completion.None? || hit.None? || miss.None? then ResponseError("DeepSeek usage is invalid")
      else Answered(text, Counts(prompt.value, completion.value, hit.value, miss.value), attempt)
  }

  /** A counter that is missing, or a whole number from zero to the greatest safe integer. */
  predicate IsCount(value: Option<real>) {
    value.None? || (value.value.Floor as real == value.value && 0.0 <= value.value <= 9_007_199_254_740_991.0)
  }

  function OrZero(value: Option<real>): real {
    if value.None? then 0.0 else value.value
  }

  /** Content is an answer exactly when its four counters are counts, and then names each of them, with zero for none. */
  lemma AnswersReportTheirUsage(text: string, usage: Usage, attempt: nat)
    ensures var outcome := FinalOutcome(Content(text, usage), attempt);
      && (outcome.Answered? <==>
            IsCount(usage.prompt) && IsCount(usage.completion) && IsCount(usage.cacheHit) && IsCount(usage.cacheMiss))
      && (!outcome.Answered? ==> outcome.ResponseError?)
      && (outcome.Answered? ==>
            && outcome.text == text && outcome.retryCount == attempt
            && outcome.counts.inputTokens == OrZero(usage.prompt)
            && outcome.counts.outputTokens == OrZero(usage.completion)
            && outcome.counts.cacheHitTokens == OrZero(usage.cacheHit)
            && outcome.counts.cacheMissTokens == OrZero(usage.cacheMiss))
  {
  }

  /** A header in seconds is kept up to five of them, one with a date until then and no longer; otherwise it is 250 ms at first. */
  lemma HeadersSetTheDelay(header: Header, attempt: nat, now: real)
    ensures var delay := RetryDelayMs(Some(header), attempt, now);
      match (header.seconds, header.date)
      case (Some(s), date) =>
        && (0.0 <= s <= 5.0 ==> delay == s * 1_000.0) && (s > 5.0 ==> delay == 5_000.0)
        && (s < 0.0 ==> delay == RetryDelayMs(Some(Header(None, date)), attempt, now))
      case (None, Some(date)) =>
        && (date <= now ==> delay == 0.0) && (now <= date <= now + 5_000.0 ==> now + delay == date)
        && (date > now + 5_000.0 ==> delay == 5_000.0)
      case (None, None) => delay == RetryDelayMs(None, attempt, now)
    ensures RetryDelayMs(None, 0, now) == 250.0
  {
  }

  function ErrorName(reply: Reply): string {
    if reply.Thrown? then reply.name else "Error"
  }

  // ----- one invocation -----

  /** The calls a retry loop makes: up to and including the first final reply. */
  function Calls(replies: seq<Reply>): (n: nat)
    ensures n <= |replies|
    ensures forall i :: 0 <= i < n - 1 ==> !IsFinal(replies[i])
    ensures n < |replies| ==> n > 0 && IsFinal(replies[n - 1])
  {
    if replies == [] then 0 else if IsFinal(replies[0]) then 1 else 1 + Calls(replies[1..])
  }

  /** The delays asked for after the busy replies that are tried again. */
  function Waits(replies: seq<Reply>, made: nat, maxRetries: nat): (waits: seq<real>)
    requires made <= |replies|
    ensures |waits| <= made && |waits| <= maxRetries
    ensures forall i :: 0 <= i < |waits| ==> 0.0 <= waits[i] <= 5_000.0
    decreases made
  {
    if made == 0 then []
    else
      var n := made - 1;
      var before := Waits(replies, n, maxRetries);
      if replies[n].Busy? && n < maxRetries
      then before + [RetryDelayMs(replies[n].retryAfter, n, replies[n].at)]
      else before
  }

  function BusyAmong(replies: seq<Reply>, n: nat): (count: nat)
    requires n <= |replies|
    ensures count <= n
  {
    if n == 0 then 0 else BusyAmong(replies, n - 1) + (if replies[n - 1].Busy? then 1 else 0)
  }

  /** The loop waits after each busy reply it retries, and after nothing else. */
  lemma {:induction false} WaitsAfterBusyRepliesAlone(replies: seq<Reply>, made: nat, maxRetries: nat)
    requires made <= |replies|
    ensures |Waits(replies, made, maxRetries)| == BusyAmong(replies, if made <= maxRetries then made else maxRetries)
    ensures made > 0 && made <= maxRetries && replies[made - 1].Busy? ==>
      Waits(replies, made, maxRetries)
      == Waits(replies, made - 1, maxRetries)
         + [RetryDelayMs(replies[made - 1].retryAfter, made - 1, replies[made - 1].at)]
    decreases made
  {
    if made > 0 {
      WaitsAfterBusyRepliesAlone(replies, made - 1, maxRetries);
    }
  }

  function Total(waits: seq<real>): (total: real)
    requires forall i :: 0 <= i < |waits| ==> 0.0 <= waits[i] <= 5_000.0
    ensures 0.0 <= total <= 5_000.0 * |waits| as real
  {
    if waits == [] then 0.0 else Total(waits[..|waits| - 1]) + waits[|waits| - 1]
  }

  predicate Admits(c: Circuit, start: int) {
    start >= c.openUntil
  }

  /** What an invocation that reaches the transport comes to, given the replies of the attempts it may make. */
  function Concluded(replies: seq<Reply>): Outcome
    requires replies != []
  {
    var made := Calls(replies);
    if made > 0 && IsFinal(replies[made - 1]) then FinalOutcome(replies[made - 1], made - 1)
    else Unavailable(ErrorName(replies[|replies| - 1]))
  }

  /** The breaker afterwards. `finish` is the time when the failure is counted. */
  function Noted(c: Circuit, replies: seq<Reply>, finish: int): Circuit
    requires replies != []
  {
    var made := Calls(replies);
    if made > 0 && replies[made - 1].Content? then Circuit(0, c.openUntil)
    else if made > 0 && IsFinal(replies[made - 1]) then c
    else
      var failures := c.failureCount + 1;
      Circuit(failures, if failures >= FAILURES_TO_OPEN then finish + OPEN_MS else c.openUntil)
  }

  lemma {:induction false} CallsOfPrefix(replies: seq<Reply>, n: nat)
    requires n < |replies| && forall i :: 0 <= i < n ==> !IsFinal(replies[i])
    ensures IsFinal(replies[n]) ==> Calls(replies) == n + 1
    ensures n + 1 == |replies| ==> Calls(replies) == n + 1
    decreases n
  {
    if n > 0 {
      assert replies[n] == replies[1..][n - 1];
      CallsOfPrefix(replies[1..], n - 1);
    }
  }

  class DeepSeekProvider {
    const apiKey: Option<string>
    const maxRetries: nat
    var circuit: Circuit

    constructor (apiKey: Option<string>, maxRetries: nat)
      ensures this.apiKey == apiKey && this.maxRetries == maxRetries && circuit == Circuit(0, 0)
    {
      this.apiKey := apiKey;
      this.maxRetries := maxRetries;
      circuit := Circuit(0, 0);
    }

    /** `replies[i]` is what the transport answers attempt `i`, if that attempt is made. */
    method Invoke(start: int, replies: seq<Reply>, finish: int)
      returns (outcome: Outcome, calls: nat, waits: seq<real>)
      requires |replies| == maxRetries + 1
      modifies this
      ensures calls <= maxRetries + 1 && |waits| <= maxRetries
      ensures forall i :: 0 <= i < |waits| ==> 0.0 <= waits[i] <= 5_000.0
      ensures Total(waits) <= 5_000.0 * maxRetries as real
      ensures apiKey.None? || !Admits(old(circuit), start) ==>
                outcome.Unavailable? && calls == 0 && waits == [] && circuit == old(circuit)
      ensures apiKey.Some? && Admits(old(circuit), start) ==>
                && outcome == Concluded(replies) && circuit == Noted(old(circuit), replies, finish)
                && calls == Calls(replies) && waits == Waits(replies, calls, maxRetries)
    {
      calls, waits := 0, [];
      if apiKey.None? {
        return Unavailable("DeepSeek is not configured"), calls, waits;
      }
      if start < circuit.openUntil {
        return Unavailable("DeepSeek circuit is open"), calls, waits;
      }
      var lastError := "DeepSeek request failed";
      var attempt := 0;
      while attempt <= maxRetries
        invariant attempt <= maxRetries + 1 && calls == attempt
        invariant forall i :: 0 <= i < attempt ==> !IsFinal(replies[i])
        invariant waits == Waits(replies, attempt, maxRetries)
        invariant attempt == maxRetries + 1 ==> lastError == ErrorName(replies[maxRetries])
        invariant circuit == old(circuit)
      {
        var reply := replies[attempt];
        calls := calls + 1;
        CallsOfPrefix(replies, attempt);
        if reply.Busy? {
          if attempt < maxRetries {
            waits := waits + [RetryDelayMs(reply.retryAfter, attempt, reply.at)];
            attempt := attempt + 1;
            continue;
          }
          lastError := "Error";
          break;
        }
        if reply.Thrown? {
          lastError := reply.name;
          attempt := attempt + 1;
          continue;
        }
        outcome := FinalOutcome(reply, attempt);
        if reply.Content? {
          circuit := circuit.(failureCount := 0);
        }
        return;
      }
      CallsOfPrefix(replies, maxRetries);
      circuit := circuit.(failureCount := circuit.failureCount + 1);
      if circuit.failureCount >= FAILURES_TO_OPEN {
        circuit := circuit.(openUntil := finish + OPEN_MS);
      }
      outcome := Unavailable(lastError);
    }
  }

  // ----- sequential runs -----

  datatype Invocation = Invocation(start: int, replies: seq<Reply>, finish: int)

  predicate InSequence(runs: seq<Invocation>) {
    && (forall i :: 0 <= i < |runs| ==> runs[i].replies != [] && runs[i].start <= runs[i].finish)
    && (forall i, j :: 0 <= i < j < |runs| ==> runs[i].finish <= runs[j].start)
  }

  /** Every invocation fails as unavailable if it reaches the transport. */
  predicate ServiceIsDown(runs: seq<Invocation>) {
    forall i :: 0 <= i < |runs| ==> runs[i].replies != [] && Concluded(runs[i].replies).Unavailable?
  }

  function After(c: Circuit, runs: seq<Invocation>): Circuit
    requires forall i :: 0 <= i < |runs| ==> runs[i].replies != []
  {
    if runs == [] then c
    else
      var last := runs[|runs| - 1];
      var before := After(c, runs[..|runs| - 1]);
      if Admits(before, last.start) then Noted(before, last.replies, last.finish) else before
  }

  /** The invocations the breaker lets through. */
  function Reaching(c: Circuit, runs: seq<Invocation>): seq<Invocation>
    requires forall i :: 0 <= i < |runs| ==> runs[i].replies != []
  {
    if runs == [] then []
    else
      var last := runs[|runs| - 1];
      Reaching(c, runs[..|runs| - 1]) + (if Admits(After(c, runs[..|runs| - 1]), last.start) then [last] else [])
  }

  /** The last call of the invocation got content, whether its usage was valid or not. */
  predicate GotContent(replies: seq<Reply>) {
    Calls(replies) > 0 && replies[Calls(replies) - 1].Content?
  }

  /** Failures since the last content, on top of those before the first invocation. */
  function FailuresInARow(earlier: nat, reaching: seq<Invocation>): nat
    requires forall i :: 0 <= i < |reaching| ==> reaching[i].replies != []
  {
    if reaching == [] then earlier
    else
      var before, last := FailuresInARow(earlier, reaching[..|reaching| - 1]), reaching[|reaching| - 1];
      if GotContent(last.replies) then 0 else if Concluded(last.replies).Unavailable? then before + 1 else before
  }

  /** The breaker opened for thirty seconds after the last failure that was at least the third in a row. */
  function OpenedUntil(c: Circuit, reaching: seq<Invocation>): int
    requires forall i :: 0 <= i < |reaching| ==> reaching[i].replies != []
  {
    if reaching == [] then c.openUntil
    else
      var last := reaching[|reaching| - 1];
      if Concluded(last.replies).Unavailable? && FailuresInARow(c.failureCount, reaching) >= 3
      then last.finish + 30_000
      else OpenedUntil(c, reaching[..|reaching| - 1])
  }

  lemma {:induction false} ReachingHaveReplies(c: Circuit, runs: seq<Invocation>)
    requires forall i :: 0 <= i < |runs| ==> runs[i].replies != []
    ensures forall i :: 0 <= i < |Reaching(c, runs)| ==> Reaching(c, runs)[i].replies != []
    decreases |runs|
  {
    if runs != [] {
      ReachingHaveReplies(c, runs[..|runs| - 1]);
    }
  }

  lemma {:induction false} LastInvocationIsNoted(c: Circuit, r: seq<Invocation>, last: Invocation, before: Circuit)
    requires last.replies != [] && forall i :: 0 <= i < |r| ==> r[i].replies != []
    requires before == Circuit(FailuresInARow(c.failureCount, r), OpenedUntil(c, r))
    ensures Noted(before, last.replies, last.finish)
         == Circuit(FailuresInARow(c.failureCount, r + [last]), OpenedUntil(c, r + [last]))
  {
    assert (r + [last])[..|r|] == r;
  }

  /** In every run the breaker counts the failures in a row since the last content, and is open after the third. */
  lemma {:induction false} BreakerCountsFailuresInARow(c: Circuit, runs: seq<Invocation>)
    requires forall i :: 0 <= i < |runs| ==> runs[i].replies != []
    ensures forall i :: 0 <= i < |Reaching(c, runs)| ==> Reaching(c, runs)[i].replies != []
    ensures After(c, runs) == Circuit(FailuresInARow(c.failureCount, Reaching(c, runs)), OpenedUntil(c, Reaching(c, runs)))
    decreases |runs|
  {
    ReachingHaveReplies(c, runs);
    if runs != [] {
      var n := |runs| - 1;
      BreakerCountsFailuresInARow(c, runs[..n]);
      if Admits(After(c, runs[..n]), runs[n].start) {
        LastInvocationIsNoted(c, Reaching(c, runs[..n]), runs[n], After(c, runs[..n]));
      } else {
        assert Reaching(c, runs) == Reaching(c, runs[..n]);
      }
    }
  }

  predicate Spaced(reaching: seq<Invocation>) {
    && (forall i :: 0 <= i < |reaching| ==> reaching[i].start <= reaching[i].finish)
    && (forall i, j :: 0 <= i < j < |reaching| ==> reaching[i].finish <= reaching[j].start)
    && (forall i :: 3 <= i < |reaching| ==> reaching[i - 1].finish + OPEN_MS <= reaching[i].start)
  }

  lemma SpacingGrows(r: seq<Invocation>, next: Invocation)
    requires Spaced(r) && next.start <= next.finish
    requires r != [] ==> r[|r| - 1].finish <= next.start
    requires |r| >= 3 ==> r[|r| - 1].finish + OPEN_MS <= next.start
    ensures Spaced(r + [next])
  {
    forall i | 0 <= i < |r| ensures r[i].finish <= next.start {
      assert r[i].finish <= r[|r| - 1].finish;
    }
  }

  lemma FailureIsNoted(c: Circuit, replies: seq<Reply>, finish: int)
    requires replies != [] && Concluded(replies).Unavailable?
    ensures Noted(c, replies, finish)
         == Circuit(c.failureCount + 1, if c.failureCount + 1 >= FAILURES_TO_OPEN then finish + OPEN_MS else c.openUntil)
  {
  }

  /** What is known of the breaker and of the invocations that reached, while the service is down. */
  predicate Counted(failures: nat, c: Circuit, r: seq<Invocation>) {
    && Spaced(r)
    && c.failureCount == failures + |r|
    && (|r| >= 3 ==> c.openUntil == r[|r| - 1].finish + OPEN_MS)
  }

  lemma CountingGoesOn(failures: nat, c: Circuit, r: seq<Invocation>, next: Invocation)
    requires Counted(failures, c, r) && Admits(c, next.start) && next.start <= next.finish
    requires r != [] ==> r[|r| - 1].finish <= next.start
    requires next.replies != [] && Concluded(next.replies).Unavailable?
    ensures Counted(failures, Noted(c, next.replies, next.finish), r + [next])
  {
    FailureIsNoted(c, next.replies, next.finish);
    SpacingGrows(r, next);
  }

  lemma PrefixIsDown(runs: seq<Invocation>, n: nat)
    requires InSequence(runs) && ServiceIsDown(runs) && n <= |runs|
    ensures InSequence(runs[..n]) && ServiceIsDown(runs[..n])
  {
  }

  lemma {:induction false} ReachingAreRuns(c: Circuit, runs: seq<Invocation>, end: int)
    requires forall i :: 0 <= i < |runs| ==> runs[i].replies != [] && runs[i].finish <= end
    ensures forall k :: 0 <= k < |Reaching(c, runs)| ==> Reaching(c, runs)[k].finish <= end
    decreases |runs|
  {
    if runs != [] {
      ReachingAreRuns(c, runs[..|runs| - 1], end);
    }
  }

  /** While the service is down the breaker counts every failure, and from the third on keeps 30 seconds between them. */
  lemma {:induction false} FailuresAreSpaced(c: Circuit, runs: seq<Invocation>)
    requires InSequence(runs) && ServiceIsDown(runs)
    ensures Counted(c.failureCount, After(c, runs), Reaching(c, runs))
    decreases |runs|
  {
    if runs != [] {
      var n := |runs| - 1;
      PrefixIsDown(runs, n);
      FailuresAreSpaced(c, runs[..n]);
      ReachingAreRuns(c, runs[..n], runs[n].start);
      if Admits(After(c, runs[..n]), runs[n].start) {
        CountingGoesOn(c.failureCount, After(c, runs[..n]), Reaching(c, runs[..n]), runs[n]);
      }
    }
  }

  lemma {:induction false} GapsAddUp(r: seq<Invocation>, k: nat, m: nat)
    requires Spaced(r) && 2 <= k <= m < |r|
    ensures r[m].start - r[k].start >= OPEN_MS * (m - k)
    decreases m
  {
    if k < m {
      GapsAddUp(r, k, m - 1);
    }
  }

  /** The indices of the reaching invocations that start within the window. */
  function Within(r: seq<Invocation>, begin: int, length: nat): set<nat> {
    set i: nat | 0 <= i < |r| && begin <= r[i].start <= begin + length
  }

  lemma {:induction false} IntervalSize(s: set<nat>, low: nat, high: int)
    requires forall i :: i in s ==> low <= i <= high
    ensures |s| <= if low <= high + 1 then high + 1 - low else 0
    decreases high + 1 - low
  {
    if low <= high {
      IntervalSize(s - {low}, low + 1, high);
      if low in s {
        assert |s| == |s - {low}| + 1;
      } else {
        assert s - {low} == s;
      }
    } else {
      assert s == {};
    }
  }

  lemma WindowIsShort(r: seq<Invocation>, a: nat, b: nat, length: nat)
    requires Spaced(r) && a <= b < |r| && r[b].start - r[a].start <= length
    ensures b - a + 1 <= 3 + length / OPEN_MS
  {
    if b >= a + 3 {
      GapsAddUp(r, a + 2, b);
      assert r[a].start <= r[a + 2].start;
      assert OPEN_MS * (b - a - 2) <= length;
      assert b - a - 2 <= length / OPEN_MS;
    }
  }

  /**
   From any state of the breaker, while the service is down, no more than
   3 + floor(length / 30000) invocations reach the transport in any window of that length.
   */
  lemma {:induction false} FewInvocationsReachADeadService(c: Circuit, runs: seq<Invocation>, begin: int, length: nat)
    requires InSequence(runs) && ServiceIsDown(runs)
    ensures |Within(Reaching(c, runs), begin, length)| <= 3 + length / OPEN_MS
  {
    var r := Reaching(c, runs);
    FailuresAreSpaced(c, runs);
    var within := Within(r, begin, length);
    if within != {} {
      var a := Least(within);
      var b := Greatest(within);
      WindowIsShort(r, a, b, length);
      IntervalSize(within, a, b);
    }
  }

  lemma {:induction false} Least(s: set<nat>) returns (low: nat)
    requires s != {}
    ensures low in s && forall i :: i in s ==> low <= i
    decreases |s|
  {
    low :| low in s;
    if s != {low} {
      var other := Least(s - {low});
      assert s == (s - {low}) + {low};
      if other < low {
        low := other;
      }
    }
  }

  lemma {:induction false} Greatest(s: set<nat>) returns (high: nat)
    requires s != {}
    ensures high in s && forall i :: i in s ==> i <= high
    decreases |s|
  {
    high :| high in s;
    if s != {high} {
      var other := Greatest(s - {high});
      assert s == (s - {high}) + {high};
      if other > high {
        high := other;
      }
    }
  }

  // ----- the bound is reached -----

  function DownAt(i: nat): Invocation {
    var time := if i < 3 then 0 else OPEN_MS * (i - 2);
    Invocation(time, [Thrown("TypeError")], time)
  }

  function DownRun(n: nat): seq<Invocation> {
    seq(n, i requires 0 <= i < n => DownAt(i))
  }

  lemma DownRunIsDown(n: nat)
    ensures InSequence(DownRun(n)) && ServiceIsDown(DownRun(n))
  {
    forall i | 0 <= i < n ensures Concluded(DownRun(n)[i].replies).Unavailable? {
      assert Calls([Thrown("TypeError")]) == 1;
    }
  }

  /** The breaker after `n` of these failures still lets the next one through. */
  predicate OpensInTime(c: Circuit, n: nat) {
    c.failureCount == n && c.openUntil <= DownAt(n).start
  }

  lemma FailureOpensInTime(c: Circuit, n: nat)
    requires OpensInTime(c, n)
    ensures OpensInTime(Noted(c, DownAt(n).replies, DownAt(n).finish), n + 1)
  {
    assert Calls([Thrown("TypeError")]) == 1;
    FailureIsNoted(c, DownAt(n).replies, DownAt(n).finish);
  }

  lemma {:induction false} NextReaches(c: Circuit, runs: seq<Invocation>, next: Invocation)
    requires (forall i :: 0 <= i < |runs| ==> runs[i].replies != []) && next.replies != []
    requires Admits(After(c, runs), next.start)
    ensures forall i :: 0 <= i < |runs + [next]| ==> (runs + [next])[i].replies != []
    ensures Reaching(c, runs + [next]) == Reaching(c, runs) + [next]
    ensures After(c, runs + [next]) == Noted(After(c, runs), next.replies, next.finish)
  {
    assert (runs + [next])[..|runs|] == runs;
  }

  lemma {:induction false} EveryOneReaches(n: nat)
    ensures (forall i :: 0 <= i < n ==> DownRun(n)[i].replies != [])
    ensures Reaching(Circuit(0, 0), DownRun(n)) == DownRun(n)
    ensures OpensInTime(After(Circuit(0, 0), DownRun(n)), n)
    decreases n
  {
    if n > 0 {
      EveryOneReaches(n - 1);
      assert DownRun(n) == DownRun(n - 1) + [DownAt(n - 1)];
      NextReaches(Circuit(0, 0), DownRun(n - 1), DownAt(n - 1));
      FailureOpensInTime(After(Circuit(0, 0), DownRun(n - 1)), n - 1);
    }
  }

  /** From a fresh breaker there is a run with exactly that many. */
  lemma TheBoundIsReached(periods: nat)
    ensures var runs := DownRun(periods + 3);
      && InSequence(runs) && ServiceIsDown(runs)
      && |Within(Reaching(Circuit(0, 0), runs), 0, OPEN_MS * periods)| == 3 + (OPEN_MS * periods) / OPEN_MS
  {
    var n := periods + 3;
    DownRunIsDown(n);
    EveryOneReaches(n);
    var within := Within(DownRun(n), 0, OPEN_MS * periods);
    forall i | 0 <= i < n ensures i in within {
      assert 0 <= DownAt(i).start <= OPEN_MS * periods;
    }
    FirstNaturals(n, within);
  }

  lemma {:induction false} FirstNaturals(n: nat, s: set<nat>)
    requires forall i: nat :: i in s <==> i < n
    ensures |s| == n
    decreases n
  {
    if n == 0 {
      assert s == {};
    } else {
      FirstNaturals(n - 1, s - {n - 1});
      assert n - 1 in s;
    }
  }
}
