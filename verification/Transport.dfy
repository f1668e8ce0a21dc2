/**
 * The bounded request lifecycle: one loop that retries, polls and renews authorization.  The server, the
 * clock and the authorization callback are arbitrary; a run is whatever the loop does against them.
 */
module Transport {
  import opened Text
  import opened Wrappers

  const PENDING_BUDGET := 600.0
  const POLL_INTERVAL := 2.0
  const POLL_CAP := 30.0

  type Seconds = r: real | r >= 0.0

  // What a Retry-After header can hold once float() and the date parser have looked at it.
  datatype RetryAfter = Absent | Number(value: real) | NotFinite | Date(ahead: real) | Unreadable

  function ParseRetryAfter(raw: RetryAfter): Option<Seconds> {
    match raw
    case Number(value) => if value >= 0.0 then Some(value) else None
    case Date(ahead) => if ahead >= 0.0 then Some(ahead) else None
    case _ => None
  }

  datatype Response = Response(status: nat, retryAfter: RetryAfter, responseId: Option<string>)
  datatype Outcome = Reply(response: Response) | TimedOut | ConnectionFailed
  datatype ApiError = ApiError(status: nat)
  datatype Renewal = Renewed(token: string) | Rejected(error: ApiError) | RenewalTimedOut

  type Headers = map<string, string>
  datatype Call = Call(verb: string, url: string, query: string, body: string)

  // The timer of the whole request may fire during any wait: the world then answers TimedOut.
  datatype World = World(
    outcome: nat -> Outcome,
    took: nat -> Seconds,
    overslept: nat -> Seconds,
    renewal: Renewal,
    renewalTook: Seconds)

  datatype Request = Request(call: Call, headers: Headers, canRenew: bool, start: real, budget: real)

  datatype Exchange = Exchange(call: Call, headers: Headers, outcome: Outcome, slept: Seconds)
  type Log = seq<Exchange>

  datatype Final = Returned(response: Response) | Failed(error: ApiError)

  const TIMEOUT := Failed(ApiError(504))
  const BAD_GATEWAY := Failed(ApiError(502))

  function Deadline(q: Request): real { q.start + q.budget }

  function Min(a: real, b: real): real { if a <= b then a else b }

  function Pow2(n: nat): Seconds { if n == 0 then 1.0 else 2.0 * Pow2(n - 1) }

  predicate Repeatable(call: Call) {
    UpperText(call.verb) == "GET" || UpperText(call.verb) == "HEAD"
  }

  predicate ValidId(id: Option<string>) {
    id.Some? && id.value != "" && forall i :: 0 <= i < |id.value| ==> id.value[i] as int >= 32
  }

  /******* The loop, one turn at a time *******/

  datatype State = State(
    headers: Headers, rate: nat, server: nat, renewed: bool, poll: real, now: real, log: Log)

  datatype Next = Continue(state: State) | Done(final: Final, log: Log)

  function Start(q: Request): State {
    State(q.headers, 0, 0, false, POLL_INTERVAL, q.start, [])
  }

  /** Wait before the next turn, unless the wait would not end before the deadline. */
  function Pause(q: Request, w: World, s: State, outcome: Outcome, delay: Seconds, next: State): Next {
    var turn := Exchange(q.call, s.headers, outcome, 0.0);
    if delay >= Deadline(q) - s.now then Done(TIMEOUT, s.log + [turn])
    else Continue(next.(now := s.now + delay + w.overslept(|s.log|), log := s.log + [turn.(slept := delay)]))
  }

  function Renew(q: Request, w: World, s: State, outcome: Outcome): Next {
    var log := s.log + [Exchange(q.call, s.headers, outcome, 0.0)];
    match w.renewal
    case Renewed(token) =>
      Continue(s.(renewed := true, headers := s.headers["Authorization" := "Bearer " + token],
                  now := s.now + w.renewalTook, log := log))
    case Rejected(error) => Done(Failed(error), log)
    case RenewalTimedOut => Done(TIMEOUT, log)
  }

  function Answer(q: Request, w: World, s: State, r: Response): Next
    requires s.poll >= 2.0
  {
    var done := s.log + [Exchange(q.call, s.headers, Reply(r), 0.0)];
    if r.status == 401 && q.canRenew && !s.renewed then
      Renew(q, w, s, Reply(r))
    else if r.status == 429 && s.rate < 3 then
      var asked := ParseRetryAfter(r.retryAfter);
      var delay := if asked.Some? then asked.value else Pow2(s.rate);
      Pause(q, w, s, Reply(r), delay, s.(rate := s.rate + 1))
    else if r.status == 202 then
      if "response-id" !in s.headers && !ValidId(r.responseId) then
        Done(BAD_GATEWAY, done)
      else
        var headers := if "response-id" in s.headers then s.headers else s.headers["response-id" := r.responseId.value];
        Pause(q, w, s, Reply(r), s.poll, s.(headers := headers, poll := Min(s.poll * 1.5, POLL_CAP)))
    else if r.status >= 500 && Repeatable(q.call) && s.server < 1 then
      Pause(q, w, s, Reply(r), 1.0, s.(server := s.server + 1))
    else
      Done(Returned(r), done)
  }

  function Turn(q: Request, w: World, s: State): Next
    requires s.poll >= 2.0
  {
    if Deadline(q) - s.now <= 0.0 then Done(TIMEOUT, s.log)
    else
      var outcome := w.outcome(|s.log|);
      var done := s.log + [Exchange(q.call, s.headers, outcome, 0.0)];
      match outcome
      case TimedOut => Done(TIMEOUT, done)
      case ConnectionFailed => Done(BAD_GATEWAY, done)
      case Reply(r) => Answer(q, w, s.(now := s.now + w.took(|s.log|)), r)
  }

  ghost predicate Bounded(s: State) {
    s.rate <= 3 && s.server <= 1 && s.poll >= 2.0
  }

  /** Polls that still fit before the deadline: each costs at least two seconds. */
  ghost function PollsLeft(left: real): nat {
    if left <= 0.0 then 0 else (left / 2.0).Floor + 1
  }

  ghost function Rank(q: Request, s: State): nat
    requires Bounded(s)
  {
    (if s.renewed then 0 else 1) + (3 - s.rate) + (1 - s.server) + PollsLeft(Deadline(q) - s.now)
  }

  lemma PollsLeftShrinks(a: real, b: real)
    requires b <= a
    ensures PollsLeft(b) <= PollsLeft(a)
    ensures b <= a - 2.0 && a > 0.0 ==> PollsLeft(b) < PollsLeft(a)
  {
  }

  lemma TurnProgress(q: Request, w: World, s: State)
    requires Bounded(s) && Turn(q, w, s).Continue?
    ensures Bounded(Turn(q, w, s).state)
    ensures Rank(q, Turn(q, w, s).state) < Rank(q, s)
  {
    PollsLeftShrinks(Deadline(q) - s.now, Deadline(q) - Turn(q, w, s).state.now);
  }

  function Run(q: Request, w: World, s: State): (Final, Log)
    requires Bounded(s)
    decreases Rank(q, s)
  {
    match Turn(q, w, s)
    case Done(final, log) => (final, log)
    case Continue(s') =>
      TurnProgress(q, w, s);
      Run(q, w, s')
  }

  method SendRequest(q: Request, w: World) returns (final: Final, log: Log)
    ensures (final, log) == Run(q, w, Start(q))
  {
    var headers, rate, server, renewed, poll := q.headers, 0, 0, false, POLL_INTERVAL;
    var now := q.start;
    log := [];
    while true
      invariant Bounded(State(headers, rate, server, renewed, poll, now, log))
      invariant Run(q, w, State(headers, rate, server, renewed, poll, now, log)) == Run(q, w, Start(q))
      decreases Rank(q, State(headers, rate, server, renewed, poll, now, log))
    {
      ghost var s := State(headers, rate, server, renewed, poll, now, log);
      if Turn(q, w, s).Continue? { TurnProgress(q, w, s); }
      var turn := |log|;
      if Deadline(q) - now <= 0.0 { return TIMEOUT, log; }
      var outcome := w.outcome(turn);
      log := log + [Exchange(q.call, headers, outcome, 0.0)];
      if outcome.TimedOut? { return TIMEOUT, log; }
      if outcome.ConnectionFailed? { return BAD_GATEWAY, log; }
      now := now + w.took(turn);
      var status := outcome.response.status;
      if status == 401 && q.canRenew && !renewed {
        if w.renewal.Rejected? { return Failed(w.renewal.error), log; }
        if w.renewal.RenewalTimedOut? { return TIMEOUT, log; }
        renewed := true;
        headers := headers["Authorization" := "Bearer " + w.renewal.token];
        now := now + w.renewalTook;
        assert Turn(q, w, s) == Continue(State(headers, rate, server, renewed, poll, now, log));
        continue;
      }
      var delay: Seconds;
      if status == 429 && rate < 3 {
        var asked := ParseRetryAfter(outcome.response.retryAfter);
        delay := if asked.Some? then asked.value else Pow2(rate);
        rate := rate + 1;
      } else if status == 202 {
        if "response-id" !in headers {
          var id := outcome.response.responseId;
          if !ValidId(id) { return BAD_GATEWAY, log; }
          headers := headers["response-id" := id.value];
        }
        delay := poll;
        poll := Min(poll * 1.5, POLL_CAP);
      } else if status >= 500 && Repeatable(q.call) && server < 1 {
        server := server + 1;
        delay := 1.0;
      } else {
        return Returned(outcome.response), log;
      }
      if delay >= Deadline(q) - now { return TIMEOUT, log; }
      now := now + delay + w.overslept(turn);
      log := log[turn := log[turn].(slept := delay)];
      assert log == s.log + [Exchange(q.call, s.headers, outcome, delay)];
      assert Turn(q, w, s) == Continue(State(headers, rate, server, renewed, poll, now, log));
    }
  }

  /******* What a log must look like, read off the log alone *******/

  datatype Kind = Denied | Limited | Pending | Broken | Other

  function KindOf(o: Outcome): Kind {
    if !o.Reply? then Other
    else if o.response.status == 401 then Denied
    else if o.response.status == 429 then Limited
    else if o.response.status == 202 then Pending
    else if o.response.status >= 500 then Broken
    else Other
  }

  ghost function Count(log: Log, k: Kind): nat {
    if log == [] then 0
    else Count(log[..|log| - 1], k) + (if KindOf(log[|log| - 1].outcome) == k then 1 else 0)
  }

  ghost function TotalSlept(log: Log): real {
    if log == [] then 0.0 else TotalSlept(log[..|log| - 1]) + log[|log| - 1].slept
  }

  ghost function PollAt(k: nat): Seconds
    ensures PollAt(k) >= 2.0
  {
    if k == 0 then POLL_INTERVAL else Min(PollAt(k - 1) * 1.5, POLL_CAP)
  }

  ghost function PollSum(k: nat): Seconds {
    if k == 0 then 0.0 else PollSum(k - 1) + PollAt(k - 1)
  }

  /** The id of the first pending answer, if any answer was pending. */
  ghost function FirstPendingId(log: Log): Option<string> {
    if log == [] then None
    else
      var n := |log| - 1;
      if Count(log[..n], Pending) > 0 then FirstPendingId(log[..n])
      else if KindOf(log[n].outcome) == Pending then log[n].outcome.response.responseId
      else None
  }

  /** The caller's headers, with the renewed authorization after a denial and the first pending id. */
  ghost function Dressed(q: Request, w: World, log: Log): Headers {
    var authorized :=
      if Count(log, Denied) > 0 && w.renewal.Renewed?
      then q.headers["Authorization" := "Bearer " + w.renewal.token] else q.headers;
    if "response-id" !in q.headers && FirstPendingId(log).Some?
    then authorized["response-id" := FirstPendingId(log).value] else authorized
  }

  /** Whether an outcome, after the given earlier ones, calls for another exchange. */
  ghost predicate CallsForMore(q: Request, w: World, log: Log, o: Outcome) {
    match KindOf(o)
    case Denied => q.canRenew && Count(log, Denied) == 0 && w.renewal.Renewed?
    case Limited => Count(log, Limited) < 3
    case Pending => "response-id" in Dressed(q, w, log) || ValidId(o.response.responseId)
    case Broken => Repeatable(q.call) && Count(log, Broken) == 0
    case Other => false
  }

  ghost function Wait(log: Log, o: Outcome): Seconds {
    match KindOf(o)
    case Limited =>
      var asked := ParseRetryAfter(o.response.retryAfter);
      if asked.Some? then asked.value else Pow2(Count(log, Limited))
    case Pending => PollAt(Count(log, Pending))
    case Broken => 1.0
    case _ => 0.0
  }

  /** The clock once every exchange of the log, and the wait or renewal after it, is over. */
  ghost function Clock(q: Request, w: World, log: Log): real {
    if log == [] then q.start
    else
      var n := |log| - 1;
      Clock(q, w, log[..n]) + w.took(n) +
      (if KindOf(log[n].outcome) == Denied then w.renewalTook else log[n].slept + w.overslept(n))
  }

  /** Another exchange follows: the outcome calls for it, and the wait before it ends before the deadline. */
  ghost predicate Proceeds(q: Request, w: World, log: Log, o: Outcome) {
    && CallsForMore(q, w, log, o)
    && (KindOf(o) != Denied ==> Wait(log, o) < Deadline(q) - (Clock(q, w, log) + w.took(|log|)))
  }

  ghost predicate SentAsDue(q: Request, w: World, log: Log, e: Exchange) {
    && Clock(q, w, log) < Deadline(q)
    && e.call == q.call && e.headers == Dressed(q, w, log) && e.outcome == w.outcome(|log|)
  }

  /** Every exchange of the log was followed by another one, for a reason the log shows. */
  ghost predicate Continued(q: Request, w: World, log: Log) {
    log == [] ||
    var n := |log| - 1;
    && Continued(q, w, log[..n])
    && SentAsDue(q, w, log[..n], log[n])
    && Proceeds(q, w, log[..n], log[n].outcome)
    && log[n].slept == Wait(log[..n], log[n].outcome)
  }

  /** The loop's counters are the log's counts. */
  ghost predicate Counted(s: State) {
    RetriesCounted(s) && PollsCounted(s)
  }

  ghost predicate RetriesCounted(s: State) {
    && s.rate == Count(s.log, Limited) <= 3
    && s.server == Count(s.log, Broken) <= 1
    && (if s.renewed then 1 else 0) == Count(s.log, Denied)
  }

  ghost predicate PollsCounted(s: State) {
    && s.poll == PollAt(Count(s.log, Pending))
    && |s.log| == Count(s.log, Denied) + Count(s.log, Limited) + Count(s.log, Pending) + Count(s.log, Broken)
  }

  ghost predicate Clocked(q: Request, w: World, s: State) {
    && s.now == Clock(q, w, s.log)
    && q.start + TotalSlept(s.log) <= s.now
    && PollSum(Count(s.log, Pending)) <= TotalSlept(s.log)
    && (TotalSlept(s.log) == 0.0 || TotalSlept(s.log) < q.budget)
  }

  ghost predicate HeadersDue(q: Request, w: World, s: State) {
    && s.headers == Dressed(q, w, s.log)
    && (Count(s.log, Denied) > 0 ==> w.renewal.Renewed?)
    && ("response-id" in s.headers <==> "response-id" in q.headers || Count(s.log, Pending) > 0)
  }

  ghost predicate Inv(q: Request, w: World, s: State) {
    Continued(q, w, s.log) && HeadersDue(q, w, s) && Counted(s) && Clocked(q, w, s)
  }

  lemma Snoc(log: Log, e: Exchange)
    ensures (log + [e])[..|log|] == log && (log + [e])[|log|] == e
    ensures forall k :: Count(log + [e], k) == Count(log, k) + (if KindOf(e.outcome) == k then 1 else 0)
    ensures TotalSlept(log + [e]) == TotalSlept(log) + e.slept
  {
    assert (log + [e])[..|log|] == log;
  }

  ghost function NewEntry(q: Request, w: World, s: State): Exchange
    requires s.poll >= 2.0 && Turn(q, w, s).Continue?
  {
    Exchange(q.call, s.headers, w.outcome(|s.log|), Wait(s.log, w.outcome(|s.log|)))
  }

  lemma ContinueLogs(q: Request, w: World, s: State)
    requires HeadersDue(q, w, s) && Counted(s) && Turn(q, w, s).Continue?
    ensures Turn(q, w, s).state.log == s.log + [NewEntry(q, w, s)]
    ensures CallsForMore(q, w, s.log, NewEntry(q, w, s).outcome)
    ensures s.now == Clock(q, w, s.log) ==>
              s.now < Deadline(q) && Proceeds(q, w, s.log, NewEntry(q, w, s).outcome)
  {
  }

  lemma FirstPendingSnoc(log: Log, e: Exchange)
    ensures FirstPendingId(log + [e]) ==
            if Count(log, Pending) > 0 then FirstPendingId(log)
            else if KindOf(e.outcome) == Pending then e.outcome.response.responseId else None
  {
    Snoc(log, e);
  }

  lemma {:induction false} NoPendingId(log: Log)
    requires Count(log, Pending) == 0
    ensures FirstPendingId(log) == None
  {
  }

  lemma ContinueDresses(q: Request, w: World, s: State)
    requires HeadersDue(q, w, s) && Counted(s) && Turn(q, w, s).Continue?
    ensures HeadersDue(q, w, Turn(q, w, s).state)
  {
    var e := NewEntry(q, w, s);
    ContinueLogs(q, w, s);
    Snoc(s.log, e);
    FirstPendingSnoc(s.log, e);
    if Count(s.log, Pending) == 0 { NoPendingId(s.log); }
  }

  lemma ContinueCountsRetries(q: Request, w: World, s: State)
    requires HeadersDue(q, w, s) && Counted(s) && Turn(q, w, s).Continue?
    ensures RetriesCounted(Turn(q, w, s).state)
  {
    ContinueLogs(q, w, s);
    Snoc(s.log, NewEntry(q, w, s));
  }

  lemma ContinueCountsPolls(q: Request, w: World, s: State)
    requires HeadersDue(q, w, s) && Counted(s) && Turn(q, w, s).Continue?
    ensures PollsCounted(Turn(q, w, s).state)
  {
    ContinueLogs(q, w, s);
    Snoc(s.log, NewEntry(q, w, s));
  }

  lemma ContinueClocks(q: Request, w: World, s: State)
    requires HeadersDue(q, w, s) && Counted(s) && Clocked(q, w, s) && Turn(q, w, s).Continue?
    ensures Clocked(q, w, Turn(q, w, s).state)
  {
    ContinueLogs(q, w, s);
    Snoc(s.log, NewEntry(q, w, s));
  }

  lemma ContinueKeeps(q: Request, w: World, s: State)
    requires Inv(q, w, s) && Turn(q, w, s).Continue?
    ensures Inv(q, w, Turn(q, w, s).state)
  {
    ContinueLogs(q, w, s);
    ContinueDresses(q, w, s);
    ContinueCountsRetries(q, w, s);
    ContinueCountsPolls(q, w, s);
    ContinueClocks(q, w, s);
    Snoc(s.log, NewEntry(q, w, s));
  }

  /******* Whole runs *******/

  /** The limits that hold of the exchanges that were followed by another one. */
  ghost predicate WithinLimits(q: Request, log: Log) {
    && Count(log, Denied) <= 1 && Count(log, Limited) <= 3 && Count(log, Broken) <= 1
    && |log| == Count(log, Denied) + Count(log, Limited) + Count(log, Pending) + Count(log, Broken)
    && PollSum(Count(log, Pending)) <= TotalSlept(log)
    && (TotalSlept(log) == 0.0 || TotalSlept(log) < q.budget)
  }

  /** What the last outcome leads to.  A call for more that ends the run could not wait for the deadline. */
  ghost function Verdict(q: Request, w: World, log: Log, o: Outcome): Final {
    match o
    case TimedOut => TIMEOUT
    case ConnectionFailed => BAD_GATEWAY
    case Reply(r) =>
      if CallsForMore(q, w, log, o) then TIMEOUT
      else if r.status == 202 then BAD_GATEWAY
      else if r.status == 401 && q.canRenew && Count(log, Denied) == 0 then
        (if w.renewal.Rejected? then Failed(w.renewal.error) else TIMEOUT)
      else Returned(r)
  }

  ghost predicate Ended(q: Request, w: World, final: Final, log: Log) {
    || (final == TIMEOUT && Continued(q, w, log) && WithinLimits(q, log) && Clock(q, w, log) >= Deadline(q))
    || (log != [] &&
        var n := |log| - 1;
        && Continued(q, w, log[..n]) && WithinLimits(q, log[..n])
        && SentAsDue(q, w, log[..n], log[n]) && log[n].slept == 0.0
        && !Proceeds(q, w, log[..n], log[n].outcome)
        && final == Verdict(q, w, log[..n], log[n].outcome))
  }

  lemma VerdictAgrees(q: Request, w: World, s: State)
    requires HeadersDue(q, w, s) && Counted(s) && s.now == Clock(q, w, s.log)
    requires Turn(q, w, s).Done? && Deadline(q) - s.now > 0.0
    ensures Turn(q, w, s).log == s.log + [Exchange(q.call, s.headers, w.outcome(|s.log|), 0.0)]
    ensures Turn(q, w, s).final == Verdict(q, w, s.log, w.outcome(|s.log|))
    ensures !Proceeds(q, w, s.log, w.outcome(|s.log|))
  {
  }

  lemma TurnEnds(q: Request, w: World, s: State)
    requires Inv(q, w, s) && Turn(q, w, s).Done?
    ensures Ended(q, w, Turn(q, w, s).final, Turn(q, w, s).log)
  {
    if Deadline(q) - s.now > 0.0 {
      VerdictAgrees(q, w, s);
      EndedWith(q, w, s.log, Exchange(q.call, s.headers, w.outcome(|s.log|), 0.0));
    }
  }

  lemma EndedWith(q: Request, w: World, before: Log, e: Exchange)
    requires Continued(q, w, before) && WithinLimits(q, before) && SentAsDue(q, w, before, e) && e.slept == 0.0
    requires !Proceeds(q, w, before, e.outcome)
    ensures Ended(q, w, Verdict(q, w, before, e.outcome), before + [e])
  {
    Snoc(before, e);
  }

  lemma {:induction false} RunEnds(q: Request, w: World, s: State)
    requires Bounded(s) && Inv(q, w, s)
    ensures Ended(q, w, Run(q, w, s).0, Run(q, w, s).1)
    decreases Rank(q, s)
  {
    if Turn(q, w, s).Continue? {
      TurnProgress(q, w, s);
      ContinueKeeps(q, w, s);
      RunEnds(q, w, Turn(q, w, s).state);
    } else {
      TurnEnds(q, w, s);
    }
  }

  /** Every run, against every world, ends as its log says it must... */
  lemma Ends(q: Request, w: World)
    ensures var (final, log) := Run(q, w, Start(q)); Ended(q, w, final, log)
  {
    RunEnds(q, w, Start(q));
  }

  lemma {:induction false} OneWayToContinue(q: Request, w: World, a: Log, b: Log)
    requires Continued(q, w, a) && Continued(q, w, b) && |a| <= |b|
    ensures b[..|a|] == a
    decreases |b|
  {
    if a != [] {
      var m, n := |a| - 1, |b| - 1;
      if |a| < |b| {
        OneWayToContinue(q, w, a, b[..n]);
        assert b[..n][..|a|] == b[..|a|];
      } else {
        OneWayToContinue(q, w, a[..m], b[..n]);
        SamePrefix(a[..m], b[..n]);
        assert a[m] == b[n];
        assert a == a[..m] + [a[m]] && b == b[..n] + [b[n]] && b[..|a|] == b;
      }
    }
  }

  lemma SamePrefix<T>(a: seq<T>, b: seq<T>)
    requires |a| == |b| && b[..|a|] == a
    ensures a == b
  {
  }

  ghost function FollowedUp(q: Request, w: World, final: Final, log: Log): Log
    requires Ended(q, w, final, log)
    ensures |FollowedUp(q, w, final, log)| <= |log| && Continued(q, w, FollowedUp(q, w, final, log))
  {
    if final == TIMEOUT && Continued(q, w, log) && WithinLimits(q, log) && Clock(q, w, log) >= Deadline(q)
    then log else log[..|log| - 1]
  }

  lemma EndsNoSooner(q: Request, w: World, f: Final, a: Log, g: Final, b: Log)
    requires Ended(q, w, f, a) && Ended(q, w, g, b)
    ensures |FollowedUp(q, w, f, a)| >= |FollowedUp(q, w, g, b)|
  {
    var x, y := FollowedUp(q, w, f, a), FollowedUp(q, w, g, b);
    if |x| < |y| {
      OneWayToContinue(q, w, x, y);
      ContinuedAt(q, w, y, |x|);
      assert false;
    }
  }

  /** What comes after the exchanges that were followed up. */
  lemma EndingShape(q: Request, w: World, f: Final, a: Log)
    requires Ended(q, w, f, a)
    ensures var x := FollowedUp(q, w, f, a);
            var o := w.outcome(|x|);
            if Clock(q, w, x) >= Deadline(q) then a == x && f == TIMEOUT
            else a == x + [Exchange(q.call, Dressed(q, w, x), o, 0.0)] && f == Verdict(q, w, x, o)
  {
    var x := FollowedUp(q, w, f, a);
    if a != x { assert a == x + [a[|x|]]; }
  }

  /** ...and no other ending fits: the description determines the log and the result. */
  lemma OneEnding(q: Request, w: World, f: Final, a: Log, g: Final, b: Log)
    requires Ended(q, w, f, a) && Ended(q, w, g, b)
    ensures f == g && a == b
  {
    EndsNoSooner(q, w, f, a, g, b);
    EndsNoSooner(q, w, g, b, f, a);
    var x, y := FollowedUp(q, w, f, a), FollowedUp(q, w, g, b);
    OneWayToContinue(q, w, x, y);
    SamePrefix(x, y);
    EndingShape(q, w, f, a);
    EndingShape(q, w, g, b);
  }

  lemma PollSumMonotone(j: nat, k: nat)
    requires j <= k
    ensures PollSum(j) <= PollSum(k)
    decreases k - j
  {
    if j < k { PollSumMonotone(j + 1, k); }
  }

  lemma PollSumTable()
    ensures PollSum(7) == 64.34375 && PollAt(7) == 30.0
  {
    assert PollAt(1) == 3.0 && PollAt(2) == 4.5 && PollAt(3) == 6.75 && PollAt(4) == 10.125;
    assert PollAt(5) == 15.1875 && PollAt(6) == 22.78125;
    assert PollSum(1) == 2.0 && PollSum(2) == 5.0 && PollSum(3) == 9.5 && PollSum(4) == 16.25;
    assert PollSum(5) == 26.375 && PollSum(6) == 41.5625;
  }

  lemma {:induction false} PollSumCapped(k: nat)
    requires k >= 7
    ensures PollAt(k) == 30.0 && PollSum(k) == 64.34375 + 30.0 * (k - 7) as real
  {
    PollSumTable();
    if k > 7 { PollSumCapped(k - 1); }
  }

  /** Exactly 24 polls fit in the default budget. */
  lemma PollsInBudget(k: nat)
    ensures PollSum(k) < 600.0 <==> k <= 24
  {
    PollSumCapped(24);
    PollSumCapped(25);
    if k <= 24 { PollSumMonotone(k, 24); } else { PollSumMonotone(25, k); }
  }

  /**
   * A run never sleeps its budget through, and with the default budget it makes at most 30 exchanges, whatever
   * the server does.
   */
  lemma RunIsBounded(q: Request, w: World)
    ensures var (_, log) := Run(q, w, Start(q));
            && (TotalSlept(log) == 0.0 || TotalSlept(log) < q.budget)
            && (q.budget == 600.0 ==> |log| <= 30)
            && (q.budget <= 0.0 ==> log == [])
  {
    var (final, log) := Run(q, w, Start(q));
    Ends(q, w);
    var init := FollowedUp(q, w, final, log);
    FollowedUpLimits(q, w, final, log);
    PollsInBudget(0);
    PollsInBudget(Count(init, Pending));
  }

  lemma FollowedUpLimits(q: Request, w: World, final: Final, log: Log)
    requires Ended(q, w, final, log)
    ensures var init := FollowedUp(q, w, final, log);
            && WithinLimits(q, init) && TotalSlept(log) == TotalSlept(init)
            && |log| <= |init| + 1 && (q.budget <= 0.0 ==> log == [])
  {
    var init := FollowedUp(q, w, final, log);
    if log != init {
      var e := log[|log| - 1];
      Snoc(init, e);
      assert log == init + [e];
      assert q.start <= Clock(q, w, init) by { ClockForward(q, w, init); }
    } else if log != [] {
      ContinuedAt(q, w, log, 0);
      assert log[..0] == [];
    }
  }

  lemma {:induction false} ClockForward(q: Request, w: World, log: Log)
    ensures q.start <= Clock(q, w, log)
  {
    if log != [] { ClockForward(q, w, log[..|log| - 1]); }
  }

  /** Which answers can come back, and after what. */
  lemma ReturnedOnlyWhenSpent(q: Request, w: World)
    ensures var (final, log) := Run(q, w, Start(q));
            final.Returned? ==>
              && log != []
              && var n := |log| - 1;
              && log[n].outcome == Reply(final.response)
              && final.response.status != 202
              && (final.response.status == 401 && q.canRenew ==> Count(log[..n], Denied) == 1)
              && (final.response.status == 429 ==> Count(log[..n], Limited) == 3)
              && (final.response.status >= 500 && ReadVerb(q.call.verb) ==> Count(log[..n], Broken) == 1)
  {
    Ends(q, w);
    ReadVerbsRepeat(q.call);
  }

  /** A failure is a timeout, an unusable pending answer or lost connection, or the renewal's own error. */
  lemma FailedOnlyFor(q: Request, w: World)
    ensures var (final, log) := Run(q, w, Start(q));
            final.Failed? && final != TIMEOUT ==>
              && log != []
              && var o := log[|log| - 1].outcome;
              || (final == BAD_GATEWAY && (o.ConnectionFailed? || KindOf(o) == Pending))
              || (KindOf(o) == Denied && w.renewal == Rejected(final.error))
  {
    Ends(q, w);
  }

  lemma {:induction false} ContinuedAt(q: Request, w: World, log: Log, i: nat)
    requires Continued(q, w, log) && i < |log|
    ensures SentAsDue(q, w, log[..i], log[i])
    ensures Proceeds(q, w, log[..i], log[i].outcome) && log[i].slept == Wait(log[..i], log[i].outcome)
  {
    var n := |log| - 1;
    if i < n {
      ContinuedAt(q, w, log[..n], i);
      assert log[..n][..i] == log[..i] && log[..n][i] == log[i];
    }
  }

  /**
   * Every exchange repeats the caller's call under the headers its predecessors determine, and is followed by
   * another one only if its answer calls for one, after the wait that answer calls for.
   */
  lemma ReplayDiscipline(q: Request, w: World, i: nat)
    ensures var (_, log) := Run(q, w, Start(q));
            i < |log| ==>
              && log[i].call == q.call && log[i].outcome == w.outcome(i)
              && log[i].headers == Dressed(q, w, log[..i])
              && (i < |log| - 1 ==>
                    Proceeds(q, w, log[..i], log[i].outcome) && log[i].slept == Wait(log[..i], log[i].outcome))
  {
    var (final, log) := Run(q, w, Start(q));
    Ends(q, w);
    if i < |log| {
      var init := FollowedUp(q, w, final, log);
      if i < |init| {
        ContinuedAt(q, w, init, i);
        assert init[..i] == log[..i] && init[i] == log[i];
      }
    }
  }

  /** A call that may change something is sent again only after a refusal or to poll a pending answer. */
  lemma MutationsNeverReplayedBlindly(q: Request, w: World, i: nat)
    requires !ReadVerb(q.call.verb)
    ensures var (_, log) := Run(q, w, Start(q));
            i < |log| - 1 ==> log[i].outcome.Reply? && log[i].outcome.response.status in {401, 429, 202}
  {
    var (_, log) := Run(q, w, Start(q));
    ReadVerbsRepeat(q.call);
    ReplayDiscipline(q, w, i);
    if i < |log| - 1 { assert Proceeds(q, w, log[..i], log[i].outcome); }
  }

  lemma {:induction false} PrefixKeeps(log: Log, i: nat, j: nat)
    requires i <= j <= |log|
    ensures forall k :: Count(log[..i], k) <= Count(log[..j], k)
    ensures Count(log[..i], Pending) > 0 ==> FirstPendingId(log[..i]) == FirstPendingId(log[..j])
    decreases j
  {
    if i < j {
      PrefixKeeps(log, i, j - 1);
      assert log[..j] == log[..j - 1] + [log[j - 1]];
      Snoc(log[..j - 1], log[j - 1]);
      FirstPendingSnoc(log[..j - 1], log[j - 1]);
    }
  }

  /** Between any two exchanges only authorization and response-id may change, and each of them only once. */
  lemma HeadersChangeOnce(q: Request, w: World, i: nat, j: nat, key: string)
    ensures var (_, log) := Run(q, w, Start(q));
            i <= j < |log| ==>
              var before, after := log[i].headers, log[j].headers;
              && (key in q.headers ==> key in before)
              && (key !in {"Authorization", "response-id"} ==>
                    (key in before <==> key in q.headers) && (key in before ==> before[key] == q.headers[key]))
              && ("response-id" in before ==> "response-id" in after && before["response-id"] == after["response-id"])
              && ("Authorization" in before && !("Authorization" in q.headers
                                                && before["Authorization"] == q.headers["Authorization"])
                  ==> "Authorization" in after && before["Authorization"] == after["Authorization"])
  {
    var (_, log) := Run(q, w, Start(q));
    if i <= j < |log| {
      ReplayDiscipline(q, w, i);
      ReplayDiscipline(q, w, j);
      PrefixKeeps(log, i, j);
      if Count(log[..i], Pending) == 0 { NoPendingId(log[..i]); }
    }
  }

  /******* Statuses, verbs and seconds: what follows each kind of answer *******/

  /** The letters of GET or HEAD, in either case. */
  ghost predicate ReadVerb(verb: string) {
    || (|verb| == 3 && verb[0] in {'g', 'G'} && verb[1] in {'e', 'E'} && verb[2] in {'t', 'T'})
    || (|verb| == 4 && verb[0] in {'h', 'H'} && verb[1] in {'e', 'E'} && verb[2] in {'a', 'A'} && verb[3] in {'d', 'D'})
  }

  lemma ReadVerbsRepeat(call: Call)
    ensures Repeatable(call) <==> ReadVerb(call.verb)
  {
    var upper := UpperText(call.verb);
    assert forall i :: 0 <= i < |upper| ==> upper[i] == Upper(call.verb[i]);
    assert upper == "GET" <==> |upper| == 3 && upper[0] == 'G' && upper[1] == 'E' && upper[2] == 'T';
    assert upper == "HEAD" <==>
           |upper| == 4 && upper[0] == 'H' && upper[1] == 'E' && upper[2] == 'A' && upper[3] == 'D';
  }

  /** How often this status was answered. */
  ghost function Times(log: Log, status: nat): nat {
    if log == [] then 0
    else
      var o := log[|log| - 1].outcome;
      Times(log[..|log| - 1], status) + (if o.Reply? && o.response.status == status then 1 else 0)
  }

  ghost function ServerErrors(log: Log): nat {
    if log == [] then 0
    else
      var o := log[|log| - 1].outcome;
      ServerErrors(log[..|log| - 1]) + (if o.Reply? && o.response.status >= 500 then 1 else 0)
  }

  lemma {:induction false} CountsAreStatuses(log: Log)
    ensures Count(log, Denied) == Times(log, 401) && Count(log, Limited) == Times(log, 429)
    ensures Count(log, Pending) == Times(log, 202) && Count(log, Broken) == ServerErrors(log)
  {
    if log != [] { CountsAreStatuses(log[..|log| - 1]); }
  }

  /** The seconds a 429 asks for, or one, two and four of them in turn. */
  ghost function RateWait(asked: RetryAfter, earlier: nat): real {
    match asked
    case Number(seconds) => if seconds >= 0.0 then seconds else Doubling(earlier)
    case Date(seconds) => if seconds >= 0.0 then seconds else Doubling(earlier)
    case _ => Doubling(earlier)
  }

  ghost function Doubling(earlier: nat): real {
    if earlier == 0 then 1.0 else if earlier == 1 then 2.0 else 4.0
  }

  lemma RateWaitAgrees(log: Log, o: Outcome)
    requires KindOf(o) == Limited && Count(log, Limited) < 3
    ensures Wait(log, o) == RateWait(o.response.retryAfter, Times(log, 429))
  {
    CountsAreStatuses(log);
    assert Pow2(0) == 1.0 && Pow2(1) == 2.0 && Pow2(2) == 4.0;
  }

  ghost function PollWait(earlier: nat): real {
    if earlier == 0 then 2.0 else if earlier == 1 then 3.0 else if earlier == 2 then 4.5
    else if earlier == 3 then 6.75 else if earlier == 4 then 10.125 else if earlier == 5 then 15.1875
    else if earlier == 6 then 22.78125 else 30.0
  }

  lemma PollWaitAgrees(k: nat)
    ensures PollAt(k) == PollWait(k)
  {
    assert PollAt(1) == 3.0 && PollAt(2) == 4.5 && PollAt(3) == 6.75 && PollAt(4) == 10.125;
    assert PollAt(5) == 15.1875 && PollAt(6) == 22.78125;
    if k >= 7 { PollSumCapped(k); }
  }

  /** The clock when an exchange has its answer. */
  ghost function Heard(q: Request, w: World, log: Log, i: nat): real
    requires i < |log|
  {
    Clock(q, w, log[..i]) + w.took(i)
  }

  /** Either another exchange follows, or the run ends here: for want of time, or as the answer says. */
  lemma FollowedOrLast(q: Request, w: World, i: nat)
    ensures var (final, log) := Run(q, w, Start(q));
            i < |log| ==>
              var o, before := log[i].outcome, log[..i];
              && log[i].headers == Dressed(q, w, before)
              && (i < |log| - 1 ==> Proceeds(q, w, before, o) && log[i].slept == Wait(before, o))
              && (i == |log| - 1 && Proceeds(q, w, before, o) ==>
                    && final == TIMEOUT
                    && Heard(q, w, log, i) +
                       (if KindOf(o) == Denied then w.renewalTook else Wait(before, o) + w.overslept(i)) >= Deadline(q))
              && (!Proceeds(q, w, before, o) ==> i == |log| - 1 && final == Verdict(q, w, before, o))
  {
    var (final, log) := Run(q, w, Start(q));
    Ends(q, w);
    ReplayDiscipline(q, w, i);
    if i < |log| {
      var init := FollowedUp(q, w, final, log);
      if i < |init| {
        ContinuedAt(q, w, init, i);
        assert init[..i] == log[..i] && init[i] == log[i];
      }
    }
  }

  /**
   * After a 5xx another exchange follows only for GET and HEAD, only the first time, and one second later; and it
   * does follow if that second ends before the deadline.
   */
  lemma AfterServerError(q: Request, w: World, i: nat)
    ensures var (final, log) := Run(q, w, Start(q));
            i < |log| && log[i].outcome.Reply? && log[i].outcome.response.status >= 500 ==>
              var again := ReadVerb(q.call.verb) && ServerErrors(log[..i]) == 0;
              && (i < |log| - 1 ==> again && log[i].slept == 1.0)
              && (again && Heard(q, w, log, i) + 1.0 + w.overslept(i) < q.start + q.budget ==> i < |log| - 1)
              && (again && i == |log| - 1 ==> final == Failed(ApiError(504)))
              && (!again ==> i == |log| - 1 && final == Returned(log[i].outcome.response))
  {
    var (_, log) := Run(q, w, Start(q));
    FollowedOrLast(q, w, i);
    ReadVerbsRepeat(q.call);
    if i < |log| { CountsAreStatuses(log[..i]); }
  }

  /** After each of the first three 429s another exchange follows, after the seconds asked for, or 1, 2 and 4. */
  lemma AfterRateLimit(q: Request, w: World, i: nat)
    ensures var (final, log) := Run(q, w, Start(q));
            i < |log| && log[i].outcome.Reply? && log[i].outcome.response.status == 429 ==>
              var earlier := Times(log[..i], 429);
              var wait := RateWait(log[i].outcome.response.retryAfter, earlier);
              && (i < |log| - 1 ==> earlier < 3 && log[i].slept == wait)
              && (earlier < 3 && Heard(q, w, log, i) + wait + w.overslept(i) < q.start + q.budget ==> i < |log| - 1)
              && (earlier < 3 && i == |log| - 1 ==> final == Failed(ApiError(504)))
              && (earlier >= 3 ==> i == |log| - 1 && final == Returned(log[i].outcome.response))
  {
    var (_, log) := Run(q, w, Start(q));
    FollowedOrLast(q, w, i);
    if i < |log| {
      CountsAreStatuses(log[..i]);
      if KindOf(log[i].outcome) == Limited && Count(log[..i], Limited) < 3 { RateWaitAgrees(log[..i], log[i].outcome); }
    }
  }

  lemma {:induction false} ContinuedTake(q: Request, w: World, log: Log, i: nat)
    requires Continued(q, w, log) && i <= |log|
    ensures Continued(q, w, log[..i])
  {
    if i < |log| {
      ContinuedTake(q, w, log[..|log| - 1], i);
      assert log[..|log| - 1][..i] == log[..i];
    } else {
      assert log[..i] == log;
    }
  }

  /** Once a pending answer was followed up there is an id to poll under. */
  lemma {:induction false} PendingKnown(q: Request, w: World, log: Log)
    requires Continued(q, w, log) && Count(log, Pending) > 0
    ensures "response-id" in Dressed(q, w, log)
  {
    var n := |log| - 1;
    if Count(log[..n], Pending) > 0 {
      PendingKnown(q, w, log[..n]);
    } else {
      NoPendingId(log[..n]);
    }
  }

  lemma EarlierContinued(q: Request, w: World, i: nat)
    ensures var (_, log) := Run(q, w, Start(q)); i < |log| ==> Continued(q, w, log[..i])
  {
    var (final, log) := Run(q, w, Start(q));
    Ends(q, w);
    if i < |log| {
      var init := FollowedUp(q, w, final, log);
      ContinuedTake(q, w, init, i);
      assert init[..i] == log[..i];
    }
  }

  /** The first pending answer gives the next headers its id. */
  lemma NextHeaders(q: Request, w: World, log: Log, i: nat)
    requires i < |log| && Continued(q, w, log[..i]) && KindOf(log[i].outcome) == Pending
    requires "response-id" !in Dressed(q, w, log[..i]) && ValidId(log[i].outcome.response.responseId)
    ensures var next := Dressed(q, w, log[..i + 1]);
            "response-id" in next && next["response-id"] == log[i].outcome.response.responseId.value
  {
    if Count(log[..i], Pending) > 0 { PendingKnown(q, w, log[..i]); }
    FirstPendingSnoc(log[..i], log[i]);
    assert log[..i + 1] == log[..i] + [log[i]];
  }

  /** A pending answer's id: there, not empty, and without control characters. */
  ghost predicate Usable(id: Option<string>) {
    id.Some? && |id.value| > 0 && forall c :: c in id.value ==> c as int >= 32
  }

  lemma UsableIds(id: Option<string>)
    ensures ValidId(id) <==> Usable(id)
  {
    if id.Some? { assert forall i :: 0 <= i < |id.value| ==> id.value[i] in id.value; }
  }

  /**
   * After a 202 the request is polled, under the id of the first such answer, after 2 seconds and then half as long
   * again each time, up to 30; without a usable id the request fails.
   */
  lemma AfterPending(q: Request, w: World, i: nat)
    ensures var (final, log) := Run(q, w, Start(q));
            i < |log| && log[i].outcome.Reply? && log[i].outcome.response.status == 202 ==>
              var wait, id := PollWait(Times(log[..i], 202)), log[i].outcome.response.responseId;
              var known := "response-id" in log[i].headers;
              && (i < |log| - 1 ==>
                    && log[i].slept == wait && "response-id" in log[i + 1].headers
                    && (if known then log[i + 1].headers["response-id"] == log[i].headers["response-id"]
                        else Usable(id) && log[i + 1].headers["response-id"] == id.value))
              && (known || Usable(id) ==>
                    && (Heard(q, w, log, i) + wait + w.overslept(i) < q.start + q.budget ==> i < |log| - 1)
                    && (i == |log| - 1 ==> final == Failed(ApiError(504))))
              && (!known && !Usable(id) ==> i == |log| - 1 && final == Failed(ApiError(502)))
  {
    var (_, log) := Run(q, w, Start(q));
    FollowedOrLast(q, w, i);
    FollowedOrLast(q, w, i + 1);
    HeadersChangeOnce(q, w, i, i + 1, "response-id");
    EarlierContinued(q, w, i);
    if i < |log| {
      CountsAreStatuses(log[..i]);
      PollWaitAgrees(Times(log[..i], 202));
      if KindOf(log[i].outcome) == Pending {
        var id := log[i].outcome.response.responseId;
        UsableIds(id);
        if "response-id" !in log[i].headers && ValidId(id) { NextHeaders(q, w, log, i); }
      }
    }
  }

  /** The exchange after a 401 that was answered by a renewal carries the new token. */
  lemma RenewedNext(q: Request, w: World, i: nat)
    ensures var (_, log) := Run(q, w, Start(q));
            i < |log| - 1 && log[i].outcome.Reply? && log[i].outcome.response.status == 401 && w.renewal.Renewed? ==>
              && "Authorization" in log[i + 1].headers
              && log[i + 1].headers["Authorization"] == "Bearer " + w.renewal.token
  {
    var (_, log) := Run(q, w, Start(q));
    FollowedOrLast(q, w, i + 1);
    if i + 1 < |log| {
      Snoc(log[..i], log[i]);
      assert log[..i + 1] == log[..i] + [log[i]];
    }
  }

  /** After a 401 that can be answered by a renewal, the first time, another exchange follows with the new token. */
  lemma AfterRefusal(q: Request, w: World, i: nat)
    ensures var (final, log) := Run(q, w, Start(q));
            i < |log| && log[i].outcome.Reply? && log[i].outcome.response.status == 401 ==>
              var again := q.canRenew && Times(log[..i], 401) == 0;
              && (i < |log| - 1 ==>
                    && again && w.renewal.Renewed?
                    && "Authorization" in log[i + 1].headers
                    && log[i + 1].headers["Authorization"] == "Bearer " + w.renewal.token)
              && (again && w.renewal.Renewed? ==>
                    && (Heard(q, w, log, i) + w.renewalTook < q.start + q.budget ==> i < |log| - 1)
                    && (i == |log| - 1 ==> final == Failed(ApiError(504))))
              && (again && w.renewal.Rejected? ==> i == |log| - 1 && final == Failed(w.renewal.error))
              && (again && w.renewal.RenewalTimedOut? ==> i == |log| - 1 && final == Failed(ApiError(504)))
              && (!again ==> i == |log| - 1 && final == Returned(log[i].outcome.response))
  {
    var (_, log) := Run(q, w, Start(q));
    FollowedOrLast(q, w, i);
    RenewedNext(q, w, i);
    if i < |log| { CountsAreStatuses(log[..i]); }
  }

  /** Anything else ends the request: another answer is returned, a lost connection or the timer is a failure. */
  lemma AfterAnythingElse(q: Request, w: World, i: nat)
    ensures var (final, log) := Run(q, w, Start(q));
            i < |log| ==>
              match log[i].outcome
              case TimedOut => i == |log| - 1 && final == Failed(ApiError(504))
              case ConnectionFailed => i == |log| - 1 && final == Failed(ApiError(502))
              case Reply(r) => r.status < 500 && r.status !in {202, 401, 429} ==> i == |log| - 1 && final == Returned(r)
  {
    FollowedOrLast(q, w, i);
  }
}
