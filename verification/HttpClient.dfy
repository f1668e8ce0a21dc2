/** How a business request wires its token and its refresh callback into the request lifecycle. */
module HttpClient {
  import opened Wrappers
  import opened Transport
  import TokenManager

  function Bearer(token: string): string { "Bearer " + token }

  /** What the refresh callback hands to the lifecycle: a forced refresh that names the token this request sent. */
  function Renewal(
    d: TokenManager.Dialect, cached: Option<TokenManager.Token>, sent: string, at: TokenManager.Occasion)
    : Transport.Renewal
  {
    match TokenManager.Serve(d, cached, TokenManager.TokenCall(TokenManager.ForceRefresh(Some(sent)), at)).result
    case Ok(token) => Renewed(token)
    case Err(error) => Rejected(error)
  }

  function Prepared(call: Call, token: string, start: real): Request {
    Request(call, map["Authorization" := Bearer(token), "Accept" := "application/json"], true, start, PENDING_BUDGET)
  }

  /**
   * A request sends the token it was given until the first rejection and the renewed one from then on; whatever
   * other requests did to the cache meanwhile, it never sends the rejected token again unless the endpoint itself
   * has just issued it once more.  The request timer may also cut the renewal off.
   */
  lemma RejectedTokenNotReused(
    d: TokenManager.Dialect, cached: Option<TokenManager.Token>, at: TokenManager.Occasion,
    call: Call, token: string, start: real, w: World, i: nat)
    requires w.renewal in {Renewal(d, cached, token, at), RenewalTimedOut}
    ensures var (_, log) := Run(Prepared(call, token, start), w, Start(Prepared(call, token, start)));
            var c := TokenManager.TokenCall(TokenManager.ForceRefresh(Some(token)), at);
            i < |log| ==>
              && "Authorization" in log[i].headers && "Accept" in log[i].headers
              && log[i].headers["Accept"] == "application/json"
              && (Times(log[..i], 401) == 0 ==> log[i].headers["Authorization"] == "Bearer " + token)
              && (Times(log[..i], 401) > 0 ==>
                    && w.renewal.Renewed? && Times(log[..i], 401) == 1
                    && log[i].headers["Authorization"] == "Bearer " + w.renewal.token
                    && (w.renewal.token != token || TokenManager.Mints(d, cached, c)))
  {
    var q := Prepared(call, token, start);
    var (_, log) := Run(q, w, Start(q));
    if i < |log| {
      ReplayDiscipline(q, w, i);
      DeniedOnce(q, w, i);
      CountsAreStatuses(log[..i]);
    }
  }

  /** The first rejection is answered by one more exchange under the renewed token, if ten minutes leave room for it. */
  lemma RejectedOnceIsRenewed(call: Call, token: string, start: real, w: World, i: nat)
    ensures var q := Prepared(call, token, start);
            var (final, log) := Run(q, w, Start(q));
            i < |log| && log[i].outcome.Reply? && log[i].outcome.response.status == 401 ==>
              if Times(log[..i], 401) > 0 then i == |log| - 1 && final == Returned(log[i].outcome.response)
              else
                && (w.renewal.Renewed? && Heard(q, w, log, i) + w.renewalTook < start + 600.0 ==>
                      && i < |log| - 1 && "Authorization" in log[i + 1].headers
                      && log[i + 1].headers["Authorization"] == "Bearer " + w.renewal.token)
                && (w.renewal.Rejected? ==> i == |log| - 1 && final == Failed(w.renewal.error))
  {
    AfterRefusal(Prepared(call, token, start), w, i);
  }

  /** A business request sleeps less than ten minutes in all and makes at most 30 exchanges. */
  lemma RequestIsBounded(call: Call, token: string, start: real, w: World)
    ensures var log := Run(Prepared(call, token, start), w, Start(Prepared(call, token, start))).1;
            |log| <= 30 && TotalSlept(log) < 600.0
  {
    RunIsBounded(Prepared(call, token, start), w);
  }

  /** At most one rejection is ever answered by sending again, and only a successful renewal lets it be. */
  lemma DeniedOnce(q: Request, w: World, i: nat)
    ensures var (_, log) := Run(q, w, Start(q));
            i < |log| ==>
              Count(log[..i], Denied) <= 1 && (Count(log[..i], Denied) == 1 ==> w.renewal.Renewed? && q.canRenew)
  {
    var (_, log) := Run(q, w, Start(q));
    if i < |log| { DeniedBefore(q, w, log, i); }
  }

  lemma {:induction false} DeniedBefore(q: Request, w: World, log: Log, i: nat)
    requires log == Run(q, w, Start(q)).1 && i < |log|
    ensures Count(log[..i], Denied) <= 1 && (Count(log[..i], Denied) == 1 ==> w.renewal.Renewed? && q.canRenew)
  {
    if i > 0 {
      DeniedBefore(q, w, log, i - 1);
      ReplayDiscipline(q, w, i - 1);
      Snoc(log[..i - 1], log[i - 1]);
      assert log[..i] == log[..i - 1] + [log[i - 1]];
    }
  }
}
