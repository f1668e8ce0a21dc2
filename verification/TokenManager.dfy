/** Token cache, single-flight refresh and refresh-token lineage, for the cloud and both on-prem dialects. */
module TokenManager {
  import opened Wrappers
  import opened Transport

  const MAX_LIFETIME := 365 * 86400
  const DEFAULT_LIFETIME := 3600

  // A decoded JSON field; `whole` is what int() makes of it, when int() accepts it.
  datatype Value = Null | Text(text: string, whole: Option<int>) | Number(whole: Option<int>) | Flag | Structure

  datatype Body = Empty | Unparseable | NotObject | Object(fields: map<string, Value>)

  // What one token request came to: the request lifecycle failed, or the endpoint answered.
  datatype AuthReply = NoAnswer(error: ApiError) | Answered(status: nat, body: Body)

  datatype Dialect = Cloud | OnPremLegacy | OnPremV13

  datatype Grant = PasswordGrant | RefreshGrant(refreshToken: string)

  datatype Token = Token(access: string, refresh: Option<string>, expiresAt: real, refreshAt: Option<real>)

  // The clock readings of one call and what the endpoint would answer to its first and second request.
  datatype Occasion = Occasion(checkedAt: real, first: AuthReply, second: AuthReply, mintedAt: real)

  datatype Sent = Sent(grant: Grant, reply: AuthReply)

  function Margin(d: Dialect): real { if d.Cloud? then 300.0 else 60.0 }
  function AccessKey(d: Dialect): string { if d.Cloud? then "access_token" else "accessToken" }
  function ExpiryKey(d: Dialect): string { if d.Cloud? then "expires_in" else "expiresIn" }
  function RefreshKey(d: Dialect): Option<string> {
    match d
    case Cloud => Some("refresh_token")
    case OnPremV13 => Some("refreshToken")
    case OnPremLegacy => None
  }

  function ResponseJson(reply: AuthReply): Result<Body, ApiError> {
    match reply
    case NoAnswer(error) => Err(error)
    case Answered(status, body) =>
      if !(200 <= status < 300) then Err(ApiError(status))
      else if body.Empty? then Ok(Object(map[]))
      else if body.Unparseable? then Err(ApiError(502))
      else Ok(body)
  }

  predicate InvalidGrant(reply: AuthReply) {
    && reply.Answered? && reply.status in {400, 401} && reply.body.Object?
    && "error" in reply.body.fields && reply.body.fields["error"].Text?
    && reply.body.fields["error"].text == "invalid_grant"
  }

  predicate Printable(access: string) {
    forall i :: 0 <= i < |access| ==> 32 < access[i] as int < 127
  }

  /** The lifetime in seconds, when the field is absent or holds an acceptable one. */
  function Lifetime(fields: map<string, Value>, key: string): Option<int> {
    var seconds :=
      if key !in fields then Some(DEFAULT_LIFETIME)
      else match fields[key]
           case Text(_, whole) => whole
           case Number(whole) => whole
           case _ => None;
    if seconds.Some? && 0 < seconds.value <= MAX_LIFETIME then seconds else None
  }

  /** The refresh token to keep: the response's field decides whenever it is there, even when it is null. */
  function KeptRefresh(
    fields: map<string, Value>, key: Option<string>, previous: Option<string>): Result<Option<string>, ApiError>
  {
    if key.None? then Ok(None)
    else if key.value !in fields then Ok(previous)
    else match fields[key.value]
         case Null => Ok(None)
         case Text(text, _) => Ok(Some(text))
         case _ => Err(ApiError(502))
  }

  function Mint(d: Dialect, body: Body, previous: Option<string>, now: real): Result<Token, ApiError> {
    if !body.Object? || AccessKey(d) !in body.fields || !body.fields[AccessKey(d)].Text? then Err(ApiError(502))
    else
      var access := body.fields[AccessKey(d)].text;
      var seconds := Lifetime(body.fields, ExpiryKey(d));
      var refresh := KeptRefresh(body.fields, RefreshKey(d), previous);
      if access == "" || !Printable(access) || seconds.None? then Err(ApiError(502))
      else if refresh.Err? then Err(refresh.error)
      else
        var life := seconds.value as real;
        Ok(Token(access, refresh.value, now + life, Some(now + life - Min(Margin(d), life / 10.0))))
  }

  function FirstGrant(d: Dialect, token: Option<Token>): Grant {
    if !d.OnPremLegacy? && token.Some? && token.value.refresh.Some? && token.value.refresh.value != ""
    then RefreshGrant(token.value.refresh.value) else PasswordGrant
  }

  function Requests(d: Dialect, token: Option<Token>, at: Occasion): seq<Sent> {
    var grant := FirstGrant(d, token);
    if grant.RefreshGrant? && InvalidGrant(at.first)
    then [Sent(grant, at.first), Sent(PasswordGrant, at.second)] else [Sent(grant, at.first)]
  }

  /** One exchange with the token endpoint: refresh when possible, one password fallback on invalid_grant. */
  function Refresh(d: Dialect, token: Option<Token>, at: Occasion): Result<Token, ApiError> {
    var sent := Requests(d, token, at);
    var last := sent[|sent| - 1];
    var previous := if last.grant.RefreshGrant? then Some(last.grant.refreshToken) else None;
    match ResponseJson(last.reply)
    case Err(error) => Err(error)
    case Ok(body) => Mint(d, body, previous, at.mintedAt)
  }

  function Expiring(d: Dialect, token: Option<Token>, now: real): bool {
    match token
    case None => true
    case Some(t) => now >= (if t.refreshAt.Some? then t.refreshAt.value else t.expiresAt - Margin(d))
  }

  /******* Calls *******/

  datatype Kind = GetAccessToken | ForceRefresh(rejected: Option<string>)
  datatype TokenCall = TokenCall(kind: Kind, at: Occasion)

  predicate Exchanges(d: Dialect, token: Option<Token>, c: TokenCall) {
    Expiring(d, token, c.at.checkedAt) ||
    (c.kind.ForceRefresh? && c.kind.rejected.Some? && token.value.access == c.kind.rejected.value)
  }

  datatype Served = Served(token: Option<Token>, result: Result<string, ApiError>, sent: seq<Sent>)

  function Serve(d: Dialect, token: Option<Token>, c: TokenCall): Served {
    if !Exchanges(d, token, c) then Served(token, Ok(token.value.access), [])
    else match Refresh(d, token, c.at)
         case Ok(t) => Served(Some(t), Ok(t.access), Requests(d, token, c.at))
         case Err(error) => Served(token, Err(error), Requests(d, token, c.at))
  }

  ghost function Run(d: Dialect, token: Option<Token>, calls: seq<TokenCall>): Option<Token>
    decreases |calls|
  {
    if calls == [] then token else Run(d, Serve(d, token, calls[0]).token, calls[1..])
  }

  /******* Lifetimes *******/

  /** A token minted at some time lives its whole lifetime from then and is due for renewal in its last tenth. */
  lemma MintedLifetime(d: Dialect, body: Body, previous: Option<string>, now: real)
    ensures var r := Mint(d, body, previous, now);
            r.Ok? ==>
              && r.value.access != "" && Printable(r.value.access)
              && body.Object?
              && var life := Lifetime(body.fields, ExpiryKey(d));
              && life.Some? && r.value.expiresAt == now + life.value as real
              && r.value.refreshAt == Some(r.value.expiresAt - Min(Margin(d), life.value as real / 10.0))
              && now + 0.9 * life.value as real <= r.value.refreshAt.value < r.value.expiresAt
              && !Expiring(d, Some(r.value), now)
  {
  }

  ghost predicate Mints(d: Dialect, token: Option<Token>, c: TokenCall) {
    Exchanges(d, token, c) && Refresh(d, token, c.at).Ok?
  }

  /** What a manager that started empty holds before its n-th call. */
  ghost function Held(d: Dialect, calls: seq<TokenCall>, n: nat): Option<Token>
    requires n <= |calls|
  {
    Run(d, None, calls[..n])
  }

  /** The last of the first n calls that minted a token, or -1. */
  ghost function LastMint(d: Dialect, calls: seq<TokenCall>, n: nat): (k: int)
    requires n <= |calls|
    ensures -1 <= k < n
    ensures k >= 0 ==> Mints(d, Held(d, calls, k), calls[k])
    ensures forall j :: k < j < n ==> !Mints(d, Held(d, calls, j), calls[j])
  {
    if n == 0 then -1
    else if Mints(d, Held(d, calls, n - 1), calls[n - 1]) then n - 1
    else LastMint(d, calls, n - 1)
  }

  ghost function MintedBy(d: Dialect, calls: seq<TokenCall>, k: nat): Token
    requires k < |calls| && Mints(d, Held(d, calls, k), calls[k])
  {
    Refresh(d, Held(d, calls, k), calls[k].at).value
  }

  lemma {:induction false} HeldIsLastMinted(d: Dialect, calls: seq<TokenCall>, n: nat)
    requires n <= |calls|
    ensures var k := LastMint(d, calls, n);
            Held(d, calls, n) == if k < 0 then None else Some(MintedBy(d, calls, k))
  {
    if n > 0 {
      HeldIsLastMinted(d, calls, n - 1);
      RunSnoc(d, None, calls, n - 1);
    }
  }

  /** The answer an exchange went by. */
  function Deciding(d: Dialect, token: Option<Token>, at: Occasion): AuthReply {
    var sent := Requests(d, token, at);
    sent[|sent| - 1].reply
  }

  /** The lifetime that an answer gives its token. */
  function LifetimeIn(d: Dialect, reply: AuthReply): Option<int> {
    match ResponseJson(reply)
    case Ok(Object(fields)) => Lifetime(fields, ExpiryKey(d))
    case _ => None
  }

  /**
   * Over any run, every token handed out is the one minted last.  It expires one minted lifetime after its minting,
   * and at the reading that decided (the check, or the minting) had more than the margin, or a tenth of that lifetime,
   * left.
   */
  lemma ServedIsFresh(d: Dialect, calls: seq<TokenCall>, i: nat)
    requires i < |calls|
    ensures var s := Serve(d, Held(d, calls, i), calls[i]);
            var k := LastMint(d, calls, i + 1);
            && (s.result.Err? ==> s.token == Held(d, calls, i))
            && (s.result.Ok? ==>
                  && k >= 0 && s.token == Some(MintedBy(d, calls, k)) && s.result.value == s.token.value.access
                  && (k == i <==> s.sent != [])
                  && var life := LifetimeIn(d, Deciding(d, Held(d, calls, k), calls[k].at));
                  && life.Some? && 0 < life.value <= MAX_LIFETIME
                  && s.token.value.expiresAt == calls[k].at.mintedAt + life.value as real
                  && var at := if k == i then calls[i].at.mintedAt else calls[i].at.checkedAt;
                     s.token.value.expiresAt - at > Min(Margin(d), life.value as real / 10.0))
  {
    HeldIsLastMinted(d, calls, i);
    HeldIsLastMinted(d, calls, i + 1);
    RunSnoc(d, None, calls, i);
    var k := LastMint(d, calls, i + 1);
    if k >= 0 { MintedFresh(d, Held(d, calls, k), calls[k].at); }
  }

  lemma MintedFresh(d: Dialect, token: Option<Token>, at: Occasion)
    requires Refresh(d, token, at).Ok?
    ensures var t := Refresh(d, token, at).value;
            var life := LifetimeIn(d, Deciding(d, token, at));
            && life.Some? && 0 < life.value <= MAX_LIFETIME
            && t.expiresAt == at.mintedAt + life.value as real
            && t.refreshAt == Some(t.expiresAt - Min(Margin(d), life.value as real / 10.0))
            && t.refreshAt.value > at.mintedAt
  {
    var sent := Requests(d, token, at);
    var last := sent[|sent| - 1];
    var previous := if last.grant.RefreshGrant? then Some(last.grant.refreshToken) else None;
    MintedLifetime(d, ResponseJson(last.reply).value, previous, at.mintedAt);
  }

  /******* Refresh-token lineage *******/

  /** The refresh token that a successful answer hands out, if it names one. */
  function Handed(d: Dialect, reply: AuthReply): Option<string> {
    if RefreshKey(d).Some? && reply.Answered? && reply.body.Object? && RefreshKey(d).value in reply.body.fields
       && reply.body.fields[RefreshKey(d).value].Text?
    then Some(reply.body.fields[RefreshKey(d).value].text) else None
  }

  /**
   * One exchange sends at most two requests, the second a password grant after an explicit rejection.  A kept
   * refresh token comes from the answer that succeeded or is the one that answer accepted: never one that the
   * endpoint has just rejected.
   */
  lemma RefreshLineage(d: Dialect, token: Option<Token>, at: Occasion)
    ensures var sent := Requests(d, token, at);
            var r := Refresh(d, token, at);
            && 1 <= |sent| <= 2
            && (sent[0].grant.RefreshGrant? <==>
                  !d.OnPremLegacy? && token.Some? && token.value.refresh.Some? && token.value.refresh.value != "")
            && (sent[0].grant.RefreshGrant? ==> token.value.refresh == Some(sent[0].grant.refreshToken))
            && (|sent| == 2 <==> sent[0].grant.RefreshGrant? && InvalidGrant(sent[0].reply))
            && (|sent| == 2 ==> sent[1].grant.PasswordGrant?)
            && var last := sent[|sent| - 1];
            && (r.Ok? ==> last.reply.Answered? && 200 <= last.reply.status < 300)
            && (r.Err? ==>
                  match last.reply
                  case NoAnswer(error) => r.error == error
                  case Answered(status, _) => r.error == ApiError(if 200 <= status < 300 then 502 else status))
            && (r.Ok? && r.value.refresh.Some? ==>
                  || r.value.refresh == Handed(d, last.reply)
                  || (last.grant == RefreshGrant(r.value.refresh.value) && Handed(d, last.reply).None?))
            && (d.OnPremLegacy? && r.Ok? ==> r.value.refresh.None?)
  {
  }

  /** Only a failed fallback leaves a rejected refresh token cached: then nothing was cached at all. */
  lemma RejectedRefreshKeptOnlyOnFailure(d: Dialect, token: Option<Token>, c: TokenCall)
    requires Exchanges(d, token, c) && |Requests(d, token, c.at)| == 2
    ensures var s := Serve(d, token, c);
            var rejected := token.value.refresh;
            && token.Some? && rejected.Some?
            && (s.result.Err? ==> s.token == token)
            && (s.result.Ok? && s.token.value.refresh == rejected ==> Handed(d, c.at.second) == rejected)
  {
    RefreshLineage(d, token, c.at);
  }

  predicate NamesRefresh(d: Dialect, reply: AuthReply) {
    RefreshKey(d).Some? && reply.Answered? && reply.body.Object? && RefreshKey(d).value in reply.body.fields
  }

  /** This exchange went through on refresh token x alone, and its answer named no other. */
  ghost predicate Keeps(d: Dialect, token: Option<Token>, at: Occasion, x: string) {
    Requests(d, token, at) == [Sent(RefreshGrant(x), at.first)] && !NamesRefresh(d, at.first)
  }

  /** Call k was given refresh token x, and every successful exchange since, up to call n, went through on x alone. */
  ghost predicate LastIssued(d: Dialect, calls: seq<TokenCall>, n: nat, k: nat, x: string)
    requires n <= |calls|
  {
    && k < n && Mints(d, Held(d, calls, k), calls[k])
    && Handed(d, Deciding(d, Held(d, calls, k), calls[k].at)) == Some(x)
    && forall j :: k < j < n && Mints(d, Held(d, calls, j), calls[j]) ==> Keeps(d, Held(d, calls, j), calls[j].at, x)
  }

  ghost predicate Issued(d: Dialect, calls: seq<TokenCall>, n: nat, x: string)
    requires n <= |calls|
  {
    exists k: nat :: LastIssued(d, calls, n, k, x)
  }

  /** What one successful exchange does to the refresh token. */
  lemma RefreshTokenAfter(d: Dialect, token: Option<Token>, at: Occasion, x: string)
    requires Refresh(d, token, at).Ok?
    ensures Refresh(d, token, at).value.refresh == Some(x) <==>
              || Handed(d, Deciding(d, token, at)) == Some(x)
              || (Keeps(d, token, at, x) && token.Some? && token.value.refresh == Some(x))
    ensures Keeps(d, token, at, x) ==> Handed(d, Deciding(d, token, at)).None?
  {
  }

  /**
   * Over any run, the cached refresh token is exactly the one that a successful answer handed out last and that every
   * successful exchange since was made with: none from a failed answer, none superseded, none that was rejected and
   * then successfully replaced by a password grant.
   */
  lemma {:induction false} RefreshTokenIsLastIssued(d: Dialect, calls: seq<TokenCall>, n: nat, x: string)
    requires n <= |calls|
    ensures Held(d, calls, n).Some? && Held(d, calls, n).value.refresh == Some(x) <==>
              Issued(d, calls, n, x)
  {
    if n > 0 {
      var m := n - 1;
      RefreshTokenIsLastIssued(d, calls, m, x);
      RunSnoc(d, None, calls, m);
      if Mints(d, Held(d, calls, m), calls[m]) {
        IssuedSinceMint(d, calls, m, x);
        RefreshTokenAfter(d, Held(d, calls, m), calls[m].at, x);
      } else {
        IssuedSinceNoMint(d, calls, m, x);
      }
    }
  }

  lemma IssuedEarlier(d: Dialect, calls: seq<TokenCall>, m: nat, k: nat, x: string)
    requires k < m < |calls|
    ensures LastIssued(d, calls, m + 1, k, x) <==>
              LastIssued(d, calls, m, k, x) &&
              (Mints(d, Held(d, calls, m), calls[m]) ==> Keeps(d, Held(d, calls, m), calls[m].at, x))
  {
  }

  lemma IssuedSinceMint(d: Dialect, calls: seq<TokenCall>, m: nat, x: string)
    requires m < |calls| && Mints(d, Held(d, calls, m), calls[m])
    ensures Issued(d, calls, m + 1, x) <==>
              || Handed(d, Deciding(d, Held(d, calls, m), calls[m].at)) == Some(x)
              || (Keeps(d, Held(d, calls, m), calls[m].at, x) && Issued(d, calls, m, x))
  {
    if Issued(d, calls, m + 1, x) {
      var k: nat :| LastIssued(d, calls, m + 1, k, x);
      if k < m { IssuedEarlier(d, calls, m, k, x); }
    }
    if Handed(d, Deciding(d, Held(d, calls, m), calls[m].at)) == Some(x) {
      assert LastIssued(d, calls, m + 1, m, x);
    } else if Issued(d, calls, m, x) {
      var k: nat :| LastIssued(d, calls, m, k, x);
      IssuedEarlier(d, calls, m, k, x);
    }
  }

  lemma IssuedSinceNoMint(d: Dialect, calls: seq<TokenCall>, m: nat, x: string)
    requires m < |calls| && !Mints(d, Held(d, calls, m), calls[m])
    ensures Issued(d, calls, m + 1, x) <==> Issued(d, calls, m, x)
  {
    if Issued(d, calls, m + 1, x) {
      var k: nat :| LastIssued(d, calls, m + 1, k, x);
      IssuedEarlier(d, calls, m, k, x);
    }
    if Issued(d, calls, m, x) {
      var k: nat :| LastIssued(d, calls, m, k, x);
      IssuedEarlier(d, calls, m, k, x);
    }
  }

  /******* Single flight *******/

  /** Nobody but holders of the rejected token, and ordinary readers, call. */
  ghost predicate Burst(rejected: string, calls: seq<TokenCall>) {
    forall c :: c in calls ==> c.kind == GetAccessToken || c.kind == ForceRefresh(Some(rejected))
  }

  /** The first call whose exchange succeeds, if the cached token does not change before. */
  ghost function FirstMint(d: Dialect, token: Option<Token>, calls: seq<TokenCall>): (j: nat)
    ensures j <= |calls|
    ensures forall i :: 0 <= i < j ==> !Mints(d, token, calls[i])
    ensures j < |calls| ==> Mints(d, token, calls[j])
    decreases |calls|
  {
    if calls == [] || Mints(d, token, calls[0]) then 0 else 1 + FirstMint(d, token, calls[1..])
  }

  lemma {:induction false} RunSnoc(d: Dialect, token: Option<Token>, calls: seq<TokenCall>, i: nat)
    requires i < |calls|
    ensures Run(d, token, calls[..i + 1]) == Serve(d, Run(d, token, calls[..i]), calls[i]).token
    decreases i
  {
    if i > 0 {
      var next := Serve(d, token, calls[0]).token;
      RunSnoc(d, next, calls[1..], i - 1);
      assert calls[..i + 1][1..] == calls[1..][..i] && calls[..i][1..] == calls[1..][..i - 1];
    } else {
      assert calls[..1][1..] == [];
    }
  }

  /** The renewed token outlives the burst and is a new one. */
  ghost predicate NewForAll(renewed: Token, rejected: string, later: seq<TokenCall>) {
    && renewed.access != rejected && renewed.refreshAt.Some?
    && forall c :: c in later ==> c.at.checkedAt < renewed.refreshAt.value
  }

  lemma {:induction false} UntilMint(d: Dialect, token: Token, calls: seq<TokenCall>, i: nat)
    requires i <= FirstMint(d, Some(token), calls)
    ensures Run(d, Some(token), calls[..i]) == Some(token)
    decreases i
  {
    if i > 0 {
      UntilMint(d, token, calls, i - 1);
      RunSnoc(d, Some(token), calls, i - 1);
      assert !Mints(d, Some(token), calls[i - 1]);
    }
  }

  lemma ReadsRenewed(d: Dialect, renewed: Token, rejected: string, c: TokenCall)
    requires NewForAll(renewed, rejected, [c]) && Burst(rejected, [c])
    ensures Serve(d, Some(renewed), c) == Served(Some(renewed), Ok(renewed.access), [])
  {
    assert c in [c];
  }

  /** Later calls of a burst leave the renewed token where it is. */
  lemma {:induction false} RenewedStays(d: Dialect, renewed: Token, rejected: string, later: seq<TokenCall>)
    requires Burst(rejected, later) && NewForAll(renewed, rejected, later)
    ensures Run(d, Some(renewed), later) == Some(renewed)
    decreases |later|
  {
    if later != [] {
      ReadsRenewed(d, renewed, rejected, later[0]);
      RenewedStays(d, renewed, rejected, later[1..]);
    }
  }

  lemma {:induction false} RunConcat(d: Dialect, token: Option<Token>, a: seq<TokenCall>, b: seq<TokenCall>)
    ensures Run(d, token, a + b) == Run(d, Run(d, token, a), b)
    decreases |a|
  {
    if a == [] {
      assert a + b == b;
    } else {
      assert (a + b)[1..] == a[1..] + b;
      RunConcat(d, Serve(d, token, a[0]).token, a[1..], b);
    }
  }

  lemma SinceMint(d: Dialect, token: Token, calls: seq<TokenCall>, i: nat)
    requires Burst(token.access, calls)
    requires FirstMint(d, Some(token), calls) < i <= |calls|
    requires var j := FirstMint(d, Some(token), calls);
             NewForAll(Refresh(d, Some(token), calls[j].at).value, token.access, calls[j + 1..])
    ensures var j := FirstMint(d, Some(token), calls);
            Run(d, Some(token), calls[..i]) == Some(Refresh(d, Some(token), calls[j].at).value)
  {
    var j := FirstMint(d, Some(token), calls);
    UntilMint(d, token, calls, j);
    RunSnoc(d, Some(token), calls, j);
    assert calls[..i] == calls[..j + 1] + calls[j + 1..i];
    RunConcat(d, Some(token), calls[..j + 1], calls[j + 1..i]);
    forall c | c in calls[j + 1..i] ensures c in calls && c in calls[j + 1..] {}
    RenewedStays(d, Refresh(d, Some(token), calls[j].at).value, token.access, calls[j + 1..i]);
  }

  /**
   * Single flight.  However many holders of a rejected token force a refresh, in whatever order and mixed with
   * ordinary reads: until one exchange succeeds every exchange has failed and left the token alone, and from that
   * success on every call returns the new token and none sends a request.
   */
  lemma SingleFlight(d: Dialect, token: Token, calls: seq<TokenCall>, i: nat)
    requires i < |calls| && Burst(token.access, calls)
    requires var j := FirstMint(d, Some(token), calls);
             j < |calls| ==> NewForAll(Refresh(d, Some(token), calls[j].at).value, token.access, calls[j + 1..])
    ensures var j := FirstMint(d, Some(token), calls);
            var s := Serve(d, Run(d, Some(token), calls[..i]), calls[i]);
            && (i < j ==> s.token == Some(token) && (calls[i].kind.ForceRefresh? ==> s.result.Err? && s.sent != []))
            && (i >= j ==>
                  var renewed := Refresh(d, Some(token), calls[j].at).value;
                  s.token == Some(renewed) && s.result == Ok(renewed.access) && (s.sent != [] <==> i == j))
  {
    var j := FirstMint(d, Some(token), calls);
    assert calls[i] in calls;
    if i <= j {
      UntilMint(d, token, calls, i);
      RefreshLineage(d, Some(token), calls[i].at);
    } else {
      SinceMint(d, token, calls, i);
      assert calls[i] in calls[j + 1..];
      ReadsRenewed(d, Refresh(d, Some(token), calls[j].at).value, token.access, calls[i]);
    }
  }

  /******* What each dialect reads and keeps *******/

  // The field names of a token answer, and the seconds before expiry at which a long-lived token is renewed.
  datatype Wire = Wire(access: string, expiry: string, refresh: Option<string>, margin: real)

  /** The answer rejects the refresh token. */
  ghost predicate Rejects(reply: AuthReply) {
    && reply.Answered? && (reply.status == 400 || reply.status == 401) && reply.body.Object?
    && "error" in reply.body.fields
    && exists whole :: reply.body.fields["error"] == Text("invalid_grant", whole)
  }

  /** The answer is a success that gives this access token a life of so many seconds, an hour when it says nothing. */
  ghost predicate Gives(w: Wire, reply: AuthReply, access: string, seconds: int) {
    && reply.Answered? && 200 <= reply.status <= 299 && reply.body.Object?
    && var fields := reply.body.fields;
    && w.access in fields && fields[w.access].Text? && fields[w.access].text == access
    && access != "" && (forall i :: 0 <= i < |access| ==> '!' <= access[i] <= '~')
    && 1 <= seconds <= 31536000
    && (w.expiry !in fields ==> seconds == 3600)
    && (w.expiry in fields ==>
          || fields[w.expiry] == Value.Number(Some(seconds))
          || exists text :: fields[w.expiry] == Text(text, Some(seconds)))
  }

  /** The refresh token kept: the answer's when it has the field, with null for none, and otherwise the one used. */
  ghost predicate Leaves(w: Wire, fields: map<string, Value>, used: Option<string>, kept: Option<string>) {
    if w.refresh.None? then kept == None
    else if w.refresh.value !in fields then kept == used
    else
      || (fields[w.refresh.value] == Null && kept == None)
      || (fields[w.refresh.value].Text? && kept == Some(fields[w.refresh.value].text))
  }

  /** The refresh token offered to the endpoint: the cached one, if the dialect has any and it is not empty. */
  ghost function Offered(w: Wire, token: Option<Token>): Option<string> {
    if w.refresh.Some? && token.Some? && token.value.refresh != Some("") then token.value.refresh else None
  }

  /** How long before its expiry a token of that life is renewed. */
  ghost function Before(w: Wire, seconds: int): real {
    if seconds as real < 10.0 * w.margin then seconds as real / 10.0 else w.margin
  }

  /** The requests of one exchange: a refresh token goes first, the password after it was rejected. */
  ghost function SentFor(w: Wire, token: Option<Token>, at: Occasion): seq<Sent> {
    match Offered(w, token)
    case None => [Sent(PasswordGrant, at.first)]
    case Some(x) =>
      [Sent(RefreshGrant(x), at.first)] + if Rejects(at.first) then [Sent(PasswordGrant, at.second)] else []
  }

  /** The token that the answer to a request with such a refresh token makes at that time. */
  ghost predicate MadeOf(w: Wire, reply: AuthReply, used: Option<string>, now: real, t: Token, seconds: int) {
    && Gives(w, reply, t.access, seconds) && Leaves(w, reply.body.fields, used, t.refresh)
    && t.expiresAt == now + seconds as real && t.refreshAt == Some(t.expiresAt - Before(w, seconds))
  }

  /** One exchange that ends with the token: which answer decides, and what is kept of it. */
  ghost predicate Exchanged(w: Wire, token: Option<Token>, at: Occasion, t: Token, seconds: int) {
    var offered := Offered(w, token);
    var again := offered.Some? && Rejects(at.first);
    var reply := if again then at.second else at.first;
    MadeOf(w, reply, if again then None else offered, at.mintedAt, t, seconds)
  }

  lemma GivesIsMinted(d: Dialect, w: Wire, reply: AuthReply, used: Option<string>, now: real, t: Token)
    requires Speaks(d, w)
    ensures ResponseJson(reply).Ok? && Mint(d, ResponseJson(reply).value, used, now) == Ok(t) <==>
            exists seconds :: MadeOf(w, reply, used, now, t, seconds)
  {
    if ResponseJson(reply).Ok? && Mint(d, ResponseJson(reply).value, used, now) == Ok(t) {
      assert MadeOf(w, reply, used, now, t, Lifetime(reply.body.fields, ExpiryKey(d)).value);
    }
  }

  ghost predicate Speaks(d: Dialect, w: Wire) {
    w == Wire(AccessKey(d), ExpiryKey(d), RefreshKey(d), Margin(d))
  }

  lemma ExchangesAsSpoken(d: Dialect, w: Wire, token: Option<Token>, at: Occasion, t: Token)
    requires Speaks(d, w)
    ensures Requests(d, token, at) == SentFor(w, token, at)
    ensures Refresh(d, token, at) == Ok(t) <==> exists seconds :: Exchanged(w, token, at, t, seconds)
  {
    var sent := Requests(d, token, at);
    var last := sent[|sent| - 1];
    var previous := if last.grant.RefreshGrant? then Some(last.grant.refreshToken) else None;
    GivesIsMinted(d, w, last.reply, previous, at.mintedAt, t);
    if Refresh(d, token, at) == Ok(t) {
      var seconds :| MadeOf(w, last.reply, previous, at.mintedAt, t, seconds);
      assert Exchanged(w, token, at, t, seconds);
    }
    if seconds :| Exchanged(w, token, at, t, seconds) {
      assert MadeOf(w, last.reply, previous, at.mintedAt, t, seconds);
    }
  }

  /**
   * What an exchange sends and keeps, dialect by dialect: the cloud reads snake-case fields and renews five minutes
   * early; the console reads camel-case fields and renews one minute early, and only its newer dialect has refresh
   * tokens.
   */
  lemma ExchangeByDialect(token: Option<Token>, at: Occasion, t: Token)
    ensures var w := Wire("access_token", "expires_in", Some("refresh_token"), 300.0);
            && Requests(Cloud, token, at) == SentFor(w, token, at)
            && (Refresh(Cloud, token, at) == Ok(t) <==> exists seconds :: Exchanged(w, token, at, t, seconds))
    ensures var w := Wire("accessToken", "expiresIn", Some("refreshToken"), 60.0);
            && Requests(OnPremV13, token, at) == SentFor(w, token, at)
            && (Refresh(OnPremV13, token, at) == Ok(t) <==> exists seconds :: Exchanged(w, token, at, t, seconds))
    ensures var w := Wire("accessToken", "expiresIn", None, 60.0);
            && Requests(OnPremLegacy, token, at) == SentFor(w, token, at)
            && (Refresh(OnPremLegacy, token, at) == Ok(t) <==> exists seconds :: Exchanged(w, token, at, t, seconds))
  {
    ExchangesAsSpoken(Cloud, Wire("access_token", "expires_in", Some("refresh_token"), 300.0), token, at, t);
    ExchangesAsSpoken(OnPremV13, Wire("accessToken", "expiresIn", Some("refreshToken"), 60.0), token, at, t);
    ExchangesAsSpoken(OnPremLegacy, Wire("accessToken", "expiresIn", None, 60.0), token, at, t);
  }

  /**
   * The call hands out the token that call k got from the endpoint, with that life: from an exchange of its own when
   * the token held is missing, due or the one rejected, and otherwise the token held, not yet due.
   */
  ghost predicate HandsOut(d: Dialect, w: Wire, calls: seq<TokenCall>, i: nat, k: nat, seconds: int)
    requires i < |calls|
  {
    var held := Held(d, calls, i);
    var s := Serve(d, held, calls[i]);
    && k <= i && s.token.Some? && Exchanged(w, Held(d, calls, k), calls[k].at, s.token.value, seconds)
    && s.result == Ok(s.token.value.access)
    && (if k == i then s.sent == SentFor(w, held, calls[i].at)
        else
          && s.sent == [] && held == s.token && calls[i].kind != ForceRefresh(Some(held.value.access))
          && calls[i].at.checkedAt < held.value.expiresAt - Before(w, seconds))
  }

  /** The token held is the last one that an earlier call got from the endpoint. */
  ghost predicate Holds(d: Dialect, w: Wire, calls: seq<TokenCall>, i: nat, k: nat, seconds: int)
    requires i <= |calls|
  {
    k < i && Held(d, calls, i).Some? && Exchanged(w, Held(d, calls, k), calls[k].at, Held(d, calls, i).value, seconds)
  }

  lemma HeldIsExchanged(d: Dialect, w: Wire, calls: seq<TokenCall>, i: nat) returns (k: nat, seconds: int)
    requires i <= |calls| && Speaks(d, w)
    ensures Held(d, calls, i).Some? ==> Holds(d, w, calls, i, k, seconds)
  {
    HeldIsLastMinted(d, calls, i);
    k, seconds := 0, 0;
    if Held(d, calls, i).Some? {
      k := LastMint(d, calls, i);
      ExchangesAsSpoken(d, w, Held(d, calls, k), calls[k].at, Held(d, calls, i).value);
      seconds :| Exchanged(w, Held(d, calls, k), calls[k].at, Held(d, calls, i).value, seconds);
    }
  }

  lemma HandsOutAsSpoken(d: Dialect, w: Wire, calls: seq<TokenCall>, i: nat)
    requires i < |calls| && Speaks(d, w)
    ensures Serve(d, Held(d, calls, i), calls[i]).result.Ok? ==>
              exists k: nat, seconds :: HandsOut(d, w, calls, i, k, seconds)
    ensures Serve(d, Held(d, calls, i), calls[i]).result.Err? ==>
              Serve(d, Held(d, calls, i), calls[i]).token == Held(d, calls, i)
  {
    var held := Held(d, calls, i);
    var s := Serve(d, held, calls[i]);
    if s.result.Ok? {
      if Exchanges(d, held, calls[i]) {
        ExchangesAsSpoken(d, w, held, calls[i].at, s.token.value);
        var seconds :| Exchanged(w, held, calls[i].at, s.token.value, seconds);
        assert HandsOut(d, w, calls, i, i, seconds);
      } else {
        var k, seconds := HeldIsExchanged(d, w, calls, i);
        assert HandsOut(d, w, calls, i, k, seconds);
      }
    }
  }

  /** Over any run, what is handed out, dialect by dialect. */
  lemma ServedByDialect(calls: seq<TokenCall>, i: nat)
    requires i < |calls|
    ensures Serve(Cloud, Held(Cloud, calls, i), calls[i]).result.Ok? ==>
              exists k: nat, seconds ::
                HandsOut(Cloud, Wire("access_token", "expires_in", Some("refresh_token"), 300.0), calls, i, k, seconds)
    ensures Serve(OnPremV13, Held(OnPremV13, calls, i), calls[i]).result.Ok? ==>
              exists k: nat, seconds ::
                HandsOut(OnPremV13, Wire("accessToken", "expiresIn", Some("refreshToken"), 60.0), calls, i, k, seconds)
    ensures Serve(OnPremLegacy, Held(OnPremLegacy, calls, i), calls[i]).result.Ok? ==>
              exists k: nat, seconds ::
                HandsOut(OnPremLegacy, Wire("accessToken", "expiresIn", None, 60.0), calls, i, k, seconds)
  {
    HandsOutAsSpoken(Cloud, Wire("access_token", "expires_in", Some("refresh_token"), 300.0), calls, i);
    HandsOutAsSpoken(OnPremV13, Wire("accessToken", "expiresIn", Some("refreshToken"), 60.0), calls, i);
    HandsOutAsSpoken(OnPremLegacy, Wire("accessToken", "expiresIn", None, 60.0), calls, i);
  }

  /** The call sends requests exactly when the token held is missing, due by the life it was given, or rejected. */
  ghost predicate SendsWhenDue(d: Dialect, w: Wire, calls: seq<TokenCall>, i: nat)
    requires i < |calls|
  {
    var held := Held(d, calls, i);
    var sent := Serve(d, held, calls[i]).sent;
    if held.None? then sent != []
    else
      exists k: nat, seconds ::
        && Holds(d, w, calls, i, k, seconds)
        && (sent == [] <==> && calls[i].at.checkedAt < held.value.expiresAt - Before(w, seconds)
                            && calls[i].kind != ForceRefresh(Some(held.value.access)))
  }

  lemma SendsAsSpoken(d: Dialect, w: Wire, calls: seq<TokenCall>, i: nat)
    requires i < |calls| && Speaks(d, w)
    ensures SendsWhenDue(d, w, calls, i)
  {
    var k, seconds := HeldIsExchanged(d, w, calls, i);
  }

  /** Over any run, which calls send requests, dialect by dialect. */
  lemma SendsByDialect(calls: seq<TokenCall>, i: nat)
    requires i < |calls|
    ensures SendsWhenDue(Cloud, Wire("access_token", "expires_in", Some("refresh_token"), 300.0), calls, i)
    ensures SendsWhenDue(OnPremV13, Wire("accessToken", "expiresIn", Some("refreshToken"), 60.0), calls, i)
    ensures SendsWhenDue(OnPremLegacy, Wire("accessToken", "expiresIn", None, 60.0), calls, i)
  {
    SendsAsSpoken(Cloud, Wire("access_token", "expires_in", Some("refresh_token"), 300.0), calls, i);
    SendsAsSpoken(OnPremV13, Wire("accessToken", "expiresIn", Some("refreshToken"), 60.0), calls, i);
    SendsAsSpoken(OnPremLegacy, Wire("accessToken", "expiresIn", None, 60.0), calls, i);
  }

  /******* The manager itself *******/

  class Manager {
    const dialect: Dialect
    var token: Option<Token>

    constructor (dialect: Dialect)
      ensures this.dialect == dialect && token == None
    {
      this.dialect := dialect;
      token := None;
    }

    /** One exchange with the endpoint, which answers `at.first` and then `at.second`; the lock is held throughout. */
    method RefreshLocked(at: Occasion) returns (r: Result<(), ApiError>, ghost sent: seq<Sent>)
      modifies this
      ensures sent == Requests(dialect, old(token), at)
      ensures r.Ok? <==> Refresh(dialect, old(token), at).Ok?
      ensures r.Ok? ==> token == Some(Refresh(dialect, old(token), at).value)
      ensures r.Err? ==> token == old(token) && Refresh(dialect, old(token), at) == Err(r.error)
    {
      var grant := FirstGrant(dialect, token);
      var reply := at.first;
      sent := [Sent(grant, reply)];
      var previous := if grant.RefreshGrant? then Some(grant.refreshToken) else None;
      if grant.RefreshGrant? && InvalidGrant(reply) {
        previous := None;
        reply := at.second;
        sent := sent + [Sent(PasswordGrant, reply)];
      }
      var body := ResponseJson(reply);
      if body.Err? { return Err(body.error), sent; }
      r := SetToken(body.value, previous, at.mintedAt);
    }

    method SetToken(body: Body, previous: Option<string>, now: real) returns (r: Result<(), ApiError>)
      modifies this
      ensures r.Ok? <==> Mint(dialect, body, previous, now).Ok?
      ensures r.Ok? ==> token == Some(Mint(dialect, body, previous, now).value)
      ensures r.Err? ==> token == old(token) && Mint(dialect, body, previous, now) == Err(r.error)
    {
      var bad := Err(ApiError(502));
      if !body.Object? || AccessKey(dialect) !in body.fields { return bad; }
      var field := body.fields[AccessKey(dialect)];
      if !field.Text? || field.text == "" || !Printable(field.text) { return bad; }
      var seconds := Lifetime(body.fields, ExpiryKey(dialect));
      if seconds.None? { return bad; }
      var refresh := KeptRefresh(body.fields, RefreshKey(dialect), previous);
      if refresh.Err? { return bad; }
      var life := seconds.value as real;
      token := Some(Token(field.text, refresh.value, now + life,
                          Some(now + life - Min(Margin(dialect), life / 10.0))));
      return Ok(());
    }

    method GetToken(at: Occasion) returns (r: Result<string, ApiError>, ghost sent: seq<Sent>)
      modifies this
      ensures Served(token, r, sent) == Serve(dialect, old(token), TokenCall(GetAccessToken, at))
    {
      sent := [];
      if Expiring(dialect, token, at.checkedAt) {
        var done;
        done, sent := RefreshLocked(at);
        if done.Err? { return Err(done.error), sent; }
      }
      r := Ok(token.value.access);
    }

    method Force(rejected: Option<string>, at: Occasion) returns (r: Result<string, ApiError>, ghost sent: seq<Sent>)
      modifies this
      ensures Served(token, r, sent) == Serve(dialect, old(token), TokenCall(ForceRefresh(rejected), at))
    {
      if !Expiring(dialect, token, at.checkedAt) && (rejected.None? || token.value.access != rejected.value) {
        return Ok(token.value.access), [];
      }
      var done;
      done, sent := RefreshLocked(at);
      if done.Err? { return Err(done.error), sent; }
      r := Ok(token.value.access);
    }
  }
}
