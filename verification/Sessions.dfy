/**
 * The table that binds protocol sessions to the connection identity that created them.  A request touches it
 * in two atomic sections, before and after the handler runs; requests interleave between their sections.
 */
module Sessions {
  import opened Wrappers
  import opened Recency
  import opened OrderedDict
  import opened Credentials

  const MAX_SESSIONS := 1000
  const SESSION_SECONDS := 1800.0

  // The keyed digest of a connection identity is taken to be injective.
  type Binding = CacheKey

  datatype Session = Session(binding: Binding, expiresAt: real)
  type Table = Dict<string, Session>

  const MODERN := "2026-07-28"

  // A request between its two sections, with the two headers that decide the session it is served under.
  datatype Flight = Flight(binding: Binding, header: Option<string>, version: Option<string>, verb: string)

  /** The id the request is bound to: modern requests and empty headers have none. */
  function IdOf(f: Flight): Option<string> {
    if f.version == Some(MODERN) || f.header == Some("") then None else f.header
  }

  predicate Accepts(d: Table, id: string, b: Binding, now: real) {
    match Lookup(d, id)
    case None => false
    case Some(s) => now <= s.expiresAt && s.binding == b
  }

  /** Make the entry the newest, with the given value. */
  function Renewed(d: Table, id: string, s: Session): Table {
    Put(MoveToEnd(d, id), id, s)
  }

  function Stored(d: Table, id: string, s: Session): Table {
    MoveToEnd(Put(d, id, s), id)
  }

  function Evicted(d: Table): Table { LastN(d, MAX_SESSIONS) }

  /** The first section: whether the request may proceed, and the table it leaves. */
  function Admit(d: Table, f: Flight, checkedAt: real, renewedAt: real): (bool, Table) {
    match IdOf(f)
    case None => (true, d)
    case Some(id) =>
      if Accepts(d, id, f.binding, checkedAt)
      then (true, Renewed(d, id, Session(f.binding, renewedAt + SESSION_SECONDS)))
      else (false, d)
  }

  /** The second section, with the id and status the handler answered. */
  function Settle(d: Table, f: Flight, answer: Option<string>, status: nat, now: real): Table {
    var kept :=
      if answer.Some? && answer.value != "" && status == 200
      then Evicted(Stored(d, answer.value, Session(f.binding, now + SESSION_SECONDS))) else d;
    if IdOf(f).Some? && f.verb == "DELETE" && status < 400 then Delete(kept, IdOf(f).value) else kept
  }

  class Middleware {
    var sessions: Table

    constructor ()
      ensures sessions == []
    {
      sessions := [];
    }

    method Before(f: Flight, checkedAt: real, renewedAt: real) returns (admitted: bool)
      modifies this
      ensures (admitted, sessions) == Admit(old(sessions), f, checkedAt, renewedAt)
    {
      var session := f.header;
      if f.version == Some(MODERN) { session := None; }
      if session.Some? && session.value != "" {
        var id := session.value;
        var stored := Lookup(sessions, id);
        if stored.None? || checkedAt > stored.value.expiresAt || stored.value.binding != f.binding {
          return false;
        }
        sessions := MoveToEnd(sessions, id);
        sessions := Put(sessions, id, Session(f.binding, renewedAt + SESSION_SECONDS));
      }
      admitted := true;
    }

    method After(f: Flight, answer: Option<string>, status: nat, now: real)
      modifies this
      ensures sessions == Settle(old(sessions), f, answer, status, now)
    {
      if answer.Some? && answer.value != "" && status == 200 {
        sessions := Put(sessions, answer.value, Session(f.binding, now + SESSION_SECONDS));
        sessions := MoveToEnd(sessions, answer.value);
        ghost var all := sessions;
        while |sessions| > MAX_SESSIONS
          invariant Evicted(sessions) == Evicted(all)
          decreases |sessions|
        {
          sessions := sessions[1..];
        }
      }
      if IdOf(f).Some? && f.verb == "DELETE" && status < 400 {
        sessions := Delete(sessions, IdOf(f).value);
      }
    }
  }

  /******* Interleaved runs *******/

  datatype State = State(
    table: Table,
    flights: map<nat, Flight>,        // requests between their sections
    creator: map<string, Binding>,    // history: who first got each id
    now: real)                        // history: the last clock reading

  datatype Event =
    | Arrive(request: nat, flight: Flight, checkedAt: real, renewedAt: real)
    | Answer(request: nat, answer: Option<string>, status: nat, at: real)
    | Fail(request: nat)

  const EMPTY := State([], map[], map[], 0.0)

  /** The clock never goes back, and the handler answers with the request's own id or one never used before. */
  predicate Enabled(s: State, e: Event) {
    match e
    case Arrive(request, _, checkedAt, renewedAt) =>
      request !in s.flights && s.now <= checkedAt <= renewedAt
    case Answer(request, answer, _, at) =>
      && request in s.flights && s.now <= at
      && (answer.Some? ==> answer == IdOf(s.flights[request]) || answer.value !in s.creator)
    case Fail(request) => request in s.flights
  }

  function Step(s: State, e: Event): State
    requires Enabled(s, e)
  {
    match e
    case Arrive(request, f, checkedAt, renewedAt) =>
      var (ok, table) := Admit(s.table, f, checkedAt, renewedAt);
      s.(table := table, now := renewedAt, flights := if ok then s.flights[request := f] else s.flights)
    case Answer(request, answer, status, at) =>
      var f := s.flights[request];
      s.(table := Settle(s.table, f, answer, status, at), now := at, flights := s.flights - {request},
         creator := if answer.Some? && answer.value != "" && status == 200 && answer.value !in s.creator
                    then s.creator[answer.value := f.binding] else s.creator)
    case Fail(request) => s.(flights := s.flights - {request})
  }

  ghost predicate Possible(s: State, run: seq<Event>)
    decreases |run|
  {
    run == [] || (Enabled(s, run[0]) && Possible(Step(s, run[0]), run[1..]))
  }

  ghost function Run(s: State, run: seq<Event>): State
    requires Possible(s, run)
    decreases |run|
  {
    if run == [] then s else Run(Step(s, run[0]), run[1..])
  }

  /******* The table's own invariant *******/

  /** Oldest expiry first. */
  ghost predicate ByExpiry(d: Table) {
    d == [] || ((forall e :: e in d[1..] ==> d[0].value.expiresAt <= e.value.expiresAt) && ByExpiry(d[1..]))
  }

  ghost predicate Until(d: Table, t: real) {
    forall e :: e in d ==> e.value.expiresAt <= t
  }

  ghost predicate TableInv(d: Table, now: real) {
    Distinct(Keys(d)) && ByExpiry(d) && Until(d, now + SESSION_SECONDS) && |d| <= MAX_SESSIONS
  }

  lemma {:induction false} ByExpiryDelete(d: Table, id: string)
    requires ByExpiry(d)
    ensures ByExpiry(Delete(d, id)) && |Delete(d, id)| <= |d|
  {
    if d != [] {
      ByExpiryDelete(d[1..], id);
      DeleteMembers(d[1..], id);
      if d[0].key != id { assert ([d[0]] + Delete(d[1..], id))[1..] == Delete(d[1..], id); }
    }
  }

  lemma {:induction false} ByExpirySnoc(d: Table, e: Item<string, Session>)
    requires ByExpiry(d) && Until(d, e.value.expiresAt)
    ensures ByExpiry(d + [e])
  {
    if d != [] {
      ByExpirySnoc(d[1..], e);
      assert (d + [e])[1..] == d[1..] + [e];
    }
  }

  /** Every way the table is written puts one entry last and takes no other away. */
  function Latest(d: Table, id: string, s: Session): Table {
    Delete(d, id) + [Item(id, s)]
  }

  lemma StoredIsLatest(d: Table, id: string, s: Session)
    requires Distinct(Keys(d))
    ensures Stored(d, id, s) == Latest(d, id, s)
    ensures id in Keys(d) ==> Renewed(d, id, s) == Latest(d, id, s)
  {
    PutSpec(d, id, s, id);
    PutDelete(d, id, s);
    if id in Keys(d) {
      LookupMember(d, id);
      var former := Item(id, Lookup(d, id).value);
      DeleteSpec(d, id, id);
      WithoutMembers(Keys(d), id);
      PutLast(Delete(d, id), former, s);
    }
  }

  lemma {:induction false} PutDelete(d: Table, id: string, s: Session)
    ensures Delete(Put(d, id, s), id) == Delete(d, id)
  {
    if d != [] {
      if d[0].key == id {
        assert ([Item(id, s)] + d[1..])[1..] == d[1..];
      } else {
        PutDelete(d[1..], id, s);
        assert ([d[0]] + Put(d[1..], id, s))[1..] == Put(d[1..], id, s);
      }
    }
  }

  lemma {:induction false} PutLast(d: Table, e: Item<string, Session>, s: Session)
    requires e.key !in Keys(d)
    ensures Put(d + [e], e.key, s) == d + [Item(e.key, s)]
  {
    if d != [] {
      assert Keys(d) == [d[0].key] + Keys(d[1..]);
      PutLast(d[1..], e, s);
      assert (d + [e])[1..] == d[1..] + [e];
    }
  }

  lemma LatestKeeps(d: Table, id: string, s: Session, now: real)
    requires Distinct(Keys(d)) && ByExpiry(d) && Until(d, s.expiresAt) && s.expiresAt == now + SESSION_SECONDS
    ensures var d' := Latest(d, id, s);
            && Distinct(Keys(d')) && ByExpiry(d') && Until(d', now + SESSION_SECONDS)
            && |d'| <= |d| + 1 && (id in Keys(d) ==> |d'| <= |d|)
  {
    var e := Item(id, s);
    ByExpiryDelete(d, id);
    DeleteMembers(d, id);
    ByExpirySnoc(Delete(d, id), e);
    DeleteSpec(d, id, id);
    WithoutDistinct(Keys(d), id);
    WithoutMembers(Keys(d), id);
    KeysAppend(Delete(d, id), [e]);
    assert Keys([e]) == [id];
    DistinctSnoc(Without(Keys(d), id), id);
    KeysLength(d);
    KeysLength(Delete(d, id));
  }

  lemma {:induction false} SuffixKeeps(d: Table, n: nat)
    requires n <= |d| && Distinct(Keys(d)) && ByExpiry(d)
    ensures Distinct(Keys(d[n..])) && ByExpiry(d[n..])
    ensures forall x, y :: x in d[..n] && y in d[n..] ==> x.value.expiresAt <= y.value.expiresAt
  {
    if n > 0 {
      assert Keys(d)[1..] == Keys(d[1..]);
      SuffixKeeps(d[1..], n - 1);
      assert d[1..][n - 1..] == d[n..] && d[..n] == [d[0]] + d[1..][..n - 1];
      assert forall y :: y in d[n..] ==> y in d[1..];
    }
  }

  /** Eviction drops earliest-expiring sessions: none kept expires before one that was dropped. */
  lemma EvictionIsEarliest(d: Table)
    requires Distinct(Keys(d)) && ByExpiry(d)
    ensures |Evicted(d)| == if |d| <= 1000 then |d| else 1000
    ensures forall x, y :: x in d && x !in Evicted(d) && y in Evicted(d) ==> x.value.expiresAt <= y.value.expiresAt
    ensures Distinct(Keys(Evicted(d))) && ByExpiry(Evicted(d))
  {
    if |d| > MAX_SESSIONS {
      var cut := |d| - MAX_SESSIONS;
      SuffixKeeps(d, cut);
      assert d == d[..cut] + d[cut..];
    }
  }

  /******* Bindings over every interleaving *******/

  ghost predicate Bound(d: Table, creator: map<string, Binding>) {
    forall e :: e in d ==> e.key in creator && creator[e.key] == e.value.binding
  }

  ghost predicate FlightBound(f: Flight, creator: map<string, Binding>) {
    IdOf(f).Some? ==> IdOf(f).value in creator && creator[IdOf(f).value] == f.binding
  }

  ghost predicate Inv(s: State) {
    && TableInv(s.table, s.now)
    && Bound(s.table, s.creator)
    && (forall r :: r in s.flights ==> FlightBound(s.flights[r], s.creator))
  }

  lemma UntilLater(d: Table, t: real, u: real)
    requires Until(d, t) && t <= u
    ensures Until(d, u)
  {
  }

  lemma LatestBound(d: Table, id: string, s: Session, creator: map<string, Binding>)
    requires Bound(d, creator) && id in creator && creator[id] == s.binding
    ensures Bound(Latest(d, id, s), creator)
  {
    DeleteMembers(d, id);
  }

  lemma AdmitKeeps(d: Table, f: Flight, checkedAt: real, renewedAt: real, now: real, creator: map<string, Binding>)
    requires TableInv(d, now) && Bound(d, creator) && now <= checkedAt <= renewedAt
    ensures var (ok, d') := Admit(d, f, checkedAt, renewedAt);
            && TableInv(d', renewedAt) && Bound(d', creator)
            && (ok ==> FlightBound(f, creator))
  {
    UntilLater(d, now + SESSION_SECONDS, renewedAt + SESSION_SECONDS);
    if IdOf(f).Some? && Accepts(d, IdOf(f).value, f.binding, checkedAt) {
      var id, s := IdOf(f).value, Session(f.binding, renewedAt + SESSION_SECONDS);
      LookupMember(d, id);
      StoredIsLatest(d, id, s);
      LatestKeeps(d, id, s, renewedAt);
      LatestBound(d, id, s, creator);
    }
  }

  lemma StoreKeeps(d: Table, id: string, b: Binding, at: real, now: real, creator: map<string, Binding>)
    requires TableInv(d, now) && now <= at && Bound(d, creator) && id in creator && creator[id] == b
    ensures var d' := Evicted(Stored(d, id, Session(b, at + SESSION_SECONDS)));
            TableInv(d', at) && Bound(d', creator)
  {
    var s := Session(b, at + SESSION_SECONDS);
    UntilLater(d, now + SESSION_SECONDS, at + SESSION_SECONDS);
    StoredIsLatest(d, id, s);
    LatestKeeps(d, id, s, at);
    LatestBound(d, id, s, creator);
    EvictionIsEarliest(Latest(d, id, s));
  }

  lemma DeleteKeeps(d: Table, id: string, now: real, creator: map<string, Binding>)
    requires TableInv(d, now) && Bound(d, creator)
    ensures TableInv(Delete(d, id), now) && Bound(Delete(d, id), creator)
  {
    ByExpiryDelete(d, id);
    DeleteMembers(d, id);
    DeleteSpec(d, id, id);
    WithoutDistinct(Keys(d), id);
  }

  lemma SettleKeeps(
    d: Table, f: Flight, answer: Option<string>, status: nat, at: real, now: real, creator: map<string, Binding>)
    requires TableInv(d, now) && now <= at && Bound(d, creator)
    requires answer.Some? && answer.value != "" && status == 200 ==>
               answer.value in creator && creator[answer.value] == f.binding
    ensures var d' := Settle(d, f, answer, status, at); TableInv(d', at) && Bound(d', creator)
  {
    UntilLater(d, now + SESSION_SECONDS, at + SESSION_SECONDS);
    var kept := d;
    if answer.Some? && answer.value != "" && status == 200 {
      StoreKeeps(d, answer.value, f.binding, at, now, creator);
      kept := Evicted(Stored(d, answer.value, Session(f.binding, at + SESSION_SECONDS)));
    }
    if IdOf(f).Some? { DeleteKeeps(kept, IdOf(f).value, at, creator); }
  }

  lemma StepKeeps(s: State, e: Event)
    requires Inv(s) && Enabled(s, e)
    ensures Inv(Step(s, e))
    ensures forall id :: id in s.creator ==> id in Step(s, e).creator && Step(s, e).creator[id] == s.creator[id]
  {
    match e
    case Arrive(_, f, checkedAt, renewedAt) =>
      AdmitKeeps(s.table, f, checkedAt, renewedAt, s.now, s.creator);
    case Answer(request, answer, status, at) =>
      SettleKeeps(s.table, s.flights[request], answer, status, at, s.now, Step(s, e).creator);
    case Fail(_) =>
  }

  lemma {:induction false} RunKeeps(s: State, run: seq<Event>)
    requires Inv(s) && Possible(s, run)
    ensures Inv(Run(s, run))
    ensures forall id :: id in s.creator ==> id in Run(s, run).creator && Run(s, run).creator[id] == s.creator[id]
    decreases |run|
  {
    if run != [] {
      StepKeeps(s, run[0]);
      RunKeeps(Step(s, run[0]), run[1..]);
    }
  }

  /** The identity under which an answer first stored the id. */
  ghost function FirstStorer(s: State, run: seq<Event>, id: string): Option<Binding>
    requires Possible(s, run)
    decreases |run|
  {
    if run == [] then None
    else if run[0].Answer? && run[0].answer == Some(id) && id != "" && run[0].status == 200
    then Some(s.flights[run[0].request].binding)
    else FirstStorer(Step(s, run[0]), run[1..], id)
  }

  lemma {:induction false} CreatorIsFirstStorer(s: State, run: seq<Event>, id: string)
    requires Possible(s, run)
    ensures var creator := Run(s, run).creator;
            if id in s.creator then id in creator && creator[id] == s.creator[id]
            else if FirstStorer(s, run, id).Some? then id in creator && creator[id] == FirstStorer(s, run, id).value
            else id !in creator
    decreases |run|
  {
    if run != [] { CreatorIsFirstStorer(Step(s, run[0]), run[1..], id); }
  }

  /**
   * At every point of every interleaving the table is bounded and sorted by expiry, and a request is admitted
   * to a session only under the identity that created it.
   */
  lemma SessionsStayWithTheirCreator(run: seq<Event>, f: Flight, checkedAt: real, renewedAt: real)
    requires Possible(EMPTY, run) && Run(EMPTY, run).now <= checkedAt <= renewedAt
    ensures var s := Run(EMPTY, run);
            && |s.table| <= 1000 && ByExpiry(s.table)
            && (forall e :: e in s.table ==> FirstStorer(EMPTY, run, e.key) == Some(e.value.binding))
            && (IdOf(f).Some? && Admit(s.table, f, checkedAt, renewedAt).0 ==>
                  FirstStorer(EMPTY, run, IdOf(f).value) == Some(f.binding))
  {
    RunKeeps(EMPTY, run);
    var s := Run(EMPTY, run);
    AdmitKeeps(s.table, f, checkedAt, renewedAt, s.now, s.creator);
    forall e | e in s.table ensures FirstStorer(EMPTY, run, e.key) == Some(e.value.binding) {
      CreatorIsFirstStorer(EMPTY, run, e.key);
    }
    if IdOf(f).Some? { CreatorIsFirstStorer(EMPTY, run, IdOf(f).value); }
  }

  /** The identity an id was first stored under is its identity for the rest of the run. */
  lemma CreatorNeverChanges(run: seq<Event>, more: seq<Event>, id: string)
    requires Possible(EMPTY, run) && Possible(Run(EMPTY, run), more) && id in Run(EMPTY, run).creator
    ensures var s := Run(EMPTY, run);
            id in Run(s, more).creator && Run(s, more).creator[id] == s.creator[id]
  {
    RunKeeps(EMPTY, run);
    RunKeeps(Run(EMPTY, run), more);
  }

  /** The creator of a live session is admitted, and the session then lives half an hour from the renewal. */
  lemma CreatorAdmitted(run: seq<Event>, e: Item<string, Session>, f: Flight, checkedAt: real, renewedAt: real)
    requires Possible(EMPTY, run) && e in Run(EMPTY, run).table
    requires IdOf(f) == Some(e.key) && f.binding == e.value.binding && checkedAt <= e.value.expiresAt
    ensures var (ok, table) := Admit(Run(EMPTY, run).table, f, checkedAt, renewedAt);
            && ok && |table| == |Run(EMPTY, run).table|
            && table[|table| - 1] == Item(e.key, Session(f.binding, renewedAt + 1800.0))
  {
    RunKeeps(EMPTY, run);
    var d := Run(EMPTY, run).table;
    var s := Session(f.binding, renewedAt + SESSION_SECONDS);
    LookupUnique(d, e);
    LookupMember(d, e.key);
    StoredIsLatest(d, e.key, s);
    DeleteSpec(d, e.key, e.key);
    WithoutDistinct(Keys(d), e.key);
    KeysLength(d);
    KeysLength(Delete(d, e.key));
  }

  /******* Deleted sessions *******/

  /** A request other than a delete is under way in the session. */
  ghost predicate InUse(s: State, id: string) {
    exists r :: r in s.flights && IdOf(s.flights[r]) == Some(id) && s.flights[r].verb != "DELETE"
  }

  ghost predicate Gone(s: State, id: string) {
    id in s.creator && Lookup(s.table, id).None? && !InUse(s, id)
  }

  lemma OthersKept(d: Table, id: string, s: Session, other: string)
    requires other != id
    ensures Lookup(Renewed(d, id, s), other) == Lookup(d, other) == Lookup(Stored(d, id, s), other)
  {
    MoveKeeps(d, id, other);
    PutSpec(MoveToEnd(d, id), id, s, other);
    PutSpec(d, id, s, other);
    MoveKeeps(Put(d, id, s), id, other);
  }

  lemma MoveKeeps(d: Table, id: string, other: string)
    requires other != id
    ensures Lookup(MoveToEnd(d, id), other) == Lookup(d, other)
  {
    if Lookup(d, id).Some? {
      DeleteSpec(d, id, other);
      LookupAppend(Delete(d, id), [Item(id, Lookup(d, id).value)], other);
    }
  }

  lemma SuffixAbsent(d: Table, n: nat, id: string)
    requires n <= |d| && Lookup(d, id).None?
    ensures Lookup(d[n..], id).None?
  {
    LookupAppend(d[..n], d[n..], id);
    assert d == d[..n] + d[n..];
  }

  lemma StoredSurvives(d: Table, id: string, s: Session)
    ensures Lookup(Evicted(Stored(d, id, s)), id) == Some(s)
  {
    var rest := Delete(Put(d, id, s), id);
    PutSpec(d, id, s, id);
    DeleteSpec(Put(d, id, s), id, id);
    assert Stored(d, id, s) == rest + [Item(id, s)];
    var cut := if |rest| + 1 > MAX_SESSIONS then |rest| + 1 - MAX_SESSIONS else 0;
    SuffixAbsent(rest, cut, id);
    LookupAppend(rest[cut..], [Item(id, s)], id);
    assert Evicted(Stored(d, id, s)) == rest[cut..] + [Item(id, s)];
  }

  lemma SettleAbsent(d: Table, f: Flight, answer: Option<string>, status: nat, at: real, id: string)
    requires Lookup(d, id).None? && (answer == Some(id) && IdOf(f) == Some(id) ==> f.verb == "DELETE")
    requires answer == Some(id) ==> answer == IdOf(f)
    ensures Lookup(Settle(d, f, answer, status, at), id).None?
  {
    var kept := d;
    if answer.Some? && answer.value != "" && status == 200 {
      var s := Session(f.binding, at + SESSION_SECONDS);
      kept := Evicted(Stored(d, answer.value, s));
      if answer.value != id {
        OthersKept(d, answer.value, s, id);
        var all := Stored(d, answer.value, s);
        if |all| > MAX_SESSIONS { SuffixAbsent(all, |all| - MAX_SESSIONS, id); }
      }
    }
    if IdOf(f).Some? { DeleteSpec(kept, IdOf(f).value, id); }
  }

  lemma StepStaysGone(s: State, e: Event, id: string)
    requires Enabled(s, e) && Gone(s, id)
    ensures Gone(Step(s, e), id)
  {
    match e
    case Arrive(_, f, _, renewedAt) =>
      if IdOf(f).Some? && IdOf(f).value != id {
        OthersKept(s.table, IdOf(f).value, Session(f.binding, renewedAt + SESSION_SECONDS), id);
      }
    case Answer(request, answer, status, at) =>
      SettleAbsent(s.table, s.flights[request], answer, status, at, id);
    case Fail(_) =>
  }

  lemma {:induction false} RunStaysGone(s: State, run: seq<Event>, id: string)
    requires Possible(s, run) && Gone(s, id)
    ensures Gone(Run(s, run), id)
    decreases |run|
  {
    if run != [] {
      StepStaysGone(s, run[0], id);
      RunStaysGone(Step(s, run[0]), run[1..], id);
    }
  }

  /** The answer of a request still under way brings its session back, deleted or not. */
  lemma AnswerRevives(s: State, id: string, request: nat)
    requires request in s.flights && IdOf(s.flights[request]) == Some(id) && s.flights[request].verb != "DELETE"
    ensures var e := Answer(request, Some(id), 200, s.now);
            Possible(s, [e]) && Accepts(Run(s, [e]).table, id, s.flights[request].binding, s.now)
  {
    var e := Answer(request, Some(id), 200, s.now);
    assert [e][1..] == [] && Possible(Step(s, e), []);
    assert Run(s, [e]) == Run(Step(s, e), []) == Step(s, e);
    StoredSurvives(s.table, id, Session(s.flights[request].binding, s.now + SESSION_SECONDS));
  }

  /** The session is there for nobody, whatever happens next. */
  ghost predicate NeverAgain(s: State, id: string) {
    forall more :: Possible(s, more) ==> Lookup(Run(s, more).table, id).None?
  }

  /**
   * A session that was deleted successfully is there for nobody ever after, whatever else happens, exactly when no
   * request other than a delete was still under way in it.
   */
  lemma DeletedForGoodExactlyWhen(run: seq<Event>, request: nat, answer: Option<string>, status: nat, at: real)
    requires Possible(EMPTY, run) && Enabled(Run(EMPTY, run), Answer(request, answer, status, at)) && status < 400
    requires var f := Run(EMPTY, run).flights[request]; IdOf(f).Some? && f.verb == "DELETE"
    ensures var id := IdOf(Run(EMPTY, run).flights[request]).value;
            var s := Step(Run(EMPTY, run), Answer(request, answer, status, at));
            Lookup(s.table, id).None? && (NeverAgain(s, id) <==> !InUse(s, id))
  {
    RunKeeps(EMPTY, run);
    var before := Run(EMPTY, run);
    var f := before.flights[request];
    var id, s := IdOf(f).value, Step(before, Answer(request, answer, status, at));
    DeleteEnds(before.table, f, answer, status, at);
    if InUse(s, id) {
      var r :| r in s.flights && IdOf(s.flights[r]) == Some(id) && s.flights[r].verb != "DELETE";
      AnswerRevives(s, id, r);
    } else {
      forall more | Possible(s, more) ensures Lookup(Run(s, more).table, id).None? { RunStaysGone(s, more, id); }
    }
  }

  lemma DeleteEnds(d: Table, f: Flight, answer: Option<string>, status: nat, at: real)
    requires IdOf(f).Some? && f.verb == "DELETE" && status < 400
    ensures Lookup(Settle(d, f, answer, status, at), IdOf(f).value).None?
  {
    var kept := if answer.Some? && answer.value != "" && status == 200
                then Evicted(Stored(d, answer.value, Session(f.binding, at + SESSION_SECONDS))) else d;
    DeleteSpec(kept, IdOf(f).value, IdOf(f).value);
  }

  /******* Who is admitted, and for how long *******/

  /** A live entry of this identity. */
  ghost predicate Live(d: Table, id: string, b: Binding, now: real) {
    exists e :: e in d && e.key == id && now <= e.value.expiresAt && e.value.binding == b
  }

  /**
   * A request without a session header, or of the modern protocol, is admitted and leaves the table alone; any other is
   * admitted exactly when the id it names has a live entry of its own identity, and refused with the table unchanged.
   */
  lemma AdmittedExactlyWhen(run: seq<Event>, f: Flight, checkedAt: real, renewedAt: real)
    requires Possible(EMPTY, run)
    ensures var d := Run(EMPTY, run).table;
            var (ok, d') := Admit(d, f, checkedAt, renewedAt);
            if f.version == Some("2026-07-28") || f.header == None || f.header == Some("") then ok && d' == d
            else (ok <==> Live(d, f.header.value, f.binding, checkedAt)) && (!ok ==> d' == d)
  {
    RunKeeps(EMPTY, run);
    var d := Run(EMPTY, run).table;
    if IdOf(f).Some? {
      var id := IdOf(f).value;
      LookupMember(d, id);
      if Live(d, id, f.binding, checkedAt) {
        var e :| e in d && e.key == id && checkedAt <= e.value.expiresAt && e.value.binding == f.binding;
        LookupUnique(d, e);
      }
    }
  }

  /** When the session was last stored or renewed, as far as this step shows. */
  ghost function Touched(s: State, e: Event, id: string, before: Option<real>): Option<real>
    requires Enabled(s, e)
  {
    match e
    case Arrive(request, f, _, renewedAt) =>
      if request in Step(s, e).flights && IdOf(f) == Some(id) then Some(renewedAt) else before
    case Answer(_, answer, status, at) =>
      if answer == Some(id) && id != "" && status == 200 then Some(at) else before
    case Fail(_) => before
  }

  ghost function LastTouched(s: State, run: seq<Event>, id: string, before: Option<real>): Option<real>
    requires Possible(s, run)
    decreases |run|
  {
    if run == [] then before else LastTouched(Step(s, run[0]), run[1..], id, Touched(s, run[0], id, before))
  }

  ghost predicate ExpiresInHalfAnHour(d: Table, id: string, touched: Option<real>) {
    Lookup(d, id).Some? ==> touched.Some? && Lookup(d, id).value.expiresAt == touched.value + 1800.0
  }

  lemma EvictedLookup(d: Table, id: string)
    requires Distinct(Keys(d))
    ensures Lookup(Evicted(d), id).Some? ==> Lookup(Evicted(d), id) == Lookup(d, id)
  {
    if |d| > MAX_SESSIONS && Lookup(Evicted(d), id).Some? {
      LookupMember(Evicted(d), id);
      LookupUnique(d, Item(id, Lookup(Evicted(d), id).value));
    }
  }

  /** What one answer does to the entry of any id. */
  lemma SettledEntry(d: Table, f: Flight, answer: Option<string>, status: nat, at: real, id: string)
    requires Distinct(Keys(d))
    ensures var entry := Lookup(Settle(d, f, answer, status, at), id);
            var stores := answer.Some? && answer.value != "" && status == 200;
            if IdOf(f) == Some(id) && f.verb == "DELETE" && status < 400 then entry == None
            else if stores && answer == Some(id) then entry == Some(Session(f.binding, at + 1800.0))
            else (entry == None || entry == Lookup(d, id)) && (!stores ==> entry == Lookup(d, id))
  {
    var kept := d;
    if answer.Some? && answer.value != "" && status == 200 {
      var s := Session(f.binding, at + SESSION_SECONDS);
      var all := Stored(d, answer.value, s);
      kept := Evicted(all);
      StoredSurvives(d, answer.value, s);
      StoredDistinct(d, answer.value, s);
      EvictedLookup(all, id);
      if answer.value != id { OthersKept(d, answer.value, s, id); }
    }
    if IdOf(f).Some? { DeleteSpec(kept, IdOf(f).value, id); }
  }

  lemma StoredDistinct(d: Table, id: string, s: Session)
    requires Distinct(Keys(d))
    ensures Distinct(Keys(Stored(d, id, s)))
  {
    StoredIsLatest(d, id, s);
    DeleteSpec(d, id, id);
    WithoutDistinct(Keys(d), id);
    WithoutMembers(Keys(d), id);
    KeysAppend(Delete(d, id), [Item(id, s)]);
    assert Keys([Item(id, s)]) == [id];
    DistinctSnoc(Without(Keys(d), id), id);
  }

  lemma StepTouches(s: State, e: Event, id: string, touched: Option<real>)
    requires Inv(s) && Enabled(s, e) && ExpiresInHalfAnHour(s.table, id, touched)
    ensures ExpiresInHalfAnHour(Step(s, e).table, id, Touched(s, e, id, touched))
  {
    match e
    case Arrive(_, f, _, renewedAt) =>
      if IdOf(f).Some? {
        var renewed := Session(f.binding, renewedAt + SESSION_SECONDS);
        PutSpec(MoveToEnd(s.table, IdOf(f).value), IdOf(f).value, renewed, id);
        if IdOf(f).value != id { OthersKept(s.table, IdOf(f).value, renewed, id); }
      }
    case Answer(request, answer, status, at) =>
      SettledEntry(s.table, s.flights[request], answer, status, at, id);
    case Fail(_) =>
  }

  lemma {:induction false} RunTouches(s: State, run: seq<Event>, id: string, touched: Option<real>)
    requires Inv(s) && Possible(s, run) && ExpiresInHalfAnHour(s.table, id, touched)
    ensures ExpiresInHalfAnHour(Run(s, run).table, id, LastTouched(s, run, id, touched))
    decreases |run|
  {
    if run != [] {
      StepKeeps(s, run[0]);
      StepTouches(s, run[0], id, touched);
      RunTouches(Step(s, run[0]), run[1..], id, Touched(s, run[0], id, touched));
    }
  }

  /**
   * Over every interleaving a session is refused to everyone later than half an hour after it was last stored or
   * renewed, and an id that was never stored is refused at any time.
   */
  lemma ExpiredIsRefused(run: seq<Event>, f: Flight, checkedAt: real, renewedAt: real)
    requires Possible(EMPTY, run) && IdOf(f).Some?
    ensures var last := LastTouched(EMPTY, run, IdOf(f).value, None);
            last == None || checkedAt > last.value + 1800.0 ==>
              !Admit(Run(EMPTY, run).table, f, checkedAt, renewedAt).0
  {
    RunTouches(EMPTY, run, IdOf(f).value, None);
  }

  /** The handler's discipline is needed: an answer carrying someone else's id would take that session over. */
  lemma ForeignAnswerTakesOver(id: string, owner: Binding, other: Binding, at: real)
    requires id != "" && owner != other
    ensures var mine := Settle([], Flight(owner, None, None, "POST"), Some(id), 200, at);
            var taken := Settle(mine, Flight(other, None, None, "POST"), Some(id), 200, at);
            Accepts(mine, id, owner, at) && !Accepts(taken, id, owner, at) && Accepts(taken, id, other, at)
  {
    var a, b := Session(owner, at + SESSION_SECONDS), Session(other, at + SESSION_SECONDS);
    StoredIsLatest([], id, a);
    var mine: Table := [Item(id, a)];
    assert Latest([], id, a) == mine && mine[1..] == [];
    assert Distinct(Keys(mine));
    StoredIsLatest(mine, id, b);
    assert Latest(mine, id, b) == [Item(id, b)];
  }

  /** A first request is stored under whatever id its answer names; it is then admitted again, and nobody else is. */
  lemma SessionsStart(owner: Flight, other: Flight, id: string, t: real, failed: nat)
    requires t >= 0.0 && IdOf(owner) == None && id != "" && failed != 0
    requires other.header == Some(id) && other.version != Some("2026-07-28")
    ensures var run := [Arrive(0, owner, t, t), Arrive(failed, owner, t, t), Fail(failed),
                        Answer(0, Some(id), 200, t)];
            && Possible(EMPTY, run) && Run(EMPTY, run).table == [Item(id, Session(owner.binding, t + 1800.0))]
            && (Admit(Run(EMPTY, run).table, other, t, t).0 <==> other.binding == owner.binding)
  {
    var events := [Arrive(0, owner, t, t), Arrive(failed, owner, t, t), Fail(failed), Answer(0, Some(id), 200, t)];
    var s1 := Step(EMPTY, events[0]);
    var s2 := Step(s1, events[1]);
    var s3 := Step(s2, events[2]);
    var session := Session(owner.binding, t + SESSION_SECONDS);
    StoredIsLatest([], id, session);
    assert Latest([], id, session) == [Item(id, session)];
    assert s3.flights[0] == owner && s3.table == [] && s3.creator == map[];
    var s4 := Step(s3, events[3]);
    assert s4.table == [Item(id, session)];
    Starts(s3, events[3], []);
    Starts(s2, events[2], [events[3]]);
    Starts(s1, events[1], [events[2], events[3]]);
    Starts(EMPTY, events[0], [events[1], events[2], events[3]]);
    assert events == [events[0]] + [events[1], events[2], events[3]];
    assert [events[1]] + [events[2], events[3]] == [events[1], events[2], events[3]];
    assert [events[2]] + [events[3]] == [events[2], events[3]] && [events[3]] + [] == [events[3]];
  }

  lemma Starts(s: State, e: Event, rest: seq<Event>)
    requires Enabled(s, e) && Possible(Step(s, e), rest)
    ensures Possible(s, [e] + rest) && Run(s, [e] + rest) == Run(Step(s, e), rest)
  {
    assert ([e] + rest)[1..] == rest;
  }
}
