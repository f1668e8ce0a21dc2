/**
 * The leased LRU pool of HTTP clients.  Every section that the pool's lock protects is one atomic
 * step; a run is any interleaving of such steps.
 */
module ClientPool {
  import opened Wrappers
  import opened Text
  import opened Credentials
  import opened OrderedDict
  import opened Recency

  const DEFAULT_MAX_CLIENTS := 256

  // The id stands for object identity: no two constructed clients share one.
  datatype Client = Client(id: nat, creds: Credentials)

  datatype PoolError = PoolClosed | MaxClientsNotPositive

  datatype State = State(
    max: nat,
    clients: Dict<CacheKey, Client>,
    leases: map<Client, nat>,
    retired: set<Client>,
    closed: bool,
    tasks: set<Client>,          // background closes that are still running
    created: seq<Client>,        // history: every client ever constructed
    scheduled: seq<Client>,      // history: every client handed to a background close
    finished: set<Client>,       // history: the background closes that have ended
    held: multiset<Client>)      // history: leases taken and not yet given back

  function Initial(max: nat): State {
    State(max, [], map[], {}, false, {}, [], [], {}, multiset{})
  }

  /******* The locked sections *******/

  function CloseInBackground(s: State, c: Client): State {
    s.(tasks := s.tasks + {c}, scheduled := s.scheduled + [c])
  }

  /** A client leaves the cache: parked while it is leased, closed otherwise. */
  function LetGo(s: State, c: Client): State {
    if c in s.leases && s.leases[c] != 0 then s.(retired := s.retired + {c}) else CloseInBackground(s, c)
  }

  function PopOldest(s: State): State
    requires s.clients != []
  {
    LetGo(s.(clients := s.clients[1..]), s.clients[0].value)
  }

  function Evict(s: State): State
    decreases |s.clients|
  {
    if |s.clients| <= s.max then s else Evict(PopOldest(s))
  }

  function Serve(s: State, creds: Credentials): (State, Client) {
    var key := Key(creds);
    match Lookup(s.clients, key)
    case Some(existing) => (s.(clients := MoveToEnd(s.clients, key)), existing)
    case None =>
      var client := Client(|s.created|, creds);
      (Evict(s.(clients := Put(s.clients, key, client), created := s.created + [client])), client)
  }

  function Leased(s: State, c: Client): State {
    s.(leases := s.leases[c := (if c in s.leases then s.leases[c] else 0) + 1], held := s.held + multiset{c})
  }

  function Released(s: State, c: Client): State
    requires c in s.leases && s.leases[c] >= 1
  {
    var s' := s.(held := s.held - multiset{c});
    if s.leases[c] != 1 then
      s'.(leases := s.leases[c := s.leases[c] - 1])
    else
      var gone := s'.(leases := s.leases - {c});
      if c in s.retired then CloseInBackground(gone.(retired := s.retired - {c}), c) else gone
  }

  function Drain(s: State): State
    decreases |s.clients|
  {
    if s.clients == [] then s else Drain(PopOldest(s))
  }

  /******* Runs *******/

  datatype Event =
    | Get(creds: Credentials)
    | Acquire(creds: Credentials)
    | Release(client: Client)
    | Close
    | CloseDone(client: Client)

  /** A lease is given back only by the tool call that holds it; only a running close finishes. */
  predicate Enabled(s: State, e: Event) {
    match e
    case Release(c) => c in s.held && c in s.leases && s.leases[c] >= 1
    case CloseDone(c) => c in s.tasks
    case _ => true
  }

  function Step(s: State, e: Event): State
    requires Enabled(s, e)
  {
    match e
    case Get(creds) => if s.closed then s else Serve(s, creds).0
    case Acquire(creds) =>
      if s.closed then s else
        var (s', c) := Serve(s, creds);
        Leased(s', c)
    case Release(c) => Released(s, c)
    case Close => Drain(s.(closed := true))
    case CloseDone(c) => s.(tasks := s.tasks - {c}, finished := s.finished + {c})
  }

  ghost predicate Possible(s: State, run: seq<Event>)
    decreases |run|
  {
    run == [] || (Enabled(s, run[0]) && Possible(Step(s, run[0]), run[1..]))
  }

  ghost function Run(s: State, run: seq<Event>): State
    requires Possible(s, run)
    decreases |run|
  {
    if run == [] then s else Run(Step(s, run[0]), run[1..])
  }

  /******* What every state satisfies *******/

  ghost predicate IsKeyed(d: Dict<CacheKey, Client>) {
    Distinct(Keys(d)) && forall e :: e in d ==> Key(e.value.creds) == e.key
  }

  ghost predicate Alive(s: State, c: Client) {
    c in Values(s.clients) || c in s.retired
  }

  ghost predicate Conserved(s: State) {
    multiset(s.created) == Values(s.clients) + multiset(s.retired) + multiset(s.scheduled)
  }

  ghost predicate LeasesCounted(leases: map<Client, nat>, held: multiset<Client>) {
    && (forall c :: c in leases <==> c in held)
    && (forall c :: c in leases ==> leases[c] == held[c])
  }

  /** Whoever holds a lease holds a client that is not being closed; parked clients are leased. */
  ghost predicate HeldAlive(s: State) {
    && (forall c :: c in s.held ==> Alive(s, c))
    && (forall c :: c in s.retired ==> c in s.held)
  }

  ghost predicate Numbered(created: seq<Client>) {
    forall i :: 0 <= i < |created| ==> created[i].id == i
  }

  /** A scheduled close is running or has ended, never both. */
  ghost predicate ClosesTracked(s: State) {
    && (forall c :: c in s.scheduled <==> c in s.tasks || c in s.finished)
    && (forall c :: c in s.tasks ==> c !in s.finished)
  }

  ghost predicate Consistent(s: State) {
    && IsKeyed(s.clients)
    && Numbered(s.created)
    && Conserved(s)
    && LeasesCounted(s.leases, s.held)
    && HeldAlive(s)
    && ClosesTracked(s)
  }

  ghost predicate Inv(s: State) {
    s.max >= 1 && |s.clients| <= s.max && (s.closed ==> s.clients == []) && Consistent(s)
  }

  lemma NumberedOnce(created: seq<Client>, c: Client)
    requires Numbered(created)
    ensures multiset(created)[c] <= 1
  {
    if c in created {
      var i :| 0 <= i < |created| && created[i] == c;
      assert created == created[..i] + [c] + created[i + 1..];
      assert c !in created[..i] && c !in created[i + 1..];
    }
  }

  /** Each client is in at most one of the three places, and there at most once. */
  lemma Partitioned(s: State, c: Client)
    requires Numbered(s.created) && Conserved(s)
    ensures Values(s.clients)[c] + multiset(s.retired)[c] + multiset(s.scheduled)[c] == multiset(s.created)[c] <= 1
  {
    NumberedOnce(s.created, c);
  }

  /** What changes only by growing, and what one locked section leaves alone while it evicts. */
  ghost predicate SameButEvicted(s: State, s': State) {
    && s'.max == s.max && s'.leases == s.leases && s'.held == s.held
    && s'.created == s.created && s'.closed == s.closed
    && s.scheduled <= s'.scheduled
  }

  lemma PopOldestConserves(s: State)
    requires Numbered(s.created) && Conserved(s) && s.clients != []
    ensures Conserved(PopOldest(s))
  {
    var c := s.clients[0].value;
    Partitioned(s, c);
    if c in s.leases && s.leases[c] != 0 {
      assert multiset(s.retired + {c}) == multiset(s.retired) + multiset{c};
    } else {
      assert multiset(s.scheduled + [c]) == multiset(s.scheduled) + multiset{c};
    }
  }

  lemma PopOldestAlive(s: State)
    requires LeasesCounted(s.leases, s.held) && HeldAlive(s) && s.clients != []
    ensures HeldAlive(PopOldest(s))
  {
    assert Values(s.clients) == multiset{s.clients[0].value} + Values(s.clients[1..]);
  }

  lemma ClosingTracked(s: State, c: Client)
    requires ClosesTracked(s) && c !in s.scheduled
    ensures ClosesTracked(CloseInBackground(s, c))
  {
  }

  lemma PopOldestKeeps(s: State)
    requires Consistent(s) && s.clients != []
    ensures Consistent(PopOldest(s)) && SameButEvicted(s, PopOldest(s))
    ensures PopOldest(s).clients == s.clients[1..]
  {
    PopOldestConserves(s);
    PopOldestAlive(s);
    Partitioned(s, s.clients[0].value);
    ClosingTracked(s.(clients := s.clients[1..]), s.clients[0].value);
    assert Keys(s.clients)[1..] == Keys(s.clients[1..]);
  }

  lemma {:induction false} EvictKeeps(s: State)
    requires Consistent(s)
    ensures Consistent(Evict(s)) && SameButEvicted(s, Evict(s))
    decreases |s.clients|
  {
    if |s.clients| > s.max {
      PopOldestKeeps(s);
      EvictKeeps(PopOldest(s));
    }
  }

  lemma {:induction false} EvictKeepsNewest(s: State)
    ensures Evict(s).clients == LastN(s.clients, s.max)
    decreases |s.clients|
  {
    if |s.clients| > s.max { EvictKeepsNewest(PopOldest(s)); }
  }

  lemma {:induction false} DrainKeeps(s: State)
    requires Consistent(s)
    ensures Consistent(Drain(s)) && SameButEvicted(s, Drain(s))
    ensures Drain(s).clients == []
    decreases |s.clients|
  {
    if s.clients != [] {
      PopOldestKeeps(s);
      DrainKeeps(PopOldest(s));
    }
  }

  /******* Every locked section keeps the invariant *******/

  lemma HitKeeps(s: State, creds: Credentials)
    requires Inv(s) && Lookup(s.clients, Key(creds)).Some?
    ensures Inv(Serve(s, creds).0)
  {
    var key := Key(creds);
    LookupMember(s.clients, key);
    MoveToEndSpec(s.clients, key);
    MoveToEndDistinct(s.clients, key);
  }

  function Admitted(s: State, creds: Credentials): State {
    var client := Client(|s.created|, creds);
    s.(clients := s.clients + [Item(Key(creds), client)], created := s.created + [client])
  }

  lemma AdmittedConserves(s: State, creds: Credentials)
    requires Conserved(s) && Numbered(s.created)
    ensures Conserved(Admitted(s, creds)) && Numbered(Admitted(s, creds).created)
  {
    var client := Client(|s.created|, creds);
    ValuesAppend(s.clients, Item(Key(creds), client));
    assert multiset(s.created + [client]) == multiset(s.created) + multiset{client};
  }

  lemma AdmittedAlive(s: State, creds: Credentials)
    requires HeldAlive(s)
    ensures HeldAlive(Admitted(s, creds))
  {
    ValuesAppend(s.clients, Item(Key(creds), Client(|s.created|, creds)));
  }

  lemma AdmittedKeeps(s: State, creds: Credentials)
    requires Consistent(s) && !s.closed && Key(creds) !in Keys(s.clients)
    ensures Consistent(Admitted(s, creds))
  {
    AdmittedConserves(s, creds);
    AdmittedAlive(s, creds);
    var e := Item(Key(creds), Client(|s.created|, creds));
    KeysAppend(s.clients, [e]);
    assert Keys([e]) == [e.key];
    DistinctSnoc(Keys(s.clients), e.key);
  }

  lemma MissKeeps(s: State, creds: Credentials)
    requires Inv(s) && !s.closed && Lookup(s.clients, Key(creds)).None?
    ensures Inv(Serve(s, creds).0)
    ensures Serve(s, creds).0 == Evict(Admitted(s, creds))
    ensures SameButEvicted(Admitted(s, creds), Serve(s, creds).0)
  {
    LookupMember(s.clients, Key(creds));
    PutAbsent(s.clients, Key(creds), Client(|s.created|, creds));
    AdmittedKeeps(s, creds);
    EvictKeeps(Admitted(s, creds));
    EvictKeepsNewest(Admitted(s, creds));
  }

  lemma ServeKeeps(s: State, creds: Credentials)
    requires Inv(s) && !s.closed
    ensures Inv(Serve(s, creds).0)
  {
    if Lookup(s.clients, Key(creds)).Some? { HitKeeps(s, creds); } else { MissKeeps(s, creds); }
  }

  lemma ServedIsNewest(s: State, creds: Credentials)
    requires s.max >= 1 && IsKeyed(s.clients)
    ensures var (s', c) := Serve(s, creds);
            s'.clients != [] && s'.clients[|s'.clients| - 1] == Item(Key(creds), c)
  {
    var client := Client(|s.created|, creds);
    LookupMember(s.clients, Key(creds));
    if Lookup(s.clients, Key(creds)).None? {
      PutAbsent(s.clients, Key(creds), client);
      EvictKeepsNewest(Admitted(s, creds));
    }
  }

  /** The newest entry survives its own eviction loop, under the key it was asked for. */
  lemma ServedStaysCached(s: State, creds: Credentials)
    requires Inv(s) && !s.closed
    ensures var (s', c) := Serve(s, creds);
            Lookup(s'.clients, Key(creds)) == Some(c) && c in Values(s'.clients) && SameLogin(c.creds, creds)
  {
    var (s', c) := Serve(s, creds);
    SameKeyExactlyWhen(c.creds, creds);
    ServeKeeps(s, creds);
    ServedIsNewest(s, creds);
    LookupUnique(s'.clients, Item(Key(creds), c));
    ValuesMember(s'.clients, Item(Key(creds), c));
  }

  lemma LeasedKeeps(s: State, c: Client)
    requires Inv(s) && c in Values(s.clients)
    ensures Inv(Leased(s, c))
  {
  }

  lemma ReleasedCounts(s: State, c: Client)
    requires LeasesCounted(s.leases, s.held) && Enabled(s, Release(c))
    ensures LeasesCounted(Released(s, c).leases, Released(s, c).held)
  {
  }

  lemma ReleasedParked(s: State, c: Client)
    requires LeasesCounted(s.leases, s.held) && HeldAlive(s) && Enabled(s, Release(c))
    ensures forall d :: d in Released(s, c).retired ==> d in Released(s, c).held
  {
    assert s.held[c] == s.leases[c];
  }

  lemma ReleasedHolders(s: State, c: Client)
    requires LeasesCounted(s.leases, s.held) && HeldAlive(s) && Enabled(s, Release(c))
    ensures forall d :: d in Released(s, c).held ==> Alive(Released(s, c), d)
  {
    var s' := Released(s, c);
    assert s.held[c] == s.leases[c];
    forall d | d in s'.held ensures Alive(s', d) {
      assert d in s.held && Alive(s, d);
    }
  }

  lemma ReleasedConserves(s: State, c: Client)
    requires Conserved(s) && Enabled(s, Release(c))
    ensures Conserved(Released(s, c))
  {
    if s.leases[c] == 1 && c in s.retired {
      assert multiset(s.retired - {c}) == multiset(s.retired) - multiset{c};
      assert multiset(s.scheduled + [c]) == multiset(s.scheduled) + multiset{c};
    }
  }

  lemma ReleasedTracked(s: State, c: Client)
    requires Numbered(s.created) && Conserved(s) && ClosesTracked(s) && Enabled(s, Release(c))
    ensures ClosesTracked(Released(s, c))
  {
    if s.leases[c] == 1 && c in s.retired {
      Partitioned(s, c);
      ClosingTracked(s, c);
    }
  }

  lemma AcquireKeeps(s: State, creds: Credentials)
    requires Inv(s) && !s.closed
    ensures Inv(Step(s, Acquire(creds)))
  {
    var (s', c) := Serve(s, creds);
    ServeKeeps(s, creds);
    ServedStaysCached(s, creds);
    LeasedKeeps(s', c);
  }

  lemma ReleaseKeeps(s: State, c: Client)
    requires Inv(s) && Enabled(s, Release(c))
    ensures Inv(Released(s, c))
  {
    ReleasedCounts(s, c);
    ReleasedParked(s, c);
    ReleasedHolders(s, c);
    ReleasedConserves(s, c);
    ReleasedTracked(s, c);
  }

  lemma CloseKeeps(s: State)
    requires Inv(s)
    ensures Inv(Step(s, Close))
  {
    DrainKeeps(s.(closed := true));
  }

  lemma StepKeeps(s: State, e: Event)
    requires Inv(s) && Enabled(s, e)
    ensures Inv(Step(s, e))
  {
    match e
    case Get(creds) => if !s.closed { ServeKeeps(s, creds); }
    case Acquire(creds) => if !s.closed { AcquireKeeps(s, creds); }
    case Release(c) => ReleaseKeeps(s, c);
    case Close => CloseKeeps(s);
    case CloseDone(_) =>
  }

  lemma {:induction false} RunKeeps(s: State, run: seq<Event>)
    requires Inv(s) && Possible(s, run)
    ensures Inv(Run(s, run))
    decreases |run|
  {
    if run != [] {
      StepKeeps(s, run[0]);
      RunKeeps(Step(s, run[0]), run[1..]);
    }
  }

  lemma InitialInv(max: nat)
    requires max >= 1
    ensures Inv(Initial(max))
  {
  }

  /******* Safety and conservation over every interleaving *******/

  /** Every client ever built is in exactly one place, and a leased one is never in a background close. */
  lemma ExactlyOnePlace(max: nat, run: seq<Event>, c: Client)
    requires max >= 1 && Possible(Initial(max), run)
    ensures var s := Run(Initial(max), run);
            && Values(s.clients)[c] + multiset(s.retired)[c] + multiset(s.scheduled)[c]
               == (if c in s.created then 1 else 0)
            && (c in s.held ==> c in s.leases && s.leases[c] == s.held[c] && c !in s.scheduled)
            && (c in s.retired ==> c in s.held)
            && (c in s.scheduled <==> c in s.tasks || c in s.finished)
            && (c in s.tasks ==> c !in s.finished)
  {
    InitialInv(max);
    var s := Run(Initial(max), run);
    RunKeeps(Initial(max), run);
    Partitioned(s, c);
    assert c in s.created <==> multiset(s.created)[c] > 0;
  }

  ghost predicate Grows(s: State, s': State) {
    s'.max == s.max && s.scheduled <= s'.scheduled && s.created <= s'.created
  }

  lemma StepGrows(s: State, e: Event)
    requires Inv(s) && Enabled(s, e)
    ensures Grows(s, Step(s, e))
  {
    match e
    case Get(creds) => if !s.closed { ServeGrows(s, creds); }
    case Acquire(creds) => if !s.closed { ServeGrows(s, creds); }
    case Close => DrainKeeps(s.(closed := true));
    case _ =>
  }

  lemma ServeGrows(s: State, creds: Credentials)
    requires Inv(s) && !s.closed
    ensures Grows(s, Serve(s, creds).0)
  {
    if Lookup(s.clients, Key(creds)).None? { MissKeeps(s, creds); }
  }

  /** Once handed to a background close, a client is never leased or returned again. */
  lemma {:induction false} ClosedForGood(s: State, run: seq<Event>, c: Client, creds: Credentials)
    requires Inv(s) && Possible(s, run) && c in s.scheduled
    ensures var s' := Run(s, run);
            c in s'.scheduled && c !in s'.held && (!s'.closed ==> Serve(s', creds).1 != c)
    decreases |run|
  {
    if run != [] {
      StepKeeps(s, run[0]);
      StepGrows(s, run[0]);
      ClosedForGood(Step(s, run[0]), run[1..], c, creds);
    } else {
      Partitioned(s, c);
      if !s.closed {
        ServeKeeps(s, creds);
        ServedStaysCached(s, creds);
        ServeGrows(s, creds);
        Partitioned(Serve(s, creds).0, Serve(s, creds).1);
      }
    }
  }

  /** In any run whoever holds a lease may give it back, and every close that is running may end. */
  lemma HolderMayRelease(max: nat, run: seq<Event>, e: Event)
    requires max >= 1 && Possible(Initial(max), run)
    ensures var s := Run(Initial(max), run);
            Enabled(s, e) <==> match e
                               case Release(c) => c in s.held
                               case CloseDone(c) => c in s.tasks
                               case _ => true
  {
    InitialInv(max);
    RunKeeps(Initial(max), run);
  }

  /** A lease is what a request for one takes and a return gives back; only closing closes the pool. */
  lemma LeasesTakenAndReturned(s: State, e: Event)
    requires Enabled(s, e)
    ensures Step(s, e).held == match e
                               case Acquire(creds) => if s.closed then s.held else s.held + multiset{Serve(s, creds).1}
                               case Release(c) => s.held - multiset{c}
                               case _ => s.held
    ensures Step(s, e).closed <==> s.closed || e.Close?
  {
    match e
    case Get(creds) => if !s.closed { ServeKeepsHeld(s, creds); }
    case Acquire(creds) => if !s.closed { ServeKeepsHeld(s, creds); }
    case Close => DrainKeepsHeld(s.(closed := true));
    case _ =>
  }

  lemma {:induction false} EvictKeepsHeld(s: State)
    ensures Evict(s).held == s.held && Evict(s).closed == s.closed
    decreases |s.clients|
  {
    if |s.clients| > s.max { EvictKeepsHeld(PopOldest(s)); }
  }

  lemma {:induction false} DrainKeepsHeld(s: State)
    ensures Drain(s).held == s.held && Drain(s).closed == s.closed
    decreases |s.clients|
  {
    if s.clients != [] { DrainKeepsHeld(PopOldest(s)); }
  }

  lemma ServeKeepsHeld(s: State, creds: Credentials)
    ensures Serve(s, creds).0.held == s.held && Serve(s, creds).0.closed == s.closed
  {
    if Lookup(s.clients, Key(creds)).None? {
      var client := Client(|s.created|, creds);
      EvictKeepsHeld(s.(clients := Put(s.clients, Key(creds), client), created := s.created + [client]));
    }
  }

  /** After close, the moment the last lease comes back every client ever built has been closed once. */
  lemma EverythingClosed(max: nat, run: seq<Event>)
    requires max >= 1 && Possible(Initial(max), run)
    requires Run(Initial(max), run).closed && Run(Initial(max), run).held == multiset{}
    ensures var s := Run(Initial(max), run); multiset(s.scheduled) == multiset(s.created)
  {
    InitialInv(max);
    RunKeeps(Initial(max), run);
    assert Run(Initial(max), run).retired == {};
  }

  /** The clients not yet closed number at most the cap plus the leases outstanding. */
  lemma OpenClientsBounded(max: nat, run: seq<Event>)
    requires max >= 1 && Possible(Initial(max), run)
    ensures var s := Run(Initial(max), run); |s.created| - |s.scheduled| <= max + |s.held|
  {
    InitialInv(max);
    RunKeeps(Initial(max), run);
    RunMax(Initial(max), run);
    var s := Run(Initial(max), run);
    assert |s.created| == |multiset(s.created)|;
    assert |s.scheduled| == |multiset(s.scheduled)|;
    ValuesSize(s.clients);
    var parked := multiset(s.retired);
    assert s.held == parked + (s.held - parked);
  }

  lemma {:induction false} RunMax(s: State, run: seq<Event>)
    requires Inv(s) && Possible(s, run)
    ensures Run(s, run).max == s.max
    decreases |run|
  {
    if run != [] {
      StepKeeps(s, run[0]);
      StepGrows(s, run[0]);
      RunMax(Step(s, run[0]), run[1..]);
    }
  }

  lemma ZeroMaxClosesTheServed(creds: Credentials)
    ensures Serve(Initial(0), creds).0.scheduled == [Client(0, creds)]
  {
    var s := Admitted(Initial(0), creds);
    PutAbsent(Initial(0).clients, Key(creds), Client(0, creds));
    var s' := PopOldest(s);
    assert s'.clients == [] && s'.scheduled == [Client(0, creds)];
    assert Evict(s') == s' && Evict(s) == s';
  }

  /** A cap of zero would close the very client it leases; every positive cap is safe from the start. */
  lemma SafetyNeedsPositiveMax(max: nat, creds: Credentials)
    ensures var s := Step(Initial(max), Acquire(creds));
            max >= 1 <==> forall c :: c in s.held ==> c !in s.scheduled
  {
    var s := Step(Initial(max), Acquire(creds));
    if max >= 1 {
      InitialInv(max);
      AcquireKeeps(Initial(max), creds);
      forall d | d in s.held ensures d !in s.scheduled { Partitioned(s, d); }
    } else {
      ZeroMaxClosesTheServed(creds);
      assert Client(0, creds) in s.held;
    }
  }

  /******* The cache is the least-recently-used window of the request trace *******/

  ghost predicate IsRequest(e: Event) {
    e.Get? || e.Acquire?
  }

  /** The key a step asks an open pool for, and what it is answered with. */
  ghost function Asked(s: State, e: Event): seq<CacheKey> {
    if IsRequest(e) && !s.closed then [Key(e.creds)] else []
  }

  ghost function Answered(s: State, e: Event): seq<Item<CacheKey, Client>> {
    if IsRequest(e) && !s.closed then [Item(Key(e.creds), Serve(s, e.creds).1)] else []
  }

  ghost function Requests(s: State, run: seq<Event>): seq<CacheKey>
    requires Possible(s, run)
    decreases |run|
  {
    if run == [] then [] else Asked(s, run[0]) + Requests(Step(s, run[0]), run[1..])
  }

  ghost function Answers(s: State, run: seq<Event>): seq<Item<CacheKey, Client>>
    requires Possible(s, run)
    decreases |run|
  {
    if run == [] then [] else Answered(s, run[0]) + Answers(Step(s, run[0]), run[1..])
  }

  ghost function Latest(answers: seq<Item<CacheKey, Client>>, key: CacheKey): Option<Client>
    decreases |answers|
  {
    if answers == [] then None
    else
      var n := |answers| - 1;
      if answers[n].key == key then Some(answers[n].value) else Latest(answers[..n], key)
  }

  lemma KeysOfNewest(d: Dict<CacheKey, Client>, n: nat)
    ensures Keys(LastN(d, n)) == LastN(Keys(d), n)
  {
    KeysLength(d);
    if |d| > n {
      var cut := |d| - n;
      assert d == d[..cut] + d[cut..];
      KeysAppend(d[..cut], d[cut..]);
      KeysLength(d[..cut]);
    }
  }

  /** One request makes its key the newest of the window. */
  lemma ServeKeys(s: State, creds: Credentials, order: seq<CacheKey>)
    requires Inv(s) && !s.closed && Distinct(order) && Keys(s.clients) == LastN(order, s.max)
    ensures Keys(Serve(s, creds).0.clients) == LastN(Without(order, Key(creds)) + [Key(creds)], s.max)
  {
    var key := Key(creds);
    WindowStep(order, key, s.max);
    LookupMember(s.clients, key);
    if key in Keys(s.clients) {
      MoveToEndSpec(s.clients, key);
    } else {
      MissKeeps(s, creds);
      var e := Item(key, Client(|s.created|, creds));
      EvictKeepsNewest(Admitted(s, creds));
      KeysOfNewest(s.clients + [e], s.max);
      KeysAppend(s.clients, [e]);
      assert Keys([e]) == [key];
    }
  }

  ghost predicate IsWindow(s: State, past: seq<CacheKey>) {
    s.closed || Keys(s.clients) == LastN(LastUses(past), s.max)
  }

  lemma StepIsLru(s: State, e: Event, past: seq<CacheKey>)
    requires Inv(s) && Enabled(s, e) && IsWindow(s, past)
    ensures IsWindow(Step(s, e), past + Asked(s, e))
  {
    if e.Close? {
      DrainKeeps(s.(closed := true));
    } else if IsRequest(e) && !s.closed {
      LastUsesMembers(past);
      LastUsesExtend(past, Key(e.creds));
      ServeKeys(s, e.creds, LastUses(past));
      ServeGrows(s, e.creds);
    } else {
      assert past + Asked(s, e) == past;
    }
  }

  lemma {:induction false} RunIsLru(s: State, run: seq<Event>, past: seq<CacheKey>)
    requires Inv(s) && Possible(s, run) && IsWindow(s, past)
    ensures IsWindow(Run(s, run), past + Requests(s, run))
    decreases |run|
  {
    if run == [] {
      assert past + Requests(s, run) == past;
    } else {
      var e, s' := run[0], Step(s, run[0]);
      StepKeeps(s, e);
      StepIsLru(s, e, past);
      RunIsLru(s', run[1..], past + Asked(s, e));
      Regroup(past, Asked(s, e), Requests(s', run[1..]));
    }
  }

  ghost predicate Remembers(s: State, answers: seq<Item<CacheKey, Client>>) {
    forall e :: e in s.clients ==> Latest(answers, e.key) == Some(e.value)
  }

  lemma ServeRemembers(s: State, creds: Credentials, past: seq<Item<CacheKey, Client>>)
    requires Inv(s) && !s.closed && Remembers(s, past)
    ensures Remembers(Serve(s, creds).0, past + [Item(Key(creds), Serve(s, creds).1)])
  {
    var (s', c) := Serve(s, creds);
    var now := past + [Item(Key(creds), c)];
    assert now[..|past|] == past;
    ServeKeeps(s, creds);
    ServedStaysCached(s, creds);
    forall e | e in s'.clients ensures Latest(now, e.key) == Some(e.value) {
      if e.key == Key(creds) {
        LookupUnique(s'.clients, e);
      } else {
        ServedOthers(s, creds, e);
      }
    }
  }

  lemma ServedOthers(s: State, creds: Credentials, e: Item<CacheKey, Client>)
    requires Inv(s) && !s.closed && e in Serve(s, creds).0.clients && e.key != Key(creds)
    ensures e in s.clients
  {
    LookupMember(s.clients, Key(creds));
    if Lookup(s.clients, Key(creds)).None? {
      MissKeeps(s, creds);
      EvictKeepsNewest(Admitted(s, creds));
    } else {
      MoveToEndSpec(s.clients, Key(creds));
    }
  }

  lemma StepRemembers(s: State, e: Event, past: seq<Item<CacheKey, Client>>)
    requires Inv(s) && Enabled(s, e) && Remembers(s, past)
    ensures Remembers(Step(s, e), past + Answered(s, e))
  {
    if IsRequest(e) && !s.closed {
      ServeRemembers(s, e.creds, past);
    } else {
      if e.Close? { DrainKeeps(s.(closed := true)); }
      assert past + Answered(s, e) == past;
    }
  }

  lemma {:induction false} RunRemembers(s: State, run: seq<Event>, past: seq<Item<CacheKey, Client>>)
    requires Inv(s) && Possible(s, run) && Remembers(s, past)
    ensures Remembers(Run(s, run), past + Answers(s, run))
    decreases |run|
  {
    if run == [] {
      assert past + Answers(s, run) == past;
    } else {
      var e, s' := run[0], Step(s, run[0]);
      StepKeeps(s, e);
      StepRemembers(s, e, past);
      RunRemembers(s', run[1..], past + Answered(s, e));
      Regroup(past, Answered(s, e), Answers(s', run[1..]));
    }
  }

  /**
   * At any point of any run of an open pool, the cached keys are the last max distinct keys asked for, in order
   * of last use; and a request gets the very client its key last got exactly when the key is among them.
   */
  lemma LeastRecentlyUsed(max: nat, run: seq<Event>, creds: Credentials)
    requires max >= 1 && Possible(Initial(max), run) && !Run(Initial(max), run).closed
    ensures var s := Run(Initial(max), run);
            var window := LastN(LastUses(Requests(Initial(max), run)), max);
            var c := Serve(s, creds).1;
            && Keys(s.clients) == window
            && SameLogin(c.creds, creds)
            && (Key(creds) in window ==> Latest(Answers(Initial(max), run), Key(creds)) == Some(c))
            && (Key(creds) !in window ==> c !in s.created)
  {
    var s0 := Initial(max);
    var s := Run(s0, run);
    InitialInv(max);
    RunKeeps(s0, run);
    RunMax(s0, run);
    RunIsLru(s0, run, []);
    RunRemembers(s0, run, []);
    assert [] + Requests(s0, run) == Requests(s0, run);
    assert [] + Answers(s0, run) == Answers(s0, run);
    ServedStaysCached(s, creds);
    LookupMember(s.clients, Key(creds));
  }

  /**
   * At any point of any run of an open pool a request is served a client that was built for the same login, and two
   * requests in a row are served the same client exactly when they are for the same login.
   */
  lemma SharedExactlyBySameLogin(max: nat, run: seq<Event>, a: Credentials, b: Credentials)
    requires max >= 1 && Possible(Initial(max), run) && !Run(Initial(max), run).closed
    ensures var (s, first) := Serve(Run(Initial(max), run), a);
            var second := Serve(s, b).1;
            && SameLogin(first.creds, a) && SameLogin(second.creds, b)
            && (second == first <==> SameLogin(a, b))
  {
    InitialInv(max);
    RunKeeps(Initial(max), run);
    var before := Run(Initial(max), run);
    var (s, first) := Serve(before, a);
    ServeKeeps(before, a);
    ServedStaysCached(before, a);
    ServedStaysCached(s, b);
    SameKeyExactlyWhen(a, b);
  }

  /******* The pool itself *******/

  class Pool {
    const max: nat
    var clients: Dict<CacheKey, Client>
    var leases: map<Client, nat>
    var retired: set<Client>
    var closed: bool
    var tasks: set<Client>
    var built: nat
    ghost var created: seq<Client>
    ghost var scheduled: seq<Client>
    ghost var finished: set<Client>
    ghost var held: multiset<Client>

    ghost function Now(): State
      reads this
    {
      State(max, clients, leases, retired, closed, tasks, created, scheduled, finished, held)
    }

    // Each method below is one Step; that a Step keeps Inv(Now()) is StepKeeps.
    ghost predicate Numbers()
      reads this
    {
      built == |created|
    }

    constructor (max: nat)
      requires max >= 1
      ensures Numbers() && Now() == Initial(max)
    {
      this.max := max;
      clients, leases, retired, closed, tasks, built := [], map[], {}, false, {}, 0;
      created, scheduled, finished, held := [], [], {}, multiset{};
    }

    static method Create(maxClients: int := DEFAULT_MAX_CLIENTS) returns (r: Result<Pool, PoolError>)
      ensures maxClients < 1 ==> r == Err(MaxClientsNotPositive)
      ensures maxClients >= 1 ==>
                r.Ok? && fresh(r.value) && r.value.Numbers() && r.value.Now() == Initial(maxClients)
    {
      if maxClients < 1 { return Err(MaxClientsNotPositive); }
      var pool := new Pool(maxClients);
      return Ok(pool);
    }

    method Get(creds: Credentials) returns (r: Result<Client, PoolError>)
      requires Numbers()
      modifies this
      ensures Numbers() && Now() == Step(old(Now()), Event.Get(creds))
      ensures r == if old(closed) then Err(PoolClosed) else Ok(Serve(old(Now()), creds).1)
    {
      if closed { return Err(PoolClosed); }
      var key := Key(creds);
      match Lookup(clients, key) {
        case Some(existing) =>
          clients := MoveToEnd(clients, key);
          return Ok(existing);
        case None =>
          var client := Client(built, creds);
          clients, built, created := Put(clients, key, client), built + 1, created + [client];
          MaybeEvict();
          return Ok(client);
      }
    }

    method MaybeEvict()
      modifies `clients, `retired, `tasks, `scheduled
      ensures Now() == Evict(old(Now()))
    {
      while |clients| > max
        invariant Evict(Now()) == Evict(old(Now()))
        decreases |clients|
      {
        var evicted := clients[0].value;
        clients := clients[1..];
        LetGoOf(evicted);
      }
    }

    method LetGoOf(client: Client)
      modifies `retired, `tasks, `scheduled
      ensures Now() == LetGo(old(Now()), client)
    {
      if client in leases && leases[client] != 0 {
        retired := retired + {client};
      } else {
        StartClosing(client);
      }
    }

    method StartClosing(client: Client)
      modifies `tasks, `scheduled
      ensures Now() == CloseInBackground(old(Now()), client)
    {
      tasks, scheduled := tasks + {client}, scheduled + [client];
    }

    method Acquire(creds: Credentials) returns (r: Result<Client, PoolError>)
      requires Numbers()
      modifies this
      ensures Numbers() && Now() == Step(old(Now()), Event.Acquire(creds))
      ensures r == if old(closed) then Err(PoolClosed) else Ok(Serve(old(Now()), creds).1)
    {
      r := Get(creds);
      if r.Ok? {
        leases := leases[r.value := (if r.value in leases then leases[r.value] else 0) + 1];
        held := held + multiset{r.value};
      }
    }

    method Release(client: Client)
      requires Numbers() && Enabled(Now(), Event.Release(client))
      modifies `leases, `held, `retired, `tasks, `scheduled
      ensures Numbers() && Now() == Step(old(Now()), Event.Release(client))
    {
      var remaining := leases[client] - 1;
      held := held - multiset{client};
      if remaining != 0 {
        leases := leases[client := remaining];
      } else {
        leases := leases - {client};
        if client in retired {
          retired := retired - {client};
          StartClosing(client);
        }
      }
    }

    method Close()
      requires Numbers()
      modifies `closed, `clients, `retired, `tasks, `scheduled
      ensures Numbers() && Now() == Step(old(Now()), Event.Close)
    {
      closed := true;
      ghost var start := Now();
      var waiting := clients;
      clients := [];
      var i := 0;
      while i < |waiting|
        invariant 0 <= i <= |waiting| && clients == []
        invariant Drain(Now().(clients := waiting[i..])) == Drain(start)
      {
        ghost var before := Now().(clients := waiting[i..]);
        LetGoOf(waiting[i].value);
        assert before.clients[1..] == waiting[i + 1..];
        assert PopOldest(before) == Now().(clients := waiting[i + 1..]);
        i := i + 1;
      }
      assert Now().(clients := waiting[i..]) == Now();
    }

    method FinishClosing(client: Client)
      requires Numbers() && client in tasks
      modifies `tasks, `finished
      ensures Numbers() && Now() == Step(old(Now()), CloseDone(client))
    {
      tasks, finished := tasks - {client}, finished + {client};
    }
  }
}
