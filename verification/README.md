# ESET-MCP: verified models

ESET-MCP is an MCP server in front of the ESET management APIs. This project models the parts of it that keep
state or decide what leaves the process, and proves what they promise:

| file | models |
|---|---|
| `ClientPool.dfy` | the leased LRU pool of HTTP clients, over every interleaving of its locked sections |
| `Transport.dfy` | the bounded request loop: retries, polling, one authorization renewal, a deadline |
| `TokenManager.dfy` | the token cache: adaptive expiry, single-flight refresh, refresh-token lineage |
| `HttpClient.dfy` | how a request wires its token and its refresh callback into the loop |
| `ResponseShaping.dfy` | field projection and the byte cap |
| `Sessions.dfy` | the table that binds protocol sessions to the identity that created them |
| `RefResolver.dfy` | `$ref` resolution in OpenAPI documents, with cycle detection |
| `Redactor.dfy` | single-pass removal of known secret values from text |
| `Cleaning.dfy` | redaction of structured data and of texts that are JSON themselves |
| `Paths.dfy` | percent-encoding, template substitution, and the request guard |
| `Detections.dfy` | capped pagination with fallback, then filter, stable sort and slice |
| `JsonText.dfy` | what a JSON text denotes, by the grammar of RFC 8259 |
| `Credentials.dfy`, `Json.dfy`, `OrderedDict.dfy`, `Recency.dfy`, `Sorting.dfy`, `Text.dfy`, `Wrappers.dfy` | shared notions: pool identity, JSON and its printed size, ordered dictionaries, orders of last use, stable sorting |

`dafny verify dfyconfig.toml` checks the whole project.

## How things are represented

- Code that updates fields is a class (`ClientPool.Pool`, `TokenManager.Manager`, `Sessions.Middleware`,
  `Redactor.SecretRedactor`) or a method with a loop, each proved equal to a function of its old state and its
  inputs; lemmas then state what those functions promise, over whole runs.
- A locked section is one atomic step. A run is any sequence of steps, so it stands for any interleaving of tasks.
- Object identity of a client is a number given at construction. SHA-256, HMAC and the JSON text inside the pool key
  are taken to be injective, so a digest is represented by what it digests.
- The network is an oracle: a function from the number of the exchange (and, for pages, the page token) to an
  arbitrary reply. Clocks are real-valued readings; a sleep lasts at least as long as was asked for. The timer that
  wraps a whole request may fire during any wait, which the oracle expresses by answering `TimedOut`.
- Text on the wire is a UTF-8 octet string, one character below 256 per byte.
- A number in a JSON value is kept as the text it prints as, so printed sizes are exact.
- The JSON decoder and the encodings of secret values are parameters; `Cleaning.Decodes` and `Redactor.Encodes` say
  what is used of them. The JSON printers, compact and indented, are written out.

## What the code does not do

- `clean` decodes a text that is JSON, cleans the decoded value and prints it again (eset_mcp/security.py:66-72). What
  printing brings about is not looked at again: a number or literal, with the secret `123456` known and the text
  `[123456]` (`DigitsLeak`); the end of an escape sequence and what follows it; or blanks, a colon, a comma or a bracket
  beside a number, as in `: 1234` from `{"a":12345}`. `RemovedFromDataExactlyWhen` says exactly which values without
  quotes and line ends are removed from all data. For values with quotes `RemovedWhenInNoLine` is the one half: they are
  removed if no single line of printed data holds them, and `InnerQuoteInNoLine` names a large class of which none
  does. `TextSafeExactlyWhen` says which texts keep no value whatever it is; from data that holds no JSON text every
  value is removed that the text pass removes (`CleanRemoves`).
- A deleted session comes back if another request was still under way in it and is answered after the delete
  (`AnswerRevives`); `DeletedForGoodExactlyWhen` gives the exact condition.
- The comment at eset_mcp/response_shaping.py:26-27 says the byte budget is never overshot. It can be: line 126
  counts one byte per separator where `json.dumps` writes two. `TruncatedBytes` gives the exact size,
  `FitsExactlyWhen` the exact condition, `ShortListsFit` a condition known before trimming, and
  `ManySmallItemsOvershoot` a family of payloads that always overshoot, for every cap from 1525 bytes on.
- The comment at eset_mcp/server.py:550-551 says that projecting first gives more items. It holds for the list that
  would be trimmed anyway (`ProjectionNeverCostsItems`), but projection can make another list the longest, which is
  then trimmed instead (`ProjectionCanCostItems`, and `ProjectionCostsUnderEveryCap` for every cap);
  `ProjectionCostsNothingExactlyWhen` gives the exact condition.
- A main list that stands under the key `_capped` is replaced by the metadata altogether (`OthersUntouched`).
- `latest_detections` reports `returned` as the smaller of the limit and the number found, which is the length of
  the list it returns exactly when the limit is not negative (`LatestDetections`). Only a direct call can pass a
  negative limit: the schema of the tool asks for at least 1 (eset_mcp/server.py:171-173).
- A value that can overlap the marker `[REDACTED]`, such as `REDA`, can still be read in redacted text;
  `RemovedExactlyWhen` gives the exact set of values that cannot.
- eset_mcp/http_client.py:5 speaks of at most three tries after a 429; the code makes three retries, so up to four
  tries (`ReturnedOnlyWhenSpent`).

## Model

| member | source | states |
|---|---|---|
| ClientPool.Pool.Create | eset_mcp/client_pool.py:41-57 | a pool is created exactly for a positive maximum, and starts empty |
| ClientPool.Pool.Get | eset_mcp/client_pool.py:59-76 | a closed pool answers with an error and is unchanged; an open one takes exactly the serving step and returns its client |
| ClientPool.Pool.Acquire | eset_mcp/client_pool.py:78-83 | serving and taking a lease is one step |
| ClientPool.Pool.Release | eset_mcp/client_pool.py:86-95 | giving a lease back is one step; the last lease of a parked client starts its close |
| ClientPool.Pool.MaybeEvict | eset_mcp/client_pool.py:102-108 | the loop evicts exactly what the eviction function evicts |
| ClientPool.Pool.Close | eset_mcp/client_pool.py:110-120 | closing empties the cache, parking leased clients and closing the others |
| ClientPool.StepKeeps | eset_mcp/client_pool.py:64-120 | every step keeps: bounded cache, one entry per key, lease counts equal to leases outstanding, conservation of clients |
| ClientPool.ExactlyOnePlace | eset_mcp/client_pool.py:78-120 | after any run every client ever built is in exactly one of cached, parked, handed to a close, and there once; a leased client is never handed to a close; a parked one is leased |
| ClientPool.HolderMayRelease | eset_mcp/client_pool.py:86-95 | in any run whoever holds a lease may give it back, and every close that is running may end |
| ClientPool.LeasesTakenAndReturned | eset_mcp/client_pool.py:78-95 | a lease is exactly what a request for one takes and a return gives back; only closing closes the pool |
| ClientPool.ClosedForGood | eset_mcp/client_pool.py:64-108 | a client handed to a close is never leased or returned again, whatever follows |
| ClientPool.EverythingClosed | eset_mcp/client_pool.py:87-95 | once the pool is closed and the last lease is back, every client ever built has been handed to a close exactly once |
| ClientPool.OpenClientsBounded | eset_mcp/client_pool.py:25-26 | the clients not yet handed to a close number at most the maximum plus the leases outstanding |
| ClientPool.SafetyNeedsPositiveMax | eset_mcp/client_pool.py:42-43 | the first leased client stays open if and only if the maximum is positive |
| ClientPool.ServedStaysCached | eset_mcp/client_pool.py:72-76 | the client just served survives its own eviction loop, and was built for the same login, field by field |
| ClientPool.LeastRecentlyUsed | eset_mcp/client_pool.py:64-76 | at any point of any run the cached keys are the last distinct keys asked for, in order of last use; a request gets the client its key last got if and only if the key is among them, and a new client otherwise |
| ClientPool.SharedExactlyBySameLogin | eset_mcp/client_pool.py:64-76 | at any point of any run a request is served a client built for the same login, and two requests in a row are served the same client if and only if they agree in user, password, deployment, server or region, and the six settings |
| Credentials.SameKeyExactlyWhen | eset_mcp/credentials.py:63-95 | two credentials have one key if and only if they agree in every field that matters for their deployment |
| Recency.LastUsesExtend | eset_mcp/client_pool.py:69-73 | one more use of a key moves it to the end of the order of last uses |
| Recency.WindowStep | eset_mcp/client_pool.py:69-74 | keeping the newest n keys commutes with one more use of a key |
| Transport.SendRequest | eset_mcp/transport.py:36-92 | the loop, run with its counters in place, gives the same result and log as its turn function |
| Transport.Ends | eset_mcp/transport.py:54-92 | every run ends as its log alone says it must: headers, outcomes, waits, counts and result are functions of the earlier exchanges |
| Transport.OneEnding | eset_mcp/transport.py:54-92 | that description determines the log and the result |
| Transport.RunIsBounded | eset_mcp/transport.py:16-17 | total sleep stays below the budget, and with the default budget a run makes at most 30 exchanges, for any server |
| Transport.PollsInBudget | eset_mcp/transport.py:78-79 | exactly 24 poll waits fit in the default budget |
| Transport.ReturnedOnlyWhenSpent | eset_mcp/transport.py:60-85 | a 202 is never returned; a 401 only without a renewal or after it was used; a 429 only after three retried ones; a 5xx for the verbs get and head, in either letter case, only after one retried one |
| Transport.FailedOnlyFor | eset_mcp/transport.py:74-92 | a failure other than the timeout is a lost connection, an unusable pending answer, or the error of the renewal itself |
| Transport.ReplayDiscipline | eset_mcp/transport.py:58-88 | every exchange repeats the caller's call under the headers its predecessors determine, and is followed by another only for a reason and after the wait its answer calls for |
| Transport.MutationsNeverReplayedBlindly | eset_mcp/transport.py:42-46 | a call whose verb is not spelled get or head, in either letter case, is sent again only after a 401, a 429 or a 202 |
| Transport.AfterServerError | eset_mcp/transport.py:80-88 | over whole runs, another exchange follows a 5xx only for the verbs get and head, in either letter case, only the first time and one second later; and it does follow if that second ends before the deadline |
| Transport.AfterRateLimit | eset_mcp/transport.py:66-71 | over whole runs, another exchange follows each of the first three 429s, after the finite non-negative seconds asked for, or else after 1, 2 and 4; a fourth is returned |
| Transport.AfterPending | eset_mcp/transport.py:72-79 | over whole runs, a 202 is polled under the id of the first such answer, after 2 seconds and half as long again each time, up to 30; without an id free of control characters the request fails |
| Transport.AfterRefusal | eset_mcp/transport.py:61-65 | over whole runs, the first 401 that can be answered by a renewal is followed by an exchange with the new token as bearer; the renewal's failure is the result, and any other 401 is returned |
| Transport.AfterAnythingElse | eset_mcp/transport.py:84-93 | over whole runs, any other answer is returned at once, a lost connection is a 502 and the timer a 504 |
| Transport.HeadersChangeOnce | eset_mcp/transport.py:46-77 | between any two exchanges only Authorization and response-id can change, each at most once |
| HttpClient.RejectedTokenNotReused | eset_mcp/http_client.py:147-163 | a request sends its token until the first rejection and the renewed one from then on; a rejected token is sent again only if the endpoint has just issued it once more |
| HttpClient.RejectedOnceIsRenewed | eset_mcp/http_client.py:151-163 | the first rejection is answered by one more exchange under the renewed token if the ten minutes leave room for it, and fails with the renewal's error; a second one is returned |
| HttpClient.RequestIsBounded | eset_mcp/http_client.py:158-163 | a business request sleeps less than 600 seconds in all and makes at most 30 exchanges, for any server |
| TokenManager.Manager.SetToken | eset_mcp/auth.py:119-139 | a token is cached exactly when the payload is acceptable; otherwise the cache is unchanged |
| TokenManager.Manager.RefreshLocked | eset_mcp/auth.py:181-204 | one exchange, with one fallback, replaces the token exactly when it succeeds |
| TokenManager.Manager.GetToken | eset_mcp/auth.py:84-92 | reading a token is one step: the cached one, or an exchange when it is due |
| TokenManager.Manager.Force | eset_mcp/auth.py:94-112 | forcing a refresh is one step: the cached token when it is not the rejected one, or an exchange |
| TokenManager.MintedLifetime | eset_mcp/auth.py:126-138 | a minted token lives its whole lifetime from now, is renewed no sooner than nine tenths into it and before it expires, and is not due when minted |
| TokenManager.ServedIsFresh | eset_mcp/auth.py:76-112 | over any run every token handed out is the one minted last; it expires one minted lifetime after its minting, and at the deciding clock reading had more than the margin, or a tenth of that lifetime, left; a failed call leaves the cache alone |
| TokenManager.RefreshLineage | eset_mcp/auth.py:166-204 | at most two requests per exchange, the second a password grant after invalid_grant; a kept refresh token was handed out or accepted by the answer that succeeded; the legacy dialect keeps none |
| TokenManager.RejectedRefreshKeptOnlyOnFailure | eset_mcp/auth.py:199-204 | a rejected refresh token stays cached only if the fallback failed too, or if it is handed out anew |
| TokenManager.RefreshTokenIsLastIssued | eset_mcp/auth.py:133-204 | over any run the cached refresh token is exactly the one that a successful answer handed out last and that every successful exchange since was made with and kept |
| TokenManager.ExchangeByDialect | eset_mcp/auth.py:119-245 | for each dialect, with its field names and margin written out: which requests an exchange sends and exactly which token, life and refresh token it ends with |
| TokenManager.ServedByDialect | eset_mcp/auth.py:76-112 | over any run and for each dialect, a token handed out comes from an exchange of this call or from an earlier one and is not yet due by the life it was given then |
| TokenManager.SendsByDialect | eset_mcp/auth.py:76-112 | over any run and for each dialect, a call sends requests if and only if the token held is missing, due by its life, or the one rejected |
| TokenManager.SingleFlight | eset_mcp/auth.py:94-112 | any number of holders of a rejected token, in any order and mixed with reads: until one exchange succeeds the token is untouched, after it every call gets the new token and none sends a request |
| ResponseShaping.LongestPrefixKept | eset_mcp/response_shaping.py:122-130 | the number kept is the greatest for which the first items fit, at one byte each beyond their own size |
| ResponseShaping.KeepPrefix | eset_mcp/response_shaping.py:122-130 | the kept items are the longest prefix whose charged cost fits the budget |
| ResponseShaping.TruncatePaginated | eset_mcp/response_shaping.py:109-157 | the method builds exactly the truncated payload |
| ResponseShaping.CapResponseSize | eset_mcp/response_shaping.py:61-84 | which payloads pass unchanged, are trimmed, or become a preview, and what each then is |
| ResponseShaping.PickExactlyWhen | eset_mcp/response_shaping.py:92-106 | a list is the trimmed one if and only if it is the first of the largest non-empty lists by serialized size; none is picked if and only if there is none |
| ResponseShaping.TruncatedBytes | eset_mcp/response_shaping.py:116-157 | the exact size in bytes of a trimmed page, also when the payload already holds the metadata's key |
| ResponseShaping.FitsExactlyWhen | eset_mcp/response_shaping.py:26-28 | where n items are the most that fit at one byte each beyond their own size: the page meets the cap if and only if what the metadata adds and one byte per kept item fit in 514 bytes plus the unused room (501 beside a new entry's own 13) |
| ResponseShaping.ShortListsFit | eset_mcp/response_shaping.py:26-28 | a condition known before trimming under which the cap holds |
| ResponseShaping.ManySmallItemsOvershoot | eset_mcp/response_shaping.py:124-130 | for every cap above a small one, payloads whose capped form exceeds it |
| ResponseShaping.OthersUntouched | eset_mcp/response_shaping.py:132-157 | trimming changes nothing but the list and the metadata block; a list under the metadata's own key is lost to it |
| ResponseShaping.MetadataTells | eset_mcp/response_shaping.py:132-157 | the metadata names the list, the counts, the sizes and the cap, and points to the next page if and only if the payload names one |
| ResponseShaping.CapExactlyWhen | eset_mcp/response_shaping.py:73-84 | a result is unchanged if and only if the cap is off or met, a trimmed page if and only if it is too long and has a non-empty list, and otherwise a preview |
| ResponseShaping.PageTrimsMain | eset_mcp/response_shaping.py:78-82 | the page is the payload with its first largest list trimmed |
| ResponseShaping.PreviewTells | eset_mcp/response_shaping.py:160-181 | a preview shows as many characters of the printed result as the cap leaves beyond 512, and what was cut |
| ResponseShaping.ApplyFieldsProjection | eset_mcp/response_shaping.py:35-58 | the loop rebuilds the projected payload |
| ResponseShaping.ProjectSpec | eset_mcp/response_shaping.py:47-58 | projection keeps every key in place and never makes a payload larger |
| ResponseShaping.ProjectionKeeps | eset_mcp/response_shaping.py:47-58 | in a list that starts with an object, each object keeps its place, and of it exactly the fields asked for, unchanged |
| ResponseShaping.OthersNotProjected | eset_mcp/response_shaping.py:56-57 | any other value is left as it is |
| ResponseShaping.ProjectionNeverCostsItems | eset_mcp/server.py:547-558 | projecting before capping shows at least as many items of the list that would be trimmed without projection |
| ResponseShaping.ProjectionCostsNothingExactlyWhen | eset_mcp/server.py:547-558 | it shows no fewer items of any list if and only if trimming does not move to another list that then loses items |
| ResponseShaping.ProjectedPickExactlyWhen | eset_mcp/server.py:555-557 | which list is trimmed after projection, said of the payload before it |
| ResponseShaping.ProjectionCanCostItems | eset_mcp/server.py:550-551 | when projection shrinks the longer of two lists below the other, the other loses items if it does not fit what the cap leaves for them |
| ResponseShaping.ProjectionCostsUnderEveryCap | eset_mcp/server.py:550-551 | for every cap there is a payload in which projection makes a list disappear that was shown whole without it |
| ResponseShaping.SingleListProjection | eset_mcp/server.py:550-557 | with a single list the trimmed list is the same one with and without projection |
| Json.ObjectBytes | eset_mcp/response_shaping.py:88-89 | the printed size of an object from the sizes of its entries |
| Json.ReplaceBytes | eset_mcp/response_shaping.py:88-89 | replacing the value of a key changes the printed size by the difference of the two values |
| JsonText.DumpDenotes | eset_mcp/response_shaping.py:88-89 | by the grammar of RFC 8259 the compact form denotes the value it was printed from |
| JsonText.IndentedDenotes | eset_mcp/security.py:72 | by the grammar of RFC 8259 the indented form denotes the value it was printed from |
| Json.DecimalValue | eset_mcp/response_shaping.py:149-157 | a count prints as the decimal digits that stand for it, without leading zeros |
| Json.Utf8WidthIsLeast | eset_mcp/response_shaping.py:88-89 | a character takes the least number of bytes whose bits, by section 3 of RFC 3629, hold its number |
| Sessions.Middleware.Before | eset_mcp/middleware.py:194-202 | the first section of a request: its session id from the two headers, then admitted and renewed, or refused with the table unchanged |
| Sessions.Middleware.After | eset_mcp/middleware.py:211-218 | the second section: store, evict, delete |
| Sessions.StepKeeps | eset_mcp/middleware.py:197-218 | every section keeps the table sorted by expiry, bounded, with each session and each request in flight bound to its creator's identity |
| Sessions.EvictionIsEarliest | eset_mcp/middleware.py:215-216 | eviction drops earliest-expiring sessions |
| Sessions.SessionsStayWithTheirCreator | eset_mcp/middleware.py:190-202 | at every point of every interleaving at most 1000 sessions are stored, and a request is admitted to a session only under the identity of the request whose answer first stored it |
| Sessions.CreatorNeverChanges | eset_mcp/middleware.py:212-214 | the identity an id was first stored under stays its identity |
| Sessions.CreatorAdmitted | eset_mcp/middleware.py:197-202 | the creator of a live session is admitted and the session becomes the newest, for half an hour |
| Sessions.AdmittedExactlyWhen | eset_mcp/middleware.py:194-202 | after any interleaving a request without a session, or of the modern protocol, is admitted; any other is admitted if and only if the id it names has an entry of its own identity that has not expired |
| Sessions.ExpiredIsRefused | eset_mcp/middleware.py:198-202 | over every interleaving a session is refused to everyone later than 1800 seconds after it was last stored or renewed, and an id never stored is always refused |
| Sessions.SettledEntry | eset_mcp/middleware.py:211-218 | what one answer does to the entry of any id: stored for 1800 seconds, deleted, evicted, or untouched |
| Sessions.DeletedForGoodExactlyWhen | eset_mcp/middleware.py:211-218 | over all interleavings, a successfully deleted session is there for nobody ever after if and only if no request other than a delete was still under way in it |
| Sessions.AnswerRevives | eset_mcp/middleware.py:211-214 | the answer of a request still under way brings its session back, deleted or not |
| Sessions.SessionsStart | eset_mcp/middleware.py:194-216 | a first request is stored under whatever id its answer names, for 1800 seconds; then exactly its own identity is admitted to it |
| Sessions.ForeignAnswerTakesOver | eset_mcp/middleware.py:211-214 | without the handler's discipline about ids a session could change hands |
| RefResolver.FollowRef | eset_mcp/tools_loader.py:306-314 | the walk over the parts of a reference finds its target, or nothing |
| RefResolver.TargetExactlyWhen | eset_mcp/tools_loader.py:306-314 | a reference finds a value if and only if it is a hash and slash-separated names, following the names from the document leads to that value, and it is not null |
| RefResolver.OneResolution | eset_mcp/tools_loader.py:287-303 | resolution is the only function that replaces a reference by its resolved target, by an empty object without a target, and by the cycle note when it is being followed, and rebuilds everything else in place |
| RefResolver.ResolveShrinks | eset_mcp/tools_loader.py:287-300 | following a reference leaves strictly fewer to follow: resolution ends on every document, cyclic or not |
| RefResolver.ResolvesByInlining | eset_mcp/tools_loader.py:287-303 | no cyclic stub is left if and only if the node can be inlined completely; the result is then that inlining |
| RefResolver.AcyclicResolves | eset_mcp/tools_loader.py:287-303 | in a document whose references can be ranked every node resolves to its complete inlining |
| RefResolver.NoRefLeft | eset_mcp/tools_loader.py:287-303 | when every `$ref` is a string none is left after resolution, cycles or not |
| Redactor.SecretsRemoved | eset_mcp/security.py:44-49 | a long value that cannot overlap the marker occurs nowhere in the output, for every text and every set of values |
| Redactor.OrdinarySecretsCannotMeetMarker | eset_mcp/security.py:44-49 | a value without brackets that is no piece of the marker's word cannot overlap the marker |
| Redactor.RemovedExactlyWhen | eset_mcp/security.py:35-49 | whatever counts as a word character: a long value is removed from every text, among any values remembered with their encodings, if and only if it cannot overlap the marker |
| Redactor.LeakExample | eset_mcp/security.py:44-49 | in a text where only the filler matches, a value that can overlap the marker stands in the output, whatever else is remembered |
| Redactor.OnlySecretsHidden | eset_mcp/security.py:49 | the output is the text with some known values hidden; everything else is copied in order |
| Redactor.CleanTextUnchanged | eset_mcp/security.py:49 | a text in which nothing matches is unchanged |
| Redactor.MatchIsLongest | eset_mcp/security.py:47-48 | where several values match, the longest one is hidden |
| Redactor.RedactsOneCut | eset_mcp/security.py:44-49 | the text is cut up in the one way that goes from left to right and hides at each place the longest value standing there, values of fewer than four characters only outside words; the output shows that cut |
| Redactor.OrderIrrelevant | eset_mcp/security.py:47-48 | the output does not depend on how the set orders equally long values |
| Redactor.SecretRedactor.Add | eset_mcp/security.py:35-42 | exactly the non-empty values given and their encodings are remembered |
| Redactor.SecretRedactor.Substitute | eset_mcp/security.py:44-49 | the first substitution computes the redaction for any longest-first list of what is remembered |
| Cleaning.CleanRemoves | eset_mcp/security.py:58-74 | from every string and key of data that holds no JSON text, every long value that cannot overlap the marker is removed; numbers and literals of the data are passed over |
| Cleaning.RemovedWhenInNoLine | eset_mcp/security.py:58-74 | from all data, JSON texts at any depth, numbers and literals included, a long value without line ends is removed that cannot overlap the marker and that no single line of printed data holds unless one of its texts does |
| Cleaning.InnerQuoteInNoLine | eset_mcp/security.py:72 | no line holds a value with a quote inside that follows neither a blank nor a backslash and precedes neither a colon nor a comma |
| Cleaning.RemovedFromDataExactlyWhen | eset_mcp/security.py:58-74 | a long value without quotes and line ends is removed from all data, JSON texts, numbers and literals included, if and only if it cannot overlap the marker and printing never brings it about: not by escaping a text, not beside a number, literal, bracket, colon or comma |
| Cleaning.EscapingBounded | eset_mcp/security.py:72 | whether escaping can bring a value about is decided by the texts no longer than the value |
| Cleaning.EscapedExactlyWhen | eset_mcp/security.py:72 | for a value that JSON prints as it is, escaping brings it about if and only if it can overlap an escape sequence |
| Cleaning.TextSafeExactlyWhen | eset_mcp/security.py:64-73 | whatever counts as a word character: a text keeps no long value that cannot overlap the marker, whatever the values are, if and only if it is not a JSON array or object with something in it |
| Cleaning.DigitsLeak | eset_mcp/security.py:66-74 | a secret of digits comes out of a JSON text that holds it as a number |
| Cleaning.HiddenEverywhere | eset_mcp/security.py:59-63 | nothing that stands under a sensitive key, at any depth, has any influence on the result |
| Cleaning.SensitiveHidden | eset_mcp/security.py:59-61 | in one object, a key under which only sensitive entries stood holds the marker afterwards |
| Cleaning.SensitiveExactlyWhen | eset_mcp/security.py:15-23 | a key is sensitive if and only if a stretch of it spells one of ten words, in either letter case and with anything but letters and digits between, or all of it spells token or tokens |
| Cleaning.TextStaysJson | eset_mcp/security.py:64-73 | a text that opens with a bracket and can be decoded becomes a JSON text that denotes the cleaned value; any other text is redacted as it stands |
| Paths.QuoteRoundTrips | eset_mcp/security.py:113 | decoding an encoded value gives it back |
| Paths.QuotedAs | eset_mcp/security.py:113 | letters, digits and four marks stay as they are, every other octet becomes two capital hexadecimal digits |
| Paths.UnquotedAs | eset_mcp/security.py:108-110 | decoding replaces each percent sign with two hexadecimal digits after it, and copies everything else |
| Paths.PathSegment | eset_mcp/security.py:104-113 | a value is encoded exactly when it is acceptable after three decodings |
| Paths.AcceptableExactlyWhen | eset_mcp/security.py:105-112 | a value is acceptable if and only if it is not empty and neither it nor what one, two or three decodings make of it is a dot segment or holds a reserved character |
| Paths.AcceptedIsPlain | eset_mcp/security.py:111-112 | an accepted value holds no reserved character itself and is no dot segment |
| Paths.BuildPath | eset_mcp/server.py:490-496 | the loop over path parameters computes the substitution, or the error of the first bad one |
| Paths.SequentialIsSimultaneous | eset_mcp/server.py:493-496 | the path is built if and only if every parameter is given, acceptable and named once; replacing one after the other is filling all at once |
| Paths.FilledTemplateAccepted | eset_mcp/http_client.py:140-146 | a filled API template has as many segments as the template, and passes the guard if and only if the template has no literal dot segment |
| Paths.BuiltPathAccepted | eset_mcp/http_client.py:140-146 | whenever a path can be built from such a template the guard lets it through |
| Paths.GuardAcceptsExactlyWhen | eset_mcp/http_client.py:140-146 | the guard lets a request through if and only if it is not for the account service, the path starts with one slash, and the decoded path holds none of six characters, no dot segment and no token endpoint, in any letter case and with any slashes behind |
| Detections.PaginateDetections | eset_mcp/composite_tools.py:435-459 | the loop computes the walk over the pages of one endpoint |
| Detections.OneWalk | eset_mcp/composite_tools.py:443-459 | the walk stops exactly at the first failure, at the last page or at 50 pages, holds exactly the items read, and is the only one that does |
| Detections.FetchDetectionsWindow | eset_mcp/composite_tools.py:420-432 | the loop over the two endpoints returns the first that did not fail, or the last error |
| Detections.WindowHoldsAllPages | eset_mcp/composite_tools.py:420-432 | a window holds the pages of one endpoint only, all of them unless truncated; the second endpoint is used only if the first failed |
| Detections.LatestDetections | eset_mcp/composite_tools.py:396-417 | the result is the slice of the sorted, filtered window, with its counts; the reported count is the length of the list if and only if the limit is not negative |
| Detections.NewestKept | eset_mcp/composite_tools.py:403-417 | the sorted list is the selected items with no earlier time before a later one, compared character by character, and ties in page order, and is the only such list; a limit keeps its front, none older than one left out |
| Detections.FilterMembers | eset_mcp/composite_tools.py:403-406 | filtering keeps exactly the occurrences of the wanted severities |
| Detections.LevelAsked | eset_mcp/composite_tools.py:465-471 | which severities a level asks for, and which texts ask for none: the level is read between blanks, with or without its prefix and whatever its letter case |
| Detections.LevelKept | eset_mcp/composite_tools.py:403-406 | a level keeps exactly the detections of that severity and above, page after page; no level, or a text that names none, keeps all |
| Sorting.SortExactlyWhen | eset_mcp/composite_tools.py:408 | a list is the stable descending sort if and only if it is descending and keeps ties in order |

## Left out

- Sockets, TLS, DNS, the HTTP library, the ASGI framework and the MCP SDK: represented by oracles and clock readings.
- ClientPool.Pool.Release: taken as one atomic step; cancellation while waiting for the lock in `acquire`'s cleanup is not modelled.
- ClientPool.Pool.Close: the final wait for the running background closes is not modelled; each ends by its own step.
- Transport.SendRequest: exceptions other than timeouts, connection errors and API errors are not modelled, and the per-attempt timeout only shows as a timed-out outcome.
- TokenManager.Manager.RefreshLocked: the nested request lifecycle is represented by its result, an answer or an error.
- ResponseShaping.CapResponseSize: the preview for payloads without a list slices characters, not bytes, so it has no byte bound to state.
- Cleaning.RemovedWhenInNoLine: for a value with a quote the other half is not stated, as keys and decoded texts restrict which lines can occur; for a value with a line end only `CleanRemoves` speaks.
- Cleaning.RemovedFromDataExactlyWhen: Python's recursion limit, at which the decoder gives up, is not modelled.
- Redactor.SecretsRemoved: about the first substitution; the later passes for authorization headers and named fields are not modelled.
- Cleaning.CleanRemoves: redaction of a text is its first substitution here as well; the decoder is a parameter of which `Decodes` says what is used.
- Redactor.SecretRedactor.Add: the five encodings of a value (percent in two forms, JSON, base64 in two alphabets) are a parameter of which `Encodes` says what is used.
- Paths.QuoteRoundTrips: on octet strings; the replacement of malformed UTF-8 while decoding does not touch ASCII and is not modelled.
- Paths.FilledTemplateAccepted: for templates whose first segment is a literal version starting with `v`, as all business paths of the API descriptions have.
- Sessions.SessionsStayWithTheirCreator: assumes the handler answers only with the request's own id or one never used before; `ForeignAnswerTakesOver` shows why.
- RefResolver.FollowRef: Python's recursion limit is not modelled.
- Detections.LatestDetections: items are objects whose severity and time are texts or absent; the times of the window are parameters.
- `_disambiguate_names`: its uniqueness rests on a path hash modulo 10,000 and does not hold for every input.
- Settings, logging, metrics, prompts, resources, error wording, the read-only gate, credential selection from headers, and the other composites: decision tables and plumbing that a reading settles.
