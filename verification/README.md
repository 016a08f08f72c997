# metabase-mcp: a verified model

metabase-mcp is an MCP server in Go that lets a language model read databases through Metabase. This
project models the parts of it that keep state or take text apart, and proves what they promise:

- **The SQL tail scanner and the LIMIT clause** (`SqlTokens`, `SqlLexis`, `SqlInsertion`, `SqlGuard`,
  `LimitClause`, `ExecuteSql`). The scanner's loops are proved against a tokenizer that only ever looks at
  the text that is left, and `SqlLexis` says what its tokens are in terms of bytes. On it rests the insertion theorem: the inserted clause leaves every other token of a query as it
  was exactly when no literal is left open and the code does not end in `--`. Paging by `next_offset` is
  proved to tile the result, and the case in which it leaves a gap is characterised.
- **The result spool** (`SpoolIndex`, `SpoolStore`, `SpoolHistory`, `SpoolFiles`, `SpoolRuns`). `SpoolStore`
  has the class, whose methods are proved against the functions of `SpoolIndex`; `SpoolHistory` tells the
  index by the calls that were made; `SpoolFiles` lets any number of goroutines
  interleave, with every file operation a step of its own outside the mutex; `SpoolRuns` has the results
  about all interleavings.
- **Credentials and the 401 retry** (`Session`, `OAuth`, `Client`, `AuthRace`, `Requests`, `TokenRecord`).
  The two providers are classes whose methods are atomic steps; `Session` and `OAuth` prove what holds over
  whole runs of calls, `AuthRace` what holds in every interleaving of requests, and `Requests` has `doJSON`
  as the loop it is, with arbitrary calls of other goroutines in between.
- **Column keys and row objects** (`ColumnKeys`, `ResultRows`), and **the TTL cache** (`TtlCache`).

Go strings are sequences of bytes; a byte is written as the character that has its code. Clock readings,
replies of servers, random ids and failures of file operations are arguments of the operations that meet
them. Locked sections are atomic; what runs outside a lock is a step of its own.

`dafny verify dfyconfig.toml` checks the whole project.

Five promises of the code hold only under a condition. The code is modelled as it is, the condition is
proved to be exact, and a lemma names an input that fails it:

- `WithLimitOffset` promises that the clause is not swallowed by a comment. In `x--;` it is: the space in front
  of the clause turns the end of the code into a comment (`LimitClause.InsertedClause`,
  `LimitClause.DashesSwallowTheClause`). Likewise the scan of that code alone ends elsewhere
  (`LimitClause.CodeEndIsStable`, `LimitClause.DashedIsUnsafe`). `maybeAppendLimit` parses the rewritten query
  again and falls back to the original when it finds no LIMIT in it; what the parser makes of such queries is
  not part of this model.
- Columns called `a`, `a_2`, `a` get two equal keys, and a row then loses a cell (`ColumnKeys.KeysDistinctIff`,
  `ResultRows.ConversionLosslessIff`, `ColumnKeys.KeysCanCollide`).
- A `Put` that has passed its check of `closed` registers its file even after `Close`, and the file stays when
  every call has returned (`SpoolRuns.CloseIsFinalIff`, `SpoolRuns.PutCanOutliveClose`).
- `Close` promises to remove the files of this process. A `WriteFile` that fails half-way leaves its .tmp file,
  and so does a `Rename` whose clean-up fails; `Close` does not know of them
  (`SpoolRuns.CloseEmptiesTheDirectory`, `SpoolRuns.FailedWriteOutlivesClose`).
- When `LIMIT` exceeds the row cap, `next_offset` points behind rows that were never delivered
  (`ExecuteSql.PageGap`, `ExecuteSql.RowsCanBeSkipped`).

## Model

| member | source | states |
|---|---|---|
| SqlGuard.SkipLineComment | internal/sqlguard/rewrite.go:77-84 | the loop stops behind the first newline, or at the end of the text, where the tokenizer ends a line comment |
| SqlGuard.SkipBlockComment | internal/sqlguard/rewrite.go:89-96 | the loop stops behind the first closing mark, or at the end of the text, where the tokenizer ends a block comment |
| SqlGuard.SkipQuoted | internal/sqlguard/rewrite.go:102-116 | the loop stops behind the closing quote, past doubled quotes and escaped bytes, and never outside the text |
| SqlGuard.CodeEnd | internal/sqlguard/rewrite.go:40-64 | the scan returns the end of the last significant token of the tokenizer, 0 if there is none |
| SqlTokens.TokensCoverTheText | internal/sqlguard/rewrite.go:40-64 | the tokens of a query concatenate to the query |
| SqlTokens.SplitTokens | internal/sqlguard/rewrite.go:40-64 | cutting the token list anywhere cuts the text, and the rest scans to the rest of the tokens |
| SqlLexis.FirstTokenKind | internal/sqlguard/rewrite.go:42-74 | which kind of token a text starts with, by its first three bytes and the codes of white space |
| SqlLexis.LineCommentEnds | internal/sqlguard/rewrite.go:76-84 | a line comment is the text up to and with the first newline, or all of it |
| SqlLexis.BlockCommentEnds | internal/sqlguard/rewrite.go:86-96 | a block comment is the text up to and with the first closing mark behind the opening one, or all of it |
| SqlLexis.LiteralEnds | internal/sqlguard/rewrite.go:98-116 | a quote, doubled quotes, escaped bytes and other bytes in any order, and the same quote, are one closed literal if that quote does not follow |
| SqlLexis.OpenLiteral | internal/sqlguard/rewrite.go:98-116 | without the closing quote the literal reaches to the end of the text and is open, also behind a lone backslash |
| SqlLexis.TextIsPieces | internal/sqlguard/rewrite.go:98-116 | every text behind a quote is of one of these two forms |
| SqlLexis.CodeEndIsTheLastCode | internal/sqlguard/rewrite.go:32-33 | codeEnd is where the last literal or other code byte ends: behind it are blanks, semicolons and comments only |
| SqlInsertion.HeadSurvives | internal/sqlguard/rewrite.go:8-30 | the tokens of a head stay as they are under any harmless continuation |
| SqlInsertion.InsertionTheorem | internal/sqlguard/rewrite.go:8-30 | text that starts with a space, put behind the last significant byte, leaves the tokens in front of it as they were if and only if no literal is open and the head does not end in two dashes |
| LimitClause.InsertedClause | internal/sqlguard/rewrite.go:8-30 | the rewritten query is the old head, the clause and the untouched tail, token by token, if and only if the insertion is safe; for every pair of int64 values, negative ones included |
| LimitClause.InsertedClauseIsCode | internal/sqlguard/rewrite.go:8-30 | after a safe insertion codeEnd has moved by the length of the clause, the code is the old code followed by the clause, the tail is the same bytes, and the insertion is safe again |
| LimitClause.OutOfRangeAppends | internal/sqlguard/rewrite.go:23-30 | an offset outside the query puts the clause at its end |
| LimitClause.CodeEndSplitsTheQuery | internal/sqlguard/rewrite.go:32-33 | what lies behind codeEnd scans as blanks, semicolons and comments only, and codeEnd is 0 only without code |
| LimitClause.CodeEndIsStable | internal/sqlguard/rewrite.go:32-64 | scanning the code alone gives the same end if and only if nothing lies behind it or it does not end in two dashes |
| LimitClause.DashedIsUnsafe | internal/sqlguard/rewrite.go:32-64 | in `x--;` the code is `x--`, and alone it is `x` and a comment |
| LimitClause.DashesSwallowTheClause | internal/sqlguard/rewrite.go:23-30 | the clause inserted into `x--;` is part of a comment, for every limit and offset |
| LimitClause.LiteralIsOneToken | internal/sqlguard/rewrite.go:98-116 | a printed literal, whatever it contains, is one token up to its closing quote if and only if the same quote does not follow |
| ExecuteSql.PlanDescribesWhatIsSent | internal/tools/execute_sql.go:252-286 | for any inspector, the reported page facts are its answer about the SQL that is sent; SQL is changed only with auto-limit, without an own LIMIT and with a warning |
| ExecuteSql.ClauseIsAppendedIff | internal/tools/execute_sql.go:252-286 | what is sent, the page facts and the warnings in every case: the clause at the reported place if and only if auto-limit is on, there is no own LIMIT, and the inspector finds one in that text |
| ExecuteSql.NormalizeLimit | internal/tools/execute_sql.go:316-324 | 1 to 50000 stay, anything smaller gives 1000, anything larger 50000 |
| ExecuteSql.RewritingKeepsTheCodeIff | internal/tools/execute_sql.go:259-286 | for any parser, a rewritten query is the user's code, the clause and the old trivia, token by token, if and only if no literal is open in it and its code does not end in two dashes; the reported CodeEnd is that of the SQL sent |
| ExecuteSql.RewritingKeepsTheBytes | internal/tools/execute_sql.go:259-286 | under that condition its code is the old code followed by the clause, and the bytes behind it are the old ones |
| ExecuteSql.ClauseReadsBack | internal/sqlguard/rewrite.go:28-29 | reading the inserted clause gives back the limit and the offset printed into it |
| ExecuteSql.NextOffsetIsExact | internal/tools/execute_sql.go:288-302 | there is a next_offset if and only if the LIMIT is known; it is the row behind the page if and only if that is an int64, and negative otherwise; for pages with and without OFFSET |
| ExecuteSql.PagesTile | internal/tools/execute_sql.go:288-302 | pages fetched by following next_offset concatenate to one gapless window of the result when LIMIT is within the row cap |
| ExecuteSql.AutoLimitPagesAreTheResult | internal/tools/execute_sql.go:270-302 | the page facts of a query that was given the clause are those of the first page, next_offset is that of the second, and following it gives every row once, in order |
| ExecuteSql.PageGap | internal/tools/execute_sql.go:256-258 | two pages in a row have no gap if and only if LIMIT is within the row cap or the first page reached the end |
| ExecuteSql.RowsCanBeSkipped | internal/tools/execute_sql.go:256-258 | with LIMIT 2 and a row cap of 1, following next_offset never delivers the second of two rows |
| SpoolStore.Store.constructor | internal/spool/spool.go:88-119 | defaults of one hour and 256 MiB for values that are not positive, and an empty store |
| SpoolStore.Store.Put | internal/spool/spool.go:127-172 | the three outcomes; after a success the state is that of registering and sweeping, the size limit is met, the own entry is there if and only if its expiry has not passed, every other entry is as it was, and the store is no more closed than before |
| SpoolStore.Store.Get | internal/spool/spool.go:175-183 | an entry is returned if and only if it is registered and has not expired |
| SpoolStore.Store.Sweep | internal/spool/spool.go:206-239 | both loops together leave the state of SpoolIndex.Sweep and list the dropped entries in order; the books stay in order |
| SpoolStore.Store.Close | internal/spool/spool.go:243-261 | the first call empties the store and lists each entry once; later calls do nothing |
| SpoolIndex.RegisterKeepsValid | internal/spool/spool.go:163-167 | registering a fresh id keeps map, order and total in agreement |
| SpoolIndex.SweepKeepsValid | internal/spool/spool.go:206-236 | sweeping keeps map, order and total in agreement, whatever the clock does during the call |
| SpoolIndex.SweepMeetsLimit | internal/spool/spool.go:202-205 | after a sweep the total is within maxBytes or at most one entry is left |
| SpoolIndex.SweepIsLongestSuffix | internal/spool/spool.go:202-236 | with the clock standing still, the survivors are the longest suffix of the live entries that fits, or the newest live entry |
| SpoolIndex.SweepPartitions | internal/spool/spool.go:206-238 | each entry is either kept unchanged or dropped, and no entry is dropped twice |
| SpoolIndex.OwnEntrySurvives | internal/spool/spool.go:202-205 | the newest entry survives the sweep of its own Put if and only if it has not expired, and is the last in order |
| SpoolHistory.IndexFollowsTheCalls | internal/spool/spool.go:122-261 | in every run of Put, Sweep and Close each entry is as its Put brought it, order is the order of the Puts, and the store is closed, and then empty, if and only if Close was called |
| SpoolHistory.PutAddsItsEntry | internal/spool/spool.go:127-172 | in every run a Put adds its own entry and changes no other, and does nothing after Close |
| SpoolHistory.OldestGoFirst | internal/spool/spool.go:202-236 | with the clock standing still no expired entry is kept, and an entry dropped for its size was put before every entry that is kept |
| SpoolHistory.PutEvictsTheOldest | internal/spool/spool.go:202-236 | so it is for the sweep of a Put, in every run |
| SpoolFiles.StepKeepsInv | internal/spool/spool.go:127-278 | every step of every goroutine keeps the books, and every file with one party responsible for it |
| SpoolRuns.FilesAreConserved | internal/spool/spool.go:127-278 | in every reachable state a file belongs to exactly one of the index, one goroutine, or the failed removals, and a .tmp file to exactly one writing Put or to those left by a failure |
| SpoolRuns.DirectoryMatchesIndex | internal/spool/spool.go:127-278 | when all calls have returned and no removal failed, the directory holds the files of the index, with their sizes |
| SpoolRuns.LimitAfterSweep | internal/spool/spool.go:202-239 | in every interleaving the state after a sweep is within the size limit or has one entry |
| SpoolRuns.ReadAllReturnsWhatWasPut | internal/spool/spool.go:187-200 | in every interleaving a successful ReadAll returns the bytes put under the id |
| SpoolRuns.ReadableUntilTtl | internal/spool/spool.go:163-183 | in every interleaving an entry can be read if and only if ttl has not passed since the clock reading of its registration |
| SpoolRuns.CloseIsFinalIff | internal/spool/spool.go:127-167 | with no operation failing, every call can return after Close with a file left in the directory and in the index if and only if the Put of that file was between its check and its registration |
| SpoolRuns.PutCanOutliveClose | internal/spool/spool.go:127-167 | there is such a Put: it is admitted, the store is closed, and its file can stay, whatever its id and data |
| SpoolRuns.OnlyPutsInFlightLeaveFiles | internal/spool/spool.go:241-261 | in every run after Close, with failing operations too, once all calls have returned a file that is left is that of a Put that was in flight or its removal failed, and a .tmp file is left exactly by a failed write or rename |
| SpoolRuns.CloseEmptiesTheDirectory | internal/spool/spool.go:241-261 | closed with no Put in flight, the directory holds in the end the failed removals and the .tmp files of failed writes and renames, and is empty of this process's files if and only if there are none |
| SpoolRuns.FailedWriteOutlivesClose | internal/spool/spool.go:142-149 | a write that fails half-way, then Close: every call has returned, no removal failed, and the .tmp file is there, for every id and data |
| Session.SessionManager.EnsureSession | internal/metabase/session.go:94-130 | the backoff loop has the state, the result and the login requests of the function Ensure |
| Session.SessionManager.Invalidate | internal/metabase/session.go:136-143 | the session is dropped only at its own generation |
| Session.EnsureOutcome | internal/metabase/session.go:91-130 | one call makes at most as many requests as there are backoffs, all but the last failing transiently, none while a session or the negative cache is there; what the last reply does to the state |
| Session.EnsureMeans | internal/metabase/session.go:94-130 | a cached session is returned without a request and the negative cache is respected; else the call succeeds, is rejected, is cancelled or fails if and only if the replies and waits say so, with the session, the state and the requests of each case |
| Session.LoginsAreBounded | internal/metabase/session.go:32-35 | in every run successful logins are at most one more than the generations ever invalidated |
| Session.OneReloginPerGeneration | internal/metabase/session.go:132-135 | any number of callers that invalidate the same generation cause one new login |
| Session.RejectionsAreRespected | internal/metabase/session.go:28-30 | in every run no login request starts within the TTL after a rejection |
| Session.SnapshotIsConsistent | internal/metabase/session.go:69-81 | the returned session is the one issued at the returned generation |
| OAuth.Manager.Token | internal/metabase/oauth/source.go:130-140 | it succeeds if and only if the token is live or the refresh is granted, and returns the live token or the granted one |
| OAuth.Manager.ForceRefresh | internal/metabase/oauth/source.go:145-153 | a refresh takes place only at the current generation; success if and only if the generation is old or the refresh granted |
| OAuth.Manager.DoRefresh | internal/metabase/oauth/source.go:158-176 | with a grant the access token is the granted one, the refresh token the new one or the kept one, the generation one more and the record these tokens if the save gets through; else nothing changes |
| OAuth.RotationKeepsTheToken | internal/metabase/oauth/source.go:155-176 | in every run, failed and non-rotating refreshes included, the manager holds the last refresh token delivered, and it is the one the server honours if and only if no rotated token was lost in transit; until then every request carries the honoured token |
| OAuth.RestartWorksIff | internal/metabase/oauth/source.go:171-174 | the record on disk holds the honoured refresh token if and only if none was lost and no rotated one is unsaved |
| OAuth.AccessIsTheLastGranted | internal/metabase/oauth/source.go:158-176 | in every run the access token is that of the last grant, or the seed, and the record is the one found at the start or holds the access token of the generation stored last |
| OAuth.LossIsFinal | internal/metabase/oauth/source.go:158-176 | once a rotated token is lost, every later request carries another token than the honoured one and is refused, and the state never changes again |
| OAuth.LawfulReplies | internal/metabase/oauth/source.go:158-176 | in every reachable state a request may fail; unless a token was lost it may also be granted without a refresh token, with the old one or with any new one |
| OAuth.RunWithEveryReply | internal/metabase/oauth/source.go:158-176 | one run meets every kind of reply: token kept, failure, rotation unsaved, rotation lost, and a request after the loss |
| OAuth.RefreshesAreBounded | internal/metabase/oauth/source.go:142-153 | in every run the refresh requests granted are at most the generations forced or found expired, and at most those forced when none expires |
| OAuth.OneRefreshPerGeneration | internal/metabase/oauth/source.go:24-27 | any number of callers that force the same generation have one refresh request granted between them |
| OAuth.SnapshotIsConsistent | internal/metabase/oauth/source.go:128-140 | in every run Token succeeds if and only if the token is live or the refresh granted, and returns the token that the server granted for the generation it returns |
| Client.ApplyContract | internal/metabase/authprovider.go:19-22 | apply returns the current generation, and never one that is over |
| Client.InvalidateContract | internal/metabase/authprovider.go:23-25 | after a successful invalidation the generation is over for good; a stale one changes nothing |
| Client.ApplyMeans | internal/metabase/authprovider.go:19-22 | when apply gives a credential and which, for both providers, by the replies of the server and the clock |
| Client.InvalidateMeans | internal/metabase/authprovider.go:23-25 | when invalidate succeeds, and that a granted refresh leaves the granted token |
| AuthRace.RetryUsesANewCredential | internal/metabase/client.go:50-71 | in every interleaving a retry carries a credential of a later generation than the rejected one, both as the server issued them, and another secret if the server never repeats one |
| AuthRace.StaleRejectionIsHarmless | internal/metabase/session.go:132-135 | in every interleaving a 401 for an old generation leaves the provider as it is |
| AuthRace.SnapshotsAreConsistent | internal/metabase/session.go:69-81 | in every interleaving each request under way holds the credential issued at its generation, and the cache holds the current one or nothing |
| AuthRace.RequestsEnd | internal/metabase/client.go:54-89 | every event brings its request nearer to its end: at most two attempts and one invalidation |
| Requests.RoundTrip | internal/metabase/client.go:94-127 | one attempt: the credential applied, the reply, or the failure |
| Requests.DoJSON | internal/metabase/client.go:54-89 | the loop ends as the request's state machine does, with the result and the credentials that Serve gives; its events tell the result (Told) and report what each attempt met |
| Requests.VerdictIff | internal/metabase/client.go:57-88 | success if and only if the last reply is 200 to 299 and decodes, and each failure if and only if its own last event |
| Requests.SecondCredentialNeedsARetry | internal/metabase/client.go:62-71 | a second credential goes out only behind a retryable 401 and a successful invalidation |
| Requests.RetryIsNewer | internal/metabase/client.go:50-53 | at most two requests are sent, the second with a later generation, whatever other goroutines do in between |
| TokenRecord.ScopesEqual | internal/metabase/oauth/source.go:338-352 | true if and only if the scope lists are equal as multisets; both stay unchanged |
| TokenRecord.SortedIsUnique | internal/metabase/oauth/source.go:342-351 | two sorted lists with the same elements are the same list |
| TokenRecord.RecordMatchesIff | internal/metabase/oauth/source.go:281-336 | a start takes a saved record if and only if issuer, resource, endpoint and scopes are the same and it would act as the client, in the mode, that the record was made by; the client auth then built has that client and mode; for any change of configuration |
| TokenRecord.OwnRecordMatches | internal/metabase/oauth/source.go:312-336 | a restart under the same configuration takes its own record, whatever the order of the scopes |
| TokenRecord.ClientAuthIs | internal/metabase/oauth/source.go:281-310 | id, secret, mode and place of the secret of a built client, and when none can be built |
| ColumnKeys.Uniquify | internal/schema/rows.go:103-116 | the first column of a name keeps it, the k-th gets the suffix k |
| ColumnKeys.KeyByPosition | internal/schema/rows.go:103-116 | a column keeps its name if none in front has it, and else has the number of those in front plus one behind an underscore |
| ColumnKeys.SuffixedInjective | internal/schema/rows.go:112 | two generated keys are equal only for the same name and number |
| ColumnKeys.KeysDistinctIff | internal/schema/rows.go:61-63 | the keys are distinct if and only if no column is called like a generated key of another name |
| ColumnKeys.KeysCanCollide | internal/schema/rows.go:103-116 | the columns a, a_2, a get equal keys |
| ResultRows.Rows | internal/schema/rows.go:64-99 | one object per row, the row count, and name and key of each column in order |
| ResultRows.ObjectKeys | internal/schema/rows.go:73-78 | an object has exactly the keys of the columns for which the row has a cell |
| ResultRows.LastCellWins | internal/schema/rows.go:73-78 | under a key stands the cell of the last column with that key |
| ResultRows.ConversionLosslessIff | internal/schema/rows.go:61-99 | every row can be read back cell by cell, null cells apart from missing ones, if and only if no column is called like a generated key |
| TtlCache.Cache.Get | internal/cache/ttl.go:33-51 | an unexpired entry is returned, an expired one is gone afterwards |
| TtlCache.Cache.Set | internal/cache/ttl.go:54-58 | the key has the value, and expires ttl after the clock reading |
| TtlCache.GetIsTransparent | internal/cache/ttl.go:31-51 | in every interleaving Get answers what a cache that never deletes would |
| TtlCache.GetReturnsTheLastSet | internal/cache/ttl.go:31-58 | in every interleaving Get returns a value if and only if the last Set of the key before its lookup brought it and no more than ttl has passed since |
| TtlCache.DeleteTakesOnlyExpired | internal/cache/ttl.go:42-47 | in every interleaving a delete removes only an entry that has expired |

## Left out

- The TiDB parser: Inspect is an arbitrary function, of which only ExecuteSql.ReportsCodeEnd is used, that CodeEnd comes from the scanner.
- AutoLimitPagesAreTheResult: assumes that a LIMIT which the parser finds in the rewritten query is the inserted one (ExecuteSql.ReadsTheClause, for that one text).
- PagesTile: covers offsets up to 2^63 - 1, where next_offset is exact, and a result that does not change between pages.
- The rest of the execute_sql handler: delivery, preview, summary and warning texts are settled by reading a branch.
- newID: ids are fresh; what a collision of random ids does to the books is not modelled.
- sweepOrphans and other processes in the spool directory: they depend on file times and on other instances.
- The order in which Sweep and Close remove files is part of SpoolStore; SpoolFiles takes any order.
- Metadata of an entry other than its id, size, row count and times is carried along by the code and not modelled.
- SaveRecord is one step that stores the record or not, and may fail after storing it; permissions and fsync are left out.
- HTTP, JSON and NDJSON: replies are values; classify401 is one Boolean of the reply.
- The interactive OAuth login, discovery, client registration and PKCE.
- OAuth tokens: whether a token has expired by the clock is an argument of each call; expiry times are not stored.
- Config parsing: only its refusal of a client secret without a client id is used (TokenRecord.Admissible).
- normalizeType, Flatten, logging, URIs and texts for people.
- Nested cells of a row: a cell is null, a Boolean, a number or a text.
- SortStrings: the library's sort stands for its contract, the sorted rearrangement in place.
- gen is a natural number; the wrap-around of uint64 is not modelled.
