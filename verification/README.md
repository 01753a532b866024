# A verified model of Shellty Passkey Server

Shellty Passkey Server keeps passkeys for other applications: a client starts a
registration or an authentication ceremony, the browser answers it, and the server
finishes it in one PostgreSQL transaction. Several nodes share one database, and
nothing but row locks, advisory locks and one unique index coordinates them. An admin
interface pages through credentials and history, and startup migrations bring the
schema up to date while other nodes start at the same time.

This project states what that code promises as Dafny definitions and proves it. The
proofs are about models of the Go functions; each model takes the form of its source:
code that updates tables, fields or slices is a class with methods or a method with a
loop, and code that computes a value is a function.

`dafny verify dfyconfig.toml` checks everything.

## How it is built

**The ceremony store.** `Ceremonies` and `Store` hold the values and tables, and
`Store.Plan`: what one call writes and answers when it runs alone. `Repository.Postgres`
is the imperative repository, statement by statement, with a failure possible at each
statement; its methods either do what `Plan` says or change nothing. `Transactions` is
the concurrent system: any number of `Start`, `Finish` and `Delete` transactions, one
step per SQL statement, READ COMMITTED reads, waiting for the ceremony row lock, the
subject lock and the unique key of `credential`, and a rollback possible before every
statement. The subject key is an arbitrary function, so every theorem holds with
colliding keys. `Invariant` and `Preservation` say what each step keeps. On top of them:

- `Serializability`: every run has the tables and the answers of a one-at-a-time order
  of its calls. A call sits at the instant it returns, except a registration that met a
  duplicate credential: that one sits at its INSERT, because the credential it collided
  with may be deleted before it commits. The rest of its work commutes with whatever
  committed in between (`RunCommutes`, `PlaceEarlier`).
- `Ledger`, `Accounting`, `NoTrace`, `Progress`: history as a ledger, single use of
  ceremonies, calls that fail leaving no trace, and freedom from deadlock. `Outcomes`
  says row by row what a committed call changed, and what undoes it.
- `WebAuthn`, `Counters`, `Services`: the adapter around the WebAuthn library, signature
  counters over whole runs, and what a caller can reach. The library is a parameter with
  a stated contract (`WebAuthn.LoginContract`, section 7.2 of W3C Web Authentication
  Level 2); `Services.ServiceCallsAreSound` shows that the service's own callbacks meet
  the hypothesis of the counter theorems.

**Paging.** `Paging` has the 21-row fetch, `adminPage` in place, the links, and the
claims about whole walks over unchanged and live tables. `QueryBuilder` compiles filters
to clauses with numbered placeholders, with a meaning for clauses to compile against.
`Dates`, `Encoding`, `Cursors` and `Requests` carry a cursor from a row through
RFC 3339 text and base64url into a link and back.

**Migrations.** `Migration` has one run of `Migrate`, as an imperative loop and as a
statement machine; `MigrationNodes` has any number of nodes, of any releases, failing or
stopping between any two statements, a commit with a lost reply included.

**Smaller parts.** `TokenBucket` (the login limit), `JsonDepth` (the token loop against
the recursive check), `Identity` and `Decimal` (user handle input, signed message,
session cookie).

## Findings

- A history row whose time is the zero time gets a page link that the server then
  refuses: `cursorValue` writes no timestamp for it and `parseAdminFilter` requires one.
  `Requests.LinkRoundTrip` states the link works exactly when the time is not the zero
  time.
- A finish by a client whose application has since changed its relying party is answered
  with the same public code as a failed verification, but does not consume the ceremony:
  the refusal comes from the authorization callback (`NoTrace.ConsumedExactly`).

## Model

| member | source | states |
|---|---|---|
| Serializability.Serializable | passkeys/postgres.go:101-291 | for every interleaving of any number of calls with rollbacks anywhere, one serial order of the returned calls reproduces every answer and every row; calls sit at their return, a duplicate registration at its INSERT, and the order respects real time |
| Serializability.RunCommutes | passkeys/postgres.go:220-266 | closing a ceremony row and appending its event commutes with any independent call, keeping that call's answer |
| Serializability.PlaceEarlier | passkeys/postgres.go:220-222 | putting a duplicate registration back before later commits leaves the whole order explained, with the same final tables |
| Preservation.InvDo | passkeys/postgres.go:135-139 | every statement, begin and rollback keeps the invariant: what each transaction has read under its locks is still true, and locks, keys and ids of different transactions stay apart |
| Preservation.CommitKeepsScope | passkeys/postgres.go:174-184 | a commit leaves the credentials another transaction read under its subject lock as they were, whatever keys collide |
| Invariant.WriteIsOwn | passkeys/postgres.go:197-239 | a pending credential write lies in the subject whose lock its transaction owns and fits the table's keys |
| Preservation.ReturnIsPlanned | passkeys/postgres.go:245-269 | a transaction that returns, having met no duplicate, answers and writes what the call does alone on the tables of that moment |
| Preservation.MarkedIsPlanned | passkeys/postgres.go:196-222 | at the INSERT that meets a duplicate the call alone would answer Conflict on the tables of that moment |
| Ledger.HistoryIsLedger | passkeys/postgres.go:195-290 | replaying committed events gives exactly each subject's live credential ids, and every event names a credential live (or new) at that point in the same scope, or none and says why |
| Ledger.TimestampsFollowCommits | passkeys/postgres.go:174-181 | finish and deletion events of one subject carry nondecreasing times in commit order across nodes |
| Progress.NoWaitCycle | passkeys/postgres.go:135-201 | the wait-for relation of every reachable state has no cycle, for any subject-key function |
| Progress.DeadlockFree | passkeys/postgres.go:135-280 | from every reachable state some transaction can step, and all in flight can run to their answers without a rollback |
| NoTrace.FailedCallsLeaveNoTrace | passkeys/postgres.go:168-193 | a call that rolled back anywhere or returned without committing can be erased from the run: same tables, same other answers, same transactions in flight |
| NoTrace.ConsumedExactly | passkeys/postgres.go:168-251 | a pending ceremony is consumed if and only if the caller is authorized and it expired, failed verification as expected, or its credential was written or found duplicate or gone; otherwise no row changes |
| NoTrace.SpentIsRefused | passkeys/postgres.go:162-173 | a missing or terminal ceremony is not touched, and which error is answered in which order |
| Outcomes.SuccessIsStored | passkeys/postgres.go:195-269 | a finish that answers success found the ceremony pending, unexpired and authorized, and answers with the verified credential and the time of the finish; a registration adds exactly that credential in the ceremony's scope, an authentication changes four columns of the row it names; no other credential changes |
| Outcomes.SucceedsExactly | passkeys/postgres.go:156-244 | a pending ceremony's finish succeeds if and only if it is authorized, in time, verified, and the credential passes the constraints with a free key, or the subject's row is there to update |
| Outcomes.SuccessIsRecorded | passkeys/postgres.go:245-266 | the ceremony row and event of a success, and nothing else in those tables |
| Outcomes.RefusalIsRecorded | passkeys/postgres.go:245-269 | a consumed but unsuccessful finish touches no credential; its state, public code and cause are recorded as answered, and which code that is |
| Outcomes.RollbackAnswer | passkeys/postgres.go:168-193 | a finish that consumes nothing answers with the authorization's fault, the verifier's, or a database error |
| Outcomes.StartIsStored | passkeys/postgres.go:101-131 | the new ceremony and its event are all that a start adds |
| Outcomes.StartsExactly | passkeys/postgres.go:101-131 | a start is stored if and only if token hash and event id are free and it expires after it begins |
| Outcomes.DeleteIsStored | passkeys/postgres.go:271-291 | a deletion succeeds if and only if the id is in the subject's scope and the event id free; then that row is gone, a succeeded deletion is recorded, and nothing else changes |
| Outcomes.RegisteredIsRead | passkeys/postgres.go:24-55 | a registered credential is in the next list read for its subject |
| Outcomes.DeletionUndoesRegistration | passkeys/postgres.go:271-290 | deletion by the same subject restores the credential table, a second one finds nothing, and another subject's finds nothing |
| Accounting.CeremoniesAreSingleUse | passkeys/postgres.go:171-173 | a ceremony leaves pending at most once and a terminal row never changes again |
| Accounting.AtMostOneFinishCommits | passkeys/postgres.go:157-173 | of all finishes of one ceremony on all nodes at most one commits |
| Accounting.HistoryCountsCeremonies | passkeys/postgres.go:127-266 | per kind, application and subject: start events equal ceremony rows, and finish events with a result equal rows in that state |
| Counters.CountersAreSafe | passkeys/webauthn.go:155-160 | for each credential the committed sign counts are zeros and then strictly increase, the last is in the live row, and the row agrees in every shared column with its stored library record |
| Counters.NoLostUpdate | passkeys/postgres.go:224-242 | whenever verification picked a credential, the UPDATE that follows finds exactly that row and nobody else writing it |
| WebAuthn.VerifyIsSound | passkeys/webauthn.go:112-226 | an accepted credential agrees with its library record in every shared column, has the key's algorithm, lies in the ceremony's scope, and for an assertion keeps the key of the very row it updates and moves its counter forward |
| WebAuthn.VerifyIsExact | passkeys/webauthn.go:112-183 | accepted if and only if configured, readable, and the library returned a credential for a listed origin, discoverable, without clone warning, with an offered algorithm, and for an assertion belonging to a stored row |
| WebAuthn.AcceptedIsLibraryRecord | passkeys/webauthn.go:151-226 | the accepted credential column by column from what the library returned |
| WebAuthn.RefusalsAreSorted | passkeys/webauthn.go:115-182 | which fault each refusal is; only readable input fails with the ceremony's own code and a cause |
| WebAuthn.RecordsFailExactly | passkeys/webauthn.go:61-74 | no records if and only if one of the relying party is corrupt |
| WebAuthn.RecordAt | passkeys/webauthn.go:61-74 | every row of the relying party is passed on, in row order |
| WebAuthn.AssertionAdvances | passkeys/webauthn.go:157-178 | the row the search loop picks is the row whose record the library checked, with the same key |
| WebAuthn.ClonesAreRefused | passkeys/webauthn.go:155-159 | the clone warning is raised exactly for counts that do not advance, zero after zero excepted |
| WebAuthn.MakeUser | passkeys/webauthn.go:61-74 | the records of the relying party in row order, or failure exactly when one of them is corrupt |
| WebAuthn.MapRecord | passkeys/webauthn.go:184-226 | the mapped credential, or which of the three failures |
| WebAuthn.FindOwner | passkeys/webauthn.go:171-178 | the first row with that credential id and relying party |
| WebAuthn.Owner | passkeys/webauthn.go:171-178 | a found owner matches and nothing before it does; none found means nothing matches |
| WebAuthn.Verify | passkeys/webauthn.go:112-183 | the loops and early returns compute the verdict the soundness theorem is about |
| Repository.Postgres.Start | passkeys/postgres.go:101-131 | all of a start or nothing, by the serial plan |
| Repository.Postgres.Finish | passkeys/postgres.go:140-270 | all of a finish or nothing, by the serial plan, whichever statement fails; the unique index holds |
| Repository.Postgres.Delete | passkeys/postgres.go:271-291 | all of a deletion or nothing, by the serial plan |
| Repository.Postgres.ReadCredentials | passkeys/postgres.go:24-55 | exactly the subject's rows in id order |
| Repository.Postgres.WriteCredential | passkeys/postgres.go:196-244 | the insert or update, its conflict and zero-row outcomes, and the refused row |
| Repository.Postgres.Close | passkeys/postgres.go:245-269 | the terminal state, the credential link and the event, or the saved tables |
| Repository.Postgres.AppendEvent | passkeys/postgres.go:73-100 | one event more, unless the statement fails |
| Store.SortedRowsComplete | passkeys/postgres.go:24-55 | every row of a subject is in the list read |
| Store.SubjectListIsExact | passkeys/postgres.go:24-55 | the list read holds exactly the subject's rows, ascending by id |
| Store.SortedRowsBelong | passkeys/postgres.go:24-55 | every row in the list read is a row of the subject |
| Store.SortedRowsAscend | passkeys/postgres.go:24-55 | the list read ascends by id |
| Store.FitsKeepsIndex | assets/migrations/001_core.sql:1-17 | a write that fits the keys keeps the primary key and unique index |
| Store.SettleFits | passkeys/postgres.go:196-243 | whatever a finish decides to write fits the keys |
| Services.ServiceCallsAreSound | passkeys/service.go:114-126 | the callbacks the service passes to Finish meet the hypotheses of the run theorems |
| Services.FinishStaysInside | passkeys/service.go:114-123 | a finish changes no row of an application its caller is no client of, whatever token and answer |
| Services.StartStaysInside | passkeys/service.go:66-100 | a start changes no row of another application |
| Services.DeleteStaysInside | passkeys/postgres.go:280-286 | a deletion changes no row of another application |
| Services.AuthorizeClient | passkeys/application.go:45-52 | no fault exactly when the nonempty fingerprint is listed |
| Services.ByCodeKeepsLast | passkeys/service.go:43-51 | entering applications one by one keeps the last of each code and nothing else |
| Services.Service.constructor | passkeys/service.go:43-51 | the application map: last entry of a code wins, nothing else gets in |
| Services.Service.Start | passkeys/service.go:59-102 | which fault each invalid or unauthorized request gets; for the others, unless the database is unavailable, an authentication needs a credential, the library readable records and a session, and then the start succeeds with exactly that pending row for five minutes |
| Services.Service.Finish | passkeys/service.go:103-132 | request checks first, then the repository's finish with these callbacks; a success names the application, subject and id of the row in the table; no other application is touched |
| Services.FinishAnswersForRow | passkeys/service.go:124-131 | the answered scope is the ceremony's and the stored row's |
| Services.FinishAuthorizeIsExact | passkeys/service.go:114-123 | who may finish, and the fault of everyone else |
| Services.Service.Delete | passkeys/service.go:142-154 | validity, then authorization, then the repository's deletion |
| Paging.WalkIsStable | app/admin_queries.go:158-242 | over a live table, following Next to the end shows keys strictly descending, none twice, every row present throughout, and nothing absent at its load |
| Paging.WalkBackIsStable | app/admin_queries.go:158-242 | over a live table, following Previous to the end from any row shows, pages put newest first, keys strictly descending above it, every row present throughout, and nothing absent at its load |
| Paging.PageOfWalkBack | app/admin_queries.go:231-242 | a Previous page of any table, short ones included, is newest first, above its cursor, and leaves out only rows above its first |
| Paging.OnwardLinksAreExact | app/admin_queries.go:231-242 | on any table a page offers the link onward exactly when rows on that side are left out |
| Paging.LinksAreInverse | app/admin_queries.go:231-242 | from any reachable page Next then Previous, and Previous then Next, restore rows and both links |
| Paging.LinksAreExact | app/admin_queries.go:231-242 | each link is offered exactly when a matching row lies on that side |
| Paging.FollowedIsWindow | app/admin.go:316-328 | every page reached by links is a 20-row window of the full descending list |
| Paging.AdminPageInPlace | app/admin_queries.go:231-242 | truncating and reversing in place gives the page and both flags |
| Paging.PageData.Fill | app/admin.go:316-328 | the page data and links, from the rows in place |
| Paging.DescendingUnique | app/admin_queries.go:205-205 | ORDER BY over a unique key determines the list |
| QueryBuilder.EarlierPlaceholdersStand | app/admin_queries.go:125-136 | appended arguments never change what an earlier placeholder refers to |
| QueryBuilder.WhereAppend | app/admin_queries.go:125-142 | an appended clause means the old conjunction and the new comparison |
| QueryBuilder.AdminSql.Add | app/admin_queries.go:125-128 | clause and argument grow together and the meaning is the conjunction |
| QueryBuilder.AdminSql.AddCursor | app/admin_queries.go:201-204 | the two-argument row comparison refers to its own two arguments |
| QueryBuilder.AdminSql.Scope | app/admin_queries.go:129-136 | the rows of the scope filters |
| QueryBuilder.BuildCredentials | app/admin_queries.go:158-168 | the generated conjunction selects exactly the filtered rows past the cursor |
| QueryBuilder.BuildHistory | app/admin_queries.go:183-205 | the generated conjunction selects exactly the wanted rows past the cursor, and its text depends only on which filters are present |
| QueryBuilder.WantedIsExact | app/admin_queries.go:183-205 | what a filter and a cursor want, column by column |
| QueryBuilder.QueryIsFetch | app/admin_queries.go:183-205 | the selected keys are the set the page theorems order and truncate |
| QueryBuilder.CredentialQueryIsFetch | app/admin_queries.go:158-168 | the credential list's id comparisons select the same set for rows that carry no time |
| Dates.TextOrderIsCalendarOrder | app/admin_queries.go:83-85 | on accepted dates string order is calendar order and day-number order |
| Dates.FromBoundIsExact | app/admin_queries.go:189-192 | the From bound selects exactly the instants whose UTC date is not before From |
| Dates.ToBoundIsExact | app/admin_queries.go:193-196 | the To bound selects exactly the instants whose UTC date is not after To, across month ends and leap years |
| Dates.DaysBeforeYearClosed | app/admin_queries.go:189-196 | the Gregorian leap rule counted in closed form |
| Dates.DaysBeforeMonthClosed | app/admin_queries.go:189-196 | the length of every month, by a closed form for the days before it |
| Encoding.Base64RoundTrip | app/admin_queries.go:116-116 | strict base64url decoding undoes encoding for every octet string |
| Encoding.AlphabetIsUrlSafe | app/admin_queries.go:116-116 | the alphabet is the URL-safe one, letter by letter |
| Encoding.Vectors | app/admin_queries.go:116-116 | test vectors of section 10 of RFC 4648 |
| Encoding.StampRoundTrip | app/admin_queries.go:114-114 | an RFC 3339 timestamp with trimmed nanoseconds reads back as its instant |
| Encoding.SplitThree | app/admin_queries.go:91-92 | three joined fields split back into themselves |
| Cursors.CursorRoundTrip | app/admin_queries.go:86-117 | a link cursor parses back to id, time and direction within the length limit; the zero time fails in history, a nonzero one in credentials |
| Cursors.ReadCursorIsExact | app/admin_queries.go:86-105 | a cursor parameter is read if and only if it decodes to direction, timestamp and canonical id, and it is those |
| Requests.LinkRoundTrip | app/admin.go:244-248 | a link keeps every filter and lands on its cursor, exactly when the time is not zero for history |
| Requests.LinkAsksPastRow | app/admin.go:316-328 | the linked request compiles to the same wanted rows past the linking row's key |
| Requests.AcceptedIsUsable | app/admin_queries.go:51-105 | every accepted request meets what the query builder needs |
| Requests.FieldsAreExact | app/admin_queries.go:51-85 | which parameters are refused |
| Requests.FilterIsItsParameters | app/admin_queries.go:51-105 | otherwise every field of the filter is its own parameter, and only an unreadable cursor is refused |
| Requests.UuidTextIsUnique | app/admin_queries.go:47-50 | canonical UUID texts and UUID values correspond one to one |
| MigrationNodes.MigrationsAreSafe | app/database.go:18-87 | for any nodes, releases, failures and stops: versions are exactly 1..n with the checksums of the bodies run in order, nothing earlier is lost, and success means every file matches and n is the supported version |
| MigrationNodes.OneReleaseRunsItsFiles | app/database.go:39-85 | with one release the schema is always files 1..n, each once, in order |
| MigrationNodes.LockHolderIsUndisturbed | app/database.go:25-74 | one node past the lock; it never meets the noncontiguous error or a recorded version |
| MigrationNodes.UninterruptedRunEnds | app/database.go:18-87 | from every reachable state a node that gets the lock undisturbed ends as `Migrate` alone does |
| MigrationNodes.InvDo | app/database.go:18-87 | every statement, failure, lost reply and stop keeps the lock, the clean table and what the holder knows |
| Migration.Database.Migrate | app/database.go:18-87 | the loop runs the missing files up to the first that does not pass and succeeds exactly when all pass and the version is supported |
| Migration.PassingMatches | app/database.go:41-57 | what it means for the leading files to pass, and why the first other one does not |
| Migration.NamedIsThreeDigits | app/database.go:39-43 | a file name passes if and only if it starts with three digits that read as the version, and an underscore |
| Migration.OwnFilesAreNamed | app/database.go:39-43 | the repository's two files pass |
| Migration.CheckSchemaIsContiguity | app/database.go:94-103 | count and maximum together hold exactly for the versions 1..n |
| TokenBucket.Limiter.AllowLogin | app/admin.go:147-161 | the answer and the new state |
| TokenBucket.BucketStaysSane | app/admin.go:147-161 | over any calls, clock steps backwards included, tokens stay within 0..5 and refill is the latest time seen |
| TokenBucket.AllowsExactly | app/admin.go:147-161 | a call is accepted if and only if tokens and a twelfth of the seconds passed make one |
| TokenBucket.FullBucketAllowsFive | app/admin.go:147-161 | a full bucket accepts five calls at any times |
| TokenBucket.StretchIsBounded | app/admin.go:147-161 | any stretch of calls accepts at most 5 plus a twelfth of the seconds refill advanced |
| TokenBucket.AcceptedIsPaidFor | app/admin.go:147-161 | accepted calls and tokens left never exceed tokens before and refill |
| TokenBucket.RefusedCallsDoNotCount | app/admin.go:147-161 | leaving out any refused calls changes no other answer |
| JsonDepth.StrictJson | app/json.go:13-35 | the loop accepts exactly when nothing but closing tokens lies deeper than 32, the text is well formed and it decodes |
| JsonDepth.LoopIsValidator | app/json.go:18-33 | on every JSON value the loop's condition is the recursive validator's, and both say that no value or member name lies deeper than 32 |
| Identity.HandleInputIsUnambiguous | passkeys/application.go:22-31 | the hash input determines application and subject |
| Identity.SignedMessageIsUnambiguous | app/admin.go:109-114 | the signed message determines name and expiry for all names |
| Identity.CookieIsExact | app/admin.go:119-133 | a value validates if and only if it is a canonical expiry still to come with the signature of that expiry |
| Identity.FreshCookie | app/admin.go:115-133 | a fresh cookie validates exactly until its expiry second and only for its own name |

## Left out

- PostgreSQL itself: READ COMMITTED, FOR UPDATE rereading the row after a wait, transaction locks held to the end, and ON CONFLICT DO NOTHING waiting for an in-flight writer of the key are assumptions of `Transactions`.
- A lost reply to the COMMIT of a ceremony call: a committed call is taken to have returned its answer.
- Ceremony rows are keyed by token hash; the separate ceremony id and its primary key are not modelled.
- A start that collides with an in-flight row of the same token hash waits for it; failing CHECK constraints, duplicate event ids and other refused statements are rollbacks.
- One transaction step holds the Go code up to the next SQL statement.
- Clocks, fresh UUIDs, token hashes, UTF-8 validity and JSON well-formedness are parameters; the database clock does not step back.
- Unsigned 32-bit sign counts: a count is a natural number, which is only ever stored and compared.
- WebAuthn cryptography, CBOR, the library's own parsing and its session checks; the library contract stands for them.
- SHA-256, HMAC and bcrypt: claims are about their inputs. `Identity.FreshCookie` takes it that the two names' messages have no common MAC.
- `Service.Credentials`, `NewToken` and `TokenHash`: reads and randomness.
- Identity.ValidSubject: which byte strings are UTF-8 is a parameter.
- SQL text: clauses are values with a meaning; joining them with AND is the meaning of a list.
- Requests.LinkRoundTrip: query parameters are decoded names and values; URL escaping is not modelled.
- Cursors.CursorRoundTrip: numeric zone offsets, comma fractions and fractions over nine digits, which Go's time parser also reads, are not modelled.
- Encoding.Base64RoundTrip: decoding is not unique for arbitrary input, since the strict decoder skips line breaks.
- Rows in walks are identified by their keys; scanning columns and formatting history details are not modelled.
- TokenBucket.StretchIsBounded: exact arithmetic; float64 rounding and the saturation of time differences are not modelled.
- JsonDepth.StrictJson: the tokenizer and the typed decoding, which rejects duplicate and unknown names, are parameters.
- Migration.Database.Migrate: a table that was noncontiguous before any node ran is not covered, and a migration file is a body that runs or fails as a whole.
- Reading the embedded files cannot fail.
- `LoadConfig`, `errorStatus`, HTTP routing, templates, TLS and server start: per-field checks and plumbing that would only add easy members.
