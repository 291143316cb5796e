# ssh-sentinel, modelled in Dafny

ssh-sentinel asks an admin to approve SSH logins and sudo. A PAM hook on the server posts an
access request; the backend applies its rules, stores a row, pushes it to the phones and polls
the row until a verdict lands or the wait is over. This project models that decision protocol
and the parts around it, and proves what they promise over every run.

How the files fit together:

- `Model`, `Rules`, `Tables`, `Sorting`, `Sets`: the rows and enumerations, the rule order and
  the arithmetic of the auto-block, the meaning of each SQL statement as a relation between
  tables, the order of a listing.
- `Protocol`, `ProtocolSafety`, `ProtocolTheorems`, `ProtocolAutoblock`, `ProtocolUnblock`: any
  number of access-request and verdict handlers as programs with a program counter. Each store
  statement, clock reading and answer is one step; UPDATE and the SELECT after it are two. A clock reading
  is an arbitrary instant, an error may end a handler anywhere, and a handler may mark its row
  timed out at any moment, so every outcome of the deadline race is covered. A theorem that
  needs an ordering of clock readings names it.
- `Autoblock`: the auto-block over whole runs with each verdict handled as one step.
- `Store`, `Handlers`: the in-memory store as a class over maps, scanned in any order, and the
  rules engine and verdict handler that run on it. Their contracts tie them to the SQL meaning
  and to the events of `Autoblock`.
- `Wait`, `History`, `Migrations`, `Tokens`: the poll loop with its clock, history paging,
  concurrent migrations, the push client's token cache.
- `Agent`, `Composition`, `Watch`, `Pam`, `AuditLine`: the synced whitelist copy, the decision
  table of the hook, the hook composed with the backend protocol, the Windows event-log cursor,
  the installer's PAM edit, the audit line.

Results that differ from what the code's documentation says, or that need a proviso:

- A 409 can report `timeout` for an approved request. It takes a verdict that reads its clock
  before the expiry and whose UPDATE runs after another verdict was refused for expiry
  (`ConflictNeedsClockOrder`). With Decide statements in the order of their clock readings it
  cannot happen (`ConflictReportsFinalStatus`). Whatever the clocks do, `ConflictReportExact` says
  of every 409 of every run when it is right, and only a reported `timeout` can be wrong
  (`OnlyTimeoutsCanBeWrong`). An id is taken to be a value nobody has named before its row
  exists, as a random UUID is.
- "Three new denials block the IP again" after an unblock needs two provisos. With each verdict
  handled as one step it holds unless the unblock falls on the very instant of earlier denials:
  `BelowThresholdExactly` and `UnblockFreesExactly` give the exact conditions, `ShadowedCanCount` an
  example of a denial counted late. With the store calls interleaved, a handler that looked up the
  block before the unblock can insert its own block after it, with no new denial
  (`UnblockUndone`). That cannot happen when no handler of the address is in Counting or Blocking
  at the unblock (`OnlyNewDenialsBlockAgain`), and `NeverRecountsExactly` gives the exact condition.
- A block counts no denial older than Window before it; with arbitrary clocks it may count one
  dated after itself (`NoBlockWithoutDenials`).
- Paging by `next_before` loses rows exactly when rows of one creation instant straddle a page
  boundary (`WalkCompleteExactly`).
- The event-log source counts as primed even when its first query fails; the polls after that
  report the whole log (`FromPrimingPoll` with `ok` false).
- With a lookback and no event ID 4 record in its window, the cursor stays at 0 and a second poll
  would report the whole log (`FromLookbackPoll`).
- The in-memory block upsert resets the hit counter on insert too, the SQL one only on conflict
  (`BlockUpsertsAgreeExactly`). The rules engine always upserts a block with no hits, where both
  agree.
- `pam_remove` undoes `pam_insert` for every inserted line but the marker itself
  (`RemoveUndoesInsertExactly`); the two lines the installer inserts qualify.

Nothing was executed: the results are those of the Dafny verifier.

## Model

| member | source | states |
|---|---|---|
| ProtocolSafety.WriteOnce | backend/internal/db/postgres_requests.go:91-139 | over every run a row never disappears, leaves pending at most once and only to an admin's decision made before expiry or to timeout, and never changes again |
| ProtocolTheorems.AnswersAgreeWithFinalStatus | backend/internal/handler/access_request.go:114-182 | every answer an agent was sent, in either mode, by poll read, own timeout or lost race, tells the row's status then and in every later state: approve exactly for approved, whitelisted and notified, and each reason exactly for its statuses |
| ProtocolTheorems.ReasonNamesDecider | backend/internal/model/enums.go:98-117 | in either mode the reason given names whoever is in decided_by, decided_at is null exactly for timeout, and the answer approves exactly when the row is whitelisted, notified, or approved by an admin before it expired |
| ProtocolTheorems.OneVerdictDecides | backend/internal/handler/verdict.go:85-115 | two calls that decide the same row, at any points of a run, are the same call, also when it fails afterwards; its choice, clock reading and device are in the row, its reading lies before the expiry, and its 200 carries the final status |
| ProtocolTheorems.RowsAlwaysConsistent | backend/internal/db/dbtest/memory_requests.go:28-90 | in every reachable table status, decided_by, device and decided_at agree, with admin decisions before expires_at and rule decisions at created_at |
| ProtocolTheorems.EnforceApproval | backend/internal/rules/rules.go:86-127 | an enforce-mode answer approves exactly when the final status is whitelisted, or approved by an admin strictly before expires_at |
| ProtocolTheorems.RulesDecide | backend/internal/rules/rules.go:86-127 | whatever happens after the INSERT, a request found to come from a blocked address or country is never answered approve, whatever else was found; then a whitelist entry approves, then notify mode, else exactly an admin in time; the row keeps the request's columns and its deadline |
| ProtocolTheorems.ConflictReportsFinalStatus | backend/internal/handler/verdict.go:163-193 | when Decide statements run in the order of their clock readings, every 409 carries the final status and decision instant |
| ProtocolTheorems.ConflictReportExact | backend/internal/handler/verdict.go:163-193 | with arbitrary clocks, every 409 of every run was answered by one step, and carries the final status and instant exactly when that step read a decided row, or nobody had decided the row before its own ignored update |
| ProtocolTheorems.OnlyTimeoutsCanBeWrong | backend/internal/handler/verdict.go:163-193 | with arbitrary clocks, a 409 that does not report timeout carries the final status and instant |
| ProtocolTheorems.ConflictNeedsClockOrder | backend/internal/handler/verdict.go:174-184 | a reachable state in which a 409 reports timeout for an approved request |
| ProtocolAutoblock.NoBlockWithoutDenials | backend/internal/rules/rules.go:151-175 | in every interleaving a block counted at least Threshold denials, none dated earlier than Window before it, and the table holds as many admin denials of its address between its first and last instants as it counted |
| ProtocolAutoblock.AutoBlockedIsOwn | backend/internal/handler/verdict.go:139-156 | in every interleaving a 200 reports an auto-block exactly when this very call inserted it, and no call inserts two |
| ProtocolAutoblock.EnoughDenialsBlock | backend/internal/rules/rules.go:135-176 | with permanent blocks, no unblock and no store error, once all verdict handlers are done an address with Threshold denials within Window of the latest reading is blocked, however the three store calls interleaved |
| ProtocolUnblock.OnlyNewDenialsBlockAgain | backend/internal/handler/blocked_ips.go:29-49 | in every interleaving with unblocks in the order of their instants, when no handler of the address has a count that reaches behind the unblock, only Threshold denials dated at or after it block the address again |
| ProtocolUnblock.NeverRecountsExactly | backend/internal/rules/rules.go:138-157 | some interleaving after an unblock counts an earlier denial again exactly when, at the unblock, a handler of the address counts from an earlier bound or holds a block that counts such a denial or ends before it |
| ProtocolUnblock.UnblockUndone | backend/internal/rules/rules.go:138-175 | a reachable run in which a late insert blocks an unblocked address again with no new denial |
| Autoblock.BelowThresholdExactly | backend/internal/rules/rules.go:138-157 | with atomic verdicts and a clock that never goes back, an unblocked address stays below Threshold since max(now - Window, end of last block) in every state, exactly when no unblock falls on the instant of Threshold denials |
| Autoblock.UnblockedIsBelowThreshold | backend/internal/rules/rules.go:138-157 | from an empty history and at strictly increasing instants, an unblocked address is below the threshold in every state |
| Autoblock.NoDenialCountsTwice | backend/internal/rules/rules.go:142-157 | when blocks end strictly after their last counted denial, no denial counts toward two blocks; when they also end strictly after the denials made under them, those count toward none |
| Autoblock.UnblockFreesExactly | backend/internal/db/postgres_blocked_ips.go:103-110 | after an unblock some continuation counts an earlier denial again exactly when that denial is dated at or after the unblock |
| Autoblock.ShadowedCanCount | backend/internal/rules/rules.go:142-149 | a reachable run in which a denial made under a block counts toward the next one |
| Rules.New | backend/internal/rules/rules.go:50-59 | the engine always runs with a positive threshold and window, the configured ones when they are positive |
| Rules.StatsUnique | backend/internal/db/postgres_requests.go:196-216 | count, first and last are determined by the table, the address and the bound |
| Rules.SinceSelects | backend/internal/rules/rules.go:136-151 | the denials counted are exactly those dated within Window before now and not before the end of the address's last block, however long ago that was |
| Handlers.Evaluate | backend/internal/rules/rules.go:86-127 | from the tables: blocked_ip exactly when the address has a block in force, blocked_geo exactly when not and the country is listed, whitelisted exactly when neither and an unexpired entry covers the user, context and server, notified or pending by mode exactly when none; only a blocked address gets a hit counted, on its own row |
| Handlers.RecordDenial | backend/internal/rules/rules.go:129-176 | with no block in force, a block is inserted exactly when at least Threshold denials count, within Window and not before the end of the last block; it carries their number, first and last instants, and lasts BlockDuration or for good; nothing else changes |
| Handlers.SaveAlways | backend/internal/handler/verdict.go:113-133 | approve_always saves the entry of the row's user, context and server until now + ttl or for good, refreshing one that exists, and touches no other |
| Handlers.HandleVerdict | backend/internal/handler/verdict.go:23-157 | undisturbed, the handler leaves the rows and blocks of one Verdict event; 404, 409, 500 and 200 exactly when the row is missing, not decidable, decided now but its always-allow entry names an unknown server, or decided now; the 200 carries the block the denial inserted, if any; the whitelist changes only for a saved approve_always, by the entry of that user, context and server |
| Handlers.VerdictConflict | backend/internal/handler/verdict.go:159-193 | undisturbed, an expired pending row is timed out and the 409 is the row's state; 404 when there is no row |
| Handlers.HandleUnblock | backend/internal/handler/blocked_ips.go:34-49 | ends the block of one address exactly when it is in force, else 404 |
| Store.Memory.CreateRequest | backend/internal/db/dbtest/memory_requests.go:28-44 | inserts the row under its new id, or nothing when the server is unknown |
| Store.Memory.DecideRequest | backend/internal/db/dbtest/memory_requests.go:56-73 | refines the conditional UPDATE: the same table, and the three outcomes told apart exactly |
| Store.Memory.MarkTimeout | backend/internal/db/dbtest/memory_requests.go:75-90 | refines the UPDATE of pending rows; true exactly when the table changed |
| Store.Memory.ListRequests | backend/internal/db/dbtest/memory_requests.go:92-124 | for every map iteration order, exactly the rows agreeing with every filter that is set, newest first and ties by id; with a limit, the newest of them |
| Store.Memory.CountDenials | backend/internal/db/dbtest/memory_requests.go:126-146 | for every map iteration order, count, min and max of decided_at over the denials at or after the bound |
| Store.Memory.FindWhitelist | backend/internal/db/dbtest/memory_lists.go:26-46 | for every map iteration order, an unexpired entry of this server, else a global one, else none |
| Tables.FoundUnique | backend/internal/db/postgres_whitelist.go:40-55 | with unique entries the lookup has one right answer |
| Tables.LazyDeletionInvisible | backend/internal/db/postgres_whitelist.go:57-65 | deleting the rows expired at an instant changes no lookup then or later |
| Store.Memory.ListWhitelist | backend/internal/db/dbtest/memory_lists.go:48-70 | drops exactly the expired rows, then lists exactly one server's and the global entries, newest first and ties by id |
| Store.Memory.UpsertWhitelist | backend/internal/db/dbtest/memory_lists.go:72-94 | refreshes the expiry of the entry with the same user, context and server, or inserts, and keeps entries unique |
| Tables.UpsertKeepsUnique | backend/internal/db/postgres_whitelist.go:94-130 | the upsert keeps (user, context, server) unique |
| Store.Memory.BlockedIpByIp | backend/internal/db/dbtest/memory_lists.go:118-128 | finds the address's row, expired or not, or none |
| Store.Memory.RecordBlockedIpHit | backend/internal/db/dbtest/memory_lists.go:130-141 | one more hit at now on that row only, or nothing for an unknown id |
| Store.Memory.UpsertBlockedIp | backend/internal/db/dbtest/memory_lists.go:161-185 | re-arms the address's row under its id, or inserts, and keeps addresses unique |
| Store.Memory.UnblockIp | backend/internal/db/dbtest/memory_lists.go:187-197 | sets the expiry of an active block to now, after which it is not active; otherwise nothing |
| Tables.BlockUpsertsAgreeExactly | backend/internal/db/postgres_blocked_ips.go:72-101 | the in-memory and the SQL upsert agree exactly when the address has a row or the block comes with no hits |
| Wait.WaitAccessVerdict | backend/internal/handler/access_request.go:111-167 | with sleeps and store calls of any bounded lateness (none, in the exact case), hang-ups and errors: the wait ends; the answer is the verdict that landed by its last read, else timeout; the row is timed out exactly when the wait reached the deadline with nothing landed; no answer is given when a store call failed or the agent hung up; a verdict landing at t is answered by min(t + poll, deadline) plus the lateness of one sleep and one call; the polls before the last step fit in the wait |
| History.GetHistory | backend/internal/handler/history.go:20-85 | 400 exactly for a limit below 1; otherwise at most the limit (50 when absent, 200 at most) of the newest matching rows, with a cursor exactly when a matching row is left out, the creation instant of the last |
| History.WalkDescends | backend/internal/handler/history.go:57-83 | following next_before terminates and is strictly newest first, so pages never overlap |
| History.WalkCompleteExactly | backend/internal/handler/history.go:57-83 | the walk gives every matching row exactly when no tie straddles a page boundary |
| History.WalkCompleteWhenDistinct | backend/internal/handler/history.go:57-83 | with distinct creation instants the walk is exactly the matching rows, in order |
| History.NewerRowsDoNotDisturb | backend/internal/handler/history.go:57-83 | rows created at or after the cursor change no later page |
| Migrations.MigrationsApplyPrefix | backend/internal/db/migrate.go:25-109 | however replicas interleave, fail, crash, lose a COMMIT answer and restart, the committed schema is one prefix of the files, each once, the recorded versions are their names without .sql, neither ever shrinks, and a replica that finishes has seen all of them |
| Migrations.CanAlwaysFinish | backend/internal/db/migrate.go:25-109 | from every reachable state, once the holder of the lock, if any, is rolled back, any replica can run to the end |
| Migrations.InitialInv | backend/internal/db/migrate.go:20-33 | an unmigrated or partly migrated database is a valid start |
| Migrations.Database.Migrate | backend/internal/db/migrate.go:25-56 | one replica alone applies the missing files up to the first failing one, and changes nothing when all are recorded |
| Tokens.SendsKeepInv | backend/internal/fcm/fcm.go:104-139 | over every interleaving a retry never reuses the rejected token, a send posts at most twice, and mints = forgotten + expired + cached |
| Tokens.MintsBounded | backend/internal/fcm/token.go:91-120 | in every run at most one mint, plus one per refused token, plus one per token that neared its expiry |
| Tokens.NothingExpires | backend/internal/fcm/token.go:91-109 | when every lifetime outlasts the run's clock readings and the margin, no token is replaced for its age |
| Tokens.OneRemintPerRefusedToken | backend/internal/fcm/token.go:91-120 | when every lifetime outlasts the run's clock readings and the margin, and every 401 answers a post of one token, any number of sends refused with it cost exactly one more mint |
| Tokens.ForgetDropsOnlyRefused | backend/internal/fcm/token.go:111-120 | a forget that changes the cache drops exactly the token its send was refused with |
| Tokens.TokenCache.AccessTokenFor | backend/internal/fcm/token.go:91-109 | the cached token exactly while it has more than a minute to live, else the minted one, cached for its lifetime; a failed mint changes nothing |
| Tokens.PostedTokensAreValid | backend/internal/fcm/token.go:91-109 | over every interleaving, every token in a post was minted by the send's own call or had more than a minute to live at its reading, and a call mints exactly when nothing is cached or the cached token has a minute or less |
| Tokens.TokenCache.Forget | backend/internal/fcm/token.go:111-120 | drops the cache only when it holds the rejected token |
| Agent.Sync | agent/cmd/ssh-sentinel/sync.go:17-48 | at every instant from the sync on, the projected copy allows a user and context exactly when the backend's lookup for this server would have found an entry on the whitelist as it stood |
| Agent.Allows | agent/internal/whitelist/cache.go:41-54 | true exactly when an unexpired entry of that user and context is cached |
| Agent.Hook.Run | agent/internal/check/check.go:50-145 | exit 0 exactly under the conditions of the decision table, with exactly one log line whose reason and request id are those of the row of the table that applied; a panic denies |
| Agent.ClassifyTells | agent/internal/client/client.go:98-165 | a 2xx with a known verdict is an answer, exactly a 4xx a refusal, everything else no usable answer |
| Composition.EnforceExitZero | agent/internal/check/check.go:82-145 | in enforce mode exit 0 means a break-glass user, or a row of this user and context finally whitelisted or approved by an admin before expiry, or no usable answer and an unexpired cached entry; a 4xx lets in break-glass users only |
| Composition.LetsInExactly | agent/internal/check/check.go:82-145 | from the HTTP exchange alone: who is let in, in both modes, as an if-and-only-if; a backend that is down, answers 5xx or garbage leaves the decision to an unexpired cached entry |
| Watch.ToEvents | agent/internal/watch/parse.go:81-95 | for any records: one event for each record that holds an accepted login and no other, in log order, with the record's id and instant and the user, address and method of its first login |
| Watch.FirstLoginIsLogin | agent/internal/watch/parse.go:84-93 | a record yields an event exactly when one of its values is an accepted login |
| Watch.Source.Next | agent/internal/watch/source_windows.go:32-66 | the cursor and batch of one poll; a failed poll changes no cursor but primes the source |
| Watch.PollsDeliverExactly | agent/internal/watch/source_windows.go:32-66 | in every run of appends and polls, some failing, the record ids delivered grow, every event reports the first login of an event 4 record between the starting id and the cursor, and every such record with a login is reported; after a successful poll the cursor is at the end of the log |
| Watch.FromPrimingPoll | agent/internal/watch/source_windows.go:33-51 | after a successful priming query exactly the records above the newest one are reported, each once; after a failed one the whole log is |
| Watch.FromLookbackPoll | agent/internal/watch/source_windows.go:33-66 | with a lookback the first poll reports exactly the records of the window and later ones exactly what lies above the newest of them, record ids growing throughout; when event times never go back that is the appended records, unless the window was empty and the whole log is reported |
| Pam.PamFile.PamInsert | agent/scripts/install.sh:114-154 | nothing when the marker is there or under dry-run; else the two lines go in before the first include, else before the first account line, else at the end, and the first edit keeps a backup |
| Pam.IncludeMatches | agent/scripts/install.sh:137-149 | the patterns match exactly the lines @include, blanks, common-account..., account, blanks, include or substack and a blank, and account and a blank |
| Pam.Position | agent/scripts/install.sh:137-149 | the insertion point: no include before it, and with no include no account line before it |
| Pam.PamFile.PamRemove | agent/scripts/install.sh:156-173 | exactly the lines that are neither a marker nor right after one are left, in order; nothing changes under dry-run |
| Pam.RemovalMeans | agent/scripts/install.sh:166-169 | the skip state keeps exactly those lines, on any file |
| Pam.RemoveUndoesInsertExactly | agent/scripts/install.sh:123-173 | on a marker-free file remove undoes insert exactly when the line is not the marker or nothing follows it |
| Pam.RemoveLeavesNoMarker | agent/scripts/install.sh:166-169 | no marker is left, whatever the file was |
| Pam.RunsKeepOriginal | agent/scripts/install.sh:123-173 | over any runs of install and uninstall the file is the original or the original with one pair of lines, the backup is the original, and an uninstall restores it |
| Pam.InstallerKeepsOriginal | agent/scripts/install.sh:237-238 | with the two lines the installer inserts, any marker-free file stays recoverable over any runs of install and uninstall |
| AuditLine.RenderSplits | agent/internal/auditlog/line.go:29-51 | a rendered line splits on spaces into exactly seven tokens that give back the seven sanitised values |
| AuditLine.RenderTokens | agent/internal/auditlog/line.go:29-51 | the seven tokens are the seven keys, in order, each with its own sanitised field |
| AuditLine.AsciiFields | agent/internal/auditlog/line.go:40-51 | printable ASCII is written as it is, every other ASCII character as an underscore |
| AuditLine.RenderInjective | agent/internal/auditlog/line.go:29-51 | two lines are equal exactly when their sanitised values are |
| AuditLine.FieldIdempotent | agent/internal/auditlog/line.go:40-51 | a sanitised value is left alone |

## Left out

- HTTP, JSON, routing, authentication and request validation (UUID syntax, ttl_seconds bounds, trimming): plumbing. Handlers start from an accepted body; an empty source address counts as none.
- Push delivery and its time: it changes no row, and the protocol lets any time pass between steps.
- Concurrent rule lookups: in `Protocol` the three lookups of Evaluate return arbitrary findings, which covers every table they could have read; the hit counter and the whitelist upsert of approve_always are proved on the store only.
- Interleaved auto-block with expiring blocks: `EnoughDenialsBlock` needs permanent blocks and no unblock; `NoBlockWithoutDenials` and the `ProtocolUnblock` results do not, and `Autoblock` covers expiry and unblock with atomic verdicts.
- Geo lookup and country normalisation: the country is an input, already trimmed and upper case.
- Geo rules, devices and servers as tables: easy members; Evaluate takes the set of blocked countries.
- PostgreSQL itself: each statement is one atomic step and a committed transaction is atomic.
- Go's zero time as "no denial": modelled as an absent instant; real decisions are never dated year 1.
- Directory reading and name sorting in Migrate: the file list is a parameter; its names are distinct and end in .sql.
- JWT signing, PEM parsing and the token endpoint: a mint is an oracle that returns a token never returned before.
- Pushing beyond the token cache (`checkResponse`, dead-token detection): single-branch classification of an answer.
- Wevtutil, XML decoding and the login regular expression: a record's values say whether they are accepted logins.
- File permissions, temp files and renames, a final newline missing from a PAM file: the PAM edit works on a list of lines.
- Invalid UTF-8 in audit fields: fields are sequences of Unicode scalar values.
- Reading the break-glass file, the config, /proc and syslog: the hook gets their contents as inputs.
