# Verified model of the MangaKo API's stateful kernels

The MangaKo API serves a manga catalog from PostgreSQL, fills it from MangaDex, and looks up offers on
Mercado Livre. This project models the parts of it that keep state, and proves what they keep over whole
runs. `dafny verify dfyconfig.toml` checks everything.

| module | what it models |
|---|---|
| `VolumeSync` | the volume table with its two unique indexes and its check on locales, one upsert, the page loop with its transactions, the sweep and the stamp |
| `VolumeSyncRuns` | paging, when a refresh completes, reconciliation, and which of several covers of one volume survives |
| `FirstSync` | refreshing a table that only ever came from MangaDex: normal form and idempotence |
| `RefreshLimits` | what a refresh of an arbitrary table does not guarantee, and exactly when a volume survives it |
| `RefreshViolations` | exactly when a refresh fails on a constraint |
| `Listing` | the listing query, its pages, and the latest volume number |
| `VolumeKey` | volume numbers, their spellings and their keys |
| `CoverKeys` | from the volume texts of covers to the rows of a table |
| `OAuth` | the Mercado Livre token row, one locked call at a time, and legal histories of it |
| `OAuthProtocol` | any number of callers interleaving under the row lock; every interleaving is a legal history |
| `ResponseCache` | the bounded response cache and the middleware in front of the handlers |
| `CacheVisits` | the same in terms of requests and answers alone |
| `RateLimiter` | the per-client sliding-window limiter |
| `CircuitBreaker` | the MangaDex circuit breaker and its composition with permit and spacer in `send` |
| `SlotSchedule` | the slot recurrence of the request spacer and of the cover downloader |
| `Offers` | choosing products, and making, sorting, reducing and cutting offers |
| `Sorting`, `Options`, `Numbers` | strict total orders on sequences; the option type; minimum and maximum |

Objects whose methods update fields are classes (`VolumeTable`, `MercadoLivreOAuth`, `Cache`,
`RateLimiter`, `MangaDexCircuitBreaker`, `MangaDexRequestLimiter`, `DownloadSchedule`). Their contracts
tie the new state to a specification function or relation, and the lemmas are about those. Runs of several
actors are sequences of states joined by enabled steps; time is a logical clock that each step reads.

## What the proofs found

- **The OAuth pause is shorter than a minute.** A failed exchange sets `retry_after` with the database's
  `now()`, which is the start of the transaction (src/mercadolivre_oauth.rs:206-214), so the time spent
  waiting for the lock and for the server counts against the minute. For a row that nobody else touches,
  `FullMinuteIff` states that the pause lasts 60 seconds from the failure exactly when no such time passed,
  which is known only after the call, and `ShortMinute` gives an exchange that may be repeated after 45
  seconds. README.md of the repository speaks of a 60-second cooldown; the model follows the code.
- **An older mark ends a pause early.** The mark of a second 401 overwrites `retry_after` with its own start
  plus a minute, even if a pause recorded meanwhile ends later (src/mercadolivre_oauth.rs:101-111):
  `OlderMarkCutsPause` is such a run, in which no time passes during the exchange. `PauseHoldsIff` says for
  every interleaving exactly when a pause lasts, and `FullMinuteInEveryRun` when the promised minute does.
- **A second 401 does not always start a pause.** The mark names the token of the retry, so it does nothing
  once another caller has been granted a new one: `LateMark` is such a case. `RepeatedUnauthorized` and, for
  every interleaving, `MarkSilencesIff` say exactly when the row falls silent for the minute.
- **A listed volume can be lost, and a refresh can get stuck.** If the stored cover of a volume disappears
  from MangaDex while only an older cover of the volume is listed, the guard refuses the older cover and the
  sweep then deletes the row. A later refresh inserts the volume again; if the first cover comes back its id
  is still owned by the deleted row, and every refresh fails from then on. `ListedVolumeLostThenStuck`
  proves the whole run for all such covers. `VolumeSurvives` says exactly when a volume survives a refresh,
  for every table and every list, and `ListedVolumeSurvives` says it in terms that can be checked beforehand.
  What is lost this way is back after the next completed refresh over the same list (`NextRefreshRestores`).
  `RefreshCompletesIff` says in such terms when a refresh completes, and `AnyRefreshCompletesIff` for every
  table.
- **An edited row can cost a volume its place, or stop the refresh.** A PATCH may move a row that came from
  MangaDex to another volume (src/manga_service.rs:377-443). An older cover of that volume is then refused,
  the refresh moves the row back when its own cover's turn comes, and the volume is left without a row
  although MangaDex lists it: `EditedVolumeLost`. If MangaDex lists another cover for the row's original
  volume before the row's own, every refresh fails: `EditedVolumeStuck`.
- **A cover with a blank locale stops the refresh.** The cover's locale is stored as it comes, and the
  table refuses a blank one (migrations/20260701151500_create_manga_catalog.sql:98), so `FirstRefresh` shows
  that a first refresh completes if and only if no listed cover has one.
- **The circuit's one-hour cap is never reached.** The multiplier stops at eight, so the shipped cooldowns
  are 5, 10, 20 and then always 40 minutes (`ShippedBackoff`), although the repository's README.md says the
  backoff is capped at one hour.
- **The latest volume number is not always one that the listing shows.** `LatestNotShownIff` gives the exact
  condition. Without numbered regular rows in the preferred language, the number is taken from the original
  language, and the listing does not fall back to that language in three cases: a locale was asked for;
  there are regular rows in the preferred language but their keys are not plain numbers; or the original
  language is spelled as the literal word `original`. `LocaleAskedFor`, `UnnumberedRegular` and
  `LiteralOriginal` give an input for each.

## Model

| member | source | states |
|---|---|---|
| VolumeSync.VolumeTable.UpsertVolume | src/manga_service.rs:1404-1511 | one cover changes the table as `Upsert` says: blank names are skipped, the active row of the key and locale is replaced under the freshness guard, otherwise the row owning the cover id is overwritten and revived, otherwise a row is added; a statement that would break a unique index or leave a blank locale changes nothing |
| VolumeSync.VolumeTable.UpsertPage | src/manga_service.rs:857-861 | a page is committed whole, or on a conflict not at all, and its cover ids are remembered in order |
| VolumeSync.VolumeTable.SyncPage | src/manga_service.rs:847-867 | one turn of the page loop ends in an error, after the last page, or one page further on, having remembered exactly the ids listed so far |
| VolumeSync.VolumeTable.RefreshMangaVolumes | src/manga_service.rs:838-888 | the loop terminates and leaves the table that `Refresh` describes: all pages, then sweep and stamp; or the committed pages alone when a request or a cover fails |
| VolumeSync.IndexSafety | src/manga_service.rs:1426-1508 | from a table satisfying its constraints an upsert never breaks the key-and-locale index, breaks the cover-id index exactly when the guard holds and another row, deleted or not, owns the id, and breaks the check on locales exactly when a listed cover's locale is blank |
| VolumeSync.UpsertAllConsistent | migrations/20260701151500_create_manga_catalog.sql:98-143 | no list of covers ever breaks the key-and-locale index; what is committed has no blank locale and satisfies both indexes |
| VolumeSyncRuns.PagesAreOneList | src/manga_service.rs:847-867 | whatever the page boundaries, what is committed is a prefix of the remote list taken once and in order; a completed loop has taken all of it, and only failures stop it |
| VolumeSyncRuns.RefreshIs | src/manga_service.rs:847-885 | without failures a refresh is one pass over the whole list followed by one sweep |
| VolumeSyncRuns.RefreshCompletes | src/manga_service.rs:847-888 | a refresh completes if and only if no request that the page loop reaches fails and no cover of the whole list violates a constraint |
| VolumeSyncRuns.ReachesFailureIff | src/manga_service.rs:847-867 | the requests the loop may make are those at multiples of the page size up to the length of the list |
| VolumeSyncRuns.Reconciliation | src/manga_service.rs:869-885 | after a completed refresh every active row with a cover id is listed remotely; unclaimed local rows are untouched; an incomplete refresh deletes nothing and does not stamp; the constraints hold either way |
| VolumeSyncRuns.UpsertAllKeeps | src/manga_service.rs:1404-1511 | upserts remove no row, deactivate none, and leave unclaimed rows as they are |
| VolumeSyncRuns.SweepKeepsConstraints | src/manga_service.rs:870-883 | the sweep keeps every constraint |
| VolumeSyncRuns.SurvivorWins | src/manga_service.rs:1440-1470 | folding the guard over the covers of a slot leaves the cover that the independent description `IsWinner` picks out |
| VolumeSyncRuns.OneWinner | src/manga_service.rs:1455 | that description fits at most one cover |
| VolumeSyncRuns.FreshnessWinner | src/manga_service.rs:1455 | when all covers of a numbered slot carry times, the winner is the last-listed one with the greatest time |
| VolumeSyncRuns.OnlyFromLastTimeless | src/manga_service.rs:1455 | when one lacks a time, nothing listed before it matters |
| VolumeSyncRuns.SurvivorTwice | src/manga_service.rs:1455 | offering the same list again changes no survivor |
| FirstSync.NormalFormStep | src/manga_service.rs:1404-1511 | upserting one more cover with a locale that is not blank into a table in normal form violates nothing and gives the normal form of the longer list, no row moving to another slot |
| FirstSync.FirstRefresh | src/manga_service.rs:838-888 | a first refresh over any list whose ids name their slots consistently completes if and only if no listed cover has a blank locale, and then leaves exactly one active row per key and locale, and per keyless cover, each holding the survivor; nothing is swept |
| FirstSync.SecondRefreshChangesNothing | src/manga_service.rs:838-888 | a second refresh over the same list changes no row |
| FirstSync.RowHoldsWinner | src/manga_service.rs:1440-1470 | the row of each slot holds the winner of the covers listed for it |
| CoverKeys.FirstRefreshRow | src/manga_service.rs:1415-1508 | every row after a first refresh holds the winner of its volume column by column: id, trimmed name, volume text and its key, locale or `und`, times, not deleted, and special exactly if the text spells no whole number |
| CoverKeys.FirstRefreshHasRow | src/manga_service.rs:1410-1413 | every cover whose name is not blank has a row with its key and locale, or without a key its own |
| CoverKeys.FirstRefreshCompletesIff | migrations/20260701151500_create_manga_catalog.sql:98 | a first refresh whose requests do not fail completes if and only if no cover with a name has a locale of nothing but spaces |
| CoverKeys.RefreshedRow | src/manga_service.rs:838-885 | after any refresh of any table each row is the one that was there or a listed cover column by column, and is marked deleted now exactly if the refresh completed and the row is active and stems from a cover that is not listed |
| RefreshLimits.ListedVolumeLostThenStuck | src/manga_service.rs:838-888 | for any two covers of one volume, a run of refreshes that loses the listed volume, brings it back, and then fails for ever |
| RefreshLimits.VolumeSurvives | src/manga_service.rs:838-888 | exactly when a numbered volume has an active row after a completed refresh of any table over any list: some row or cover wanted it and no unlisted row held it against all covers; or, if its row was moved away, a cover for it is listed later |
| RefreshLimits.ListedVolumeSurvives | src/manga_service.rs:870-883 | provided ids name one slot in the list and the volume's own row does not stem from a cover listed elsewhere, a listed volume survives unless its old row came from an unlisted cover newer than all covers listed for it |
| RefreshLimits.NextRefreshRestores | src/manga_service.rs:838-888 | from any table, after a completed refresh the next completed one over the same list leaves every listed numbered volume with an active row, provided the volume's own row does not stem from a cover listed elsewhere |
| RefreshLimits.KeepsSlotThrough | src/manga_service.rs:838-888 | a completed refresh keeps that proviso |
| RefreshLimits.EditedVolumeLost | src/manga_service.rs:377-443 | a row moved to another volume by an edit shuts out an older cover listed for that volume, is moved back by its own cover, and leaves the volume empty |
| RefreshLimits.EditedVolumeStuck | src/manga_service.rs:377-443 | with a row moved away by an edit, a list that names another cover and then the row's own for the original volume fails every refresh, changing nothing |
| RefreshLimits.TracksAlong | src/manga_service.rs:1404-1511 | as long as no cover moves the row of a slot away, the slot is held by a listed cover, or unchanged by a row that resisted all that competed, or empty because none did |
| RefreshViolations.RefreshCompletesIff | src/manga_service.rs:838-888 | provided ids keep their slots, a refresh completes if and only if no request it reaches fails, no listed cover has a blank locale, and no cover whose id a deleted row owns finds its slot held by a row that yields to it, unless it was itself the first to fill that slot |
| RefreshViolations.AnyRefreshCompletesIff | src/manga_service.rs:838-888 | for every table satisfying its constraints, a refresh completes if and only if no request it reaches fails, no listed cover has a blank locale, and no cover, when its turn comes, may update the row of its key and locale while another row owns its id |
| RefreshViolations.CompletesWithoutTombstones | src/manga_service.rs:838-888 | with ids in their slots and no blank locale, a refresh without failing requests completes if no deleted row owns the id of a listed cover |
| RefreshViolations.FollowsAlong | src/manga_service.rs:1426-1508 | after any part of the list, the time held in every slot and the fate of every deleted row are what the starting table and the list alone say |
| RefreshViolations.HomesKept | src/manga_service.rs:838-888 | a refresh, completed or not, leaves every id in the slot assigned to it |
| Listing.OrderIsTotal | src/manga_service.rs:1354-1358 | the ORDER BY clause is a strict total order on any table |
| Listing.PagesTile | src/manga_service.rs:1354-1360 | answers to successive LIMIT/OFFSET queries, each free to arrange rows on its own, concatenate to a prefix of the one complete listing |
| Listing.AnswerExists | src/manga_service.rs:1330-1360 | every such query has an answer |
| Listing.AnswersInOrder | src/manga_service.rs:1356-1360 | in every answer numbered rows come first and by ascending number, then locales in alphabetical order, then the latest update first and missing times last, then ids ascend |
| Listing.AnswerLength | src/manga_service.rs:1361 | an answer has as many rows as the limit allows and the offset leaves |
| Listing.BaseLanguageIs | src/manga_service.rs:1342 | the base language is what precedes the first dash or underscore, in lower case |
| Listing.LanguagesAre | src/manga.rs:991-1011 | the preferred language is the one asked for, the original one for the word `original`, or Japanese; only a request without a locale falls back, to the original language unless that is Japanese or spelled as that word |
| Listing.ListingShows | src/manga_service.rs:1338-1355 | exactly which rows the WHERE clause takes, on their columns |
| Listing.ListingContents | src/manga_service.rs:1321-1353 | no deleted row, all active specials, and regular rows of one base language, the fallback only when the preferred language has none |
| Listing.LatestSynced | src/manga.rs:953-973 | the greatest numeric key among active regular rows of a language, or nothing if there is none |
| Listing.LatestAgreesWithListing | src/manga.rs:926-951 | when the complete listing shows a numbered regular row, the latest volume is the greatest number among the regular rows shown, under both fallback rules |
| Listing.LatestNotShownIff | src/manga.rs:926-951 | exactly when the latest volume number belongs to no regular row that the complete listing shows, for every table, locale and original language |
| Listing.NoNumberIff | src/manga.rs:944-950 | when the latest volume is a number of the table, the text MangaDex reported, or unknown |
| Listing.CountsIs | src/manga.rs:961-966 | a row counts for it if active, not special, of the language, and numbered |
| Listing.LocaleAskedFor | src/manga.rs:933-945 | with a locale in which there is nothing, the latest volume counts a row of the original language that the listing does not show |
| Listing.UnnumberedRegular | src/manga_service.rs:1321-1353 | a regular row without a plain number in the preferred language keeps the listing, and not the latest volume, from falling back |
| Listing.LiteralOriginal | src/manga.rs:936-942 | with the literal word as original language the latest volume counts a row the listing does not show |
| VolumeKey.NormalizedVolumeKey | src/manga_service.rs:1898-1913 | text that is no finite number has no key; for a number the zero-popping loop returns the key of its value |
| VolumeKey.KeyValue | src/manga_service.rs:1904-1912 | a key is a plain decimal of the value it was made from |
| VolumeKey.KeyIdentifiesValue | src/manga_service.rs:1898-1913 | two texts have one normalised key exactly when they spell one value, or neither spells any |
| VolumeKey.KeyIsNormal | src/manga_service.rs:1926-1931 | normalising a key gives the key back |
| VolumeKey.KeyShape | src/manga.rs:966 | the keys that are plain numbers, which the latest volume looks for, are exactly those of values that are not negative |
| VolumeKey.KeyIsShort | src/manga_service.rs:1904-1912 | a key has a minus sign for a negative value only, no leading zero, a dot only for a value that is not whole, and then no zero at its end |
| VolumeKey.SignsMatter | src/manga_service.rs:1899 | a plus sign makes no difference to the number read, a minus sign that of the value |
| VolumeKey.DocumentedSpellings | src/manga_service.rs:1929-1930 | the repository's own padded spellings spell one and a half, and ten and a quarter |
| VolumeKey.NumberHasDigit | src/manga_service.rs:1934-1937 | text without a digit is no number |
| VolumeKey.ExponentIsRead | src/manga_service.rs:1899 | a mantissa with an exponent is a number |
| VolumeKey.TrimSplits | src/manga_service.rs:1899 | trimming takes all white space off both ends, and nothing else |
| VolumeKey.FractionalIsNotWhole | src/manga_service.rs:1915-1919 | the fractional keys are exactly those of values that are not whole |
| VolumeKey.SpellingsAgree | src/manga_service.rs:1926-1931 | leading zeros and trailing zeros of the fraction do not change the value, hence not the key |
| CoverKeys.NumberKeysAgree | src/manga_service.rs:1416-1420 | two volume texts lead to one key of the table exactly when they normalise to one key |
| CoverKeys.SpecialIsFractional | src/manga_service.rs:1421-1422 | the special flag of a row is the one computed from the normalised key |
| CoverKeys.OneRowPerVolume | src/manga_service.rs:838-888 | after a first refresh every listed cover has exactly one row, and two covers share it exactly when their volume texts normalise to one key and their locales are equal, or when neither has a key and their ids are equal |
| OAuth.MercadoLivreOAuth.Initialize | src/mercadolivre_oauth.rs:71-90 | a seed is stored only when no row exists and its tokens are well formed |
| OAuth.MercadoLivreOAuth.Token | src/mercadolivre_oauth.rs:113-199 | under the lock: refuse when closed or cooling, hand out a fresh token that was not rejected, otherwise exchange and store what the reply calls for |
| OAuth.MercadoLivreOAuth.Fail | src/mercadolivre_oauth.rs:201-216 | a failed exchange keeps the tokens and sets the pause and the reauthorization flag |
| OAuth.MercadoLivreOAuth.MarkRejected | src/mercadolivre_oauth.rs:101-111 | a rejected token starts a pause only if it is the stored one |
| OAuth.AuthorizedGet | src/mercadolivre.rs:40-72 | without OAuth a GET is sent once with the configured token, and any answer is passed on; with OAuth a GET with at most one retry, whatever other callers do to the row in between, gives the result, sends the tokens and leaves the row that `GetCall` and `RowAfterGet` say |
| OAuth.GetOutcome | src/mercadolivre.rs:40-72 | a GET sends at most two tokens, the second only after a 401, and gives the last answer or an upstream error; a stored token with more than a minute left is sent as it is, and a closed or paused row sends none |
| OAuth.RepeatedUnauthorized | src/mercadolivre.rs:55-69 | a 401 is passed on only after a retry; whatever other callers did in between, it silences every call that locks the row within a minute of the mark if and only if the row at the mark still stores the retried token, is closed, or is paused that long already; the first holds if nobody else was granted a token since |
| OAuth.LateMark | src/mercadolivre_oauth.rs:101-111 | the mark of a token that another caller has already replaced changes nothing |
| OAuth.SingleUse | src/mercadolivre_oauth.rs:113-199 | a refresh token whose exchange got a 2xx reply is never presented again |
| OAuth.ClosedForGood | src/mercadolivre_oauth.rs:125-127 | once reauthorization is required it stays so, and no token is handed out or presented |
| OAuth.ClosedIff | src/mercadolivre_oauth.rs:152-183 | in every legal history the row demands reauthorization if and only if some exchange of it was answered 400 or 401 with `invalid_grant`, `invalid_client` or `unauthorized_client`, or 2xx with a body that does not decode, an unusable token, or a lifetime not between a second and a year |
| OAuth.CallGets | src/mercadolivre_oauth.rs:113-135 | in every legal history a call fails at once exactly if there is no row, it is closed, or the pause set last and not ended by a grant is not over; any other is handed the stored token if that has more than a minute left and is not the one reported, and otherwise presents the stored refresh token |
| OAuth.StoredComesFrom | src/mercadolivre_oauth.rs:184-197 | the row stores the tokens of the latest grant, with its expiry counted from the reply, or before any grant the first seed |
| OAuth.FullMinuteIff | src/mercadolivre_oauth.rs:206-214 | the row as a failed exchange of any caller leaves it, untouched by others, pauses for a full minute from the failure if and only if the transaction began at that instant |
| OAuth.ShortMinute | src/mercadolivre_oauth.rs:206-214 | an exchange begun at 0 and failed at 15 may be repeated at 60 |
| OAuth.UntilTheNextGrant | src/mercadolivre_oauth.rs:128-134 | until the next grant every token handed out is the granted one with more than a minute left, and no exchange is tried before the last minute except by a caller that saw it refused |
| OAuth.OneExchangePerExpiry | src/mercadolivre_oauth.rs:113-135 | in a stretch before the last minute of every token granted in it, with none of them reported refused, at most one exchange succeeds, whatever the number of callers |
| OAuth.GrantIsServed | src/mercadolivre_oauth.rs:128-135 | after a grant, with no exchange and no second 401 for its token in between, a call before the last minute that does not report the token is handed exactly that token |
| OAuth.OneExchangeServesAll | src/mercadolivre_oauth.rs:113-199 | from a grant on, while callers come before the last minute and none reports the token, there is exactly one exchange, the granting one, and every other caller gets the stored token |
| OAuthProtocol.Linearizable | src/mercadolivre_oauth.rs:113-123 | every interleaving of callers under the row lock commits a legal history, and the row is what it makes it |
| OAuthProtocol.PresentedIsUnspent | src/mercadolivre_oauth.rs:136-151 | in every interleaving a token on its way to the server has never had a 2xx reply, and only one is on its way |
| OAuthProtocol.ClosedInEveryRun | src/mercadolivre_oauth.rs:125-127 | in every interleaving a closed row stays closed and nothing is handed out or presented |
| OAuthProtocol.CooldownInEveryRun | src/mercadolivre_oauth.rs:201-216 | in every interleaving, after a failed exchange or an effective mark, no caller that gets the lock within a minute of that transaction's start is handed a token or presents one, unless a mark begun even earlier is recorded in between |
| OAuthProtocol.PauseHoldsIff | src/mercadolivre_oauth.rs:101-127 | in every interleaving, while the time of a pause has not come, the row turns everybody away at every moment if and only if it was closed with the pause or no mark begun earlier than the pause was recorded since |
| OAuthProtocol.FullMinuteInEveryRun | src/mercadolivre_oauth.rs:201-216 | in every interleaving, a failed exchange silences the row for a full minute from the failure if and only if its reply closed the row, or its transaction began at that instant and no mark begun before it was recorded in the meantime |
| OAuthProtocol.OlderMarkCutsPause | src/mercadolivre_oauth.rs:101-111 | a run in which a mark begun five seconds before a pause ends it five seconds early |
| OAuthProtocol.MarkSilencesIff | src/mercadolivre_oauth.rs:101-111 | in every interleaving, a mark silences the row for its minute if and only if the row then still stores the marked token, is closed, or is paused that long already |
| OAuthProtocol.TokenStays | src/mercadolivre_oauth.rs:136-199 | in every interleaving the stored token changes only with an accepted reply |
| ResponseCache.Cache.Get | src/operations.rs:389-399 | a lookup finds exactly the unexpired record and drops an expired one |
| ResponseCache.Cache.EvictFor | src/operations.rs:412-426 | the eviction loop terminates, evicts oldest first, never once the newcomer fits, and keeps the running total exact |
| ResponseCache.Cache.Insert | src/operations.rs:401-431 | an oversized record changes nothing; any other is stored after evicting as `Inserts` says |
| ResponseCache.Cache.InvalidatePath | src/operations.rs:433-446 | exactly the records of that path go |
| ResponseCache.Cache.Serve | src/operations.rs:455-537 | one request through the middleware is one step of `Serves` |
| ResponseCache.EvictionOrder | src/operations.rs:412-426 | evicted records are no younger than those that stay; putting the last one back would leave no room |
| ResponseCache.NeverSaturatesIff | src/operations.rs:412-414 | in every state the middleware can reach, the saturating budget check decides as exact arithmetic for every body it may store, if and only if the byte budget is below the largest machine word or as many one-mebibyte bodies as there may be entries fit in a word |
| ResponseCache.ValidAlong | src/operations.rs:389-453 | in every run the total equals the sum of the stored bodies and both limits hold |
| ResponseCache.RefinesStep | src/operations.rs:389-453 | every visit keeps the cache inside a map that never forgets |
| ResponseCache.HitsAreCoherent | src/operations.rs:455-537 | in every run a hit repeats, up to the cache header, what the handler last sent for that URI, with no successful write and no refresh of the path since, and within its time-to-live |
| CacheVisits.HitsRepeatAnswers | src/operations.rs:455-537 | in terms of the requests and the handlers' answers alone, a hit repeats the answer to an earlier GET of the same path and query, with its body and headers but for the cache's two, within its time-to-live; since then no write was answered 200 to 299 and nobody asked for a refresh of the path |
| CacheVisits.RepeatIsHit | src/operations.rs:455-537 | after a storable answer the next GET of the same request within its time-to-live is a hit, as long as the visits in between store nothing and are no reason to forget |
| CacheVisits.OthersAreHandled | src/operations.rs:483-536 | any other GET gets the handler's status, body and headers, marked as a miss exactly if the answer is storable |
| CacheVisits.RefreshParameter | src/operations.rs:539-546 | a refresh is asked for exactly if `refresh=true` is one of the parameters of the query |
| RateLimiter.RateLimiter.Allows | src/operations.rs:176-196 | the limiter decides as one that keeps the full log of accepted requests, and records what it accepts |
| RateLimiter.RetainRecent | src/operations.rs:181-186 | the pruning loops keep exactly the recent instants and drop emptied clients |
| RateLimiter.StepIsLog | src/operations.rs:176-196 | pruned queues equal the log cut to the window, refusals are exactly those of the log, and no window is overrun |
| RateLimiter.BudgetKept | src/operations.rs:190-194 | accepting a client with room in its own window overruns no 60-second window |
| RateLimiter.RunIsExact | src/operations.rs:176-196 | over any run in order of time the limiter answers as the ideal one, tracks at most `max_clients` clients and keeps everybody within budget in every window |
| RateLimiter.AcceptedIff | src/operations.rs:176-196 | in every ordered run a call is accepted if and only if its client had fewer than its budget of calls accepted in the last sixty seconds, and had one or fewer than `max_clients` clients had |
| RateLimiter.NoMinuteOverrun | src/operations.rs:176-196 | in every ordered run no client is accepted more often than its budget in any sixty seconds |
| CircuitBreaker.MangaDexCircuitBreaker.AllowsRequest | src/mangadex.rs:102-114 | requests are refused while the circuit is open or a probe is out, and the one let through half-open becomes the probe |
| CircuitBreaker.MangaDexCircuitBreaker.RecordResult | src/mangadex.rs:116-142 | a success closes the circuit; a throttle, a failed probe or the threshold opens it with the scaled and capped cooldown |
| CircuitBreaker.OneAtATime | src/mangadex.rs:207-237 | in every run of `send` at most one caller is past the semaphore |
| CircuitBreaker.OutageBound | src/mangadex.rs:102-142 | in every run, since the latest success: at most `threshold` attempts up to the first opening, only probes after it, and the n-th probe no earlier than the sum of the first n backoffs |
| CircuitBreaker.ProbeInFlight | src/mangadex.rs:207-215 | in every run a request on its way after the first opening is a probe, sent no earlier than all backoffs so far allow |
| CircuitBreaker.CooldownIsBackoff | src/mangadex.rs:132-140 | overflow handling and the saturating opening count do not change the cooldown formula |
| CircuitBreaker.ShippedBackoff | src/mangadex.rs:16-18 | with the shipped constants the waits are 5, 10, 20 and then 40 minutes |
| CircuitBreaker.AdmissionIff | src/mangadex.rs:102-142 | in every run a request is let through if and only if the circuit has not opened since the latest success, or no probe is out and the backoff counted from the latest attempt has passed |
| CircuitBreaker.OutageIs | src/mangadex.rs:118-124 | an outage is what was attempted after the latest success |
| CircuitBreaker.OpeningIs | src/mangadex.rs:126-131 | the attempt that opens the circuit is the first that is throttled or reaches the threshold |
| CircuitBreaker.BackoffIs | src/mangadex.rs:132-140 | each wait is the cooldown times one, two, four and then eight, at most an hour |
| CircuitBreaker.ShippedOutage | src/mangadex.rs:16-18 | with the shipped policy the circuit opens at the third failure in a row at the latest and the probes wait 5, 10, 20 and then 40 minutes |
| CircuitBreaker.SlotsInRun | src/mangadex.rs:161-178 | in every run of `send` slots are not before the request and a quarter of a second apart |
| CircuitBreaker.SentOnTime | src/mangadex.rs:207-217 | in every run a request is sent no sooner than its slot, and during an outage no sooner than the latest wait allows |
| SlotSchedule.ClosedForm | src/mangadex.rs:161-178 | the k-th slot is the greatest of the first free instant plus k intervals and each earlier arrival plus the intervals since |
| SlotSchedule.Spacing | src/mangadex.rs:161-178 | any two slots are as many intervals apart as there are reservations between them |
| SlotSchedule.Earliest | src/mangadex.rs:161-178 | no schedule with that spacing serves anybody sooner |
| SlotSchedule.PerSecond | src/mangadex.rs:14-15 | at most four MangaDex slots and one download slot in any second |
| SlotSchedule.AtOnce | src/mangadex.rs:14-15 | of two requests at once the second waits a quarter of a second, of two downloads a second |
| SlotSchedule.MangaDexRequestLimiter.Acquire | src/mangadex.rs:161-178 | hands out the next slot of the schedule |
| SlotSchedule.DownloadSchedule.WaitForDownloadSlot | src/cover_storage.rs:214-225 | the one-row update hands out the next slot of the same recurrence |
| Offers.DiscountIsNearest | src/mercadolivre.rs:227-234 | a discount is shown exactly for a greater original price, is the nearest whole percentage, and never needs the clamp |
| Offers.BestMatchesFirst | src/mercadolivre.rs:122-125 | the products asked for items are the six best title matches, in order, earlier results first among equals |
| Offers.SearchOffers | src/mercadolivre.rs:122-143 | the search asks the six products with the most matches, fails exactly when one of them cannot be asked, and otherwise returns the best list of offers that stand, field by field, for all sellable items of those products in order |
| Offers.CollectedOrigins | src/mercadolivre.rs:218-248 | every collected offer stands for one item of a visited product field by field, and every item with an id, a currency, a product name and a price from zero up has its offer, in order |
| Offers.SelectOffers | src/mercadolivre.rs:133-136 | sort, reduce and cut return the best list: ascending, one cheapest entry per listing, at most twenty, and nothing cheaper left out |
| Offers.BestIsUnique | src/mercadolivre.rs:133-136 | only one list meets that description, ties included |
| Offers.BestByPrice | src/mercadolivre.rs:133-136 | in terms of prices alone: sorted, each entry cheapest of its listing, every missing listing costs at least the last entry of a full list |

## Left out

- HTTP, SQL execution, routing, image decoding and the file system: the table is a sequence of rows, and upstream replies are parameters.
- Several mangas, concurrent refreshes of one manga, and locally created volumes: one table, one writer.
- VolumeSync.VolumeTable.UpsertVolume: `source_url` and `asset_id` are functions of the file name and are not columns of the model; row ids are positions; the key is given with the cover, and `CoverKeys` ties it to the volume text.
- VolumeSync.VolumeTable.RefreshMangaVolumes: the remote list does not change while it is paged, and the 32-bit offset does not overflow.
- RefreshLimits.ListedVolumeSurvives: its condition can be checked before the refresh; the exact condition for rows that a PATCH (src/manga_service.rs:377-448) or a moved cover put in another volume is that of `VolumeSurvives`, which follows the list cover by cover. PATCH itself is not an operation of the model; tables it leaves are.
- RefreshViolations.RefreshCompletesIff: requires that cover ids keep their slots, which a PATCH or a moved cover can break; for such tables `AnyRefreshCompletesIff` gives the condition cover by cover.
- VolumeKey.NormalizedVolumeKey: single-precision rounding; only plain decimals below 1024 with at most four fractional digits, and whole numbers below 2^24, are modelled, where rounding cannot show. Exponents, longer fractions and greater values are not read; there the round trip fails, since a fraction that rounds to four zeros prints with a bare dot.
- Trimming and lower-casing know ASCII only, and text is ordered by code point rather than by the database's collation.
- Listing.AnswerExists: joins with `cover_assets` and the columns they add are not modelled.
- OAuth.SingleUse: assumes that the server never reissues a refresh token and that a commit follows every reply; a crash between the two, or an operator deleting the row, is not modelled.
- OAuthProtocol.CooldownInEveryRun: application and database share one clock.
- ResponseCache.Cache.Serve: lookup, handler and insertion form one step, so a write that completes between a handler and its insertion is not modelled; nor are bodies that differ from their announced length, and absolute-form URIs.
- ResponseCache.Cache.Insert: a byte budget equal to the largest machine word together with 2^44 or more entries is not modelled, because of what `NeverSaturatesIff` shows; no machine has that memory.
- RateLimiter.RateLimiter.Allows: reading the clock and taking the lock form one step, so calls come in order of time; the client address is given.
- CircuitBreaker.OutageBound: every admitted request records a result; a cancelled request is not modelled.
- SlotSchedule.MangaDexRequestLimiter.Acquire: states the reserved slots, not the instants at which sleepers wake.
- Offers.SearchOffers: the title and volume filters and the counting of matches are not modelled. Prices are real numbers, so negative zero is not told from zero.
- Field validation, bearer tokens, environment parsing, metrics and counters, trigram search, cover retry delays and the queue of cover assets: they would add only easy members.
