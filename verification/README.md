# Verified model of the DiWeiWei Nano marketplace services

A Dafny model of the parts of the marketplace backend that carry protocols, state machines or arithmetic, with
proofs of what they guarantee over whole runs. `dafny verify dfyconfig.toml` checks everything.

| Part | Files | Main results |
|---|---|---|
| Refresh tokens over Redis with an in-process fallback | `TokenStore`, `RedisClient`, `AuthSessions`, `AuthService`, `StoreAgreement`, `SessionSafety`, `TokenLiveness`, `TokenReuse`, `AccessTokens` | logout is final under any outages up to two seconds before expiry; single use when Redis stays reachable once it is; exactly when, at any instant, a redeemed token is accepted again; with Redis up a session lives until it expires or is ended, through any chain of refreshes; the two stores answer as one; which logouts revoke an access token |
| Sliding-window limiter | `RateLimit`, `RateLimitBounds` | pruned and evicted deques decide like the full history; window bound; independent keys; Retry-After can be trusted |
| Publishing and moderation | `Catalog`, `Categories`, `Lifecycle`, `Marketplace`, `LifecycleSafety`, `PublishingSafety`, `StatusChanges`, `Decisions`, `FeedbackSafety`, `FeedbackHistory`, `TableSafety`, `ModerationQueue` | exactly which requests succeed and what they leave; every rating and comment is what its history of writes and decisions makes it; cases follow content, published means complete, dates are written once, exact rating cache, clean texts, gap-free category ranks, in every reachable state |
| Rating aggregation | `Sorting`, `Ratings` | median by offset equals median by distribution; rounding and bounds |
| Account lockout | `Lockout` | exactly which attempts succeed or count; however many passwords are guessed, how many get verified; exactly when a login opens |
| Comment sanitiser | `Text`, `Sanitiser` | replacement chains equal one-pass maps; nothing is lost |
| Search cache | `UrlEncoding`, `SearchKey`, `SearchFilter`, `SearchCache` | the key can be decoded, so it is injective; the filter text, read back, admits exactly the wanted documents, and pages tile the results; batched invalidation removes exactly the prefix, and exactly when its count can be trusted after a fault |
| Chat sessions | `ChatSessions` | create-or-get under every interleaving |

## How to read it

Code that updates state in place is a class (`RedisClient.Client`, `AuthService.Service`,
`RateLimit.SlidingWindowRateLimiter`, `Lockout.UserRow`, `Marketplace.Session`, `SearchCache.Redis`). Each method is
proved to make exactly the change a specification function describes; the results about runs are lemmas about those
functions. Many handlers of `Marketplace` follow their specification line by line; the ones that do not, and carry the
refinement, are the two rating syncs, the metadata edit with its deduplication loop, the completeness validator, the
backfill loop and the rollback of a refused review. Times are integer milliseconds, so truncation to whole seconds
stays visible. The clock and the availability of Redis are inputs of every request and fixed for its duration;
requests run one after another, except in `ChatSessions`, where calls interleave at every database statement. Tables
are sequences of rows and the row number is the primary key. Uniqueness of cases, ratings and comments is proved from
the services' own checks, not assumed from the database constraints; a second flag is stopped by the declared
constraint alone, which the model states as an insert that is refused (`Lifecycle.InsertFlag`). Token lifetimes, the
lockout threshold and period, and the limiter's limits are parameters, positive ones. Tokens are values carrying their
id, owner and expiry; a token verifies if it was issued, has the expected type and has not expired. Redis entries and
fallback entries lapse at their expiry instant.

## Where the code and its documentation differ

The model follows the code.

- A refresh token is not strictly single use. `TokenReuse.ReuseExactly` says when a redeemed one is accepted again,
  at every instant of its life, and both of its cases arise. A copy left in the fallback by one outage can be
  accepted again in a second one (`SecondOutageReuse`). And in the last two seconds before expiry, a copy in Redis
  can be accepted after a redemption made in an outage, when the truncated remaining lifetime left no mark or one
  that has lapsed (`LastSecondReuse`). `SessionSafety.SingleUse` gives the outage pattern that excludes both.
- "Tokens cannot be used after logout until they naturally expire" holds up to two seconds before expiry
  (`SessionSafety.LogoutIsFinal`) and always if Redis was up at the logout; after a logout in an outage a Redis copy
  can be accepted in the last two seconds (`TokenReuse.LoggedOutReuse`; the exact condition is
  `LoggedOutReuseExactly`).
- After an outage login, an older live token in Redis shadows the newer fallback one, so the new token is refused
  until the old one lapses (`SessionSafety.ShadowedLogin`; the exact condition is `LoginThenRefresh`).
- The refresh route's description says the original refresh token is returned; the code rotates it, always
  (`SessionSafety.RefreshRotates`, with `FirstRefreshSucceeds` for the existence of such a refresh).
- The logout route promises to blacklist both tokens, but hands `logout_user` an empty access token: the access token
  keeps working until it expires (`AccessTokens.RouteLogoutSparesAccess`). Named, it would be revoked, exactly as
  `NamedLogoutRevokes` says.
- "deleted: no transitions" holds for every route except case review, which does not look at the nano's status
  (`PublishingSafety.DeletedLeftExactly`, `DeletedIsNotTerminal`).
- The takedown route's description says non-public nanos remain unchanged; the code stamps `archived_at` on those that
  have none, and they keep that date (`PublishingSafety.TakedownChangesNothingExactly`, `TakedownStampsDraft`,
  `TakedownDateStays`).
- `_validate_nano_publishable` is documented as a 422 and raises a 400 (`PublishingSafety.ReviewRefusals`).
- The filter's quotes are escaped so that a value stays inside them; a value ending in a backslash does not, because
  its backslash takes the closing quote (`SearchFilter.FilterReadExactly`, `LoneBackslash`).
- `invalidate_search_cache` promises the number of deleted keys; after a fault it answers 0 whatever it has deleted
  (`SearchCache.AnswerIsRight`, `DeletedButNotCounted`).

## Model

| member | source | states |
|---|---|---|
| `RedisClient.Client.FallbackPruneExpired` | app/redis_client.py:16-24 | the pruning loop removes exactly the lapsed entries |
| `RedisClient.Client.FallbackSetValue` | app/redis_client.py:27-33 | prunes, then sets the entry with its expiry, or drops it for a non-positive TTL |
| `RedisClient.Client.FallbackGet` | app/redis_client.py:36-41 | finds exactly the entries that have not lapsed |
| `RedisClient.Client.FallbackGetWithTtl` | app/redis_client.py:48-63 | finds exactly the entries with a whole second left, reports the truncated TTL, and drops an entry in its last second |
| `RedisClient.Client.RedisSetEx` | app/redis_client.py:156-161 | a write to Redis succeeds exactly when Redis is up and the TTL is positive, and otherwise changes nothing |
| `RedisClient.Client.BestEffortResync` | app/redis_client.py:66-75 | copies to Redis when it can, silently nothing otherwise |
| `RedisClient.Client.Store` | app/redis_client.py:146-161 | the token goes to exactly one store, the fallback only when Redis refuses |
| `RedisClient.Client.Get` | app/redis_client.py:164-191 | Redis first; on a miss the fallback entry is returned and copied back with its remaining TTL |
| `RedisClient.Client.Delete` | app/redis_client.py:194-208 | always clears the fallback, and Redis when it is up |
| `RedisClient.Client.Blacklist` | app/redis_client.py:211-225 | marks the token in exactly one store |
| `RedisClient.Client.IsBlacklisted` | app/redis_client.py:228-254 | answer and both stores after the check, resync included |
| `StoreAgreement.BlacklistedIsReported` | app/redis_client.py:211-254 | blacklisted for n seconds with Redis up or down, a check reaching Redis up to n - 1 seconds later says yes, before and after its own resync, whatever calls came between |
| `StoreAgreement.UnlistedIsNotReported` | app/redis_client.py:228-254 | a token never blacklisted is never reported, in either availability |
| `StoreAgreement.CallsGuard` | app/redis_client.py:16-75 | the trace of a blacklisting survives every sequence of store, read, delete, check and prune |
| `StoreAgreement.ReadsResync` | app/redis_client.py:66-75 | a read reaching Redis copies exactly what only the fallback holds, for at most a second less; other reads leave Redis alone |
| `StoreAgreement.KeyTextsDistinct` | app/redis_client.py:155-238 | refresh-token keys and blacklist keys never collide |
| `AuthService.Service.SignAndStore` | app/modules/auth/service.py:424-435 | a new refresh token with a fresh id is issued and stored for the configured lifetime |
| `AuthService.Service.RefreshAccessTokenOf` | app/modules/auth/service.py:390-441 | rotation: blacklist check, verification, stored-token comparison, account check, blacklist with truncated TTL, new token, including what each refusal leaves behind |
| `AuthService.Service.Logout` | app/modules/auth/service.py:564-594 | both tokens blacklisted for their remaining whole seconds, the stored token deleted |
| `AuthService.Service.GetCurrentUser` | app/modules/auth/middleware.py:25-82 | blacklist, then the token itself, then the account; both stores after the check |
| `SessionSafety.LogoutIsFinal` | app/modules/auth/service.py:586-594 | under any outages and for all lifetimes, after a logout presenting refresh token A no refresh at a time up to exp(A) - 2 s redeems A |
| `TokenReuse.ReuseExactly` | app/modules/auth/service.py:401-435 | at any instant, a redeemed token is accepted again if and only if the account is usable, the token unexpired, Redis's availability differs from that at the redemption, and: redeemed with Redis up, the fallback still holds it without a mark; redeemed with Redis down, less than two seconds are left, Redis holds it and no store reports a mark |
| `TokenReuse.RunPersists` | app/redis_client.py:146-208 | what a redemption leaves in the store it used lasts for the rest of the token's life, through every later request |
| `TokenReuse.SecondOutageReuse` | app/redis_client.py:175-191 | a concrete run of the first case |
| `TokenReuse.LastSecondReuse` | app/modules/auth/service.py:430-432 | a concrete run of the second case: redeemed in an outage half a second before expiry, then again through Redis |
| `TokenReuse.LoggedOutReuseExactly` | app/modules/auth/service.py:564-594 | at any instant, a logged-out refresh token is accepted if and only if it was logged out in an outage, less than two seconds are left, Redis is back and still holds it, and no store reports a mark |
| `TokenReuse.LoggedOutReuse` | app/modules/auth/router.py:443-450 | a concrete run in which that happens |
| `SessionSafety.SingleUse` | app/modules/auth/service.py:390-441 | from empty stores, Redis unreachable for an initial stretch and reachable from then on: every refresh token is redeemed at most once |
| `SessionSafety.SingleUseInvariant` | app/redis_client.py:146-208 | the invariant behind it, relating the expiry times of a user's Redis and fallback entries through login, rotation, resync, expiry and logout |
| `SessionSafety.RunKeeps` | app/redis_client.py:16-75 | revocation marks and the absence of a fallback copy survive any later requests |
| `SessionSafety.RunWellFormed` | app/modules/auth/tokens.py:74-83 | no two issued tokens share an id, ids are below the counter, and both stores speak of issued tokens only |
| `SessionSafety.LoginThenRefresh` | app/modules/auth/service.py:232-237 | exactly when the token of a login is redeemable by the next request; it lives its lifetime less a fraction of a second |
| `SessionSafety.RotationThenRefresh` | app/modules/auth/service.py:418-441 | in every run, the token a refresh returns is redeemable by the next request under the very same exact condition, belongs to the same user and lives its configured lifetime |
| `TokenLiveness.StaysRedeemable` | app/modules/auth/service.py:390-441 | with Redis up since its issue by login or refresh, a refresh token is redeemed exactly until it expires, through any requests that do not end its session |
| `TokenLiveness.ChainSucceeds` | app/modules/auth/service.py:418-441 | a chain of refreshes of any length, begun by a login after any run, succeeds throughout with Redis up |
| `TokenLiveness.SupersededIsRefused` | app/redis_client.py:146-208 | superseded through Redis by a login, its own redemption, a logout or a revocation, a token is never redeemed again, under any later outages |
| `TokenLiveness.RevokedReuseExactly` | app/modules/admin/router.py:155-170 | at any instant, a token revoked by an administrator is accepted exactly if the revocation met an outage and Redis is back, still holding it unmarked |
| `SessionSafety.ShadowedLogin` | app/redis_client.py:175-191 | a concrete run in which the token of an outage login is refused |
| `SessionSafety.RefreshRotates` | app/modules/auth/service.py:424-435 | in every run, a refresh returns a token never signed before, for the same user |
| `SessionSafety.FirstRefreshSucceeds` | app/modules/auth/service.py:390-441 | the token of a first login can be refreshed, for all lifetimes and availabilities |
| `AccessTokens.RouteLogoutSparesAccess` | app/modules/auth/router.py:422-470 | after any run whose logouts name no access token, this one is accepted exactly until it expires or the account closes |
| `AccessTokens.IssuedAccessWorks` | app/modules/auth/tokens.py:27-60 | the access token a login or refresh returns is the user's, lives its configured lifetime, and is accepted exactly until then |
| `AccessTokens.NamedLogoutRevokes` | app/modules/auth/service.py:579-584 | a logout naming the access token revokes it exactly when a whole second was left and the mark is read back |
| `RateLimit.SlidingWindowRateLimiter.Create` | app/security/rate_limit.py:19-29 | a limiter exists exactly for positive arguments |
| `RateLimit.SlidingWindowRateLimiter.Prune` | app/security/rate_limit.py:45-48 | the popleft loop keeps exactly the hits inside the window |
| `RateLimit.SlidingWindowRateLimiter.PruneAndDecide` | app/security/rate_limit.py:41-70 | decision, penalty and new deques in terms of the pruned ones; an empty deque is never stored |
| `RateLimit.SlidingWindowRateLimiter.CheckKey` | app/security/rate_limit.py:31-70 | the answer equals the one of a limiter that never forgets a hit, and the deques stay faithful to the full history |
| `RateLimit.SlidingWindowRateLimiter.Reset` | app/security/rate_limit.py:72-75 | clears all counters |
| `RateLimit.CheckKeepsFaithful` | app/security/rate_limit.py:52-70 | recording a check keeps pruned deques and full history in agreement for every later window |
| `RateLimitBounds.WindowBound` | app/security/rate_limit.py:11-17 | every window of the configured length holds at most max_requests allowed hits of a key |
| `RateLimitBounds.AllowedExactly` | app/security/rate_limit.py:57-70 | a check is allowed if and only if fewer than max_requests allowed hits of its key lie in the window before it |
| `RateLimitBounds.RetryAfterExactly` | app/security/rate_limit.py:57-65 | Retry-After is the whole seconds until the oldest counted hit leaves, at least one, or the number of denials in the window since the last allowed hit, if more |
| `RateLimitBounds.KeysIndependent` | app/security/rate_limit.py:41-43 | an answer depends on the key's own checks only |
| `RateLimitBounds.ProjectionGenuine` | app/security/rate_limit.py:41-43 | the checks of one key alone form a history its own limiter would produce |
| `RateLimitBounds.DenialsAreFree` | app/security/rate_limit.py:57-65 | with every denied check struck from a history, wherever it stood, the rest is still a history of the limiter and every later check is decided alike |
| `RateLimitBounds.RetryAfterHonoured` | app/security/rate_limit.py:61-65 | a check r + 1 seconds after a denial that answered r, with no allowed hit in between, is allowed |
| `Lockout.UserRow.AuthenticateUser` | app/modules/auth/service.py:201-226 | success exactly for right credentials on an account that is not locked; a wrong password is refused; only success resets |
| `Lockout.UserRow.RecordFailedLogin` | app/modules/auth/service.py:266-271 | counts the failure and locks from the configured threshold on |
| `Lockout.UserRow.LoginRoute` | app/modules/auth/router.py:295-370 | wrong credentials on an unlocked account raise the count, a locked account stays as it is, success exactly as for authenticate_user |
| `Lockout.AttemptEffect` | app/modules/auth/service.py:201-271 | what an attempt does to the account, told from its inputs and the lock alone: reset, one more failure with the lock from MAX on, or nothing |
| `Lockout.AttemptAnswer` | app/modules/auth/service.py:201-221 | each answer, told from the inputs and the lock alone |
| `Lockout.DeletionUnlocks` | app/modules/admin/service.py:155-157 | an administrator's deletion forgets failures and lock at once |
| `Lockout.LockoutBound` | app/modules/auth/service.py:266-271 | for every threshold and period, over attempts counted by their inputs: without a reset, the i-th failure comes at least (i - MAX) lockout periods after the MAX-th |
| `Lockout.GuessingIsMetered` | app/modules/auth/service.py:201-271 | however many wrong passwords are sent, at most MAX + k are verified before k + 1 lockout periods have passed since the MAX-th |
| `Lockout.StretchInvariant` | app/modules/auth/service.py:201-271 | attempts count the recorded failures and locked_until is one period after the last |
| `Lockout.LoginOpensExactly` | app/modules/auth/service.py:201-226 | right credentials open the account if and only if fewer than MAX failures were recorded or a full period has passed since the last; otherwise nothing changes |
| `Text.StripIdempotent` | app/modules/search/service.py:393-393 | stripping an already stripped query changes nothing |
| `Text.StripRemoves` | app/modules/nanos/service.py:1579-1583 | strip takes all whitespace off both ends and nothing else |
| `Sanitiser.NormalizeIsOnePass` | app/modules/nanos/service.py:669-669 | the two newline replacements equal a one-pass normaliser |
| `Sanitiser.EscapeIsPerCharacter` | app/modules/nanos/service.py:670-670 | the three escape replacements in this order equal a per-character map |
| `Sanitiser.UnescapeEach` | app/modules/nanos/service.py:670-670 | unescaping inverts escaping |
| `Sanitiser.AcceptedIsStorable` | app/modules/nanos/service.py:667-682 | an accepted comment has 1 to 1000 characters, no markup or carriage return, and unescapes to the normalised text |
| `Decisions.PlainTextIsKept` | app/modules/nanos/service.py:667-682 | text without markup, carriage returns or outer whitespace is stored as written |
| `UrlEncoding.Utf8RoundTrip` | app/modules/search/service.py:401-401 | UTF-8 decoding inverts encoding for every text |
| `UrlEncoding.QuotePlusRoundTrip` | app/modules/search/service.py:401-401 | percent-decoding inverts quoting, whose output contains neither separator |
| `UrlEncoding.QuotePlusPlain` | app/modules/search/service.py:401-401 | unreserved characters stand for themselves and a space becomes a plus |
| `UrlEncoding.ParseInverts` | app/modules/search/service.py:401-401 | any list of pairs can be read back from its encoding |
| `SearchKey.KeyParamsSorted` | app/modules/search/service.py:401-401 | the listed parameter order is the sorted one |
| `SearchKey.DecodeInverts` | app/modules/search/service.py:382-402 | the normalised parameters can be read back from the cache key |
| `SearchKey.KeyInjective` | app/modules/search/service.py:382-402 | two searches share a key if and only if their stripped queries and all other parameters agree, absent like empty |
| `SearchKey.BuildRequest` | app/modules/search/service.py:335-374 | stripped query, limit, offset (page - 1) * limit, and a filter that depends on the normalised parameters only |
| `SearchKey.EqualKeysSameRequest` | app/modules/search/service.py:534-567 | equal keys stand for the same backend request |
| `SearchFilter.PagesTile` | app/modules/search/service.py:364-369 | page 1 starts at result 0, each page where the one before it ended, and every result is on exactly one page |
| `SearchFilter.FilterMeans` | app/modules/search/service.py:335-363 | a document passes the filter, read back from its text, if and only if it is published and meets the category, level, duration and language given |
| `SearchFilter.FilterReadExactly` | app/modules/search/service.py:341-362 | the text is read back as meant if and only if neither category nor language ends in a backslash |
| `SearchFilter.LoneBackslash` | app/modules/search/service.py:341-344 | a category for which it is not |
| `SearchCache.Redis.Delete` | app/modules/search/service.py:457-457 | a delete call of 1 to 200 names removes them and counts those present once |
| `SearchCache.Redis.Invalidate` | app/modules/search/service.py:436-470 | without a fault exactly the keys under the prefix disappear, in calls of at most 200, and the result is their number; after a fault in scan or delete the whole batches before it are gone and the answer is 0 |
| `SearchCache.EveryAnswerIsDropped` | app/modules/search/service.py:401-448 | every key a search is cached under is under the prefix, so a faultless invalidation removes it |
| `SearchCache.OnlyThePrefixGoes` | app/modules/search/service.py:448-458 | faults or not, nothing outside the prefix disappears and no more is reported than is gone |
| `SearchCache.AnswerIsRight` | app/modules/search/service.py:460-470 | for a scan that starts with a present key, the answer is the number removed if and only if no delete was answered before a fault |
| `SearchCache.DeletedButNotCounted` | app/modules/search/service.py:465-470 | a concrete scan whose deletions are answered with 0 |
| `ChatSessions.AllCallsAgree` | app/modules/chat/service.py:61-133 | under every interleaving, finished calls of one participant return the one session that exists |
| `ChatSessions.AtMostOneCreates` | app/modules/chat/service.py:108-133 | at most one call reports a new session, exactly one if there was none before |
| `ChatSessions.CreatorNeverCreates` | app/modules/chat/service.py:92-97 | creators create no session, and nobody does for an unpublished nano |
| `ChatSessions.CreatorFindsSession` | app/modules/chat/service.py:79-97 | under every interleaving, a creator whose nano already had a session is answered with a session of that nano, never a refusal |
| `ChatSessions.RunKeepsInvariant` | app/models/__init__.py:458-469 | both table constraints hold and creations equal new rows, after any schedule |
| `ChatSessions.ThreeTurnsFinish` | app/modules/chat/service.py:99-133 | a call finishes within three of its own statements whatever the others do |
| `Ratings.CalculateAggregation` | app/modules/nanos/service.py:442-515 | average, offset median, count and distribution of the approved scores |
| `Ratings.CountRows` | app/modules/nanos/service.py:501-508 | the loop over the grouped rows yields every score's count, zero when absent |
| `Ratings.AggregationConsistent` | app/modules/nanos/service.py:466-508 | the median equals the one read off the distribution, which sums to the count and whose weighted sum is the sum of scores |
| `Ratings.AggregationBounds` | app/modules/nanos/service.py:464-491 | average and median lie between the least and the greatest score |
| `Ratings.AverageIsNear` | app/modules/nanos/service.py:464-464 | the rounded average is within half a cent of the mean |
| `Ratings.QuantizeNearest` | app/modules/nanos/service.py:397-399 | quantisation gives the nearest cent, ties upwards |
| `Categories.Deduplicate` | app/modules/nanos/service.py:1246-1251 | the loop equals keeping first occurrences |
| `Categories.DeduplicatedFacts` | app/modules/nanos/service.py:1246-1251 | same members, no repeats, same first element |
| `Categories.DeduplicatedOrder` | app/modules/nanos/service.py:1246-1251 | first occurrences keep their order |
| `Categories.AssignCategories` | app/modules/nanos/service.py:1267-1282 | old rows of the nano go, new rows are ranked 0, 1, 2, ... |
| `Categories.ReassignedFacts` | app/modules/nanos/service.py:1267-1282 | the nano has exactly the deduplicated categories in order, every other nano keeps its own |
| `Categories.PrimaryCategories` | app/modules/search/service.py:158-160 | setdefault keeps the first row of each nano |
| `Categories.DocumentShowsFirst` | app/modules/search/service.py:148-160 | a nano with ranked categories is shown under the one ranked first |
| `Categories.FirstRequestedIsShown` | app/modules/search/service.py:148-173 | built right after the assignment, the search document carries the first requested category, none for an empty list |
| `Marketplace.Session.UpsertModerationCase` | app/modules/moderation/service.py:92-144 | insert, or reset to pending without old decision data |
| `Marketplace.Session.InsertMissingCases` | app/modules/moderation/service.py:304-348 | a pending case for exactly the ids without one, and their number |
| `Marketplace.Session.OpenQueueFor` | app/modules/moderation/service.py:176-301 | when and for which content types the queue backfills |
| `Marketplace.Session.SyncAfterReview` | app/modules/moderation/service.py:739-772 | the moderation sync writes count and average of the approved scores |
| `Marketplace.Session.SyncNanoRatingCache` | app/modules/nanos/service.py:518-523 | the nanos sync writes the same values |
| `Marketplace.Session.UploadNano` | app/modules/upload/service.py:92-108 | a new draft with a title of at most 200 characters |
| `Marketplace.Session.UpdateNanoMetadata` | app/modules/nanos/service.py:1112-1293 | the edit, its refusals, and nothing changed on a refusal |
| `Marketplace.Session.PatchMetadata` | app/modules/nanos/service.py:1162-1235 | the partial update field by field, and which nulls are refused |
| `Marketplace.Session.UpdateNanoStatus` | app/modules/nanos/service.py:1296-1429 | role checks, transition table, unpublish window, completeness, dates, case |
| `Marketplace.Session.MissingFields` | app/modules/nanos/service.py:1567-1595 | lists exactly the missing fields, none if and only if the metadata is complete |
| `Marketplace.Session.AdminTakedownNano` | app/modules/nanos/service.py:1432-1509 | afterwards the nano is not public and has an archive date; what is reported |
| `Marketplace.Session.DeleteNano` | app/modules/nanos/service.py:1699-1778 | soft delete of the creator's own draft or archived nano |
| `Marketplace.Session.CreateNanoRating` | app/modules/nanos/service.py:526-581 | new pending rating, cache, case |
| `Marketplace.Session.UpdateNanoRating` | app/modules/nanos/service.py:584-630 | rating back to pending, cache, case reopened |
| `Marketplace.Session.ModerateNanoRating` | app/modules/nanos/service.py:1014-1061 | verdict and cache, the case untouched |
| `Marketplace.Session.CreateNanoComment` | app/modules/nanos/service.py:815-861 | new pending sanitised comment and case |
| `Marketplace.Session.UpdateNanoComment` | app/modules/nanos/service.py:967-1011 | comment replaced, back to pending, case reopened |
| `Marketplace.Session.ModerateNanoComment` | app/modules/nanos/service.py:1064-1109 | verdict, the case untouched |
| `Marketplace.Session.CreateNanoFlag` | app/modules/nanos/service.py:864-940 | the service's own refusals, then an insert whose refusal is a conflict, then the case |
| `Marketplace.Session.FlushFlag` | app/models/__init__.py:900-911 | the declared constraint: an insert succeeds exactly if the user has no flag on the nano, and changes nothing otherwise |
| `Marketplace.Session.ApplyDecisionToContent` | app/modules/moderation/service.py:543-736 | what each decision does to each kind of content |
| `Marketplace.Session.ReviewModerationCase` | app/modules/moderation/service.py:401-535 | case and content change together, or neither does |
| `Decisions.RatingsAccepted` | app/modules/nanos/service.py:526-1061 | exactly when a rating is created, updated and decided |
| `Decisions.CommentsAccepted` | app/modules/nanos/service.py:815-1109 | exactly when a comment is created, replaced and decided |
| `Decisions.FlagsAccepted` | app/modules/nanos/service.py:864-940 | exactly when a flag is accepted, and the row it leaves |
| `Decisions.UpsertRow` | app/modules/moderation/service.py:117-144 | the case of content entering review: pending, nothing decided, reporter and creation time kept; every other case as it was |
| `Decisions.ReviewIsRecorded` | app/modules/moderation/service.py:463-478 | the case after an accepted review, field by field, for each decision |
| `Decisions.ContentDecided` | app/modules/moderation/service.py:579-736 | the content after an accepted review: approved or hidden with the moderator's verdict, published or drafted, resolved, closed or reviewed; deferrals, escalations and all other rows change nothing |
| `Decisions.RatingDecided` | app/modules/nanos/service.py:1014-1061 | the older route: that rating approved or hidden with the moderator's verdict, no other row and no case |
| `Decisions.CommentDecided` | app/modules/nanos/service.py:1064-1109 | the same for comments |
| `LifecycleSafety.UpsertFacts` | app/modules/moderation/service.py:117-144 | at most one case per content; this one pending, every other case status kept |
| `LifecycleSafety.RunKeepsCases` | app/modules/moderation/service.py:463-736 | in every reachable state: one case per content, every pending nano, rating and comment has an open case, each flag's status is a function of its case's, decision data match the case status |
| `LifecycleSafety.StepKeepsCases` | app/modules/nanos/service.py:526-1429 | every request of either service preserves that |
| `LifecycleSafety.NeedsNoBackfill` | app/modules/moderation/service.py:240-301 | in such states backfill inserts nothing |
| `PublishingSafety.PublishedIsComplete` | app/modules/nanos/service.py:1386-1397 | in every reachable state, by both publishing routes, a published nano has complete metadata and a date |
| `PublishingSafety.StampsWriteOnce` | app/modules/nanos/service.py:1393-1397 | published_at and archived_at never change once set, over whole runs |
| `PublishingSafety.RetiredStaysRetired` | app/modules/nanos/service.py:1512-1564 | over any run without a review of its case, an archived or deleted nano is never published or edited again, and a deleted one stays deleted |
| `PublishingSafety.MetadataOnlyInDraft` | app/modules/nanos/service.py:1144-1156 | metadata changes only by the creator's edit of a draft |
| `PublishingSafety.StatusFollowsTable` | app/modules/nanos/service.py:1512-1564 | outside case reviews, whatever the route, a status moves along the table only, which ChangeStatusExactly spells out; it is published by moderators only and unpublished within 24 hours only |
| `StatusChanges.ChangeStatusExactly` | app/modules/nanos/service.py:1330-1397 | which status changes are not found, forbidden and successful, with the ten transitions, the 24 hours and the metadata listed |
| `StatusChanges.ChangeStatusEffect` | app/modules/nanos/service.py:1386-1407 | status, dates, case and everything else after a successful change |
| `StatusChanges.SubmitThenApprove` | app/modules/nanos/service.py:1370-1407 | submitting and approving publishes every complete draft, by either route |
| `StatusChanges.UploadStarts` | app/modules/upload/service.py:92-108 | an upload appends one undated, unrated, incomplete draft with the title cut at 200 characters |
| `StatusChanges.EditExactly` | app/modules/nanos/service.py:1112-1160 | exactly when a metadata edit succeeds |
| `StatusChanges.EditStores` | app/modules/nanos/service.py:1162-1284 | every given field is stored, nulls clear, all else stays |
| `StatusChanges.DeleteExactly` | app/modules/nanos/service.py:1699-1778 | exactly when a deletion succeeds, and that it changes the status only |
| `PublishingSafety.ReviewIgnoresStatus` | app/modules/moderation/service.py:595-607 | a review sets the status from decision and metadata alone |
| `PublishingSafety.DeletedLeftExactly` | app/modules/nanos/service.py:1537-1537 | a deleted nano leaves that status if and only if its case is rejected, or approved with complete metadata |
| `PublishingSafety.DeletedIsNotTerminal` | app/modules/moderation/service.py:602-603 | a run in which it does |
| `PublishingSafety.RefusedChangesNothing` | app/modules/moderation/service.py:509-510 | any answer but success leaves every table as it was |
| `PublishingSafety.RefusalsLeaveNoTrace` | app/modules/moderation/service.py:509-510 | striking the refused requests from any run leaves its outcome, and every remaining one is accepted |
| `PublishingSafety.ReviewRefusals` | app/modules/moderation/service.py:610-636 | a review with a valid decision is refused with 404 exactly for a missing case and with 400 exactly for approving an incomplete nano, never with 422 |
| `PublishingSafety.TakedownChangesNothingExactly` | app/modules/nanos/service.py:1432-1509 | a takedown changes nothing if and only if the nano is not public and already has an archive date |
| `PublishingSafety.TakedownDateStays` | app/modules/nanos/service.py:1458-1467 | the date stamped by a takedown is the one the nano keeps over every later run |
| `PublishingSafety.TakedownStampsDraft` | app/modules/nanos/router.py:972-977 | a draft that a takedown changes, and that carries the takedown's date when it is archived later |
| `FeedbackSafety.RatingCacheExact` | app/modules/moderation/service.py:739-772 | in every reachable state rating_count is the number of approved rows of the nano and average_rating the cent nearest to their mean score, ties upwards, zero when none; each user rates a nano once |
| `FeedbackSafety.RunKeepsCache` | app/modules/nanos/service.py:518-630 | over whole runs, whichever sync routine wrote last, every cache holds what aggregating the approved scores gives |
| `FeedbackSafety.StepKeepsCache` | app/modules/nanos/service.py:518-630 | every request preserves the exact cache of every nano |
| `FeedbackSafety.CacheValuesAreMean` | app/modules/moderation/service.py:739-772 | what the sync routines aggregate is the number of approved rows and the cent nearest to their mean score |
| `FeedbackHistory.RatingIsItsHistory` | app/modules/nanos/service.py:526-1061 | in every reachable state the whole row of a rating is what its history of accepted writes and decisions, by either route, leaves |
| `FeedbackHistory.RatingStatusIsLastWord` | app/modules/moderation/service.py:646-675 | a rating is approved (hidden) if and only if the last accepted decision since it was last written was an approval (a rejection), and pending if and only if there was none |
| `FeedbackHistory.CommentIsItsHistory` | app/modules/nanos/service.py:815-1109 | the same for the whole row of a comment, its stored text included |
| `FeedbackHistory.CommentStatusIsLastWord` | app/modules/moderation/service.py:678-710 | the same three equivalences for comments |
| `TableSafety.TablesStayConsistent` | app/modules/nanos/service.py:526-1109 | in every reachable state one rating and comment per user and nano by the services' checks and one flag by the declared constraint, no flag on an own nano, and a verdict exactly on decided feedback |
| `TableSafety.OnlyConstraintStopsSecondFlag` | app/modules/nanos/service.py:864-940 | after an accepted flag the same request passes every check of the service; only the insert refuses it |
| `FeedbackSafety.StoredTextsClean` | app/modules/nanos/service.py:838-846 | every stored comment and flag comment is clean and within the limit |
| `FeedbackSafety.CategoriesStayRanked` | app/modules/nanos/service.py:1267-1282 | in every reachable state at most five distinct categories per nano, ranked from 0, and the document shows rank 0 |
| `FeedbackSafety.RequestedCategoryStays` | app/modules/search/service.py:148-173 | after an accepted edit, every document built later carries the first requested category, through any run without another accepted category edit of that nano |
| `ModerationQueue.BackfillFacts` | app/modules/moderation/service.py:240-348 | on any database with unique cases: existing cases kept, unique, and a pending case for exactly the awaiting content without one |
| `ModerationQueue.BackfillIdempotent` | app/modules/moderation/service.py:240-348 | a second run inserts nothing |
| `ModerationQueue.OpeningBackfills` | app/modules/moderation/service.py:176-301 | opening the queue for all or pending cases gives every awaiting content of the listed kinds a case; opening it for another status changes nothing |
| `ModerationQueue.GetModerationQueue` | app/modules/moderation/service.py:183-237 | items and pagination data of a page |
| `ModerationQueue.HasNextExactly` | app/modules/moderation/service.py:202-234 | has_next_page is true exactly when the next page is non-empty |
| `ModerationQueue.PagesCoverQueue` | app/modules/moderation/service.py:184-202 | the pages together list every matching case once, by creation time and id |

## Left out

- Token lifetimes, lockout thresholds and lockout periods of zero or less, which the settings do not forbid.
- How the search backend parses and matches a filter: `SearchFilter` reads a backslash before a quote as part of the value and compares values exactly.
- HTTP routing, request schemas beyond the limits the services rely on, dependency injection, metrics, logging, configuration.
- JWT signing, bcrypt and UUID generation: issued tokens are fresh by a counter, password verification is an input.
- Fallback entries without expiry: the dictionary type allows them, no code path stores one.
- Process restart, several worker processes, loss of Redis data, and Redis availability changing inside a request.
- Account lookup by email: `Lockout` is about one account; an unknown email changes nothing in the source. Concurrent logins to one account.
- SQL and ORM behaviour: the database average is exact, transactions are serial except in `ChatSessions`.
- `ChatSessions` is modelled on values rather than as a class, because its calls interleave inside the method; the nano's publication status is fixed during the race, and calls concern one nano.
- The `String(500)` column width of a flag comment, which the length check of 1000 does not enforce; flag reasons, which no decision reads.
- Hard account deletion with its cascade, which removes ratings without a cache sync; the rest of the deletion flow.
- Audit-log rows and nested savepoints, the content details attached to queue items, the other fields of a search document.
- Meilisearch calls, object storage, mail delivery, ZIP validation, password strength and username validators, the chat message routes and their spam filter, the frontend.
