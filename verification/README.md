# CompanyOS verification model

A Dafny model of the logic that the CompanyOS services share: exact money arithmetic, the
transactional outbox and its relay, the migration splitter, the policy decision point, key
rotation, the API-key rate limiters, cell routing, the JWT key ring, the chat stream parser,
and printed ids and event subjects.

`dafny verify dfyconfig.toml` checks the whole project.

| file | models |
|---|---|
| `Money.dfy`, `Allocation.dfy` | half-up rounding; largest-remainder allocation, its specification, fairness, optimality, and when it panics |
| `OutboxProtocol.dfy`, `OutboxGuarantees.dfy` | relays, replays, locks, aborts and the broker log as a step relation; what holds over every run |
| `OutboxAnswers.dfy` | what a batch sends, counts and dead-letters, as a function of the publisher's answers |
| `OutboxRelay.dfy` | the relay's loops over its tables, with other relays' transactions open and errors rolled back, proved to be a run of that protocol |
| `SqlSplit.dfy`, `SqlGrammar.dfy`, `SqlMigration.dfy`, `SqlComments.dfy` | the splitter's lexer; an independent grammar it follows; the comment stripping in front of it; when the stripping keeps quoted text whole |
| `Authz.dfy` | decision precedence, conditions, API-key narrowing |
| `Crypto.dfy` | mock KMS, wrapping, rotation and field blobs over arbitrary histories |
| `RateLimit.dfy` | memory and Redis limiters against one counting rule |
| `Region.dfy` | control plane, drills, gateway gate |
| `KeyRing.dfy`, `ChatStream.dfy`, `Names.dfy` | key ring and JWKS; stream parser; ids and subjects |

## Findings

- `allocate_largest_remainder` panics for `i64::MIN` exactly when one share takes everything:
  there is a single non-zero weight, or the non-zero weights are `u64::MAX` followed by 1 (both
  remainders are then one half and the tie goes to the lower index).
  `Allocation.AllocateLargestRemainder` states the equivalence.
- `round_half_up` negates `2^127` for the input `i128::MIN / 1` and for no other: a debug build
  panics there, a release build wraps and still reports overflow (`Money.NegationOverflowsExactly`).
- The comment on `move_to_dlq` says the outbox row stays unpublished until replay; the code
  marks it published, and so does the model.
- The splitter's scan is a fixed point, the whole of `split_sql` is not: the statement of `;--`
  is taken for a comment line once it is joined again. It returns the same list exactly when the
  joined text has no comment line and no carriage return before a line feed
  (`SqlMigration.RejoinThroughStripping`).
- The documentation of `split_sql` calls literals, quoted identifiers and dollar bodies atomic, but
  the stripping takes lines out of them that look like comments
  (`SqlMigration.StrippingCutsQuoted`). The statements are those of the text without its comments,
  with all quoted pieces whole, exactly when no comment line begins inside quotes
  (`SqlComments.StrippingHarmlessExactly`, `SqlComments.PiecesWholeExactly`).
- Narrowing a principal to scopes can widen it below organization scope: a conditional allow
  scoped below the organization takes a role's permission away from the owner, but not from the
  narrowed key. `Authz.NarrowingSoundExactly` gives the exact condition.
- The memory limiter does not count rejected hits and keeps one window per key; Redis counts every
  attempt of every minute. The two give the same verdicts exactly when no limit is raised, after a
  rejection, above the attempts that the key had made in the minute when it was first rejected, and
  no hit returns to a minute of its key that the memory limiter has forgotten
  (`RateLimit.LimitersAgree`). A raise before any rejection is harmless, and so is a clock that
  steps back to a minute in which the key has made no attempt; a minute is forgotten when the key
  has left it, or when its window has been pruned since.
- Each gateway process keeps a control plane of its own. Two gateways of a region with a standby
  admit different cells exactly when their planes disagree on the primary's health
  (`Region.HydratedGateExclusive`).
- The migrations give `outbox_event` and `outbox_dlq` a primary key and no other unique
  constraint. Replays may therefore reuse an idempotency key, and `ON CONFLICT DO NOTHING` can
  only suppress a DLQ insert when a new UUID repeats an old one.

## Assumptions

- New UUIDs and key ids have not been used before. `Crypto.CollisionRevives` shows what a
  repeated key id would do.
- An acknowledged publish is stored by the broker; an error may or may not mean that it was.
- The database gives row locks until commit or abort, `SKIP LOCKED`, and atomic commits.
- AES-GCM decryption undoes encryption and lengthens by 16 bytes; Base64 and UUID parsing undo
  printing; `char::is_alphanumeric` holds of no delimiter and no white space.

## Model

| member | source | states |
|---|---|---|
| Money.RoundHalfUpIsHalfUp | crates/money/src/lib.rs:134-151 | rounding succeeds with r exactly when r is the nearest integer to n/d, ties away from zero, and r fits in an i64; otherwise it reports overflow |
| Money.HalfUpUnique | crates/money/src/lib.rs:130-133 | the rounding rule picks one integer for every rational |
| Money.NegationOverflowsExactly | crates/money/src/lib.rs:138-149 | the one negation that overflows is that of i128::MIN over 1; no other intermediate leaves u128 |
| Money.RoundHalfUpOdd | crates/money/src/lib.rs:143-149 | rounding is odd in the numerator unless the result is i64::MIN |
| Money.ScaleHalfUpExact | crates/money/src/lib.rs:154-166 | with a non-zero denominator, scaling reports overflow exactly when the rounded product is outside i64; the product itself never overflows |
| Money.ZeroDenominator | crates/money/src/lib.rs:134-166 | a zero denominator is reported as overflow |
| Allocation.AllocateLargestRemainder | crates/money/src/lib.rs:174-218 | fails exactly for empty or all-zero weights, panics exactly for i64::MIN with one share taking all, and otherwise returns the one allocation that LargestRemainder describes, in the total's currency |
| Allocation.FloorsOf | crates/money/src/lib.rs:182-193 | the first loop computes every quotient and remainder and their sum, which never exceeds the total, without leaving u128 |
| Allocation.Distribute | crates/money/src/lib.rs:195-207 | one pass over the ranking hands out the whole leftover |
| Allocation.LeftoverMeetsRemainder | crates/money/src/lib.rs:198-207 | while units are left the ranking still offers a share with positive weight, so the zero-weight skip never starves the pass |
| Allocation.Sort | crates/money/src/lib.rs:196-197 | remainders are permuted into descending order, lower index first on ties |
| Allocation.LeftoverBelowRemainders | crates/money/src/lib.rs:186-207 | the leftover is positive and strictly below the number of shares that do not divide exactly, or zero if all do |
| Allocation.ExtraUnitNeedsRemainder | crates/money/src/lib.rs:171-172 | no extra unit goes to a share that divides exactly |
| Allocation.WithinOneUnit | crates/money/src/lib.rs:171-173 | every part is less than one minor unit away from its exact share and lies between zero and the total |
| Allocation.ZeroWeightGetsZero | crates/money/src/lib.rs:202-204 | a zero weight gets zero |
| Allocation.LargerWeightGetsNoLess | crates/money/src/lib.rs:186-207 | a larger weight never gets a smaller magnitude |
| Allocation.EqualWeightsFavourLowerIndex | crates/money/src/lib.rs:196-207 | equal weights differ by at most one unit, in favour of the lower index |
| Allocation.AllocationUnique | crates/money/src/lib.rs:169-173 | the largest-remainder rule leaves no freedom |
| Allocation.AllocationOptimal | crates/money/src/lib.rs:169-218 | the signed parts add up to the total and no other integer split of it has a smaller sum of distances to the exact shares |
| Allocation.TakesAllExactly | crates/money/src/lib.rs:209-216 | some part is 2^63 exactly when the weights have one of the two shapes that make the code panic |
| OutboxProtocol.StepKeeps | crates/outbox/src/relay.rs:109-325 | every step of inserting, claiming, publishing, dead-lettering, replaying, committing and aborting keeps the protocol invariant |
| OutboxGuarantees.Reachable | crates/outbox/src/relay.rs:272-325 | the invariant holds in every reachable state |
| OutboxGuarantees.NoEventLost | crates/outbox/src/relay.rs:167-193 | every committed event stays accounted for through aborts and chains of replays: some row of its chain carries it unchanged and is unpublished, delivered or waiting in the DLQ |
| OutboxGuarantees.RunExtends | crates/outbox/src/lib.rs:46-69 | rows never disappear, change their event or become unpublished again |
| OutboxGuarantees.DeliveredIntact | crates/outbox/src/relay.rs:287-293 | a delivered row was delivered with its event's subject and payload |
| OutboxGuarantees.NothingInvented | crates/outbox/src/relay.rs:287-298 | every delivery goes back to a committed insert with the same subject and payload |
| OutboxGuarantees.DuplicatesAreBounded | crates/outbox/src/relay.rs:285-310 | a row is delivered at most once plus once per aborted batch that held it plus once per delivery reported as an error |
| OutboxGuarantees.AtMostOnceWithoutCrashes | crates/outbox/src/relay.rs:285-310 | without aborts and lost acknowledgements no row is delivered twice, however many relays work |
| OutboxGuarantees.OpenTransactionsDisjoint | crates/outbox/src/relay.rs:114-123 | two open batches never hold the same row, two open replays never the same DLQ row |
| OutboxGuarantees.PublishedIsSettled | crates/outbox/src/relay.rs:190-191 | published means delivered or dead-lettered; a DLQ row copies its row and has been replayed once if marked replayed, otherwise never |
| OutboxGuarantees.GuardsExcludeNothing | crates/outbox/src/relay.rs:229-269 | in reachable states a claimed row is there and unpublished, and a replay can commit unless its new id is taken |
| OutboxGuarantees.LagConservation | crates/outbox/src/relay.rs:131-140 | over every run the backlog is the old one plus inserts and replays minus the rows of committed batches |
| OutboxRelay.SelectOldest | crates/outbox/src/relay.rs:114-123 | selects the oldest unpublished rows that no transaction has locked, as many as there are up to the limit |
| OutboxRelay.ClaimTakesOldest | crates/outbox/src/relay.rs:114-123 | a claimed batch is the oldest available rows, oldest first, and all of them below the limit |
| OutboxRelay.Relay.InsertEvent | crates/outbox/src/lib.rs:46-69 | is the insert step, and is refused exactly when the id exists |
| OutboxRelay.Relay.ReplayDlqRow | crates/outbox/src/relay.rs:229-269 | refuses missing and already replayed rows without any change; otherwise is a lock and a commit step that re-inserts the event under a new id |
| OutboxRelay.Relay.TryPublish | crates/outbox/src/relay.rs:290-312 | the row is published exactly if the publisher acknowledges one of the allowed attempts, at the first one that it does; otherwise all attempts are used and the row is dead-lettered; the messages sent are the answers that were no rejections |
| OutboxAnswers.TriedMeans | crates/outbox/src/relay.rs:291-310 | the attempts for a row end where the publisher's answers say, and succeed exactly if one of them is an acknowledgement |
| OutboxRelay.Relay.PublishBatch | crates/outbox/src/relay.rs:272-325 | is a run of the protocol from any reachable state: it claims the oldest available rows, leaves other transactions and their locks alone, and marks exactly its rows published; it returns the number of rows that the publisher acknowledged, dead-letters exactly the others with their events, and sends the messages of the batch in its order, as often as the publisher stored them; the backlog falls by the batch size; after an error it has changed no table |
| OutboxAnswers.SentSize | crates/outbox/src/relay.rs:285-312 | a batch sends at least one message for every row served and at most one for every attempt |
| OutboxAnswers.HealthyPublisher | crates/outbox/src/relay.rs:285-319 | with a publisher that acknowledges every call, every row counts as published after one call, each message is stored once, and nothing is dead-lettered |
| OutboxAnswers.OneEach | crates/outbox/src/relay.rs:285-299 | then the log grows by one message per row, in batch order |
| OutboxAnswers.RefusingPublisher | crates/outbox/src/relay.rs:300-319 | with one that refuses every call, nothing is stored, no row counts, and every row is dead-lettered after all its attempts |
| OutboxRelay.Relay.RelayOnce | crates/outbox/src/relay.rs:328-350 | is a batch with three attempts per row |
| OutboxRelay.TallyBounds | crates/outbox/src/relay.rs:328-350 | no more ticks succeed than it takes to cover the rows, and no more fail than there are faults |
| OutboxRelay.Relay.Drain | crates/outbox/src/relay.rs:328-350 | repeated ticks, of which those fail that a fault hits, leave nothing of the backlog that other relays do not hold, within the expected number of successful ticks, whatever the publisher does |
| SqlSplit.ScanStatements | services/core/src/lib.rs:35-129 | the loop with its flags computes the recursive scan |
| SqlSplit.SegmentsConserve | services/core/src/lib.rs:43-129 | the untrimmed segments separated by the top-level semicolons are the text |
| SqlSplit.NextLocal | services/core/src/lib.rs:46-109 | lookahead never reaches past a semicolon or white space |
| SqlSplit.WhiteSpaceIs | services/core/src/lib.rs:31-127 | white space is the 25 code points of Unicode's property; no printing ASCII character is |
| SqlSplit.TrimIs | services/core/src/lib.rs:110-128 | trimming takes off white space at both ends, and all of it |
| SqlSplit.Compose | services/core/src/lib.rs:110-117 | text that ends outside quotes can be continued after a semicolon without changing its statements |
| SqlSplit.SplitStatements | services/core/src/lib.rs:110-128 | every statement is trimmed, non-empty and without a top-level semicolon, and all but the last end outside quotes |
| SqlSplit.ResplitFixpoint | services/core/src/lib.rs:35-129 | the joined statements split into themselves, for every text including unterminated quotes |
| SqlSplit.PlainSplit | crates/outbox/src/lib.rs:138-150 | without quotes and dollars the lexer is the naive splitter |
| SqlGrammar.LexerFollowsGrammar | services/core/src/lib.rs:22-25 | printed literals, quoted identifiers, dollar bodies, dollars that open no tag and plain text are cut exactly at the semicolons between them |
| SqlGrammar.GrammarExact | services/core/src/lib.rs:22-25 | the lexer ends outside quotes on exactly the texts the grammar produces |
| SqlMigration.StripKeepsLines | services/core/src/lib.rs:27-33 | the lines of the stripped text are exactly the lines that are no comments, in order |
| SqlMigration.CommentIs | services/core/src/lib.rs:31 | a comment line is white space and then two dashes |
| SqlMigration.KeptAppend | services/core/src/lib.rs:29-33 | whether a line is stripped depends on that line alone |
| SqlMigration.LinesConserve | services/core/src/lib.rs:29-33 | cutting into lines and joining loses only carriage returns before line feeds and a final line feed |
| SqlMigration.NothingStrippedExactly | services/core/src/lib.rs:26-130 | `split_sql` splits the text itself, line ends made uniform, exactly when no line of it is a comment |
| SqlComments.StrippingHarmlessExactly | services/core/src/lib.rs:22-130 | `split_sql` splits the text without its comments exactly when no comment line begins inside quotes |
| SqlComments.PiecesWholeExactly | services/core/src/lib.rs:22-130 | then, and only then, the statements are the pieces of that text, every literal, identifier and dollar body whole, grouped at the semicolons between them |
| SqlComments.FinalFeed | services/core/src/lib.rs:43-109 | a line is read in the mode that the line before it left |
| SqlComments.EndModeIsFinal | services/core/src/lib.rs:27-109 | the mode in front of a line, followed line by line, is the lexer's mode after the text before it without its comments |
| SqlMigration.StrippingCutsQuoted | services/core/src/lib.rs:22-33 | inputs that show the harm: a text that is one literal, identifier or dollar body with a comment line inside is one statement to the lexer, and not what `split_sql` returns |
| SqlMigration.LiteralWithComment | services/core/src/lib.rs:30-31 | there are such literals, one for every comment |
| SqlMigration.UntouchedExactly | services/core/src/lib.rs:27-33 | the stripping leaves exactly those texts alone that have no comment line, no carriage return before a line feed and no final line feed |
| SqlMigration.RejoinThroughStripping | services/core/src/lib.rs:26-130 | splitting the joined statements returns them exactly when the joined text has no comment line and no carriage return before a line feed |
| SqlMigration.StrippingLosesStatement | services/core/src/lib.rs:27-33 | a text whose statement is lost that way |
| Authz.DecisionMeaning | crates/authz/src/lib.rs:758-827 | allowed means no deny, and a satisfied allow or a role without any covering allow; and what each reason code means |
| Authz.ScopesOrdered | crates/authz/src/lib.rs:82-90 | covering is a total order: own below team below department below organization |
| Authz.SingleAllowGrants | crates/authz/src/lib.rs:758-827 | a single unconditional allow grants its permission at exactly the scopes not above its own, and nothing else |
| Authz.LocationMeaning | crates/authz/src/conditions.rs:151-159 | a location condition admits exactly the continuations of allowed locations, or everything if none is listed |
| Authz.DelegationMeaning | crates/authz/src/conditions.rs:161-172 | which delegations a condition refuses: missing ones where one is required or ids are listed, and unlisted ones |
| Authz.RecordStateMeaning | crates/authz/src/conditions.rs:174-186 | which record states a condition refuses: unknown, denied, and unlisted ones |
| Authz.ConditionsConjoin | crates/authz/src/conditions.rs:124-191 | all conditions of a statement must hold; a window without a known time or readable ends never does |
| Authz.TimeWindowIsArc | crates/authz/src/conditions.rs:124-149 | an instant is in a daily window, also across midnight, exactly when it comes less far after the start than the end does around the clock |
| Authz.OrderIrrelevant | crates/authz/src/lib.rs:766-805 | only the set of statements counts |
| Authz.DefaultIsStrongest | crates/authz/src/conditions.rs:87-186 | a condition met by the empty context is met by every context |
| Authz.AllowedEverywhere | crates/authz/src/lib.rs:734-755 | allowed in the default context is the same as allowed in every context, at any scope |
| Authz.NarrowedAllows | crates/authz/src/lib.rs:654-683 | the narrowed principal allows p anywhere exactly when p is among the scopes and allowed organization-wide by default |
| Authz.NarrowingSound | crates/authz/src/lib.rs:674-683 | at organization scope a narrowed key is allowed nothing that its owner is not, in any context |
| Authz.NarrowingSoundExactly | crates/authz/src/lib.rs:674-683 | at any scope that holds exactly when no conditional allow below the organization shadows the owner's role |
| Authz.NarrowingCanWiden | crates/authz/src/lib.rs:676-683 | an owner and a key for which it fails |
| Authz.NarrowingComposes | crates/authz/src/lib.rs:676-683 | narrowing twice is narrowing to the common scopes |
| Authz.StatementsMonotone | crates/authz/src/lib.rs:764-790 | what adding a deny or an unconditional organization allow does to every decision |
| Crypto.UnsealSeal | crates/crypto/src/lib.rs:268-291 | a framed blob decrypts to its plaintext |
| Crypto.UnsealExactly | crates/crypto/src/lib.rs:155-171 | a blob opens only with version byte 1 and room for nonce and tag, and which error it gets otherwise |
| Crypto.KmsExactly | crates/crypto/src/lib.rs:131-171 | which keys wrap and unwrap, and which error says that one does not |
| Crypto.StoredExactly | crates/crypto/src/lib.rs:192-266 | a stored wrap names its key and version; reading one back yields exactly 32 bytes or an error |
| Crypto.MockKms.Revoke | crates/crypto/src/lib.rs:173-180 | marks an existing key revoked and touches nothing else |
| Crypto.MockKms.RotateOrgKey | crates/crypto/src/lib.rs:227-244 | creates, re-wraps, and revokes only after a successful re-wrap |
| Crypto.RotationOutcome | crates/crypto/src/lib.rs:203-244 | rotation fails exactly when the old key is revoked and then changes no existing key; otherwise the new wrap yields the same data key |
| Crypto.RotationPreservesData | crates/crypto/src/lib.rs:227-291 | after any history every wrap with a live customer key yields the data key, which opens every blob ever written, and a wrap with a revoked one yields nothing |
| Crypto.RevokedForever | crates/crypto/src/lib.rs:131-188 | a revoked key never wraps or unwraps again |
| Crypto.CollisionRevives | crates/crypto/src/lib.rs:121-127 | a repeated key id brings a revoked key back |
| RateLimit.ApiKeyRateLimiter.CheckAndHit | services/gateway/src/api_key_auth.rs:97-132 | prunes, restarts the window of a new minute, and counts accepted hits |
| RateLimit.RedisFollowsRule | services/gateway/src/api_key_auth.rs:171-205 | the Redis counter decides by the number of attempts in the minute; expiry never hides one |
| RateLimit.MemoryFollowsRule | services/gateway/src/api_key_auth.rs:102-131 | so does the memory limiter, on every hit of a history, exactly when no limit is raised after a rejection above the attempts made until then and no hit returns to a forgotten minute |
| RateLimit.PruningInvisible | services/gateway/src/api_key_auth.rs:108-111 | pruning changes no count of the current minute |
| RateLimit.PrunedExactly | services/gateway/src/api_key_auth.rs:109-111 | up to 10,000 windows nothing is pruned, above exactly those from before the last minute |
| RateLimit.RedisNumbers | services/gateway/src/api_key_auth.rs:171-205 | Redis reports the limit, the end of the minute, and how many attempts are left, none on rejection |
| RateLimit.MemoryNumbers | services/gateway/src/api_key_auth.rs:97-132 | so does the memory limiter, by the hits it has passed in the window |
| RateLimit.WindowStands | services/gateway/src/api_key_auth.rs:108-118 | the memory limiter has a window for a key exactly if the key was hit and not pruned since, at the minute of its last hit |
| RateLimit.LimitersAgree | services/gateway/src/api_key_auth.rs:97-205 | both give every hit of a history the same verdict and remaining count exactly under that condition, for any clocks, limits and keys |
| RateLimit.OrderedAgree | services/gateway/src/api_key_auth.rs:97-205 | while minutes come in order, exactly when no limit is raised after a rejection |
| RateLimit.FewKeysAgree | services/gateway/src/api_key_auth.rs:97-205 | with no more keys than trigger pruning, in any order, exactly when moreover no key returns to a minute that it has left |
| RateLimit.FixedLimitsAgree | services/gateway/src/api_key_auth.rs:97-205 | while no key's limit is raised within a minute, exactly when no hit returns to a forgotten minute; in order, always |
| RateLimit.MemoryCountsPassed | services/gateway/src/api_key_auth.rs:119-131 | a window counts exactly the hits that the memory limiter has passed since it began |
| RateLimit.MemoryAtMostLimit | services/gateway/src/api_key_auth.rs:102-131 | the memory limiter passes no more hits of a key in a minute than its largest limit for every stay of its window there; while minutes come in order, for one |
| RateLimit.RedisAtMostLimit | services/gateway/src/api_key_auth.rs:171-205 | Redis passes no more hits of a key in a minute than its largest limit, in any order of clocks |
| RateLimit.RaisedLimitDiffers | services/gateway/src/api_key_auth.rs:119-126 | a limit raised after a rejection makes them differ |
| RateLimit.ClockStepBackDiffers | services/gateway/src/api_key_auth.rs:115-118 | so does a key that returns to a minute which it has left |
| Region.EnforceExactly | crates/tenancy/src/region.rs:450-475 | a cell passes exactly when it is the resolved serving cell |
| Region.ResolveExactly | crates/tenancy/src/region.rs:407-446 | which cell serves in terms of region and health alone, and which error says that none does |
| Region.OutcomesExactly | crates/tenancy/src/region.rs:400-475 | which decision and which error the checks return; a cell of unknown health never serves |
| Region.ReplicaPolicies | crates/tenancy/src/region.rs:190-206 | only the US has a standby, in its own region and not its primary |
| Region.ExclusiveAndResident | crates/tenancy/src/region.rs:407-475 | at most one cell passes, it is healthy and in the home region, and EU and AP organizations are served by their primary only |
| Region.DrillsOnlyDegrade | crates/tenancy/src/region.rs:500-536 | drills without recovery move an organization only from primary to standby to nobody |
| Region.ResidencyOverRuns | crates/tenancy/src/region.rs:387-475 | while an organization's region stays the same only cells of that region ever serve it |
| Region.GateScope | services/gateway/src/region_gate.rs:46-87 | which paths are not gated, that a missing region claim is refused, and what a directory miss admits |
| Region.GateAdmits | services/gateway/src/region_gate.rs:46-87 | a gate success on a data-plane path means the claimed region, and with a directory hit the one serving cell |
| Region.HydratedGateExclusive | services/gateway/src/main.rs:554-568 | after registering the claim, gateways with planes of their own admit cells of the claimed region only, and one and the same cell exactly when the region has no standby or their planes agree on its primary |
| Region.DirectoryMissNotExclusive | services/gateway/src/region_gate.rs:70-81 | without a directory entry both US cells pass |
| KeyRing.KeyRing.Upsert | crates/auth-token/src/lib.rs:136-147 | replaces one key, and an active one clears every other flag |
| KeyRing.KeyRing.Retire | crates/auth-token/src/lib.rs:149-157 | clears the flag and, for the active kid, names another flagged key if there is one |
| KeyRing.KeyRing.JwksJson | crates/auth-token/src/lib.rs:174-212 | lists every kid exactly once with its secret, in whatever order the map yields |
| KeyRing.RunKeeps | crates/auth-token/src/lib.rs:136-157 | after any history at most one key is flagged, it is the named one, and no kid has disappeared |
| KeyRing.SecretsAreLastUpserted | crates/auth-token/src/lib.rs:136-171 | after any history the ring holds exactly the kids ever upserted, each with the secret given last |
| KeyRing.SearchFindsNothing | crates/auth-token/src/lib.rs:154-156 | the search for another flagged key, whichever it would take, finds none in a ring that keeps the invariant |
| KeyRing.RetiringActiveLeavesNone | crates/auth-token/src/lib.rs:149-157 | after any history, retiring the signing kid leaves nothing that signs |
| KeyRing.ActiveIsLastActivated | crates/auth-token/src/lib.rs:136-157 | after any history the signing kid is exactly the one activated last, unless retired since |
| KeyRing.InactiveUpsertStillSigns | services/gateway/src/main.rs:242-258 | an inactive upsert of the signing kid clears its flag but keeps it signing |
| ChatStream.StreamChat | apps/web/lib/ai-api.ts:76-126 | for every way of cutting the text into chunks the handler calls are those of its complete lines |
| ChatStream.CallsAreYielded | apps/web/lib/ai-api.ts:88-124 | every handler call comes from a complete data line with a non-empty payload under the event in force that names the handler, parsed for all but tokens; every such line yields one call; calls come in line order |
| ChatStream.YieldsOne | apps/web/lib/ai-api.ts:97-124 | no line asks for two calls |
| ChatStream.LinesAppend | apps/web/lib/ai-api.ts:84-86 | appending text only touches the unfinished last line |
| ChatStream.CallsOnlyGrow | apps/web/lib/ai-api.ts:81-125 | calls are never retracted or reordered as the stream goes on |
| Names.PrefixUnique | crates/ids/src/lib.rs:524-652 | at most one prefix of a well-formed table fits a text |
| Names.IdRoundTrip | crates/ids/src/lib.rs:511-655 | a printed id of any kind parses back, whatever the table's order |
| Names.IdErrors | crates/ids/src/lib.rs:517-655 | which error a text gets that is no id |
| Names.TableOrderIrrelevant | crates/ids/src/lib.rs:646-653 | the order of the table changes no result and no error |
| Names.SubjectRoundTrip | crates/events/src/lib.rs:65-149 | parsing inverts printing exactly for dot-free aggregate and event names, for every u32 version; other subjects are refused |
| Names.ParseSubjectExactly | crates/events/src/lib.rs:129-149 | which texts are subjects: six parts, the first `companyos`, the second an organization id, the last `v` and a version |
| Names.ParseU32Exactly | crates/events/src/lib.rs:139-142 | a version is digits, after one plus at most, that fit in 32 bits |
| Names.SubjectsInjective | crates/events/src/lib.rs:65-79 | different dot-free events have different subjects |

## Left out

- User interface, HTTP routing, proxying, SSE serving, SQL, Redis and NATS clients: input and output; only their effects appear, as steps or parameters.
- AES-GCM, SHA-256, Base64, JWT signatures, random values, clocks: parameters with the laws listed above.
- The permission catalogue, the role templates and the list of id prefixes: finite tables; the role templates are an arbitrary function and the prefixes an arbitrary well-formed table.
- `checked_add`, `checked_sub`, currency codes: one-line arithmetic and tables.
- A DLQ insert suppressed by a repeated UUID: excluded by the assumption on new UUIDs.
- OutboxRelay.Relay.PublishBatch: other transactions may be open while it runs but take no steps of their own until it returns; interleaved steps are in the protocol, whose guarantees hold for every interleaving.
- OutboxRelay.Relay.ReplayDlqRow: begins when no other replay holds the row, because `FOR UPDATE` waits; its rollback is the protocol's abort step.
- OutboxRelay.Relay.Drain: only finitely many ticks fail, because otherwise nothing need ever be published.
- Relay metrics, log messages and error texts: telemetry.
- The fallback from Redis to memory when Redis fails: the two limiters are related to each other, not interleaved.
- u32 overflow of rate-limit counters: counts are unbounded.
- Exceptions thrown by chat handlers, and the UTF-8 decoder in front of the chat stream: chunks are decoded text.
- `PermissionSetCache`, object keys, query guards and other one-branch checks of the tenancy crate: they would add easy members only.
- Wall-clock budgets of the failover drill: timing.
