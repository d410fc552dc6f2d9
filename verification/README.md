# Loyalty platform: verified model

A Dafny model of the stateful cores of a loyalty platform, with proofs about them. `dafny verify
dfyconfig.toml` checks everything.

**The ledger.** Cashback and points share one ledger: a balance per client and program, an
append-only log, rewards with stock, and redemptions. `Ledger` gives the meaning of each
transactional operation as a function on tables; `LedgerRepository` runs the statements one by one,
with rollback, and is proved to take exactly those steps; `CashbackService` and `EarnBurnService`
are the services above it. The theorems are about all runs: what a balance is (`LedgerBalances`),
the period cap in every window (`LedgerCaps`), lazy expiry (`LedgerExpiry`), one credit per ticket
and one expiry per earn (`LedgerUniqueness`), stock (`LedgerStock`) and conservation
(`LedgerConservation`), the life of a redemption (`LedgerRedemptions`), and when each operation
succeeds and what it leaves, row by row (`LedgerSteps`); `CashbackRuns` says what the service adds
up to in a program's own settings. `BurnInterleaving` breaks burns into statements under row locks
and reduces every interleaving to a serial run; `CapInterleaving` and `ExpiryInterleaving` do the
like with earns and expiries, whose reads take no lock, and say when the period cap and the single
expiry survive. `Accrual` is the rounding, `Receipts` the fingerprint that makes a ticket unique.

**Around it.** `RateLimit` is the in-memory limiter with its in-place compaction, against a naive
limiter that never forgets; `PasswordReset` and `AdminService` compose two of them with reset
tokens, and `PasswordRuns` says when a reset works. `IdentityCodes` and `IdentityService` are the
short-lived codes that identify a client, `Pushcard`, `PushcardExpiry`, `PushcardService` and
`PushcardRedemption` the stamp cards, `Routing`, `FlowEngine` and `FlowAnswers` the conversational
flows, `Phone` and `Deeplink` the agreement of two spellings and of printer and parser,
`FeatureFlags` and `FeatureFlagService` the cached flags.

## Where code and documentation part

The model follows the code. These are the places where the two disagree, or where a property
one would expect holds only under a condition; the lemmas are named.

- Points never expire. `migrations/000006_create_earnburn.up.sql:15` does not admit rows of type
  'expiration' and no later migration does, so every expiry with something due is rolled back and
  the balance query falls back on the stored balance (`EarnBurnNeverExpires`).
- The comments at `internal/modules/cashback/repository.go:649-656` and
  `internal/modules/cashback/service.go:75-78` call the period cap atomic. It is when an earn is
  one step. Under read-committed isolation the window sum is read without a lock. When each earn
  shares a window with the rows it counts, as it does when earns commit in the order of their
  dates, the cap is kept exactly when each is overtaken by none, or the room it read holds those
  that overtook it and all it asked for (`CapIffCovered`, `TwoEarnsExceedCap`).
- Expiry is called idempotent (`internal/modules/cashback/repository.go:284-285`). No index covers
  the marker, so two expiries that select before either writes take the same earns twice
  (`ExpiresOnceIffFresh`, `TwoExpiriesTakeTwice`).
- A finite stock cannot be lowered below what has been redeemed: the constraints of
  `migrations/000029_reward_stock.up.sql:27-29` refuse it (`StockUpdateAllowed`).
- A correction is always measured against the original earn, so a second correction adds to the
  first (`CorrectionsAddUp`) and no cap holds one back (`CorrectionReplacesEarn`). Expiry takes back the full amount of an earn even when part of it
  was spent (`ExpiryBalance`).
- The comment at `internal/modules/pushcard/service.go:151-153` says that undo reverts a completed
  card to open. It leaves the card done with one stamp too few and opens a second card
  (`UndoDoneBreaks`, `UndoExactly`).
- A confirmation is said to mark its card redeemed (`internal/modules/pushcard/service.go:243-244`).
  Several codes can be out for one card: each is confirmed, and only the first redeems it
  (`TwoCodesConfirmTwice`). Codes are given out from the fifty completed cards updated last, so a
  client can be crowded out (`FoundIffNearTheTop`).
- The comment at `internal/admin/ratelimit.go:17` says "fixed-window". The limiter is a sliding
  log; refused calls are not recorded.
- "At most five live tokens per email" holds exactly when no time passes between the limiter's and
  the token's clock reading in one request (`FiveIffNoGap`).
- A password-reset request reports that the mail failed or the token clashed, which an unknown
  email never does (`AnswerHidesEmail`).
- One identity code per client depends on cache accesses whose failures are ignored or only logged:
  reading the tracker, dropping the old code and its tracker, and writing the new tracker
  (`StepKeepsTracked`, `TwoRequestsTwoCodes`).
- Phone sameness is transitive except through numbers with a second plus before a thirteen- or
  twelve-digit spelling, and each of those breaks it (`BreaksIffTroubles`). A number of nothing but
  spaces and a plus does not even match itself (`SelfIffNotBlank`).
- Two different tickets can share a digest, exactly when a part of one holds the separator
  (`BarFreeIffUnmistakable`, `ExtractsCollide`).
- The deep-link parser finds the marker in the folded text and slices the original at that byte,
  which is right exactly when folding keeps the length of what comes before the marker; text that
  folding lengthens enough puts the slice out of range (`SliceIffLengthKept`, `LongFoldLeavesRange`).
- A feature flag update is visible at once if its cache entry is dropped; dropping it can fail
  silently, and then the entry lives out its minute (`UndroppedUpdateLingers`,
  `CoherentThroughoutIff`).

## How things are represented

- Amounts are whole cents or points. Purchases, rates and caps are exact real numbers, so that the
  floors at `internal/modules/cashback/service.go:46` and
  `internal/modules/cashback/repository.go:677` mean something; floating-point rounding is not
  modelled.
- Instants are whole nanoseconds. A clock reading is a parameter wherever the source takes one, so
  a request that reads the clock twice has two; random codes and generated identifiers are
  parameters too, and may collide.
- Tables are maps and sequences. Unique indexes and check constraints of the migrations are part
  of the operations. Rows a query returns without an order come in any order.
- SHA-256 is a constructor, hence injective. Date parsing and case folding are parameters; laws
  assumed of them are stated as predicates on the parameter.
- Cache entries are live strictly before their expiry. Keys of different prefixes are kept apart.
- `Receipts` reads text as Unicode characters, `Phone` and `Deeplink` as bytes. In `Receipts`
  folding is per character.
- Stamp cards are named by their position in the card table.

## Model

| member | source | states |
|---|---|---|
| LedgerBalances.BalanceIsLargestSuffixSum | internal/modules/cashback/repository.go:286-351 | after any run of earns, burns, corrections, expiries, confirmations and stock changes a balance is the largest suffix sum of the account's logged amounts; so it is never negative, never below their sum, and exceeds it by minus the lowest prefix sum |
| LedgerBalances.BalanceIsLastLogged | internal/modules/cashback/repository.go:685-695 | an account's stored balance is the `balance_after` of its last logged row |
| LedgerBalances.LargestSuffixLowestPrefix | internal/modules/cashback/repository.go:685-686 | flooring at zero after each amount is the same as lifting the whole sum by its lowest prefix |
| Ledger.StepPosts | internal/modules/cashback/repository.go:657-716 | every successful operation but an expiry posts at most one row, floored, and nothing else on balances and log |
| LedgerCaps.ClampIsLargestFit | internal/modules/cashback/repository.go:661-682 | a capped request is credited the largest whole amount within both the request and the room left, and refused exactly when that is not positive |
| LedgerCaps.NoWindowExceedsCap | internal/modules/cashback/repository.go:661-682 | though each earn checks only the window ending at it, no closed window of the whole run, wherever it ends, holds earns above the cap |
| LedgerSteps.CappedEarnExactly | internal/modules/cashback/repository.go:657-716 | after any run a capped earn, in raw rows: refused for the cap exactly when it asks for nothing or less than a cent is left of the window that ends now; else for a taken id or receipt; else credited the largest whole amount within request and room, with the tables that follow spelled out |
| CapInterleaving.CapIffCovered | internal/modules/cashback/repository.go:657-716 | in any interleaving of the read and the write of earns, each dated in one window with the rows it counts, every window stays within the cap exactly when each write was covered: nothing overtook it since its read, or the room it read holds what did and all it asked for |
| CapInterleaving.LatestSharesWindow | internal/modules/cashback/repository.go:663-671 | earns that commit in the order of their dates share such a window |
| CapInterleaving.CoveredKeepsCap | internal/modules/cashback/repository.go:657-716 | covered writes keep every window within the cap in any order of dates |
| CapInterleaving.CoveredIffAtomic | internal/modules/cashback/repository.go:661-682 | a write is covered exactly when the earn done as one step at that moment would be credited the same |
| CapInterleaving.TwoEarnsExceedCap | internal/modules/cashback/repository.go:657-716 | two earns that each fit the empty window but not together, both reading it before either writes, leave a window above the cap |
| LedgerExpiry.ExpiryOutcome | internal/modules/cashback/repository.go:286-351 | an expiry succeeds exactly when all its marker rows can be written; then it appends one marker per due earn and touches no reward or redemption |
| LedgerExpiry.ExpiryBalance | internal/modules/cashback/repository.go:322-334 | whatever order the rows come in, the loop leaves max(0, balance - total due) and no other account changes |
| LedgerExpiry.ExpiryMarks | internal/modules/cashback/repository.go:336-343 | after a successful expiry exactly the earns marked before and the due ones are marked |
| LedgerExpiry.ExpiryIdempotent | internal/modules/cashback/repository.go:298-320 | right after an expiry nothing is due at the same cutoff |
| LedgerExpiry.StagedExpiry | internal/modules/cashback/repository.go:286-351 | expiring early and then later gives the same balances and marks as expiring once at the later time |
| LedgerExpiry.EarnBurnNeverExpires | internal/modules/earnburn/repository.go:233-300 | on the points tables an expiry with anything due is always refused and changes nothing |
| LedgerSteps.HandledRows | internal/modules/cashback/repository.go:289-298 | the rows an expiry of n days handles are exactly the logged earns of the account with a positive amount, older than n days, that no expiration row names |
| LedgerSteps.ExpiryExactly | internal/modules/cashback/repository.go:286-351 | a successful expiry logs rows that take back in full exactly such earns, and afterwards every earn of the account older than n days is named by one |
| LedgerSteps.ExpiryTakesExactly | internal/modules/cashback/repository.go:322-334 | after any run it takes the sum of those earns from the balance, floored once at zero, and from no other account |
| LedgerSteps.ExpirationsNameOldEarns | internal/modules/cashback/repository.go:289-343 | over any run every expiration row takes back in full an earn of its account that was older than the days of the expiry that logged it |
| LedgerUniqueness.EachEarnExpiresOnce | internal/modules/cashback/repository.go:298-343 | over a whole run of expiries done as one step each, every expiration row takes back in full an earlier earn of its own account, which no other expiration row takes back |
| ExpiryInterleaving.ExpiresOnceIffFresh | internal/modules/cashback/repository.go:286-351 | when other expiries may commit between the select and the writes of one, each earn is expired at most once exactly when every expiry that commits finds all its rows still unexpired |
| ExpiryInterleaving.WriteKeepsIffFresh | internal/modules/cashback/repository.go:322-343 | a commit keeps the indexes of the log exactly when all its rows are still unexpired |
| ExpiryInterleaving.TwoExpiriesTakeTwice | internal/modules/cashback/repository.go:286-351 | whatever came before, two expiries that select before either writes both succeed, mark every row twice and take the total due twice |
| LedgerUniqueness.NoTicketCreditedTwice | internal/modules/cashback/repository.go:697-712 | no program's log holds two credits of the same confident ticket with a folio |
| LedgerUniqueness.RepeatedTicketRefused | internal/modules/cashback/repository.go:697-712 | a second credit for a ticket already in the program's log is refused and leaves every table as it was |
| LedgerUniqueness.DuplicateIsSeenTicket | internal/modules/cashback/repository.go:697-712 | conversely a credit with a fresh id is refused as a duplicate only when a ticket with the same digest was credited in that program: the very ticket, if no part of it holds a bar |
| Ledger.RepeatedReceiptRefused | migrations/000025_receipt_tracking.up.sql:29-31 | a receipt hash already in the program's log refuses the credit whatever the caps say |
| LedgerStock.NoOversell | internal/modules/cashback/repository.go:726-772 | a reward's counter is the number of its redemptions and never exceeds a finite stock |
| LedgerStock.EachRedemptionHasItsBurn | internal/modules/cashback/repository.go:726-772 | redemptions and burns pair off one to one, same account, opposite amounts |
| LedgerStock.StockUpdateAllowed | internal/modules/cashback/repository.go:883-895 | an admin can set a finite stock exactly when it is at least what has been redeemed |
| LedgerSteps.BurnExactly | internal/modules/cashback/repository.go:726-772 | after any run a burn succeeds exactly when its reward exists and has unlimited stock or more than its redemptions, the balance row covers the cost, and transaction id, redemption id and code are free; the first that fails names the error; and the tables it leaves, field by field |
| LedgerSteps.RewardUpdateExactly | internal/modules/cashback/repository.go:883-895 | after any run a reward is changed as asked, a cost of zero or less meaning the old one, unless the stock would be negative or below what was redeemed |
| LedgerStock.SettledForGood | internal/modules/cashback/repository.go:602-620 | a redemption that is confirmed or lapsed never changes again under any operation |
| LedgerRedemptions.FoundDecides | internal/modules/cashback/service.go:280-318 | codes being unique over any run, the redemption found by its code decides: it can be confirmed exactly when some pending, unexpired redemption has that code |
| LedgerRedemptions.ConfirmChangesOne | internal/modules/cashback/repository.go:602-608 | confirming a pending redemption changes that row to confirmed and nothing else in any table |
| LedgerRedemptions.SettledCodeIsDead | internal/modules/cashback/repository.go:602-620 | the code of a confirmed or lapsed redemption never works again, however the run goes on |
| LedgerRedemptions.LapseHidesNothing | internal/modules/cashback/repository.go:610-620 | lapsing the overdue redemptions at any time up to now changes no confirmation made now or later |
| LedgerRedemptions.LapseInStages | internal/modules/cashback/repository.go:610-620 | lapsing early and again later lapses the same as once at the later time |
| LedgerConservation.Conservation | internal/modules/earnburn/repository.go:1008-1024 | what a program's clients hold is earns plus adjustments, less redemptions of every status, less nominal expirations, plus what the floor cut off: by how much each amount would have taken the balance before it below zero |
| LedgerConservation.ForgivenNeverDecreases | internal/modules/cashback/repository.go:331 | the forgiven amount never decreases along a run |
| BurnInterleaving.Serializable | internal/modules/cashback/repository.go:638-648 | every interleaving of burn statements under row locks, with other operations in between and sessions aborted anywhere, ends in the tables of the serial run of the burns that commit |
| BurnInterleaving.CommitIsAtomicBurn | internal/modules/cashback/repository.go:726-772 | what a session commits after its statements is what one atomic burn would do at that moment |
| BurnInterleaving.NextKeepsInv | internal/modules/cashback/repository.go:726-772 | what a session read under its locks stays what is committed, and no two sessions hold one row |
| BurnInterleaving.NoOversellInterleaved | internal/modules/cashback/repository.go:735-743 | no interleaving oversells a reward or loses count of its redemptions |
| BurnInterleaving.NoDeadlock | internal/modules/cashback/repository.go:726-772 | rewards are locked before balances, so some session can always go on |
| LedgerRepository.Repository.UpsertBalance | internal/modules/cashback/repository.go:685-695 | adds to the balance, from zero if there is none, floored at zero, and changes no other row |
| LedgerRepository.Repository.SelectExpiring | internal/modules/cashback/repository.go:298-320 | the due earns of the account, each once, in no promised order |
| LedgerRepository.Repository.AddTx | internal/modules/cashback/repository.go:657-716 | the statements of an earn, with rollback, are one atomic ledger step with its error |
| LedgerRepository.Repository.BurnTx | internal/modules/cashback/repository.go:726-772 | the statements of a burn, with rollback at any of them, are one atomic ledger step with its error |
| LedgerRepository.Repository.AdjustTx | internal/modules/cashback/repository.go:775-808 | a correction is one atomic step, guarded by the correction window in the transaction |
| LedgerRepository.Repository.ExpireRows | internal/modules/cashback/repository.go:322-343 | the expiry loop computes the fold of its turns and returns the balance it leaves |
| LedgerRepository.Repository.ExpireBalance | internal/modules/cashback/repository.go:286-351 | expiry handles exactly the due rows, is one atomic step, and returns the stored balance |
| LedgerRepository.FailedPrefix | internal/modules/cashback/repository.go:322-351 | once a turn of the expiry loop fails the whole expiry fails |
| Accrual.CreditBounds | internal/modules/cashback/service.go:42-58 | a credit is positive, within the rate and the per-transaction cap, and never falls when the purchase grows |
| Accrual.SplitCashback | internal/modules/cashback/service.go:46 | splitting a purchase never earns more cashback before caps, and loses less than a cent per extra part |
| Accrual.SplitPoints | internal/modules/earnburn/service.go:47 | splitting a purchase never earns more points, and loses less than a point per extra part |
| Accrual.ReconstructedSpend | internal/modules/earnburn/repository.go:996-1001 | with a constant ratio the spend metric never exceeds the true spend of the n recorded earns and falls short by less than n ratios |
| Accrual.CreditIsLargestWhole | internal/modules/cashback/service.go:40-58 | a purchase is refused exactly below the minimum or when rate or cap leave less than a cent; otherwise the amount asked for is the largest whole one within both |
| Accrual.PointsAreWholeRatios | internal/modules/earnburn/service.go:42-50 | points are refused exactly below the minimum or for less than one ratio, and otherwise are the whole ratios in the purchase |
| CashbackService.Service.AddCashback | internal/modules/cashback/service.go:35-125 | a refusal at any stage changes no table; otherwise exactly one capped earn step with the receipt's fingerprint |
| CashbackRuns.PurchaseIsCreditedLargest | internal/modules/cashback/service.go:40-86 | after any run a purchase not below the minimum is credited the largest whole amount within the rate, the cap per transaction if there is one, and what is left of the cap per period if there is one; it is refused exactly when that is nothing or the id or the receipt is taken |
| CashbackRuns.NoPeriodExceedsProgramCap | internal/modules/cashback/service.go:75-86 | over any run whose earns on an account are made by the service for programs with this cap per period and expiry, no closed window of the expiry, or of thirty days without one, holds earns above the cap |
| CashbackService.Service.CheckBalance | internal/modules/cashback/service.go:132-142 | expires lazily when the program asks for it, and answers the stored balance in every case |
| CashbackService.Service.UpdateCashback | internal/modules/cashback/service.go:155-202 | a correction is measured against the original earn and ignores caps; refused after the window |
| CashbackService.CorrectionsAddUp | internal/modules/cashback/service.go:168-190 | a second correction is measured against the earn again, so it leaves what it would have left alone exactly when the first moved nothing or the floor stops both |
| CashbackRuns.CorrectableForTwoHours | internal/modules/cashback/service.go:60-72 | over any run, a correction of a purchase the service credited succeeds exactly less than two hours after the service's clock reading, its own id being fresh |
| CashbackRuns.CorrectionReplacesEarn | internal/modules/cashback/service.go:167-182 | a correction right after an earn leaves the balance before the earn plus the largest whole amount within the rate of the new purchase, floored at zero, whatever caps the earn was held to |
| LedgerSteps.CorrectionExactly | internal/modules/cashback/repository.go:775-808 | after any run a correction succeeds exactly when some earn of the run with the identifier it names can still be corrected, the balance row exists and its own id is free; the first that fails names the error |
| CashbackService.Service.RequestRedemption | internal/modules/cashback/service.go:210-277 | refused without the balance; otherwise one burn step at the reward's cost |
| CashbackService.Service.ConfirmRedemption | internal/modules/cashback/service.go:280-318 | succeeds exactly for a pending, unexpired redemption whose cached code is not of another type |
| EarnBurnService.PointsService.AddPoints | internal/modules/earnburn/service.go:35-95 | one uncapped earn step of the floored points, or a refusal that changes nothing |
| EarnBurnService.PointsService.CheckBalance | internal/modules/earnburn/service.go:103-113 | always the stored balance, with no table changed, whatever the program's expiry |
| EarnBurnService.PointsService.UpdatePoints | internal/modules/earnburn/service.go:126-165 | the balance moves by the new points less the original ones, or nothing changes |
| Receipts.ComputeFingerprint | internal/platform/ai/receipt.go:62-107 | data, hash, hash fields and confidence of a fingerprint, each exactly when the source gives it |
| Receipts.KeptAndHashedWhen | internal/platform/ai/receipt.go:62-131 | an extract is kept exactly when it is confident, has an item or an amount, or has more than white space in some text; it is hashed exactly when it is confident with more than white space in its folio |
| Receipts.NormalizeRfc | internal/platform/ai/receipt.go:140-149 | the loop keeps exactly the letters and digits of the folded text |
| Receipts.PreimageInjective | internal/platform/ai/receipt.go:95-104 | joined parts are equal exactly when the parts are, whenever corresponding parts hold equally many bars |
| Receipts.BarFreeIffUnmistakable | internal/platform/ai/receipt.go:95-104 | no other ticket shares a ticket's joined text exactly when none of its parts holds a bar |
| Receipts.ExtractsCollide | internal/platform/ai/receipt.go:62-107 | it happens to extracts: for any canonical pieces, two confident extracts with folios and different tickets share a digest |
| Receipts.RfcTicketInjective | internal/platform/ai/receipt.go:79-104 | for tickets with an RFC and bar-free dates the digest decides equality, bars in folios included |
| Receipts.RfcHashIff | internal/platform/ai/receipt.go:62-107 | two confident extracts with folios and RFCs, and bar-free dates, get the same hash exactly when RFC, folio, date and total agree in canonical form, whatever the business name |
| Receipts.AmountInjective | internal/platform/ai/receipt.go:153-155 | totals print alike exactly when they are the same number of hundredths |
| Receipts.RfcIgnoresNoise | internal/platform/ai/receipt.go:140-149 | separators and blanks never change an RFC, wherever they stand |
| Receipts.NormalizeTextIdempotent | internal/platform/ai/receipt.go:133-138 | normalising text twice is normalising it once |
| Receipts.TextIgnoresSpacing | internal/platform/ai/receipt.go:133-138 | the canonical text does not depend on how wide the gaps between its words are, or on space around it |
| Receipts.RfcKeepsLetters | internal/platform/ai/receipt.go:140-149 | an RFC of letters and digits is folded and otherwise kept |
| RateLimit.AllowIsNaive | internal/admin/ratelimit.go:63-96 | with a monotone clock a call is allowed exactly when fewer than the limit of earlier allowed hits of its key lie after now - window in the whole unpruned history |
| RateLimit.SweepForgetsNothing | internal/admin/ratelimit.go:37-50 | a sweep drops nothing that a later cutoff could count |
| RateLimit.StepRefines | internal/admin/ratelimit.go:63-96 | one call of the pruned limiter answers as the naive one and keeps remembering exactly what the history holds from the cutoff on |
| RateLimit.NoWindowExceedsLimit | internal/admin/ratelimit.go:63-96 | wherever a window ends it holds at most the limit of allowed hits of a key |
| RateLimit.KeysAreBounded | internal/admin/ratelimit.go:79-96 | the keys kept are at most the survivors of the last sweep plus the sweep counter, which stays below 256 |
| RateLimit.MemoryRateLimiter.Compact | internal/admin/ratelimit.go:69-76 | filtering the slice into its own backing array leaves exactly the hits after the cutoff, in order |
| RateLimit.MemoryRateLimiter.SweepExpired | internal/admin/ratelimit.go:37-50 | deletes exactly the keys without a hit after the cutoff |
| RateLimit.MemoryRateLimiter.Allow | internal/admin/ratelimit.go:63-96 | the in-place limiter takes exactly the step of the value limiter, answer included, and its slices never share an array |
| PasswordReset.TokenWorksOnce | internal/admin/service.go:141-174 | in any run a token that has reset a password never succeeds again |
| PasswordRuns.ResetWorksIff | internal/admin/service.go:141-174 | in any run a reset works exactly when the limiter of ten an hour lets it through, the password has eight characters, and its token was issued to an active admin at most an hour before, who has not reset the password since; it then sets that admin's password |
| PasswordRuns.ResetExactly | internal/admin/service.go:141-174 | the refusals in their order (limiter, length, no unused unexpired token with that hash, no such admin), and what a success leaves |
| PasswordRuns.IssueExactly | internal/admin/service.go:89-136 | a request for a token stores one, good for an hour, exactly when the limiter of five an hour lets the email through, the email is of an active admin, and hash and id are fresh |
| PasswordReset.ResetConsumesAll | internal/admin/repository.go:292-338 | a success sets that admin's password only and leaves the admin no unused token |
| PasswordReset.FailedResetChangesNothing | internal/admin/repository.go:292-338 | a reset that fails, for a missing admin or otherwise, leaves every admin and token as it was |
| PasswordReset.AnswerHidesEmail | internal/admin/service.go:89-136 | the answer does not tell a known email from an unknown one exactly when the limiter refuses, or the token is stored and the mail goes out |
| PasswordReset.FiveIffNoGap | internal/admin/service.go:89-136 | at most five tokens of one email are live at every instant of every run exactly when no request takes time between its limiter and its token clock reading |
| PasswordReset.AtMostFiveLiveTokens | internal/admin/service.go:89-136 | at most five tokens of one email expire later than an instant plus the longest such gap |
| PasswordReset.SixLiveTokens | internal/admin/service.go:89-136 | with one gap of a nanosecond six tokens of one email are live at once |
| AdminService.Service.ForgotPassword | internal/admin/service.go:89-136 | the service over its limiter object takes exactly the modelled step and gives its answer |
| AdminService.Service.ResetPassword | internal/admin/service.go:141-174 | limiter, length, token and expiry checks in that order, then one consumption |
| AdminService.Service.ConsumePasswordReset | internal/admin/repository.go:292-338 | the three statements, rolled back when the first finds no admin, change the password, the token and every other token of the admin together or not at all |
| IdentityCodes.OneLiveCode | internal/modules/cashback/service.go:332-369 | in any sequential run that loses track of no code, two codes that validate to one client are the same, however codes collide across clients, programs and kinds |
| IdentityCodes.StepKeepsTracked | internal/modules/cashback/service.go:332-354 | whichever of its cache accesses fail, a request keeps every good code tracked by a tracker that outlives it exactly when it neither orphans the code in force nor leaves its own uncovered |
| IdentityCodes.UntrackedMeansTwo | internal/modules/cashback/service.go:332-354 | once a good code is not the tracked one, its client's next request leaves two good codes, with every access working |
| IdentityCodes.FaultlessKeepsTrack | internal/modules/cashback/service.go:332-354 | a run whose accesses all work loses track of no code |
| IdentityCodes.GoodExactlyWhenLatest | internal/modules/cashback/service.go:332-369 | when the accesses work, a code is good for a client exactly when it is the last one the client asked for, under fifteen minutes ago, and nothing has used, removed or overwritten it since |
| IdentityCodes.TrackerIsLastRequest | internal/modules/cashback/cache.go:91-101 | the tracker holds the code and time of the client's last request |
| IdentityCodes.EntryIsLastTouch | internal/modules/cashback/cache.go:45-53 | what a code stands for is what the last operation that touched it wrote |
| IdentityCodes.CodeLivesByKind | internal/modules/cashback/cache.go:45-53 | a code of any kind stands for what was last written under it, for an hour if it redeems a reward and fifteen minutes otherwise; a code that stands for nothing is unknown, and one of another kind is refused as such |
| IdentityCodes.TwoRequestsTwoCodes | internal/modules/cashback/service.go:332-354 | over all failures of the accesses of two requests: both codes are good exactly when both are stored and the first is not tracked, or not read or dropped by the second |
| IdentityService.Cache.GetActiveIdentity | internal/modules/cashback/cache.go:95-101 | the live tracker, or the empty string |
| IdentityService.Cache.ConsumeOtp | internal/modules/cashback/cache.go:71-85 | a live code comes back once and is gone |
| IdentityService.Service.RequestIdentityOtp | internal/modules/cashback/service.go:332-354 | the cache calls of a request, each of which may fail, take exactly the modelled step; only a failure to store the code is reported |
| Pushcard.StepKeepsInv | internal/modules/pushcard/service.go:81-198 | a call keeps one open card per holder, open cards short of their slots and done cards exactly full, if and only if it does not undo a stamp of a done card |
| Pushcard.RunKeepsInvIff | internal/modules/pushcard/service.go:81-198 | at the end of any run there is one open card per holder, short of its slots, and every done card is exactly full, if and only if no undo took a stamp from a done card |
| Pushcard.UndoDoneBreaks | internal/modules/pushcard/service.go:154-198 | undoing on a completed or redeemed card leaves it done with one stamp too few |
| Pushcard.UndoDoneHappens | internal/modules/pushcard/service.go:154-198 | it happens: the stamp that fills a card can be undone at once |
| Pushcard.StepKeepsInvUpTo | internal/modules/pushcard/service.go:81-198 | whatever a call does, done cards are full but for what undos took from them after they were done |
| Pushcard.CountingLaw | internal/modules/pushcard/repository.go:164-220 | in any run a holder's stamps, and those undone on done cards, are slots times done cards, plus the open ones, plus those on cancelled cards |
| Pushcard.StampsDivideIntoCards | internal/modules/pushcard/service.go:81-149 | without expiry and undo n stamps make n div S done cards and leave n mod S on the open one |
| PushcardExpiry.StampLandsExactly | internal/modules/pushcard/service.go:81-149 | after any run a stamp is refused exactly for a missing field, no configuration or a taken id; it lands on the holder's open card exactly when that is younger than the lifetime of cards, and changes no other; else on a new card, the old open card being cancelled; and the card is completed exactly when it then holds as many stamps as slots |
| PushcardExpiry.RunKeepsLifetimes | internal/modules/pushcard/service.go:286-304 | in any run every cancelled card is of a program whose cards expire and had reached that age, and every stamp was put on a card just opened or still within its lifetime |
| PushcardExpiry.ProgressExactly | internal/modules/pushcard/service.go:38-76 | asking for progress changes nothing but an open card past its lifetime, which is cancelled |
| PushcardExpiry.UndoExactly | internal/modules/pushcard/service.go:154-198 | after any run an undo is refused exactly without a stamp of the collaborator's in the last two hours, or on a cancelled card, and then changes nothing; else that stamp goes, and a new card is opened exactly when its card was completed and the holder has no open one |
| PushcardService.Repository.LastStampByCollaborator | internal/modules/pushcard/repository.go:222-239 | a most recent stamp inside the window, or none when there is none |
| PushcardService.Repository.OpenCard | internal/modules/pushcard/repository.go:149-162 | refused by the partial unique index exactly when an open card exists |
| PushcardService.Service.ExpireIfStale | internal/modules/pushcard/service.go:286-304 | a stale open card is cancelled and then there is none |
| PushcardService.Service.AddStamp | internal/modules/pushcard/service.go:81-149 | the sequence of repository calls is the modelled step, including what stays done when a later call fails |
| PushcardService.Service.UndoLastStamp | internal/modules/pushcard/service.go:154-198 | undoes a latest stamp as the modelled step, and only logs a refused replacement card |
| PushcardService.Service.GetProgress | internal/modules/pushcard/service.go:39-77 | the stamp count after lazy cancellation |
| PushcardRedemption.CodesAreOfDoneCards | internal/modules/pushcard/service.go:208-241 | in any run every stored code is for a completed or redeemed card of the client it was given to |
| PushcardRedemption.ConfirmationRedeems | internal/modules/pushcard/service.go:245-262 | a confirmation uses up a live code and leaves its card redeemed; the tables change exactly when it was not redeemed already |
| PushcardRedemption.CodeWorksForAnHour | internal/modules/pushcard/service.go:208-262 | in any run a code is confirmed exactly when it was given out less than an hour ago and neither given out again nor entered since |
| PushcardRedemption.ConfirmationsAreIssued | internal/modules/pushcard/service.go:208-262 | confirmations plus codes left never exceed the codes given out |
| PushcardRedemption.RedeemedForGood | internal/modules/pushcard/repository.go:210-220 | a redeemed card stays redeemed along any run |
| PushcardRedemption.TwoCodesConfirmTwice | internal/modules/pushcard/service.go:208-262 | two codes drawn for one card are both confirmed, the second without effect on the card |
| PushcardRedemption.FoundIffNearTheTop | internal/modules/pushcard/repository.go:268-278 | a client is sure to get a code exactly when some completed card of the client's has fewer than fifty completed cards of other clients updated no earlier than it |
| PushcardRedemption.CodeIsForNewest | internal/modules/pushcard/service.go:208-241 | the code is for the completed card of the client's that was updated last |
| PushcardRedemption.Service.ListCompleted | internal/modules/pushcard/repository.go:268-300 | the first page of the completed cards, last updated first, ties in any order |
| PushcardRedemption.Service.RequestRedemption | internal/modules/pushcard/service.go:208-241 | the first of the client's cards on that page gets the code, which replaces any other use of it |
| PushcardRedemption.Service.ConfirmRedemption | internal/modules/pushcard/service.go:245-262 | consumes the code, live or not, and redeems its card if it is completed |
| Routing.OrderFreeIffPrefixFree | internal/loyalty/registry.go:112-123 | selections are the same for every order of visiting the prefixes exactly when no prefix extends another |
| Routing.SelectionRoundTrip | internal/loyalty/registry.go:112-123 | prefix + id comes back as the command the tables hold for the prefix, with exactly that id |
| Routing.SelectionGoesToItsOwner | internal/loyalty/registry.go:112-123 | with disjoint modules that command is the one of the module that registered the prefix |
| Routing.RegistrationOrderFree | internal/loyalty/registry.go:27-46 | with disjoint modules the tables do not depend on the order of registration |
| Routing.DispatchOrderFree | internal/loyalty/registry.go:101-108 | dispatch does not depend on the order of registration when names and commands are disjoint, even if prefixes are shared |
| Routing.CommandGoesToItsOwner | internal/loyalty/registry.go:101-108 | a command is dispatched to the module that owns it, and to none exactly when no module does |
| Routing.RegisterAllClosed | internal/loyalty/registry.go:27-46 | every index entry names a registered module, so lookups never miss theirs |
| Routing.Registry.Register | internal/loyalty/registry.go:27-46 | the three maps updated in loops become exactly the modelled tables |
| Routing.FlowIsItsOwners | internal/loyalty/registry.go:87-98 | a command starts a flow exactly when some module defines one for it, and it is that module's |
| Routing.Registry.ResolveSelection | internal/loyalty/registry.go:112-123 | the answer of some visiting order, and none exactly when no prefix matches |
| FlowEngine.HandleKeepsStore | internal/flow/engine.go:93-293 | every stored state names a flow, a step of it, and holds the keys of all earlier steps |
| FlowEngine.MessageMovesOneStep | internal/flow/engine.go:114-191 | an accepted message lowers the remaining steps by one and dispatches exactly at zero; a rejected one changes nothing stored; no other user is touched |
| FlowEngine.DispatchesAreStarted | internal/flow/engine.go:159-191 | dispatches plus a flow under way never exceed the flows started |
| FlowEngine.DispatchIsComplete | internal/flow/engine.go:159-191 | a dispatched flow carries every step key and, for distinct unreserved keys, each answer asked for was accepted by its step |
| FlowEngine.RunKeepsAccepted | internal/flow/engine.go:114-191 | along any run the answers collected since the flow began were all accepted |
| FlowAnswers.DispatchCarriesAnswers | internal/flow/engine.go:114-191 | in any run a message is taken exactly when it answers the step asked with something the step accepts; and for clean keys a dispatched flow carries, under each key asked for, the text of the message taken at that step, or for a photo step the stored image or the image as sent without a processor, the amount, currency and receipt of the last photo read, and nothing else but what it began with |
| FlowAnswers.StateHoldsAnswers | internal/flow/engine.go:114-191 | at every moment of any run the stored state is that many steps after its beginning as messages were taken, and holds the same |
| FlowAnswers.FreshMessageStarts | internal/flow/engine.go:93-111 | what a message outside any flow starts: a selection its command with the selected data, another interactive reply the command it names; at the first step the data leave open, or at once when there is none |
| FlowEngine.Engine.HandleMessage | internal/flow/engine.go:93-111 | the engine takes exactly the modelled step for some resolution of the selection |
| FlowEngine.Engine.ProcessStep | internal/flow/engine.go:114-191 | photo, validation, storing and dispatch in the source's order |
| FlowEngine.Engine.StartFlowWithData | internal/flow/engine.go:237-293 | the flow begins at the first step whose key the data lacks |
| Phone.SameIffCore | internal/phone/phone.go:55-69 | numbers that are not blank and do not trouble (a second plus before a thirteen- or twelve-digit spelling) are the same exactly when they stand for the same ten digits or are the same unrecognised string |
| Phone.SameIsEquivalence | internal/phone/phone.go:55-69 | so among those numbers sameness is reflexive, symmetric and transitive |
| Phone.SelfIffNotBlank | internal/phone/phone.go:55-69 | a number matches itself exactly when it is more than spaces and a plus; a blank one matches nothing |
| Phone.DigitsDoNotTrouble | internal/phone/phone.go:10-17 | numbers of digits do not trouble |
| Phone.BreaksIffTroubles | internal/phone/phone.go:10-51 | a number that is not blank breaks transitivity among numbers that do not trouble exactly when it troubles itself |
| Phone.Variants | internal/phone/phone.go:10-51 | every variant exactly once |
| Phone.SpellingVariants | internal/phone/phone.go:10-51 | the ten digits of a number and its three spellings with a code are looked up under each other, each under exactly which |
| Phone.SpacesDoNotMatter | internal/phone/phone.go:10-17 | spaces anywhere and one leading plus do not change what a number is looked up under |
| Phone.SameNumber | internal/phone/phone.go:55-69 | true exactly when neither is empty and some variant is shared |
| Deeplink.RoundTrip | internal/resolver/business.go:146-165 | the name printed in a deep link comes back from it exactly when it is not empty, has no space or sentence mark at its ends, and no legacy token after a space |
| Deeplink.PrintedIsNotLegacy | internal/resolver/business.go:121-133 | a printed message is read as the legacy form exactly when the name itself holds the token |
| Deeplink.AnyGreeting | internal/resolver/business.go:146-165 | after any ASCII greeting, in any case, what follows the marker is what is cleaned up |
| Deeplink.ExtractedIsFixed | internal/resolver/business.go:146-165 | an extracted name, printed and extracted again, is the same exactly when it does not end in a sentence mark |
| Deeplink.PlainExtractedIsFixed | internal/resolver/business.go:146-165 | so it always is over text whose only white space is space, tab, carriage return and line feed |
| Deeplink.VerticalTabLeavesMark | internal/resolver/business.go:159-161 | a vertical tab after the mark breaks the fixed point |
| Deeplink.LegacyRoundTrip | internal/resolver/business.go:121-133 | an identifier behind the token comes back whole, at the end of the message or before a space |
| Deeplink.SliceIffLengthKept | internal/resolver/business.go:148-153 | with the marker behind any text in any script, the slice leaves its range exactly when folding lengthens that text by more than what follows the marker, and otherwise starts right behind the marker exactly when folding keeps the text's length |
| Deeplink.LongFoldLeavesRange | internal/resolver/business.go:148-153 | one letter that grows when folded puts the slice out of range |
| Deeplink.PrintedReachesItsBusiness | internal/resolver/repository.go:59-79 | when its name, but for outer plain spaces, is printable and holds no legacy token, an active business's own printed message finds it, alone or for the client to choose among its namesakes, who differ from it at most in case and outer spaces |
| Deeplink.LegacyReachesItsBusiness | internal/resolver/business.go:36-55 | a legacy message resolves to the active business with that identifier, whatever else it says, new exactly when the client is not known there; an unknown, inactive or nameless one is not found |
| Deeplink.NamelessGoesByPhone | internal/resolver/business.go:36-117 | a message that names no active business goes by the client's phone: the one business the client is known at, a choice among several, or none |
| FeatureFlags.AnswersAreAtMostAMinuteOld | internal/featureflags/service.go:15-18 | in sequential runs, whatever is changed behind the service's back, an answer is what the table said less than a minute ago, and never older than the last update that reached the cache |
| FeatureFlags.CachedIsStored | internal/featureflags/service.go:59-77 | in sequential runs a live cached flag is the stored row unless the row was changed behind the cache within the last minute |
| FeatureFlags.CachedIsStoredIff | internal/featureflags/service.go:59-77 | in any sequential run a live cached flag is the stored row exactly when the row is what it was at the lookup that read it |
| FeatureFlags.StepKeepsCoherent | internal/featureflags/service.go:59-113 | an operation leaves every live entry equal to its row exactly when it does not change a row behind a live entry that then differs |
| FeatureFlags.CoherentThroughoutIff | internal/featureflags/service.go:59-113 | after every operation of a sequential run all live entries are their rows exactly when no operation outdates one |
| FeatureFlags.UndroppedUpdateLingers | internal/featureflags/service.go:104-113 | an update whose cache entry is not dropped is answered from the old flag for exactly a minute, and one whose entry is dropped at once |
| FeatureFlags.EnabledIsResolved | internal/featureflags/service.go:42-95 | then a lookup, the stored flag's resolution and the listing of all flags agree, unknown flags being off |
| FeatureFlags.RemovedRowLingers | internal/featureflags/service.go:15-18 | a row removed behind the cache is answered from it for exactly a minute |
| FeatureFlags.FieldsAreLastGiven | internal/featureflags/repository.go:87-141 | each field of a row is the last value an update gave for it, and a row exists exactly when it did before or some update named it |
| FeatureFlags.LastGivenDecides | internal/featureflags/types.go:27-37 | in any sequential run whose updates reach the cache, but for a minute ago and more, a customer's answer is the last given override for the customer, else on if last switched on for everyone, else the last given default; off for a flag nobody made; and the listing says the same |
| FeatureFlagService.Repository.List | internal/featureflags/repository.go:56-74 | every row exactly once |
| FeatureFlagService.Repository.Upsert | internal/featureflags/repository.go:87-141 | overwriting field by field is patching the row, or a blank one, with what is given |
| FeatureFlagService.Service.Load | internal/featureflags/service.go:59-77 | cache first, then the table, whose answer is cached; a missing flag is not |
| FeatureFlagService.Service.Enabled | internal/featureflags/service.go:42-55 | the resolution of what is loaded, and off when nothing is |
| FeatureFlagService.Service.EnabledFor | internal/featureflags/service.go:83-95 | the loop fills the map with exactly the resolved flags |
| FeatureFlagService.Service.Update | internal/featureflags/service.go:104-113 | the row is patched and its cache entry dropped |

## Left out

- Frontend, HTTP handlers and router, WhatsApp, image analysis and object storage clients, email, tokens and password hashing: input and output, or unseen libraries.
- Listings, create-read-update-delete of programs, customers and collaborators, menus, message texts, dashboards other than the sums named above.
- The ports' own calls to upsert a balance or create a transaction (internal/modules/cashback/repository.go:382-408): no service calls them, and they would bypass the ledger.
- `EnsureBalance`: adds a zero row, which no query of the model tells from no row except a correction.
- The points redemption requests and confirmations (internal/modules/earnburn/service.go:173-282): the same code as the cashback ones over the same burn step, with other type names.
- Foreign keys: accounts, collaborators and rewards named by an operation are taken to exist where the source lets the database check.
- Database, cache and network failures other than the ones named in an operation's parameters (a lost session, a failing access of the code cache, an undropped or vanished cache entry, an unsent email).
- Interleavings of operations other than burns, capped earns and expiries: corrections, resets, stamps, code requests and flag lookups are single steps in their runs. A flag update that lands between the table read and the cache write of one lookup is therefore not covered.
- CapInterleaving.CapIffCovered: when an earn counts rows that share no window with it, only one direction is stated (CoveredKeepsCap), because the code's sum is then not the total of any window.
- Isolation details below row locks (snapshots, waiting order, lock timeouts); BurnInterleaving lets a blocked session wait and any session abort.
- A points ratio that changes over time: ReconstructedSpend is about a constant one, as the metric multiplies old points by today's ratio.
- Password reset without a configured email sender: the request then stops before it creates a token.
- Flow states that time out are a Drop event; role checks, replies and the main menu are not modelled.
- Completion times of stamp cards.
- The stamp rendering (buildVisual) and the URL escaping of a deep link.
- FeatureFlagService.Service.Enabled: a repository error, which the source answers with off, is not an event of the model.
