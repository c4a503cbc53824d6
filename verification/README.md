# CityRNNG: a verified model of the transactional core

A Dafny model of what the club's API and its runbase scanner do to shared state, with proofs of the
properties they are built to keep. `dafny verify dfyconfig.toml` checks all of it.

Identities (UUIDs) are natural numbers, instants are integer milliseconds and days are day numbers in
one fixed zone in which local and UTC days coincide. Tables are sequences and maps. A transaction is one
step that happens completely or not at all; a violated unique constraint rolls its transaction back. What
a client, a clock, a random generator or the network chooses is a parameter, so each statement holds for
every choice. Services that update state in place are classes whose methods are proved equal to
specification functions; the run-level lemmas are about those functions.

The unique constraints relied on are those of `apps/api/prisma/schema.prisma`: (device, scan) of a scan
row, attendance of a scan row, (event, user) of an attendance, (user, key) of an RSVP, (rule, day) of an
override event, event slug, idempotency key of a ledger row, code and debit row of a redemption.

| file | what it models |
|---|---|
| `domain.dfy`, `seqs.dfy` | shared vocabulary; filtering and stable sorting |
| `ledger.dfy`, `ledger_races.dfy`, `awards.dfy`, `award_amounts.dfy` | the points ledger, racing writers, awards and what they come to |
| `checkin.dfy`, `checkin_guarantees.dfy`, `checkin_links.dfy`, `checkin_service.dfy` | QR check-in as a protocol, its guarantees, the links of its journal, and the service code as one of its runs |
| `scan_answers.dfy` | what a scan, from a device or a leader, is answered and leaves behind |
| `review_races.dfy` | admin reviews whose check and write are apart, beside check-in |
| `redeem_outcomes.dfy` | when redeeming, using and cancelling succeed and what each refusal means |
| `redemptions.dfy`, `redemption_runs.dfy`, `redemption_races.dfy`, `redemption_examples.dfy`, `overselling.dfy` | rewards: conservation over runs of whole calls and of split ones, how far concurrent calls overshoot |
| `recurrence.dfy`, `listing_entries.dfy`, `recurrence_views.dfy`, `recurrence_examples.dfy` | weekly rules: the listing and its entries, the detail view, concrete cases |
| `checkin_choice.dfy`, `checkin_windows.dfy` | which run a scan lands in, and when it is open |
| `materialize.dfy`, `materialize_answers.dfy`, `materialize_edits.dfy` | event rows made on demand, with callers and admin edits interleaved |
| `wifi.dfy`, `wifi_groups.dfy`, `keyboard.dfy`, `scanner_loop.dfy` | Wi-Fi QR printer and parser, keystroke decoder, the scanner's main loop |
| `outbox.dfy`, `scan_delivery.dfy`, `checkin_outcomes.dfy` | the scanner's sender, disk outbox and flusher; scanner and server together; what becomes of a scan, by the event catalog |
| `cleanup.dfy`, `cleanup_outcomes.dfy`, `cleanup_resume.dfy`, `cleanup_example.dfy`, `cleanup_script.dfy` | the duplicate-attendance cleanup, stopped and repeated |
| `paging.dfy`, `paging_requests.dfy` | cursor paging of the ledger and its two endpoints |
| `interests.dfy`, `rsvp_outcomes.dfy`, `interest_runs.dfy`, `timeline.dfy`, `timeline_cells.dfy` | RSVPs, their overlapping calls, and the runner's month grid |

## Where the code differs from what it says

Each of these has its exact condition and, where the code fails, a concrete input that shows it.

- A retry of `redeem` with its key does not always return the same redemption: the reward checks run
  before the key lookup, so it does if and only if they still pass (`RedemptionRuns.RetryAnswers`,
  `RedemptionExamples.RetryCanBeRefused`).
- The balance and capacity checks of `redeem` are not made again inside the transaction. The overshoot is
  bounded, and both bounds are reached for every number of concurrent calls (`Overselling.BoundsAreReached`).
- The status checks of cancel and mark-used are not made again by their writes. Conservation holds throughout
  a run if and only if no checked call writes to a redemption cancelled since, and a status is final if and
  only if it is decided and no checked call of the other kind is left (`RedemptionRaces.ConservedExactly`,
  `RedemptionRaces.FinalExactly`; `RedemptionRuns.RacingCancelsUndercount`, `RedemptionRaces.UsedThenRefunded`).
- Retries after a code collision never help, because the collision has aborted the transaction they run in
  (`Redemptions.RedemptionsService.RedeemTransaction`, `RedemptionExamples.CollisionIsFinal`).
- Rejecting an attendance reads and writes it apart. No rejected attendance has a credit, throughout a run, if
  and only if no checked rejection writes to one approved since with points due, and a decision is final if and
  only if no checked review of the other kind is left (`ReviewRaces.UncreditedExactly`,
  `ReviewRaces.FinalExactly`, `ReviewRaces.RejectedYetCredited`).
- A request key shared across users or rewards is refused, because its debit already backs a redemption
  (`RedemptionRuns.UsedRequestIsRefused`); conservation therefore needs no assumption about shared keys.
- A credited attendance is linked from the journal if and only if the call that created it records before it
  dies and before another delivery of its scan does (`CheckinLinks.CreatedIsLinkedExactly`,
  `CheckinLinks.RaceFromOneRunner`).
- A delivery whose look-up throws leaves no journal row, and on a 4xx the scanner drops the scan: exactly when
  the open occurrence has no row yet and every location of it is excluded that day
  (`CheckinOutcomes.ScanFateExactly`, `ScanDelivery.RefusedScanLeavesNoTrace`).
- A window that starts after midnight of a rule's last day can miss that day, and one that ends during it can
  show an occurrence past its end (`RecurrenceViews.MissedExactly`, `RecurrenceViews.OverrunExactly`,
  `RecurrenceExamples.LastDayMissed`, `RecurrenceExamples.ShownAfterTheEnd`).
- The detail view shows draft overrides, the listing does not (`RecurrenceViews.OverrideViewsAgree`,
  `RecurrenceExamples.DraftSplitsTheViews`). In a window that starts or ends within a day the listing shows
  locations that an event outside the window excludes (`RecurrenceViews.AnyWindowAgrees`,
  `RecurrenceExamples.ExclusionOutsideTheWindow`). Check-in ignores location exclusions
  (`CheckinChoice.OpenOccurrenceHasDetail`, `RecurrenceExamples.OpenWhereExcluded`). Materializing ignores the
  rule's date range (`Materialize.EnsureVersusDetail`, `RecurrenceExamples.MadeBeforeTheStart`), misses
  exclusions saved between its reads and its insert (`MaterializeEdits.CreatedInForceExactly`,
  `RecurrenceExamples.NoonIsMissed`) and refuses a second rule exactly when its id shares the first eight
  digits (`Materialize.SharedPrefixIsRefused`, `RecurrenceExamples.TwinIsRefused`).
- A cleanup stopped and repeated reaches the same attendances and balances, but not always the same
  ledger rows in the same order (`CleanupResume.ResumedLedger`, `CleanupExample.ReorderedAfterStop`).
- The RSVP check is not repeated by its write: one RSVP per date holds throughout a run if and only if no
  checked call writes while another of its date is on (`InterestRuns.OnePerDayExactly`,
  `Interests.RacingMarksExactly`, `InterestRuns.TwoRsvpsOneDate`).
- The face of a timeline day is its earliest event, not its special one (`Timeline.FaceIsSpecial`,
  `Timeline.RegularFacesTheDay`).

## Model

| member | source | states |
|---|---|---|
| `Ledger.AppendKeepsValid` | apps/api/src/points/points.service.ts:52-73 | A committed posting keeps the ledger sound (balance = signed sum of the owner's rows, balanceAfter = prefix sum, keys unique, amounts positive) and moves only its owner's balance, by the signed amount |
| `Ledger.PostKeepsValid` | apps/api/src/points/points.service.ts:32-91 | Every call keeps the ledger sound and only appends; a success answers with the row carrying the key |
| `Ledger.RepostReturnsOriginal` | apps/api/src/points/points.service.ts:38-41 | However the ledger grew since, posting a used key changes nothing and returns the row of the first call |
| `AwardAmounts.PostsExactly` | apps/api/src/points/points.service.ts:32-91 | Refused for its amount, answered by an earlier row, refused for a blocked account, or appended with the balance it leaves: each exactly when |
| `Ledger.PointsService.PostPoints` | apps/api/src/points/points.service.ts:32-91 | The method on mutable accounts and rows computes exactly the specified transition and answer |
| `Ledger.PointsService.IncrementAndInsert` | apps/api/src/points/points.service.ts:52-86 | Increment first, insert last: a used key leaves balance and rows as they were |
| `LedgerRaces.EveryRunIsSound` | apps/api/src/points/points.service.ts:37-90 | Over every interleaving of lookups and commits the ledger stays sound and committed rows never change |
| `LedgerRaces.RaceWritesOnce` | apps/api/src/points/points.service.ts:58-86 | Two racing writers of one key write one row and move the balance once |
| `LedgerRaces.PostIsARun` | apps/api/src/points/points.service.ts:37-90 | A call with nothing else running is the run look-up, transaction |
| `Awards.AwardWritesTheDue` | apps/api/src/points/points-awards.service.ts:49-108 | A first award writes exactly the points due for its attendance and owner, nothing when none are due, and touches no other key or balance |
| `AwardAmounts.NothingDueExactly` | apps/api/src/points/points-awards.service.ts:49-69 | Nothing is due exactly for events that earn no points, partners' events, and events without an amount of their own whose type has no fallback |
| `AwardAmounts.AmountDue` | apps/api/src/points/points-awards.service.ts:84-108 | What is due otherwise: the event's own amount, else the fallback of its type |
| `AwardAmounts.AwardsExactly` | apps/api/src/points/points-awards.service.ts:49-82 | When a first award is a no-op, a mismatch, refused or posted, and the row posted, reason included |
| `AwardAmounts.WelcomesExactly` | apps/api/src/points/points-awards.service.ts:26-41 | The first sign-up posts exactly the configured bonus, unless there is none or the account is blocked |
| `Awards.WelcomePaidOnce` | apps/api/src/points/points-awards.service.ts:26-41 | The welcome bonus is paid once per user, whatever was posted in between |
| `Awards.PointsAwardsService.AwardSignupBonus` | apps/api/src/points/points-awards.service.ts:26-41 | The method makes exactly the specified posting through the ledger object it was given |
| `Awards.PointsAwardsService.AwardEventAttendance` | apps/api/src/points/points-awards.service.ts:49-82 | Same, for an attendance: the no-op cases, the mismatch error and the posting |
| `Checkin.EveryRunKeeps` | apps/api/src/integrations/checkin/checkin.service.ts:79-298 | Every interleaving of deliveries, retries, aborts, lost replies, whole reviews, other ledger writers and event edits keeps the invariant: one attendance per runner and day, one journal row per (device, scan), credits matching approvals |
| `CheckinGuarantees.ExactlyOnce` | apps/api/src/integrations/checkin/checkin.service.ts:79-298 | From a fresh deployment, in every run: at most one journal row per (device, scan), one attendance per runner and event-start day, one credit per attendance, one journal row linked to an attendance |
| `CheckinGuarantees.JournalTellsTheTruth` | apps/api/src/integrations/checkin/checkin.service.ts:147-184 | In every reachable state each stored outcome is true: "matched" names an approved attendance of that runner, "duplicate" means the runner has one that day |
| `CheckinGuarantees.CreditsByKey` | apps/api/src/points/points-awards.service.ts:70-81 | In a ledger with unique keys an attendance's credits number one if its key is used and zero otherwise |
| `CheckinGuarantees.AwardConsistency` | apps/api/src/attendances/attendances.service.ts:39-76 | With whole reviews: pending and rejected attendances have no credit; an approved one has exactly what was due, under the event read then, at the step of the run that approved it, or none when nothing was; a decided status and amount never change |
| `CheckinGuarantees.AwardedWhenApproved` | apps/api/src/integrations/checkin/checkin.service.ts:266-277 | Over every run, an amount remembered for an attendance was due at a step on the way that approved it: a review, under the event stored then, or the check-in that created it, under the event its call had resolved |
| `CheckinGuarantees.CreditsWhatWasStored` | apps/api/src/integrations/checkin/checkin.service.ts:143-160 | The event a call credits is the one stored at the step of the run that resolved the call |
| `ReviewRaces.UncreditedExactly` | apps/api/src/attendances/attendances.service.ts:39-76 | Check and write apart, over every interleaving with check-in: no rejected attendance has a credit throughout if and only if no checked rejection ever writes to an attendance approved since with points due; then the whole check-in invariant holds |
| `ReviewRaces.RejectionKeepsExactly` | apps/api/src/attendances/attendances.service.ts:62-75 | A checked rejection keeps the check-in invariant if and only if its attendance has not been awarded points since |
| `ReviewRaces.FinalExactly` | apps/api/src/attendances/attendances.service.ts:39-76 | A status never changes again if and only if it is decided and no checked review of the other kind is waiting to write |
| `ReviewRaces.ApproveIsARun` | apps/api/src/attendances/attendances.service.ts:39-59 | An approval with nothing else running is the run check, write |
| `ReviewRaces.RejectIsARun` | apps/api/src/attendances/attendances.service.ts:62-76 | So is a rejection |
| `ReviewRaces.ApprovedThenRejected` | apps/api/src/attendances/attendances.service.ts:39-76 | Whenever an approval earns points, a rejection checked before it and written after it leaves the attendance rejected and credited |
| `ReviewRaces.RejectedYetCredited` | apps/api/src/attendances/attendances.service.ts:39-76 | The run from a fresh deployment that ends so, with 50 points |
| `CheckinGuarantees.BlockedLeavesNoTrace` | apps/api/src/integrations/checkin/checkin.service.ts:247-278 | With a blocked account a check-in that would have to award leaves attendances and ledger untouched |
| `CheckinGuarantees.BlockedReviewLeavesNoTrace` | apps/api/src/attendances/attendances.service.ts:39-59 | The same for an approval |
| `CheckinGuarantees.RepliesAgree` | apps/api/src/integrations/checkin/checkin.service.ts:79-100 | Any two replies ever given to one (device, scan) carry the same stored row |
| `CheckinGuarantees.RaceHidesTheCreator` | apps/api/src/integrations/checkin/checkin.service.ts:157-230 | The interleaving in which the credited attendance ends up linked from no journal row and both replies say "duplicate" |
| `CheckinLinks.RecordLinksExactly` | apps/api/src/integrations/checkin/checkin.service.ts:187-230 | The journal insert links the attendance its call created if and only if no row of that delivery is stored yet |
| `CheckinLinks.CreatedIsLinkedExactly` | apps/api/src/integrations/checkin/checkin.service.ts:157-230 | From a fresh deployment, in every run: an attendance a scan created is linked in the end if and only if its call records before it dies and before another delivery of the same (device, scan) does |
| `CheckinLinks.RaceFromOneRunner` | apps/api/src/integrations/checkin/checkin.service.ts:79-230 | A run from a fresh deployment in which that fails: one scan delivered twice, credited once, both replies "duplicate", no link |
| `CheckinService.CheckinService.CreateAttendanceAndAward` | apps/api/src/integrations/checkin/checkin.service.ts:240-298 | The retry loop ends as the first deciding database answer says, and fails after three conflicts retried |
| `CheckinService.CheckinService.ProcessScan` | apps/api/src/integrations/checkin/checkin.service.ts:79-185 | A delivery computes the specified database and reply: the stored row when the scan was seen before, the error answer and no change when the look-up of the occurrence throws |
| `CheckinService.CheckinService.RecordJournal` | apps/api/src/integrations/checkin/checkin.service.ts:187-233 | The journal insert returns the stored row, the winner's after a lost race |
| `CheckinService.CreditingIsARun` | apps/api/src/integrations/checkin/checkin.service.ts:240-298 | The loop, for every sequence of database answers, is a run of protocol steps |
| `CheckinService.DeliveryIsARun` | apps/api/src/integrations/checkin/checkin.service.ts:79-298 | A whole delivery, an error included, is a run of protocol steps, so the guarantees above are about this code |
| `CheckinService.DeliveredIsJournalledExactly` | apps/api/src/integrations/checkin/checkin.service.ts:136-185 | A device delivery has its row afterwards if and only if it does not end in an error, which takes a new scan of a known runner whose look-up throws; an error changes nothing |
| `ScanAnswers.SeenIsReplayed` | apps/api/src/integrations/checkin/checkin.service.ts:79-88 | A delivery seen before is answered with its stored row and changes nothing |
| `ScanAnswers.FailsExactly` | apps/api/src/integrations/checkin/checkin.service.ts:136-146 | From a device or a leader, a scan not seen before ends in an exception exactly for a known runner whose look-up throws, and then changes nothing |
| `ScanAnswers.AnsweredExactly` | apps/api/src/integrations/checkin/checkin.service.ts:131-184 | Otherwise it stores one new row about this scan, "unknown code" exactly without a runner, "no window" exactly for a runner without an event |
| `ScanAnswers.CreditedExactly` | apps/api/src/integrations/checkin/checkin.service.ts:147-184 | For a known runner and an open event: "matched" exactly when the transaction commits on a day free for the runner and nothing due is withheld, and then the attendance is approved and credited with exactly what is due; "duplicate" and "error" exactly when, and then nothing else changes |
| `CheckinOutcomes.LookUpThrowsExactly` | apps/api/src/events/event-occurrence.service.ts:353-404 | Looking up the open occurrence throws if and only if it has no row and every location is excluded that day, the scanned one among them, or its slug is taken |
| `CheckinOutcomes.ScanFateExactly` | devices/runbase-scanner/scanner.py:167-192 | A delivered scan is stored and accepted unless it is new, of a known runner, and the open occurrence cannot be made: then nothing is stored, and the scanner drops it if every location is excluded and keeps it if the slug is taken |
| `Redemptions.RedemptionsService.RedeemReward` | apps/api/src/rewards/redemptions.service.ts:76-187 | The method on mutable rewards, redemptions and ledger computes the specified call, checks in the source's order |
| `RedeemOutcomes.RedeemsExactly` | apps/api/src/rewards/redemptions.service.ts:76-187 | Under an unused request key a redeem succeeds if and only if the reward exists and is on offer (available, partner active, in its dates, not sold out), its cost is positive and covered by an account that is not blocked, and the code is free |
| `RedeemOutcomes.RedeemWrites` | apps/api/src/rewards/redemptions.service.ts:131-186 | It then writes one debit of the cost, one active redemption on it expiring in 14 days and one more sold; the balance falls by the cost and stays at zero or above |
| `RedeemOutcomes.RefusedExactly` | apps/api/src/rewards/redemptions.service.ts:93-186 | Each refusal with its condition, in the order of the checks; a refusal changes nothing |
| `RedeemOutcomes.RepeatedExactly` | apps/api/src/rewards/redemptions.service.ts:110-158 | Under a request key some redemption was made with: the same runner gets that redemption of the same reward back, anybody else is refused, and nothing changes |
| `RedeemOutcomes.RedeemIsARun` | apps/api/src/rewards/redemptions.service.ts:93-186 | A redeem with nothing else running is the run reward check, balance check, transaction that the overselling bounds are about |
| `Redemptions.RedemptionsService.RedeemTransaction` | apps/api/src/rewards/redemptions.service.ts:131-186 | The transaction with its code-retry loop commits all four writes or none; later codes never rescue a collision |
| `Redemptions.RedemptionsService.MarkUsedByCode` | apps/api/src/rewards/redemptions.service.ts:273-295 | Marks the redemption with the code used, or answers with the source's error and changes nothing |
| `RedeemOutcomes.UsedExactly` | apps/api/src/rewards/redemptions.service.ts:273-295 | In a sound shop a code is used if and only if its redemption is active and has not lapsed; each refusal with its condition |
| `RedeemOutcomes.UnknownCodeIsRefused` | apps/api/src/rewards/redemptions.service.ts:274-279 | Not found exactly when no redemption has the code |
| `RedeemOutcomes.MarkUsedIsARun` | apps/api/src/rewards/redemptions.service.ts:273-295 | With nothing else running it is the run check, write |
| `Redemptions.RedemptionsService.CancelRedemption` | apps/api/src/rewards/redemptions.service.ts:298-340 | Refund, status and sold count change together, or nothing does |
| `RedeemOutcomes.CancelsExactly` | apps/api/src/rewards/redemptions.service.ts:298-340 | In a sound shop a cancel succeeds if and only if the redemption is there, active and of an account not blocked; each refusal with its condition |
| `RedeemOutcomes.CancelWrites` | apps/api/src/rewards/redemptions.service.ts:310-339 | It then credits the cost back once, cancels the redemption and takes one off the sold count |
| `RedeemOutcomes.CancelIsARun` | apps/api/src/rewards/redemptions.service.ts:298-340 | With nothing else running it is the run check, write |
| `RedemptionRuns.EveryRunConserves` | apps/api/src/rewards/redemptions.service.ts:76-340 | Over every run of whole calls: each redemption is backed by its own debit of its own cost, refunds exist exactly for cancelled ones, net spend per user is the cost of the redemptions held, sold counts equal them per reward, and a decided status is final |
| `RedemptionRuns.ConservedFromOpening` | apps/api/src/rewards/redemptions.service.ts:76-340 | The same at the end of every run from a shop that has sold nothing |
| `RedemptionRuns.CancelUndoesRedeem` | apps/api/src/rewards/redemptions.service.ts:298-340 | Cancelling right after redeeming succeeds and restores every balance and every sold count |
| `RedemptionRuns.ActiveCanBeCancelled` | apps/api/src/rewards/redemptions.service.ts:306-339 | In a sound shop cancelling an active redemption of an active account never fails |
| `RedemptionRuns.RetryAnswers` | apps/api/src/rewards/redemptions.service.ts:112-121 | After any run, repeating a successful redeem changes nothing, and returns the same redemption if and only if the reward checks pass |
| `RedemptionExamples.RetryCanBeRefused` | apps/api/src/rewards/redemptions.service.ts:93-121 | The last unit is redeemed, and its retry with the same key is told it is sold out |
| `RedemptionExamples.CollisionIsFinal` | apps/api/src/rewards/redemptions.service.ts:162-183 | A redeem whose first code is taken is refused, though with another first code it would succeed |
| `RedemptionRuns.OneMaker` | apps/api/src/rewards/redemptions.service.ts:113-121 | At most one redemption was made under one request key |
| `RedemptionRuns.UsedRequestIsRefused` | apps/api/src/rewards/redemptions.service.ts:132-158 | A transaction under a key whose debit exists is refused and changes nothing, whoever sends it |
| `RedemptionRuns.ShownActiveIsAccepted` | apps/api/src/rewards/redemptions.service.ts:41-52 | A redemption is shown active exactly when the till would accept its code now, and expired exactly when the till would refuse it for expiry |
| `RedemptionRuns.RacingCancelsUndercount` | apps/api/src/rewards/redemptions.service.ts:303-339 | Two cancels past the status check: one refund, sold count two lower |
| `RedemptionRaces.CancelKeepsCountsExactly` | apps/api/src/rewards/redemptions.service.ts:313-339 | A cancel transaction that commits keeps sold counts and spend right if and only if the redemption is not cancelled already |
| `RedemptionRaces.UseKeepsExactly` | apps/api/src/rewards/redemptions.service.ts:286-295 | A mark-used write keeps conservation if and only if the redemption is not cancelled |
| `RedemptionRaces.ConservedExactly` | apps/api/src/rewards/redemptions.service.ts:273-340 | Over every interleaving of checks and writes: conservation holds throughout if and only if no checked call ever writes to a redemption cancelled since |
| `RedemptionRaces.FinalExactly` | apps/api/src/rewards/redemptions.service.ts:273-340 | A status never changes again if and only if it is decided and no checked call of the other kind is waiting to write |
| `RedemptionRaces.UsedThenRefunded` | apps/api/src/rewards/redemptions.service.ts:273-340 | A cancel and a mark-used that both passed their checks: used, then cancelled and refunded, books still right |
| `Overselling.SoldAtMost` | apps/api/src/rewards/redemptions.service.ts:93-186 | With at most k redeems of a reward in flight, in every interleaving sold <= capacity + k - 1 |
| `Overselling.BalanceAtLeast` | apps/api/src/rewards/redemptions.service.ts:123-186 | With at most k redeems of a user in flight and costs up to M, balance >= -(k - 1) M |
| `Overselling.BoundsAreReached` | apps/api/src/rewards/redemptions.service.ts:93-186 | For every k a start and a run that meet all hypotheses of both bounds and end exactly at both |
| `Recurrence.FirstOccurrenceOnOrAfter` | apps/api/src/events/event-occurrence.service.ts:540-553 | The least instant at or after `from` and the rule's first day with the rule's weekday and time, after at most 6 rolls |
| `Recurrence.SplitEvents` | apps/api/src/events/event-occurrence.service.ts:455-464 | Every shown event is either a standalone or indexed as the override of its (rule, day) |
| `Recurrence.IndexExclusions` | apps/api/src/events/event-occurrence.service.ts:466-476 | The map holds for every day exactly the locations some shown event of that day excludes |
| `Recurrence.ExpandRule` | apps/api/src/events/event-occurrence.service.ts:481-514 | The loop over weeks emits exactly the entries of the rule's days in scope, each once |
| `Recurrence.ListInRange` | apps/api/src/events/event-occurrence.service.ts:436-534 | The listing is exactly the declared set of occurrences, each id once, sorted by (start, type) |
| `ListingEntries.OwnEntryShows` | apps/api/src/events/event-occurrence.service.ts:481-514 | A listed rule occurrence nothing stands in for has its rule's type, time and length, and exactly the active locations no event shown excludes that day |
| `ListingEntries.ReplacedEntryShows` | apps/api/src/events/event-occurrence.service.ts:494-503 | One an event stands in for has the event's type, times and locations, or the rule's when the event has none |
| `ListingEntries.ReplacedExactly` | apps/api/src/events/event-occurrence.service.ts:481-514 | It is listed exactly when its instant is visited |
| `ListingEntries.StandaloneExactly` | apps/api/src/events/event-occurrence.service.ts:516-522 | An event is listed under its own id exactly when it is published, starts in the window and stands in for no occurrence, and then with its own type, times and locations |
| `ListingEntries.ListedInOrder` | apps/api/src/events/event-occurrence.service.ts:523-533 | Entries come by start, those of one instant special first, then partner, then regular |
| `ListingEntries.SpecialComesFirst` | apps/api/src/events/event-occurrence.service.ts:523-533 | A special run and a partner's event of the same instant: both listed, the special first |
| `RecurrenceViews.AlignedScope` | apps/api/src/events/event-occurrence.service.ts:481-513 | For whole-day windows the instants visited are exactly the rule's days between its dates and in the window |
| `RecurrenceViews.AlignedWindowIsExact` | apps/api/src/events/event-occurrence.service.ts:436-534 | For whole-day windows `rule:R:d` is listed if and only if R runs on d in the window and a published in-window override or an active location not excluded on d exists |
| `RecurrenceViews.MissedExactlyAfterLastMidnight` | apps/api/src/events/event-occurrence.service.ts:438-443 | For any window an expected occurrence is missed if and only if the rule's last midnight is before `from` |
| `RecurrenceViews.MissedExactly` | apps/api/src/events/event-occurrence.service.ts:438-443 | Some expected occurrence of a rule is missed if and only if its last day is one it runs on, `from` lies between that day's midnight and its occurrence, and `to` is not before it |
| `RecurrenceViews.OverrunExactly` | apps/api/src/events/event-occurrence.service.ts:487-491 | Some visited instant is outside what the window promises if and only if `to` falls on the rule's last day before its occurrence and `from` is not after that midnight; it is then that occurrence only |
| `RecurrenceExamples.LastDayMissed` | apps/api/src/events/event-occurrence.service.ts:438-443 | A rule and a window whose last occurrence is missed |
| `RecurrenceExamples.ShownAfterTheEnd` | apps/api/src/events/event-occurrence.service.ts:487-491 | A rule and a window with an occurrence past its end |
| `RecurrenceViews.DetailAcceptsCalendarDays` | apps/api/src/events/event-occurrence.service.ts:112-138 | The detail view accepts exactly the calendar days of an active rule |
| `RecurrenceViews.ListAndDetailAgree` | apps/api/src/events/event-occurrence.service.ts:112-215 | Without an override row an id is listed if and only if the detail view accepts it with a location left, and both give the same start, end and locations |
| `RecurrenceViews.AnyWindowIsExact` | apps/api/src/events/event-occurrence.service.ts:436-534 | In any window an occurrence without an override row is listed if and only if its instant is visited and some active location is not excluded by an event shown |
| `RecurrenceViews.AnyWindowAgrees` | apps/api/src/events/event-occurrence.service.ts:425-534 | In any window what is listed is known to the detail view at the same times, with the same locations if and only if no active location is excluded that day only by events outside the window |
| `RecurrenceExamples.ExclusionOutsideTheWindow` | apps/api/src/events/event-occurrence.service.ts:425-429 | A special at midnight whose exclusion a window starting a millisecond later does not see |
| `RecurrenceViews.OverrideViewsAgree` | apps/api/src/events/event-occurrence.service.ts:140-215 | With an override row the two views give the same times if and only if the row is visible in the window or has the rule's own times, and the same locations too under the condition stated on the row's and the rule's locations |
| `RecurrenceExamples.DraftSplitsTheViews` | apps/api/src/events/event-occurrence.service.ts:140-152 | A draft override the detail view shows and the listing does not |
| `CheckinChoice.FindOpenCheckinOccurrence` | apps/api/src/events/event-occurrence.service.ts:353-404 | Null if and only if no eligible rule at the location is open at `at`; otherwise an open rule no other open one beats on (type, distance of start) |
| `CheckinWindows.ChosenExactly` | apps/api/src/events/event-occurrence.service.ts:353-384 | A scan gets a run if and only if some points-eligible rule of the location runs that day and the scan is from an hour before its start to half an hour after its end |
| `CheckinWindows.ChosenBeatsOthers` | apps/api/src/events/event-occurrence.service.ts:386-402 | It gets a special run if one is open, a regular one only if all open ones are, and the nearest start among those of its type |
| `CheckinWindows.EdgesOfTheWindow` | apps/api/src/events/event-occurrence.service.ts:376-384 | A run from ten to eleven is open at 9:00 and 11:30 and not a millisecond before or after |
| `CheckinChoice.OpenOccurrenceHasDetail` | apps/api/src/events/event-occurrence.service.ts:357-384 | An open occurrence is accepted by the detail view, which shows the scanned location if and only if no published event of the day excludes it |
| `CheckinChoice.OpenCheckinEvent` | apps/api/src/events/event-occurrence.service.ts:353-404 | The whole call: null, the row of the chosen occurrence made if need be, or the refusal of making it |
| `CheckinChoice.OpenRefusedExactly` | apps/api/src/events/event-occurrence.service.ts:397-404 | Making the row of an open occurrence is refused if and only if none exists and every location is excluded that day or its slug is taken |
| `RecurrenceExamples.OpenWhereExcluded` | apps/api/src/events/event-occurrence.service.ts:353-404 | A special has taken the only location; a scan there finds the regular run open and is then refused |
| `Materialize.EventOccurrenceService.EnsureMaterializedEvent` | apps/api/src/events/event-occurrence.service.ts:235-344 | The method computes the specified row or error on a mutable catalog |
| `MaterializeAnswers.ExistingIsReturned` | apps/api/src/events/event-occurrence.service.ts:239-243 | A day that has its row gets it back unchanged |
| `MaterializeAnswers.UnknownRuleIsRefused` | apps/api/src/events/event-occurrence.service.ts:245-251 | Without one, refused for a rule that is missing or not active |
| `MaterializeAnswers.RefusedExactly` | apps/api/src/events/event-occurrence.service.ts:252-343 | For an active rule: refused on another weekday, then without a location left, then with the slug taken; otherwise made |
| `MaterializeAnswers.MadeRow` | apps/api/src/events/event-occurrence.service.ts:296-326 | The row made is published, of the rule's type and time, stands in for the day, excludes nothing and has exactly the locations left |
| `MaterializeAnswers.OtherDaysAreFree` | apps/api/src/events/event-occurrence.service.ts:290-299 | Making one day's row changes no answer for the rule's other days |
| `MaterializeAnswers.SlugsClashExactly` | apps/api/src/events/event-occurrence.service.ts:290-293 | Slugs clash exactly for one day and ids that share eight digits |
| `MaterializeAnswers.EnsureIsARun` | apps/api/src/events/event-occurrence.service.ts:235-344 | A call with nothing else running is the run look-up, rule, exclusions, insert, re-read |
| `Materialize.EveryCallReturnsTheOneRow` | apps/api/src/events/event-occurrence.service.ts:235-344 | Under every interleaving of callers and admin edits at most one row per (rule, day) exists, and all calls that return give that row |
| `Materialize.CreatedLocations` | apps/api/src/events/event-occurrence.service.ts:262-329 | A created row has locations: those its call read, the rule's active ones minus the exclusions in force when no edit came since |
| `MaterializeEdits.CreatedInForceExactly` | apps/api/src/events/event-occurrence.service.ts:262-329 | Whatever was edited between read and insert: the row has the locations in force if and only if, going by the last saved versions of the rule and of each event, the locations read are exactly those active and excluded by none |
| `MaterializeEdits.CreatedUnderEventEdits` | apps/api/src/events/event-occurrence.service.ts:268-329 | With right reads and the rule not saved again: if and only if no last saved version of an event excludes a location read, and every other active location is still excluded |
| `MaterializeEdits.CreatedDespiteNewEvents` | apps/api/src/events/event-occurrence.service.ts:268-329 | When the edits only add events: if and only if none of them is published and excludes one of the locations read |
| `MaterializeEdits.NewEventFlips` | apps/api/src/events/event-occurrence.service.ts:268-279 | A new event closes exactly the open locations it excludes, if published |
| `MaterializeEdits.EditedEventFlips` | apps/api/src/events/event-occurrence.service.ts:268-279 | An edited event opens or closes exactly the active locations no other event excludes and only one of its versions does |
| `MaterializeEdits.SavedRuleFlips` | apps/api/src/events/event-occurrence.service.ts:280-282 | A saved rule opens or closes exactly its unexcluded locations that only one of its versions has active |
| `MaterializeEdits.ReadsAreInForce` | apps/api/src/events/event-occurrence.service.ts:245-282 | A call whose rule was not edited between its two reads has read the locations in force |
| `Materialize.EnsureVersusDetail` | apps/api/src/events/event-occurrence.service.ts:249-287 | When a call succeeds, in terms of the detail view, both directions, and that the row then has the detail's times and locations |
| `RecurrenceExamples.MadeBeforeTheStart` | apps/api/src/events/event-occurrence.service.ts:249-261 | A day before its rule starts, which the detail view refuses and a call materializes |
| `Materialize.LateExclusionIsMissed` | apps/api/src/events/event-occurrence.service.ts:268-329 | An exclusion committed between the read and the insert is not applied |
| `RecurrenceExamples.NoonIsMissed` | apps/api/src/events/event-occurrence.service.ts:268-329 | A run of one call and one edit in which that happens |
| `Materialize.SharedPrefixIsRefused` | apps/api/src/events/event-occurrence.service.ts:290-343 | Of two rules that could each be materialized on a day, the second succeeds after the first if and only if their ids differ in the first eight digits |
| `RecurrenceExamples.TwinIsRefused` | apps/api/src/events/event-occurrence.service.ts:290-343 | Two rules, either of which can be materialized on a day and not both |
| `Wifi.ParseWifiQr` | devices/runbase-scanner/scanner.py:310-342 | The indexed loop, total and in bounds with a decreasing measure, computes the parse defined by feeding one character at a time |
| `Wifi.EscapeReadsBack` | apps/web/src/components/admin/wifi-qr-generator.tsx:10-12 | Parsing an escaped value gives the value back, whatever follows |
| `WifiGroups.EscapesExactly` | apps/web/src/components/admin/wifi-qr-generator.tsx:10-12 | The printer escapes backslash, semicolon, comma and colon, and nothing else |
| `Wifi.RoundTrip` | apps/web/src/components/admin/wifi-qr-generator.tsx:10-20 | For every non-empty ssid and every password, parsing the printed payload returns exactly them and the type; likewise for open networks |
| `Wifi.PrinterInjective` | apps/web/src/components/admin/wifi-qr-generator.tsx:14-20 | Equal payloads come from equal settings |
| `WifiGroups.AnyGroupsRead` | devices/runbase-scanner/scanner.py:310-342 | Codes of any generator, groups in any order, colons and commas escaped or not, with any unfinished end: a network exactly when the last S group is not empty; password and type are the last P and T, "" and "WPA" without one |
| `WifiGroups.LastBackslashStays` | devices/runbase-scanner/scanner.py:318-322 | A backslash that ends the code stands for itself |
| `Keyboard.EvdevKeymaps` | devices/runbase-scanner/scanner.py:275-307 | The built tables are the US layout in both shift positions, and nothing else |
| `Keyboard.EveryCharacterHasItsKey` | devices/runbase-scanner/scanner.py:281-306 | Every printable ASCII character is typed by some key in some shift position |
| `Keyboard.ReadCodesHid` | devices/runbase-scanner/scanner.py:236-267 | The event loop yields exactly the codes the one-event transition defines |
| `Keyboard.TypedRoundTrip` | devices/runbase-scanner/scanner.py:247-267 | However a list of printable strings is typed (either shift key, per character or held, releases, repeats, other reports), the decoder yields exactly that list |
| `Keyboard.NothingTyped` | devices/runbase-scanner/scanner.py:255-267 | Enter on an empty line yields nothing, and a key without a character adds none |
| `Keyboard.PrintedNetworkIsJoined` | devices/runbase-scanner/scanner.py:391-413 | Print, type, decode, dispatch joins exactly the printed network and submits no scan |
| `Keyboard.PrintableCredentialsCanBeTyped` | devices/runbase-scanner/scanner.py:275-307 | Every configuration with printable credentials has such a typing, so the chain is the identity on all of them |
| `ScannerLoop.HandleCodes` | devices/runbase-scanner/scanner.py:401-413 | The loop over decoded codes ignores the short ones, joins the networks and submits every other one, in order, with its stamp |
| `ScannerLoop.DispatchExactly` | devices/runbase-scanner/scanner.py:403-413 | A code is ignored exactly when too short, joined only with the Wi-Fi prefix and a name, else submitted; always submitted without the prefix |
| `ScannerLoop.NothingDropped` | devices/runbase-scanner/scanner.py:401-413 | Every code long enough is joined or submitted |
| `ScannerLoop.TypedCodesAreSubmitted` | devices/runbase-scanner/scanner.py:236-267 | However runners' codes are typed, decoder and loop submit exactly them, in order |
| `ScannerLoop.TypedCodesAreJournalled` | devices/runbase-scanner/scanner.py:401-413 | From keystroke to row: whatever happens at scanner and server afterwards, once nothing is left each typed code's scan has its journal row unless a POST of it was refused |
| `Outbox.OutboxFile.Drain` | devices/runbase-scanner/scanner.py:145-158 | Empties the file and returns its readable scans in order |
| `Outbox.Sender.WorkerTurn` | devices/runbase-scanner/scanner.py:213-225 | One turn takes the oldest scan and buffers it exactly when undelivered |
| `Outbox.Sender.FlusherTurn` | devices/runbase-scanner/scanner.py:227-233 | One flush leaves exactly the undelivered scans of the drained batch in the file, in order |
| `Outbox.WorkerTurnIsARun` | devices/runbase-scanner/scanner.py:213-225 | A turn of the worker is the run take, post, buffer of the protocol |
| `Outbox.FlusherTurnIsARun` | devices/runbase-scanner/scanner.py:227-233 | A turn of the flusher is the run drain, then post and put back, scan by scan |
| `Outbox.NoScanLost` | devices/runbase-scanner/scanner.py:133-233 | In every crash-free interleaving each submission is in exactly one of queue, worker's hand, file, flusher's batch or hand, handled |
| `Outbox.NoScanLostFromBoot` | devices/runbase-scanner/scanner.py:133-233 | The same from start-up, and every scan answered with a 2xx is stored by the server |
| `Outbox.LostReplyIsStored` | devices/runbase-scanner/scanner.py:176-192 | A lost reply leaves a scan stored that the scanner buffers as undelivered |
| `Outbox.CalmStepsDescend` | devices/runbase-scanner/scanner.py:213-233 | With POSTs delivered and submissions stopped, every step that changes anything lowers a measure, draining an empty file apart |
| `Outbox.SomeoneCanMove` | devices/runbase-scanner/scanner.py:213-233 | While anything is left some thread has a step that lowers it, whatever 2xx or 4xx its POST is answered with |
| `Outbox.NothingLeft` | devices/runbase-scanner/scanner.py:213-233 | Measure zero means everything submitted was handled |
| `Outbox.OneFlushHandlesEverything` | devices/runbase-scanner/scanner.py:206-233 | After any past and from any point of it, with any mix of 2xx and 4xx answers: finishing what is in hand, emptying the queue and one flush handle every scan submitted, each stored or refused |
| `ScanDelivery.EveryScanAccounted` | devices/runbase-scanner/scanner.py:167-233 | Scanner and server together, over every run with lost replies, retries and crashes of calls: each scan is in one place, each 2xx has its one journal row, and when nothing is left every scan has its row or was refused |
| `ScanDelivery.StoredOnlyByInserts` | apps/api/src/integrations/checkin/checkin.service.ts:187-233 | Over every run of scanner and server nothing but the insert of a call of its own delivery gives a scan a row, and nothing takes it away |
| `ScanDelivery.DeliveredExactly` | devices/runbase-scanner/scanner.py:167-192 | A POST answered with a 2xx means its scan has a row; one refused leaves the journal as it was |
| `ScanDelivery.RefusedScanLeavesNoTrace` | devices/runbase-scanner/scanner.py:185-189 | One scan, one refused POST: handled for the scanner, unknown to the server |
| `Cleanup.LosersAreTheRest` | apps/api/scripts/cleanup-duplicate-attendances.ts:86-96 | The attendances deleted are exactly those that are not their group's winner |
| `Cleanup.WinnerIsMinimal` | apps/api/scripts/cleanup-duplicate-attendances.ts:89-96 | No attendance of a group precedes its winner under (special, partner, regular; match time) |
| `CleanupOutcomes.SpecialStays` | apps/api/scripts/cleanup-duplicate-attendances.ts:86-96 | What stays of a day is a special attendance if it has one, a regular one only if it has no other, and the first matched of its type |
| `Cleanup.DeleteAllBalances` | apps/api/scripts/cleanup-duplicate-attendances.ts:107-140 | Deleting any distinct attendances keeps the ledger sound and takes exactly their credits off their owners |
| `Cleanup.AppliedRun` | apps/api/scripts/cleanup-duplicate-attendances.ts:51-142 | After an applied run each (user, day) has exactly its winner, balances fell by exactly the losers' credits, the ledger is sound |
| `CleanupOutcomes.CleanupWrites` | apps/api/scripts/cleanup-duplicate-attendances.ts:107-140 | The rows added are exactly one reversal per deleted attendance that earned anything, a debit of what was credited for it, in order of deletion |
| `CleanupScript.Script.GroupAll` | apps/api/scripts/cleanup-duplicate-attendances.ts:51-75 | One pass fills the Map with every group in row order and every attendance's credited points |
| `CleanupScript.Script.DeleteLoser` | apps/api/scripts/cleanup-duplicate-attendances.ts:108-139 | One transaction reverses the credit read and deletes the row; credited points of every attendance stay |
| `CleanupScript.Script.Run` | apps/api/scripts/cleanup-duplicate-attendances.ts:39-146 | The nested loops end in the specified state; a dry run changes nothing |
| `CleanupScript.GroupsGiveOrder` | apps/api/scripts/cleanup-duplicate-attendances.ts:52-96 | Walking the Map's groups visits the losers in the order the specification recurses |
| `CleanupResume.SecondRunChangesNothing` | apps/api/scripts/cleanup-duplicate-attendances.ts:77-82 | A second run deletes nothing and changes nothing |
| `CleanupResume.StopAndRerun` | apps/api/scripts/cleanup-duplicate-attendances.ts:107-140 | Stopped at any transaction boundary and repeated: the same attendances, balances and set of postings |
| `CleanupResume.ResumeOrder` | apps/api/scripts/cleanup-duplicate-attendances.ts:52-107 | The rerun deletes in the original order if and only if the first group with a counting loser left is the one the next such loser belongs to |
| `CleanupResume.ResumedLedger` | apps/api/scripts/cleanup-duplicate-attendances.ts:107-140 | The rerun's final state is the uninterrupted one, rows in order included, if and only if that holds for the losers with credit |
| `CleanupExample.ReorderedAfterStop` | apps/api/scripts/cleanup-duplicate-attendances.ts:52-107 | Five attendances on two days and a stop after the first transaction, where it does not hold |
| `Paging.PagingIsComplete` | apps/api/src/points/points.service.ts:151-178 | Following the cursor to null lists every matching row of the first request exactly once in descending order, however many newer rows arrive meanwhile |
| `Paging.EndpointIsComplete` | apps/api/src/points/points.service.ts:102-178 | For the runner's history and the admin listing with their clamps and filters: every page of the walk is the endpoint's answer to the cursor before it, and the pages hold every row of the first request exactly once, newest first |
| `PagingRequests.WalkListsTheWanted` | apps/api/src/points/points.service.ts:102-178 | Whose rows: the runner's own history, or all of the user and reason asked for. All pages but the last are full, and together they list exactly the wanted rows of the first request, newest first |
| `PagingRequests.PageSizes` | apps/api/src/points/points.service.ts:102-150 | 20 rows to a page of the history, between 1 and 100 if asked for; 50 and between 1 and 200 for the admin listing |
| `PagingRequests.UnknownCursorIsEmpty` | apps/api/src/points/points.service.ts:120-128 | A cursor that names no row gets an empty last page |
| `Paging.RequestsIsCeiling` | apps/api/src/points/points.service.ts:163-164 | The number of requests that takes is max(1, n / take rounded up) |
| `Paging.NothingSkippedOrRepeated` | apps/api/src/points/points.service.ts:102-128 | If rows arrive anywhere in the order, a finished walk still descends strictly, repeats nothing and misses no row of the first request |
| `Paging.TailIsStable` | apps/api/src/points/points.service.ts:158-162 | The rows behind a listed row are the same at every later request |
| `Interests.EventInterestsService.MarkGoing` | apps/api/src/event-interests/event-interests.service.ts:40-84 | The method on mutable rows and catalog computes the specified call: check order, errors, materialized row, update or insert |
| `Interests.EventInterestsService.AssertNoConflictingInterest` | apps/api/src/event-interests/event-interests.service.ts:271-290 | The scan reports a conflict if and only if another RSVP of the runner that is on has the same known date |
| `Interests.EventInterestsService.Cancel` | apps/api/src/event-interests/event-interests.service.ts:87-97 | Turns off exactly the named RSVP if it is on |
| `RsvpOutcomes.GoingExactly` | apps/api/src/event-interests/event-interests.service.ts:40-84 | A call succeeds if and only if it names a published event or an active rule, the location is open, a rule's day has its row or can get one, and no other RSVP of the runner is on for that date; it then has exactly one RSVP under the key, on, at the location |
| `RsvpOutcomes.RefusedExactly` | apps/api/src/event-interests/event-interests.service.ts:45-60 | Each refusal with its condition, in the order of the checks |
| `RsvpOutcomes.CancelledExactly` | apps/api/src/event-interests/event-interests.service.ts:87-97 | Cancelling turns off the runner's RSVP under the key if it is on, and leaves every other row alone |
| `RsvpOutcomes.MarkIsARun` | apps/api/src/event-interests/event-interests.service.ts:40-84 | A call with nothing else running is the run checks, look-up, write |
| `InterestRuns.OnePerDayExactly` | apps/api/src/event-interests/event-interests.service.ts:40-97 | Over every interleaving of conflict checks, look-ups, writes, cancels and admin edits: one row per (user, key) and one RSVP on per (user, date) throughout, if and only if no checked call ever writes while another RSVP of its date is on |
| `InterestRuns.EveryRunKeeps` | apps/api/src/event-interests/event-interests.service.ts:40-97 | That never happens, and rows are never lost, when no two calls of one runner for different events of one date overlap, all other overlaps allowed |
| `InterestRuns.OnePerDayFromOpening` | apps/api/src/event-interests/event-interests.service.ts:40-97 | The same from an empty table |
| `InterestRuns.TwoRsvpsOneDate` | apps/api/src/event-interests/event-interests.service.ts:58-84 | Two events, one runner and two calls at once after which both RSVPs of one date are on |
| `Interests.MarkGoingMeans` | apps/api/src/event-interests/event-interests.service.ts:45-84 | Exactly when a call succeeds, and that its key is then the runner's one RSVP of that date; a refusal changes no RSVP |
| `Interests.MarkingTwiceIsMarkingOnce` | apps/api/src/event-interests/event-interests.service.ts:62-84 | The same call again changes nothing and returns the same row |
| `Interests.CancelFreesTheDay` | apps/api/src/event-interests/event-interests.service.ts:87-97 | After cancelling the RSVP that held a date no conflict is left on it |
| `Interests.WriteExactly` | apps/api/src/event-interests/event-interests.service.ts:62-84 | A write that succeeds keeps one RSVP per date if and only if no other one of that date is on |
| `Interests.RacingMarksExactly` | apps/api/src/event-interests/event-interests.service.ts:58-84 | Two calls of one runner for different events that both passed the check keep one RSVP per date if and only if their dates differ |
| `Timeline.IndexOverrides` | apps/api/src/me/me-timeline.service.ts:117-150 | For every listed occurrence the batched IN x IN index gives the same backing id as the single look-up |
| `Timeline.IndexAttendances` | apps/api/src/me/me-timeline.service.ts:152-182 | The batched index gives for every wanted event the attendance the single look-up finds |
| `Timeline.SumCredits` | apps/api/src/me/me-timeline.service.ts:168-181 | The map holds the sum of each attendance's credits |
| `Timeline.GroupByDate` | apps/api/src/me/me-timeline.service.ts:283-292 | Every day of the listing once, each with exactly its events in listing order |
| `Timeline.MakeGrid` | apps/api/src/me/me-timeline.service.ts:206-279 | One cell per distinct day in strictly increasing order, each equal to the cell built from single look-ups; done is the number of done cells and at most total |
| `Timeline.Build` | apps/api/src/me/me-timeline.service.ts:83-98 | The grid is that of the month's listing, or of both months' when the month has fewer than four days of events |
| `Timeline.CellIsDone` | apps/api/src/me/me-timeline.service.ts:206-262 | A cell is done if and only if the runner has an attendance on the event behind some occurrence of that day; points and the RSVP mark appear only where they may |
| `TimelineCells.KindExactly` | apps/api/src/me/me-timeline.service.ts:206-238 | The face is of the day; done exactly when attended, skipped when over, today, tomorrow, and soon only for a regular run two or three days ahead |
| `TimelineCells.GoingExactly` | apps/api/src/me/me-timeline.service.ts:254-262 | The RSVP mark appears exactly on an unattended, unfinished day up to three ahead with an RSVP on for its face |
| `TimelineCells.PointsExactly` | apps/api/src/me/me-timeline.service.ts:213-252 | Points are what was credited to the runner for the attendance of the first attended event of the day, shown exactly when positive |
| `TimelineCells.FaceIsEarliest` | apps/api/src/me/me-timeline.service.ts:210-212 | The face starts no later than any event of its day, and among those of its instant a special one comes first |
| `TimelineCells.TotalsExactly` | apps/api/src/me/me-timeline.service.ts:266-274 | The totals are the number of days and of days attended |
| `Timeline.BackingIsInjective` | apps/api/src/me/me-timeline.service.ts:143-150 | No two listed ids share a backing event, so an attendance marks one occurrence |
| `Timeline.FaceIsSpecial` | apps/api/src/me/me-timeline.service.ts:210-212 | On a day with a special event the face is special if and only if some special starts no later than every other event |
| `Timeline.RegularFacesTheDay` | apps/api/src/me/me-timeline.service.ts:210-212 | A well-formed catalog whose every listing of the day has the earlier regular run as its face and a special event later |

## Left out

- Text of dates, ids and keys: days are numbers, idempotency keys are constructors, so that textual
  prefixes keep keys apart is assumed; a time of day that does not parse is not modelled.
- DST, servers whose local day differs from the UTC day, and check-in windows that cross midnight: one zone.
- The cleanup beside concurrent ledger writers: it reads balances and writes them back in a transaction of
  the default isolation level, so its steps are modelled with nothing else running.
- Checkin.EveryRunKeeps: each review is one step there; `review_races.dfy` splits check and write. Event start
  times are held fixed and the day of an attendance is that of its event; moving an event after people
  attended it is outside the claim.
- Overselling.SoldAtMost: capacity is held fixed during a run; the other fields of a reward may change.
- Overselling.BalanceAtLeast: no other debits than redemptions, as the bound is about those.
- InterestRuns.EveryRunKeeps: stored events keep their start day; `rekey-orphan-event-interests.ts`, which
  rewrites keys, is not part of this model.
- Paging.NothingSkippedOrRepeated: Prisma's cursor is taken to continue behind the cursor's row in the
  requested order, and rows are never deleted while a client pages.
- CheckinGuarantees.AwardConsistency: for whole reviews; `review_races.dfy` says when split ones keep it.
- CheckinChoice.FindOpenCheckinOccurrence: it ends with the choice; the row made for it is in
  CheckinChoice.OpenCheckinEvent.
- RecurrenceViews.ListAndDetailAgree: for whole-day windows, where the views agree without exception; any other
  window is in RecurrenceViews.AnyWindowAgrees.
- Materialize.CreatedLocations: the exact condition under edits is in `materialize_edits.dfy`.
- InterestRuns.OnePerDayExactly: materializing, the checks and the read of the runner's other RSVPs are one step.
- Timeline.Build: month boundaries are inputs; labels, titles, the month name and the rounded percentage are
  left out, as the rounding adds nothing.
- RedemptionRuns.EveryRunConserves: each call is one step there; `redemption_races.dfy` splits check and write.
- ScanDelivery.EveryScanAccounted: one device; other devices and leaders are ordinary steps of the server.
- Outbox.NoScanLost: crashes of the scanner, a full disk, non-JSON replies and `drain_and_wait`.
- The text and the colour a scan's answer is shown with; JSON, HTTP, GPIO, cameras, `nmcli`, device authentication and the heartbeat of a device.
- Public attendee lists and name shortening, counts per location, dashboard aggregates, CRUD of events,
  locations and rewards, e-mail and sessions: they would add only easy members.
- Random codes and ids are arbitrary choices; their length and alphabet are not modelled.
