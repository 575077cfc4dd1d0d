# Billing, notification and catalog: a verified model

A model of the parts of this billing and CRM backend that carry real algorithms or protocols, with proofs about them.
One module per component; `Wrappers`, `Text`, `Digits`, `Sorting`, `Grouping`, `Traces` and `Calendar` hold what several share.

| module | models |
|---|---|
| `Calendar`, `Period` | billing periods: calendar months, clamping, negative counts |
| `Pricing` | line pricing, quotation totals, printing to two decimals |
| `Template`, `Rescan` | the `{{key}}` scanner, the renderer that rescans its own output, and what that means |
| `FrameLimit` | the streaming frame limiter in front of the RouterOS client |
| `Outbox` | workers claiming and marking outbox events |
| `NotificationLog` | dispatching, retrying and cancelling one notification log |
| `AssetStore` | uploads, deletions and the storage quota |
| `PublicLink` | `Ensure`, `Revoke`, `Resolve` of public document links |
| `RateLimit` | the fixed-window request limiter |
| `Catalog` | the public catalog: categories, cards, variants |
| `Entitlements` | the diff of entitlements and the free plan built from it |
| `CacheKey` | tenant cache keys |
| `Rupiah` | amounts in documents |

How the concurrent components are modelled. A `State` and a `Step` type say what one SQL statement, transaction or call
of another service does; a trace is a list of steps, and `Reach` gives the state it leads to if every step can be taken.
A worker or request that stops simply takes no further step. Theorems hold for every trace. Beside each protocol stands
the class that carries it out method by method, on real fields: ghost fields record the trace, and a method that lets
the others run in between knows nothing about them except that they took steps of the protocol too.

A loop or a method that updates state in the source is a method here, proved against a function or a step of the protocol;
the theorems are about those.
Amounts are exact rationals, as `big.Rat` holds them.

## What the proofs found

- A period of a frequency outside the table is empty, so no date lies in one (`Period.PeriodsExistOnlyForListed`).
- Rendering by rescanning is simultaneous substitution, for every text the renderer accepts, iff of any two variables of
  the registry the value of the one leaves no brace open and holds no placeholder of the other, unless that is the other's
  own value (`Rescan.RendersBySubstitutionIffHarmless`). So a value `{x` is harmless, one that ends in `{` is not, and where
  the registry knows one variable every value is harmless.
- Pricing a printed line again gives the same result at every price in cents iff the quantity has no more than two
  decimals and, unless it is zero, the discount has no more than two and, unless that is 100 percent, the tax has no more
  than two; and likewise for the price (`Pricing.QuantityRepricesIff`, `Pricing.PriceRepricesIff`). So one piece at 10000.00
  with a discount of 33.333 percent is 3333.30 off at first, and 3333.00 when priced again from what was printed
  (`Pricing.ThirdOffChanges`).
- With a header tax, the printed grand total misses the printed parts by a cent exactly when a negative tax ends in half
  a cent and does not outweigh the net (`Pricing.HeaderTaxAgreesUnlessHalfCent`). The one caller,
  internal/modules/crm/service/quotation_pricing.go:47-53, rejects negative taxes and passes two decimals, so only a
  direct call of `WithTaxTotal` meets the exception.
- A log is sent at most once iff the deployment is not mixed (`NotificationLog.SendsAtMostOnceUnlessMixed`): a process
  without the dispatcher marks from an old snapshot, without a status guard, and can turn `sent` into `dead`, which a
  retry then sends again.
- For the same reason `sent` and `cancelled` are final iff no process lacks the dispatcher, or all do and the maximum is
  at least two (`NotificationLog.OverIsFinalIff`). internal/app/app.go:128-137 registers dispatchers that
  cmd/worker/main.go:189-196 does not.
- Snapshots are read without a lock, so a failed log can be out of attempts and never retried, unless the maximum is one
  or there is no process at all (`NotificationLog.FailedHasAttemptsIff`). For outbox events this cannot happen
  (`Outbox.AttemptsAreBounded`).
- An outbox event claimed by a worker that stops stays `processing` for good (`Outbox.AbandonedStaysProcessing`).
- The most that the limiter lets through in one window is exactly twice its limit, or three times when the window has a
  fraction of a second (`RateLimit.MostInOneWindow`); a window under one second divides by zero
  (`RateLimit.Limiter.Handle`).
- Checking the quota and inserting the row are apart, so `k` uploads at once can pass the limit by up to `k - 1` times the
  largest object that fits the limit, 10 MiB at most, and can reach that for every limit (`AssetStore.UsageStaysNearLimit`,
  `AssetStore.CeilingIsReached`).
- Printing an amount drops its sign, so an amount reads back iff it is above minus half a cent
  (`Rupiah.AmountReadsBackIffNotNegative`).
- Canonicalizing a segment twice is not always canonicalizing it once: white space can come out from under an underscore
  (`CacheKey.CanonicalTwice`, `CacheKey.TabComesOut`).
- Once a plan's changes are applied, planning again finds nothing iff there was nothing or the target can be encoded;
  limits that cannot be encoded are proposed again and again (`Entitlements.ReplanningIsEmpty`).
- Two organizations can share a cache key iff the id of one is the id of the other, a colon, and canonical segments with
  colons between (`CacheKey.OrganizationsShareKeysIff`).

## Model

| member | source | states |
|---|---|---|
| Calendar.DaysAreDates | internal/shared/pricing/period.go:8-9 | every integer is the day number of exactly one valid Gregorian date |
| Calendar.DayOrderIsLexicographic | internal/shared/pricing/period.go:7-24 | day numbers order dates as (year, month, day) does, and tell them apart |
| Calendar.DayNumberIs | internal/shared/pricing/period.go:8-9 | day numbers in closed form, with no month table and no leap-year test |
| Calendar.ValidIs | internal/shared/pricing/period.go:8-9 | which dates exist: 30 days in months 4, 6, 9 and 11, 28 or 29 in month 2, 31 in the others |
| Calendar.Carry | internal/shared/pricing/period.go:12-15 | a day out of its month's range carries to the valid date that many days after the month's start |
| Calendar.NormalizeInRange | internal/shared/pricing/period.go:23 | `time.Date` keeps a date that exists |
| Calendar.NormalizeDayZero | internal/shared/pricing/period.go:22 | day 0 of the next month is the last day of this one, so `last` is the month's length |
| Period.TargetMonthFloors | internal/shared/pricing/period.go:17-21 | the sign test around truncated division makes it floor division, for negative totals too |
| Period.AddMonthsLands | internal/shared/pricing/period.go:16-24 | the result lies exactly n months later, on the start's day clamped to that month's end |
| Period.AddPeriodLands | internal/shared/pricing/period.go:7-24 | n days, 7n days, or n, 3n, 6n, 12n months later, there on the start's day or the month's last if that day does not exist; an unlisted frequency stays |
| Period.AddPeriodValid | internal/shared/pricing/period.go:7-24 | every period start is a date that exists |
| Period.AddZeroPeriods | internal/shared/pricing/period.go:7-24 | zero periods is the start, for every frequency |
| Period.AddPeriodIncreases | internal/shared/pricing/period.go:7-24 | more periods is strictly later, negative counts included |
| Period.RangesAbut | internal/shared/pricing/period.go:26-29 | each range is non-empty, and the next begins the day after it ends |
| Period.CountSignIsSideOfStart | internal/shared/pricing/period.go:26-29 | the count of a date's range is non-negative iff the date is on or after the start |
| Period.PeriodsPartitionCalendar | internal/shared/pricing/period.go:7-29 | every date lies in exactly one range over all integer counts, non-negative ones from the start on |
| Period.PeriodsExistOnlyForListed | internal/shared/pricing/period.go:16 | a date has a period iff the frequency is in the table |
| Period.LongPeriodsAreShortOnes | internal/shared/pricing/period.go:10-17 | n quarters, semesters, years are 3n, 6n, 12n months; n weeks are 7n days |
| Period.ChainedMonths | internal/shared/pricing/period.go:16-23 | a months then b months lands in the month of a + b, never later, at most 3 days earlier, and on the same day iff the intermediate day is no smaller |
| Period.ChainedDays | internal/shared/pricing/period.go:11-15 | days chain exactly |
| Period.ChainedPeriods | internal/shared/pricing/period.go:7-24 | the same for every frequency |
| Period.StepBackReturns | internal/shared/pricing/period.go:7-24 | n forward and n back returns to the start iff the first step did not clamp |
| Period.ChainingDrifts | internal/shared/pricing/period.go:5-6 | why counting starts from the start date: from 31 January two chained months fall short of two counted ones |
| Pricing.RoundingIsNear | internal/shared/pricing/calc.go:39-45 | rounding gives whole cents, at most half a cent away, half going up |
| Pricing.Normalize | internal/shared/pricing/pricing.go:47-71 | attributes are accepted iff they are one-time, or silent about it, without a frequency, or recurring with a listed one, and the timing is known or unset; what was set stays, the rest gets its default |
| Pricing.ParsedLineIsAccepted | internal/shared/pricing/calc.go:47-78 | an accepted line has non-negative amounts, percentages up to 100, a trimmed description of 1 to 500 characters and normal attributes |
| Pricing.LineAmounts | internal/shared/pricing/calc.go:79-82 | the discount is at most the rounded gross, the tax at most the net, none is negative, all are whole cents |
| Pricing.LineError | internal/shared/pricing/calc.go:79-87 | three nested roundings move net plus tax at most 0.025 from q * p * (1 - d) * (1 + t) |
| Pricing.PriceLines | internal/shared/pricing/calc.go:61-111 | the accumulating loop computes the specified totals and lines, and fails iff there is no line or one is invalid |
| Pricing.FieldsMean | internal/shared/pricing/calc.go:47-78 | a blank quantity counts as one, a blank price, discount or tax as zero |
| Pricing.RefusedIff | internal/shared/pricing/calc.go:47-78 | a line is accepted iff its numbers are readable and not negative, its percentages at most 100, its description of 1 to 500 characters and its attributes accepted |
| Pricing.PricedLineShows | internal/shared/pricing/calc.go:79-108 | each returned line, field by field: the line total within a cent of the price after the discount, the tax amount the rounded tax on it, the rest what was sent, the discount only if it was |
| Pricing.SumsAgree | internal/shared/pricing/calc.go:79-98 | subtotal - discount + tax is the sum of the lines, and also one-time plus all recurring; the first invoice is part of it |
| Pricing.PrintingTotalsIsExact | internal/shared/pricing/calc.go:127-138 | all totals are whole cents: printing to two decimals loses nothing |
| Pricing.TotalsAgree | internal/shared/pricing/calc.go:127-138 | the printed header adds up both ways, and the first invoice is at most the grand total |
| Pricing.GrandTotalError | internal/shared/pricing/calc.go:61-111 | the grand total is within 0.025 a line of the unrounded price |
| Pricing.PrintedLinesAddUp | internal/shared/pricing/calc.go:61-138 | the printed grand total is the sum of the printed lines, and within 0.025 a line of the exact price |
| Pricing.RepricingIsStable | internal/shared/pricing/calc.go:104-108 | pricing the returned lines again gives the same result when inputs had at most two decimals, and from the second time on whatever they had |
| Pricing.RepricesIffSameAmounts | internal/shared/pricing/calc.go:79-108 | a printed line re-prices alike iff printing its fields changes neither gross, discount nor tax |
| Pricing.SomeFactorTells | internal/shared/pricing/calc.go:79-82 | beside a quantity or price that does not meet the condition some whole factor gives other amounts once printed |
| Pricing.QuantityRepricesIff | internal/shared/pricing/calc.go:79-108 | for any quantity, discount and tax: the line re-prices alike at every price in cents iff the quantity has no more than two decimals and is zero, or the discount has no more than two and is 100 percent, or the tax has no more than two |
| Pricing.PriceRepricesIff | internal/shared/pricing/calc.go:79-108 | the same for the price, at every quantity of two decimals |
| Pricing.ThirdOffChanges | internal/shared/pricing/calc.go:79-108 | a discount of 33.333 percent on 10000.00 is 3333.30, but 3333.00 as printed |
| Pricing.HeaderTaxAgreesUnlessHalfCent | internal/shared/pricing/calc.go:113-125 | with a header tax the printed grand total equals the printed parts iff the tax is not a negative half cent that leaves the total non-negative |
| Pricing.HeaderTaxReplaces | internal/shared/pricing/calc.go:113-125 | a readable header tax replaces the tax and the grand total, each within half a cent, and nothing else; an unreadable one changes nothing |
| Template.NextSlot | internal/core/notification/template/parser.go:51-86 | one round of the scanner consumes text, so the scan ends |
| Template.KeyPattern | internal/core/notification/template/parser.go:15 | a variable is a lower-case letter and then lower-case letters, digits and underscores |
| Template.ParseVariables | internal/core/notification/template/parser.go:47-90 | the offset loop over the whole text collects what recursion over the rest of the text collects, and fails as it does |
| Template.FlattenedIsParsed | internal/core/notification/template/parser.go:47-90 | a well-formed template, written out, parses back to itself |
| Template.ParsedIsFlattened | internal/core/notification/template/parser.go:47-90 | a parsed text is a well-formed template, written out |
| Template.ParseIsUniqueDecomposition | internal/core/notification/template/parser.go:47-90 | the scanner accepts exactly the well-formed templates, each in exactly one decomposition into literals and placeholders |
| Template.ReplaceVariable | internal/core/notification/template/renderer.go:97-126 | the builder loop computes the recursive replacement, unpaired braces included |
| Template.RenderText | internal/core/notification/template/renderer.go:83-95 | rendering fails iff the text does not parse or names an unknown variable, else it is one pass per variable |
| Rescan.ReplaceInFill | internal/core/notification/template/renderer.go:97-126 | one pass fills exactly the placeholders of its variable, in a template of which some are filled already with values the pass leaves alone |
| Rescan.ReplaceConcat | internal/core/notification/template/renderer.go:97-126 | a pass over text that leaves no brace open, and what follows, is a pass over each |
| Rescan.RenderingIsSubstitution | internal/core/notification/template/renderer.go:83-126 | for values without `{{` that do not end in `{`, pass after pass equals simultaneous substitution, in any order and with repetitions |
| Rescan.RendersBySubstitutionIffHarmless | internal/core/notification/template/renderer.go:83-95 | over all texts `renderText` accepts, rendering is substitution iff of any two registered variables the value of the one leaves no brace open and each placeholder of the other in it is the other's own value |
| Rescan.HarmlessRenders | internal/core/notification/template/renderer.go:83-126 | the one half, for any text the renderer accepts |
| Rescan.OpenValueFails | internal/core/notification/template/renderer.go:97-126 | a value that leaves a brace open spoils a text with any other registered variable after it |
| Rescan.MovedValueFails | internal/core/notification/template/renderer.go:89-92 | a placeholder of another registered variable in a value is replaced when its turn comes |
| Rescan.OpenHides | internal/core/notification/template/renderer.go:100-123 | text left open swallows the placeholder after it, which stays in the result |
| Rescan.FixedStays | internal/core/notification/template/renderer.go:97-126 | a pass leaves such text alone only if each placeholder it replaces is the value itself |
| Rescan.NothingLeftToRender | internal/core/notification/template/renderer.go:83-126 | for such values the result holds no `{{`, and no further pass changes it |
| Rescan.MissingIsEmpty | internal/core/notification/template/renderer.go:83-131 | a variable without a value renders as an empty one |
| Rescan.NoValuesLeaveLiterals | internal/core/notification/template/renderer.go:83-131 | without any values an accepted text renders as what stands between its placeholders |
| Rescan.BracesInValuesAreRescanned | internal/core/notification/template/renderer.go:89-92 | a value holding another variable's placeholder is substituted again, and the two orders of the two variables differ |
| FrameLimit.DecodeInvertsEncode | internal/platform/mikrotik/binary_limit.go:93-106 | decoding inverts the 1- to 5-byte encoding of every 32-bit length |
| FrameLimit.DecodedLengthHasShortestPrefix | internal/platform/mikrotik/binary_limit.go:60-106 | every complete prefix declares a 32-bit length, whose own encoding is no longer |
| FrameLimit.FirstByte | internal/platform/mikrotik/binary_limit.go:58-72 | a first byte up to 0x7F is a whole prefix, up to 0xF0 the start of a longer one, and above that rejected |
| FrameLimit.WordLimit | internal/platform/mikrotik/binary_limit.go:80-88 | a word may have a mebibyte and no more |
| FrameLimit.DecodeInParts | internal/platform/mikrotik/binary_limit.go:48-91 | decoding a stream in two parts is decoding it whole, wherever it is cut |
| FrameLimit.AllowedWordsAreAccepted | internal/platform/mikrotik/binary_limit.go:48-91 | every run of allowed words with an unfinished end is accepted, and leaves that end as the state |
| FrameLimit.AcceptedStreamIsAllowedWords | internal/platform/mikrotik/binary_limit.go:48-91 | every accepted stream is a run of allowed words with an unfinished end |
| FrameLimit.AcceptedIffAllowedWords | internal/platform/mikrotik/binary_limit.go:48-91 | accepted iff words of at most 1 MiB without control prefixes; no released byte completes a larger prefix |
| FrameLimit.ChunkingIsIrrelevant | internal/platform/mikrotik/binary_limit.go:34-91 | for every split into chunks the limiter stays open iff the stream is within 8 MiB and accepted whole, and then in the same state; failure is sticky |
| FrameLimit.LimitedConn.Scan | internal/platform/mikrotik/binary_limit.go:48-91 | the loop with its fields refines the reference decoder, and reports the same failure |
| FrameLimit.LimitedConn.Read | internal/platform/mikrotik/binary_limit.go:34-46 | bytes are released only if the scan accepts them; after a failure nothing is |
| FrameLimit.LimitedConn.constructor | internal/platform/mikrotik/binary_limit.go:25-32 | a new connection has seen nothing and released nothing |
| Outbox.MarksHit | internal/core/notification/repository/outbox_repository.go:179-238 | a worker's mark always finds its row `processing` and as it was claimed, so none is refused |
| Outbox.StepKeeps | internal/core/notification/repository/outbox_repository.go:123-214 | every statement of every worker keeps the invariant that claims are exclusive |
| Outbox.AlwaysConsistent | internal/core/notification/consumer/outbox_worker.go:52-136 | the invariant holds after every trace |
| Outbox.ProcessingIffClaimedOnce | internal/core/notification/repository/outbox_repository.go:123-214 | an event is `processing` iff exactly one worker has claimed it and not yet marked it |
| Outbox.FinishedIsFinal | internal/core/notification/repository/outbox_repository.go:179-214 | `succeeded` and `dead` are final, though the statements that set them carry no status guard |
| Outbox.AttemptsAreBounded | internal/core/notification/consumer/outbox_worker.go:125-136 | attempts stay within the maximum, `dead` has used them all, and `failed` has one left and can be claimed later |
| Outbox.NewEventIsDue | internal/core/notification/repository/outbox_repository.go:60-121 | a new event can be claimed at once, and has three attempts unless it asks for others |
| Outbox.FailureWaits | internal/core/notification/consumer/outbox_worker.go:125-136 | in every interleaving a failure uses one attempt; the last leaves the event dead, any other lets it be claimed exactly from the time it sets |
| Outbox.FailedWaits | internal/core/notification/repository/outbox_repository.go:137-201 | a failed event is claimed no sooner than some failure allowed |
| Outbox.ClaimTakesDue | internal/core/notification/repository/outbox_repository.go:123-147 | a claim takes distinct due events with an attempt left, at most as many as asked for, never over 100, and up to 20 when that is not positive |
| Outbox.CallsAreCounted | internal/core/notification/consumer/outbox_worker.go:70-123 | the calls counted per event are the consumer steps of the trace |
| Outbox.MovesAreBounded | internal/core/notification/repository/outbox_repository.go:137-214 | an event is claimed and marked at most 2 * max_attempts times in all |
| Outbox.ConsumerRunsAtMostMaxAttempts | internal/core/notification/consumer/outbox_worker.go:70-136 | the consumer runs at most max_attempts times for an event |
| Outbox.AbandonedStaysProcessing | internal/core/notification/consumer/outbox_worker.go:59-63 | what a stopped worker holds stays `processing` whatever happens later |
| Outbox.OutboxStore.Enqueue | internal/core/notification/repository/outbox_repository.go:60-121 | adds a pending row, leaves an existing id alone; refused by the table for a negative maximum |
| Outbox.OutboxStore.ClaimPending | internal/core/notification/repository/outbox_repository.go:123-177 | claims exactly the rows the query picks, and returns them as they were |
| Outbox.OutboxStore.UpdateSucceeded | internal/core/notification/repository/outbox_repository.go:179-188 | marks the row whatever its status |
| Outbox.OutboxStore.UpdateFailed | internal/core/notification/repository/outbox_repository.go:190-201 | marks a `processing` row only |
| Outbox.OutboxStore.UpdateDead | internal/core/notification/repository/outbox_repository.go:203-214 | marks the row whatever its status, using up its attempts |
| Outbox.OutboxStore.FailOutboxEvent | internal/core/notification/consumer/outbox_worker.go:125-136 | dead or failed by the claimed attempts, with the attempts and the retry time the row then has; the statement never misses its row, and changes no other |
| Outbox.OutboxStore.ConsumeOutboxEvent | internal/core/notification/consumer/outbox_worker.go:70-123 | the steps and the final status of one event by how it fares; a failed one waits a minute |
| Outbox.OutboxStore.RunOnce | internal/core/notification/consumer/outbox_worker.go:52-68 | whatever the others do, a round takes exactly the claim and the steps its outcomes call for, in order; at its end nothing it claimed is unmarked, and it ends early only at a consumer failure, still holding the rest |
| Outbox.OutboxStore.MarkEvent | internal/core/notification/consumer/outbox_worker.go:112-122 | after the consumer: succeeded when it sent, ignored or reported nothing, failed or dead when it reported an error |
| NotificationLog.StepKeeps | internal/core/notification/repository/notification_log_repository.go:255-325 | every statement keeps the invariant, and leaves a `sent` or `cancelled` log as it is |
| NotificationLog.AlwaysConsistent | internal/core/notification/service/notification_service.go:190-317 | the invariant holds over every interleaving of sending, retrying and cancelling |
| NotificationLog.AttemptsStayBounded | internal/core/notification/repository/notification_log_repository.go:284-311 | in every deployment attempts stay within the maximum, in the log and in the snapshots |
| NotificationLog.ReadIff | internal/core/notification/service/notification_service.go:149-210 | in every interleaving a log can be taken up iff it is pending, failed or dead, and by the retry run iff it is pending or failed with an attempt left and its time come |
| NotificationLog.CancelStopsPending | internal/core/notification/repository/notification_log_repository.go:313-325 | cancelling stops a pending log before its first attempt and does nothing to any other |
| NotificationLog.DispatchIsShort | internal/core/notification/service/notification_service.go:260-317 | a dispatch takes at most four steps, reading included |
| NotificationLog.FailureWaits | internal/core/notification/repository/notification_log_repository.go:284-311 | in every interleaving a failed mark counts one attempt up to the maximum and keeps the log from the retry run before the time it sets; the last attempt is final |
| NotificationLog.FailedWaits | internal/core/notification/repository/notification_log_repository.go:284-359 | a failed log waits for the time that some failure has set |
| NotificationLog.DispatchIsExclusive | internal/core/notification/service/notification_service.go:260-317 | where every process has the dispatcher: one dispatch in the send window at a time, one message accepted in all, `processing` exactly during the window |
| NotificationLog.SentAndCancelledAreFinal | internal/core/notification/repository/notification_log_repository.go:264-325 | `sent` and `cancelled` are final where no process lacks the dispatcher |
| NotificationLog.CancelledStays | internal/core/notification/repository/notification_log_repository.go:284-325 | they are final too where none has it and the maximum is at least two |
| NotificationLog.OverIsFinalIff | internal/core/notification/repository/notification_log_repository.go:264-325 | they are final over all interleavings iff one of these holds |
| NotificationLog.SentIsOverwritten | internal/core/notification/repository/notification_log_repository.go:299-311 | in every mixed deployment an old snapshot can turn `sent` into `dead` |
| NotificationLog.CancelledIsOverwritten | internal/core/notification/repository/notification_log_repository.go:299-311 | with one attempt a process without the dispatcher can turn `cancelled` into `dead` |
| NotificationLog.SendsAtMostOnceUnlessMixed | internal/core/notification/service/notification_service.go:260-265 | a log is accepted at most once over every interleaving iff the deployment is not mixed |
| NotificationLog.MixedDeploymentSendsTwice | internal/core/notification/service/notification_service.go:260-317 | a trace of a mixed deployment that sends twice, for every maximum |
| NotificationLog.NobodySends | internal/core/notification/service/notification_service.go:261-265 | without the dispatcher nothing is sent |
| NotificationLog.FailedHasAttemptsIff | internal/core/notification/repository/notification_log_repository.go:284-359 | every failed log has an attempt left iff the maximum is one or there is no process |
| NotificationLog.FailedLogGetsStuck | internal/core/notification/repository/notification_log_repository.go:284-359 | for every maximum from two on, two dispatches from one snapshot leave a failed log that is never retryable |
| NotificationLog.NeverFailed | internal/core/notification/service/notification_service.go:301-309 | with a maximum of one, or nobody to dispatch, no log is ever failed |
| NotificationLog.LogStore.UpdateProcessing | internal/core/notification/repository/notification_log_repository.go:255-262 | hits only a pending, failed or dead log |
| NotificationLog.LogStore.MarkDispatchFailed | internal/core/notification/service/notification_service.go:301-317 | the whole row afterwards: dead without a retry time, or failed with one attempt more and a retry time in a minute; unchanged when the mark misses, which it does not where every process has the dispatcher |
| NotificationLog.LogStore.DispatchLog | internal/core/notification/service/notification_service.go:260-299 | exactly the steps that fit the dispatch, whatever the others do; success leaves the log `sent`, a failure `dead`, or `failed` with a retry in a minute |
| AssetStore.StepKeeps | internal/modules/asset/service/asset_service.go:93-176 | every step of every upload and deletion keeps rows, pending inserts and pending deletions apart |
| AssetStore.AlwaysConsistent | internal/modules/asset/service/asset_service.go:93-176 | that holds after every trace |
| AssetStore.EveryRowHasItsObject | internal/modules/asset/service/asset_service.go:135-176 | however uploads and deletions interleave, fail and stop, every live row has its object, and shares it with no other |
| AssetStore.DeletedStaysDeleted | internal/modules/asset/repository/asset_repository.go:185-206 | a deleted row stays deleted |
| AssetStore.EndedUploadRests | internal/modules/asset/service/asset_service.go:93-157 | an upload that was stopped or has cleaned up does nothing any more |
| AssetStore.UsageStaysNearLimit | internal/modules/asset/service/asset_service.go:117-119 | within the limit and with nothing in flight at first, and at most k uploads in flight, usage never exceeds the limit plus k - 1 times the largest object that fits it, 10 MiB at most |
| AssetStore.CeilingIsReached | internal/modules/asset/service/asset_service.go:229-242 | for every limit, k uploads that check together reach that bound |
| AssetStore.Assets.SumSizeBytes | internal/modules/asset/repository/asset_repository.go:208-227 | the sum over the live rows, in whatever order they are read |
| AssetStore.Assets.CheckQuota | internal/modules/asset/service/asset_service.go:229-242 | passes iff there is no limit or usage plus the new size is within it |
| AssetStore.Assets.UploadObject | internal/modules/asset/service/asset_service.go:93-157 | the errors and their order; past them the quota stops an upload iff usage and its size are over the limit when it checks; the steps it takes; success means row and object are there, anything else that no row has its key, and no object if cleaning up works; no live row ever lacks its object |
| AssetStore.Assets.StoreNew | internal/modules/asset/service/asset_service.go:124-138 | the object is put under a key that no row has |
| AssetStore.Assets.CreateRow | internal/modules/asset/service/asset_service.go:140-156 | the row is created iff the insert works and the size is positive, while the object is there; else the object is removed again |
| AssetStore.Assets.UnlinkRow | internal/modules/asset/repository/asset_repository.go:185-206 | marks the row deleted iff it was live, so only one deletion of an asset succeeds |
| AssetStore.Assets.PurgeObject | internal/modules/asset/service/asset_service.go:171-174 | the object goes if the storage does its work; the deleted row stays |
| AssetStore.Assets.RemoveObject | internal/modules/asset/service/asset_service.go:151-155 | the object of a failed insert is gone if the storage removed it, and no row has its key |
| AssetStore.Assets.DeleteObject | internal/modules/asset/service/asset_service.go:163-176 | afterwards the asset is not live; success means its row is deleted, and its object if the storage did its work; no live row loses its object on the way |
| PublicLink.StepKeeps | internal/shared/publiclink/repository.go:53-102 | every statement keeps one active link per document, one link per token, and what calls hold |
| PublicLink.AlwaysConsistent | internal/shared/publiclink/service.go:27-92 | that holds after every trace |
| PublicLink.ReturnedTokenResolves | internal/shared/publiclink/service.go:27-92 | a returned token resolves to one link, of the document asked for, whatever happened since |
| PublicLink.LinkStaysActive | internal/shared/publiclink/service.go:27-75 | until its document is revoked, the link a call has is active |
| PublicLink.OverlappingCallsAgree | internal/shared/publiclink/service.go:27-60 | calls for a document with no `Revoke` between return one token, through the 23505 path too |
| PublicLink.RevokedStaysRevoked | internal/shared/publiclink/repository.go:89-98 | a revoked link stays revoked, and a finished call as it is |
| PublicLink.NewCallsHaveOtherLinks | internal/shared/publiclink/service.go:27-80 | a call that began after a link was revoked never gets that link |
| PublicLink.RevokeSeparatesTokens | internal/shared/publiclink/service.go:27-80 | a token returned before `Revoke` is never returned by a call that begins after it |
| PublicLink.LinksTellTokensApart | internal/shared/publiclink/repository.go:65-78 | two calls have the same token iff they have the same link |
| PublicLink.ErrsOnlyWhenRevoked | internal/shared/publiclink/service.go:25-60 | over all interleavings, a call errs only if its document was revoked after it began |
| PublicLink.LinkStore.Ensure | internal/shared/publiclink/service.go:25-60 | with anything other calls do in between, a token that comes back resolves to a link of the document, and none comes back only if the document is revoked in between |
| PublicLink.LinkStore.TryInsert | internal/shared/publiclink/service.go:37-59 | fails iff a unique index is violated, and then changes nothing; else adds exactly the new link |
| PublicLink.LinkStore.Reuse | internal/shared/publiclink/service.go:62-75 | returns the token of the link found, which is still there, and when the expiry it saw differs sets the one asked for |
| PublicLink.LinkStore.FindActive | internal/shared/publiclink/repository.go:53-63 | finds an active link of the document iff there is one |
| PublicLink.LinkStore.Revoke | internal/shared/publiclink/repository.go:89-98 | afterwards the document has no active link |
| PublicLink.LinkStore.Resolve | internal/shared/publiclink/service.go:81-92 | the one link of the token, or none iff there is none |
| RateLimit.InOwnBucket | internal/core/middleware/ratelimit.go:31-32 | a time lies in its bucket, and a bucket is as long as the window with its fraction of a second dropped |
| RateLimit.IntervalSpans | internal/core/middleware/ratelimit.go:31-32 | an interval as long as the window meets two buckets, three if the window has a fraction |
| RateLimit.CurrentCounterIsAlive | internal/core/middleware/ratelimit.go:40-44 | the expiry of twice the window never takes a counter away while its bucket is current |
| RateLimit.HitCounts | internal/core/middleware/ratelimit.go:35-52 | a request counts once, is let through iff the count is within the limit, and is due to set the expiry iff it is the first |
| RateLimit.ExpiryIsTwoWindows | internal/core/middleware/ratelimit.go:43-47 | setting the expiry ends a counter two windows later, leaves the others alone, and is done once |
| RateLimit.AlwaysConsistent | internal/core/middleware/ratelimit.go:25-51 | after any requests and expiries, each bucket has let through at most the limit |
| RateLimit.AtMostTwiceTheLimit | internal/core/middleware/ratelimit.go:25-51 | an interval as long as the window lets through at most twice the limit, three times with a fraction |
| RateLimit.FractionAdmitsThrice | internal/core/middleware/ratelimit.go:31-32 | with a fraction, three times the limit does get through |
| RateLimit.TwiceIsAdmitted | internal/core/middleware/ratelimit.go:31-32 | for every configuration twice the limit does get through within a window |
| RateLimit.MostInOneWindow | internal/core/middleware/ratelimit.go:25-51 | a bound on what one window lets through holds over all requests iff it is at least twice the limit, three times with a fraction |
| RateLimit.TwiceTheLimitIffWholeSeconds | internal/core/middleware/ratelimit.go:25-51 | the bound of twice the limit holds over all requests iff the window is a whole number of seconds |
| RateLimit.Limiter.Incr | internal/core/middleware/ratelimit.go:34 | counts on a live counter, starts a new one otherwise |
| RateLimit.Limiter.Handle | internal/core/middleware/ratelimit.go:25-51 | fails open without counting; panics iff the window is under a second; otherwise a request is allowed iff its step lets it through, and the first of a counter sets the expiry |
| Catalog.PriceWithTaxIs | internal/modules/catalog/service/public_listing.go:183-197 | price to the cent plus its tax to the cent, missing iff the line is invalid |
| Catalog.PriceShown | internal/modules/catalog/service/public_listing.go:183-197 | the same from the product's own price and tax, a blank one counting as zero |
| Catalog.BuildPublicCatalog | internal/modules/catalog/service/public_listing.go:101-171 | one result, in whatever order the map of cards is walked: an error iff a product with a category has no price |
| Catalog.GroupProducts | internal/modules/catalog/service/public_listing.go:111-146 | the two maps hold, per category and per card, what the specification groups |
| Catalog.ListingsOf | internal/modules/catalog/service/public_listing.go:149-163 | the cards of one category, sorted, from any walk over the map |
| Catalog.GatheredIsCards | internal/modules/catalog/service/public_listing.go:150-163 | because codes are unique within a category, sorting any walk gives the same cards |
| Catalog.CardsHaveDistinctCodes | internal/modules/catalog/service/public_listing.go:113-131 | one card per category and code |
| Catalog.CatalogConserves | internal/modules/catalog/service/public_listing.go:101-171 | the variants shown are, as a multiset, those of the products with a category |
| Catalog.CatalogIsOrdered | internal/modules/catalog/service/public_listing.go:148-170 | categories by position and name, one per id; cards by order and code, one per code |
| Catalog.CardHoldsItsVariants | internal/modules/catalog/service/public_listing.go:104-146 | the variants of every card come by frequency and SKU, and are, each as often, those of the products with its category and code |
| Catalog.CardShowsProducts | internal/modules/catalog/service/public_listing.go:132-146 | every variant shows, field by field, a product of its category and card, and every such product is shown |
| Catalog.CategoryIsShown | internal/modules/catalog/service/public_listing.go:111-146 | every product with a category has its category and card in the catalog |
| Catalog.NoCatalogIff | internal/modules/catalog/service/public_listing.go:111-140 | there is no catalog iff some product with a category has a price, tax, name or attributes the price calculator refuses |
| Catalog.BenefitsAre | internal/modules/catalog/service/public_listing.go:173-181 | the labels that are not blank, in their order |
| Catalog.CardShowsLeast | internal/modules/catalog/service/public_listing.go:104-131 | a card's face and first variant are its product least by frequency and SKU |
| Catalog.InputOrderIsIrrelevant | internal/modules/catalog/service/public_listing.go:104-110 | if no two products tie on frequency and SKU, the order of the input does not matter |
| Catalog.VariantOrder | internal/modules/catalog/service/public_listing.go:104-110 | the comparison by frequency rank and SKU is a strict weak order |
| Catalog.RankIsPeriodLength | internal/modules/catalog/domain/feature_label.go:51-58 | frequencies rank by the length of their first period, from any start date; no frequency ranks last |
| Sorting.LessIs | internal/modules/catalog/service/public_listing.go:109 | the order of strings: a proper beginning, or the smaller character where two first differ |
| Sorting.SortIsStable | internal/modules/catalog/service/public_listing.go:104-110 | the sort orders, permutes, and keeps ties in their order |
| Sorting.StableSortIsUnique | internal/modules/catalog/service/public_listing.go:164-170 | a stable sort has one result, so any implementation of it does |
| Sorting.OrderedIsUnique | internal/modules/catalog/service/public_listing.go:157-163 | without ties an unstable sort has one result too, whatever the order of the input |
| Entitlements.DiffEntitlements | internal/app/free_plan_migration.go:101-119 | from any walk over the two maps, one change for every key that differs and no other, sorted by key |
| Entitlements.DiffIsUnique | internal/app/free_plan_migration.go:101-119 | there is only one such list |
| Entitlements.DiffByEncoding | internal/app/free_plan_migration.go:101-126 | a key of both sides is in the diff iff one of the limits cannot be encoded or the encodings differ; a key of one side always is |
| Entitlements.AppliedEncodesAsTarget | internal/app/free_plan_migration.go:101-126 | applying the diff leaves the target's keys, each with limits that encode as the target's |
| Entitlements.DiffPatches | internal/app/free_plan_migration.go:101-119 | applied to the rows it leaves exactly the target's keys, each with the target's value or one that counts as the same |
| Entitlements.DiffIsEmptyIffAgrees | internal/app/free_plan_migration.go:87-90 | it is empty iff the rows already agree |
| Entitlements.NothingLeftIffEncodable | internal/app/free_plan_migration.go:121-126 | once applied nothing is left to change, iff every value of the target can be encoded |
| Entitlements.BuildTarget | internal/app/free_plan_migration.go:59-71 | the loop computes the specified target, or fails with it |
| Entitlements.TargetIs | internal/app/free_plan_migration.go:59-71 | the target has exactly the listed keys that are registered, each with the limits of its last feature, and names the others in order; it fails iff the value of some registered feature cannot be converted |
| Entitlements.PlanOrganizations | internal/app/free_plan_migration.go:77-98 | fails iff some organization cannot be read; else every organization is where its rows put it, in order |
| Entitlements.UnchangedIff | internal/app/free_plan_migration.go:77-126 | an organization counts as unchanged iff it has no contract and its rows have the target's keys, each with limits that encode as the target's |
| Entitlements.PlanFreePlanReprovision | internal/app/free_plan_migration.go:52-99 | the whole plan and its warnings; fails iff a value cannot be converted, the list fails, or some organization cannot be read |
| Entitlements.PlanPartitions | internal/app/free_plan_migration.go:77-98 | changed, skipped and unchanged partition the list |
| Entitlements.AppliedAgreesIffEncodable | internal/app/free_plan_migration.go:101-126 | rows with a diff applied agree with the target iff every value of it can be encoded |
| Entitlements.ReplanningIsEmpty | internal/app/free_plan_migration.go:52-99 | once the plan's changes are applied a new plan changes nothing iff the first changed nothing or the target can be encoded, and counts the changed as unchanged; else it changes the same organizations again |
| Entitlements.DiffProductFeatures | internal/app/free_plan_migration.go:135-155 | for features listed once each, the diff of the two lists |
| CacheKey.Canonical | internal/core/cache/key.go:139-149 | the replacing loop ends, and leaves every run of underscores as one |
| CacheKey.ReplacePairs | internal/core/cache/key.go:145-147 | one round shortens a text that has a pair, so the loop ends |
| CacheKey.CanonicalSegmentIsClean | internal/core/cache/key.go:139-149 | no colon, space, slash or backslash, no two underscores in a row, none at the ends |
| CacheKey.TrimSqueezed | internal/core/cache/key.go:139-149 | squeezing underscores and trimming them may change places |
| CacheKey.CanonicalTwice | internal/core/cache/key.go:139-149 | canonicalizing again changes nothing iff the trimmed and lowered text has no white space at its ends once underscores there are dropped |
| CacheKey.TabComesOut | internal/core/cache/key.go:139-149 | an underscore, a tab and a letter give another segment the second time |
| CacheKey.BuildTenantKey | internal/core/cache/key.go:34-60 | fails iff the scope is blank or the namespace or a segment is empty once canonical, else the joined key |
| CacheKey.BuilderPrefixIsSeparable | internal/core/cache/key.go:26-32 | no builder's prefix holds the separator |
| CacheKey.PrefixDefaults | internal/core/cache/key.go:26-32 | the prefix is never empty; one without a canonical form gives way to the default |
| CacheKey.KeySplitsBack | internal/core/cache/key.go:34-60 | a key splits back into prefix, organization, namespace and segments |
| CacheKey.KeysAreEqualIff | internal/core/cache/key.go:34-60 | two keys are equal iff organization, namespace and segments are, once canonical |
| CacheKey.InvalidationIsExact | internal/core/cache/key.go:132-137 | a key extends an invalidation prefix and a colon iff it is of that organization and namespace and has segments |
| CacheKey.OrganizationsShareKeysIff | internal/core/cache/key.go:34-60 | two organizations can share a key iff one id is the other, a colon, and canonical segments with colons between |
| CacheKey.CanonicalIsSegment | internal/core/cache/key.go:139-149 | every non-empty canonical segment looks like one |
| CacheKey.PaddedIsCanonical | internal/core/cache/key.go:139-149 | and everything that looks like one is one |
| CacheKey.VersionsSeparate | internal/core/cache/key.go:98-112 | entitlement keys are equal iff organization, feature and version are |
| CacheKey.EntitlementKeyIs | internal/core/cache/key.go:98-112 | the whole key; there is none iff the version is not positive, the organization is blank or the feature has no canonical form |
| Text.SpacesAre | internal/core/cache/key.go:140 | the characters `strings.TrimSpace` takes away |
| Digits.DecimalTellsApart | internal/core/cache/key.go:151-153 | decimal notation tells numbers apart |
| Rupiah.GroupThousands | internal/shared/docpdf/format.go:20-30 | the loop from the left writes the groups split off from the right |
| Rupiah.Groups | internal/shared/docpdf/format.go:20-30 | one to three digits first, exactly three in every later group |
| Rupiah.GroupingIsUndone | internal/shared/docpdf/format.go:20-30 | deleting the dots restores the digits, and the dots are where the groups end |
| Rupiah.SplitDecimalIs | internal/shared/docpdf/format.go:32-41 | whole part and fraction of the rounded absolute value, zeros dropped from the right |
| Rupiah.PrintedAmountReadsBack | internal/shared/docpdf/format.go:43-61 | reading a printed amount or quantity gives the absolute value rounded to cents |
| Rupiah.AmountReadsBackIffNotNegative | internal/shared/docpdf/format.go:38-53 | it gives the number rounded to two decimals iff the number is above minus half a cent |
| Rupiah.RupiahShape | internal/shared/docpdf/format.go:43-53 | the grouped rupiah, and a comma and exactly two digits of cents unless they are zero |
| Rupiah.QuantityShape | internal/shared/docpdf/format.go:43-61 | the printed shape of a quantity, with only the decimals it needs; unreadable text prints as zero |
| Rupiah.PrintedAlike | internal/shared/docpdf/format.go:43-53 | two amounts print alike iff they round to the same cents, signs aside |
| Rupiah.UnreadableAmountIsZero | internal/shared/docpdf/format.go:34-37 | what cannot be read prints as zero |

## Left out

- HTTP handlers, routing, wiring, SQL text, row-level security, logging, PDF drawing and the network clients have no state of their own.
- Text that denotes a number is modelled by the number, or by being blank or unreadable; the syntax `big.Rat` accepts is not part of the model.
- Go's 64-bit integers, dates outside the range of `time.Time` and amounts beyond memory: integers here are unbounded.
- Strings are sequences of code points; Go scans bytes, which for valid UTF-8 finds the same separators and the same order.
- Library code is its contract: `sort.Slice` and `sort.SliceStable` are an insertion sort on a sequence, `strings` functions are written out, `time.Date` is a Gregorian day number.
- The sort of products in `buildPublicCatalog` also reorders the caller's slice; the model sorts a copy.
- A database error or a lost connection ends the call there, as stopping does; errors of random, encryption and decryption are not modelled.
- An insert of an asset that reports an error is taken to have left no row; if only the answer of the commit was lost, cleaning up deletes the object of a live row.
- The order in which rows are claimed and the time they are due are any the query allows; which run is first is left open.
- The provider accepts a message exactly when the send reports success; a message accepted by a provider that then reports an error is not counted.
- `validateRequiredPayload`, `Preview` and `valueToString` of the renderer: payload values are the strings they print as.
- `checkoutEnabled`, `tenantCheckoutEnabled` and the entitlement gate in front of them: checkout is any predicate of the product.
- Frequencies outside the table are one value, so their texts are not told apart in a variant; such a variant has no price.
- `DomainKey`, `PermissionKey` and `LandingPublicKey` are tenant keys with a fixed namespace, like `EntitlementKey`, which is modelled.
- `FormatPercent` and `FormatDateID` add only easy members.
- `effectiveLimitBytes` and `extractLimit`: the limit a check sees is given, with none for every case the source treats as unlimited.
- Landing media uploads are not part of this model; their usage is a constant in the quota theorem.
- `ApplyFreePlan` and the provisioner behind it: it is taken to apply the changes of the plan to the rows.
- `float64` rounding of windows of many days in `window.Seconds()`, and requests that read the clock long before they count.
- DiffProductFeatures: says nothing about lists that name a feature twice, which the table does not hold.
