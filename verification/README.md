# Paceday: verified models of availability, credential renewal and the small state machines

Paceday is a calendar scheduler. This project models the parts of its Go backend
that decide something hard, and proves what those parts are for. `dafny verify
dfyconfig.toml` checks all of it.

**Availability.** `Zones` models a time zone as a sorted list of offset changes and
proves that the wall-clock resolver returns the first instant whose local clock has
reached the wanted time. `BookingWindow` builds the daily window and the 15-minute
grid on it, `Intervals` (over the insertion sort in `Sorting`) is the algebra that
turns busy time into free time, `BookingRule` holds the date arithmetic and the
checks made before any host is read, `Bookings` the collective availability of the
hosts, and `PublicBooking` the two listing modes, the booking decision and the
safety of the stored bookings over whole runs; `BookingCommit` is the race of the
confirmation's commit against the request budget. The placers that use the same algebra
are `FocusTime`, `Habits`, `Compression`, `SmartSchedule` and `TeamAvailability`.

**Credential renewal.** `Renewal` is a transition system: any number of sources of
one owner take the owner's lock, load the stored row, present a refresh token, get an
answer, save, re-check and record a loss, interleaved with reconnects, disconnects and
time. Its theorems are about every run. `RenewingSource` is the source's object, whose
uninterrupted call is proved to be a run of that system.

**Small machines.** `RateLimit` (fixed windows, lazy sweep, Retry-After),
`Readiness` (one shared ping), `PersonalBlocker` (reconciliation of a personal feed),
`Redaction` (secrets in provider errors) and `Gateways` (the gateway list of the
environment).

Instants and wall times are whole seconds (nanoseconds in `RateLimit`), days are
numbered, and day `d`, second `s` is the wall time `d * 86400 + s`. Answers of
databases, calendars and providers are inputs: `Env`, `World`, `Answers`, `creates`,
`attendeesFree`, `score`. Objects the code updates in place are classes, its loops are
loops, and each is proved against a function or predicate whose own properties are the
lemmas beside it.

## What the code does that its comments do not say

- `calendarDay` says noon always exists. In a zone that skips a whole date (Samoa
  did, in 2011) it does not: asked for the skipped date, the listing offers the next
  one's slots, while the list of dates holds the next one twice
  (`PublicBooking.SkippedDateMismatch`; exactly when the modes match:
  `PublicBooking.ModesMatchExactly`). Booking and listing still agree there, as in
  every zone whose offsets stay under 18 hours, which all loadable ones do
  (`BookingRule.CheapMeansOfferable`, `BookingRule.UsualZonesHold`);
  `BookingRule.AgreementNeedsToday` only marks where that theorem ends.
- A refresh token can be presented after it was rotated away once a row disappears, a
  load or save fails, or a rotation's answer is lost (`Renewal.EachFaultReplays`);
  without such a fault it cannot (`Renewal.NoReplay`).
- Re-check and record are separate steps, so a reconnect in between leaves a fresh
  credential marked lost (`Renewal.RecordAfterReconnect`; exactly when:
  `Renewal.LossOfStoredExactly`).
- A reconnect made while a renewal is being answered or stored can be overwritten by
  the old connection's token (`Renewal.ReconnectOverwritten`). Any other sticks while
  loads succeed (`Renewal.ReconnectSticks`), but a source that still caches the old
  token overwrites it after a failed load (`Renewal.FailedLoadOverwrites`).
- A 500 from a booking's insert does not tell whether the row was kept (`BookingCommit.FailedInsertMayBeKept`).
- A team slot's score can only be 100: focus blocks are busy time as well
  (`TeamAvailability.FindSlots`).
- A feed that repeats an event id gets two blockers (`PersonalBlocker.RepeatedIdCreatesTwice`);
  so does an event whose created blocker could not be recorded, and one whose recorded
  blocker could not be looked up, since the error of the lookup is ignored
  (`PersonalBlocker.FailedLookupCreatesAgain`; exactly when:
  `PersonalBlocker.CreatedAgainExactly` and `PersonalBlocker.ExactlyOnce`).
- A completed habit "must survive reoptimization", yet one that cannot be read is placed
  anew over it, the error of that lookup being ignored too
  (exactly when: `Habits.CompletedSurvivesExactly`).
- "Ready" can be told from a ping answered before the call
  (`Readiness.AnswerMayPredateTheCall`; exactly when: `Readiness.FreshExactly`).
- A secret can be left by the redaction exactly when it can be laid over the marker,
  like "[[" or "red" (`Redaction.LeftExactly`).
- A meeting's own start is told by comparing Go times, which differ when their
  locations do; it is still never proposed, since it gains nothing
  (`Compression.OwnStartGainsNothing`), unless moveable meetings share an id.
- Retry-After can fall short in a window that is not whole seconds
  (`RateLimit.HalfSecondsBreakRetry`, exactly when: `RateLimit.RetryWorks`). The
  routes' windows are ten minutes and one minute.

## Model

| member | source | states |
|---|---|---|
| Zones.WallClock | backend/engine/booking_window.go:34-63 | the three probes and the fallback return the least instant whose local clock has reached h:m on that day; exists is true exactly when some instant shows that time |
| Zones.NextChange | backend/engine/booking_window.go:59-62 | the zone boundary after an instant: a change later than it, with none in between |
| Zones.OffsetExactly | backend/engine/booking_window.go:26-63 | the offset in force at an instant is that of the latest change up to it, the base one before them all |
| Zones.Resolve | backend/engine/booking_window.go:40-47 | why three probes suffice: around a wall time at most one change counts, and either the offset before it, the one after it, or the change itself gives the first instant |
| Zones.BestIsFirst | backend/engine/booking_window.go:42-58 | the earliest candidate that reads the wall time is its first occurrence, also when the hour repeats |
| Zones.SkippedAtChange | backend/engine/booking_window.go:56-63 | when no candidate reads it, no instant does, and the next change after the earliest candidate is the instant that reaches it |
| Zones.ReachMonotone | backend/engine/booking_window.go:30-63 | a later wall time is never reached earlier, and two shown ones are reached in their own order |
| Zones.ShownIsReached | backend/engine/booking_window.go:34-63 | a wall time is shown exactly when its first instant shows it |
| Zones.DateInShows | backend/api/booking_rule.go:50-53 | the instant time.Date gives for a wall time shows it exactly when some instant does |
| Zones.DateInLands | backend/api/booking_rule.go:48-53 | for a wall time a change skips, time.Date lands by the offset of the change's other side: before the change when the wall time, read as UTC, comes before it, else after |
| BookingWindow.LinkWindow | backend/engine/booking_window.go:87-96 | the window runs between the first instants of opening and closing, and is refused for unreadable hours or when it is empty |
| BookingWindow.GridSlots | backend/engine/booking_window.go:103-126 | sound and complete: the slots are exactly the shown grid times, each at its first occurrence, whose slot ends by closing, in strictly ascending order; starting before the window drops none |
| BookingWindow.OnGridMeans | backend/engine/booking_window.go:98-126 | such a slot has exact elapsed length, lies in the window, is on the date, a multiple of 15 minutes from opening, and is the first time that clock reading is reached |
| BookingWindow.OnGridExactly | backend/engine/booking_window.go:98-126 | the grid in figures: a slot is on it exactly when its start is first shown on the date a whole number of 900 seconds after opening and before midnight, it is the asked number of minutes long, and it ends by the first instant of closing |
| BookingWindow.WindowEmptyExactly | backend/engine/booking_window.go:84-96 | a window from opening to a later closing is empty exactly when no instant shows a time in between |
| BookingRule.LinkOpenOn | backend/api/booking_rule.go:90-97 | true exactly when the weekday of the day's date is among the link's days, counted from Sunday 4 January 1970 as 0 |
| BookingRule.OfferableExactly | backend/api/booking_rule.go:67-122 | offered before busy time exactly when the date is from today's on and less than the link's horizon away, 60 days when it has none, its weekday is one of the link's, the slot is on its grid and starts notice times 60 seconds from now or later |
| BookingRule.CheapRefusal | backend/api/booking_rule.go:152-173 | the first reason that holds, in the order beyond horizon, outside days, hours or grid, too soon; none when none does |
| BookingRule.CheapExactly | backend/api/booking_rule.go:152-173 | in the link's own fields: beyond exactly when the start's date is the horizon or more from today's; else outside exactly when its weekday is closed or the slot is off the grid; else too soon exactly when the notice is not kept |
| BookingRule.CheapMeansOfferable | backend/api/booking_rule.go:106-173 | the booking's cheap checks and the listing's rule differ, in every zone, by the question "not before today" only; with a non-negative notice they agree outright wherever time.Date lands today no later than tomorrow |
| BookingRule.UsualZonesHold | backend/api/booking_rule.go:48-53 | that holds in every zone whose offsets stay under 18 hours |
| BookingRule.AgreementNeedsToday | backend/api/booking_rule.go:147-173 | the limit of that theorem: with offsets of 18 hours, which no loadable zone has, booking's cheap checks could accept what the listing would not offer |
| Intervals.MergeIntervals | backend/engine/focus_time.go:272-289 | the in-place sort and the widening loop compute the merge, whose properties are the next rows |
| Intervals.MergeIsCanonical | backend/engine/focus_time.go:272-289 | merged intervals are sorted with strict gaps and cover the same instants |
| Intervals.MergeKeepsOverlaps | backend/engine/focus_time.go:272-297 | for every non-empty interval, overlapping the merged list is overlapping the original, whatever the input |
| Intervals.SubtractIntervals | backend/engine/focus_time.go:251-270 | the nested loops compute the subtraction, whose properties are the next rows |
| Intervals.FreeExactly | backend/engine/focus_time.go:251-289 | a non-empty interval fits in one free piece exactly when it lies in the whole and overlaps nothing busy, with or without merging first, for any busy list |
| Intervals.FreeInstants | backend/engine/focus_time.go:251-270 | the free pieces cover exactly the instants of the whole in no busy interval |
| Intervals.SubtractPieces | backend/engine/focus_time.go:251-270 | they are sorted, disjoint, non-empty and inside the whole |
| Intervals.PieceStartsExactly | backend/engine/focus_time.go:251-270 | a free piece starts at an instant and lasts until another exactly when the time between is free and not from any earlier instant |
| Intervals.FreePlusBusy | backend/engine/focus_time.go:251-270 | conservation: free length plus busy instants within the whole is the length of the whole |
| Intervals.OverlapScan | backend/engine/booking.go:287-294 | the scan is true exactly when some interval of the list overlaps |
| Intervals.OverlapExactly | backend/engine/booking.go:287-294 | non-empty intervals overlap exactly when they share an instant |
| Intervals.LargestSlot | backend/engine/compression.go:299-308 | the longest of the pieces, 0 for none |
| Intervals.LargestIsGap | backend/engine/compression.go:299-308 | after merging and subtracting it is the longest stretch of the whole that meets nothing busy |
| Sorting.InsertionSort | backend/engine/focus_time.go:291-305 | the in-place insertion sort computes the sort of the next row |
| Sorting.SortIsStable | backend/engine/focus_time.go:299-305 | sorted by key, a permutation, and equal keys keep their order |
| Sorting.SortInTurn | backend/engine/focus_time.go:299-305 | so of a list in order of time the sort leaves equals in order of time |
| Bookings.HostBusy | backend/engine/booking.go:223-285 | one host's busy list holds exactly the opaque events, the same padded by the link's buffers when it has any, the focus blocks, and the live bookings near the window of links the host owns or hosts; only an unreadable calendar is told as one, and a failed storage read apart from it |
| Bookings.BusyBookingsHolds | backend/storage/scheduling_links.go:469-495 | a live booking of any link the user owns or hosts that overlaps the window is in the host's busy bookings |
| Bookings.CollectiveSlots | backend/engine/booking.go:130-195 | refines the simple rule: a grid slot is offered exactly when it overlaps no unmerged busy interval of any accepted host; an unreadable host or none leaves nothing; a storage failure or a cut is never a list |
| Bookings.CollectiveExactly | backend/engine/booking.go:130-285 | on the grid of a gathered window, a slot is offered exactly when every accepted host's calendar can be read and the slot meets none of its events, also not lengthened by the link's buffers, no focus block and no live booking of a link the host owns or hosts |
| Bookings.GatheredExactly | backend/engine/booking.go:130-180 | how gathering ends: failed when the hosts, or some readable host's focus blocks or bookings, cannot be read; empty without hosts or with no time between the first instants of opening and closing; cut before any host counts |
| Bookings.HitMeansNotFree | backend/engine/booking.go:181-195 | a slot meets the merged busy time of some host exactly when the simple rule refuses it |
| Bookings.BusyOnlyRemoves | backend/engine/booking.go:151-194 | adding busy time or losing a host's calendar never adds a slot |
| PublicBooking.OfferedSlots | backend/api/booking_rule.go:106-122 | a day's list holds exactly the slots the offerable-start rule allows, ascending; an error only for a considered day whose busy time cannot be gathered |
| PublicBooking.DayFailsExactly | backend/api/booking_rule.go:106-122 | a day fails exactly when it is from today on within the horizon, open by weekday, and gathering its busy time ends in the error |
| PublicBooking.AvailableDates | backend/api/handlers_booking.go:206-234 | the listed dates are, in order and with repetition, those of the horizon's days that offer a slot, days that fail being left out; a cut on any day ends the whole answer |
| PublicBooking.ListingAscends | backend/api/handlers_booking.go:211-231 | where every day of the horizon lands on its own date the listed dates ascend and none repeats |
| PublicBooking.ModesAgree | backend/api/handlers_booking.go:206-249 | where the noons of today's horizon and of the date land on the date, it is available exactly when its explicit listing is non-empty, and that listing starts on that date only |
| PublicBooking.ModesDiffer | backend/api/handlers_booking.go:206-249 | and on every other date whose explicit listing offers anything the modes do not match |
| PublicBooking.ModesMatchExactly | backend/api/handlers_booking.go:206-249 | for every date some instant shows: the modes match exactly when the date its noon lands on, and the date itself if a day of the horizon lands on it, come to the same |
| PublicBooking.UnshownDateMatches | backend/api/handlers_booking.go:206-249 | and for a date no instant shows: exactly when its explicit listing is empty |
| PublicBooking.ShownNoonsLand | backend/api/booking_rule.go:48-63 | the noons land wherever noon is shown today and on the date |
| PublicBooking.SkippedDateListsTheNext | backend/api/booking_rule.go:48-63 | in a zone that skips a date, that date is never available but lists the next date's slots |
| PublicBooking.SkippedDateMismatch | backend/api/booking_rule.go:48-63 | a concrete link and zone: the skipped date is answered with the next morning's slot, and the next date is reached by two days of the list |
| PublicBooking.DurationAllowed | backend/api/handlers_booking.go:146-159 | positive, and an option of the link, or 30 when it has none |
| PublicBooking.ReadRequest | backend/api/handlers_booking.go:292-342 | accepts a body exactly when one allowed whole-minute length agrees with everything it gives, and returns that length and slot |
| PublicBooking.OfferedIsClear | backend/engine/booking.go:274-285 | an offered slot overlaps no live booking of any link sharing an accepted host, nor of its own |
| PublicBooking.BookedExactlyWhenListed | backend/api/handlers_booking.go:343-395 | when the confirmation goes through, asking a link with uses left (none live for a single-use one, fewer live than its uses for a limited recurring one) for a slot books it exactly when its day's listing offers it |
| PublicBooking.GoneExactly | backend/api/handlers_booking.go:79-87 | a booking is answered gone exactly when the link is there and single-use with a live booking, or recurring with a limit and as many live bookings |
| PublicBooking.LiveCounts | backend/storage/scheduling_links.go:118-127 | the uses counted are the number of the link's bookings that are not cancelled |
| PublicBooking.BadExactly | backend/api/handlers_booking.go:292-342 | a request is bad exactly when no positive length among the link's, or 30 when it lists none, equals the body's own length and duration; otherwise the slot decided on has that length, the link's first when the body gives none |
| PublicBooking.DecidesExactly | backend/api/handlers_booking.go:343-409 | the answers one by one: refused, taken by a live booking of the link, failed, cut, busy or created, each exactly when |
| PublicBooking.ConfirmDecides | backend/api/handlers_booking.go:395-409 | a request that reaches the confirmation is answered by its outcome alone |
| PublicBooking.EveryCommitIsDecided | backend/engine/booking.go:347-419 | however the confirmation's steps and the budget interleave, the finished run is one of the outcomes the booking decides on: created for a 201, busy for a 409, an insert error for a 500, expired otherwise; the client gets that answer, if any, and the booking is stored exactly when the outcome says so |
| PublicBooking.StepIsSafe | backend/api/handlers_booking.go:356-395 | one booking, one failed insert that kept its row, or one cancellation keeps live bookings apart and every link within its uses |
| PublicBooking.EveryRunIsSafe | backend/api/handlers_booking.go:356-395 | no double booking over any run, failed inserts that keep their row included: live bookings of one link, or of two links sharing an accepted host, never overlap, and no limited link exceeds its uses |
| PublicBooking.BookingStore.CreateBooking | backend/api/handlers_booking.go:252-414 | the handler's decision order: the outcome, gone exactly when the link is used up, and the one booking added exactly when it is created, or its insert fails with the row kept |
| BookingCommit.RunIsSound | backend/internal/budget/budget.go:183-247 | however the budget's timer and the handler interleave, the budget never answers for a handler that has committed or written, and an answer fits what was stored |
| BookingCommit.AnswerTellsTheStore | backend/engine/booking.go:347-419 | over every run a 503 or 409 means nothing is stored, a 201 that the booking is; once the insert is sent, its own result is the answer |
| BookingCommit.AnswerStands | backend/internal/budget/budget.go:69-85 | an answer never changes, and a request the budget answered for, or abandoned, stores nothing afterwards |
| BookingCommit.StoredAfterAllReads | backend/engine/booking.go:354-402 | nothing is stored before every accepted host's calendar has been read |
| BookingCommit.UnreadableIsBusy | backend/engine/booking.go:354-380 | a handler left to finish answers 409 exactly when every host was read, none was cut and some could not be read; once any was read, a host cut or not read makes it the 503 |
| BookingCommit.ErrorExactly | backend/engine/booking.go:356-412 | with no budget or ended request in the way, a finished handler answers 500 exactly when the hosts could not be listed, no connection was to be had, or the insert failed |
| BookingCommit.FailedInsertMayBeKept | backend/engine/booking.go:400-412 | the one answer that does not tell: whoever the accepted hosts are, a 500 of a failed insert, whether or not the row was kept |
| Renewal.StepSerialises | backend/auth/credential_lifecycle.go:122-131 | at most the lock's holder is inside Token, after every step |
| Renewal.EveryRunIsSound | backend/auth/credential_lifecycle.go:122-176 | over all interleavings: never two sources inside a renewal, no refresh token from nowhere, and a loss about to be recorded is of a refused token that is still stored exactly when it was not replaced since the re-check |
| Renewal.NoReplay | backend/auth/credential_lifecycle.go:122-176 | with a rotating provider, any number of sources and reconnects, no refresh token is presented after it was rotated away, unless the row disappears, a load or save fails, or a rotation's answer is lost |
| Renewal.StartIsUnspent | backend/auth/credential_lifecycle.go:185-203 | a connected owner with no sources yet is a start the guarantee covers |
| Renewal.EachFaultReplays | backend/auth/credential_lifecycle.go:132-176 | each of those four faults alone is enough for a run that presents a rotated token again |
| Renewal.LossAccounting | backend/auth/credential_lifecycle.go:61-74 | over every run: the entries written and those that failed number exactly the turns from not lost to lost; each follows a permanent refusal, of the token still stored exactly when it was not replaced since the re-check |
| Renewal.LossOfStoredExactly | backend/auth/credential_lifecycle.go:160-164 | whatever happens between re-check and record, the refused token is still the stored one exactly when no disconnect and no reconnect with a new refresh token came in between |
| Renewal.MarkStands | backend/storage/credentials.go:26-52 | a recorded loss stands until a connect or disconnect; from then on nothing is lost until a further record succeeds; a connect stores its own token, keeping the old refresh token if it brings none |
| Renewal.RecordAfterReconnect | backend/auth/credential_lifecycle.go:155-167 | a run in which a reconnect slips in and a usable credential ends marked lost |
| Renewal.RemovedStaysRemoved | backend/auth/token_store.go:51-97 | from a disconnect to the next reconnect the row is absent in every interleaving with renewals in flight |
| Renewal.ReconnectSticks | backend/auth/token_store.go:14-97 | after a reconnect made while nobody presents or holds a renewed token, what is stored descends from it over every run in which loads succeed |
| Renewal.ReconnectOverwritten | backend/auth/credential_lifecycle.go:154-175 | while loads succeed, only then: from any state with a renewal under way a run without faults stores the old connection's token over the new one |
| Renewal.FailedLoadOverwrites | backend/auth/credential_lifecycle.go:133-175 | with one failed load a quiet reconnect is overwritten too, by any source that caches an unusable token of the old connection |
| RenewingSource.Source.Call | backend/auth/credential_lifecycle.go:122-153 | for every cached and stored token and every answer: which result comes back, the new cache, row, mark and entries, and the exact steps taken; a token handed out was granted in this call or has access, an expiry where one is asked for, and ten seconds or more to its expiry; a cached token with all that is returned with no step taken, else a stored one after a load, without asking the provider |
| RenewingSource.AsksExactly | backend/auth/credential_lifecycle.go:112-164 | in the tokens' own fields: when a token is at hand, when the provider is asked, what a granted token is, which refusal is a loss, and what is cached and stored afterwards |
| RenewingSource.Source.Renew | backend/auth/credential_lifecycle.go:154-176 | from the provider's call on: granted, refused or in vain, what is cached, stored and recorded, and the exact steps taken |
| RenewingSource.CredentialRow.RecordLoss | backend/auth/credential_lifecycle.go:61-74 | the mark, which can fail, and one entry, which can fail after it, exactly when the mark is new |
| RateLimit.FixedWindowLimiter.TakeOne | backend/api/ratelimit_booking.go:59-83 | the new buckets, sweep time, answer and wait |
| RateLimit.RefusedAtLimit | backend/api/ratelimit_booking.go:72-83 | over any run from the start: a request is refused only when, from some instant one window length back at most, its key was allowed exactly the limit, and the wait ends that window |
| RateLimit.AllowedBelowLimit | backend/api/ratelimit_booking.go:72-83 | so a key with fewer than the limit allowed in the window length up to now is never refused |
| RateLimit.SweepInvisible | backend/api/ratelimit_booking.go:63-70 | over any run the sweeping limiter answers as one that never forgets |
| RateLimit.SweepsApart | backend/api/ratelimit_booking.go:63-70 | sweeps are a window length apart, and another key's bucket goes exactly in a sweep after its window ended |
| RateLimit.TwiceTheLimit | backend/api/ratelimit_booking.go:59-83 | over any run with a clock that does not go back: at most the limit in a key's window, and at most twice the limit in any stretch of one window length |
| RateLimit.RememberedIsRecent | backend/api/ratelimit_booking.go:63-70 | every remembered bucket began within the last two windows |
| RateLimit.RetryWorks | backend/api/ratelimit_booking.go:117-128 | a refusal stands until its wait is over; a retry strictly after Retry-After is allowed exactly for the waits that fit the window's whole seconds |
| RateLimit.RetryIsTight | backend/api/ratelimit_booking.go:117-128 | Retry-After is at least a second, no more than the wait rounded up or the window's whole seconds, and short of the wait only when one more second would pass the window |
| RateLimit.HalfSecondsBreakRetry | backend/api/ratelimit_booking.go:119-128 | a window of 1.5 s in which a retry after Retry-After is refused |
| Readiness.EveryRunIsSound | backend/api/readiness.go:45-75 | over every interleaving at most one ping is in flight, everyone is told the answer of the ping they waited on, and callers of one ping are told the same unless the process shuts down |
| Readiness.ShutdownRefuses | backend/api/readiness.go:43-63 | once shutting down nobody not yet answered is told ready |
| Readiness.ShutdownStartsNothing | backend/api/readiness.go:43-63 | whoever comes after the shutdown is turned away at once, and with nobody let in before still to join no further ping is started |
| Readiness.AwaitedBringsNearer | backend/api/readiness.go:56-75 | a waiting caller is never stuck: the step it waits for is enabled and brings it nearer |
| Readiness.NothingSetsBack | backend/api/readiness.go:56-75 | no step by anybody takes a waiting caller further from its answer |
| Readiness.AnsweredInFive | backend/api/readiness.go:45-75 | taking the awaited steps, it is answered within five |
| Readiness.FreshExactly | backend/api/readiness.go:45-75 | a caller is told an answer given after it joined exactly when it started the ping or found it still unanswered |
| Readiness.AnswerMayPredateTheCall | backend/api/readiness.go:49-75 | the other case occurs: a caller joins a ping already answered and is told ready |
| FocusTime.ComputeBufferBlocks | backend/engine/buffer.go:13-95 | exactly the clamped buffers before and after each qualifying meeting that overlap no qualifying meeting |
| FocusTime.BufferExactly | backend/engine/buffer.go:13-95 | in the settings' figures: the minutes before and after each opaque event of at least the shortest length, a minute or more, cut at the work hours; with back-to-back skipping those that meet no such event |
| FocusTime.BuildBusy | backend/engine/focus_time.go:212-249 | merged with strict gaps, and it blocks exactly what lunch, an opaque event or a buffer blocks inside the work hours |
| FocusTime.PlanFits | backend/engine/focus_time.go:159-207 | each block comes from a slot of its own, is between shortest and longest, and the total stays under the target plus one longest block |
| FocusTime.PlanApart | backend/engine/focus_time.go:159-207 | blocks from apart slots are apart |
| FocusTime.PlanExhausts | backend/engine/focus_time.go:159-207 | while the target is short, every slot whose block is long enough and can be created has been used |
| FocusTime.DayIsSound | backend/engine/focus_time.go:115-210 | the plan's blocks are ones the calendar creates, of allowed length, inside work hours, clear of lunch, opaque events and buffers, pairwise apart, and under the target plus one longest block |
| FocusTime.FocusRun.ProcessDay | backend/engine/focus_time.go:115-210 | one day of a run, whichever creations fail: skipped, failed, or filled: its blocks are sound and come from free slots in the order of falling score, the earlier of equals first, each tried while minutes are missing; a usable slot is left out only behind all the tried ones and with the target met; every other try is a failure counted |
| FocusTime.RankedTakesBest | backend/engine/focus_time.go:144-207 | of any list of free slots, the planned blocks are those of the best usable ones, best first and the earlier of equals first in a list in order of time, until the minutes are met |
| FocusTime.PlanFillsWell | backend/engine/focus_time.go:139-207 | around any busy list that blocks exactly what is blocked, the plan fills the day so |
| FocusTime.FocusRun.CreateBlocks | backend/engine/focus_time.go:159-207 | the loop over the scored candidates follows the plan and counts its minutes |
| Habits.FindFirstSlot | backend/engine/habits.go:264-272 | the earliest quarter-hour step of the window that fits, or none exists |
| Habits.FirstFitExactly | backend/engine/habits.go:264-272 | the first fit is the least start a multiple of 900 seconds into the window from which the length fits and meets nothing busy; none when there is none |
| Habits.FirstFitUnmerged | backend/engine/habits.go:262-272 | merging the busy list first changes neither |
| Habits.DayBusy | backend/engine/habits.go:98-152 | it blocks exactly opaque events, buffers around them, lunch and focus blocks |
| Habits.OccurrenceTable.PlaceHabit | backend/engine/habits.go:161-217 | one habit's turn, on the stored occurrence if it can be read: not today, finished, kept, placed at the first fit, or missed, and what is stored |
| Habits.TurnExactly | backend/engine/habits.go:161-217 | in the table's own terms: not due, completed, kept where it stands clear, else stored as scheduled at the least free step, else as missed at the window's start; otherwise the table is unchanged |
| Habits.OccurrenceTable.ScheduleDay | backend/engine/habits.go:156-219 | each habit in order is decided against everything standing before it, whichever lookups fail, and the table holds what the pass leaves |
| Habits.PassKeepsClear | backend/engine/habits.go:156-217 | in one pass every kept or newly placed occurrence avoids the day's busy time and all that stood before it |
| Habits.CompletedSurvivesExactly | backend/engine/habits.go:165-172 | a completed occurrence survives a pass exactly when the habit is not due or its lookup succeeds |
| Compression.ClassifyEvents | backend/engine/compression.go:205-227 | moveable and fixed meetings near the work hours, in order |
| Compression.ClassifiedInOrder | backend/engine/compression.go:205-227 | both lists keep the order of the events |
| Compression.AdjacentPositions | backend/engine/compression.go:257-277 | the work start and the places right after or right before another interval, all of them, in the order tried |
| Compression.PositionsInOrder | backend/engine/compression.go:257-277 | tried in order: the start of work, then interval by interval the place right after it and, where there is room, right before it |
| Compression.SuggestedIsSound | backend/engine/compression.go:90-157 | a suggested move keeps the length, stays in work hours unless lunch ends before they start, overlaps no other meeting or lunch, is free for the attendees, makes the largest gap over thirty minutes longer, and is to another start unless ids are shared |
| Compression.SuggestMove | backend/engine/compression.go:101-157 | the proposal for the first acceptable candidate in order, none when none is acceptable |
| Compression.SuggestedExactly | backend/engine/compression.go:106-156 | there is a proposal exactly when some adjacent start is acceptable |
| Compression.OwnStartGainsNothing | backend/engine/compression.go:106-142 | staying in place gains 0 minutes, whether or not the two Go times compare equal, when no other moveable meeting shares the id |
| Compression.SuggestForDay | backend/engine/compression.go:56-160 | exactly one proposal for each moveable meeting with an acceptable move, in order; each, applied alone, is sound; the total is the sum of the gains |
| Compression.SoundMeans | backend/engine/compression.go:56-160 | in the events' own fields: a proposal moves a meeting the user organises that is not transparent, keeps its length, is clear of lunch and of every other meeting of the day, suits the attendees, and makes the largest gap longer by its gain, 1860 seconds or more |
| Compression.MoveIsFound | backend/engine/compression.go:101-157 | conversely, a start of work or next to something in the way that is clear, in work hours, suits the attendees and gains as much gives the meeting a proposal |
| Compression.SuggestionsInOrder | backend/engine/compression.go:101-157 | proposals come in the order of their meetings |
| Compression.EveryMoveProposed | backend/engine/compression.go:101-157 | no moveable meeting with an acceptable move is left out |
| SmartSchedule.PickTopUnique | backend/engine/smart_schedule.go:264-286 | of ranked slots at most n, pairwise far enough apart, in their order and the first of all first; every other slot is too close to a picked one before it, or n before it were picked |
| SmartSchedule.Suggest | backend/engine/smart_schedule.go:59-143 | at most three candidates 3600 seconds apart, by falling score and the earlier of equals first when busy time is well-formed; any other candidate is too close to one before it, or three before it are there |
| SmartSchedule.CandidateExactly | backend/engine/smart_schedule.go:86-130 | a candidate starts a whole number of 1800 seconds after the start of a gap in the busy time that lasts until its end, has the asked length and its own score, lies in that day's work hours unless they may be exceeded, and meets no lunch |
| SmartSchedule.CandidateIsClear | backend/engine/smart_schedule.go:86-130 | a candidate has the asked length, lies in the range and overlaps nothing busy |
| TeamAvailability.TeamBusy | backend/engine/team_availability.go:87-101 | it blocks exactly the members' events and focus blocks and the zones that forbid meetings |
| TeamAvailability.TeamFreeExactly | backend/engine/team_availability.go:87-165 | the team is free exactly when no event of a readable calendar, no focus block and no zone of the weekday meets the interval |
| TeamAvailability.FindSlots | backend/engine/team_availability.go:56-122 | exactly the quarter-hour steps of the free pieces of the work window, in order of time when nothing ends before it starts; the score is always 100 |
| TeamAvailability.StepExactly | backend/engine/team_availability.go:103-122 | the slots start whole multiples of 900 seconds after the start of a common gap that lasts until their end |
| TeamAvailability.StepIsUsable | backend/engine/team_availability.go:56-122 | each slot has the asked length, lies in work hours, is free for the team and disrupts nobody's focus |
| TeamAvailability.GapIsServed | backend/engine/team_availability.go:103-122 | a common gap as long as the meeting always gives a slot, one longer by a step holds one |
| TeamAvailability.QualityScore | backend/engine/team_availability.go:167-181 | 100 less the share of members whose focus the slot disrupts |
| PersonalBlocker.BlockerTable.SyncOne | backend/engine/personal_blocker.go:93-159 | the blockers left, removed and created, whichever deletes, lookups, creates and records fail, and whether no phase was cut |
| PersonalBlocker.OneSync | backend/engine/personal_blocker.go:111-158 | an event in the feed never loses its blocker, gets at most one per wanted appearance that is not found, and is recorded exactly when it was, or one was created and recorded |
| PersonalBlocker.StaleGoesExactly | backend/engine/personal_blocker.go:111-132 | a blocker whose event left the feed goes exactly when its delete is answered, and is otherwise left as it was |
| PersonalBlocker.CleanSyncExactly | backend/engine/personal_blocker.go:93-159 | with everything answered and recorded, exactly the feed's events that had a blocker or want one have one afterwards: the old ones their own, the new ones a created one |
| PersonalBlocker.CreatedAgainExactly | backend/engine/personal_blocker.go:135-158 | a recorded blocker is created again exactly when the sync goes on and a create of it is answered, and it is up for creation exactly when a lookup of it failed |
| PersonalBlocker.FailedLookupCreatesAgain | backend/engine/personal_blocker.go:140-157 | the failing input: a recorded event whose lookup fails gets a second work event, whose id replaces the first one's |
| PersonalBlocker.Idempotent | backend/engine/personal_blocker.go:84-159 | the next sync of the same feed finds nothing stale and nothing missing exactly when this one's deletes and creates were all answered and recorded and no lookup of the next fails, and then it changes nothing |
| PersonalBlocker.ExactlyOnce | backend/engine/personal_blocker.go:84-159 | stopped anywhere any number of times, a missing blocker is created once, once more for each create answered but not recorded, and once more for each create recorded over a blocker whose lookup failed; a sync run to the end leaves it recorded |
| PersonalBlocker.OnceWhenAnswered | backend/engine/personal_blocker.go:84-159 | with every create recorded and every lookup answered there are none of the latter two: created exactly once, and a recorded one never again |
| PersonalBlocker.RepeatedIdCreatesTwice | backend/engine/personal_blocker.go:135-158 | an id that appears twice is created twice by one sync |
| Redaction.Replaced | backend/nlp/llm_factory.go:102-104 | strings.ReplaceAll as a left-to-right scan |
| Redaction.ReplaceIsJoin | backend/nlp/llm_factory.go:102-104 | the text is cut at the keys, counted from the left without overlaps, and the same parts are joined by "[redacted]" |
| Redaction.ReplaceRemoves | backend/nlp/llm_factory.go:101-105 | replacing one secret leaves none of it and brings back no other, of those that cannot be laid over the marker |
| Redaction.RedactSecrets | backend/nlp/llm_factory.go:89-106 | no secret is left that cannot be laid over the marker; a message that is a secret becomes the marker only, unless the marker itself holds a secret; one without secrets is untouched |
| Redaction.WholeKey | backend/nlp/llm_factory.go:91-104 | why the longest go first: a secret that contains others is replaced whole |
| Redaction.LeftExactly | backend/nlp/llm_factory.go:89-106 | a secret can be left, for some message and list of secrets, exactly when it can be laid over the marker: inside it, around it or across an end |
| Redaction.SomeBracketsAreSafe | backend/nlp/llm_factory.go:91-106 | a bracket in a secret is not enough to be left |
| Gateways.IsValidHost | backend/config/llm_hosts.go:116-129 | a non-IP dotted name of valid labels within the length limits |
| Gateways.OctetExactly | backend/config/llm_hosts.go:116-129 | a field of a dotted address is a number up to 255 in digits without a leading zero |
| Gateways.IsValidLabel | backend/config/llm_hosts.go:132-144 | exactly one to 63 characters a-z, A-Z, 0-9 and hyphen, no hyphen at either end |
| Gateways.GatewayPrefix | backend/config/llm_user_destinations.go:147-166 | one trailing slash dropped; accepted exactly when every segment is a plain one |
| Gateways.PrefixGrows | backend/config/llm_user_destinations.go:147-166 | a further segment keeps a prefix one exactly when it is a word of letters, digits, dots, underscores, tildes and hyphens, and not a dot or two |
| Gateways.GatewayEntry | backend/config/llm_user_destinations.go:121-143 | host and prefix of an entry, none when it cannot be a gateway; the laws are the next rows |
| Gateways.EntryExactly | backend/config/llm_user_destinations.go:121-166 | an entry is accepted as a gateway exactly when it is a valid host, or https in any case, ://, a valid host and a plain prefix, with at most one more slash |
| Gateways.RoundTrip | backend/config/llm_user_destinations.go:121-166 | every accepted gateway written as https:// + host + prefix is accepted as itself |
| Gateways.ParseGatewayEntries | backend/config/llm_user_destinations.go:103-119 | the gateways and the malformed entries, in order, empty parts skipped |
| Gateways.ParsePartExactly | backend/config/llm_user_destinations.go:103-119 | one part, with the white space around it dropped, is passed over when empty, approved when an entry, and malformed otherwise |
| Gateways.TrimSpaceExactly | backend/config/llm_user_destinations.go:105-107 | what is dropped from both ends is white space, by code point, and what is left neither starts nor ends with any |
| Gateways.SpacedIsApproved | backend/config/llm_user_destinations.go:103-119 | a valid entry is approved with any white space around it |
| Gateways.ParseJoin | backend/config/llm_user_destinations.go:103-119 | a comma-joined list parses to the parses of its sides, one after the other |
| Gateways.ApprovedIsCanonical | backend/config/llm_user_destinations.go:53-68 | every parsed gateway has a lower-case valid host and a trimmed prefix, so equality compares what was meant |

## Left out

- Sub-second parts of instants outside the limiter, and reading hours from text: opening and closing are minutes or unreadable (backend/engine/booking_window.go:66-82).
- The zero time as "no candidate yet" in the resolver (backend/engine/booking_window.go:47): a flag for the first probe; the two differ in year 1 only.
- Zones whose changes are less than 48 hours apart or whose offsets reach 24 hours: the resolver itself assumes them away (backend/engine/booking_window.go:40-41).
- time.Date is Go's two-step rule for a wall time in a zone; the conversion between dates and day numbers is not modelled.
- All-day events and unparsable event times: an event has times or has none.
- PublicBooking.BookingStore.CreateBooking: takes the outcome of ConfirmBooking as one input; its steps are modelled in `BookingCommit` and tied to it by `PublicBooking.EveryCommitIsDecided`. Host events and mail after the insert (backend/engine/booking.go:465-549), name and e-mail checks, JSON and HTTP are not modelled.
- BookingCommit.RunIsSound: does not model the budget's clock, panics, or the answers given before the confirmation; when the timer fires is left open.
- PublicBooking.EveryRunIsSafe: does not model two requests at once, because check and insert are separate statements here; requests are serial and accepted hosts fixed.
- Renewal.NoReplay: does not model a reconnect as a load followed by a write (backend/auth/microsoft_oauth.go:80-96), because it is one store step here; nor a provider that hands out an old token, nor several processes, each with its own lock.
- RenewingSource.Source.Call: does not model steps of others inside the call; those interleavings are the runs of `Renewal`.
- PublicBooking.AvailableDates: does not model a request that ends while the days are listed, which the handler answers like a cut.
- The limiter's setLimit and reset, the client address, and the mutex: calls are one at a time.
- The readiness timeout, which is one way a ping fails.
- FocusTime.FocusRun.ProcessDay: does not model a failing SaveFocusBlock, which is only noted, nor settings and score lookups; buffers are not negative, as the settings handler requires; "apart" and the order of equal scores are stated for lunch and events that do not end before they start, and all of it with a shortest block of at least a minute.
- What a second run of focus or habits does: focus events are written transparent and habit events opaque, so neither pass is idempotent against a live calendar.
- Compression.SuggestForDay: does not model `append` sharing the array of the other moveable meetings with the in-place sort (backend/engine/compression.go:136-138); lists are values. Free/busy lookups and the identity of Go times are inputs, applying proposals is not modelled.
- Habits.OccurrenceTable.ScheduleDay: does not model failing upserts or the creation of calendar events.
- SmartSchedule.Suggest: does not model how the out-of-hours allowance, hours and scores are found; the guard against starts before the range is omitted since free pieces never start before it.
- Team members' reads and zones are inputs; analytics are not modelled.
- PersonalBlocker.BlockerTable.SyncOne: does not model the calendar calls, whose answers, and whether they are then recorded, are inputs, nor the time window and work-hours test behind "wanted".
- Redaction.RedactSecrets: does not model bytes; text is a sequence of characters, and secrets of equal length keep their order, as sort.Slice does for up to twelve.
- Gateways.IsValidHost: does not model IPv6 literals, because no colon passes a label; a dotted quad is the only address a name of labels can be. Notices are modelled by the entry they name.
- Reading base URLs, the approved host list of the organization, the AI decision tables, analytics, cadence, cookies, OAuth redirects, mail, calendar text, Slack and Notion: reading or plumbing.
- The free/busy cache, whose key ignores the end of the range.
