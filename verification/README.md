# Verified models of the ticketing platform's hardest logic

This project models five clusters of the ticketing platform and proves what they promise: the
database operations that may destroy data, the calendar, money text and fee schedules, the client
protocols around checkout and step-up, and page ownership in the admin menu. `dafny verify
dfyconfig.toml` checks everything.

| files | what they model |
|---|---|
| `Text`, `Sorting`, `Binary64` | strings and decimal digits, `Array.prototype.sort`, and 53-bit binary floating point |
| `MoneyText`, `MoneyPrinting`, `Percentages`, `FloatExactness` | the readers and printers of typed amounts and percentages, and exactly which amounts they keep |
| `FeeBands`, `FeeEditor`, `FeeSplit` | the draft fee schedule editor, and the seed's booking and payment fees |
| `Gregorian`, `CalendarViews`, `SessionPlacement`, `DaySeries` | days as strings and numbers, calendar views, placing sessions, filling day series |
| `PageAccess` | longest-prefix page ownership, the marked menu link, access to pages |
| `StepUp`, `FeePolicyRequests`, `Checkout` | the step-up dialog's promises, the bounded retry, and the checkout screen against the booking server |
| `ImageMove`, `OffsiteUpload`, `Backups`, `Schedule` | the image move, the off-platform upload, recovery points, and the `db-seed` dispatcher |

## How it is modelled

Code that computes a value is a function. Loops are methods with invariants, and objects whose fields
change are classes; each is proved equal to a specification function, and the promises are proved
about that function. A protocol is a step function over all events the world may choose (crashes,
lost replies, taps, clock ticks, edits of variables), and its safety is proved over every sequence
of events.

Number arithmetic is not idealised. `Binary64.Fl` rounds a real to the nearest 53-bit value, ties to
even, and the readers and printers round after every operation as the source does; the theorems say
when the result is nevertheless exact. The currency's number of decimal places is the parameter `e`.

## Where the code does not keep its promise

Each of these is proved, with the exact condition under which the promise does hold where there is one.

- **A large amount changes when a fee row is opened and saved**, and so can the start a new row is
  offered. `formatMajor` divides by 10^e and calls `toFixed`. An amount is kept, at every number of
  decimals and up to the safe-integer bound, exactly when a residue modulo 5^e is small enough
  (`FloatExactness.DraftRoundTripExactly`,
  `FeeEditor.OfferedStartExactly`). At two decimals that is every amount below 100 * 2^46, and above it
  those with `16 * m % 25` outside 9 to 17; at three, every amount below 1000 * 2^43, and above it those
  with `64 * m % 125` outside 33 to 93 (`FloatExactness.TwoDecimals`, `FloatExactness.ThreeDecimals`).
- **The floating-point amount reader misreads some large amounts.** It is exact below 2^51 minor units at
  every number of decimals, and above exactly when the same residue is small enough for one more
  rounding (`FloatExactness.FloatReaderExactly`). The text `35184372088832.02` is read one minor unit too
  high (`FloatExactness.FloatReaderFailsAbove`).
- **A chart window that ends in a month or a year counts a point twice.** `fillDays` reads `2026-03` as
  1 March but compares it with days as text, so the point of 2026-03-01 is kept as inside and as beyond
  (`DaySeries.MonthEndDuplicates`). The answer is right if and only if the end is a full day or no point
  lies on the day it names (`DaySeries.FillIsFaithful`).
- **Calendar views at the edges of the four-digit years.** A view that begins before year 0, such as the
  week of 0000-01-01, and a view that ends on 9999-12-31 push days for ever; a view that ends later
  draws nothing; every other view draws its days (`CalendarViews.InCalendarExactly`). For a view that
  draws nothing `fetchWindow` then throws (`SessionPlacement.WindowExactly`), and with it the page
  (`apps/admin-web/app/admin/calendar/page.tsx:283-284`).
- **The rupee table has holes.** A subtotal of 19901 to 19999 is in no band and pays the dearest
  band's fee, so a dearer basket can cost less. When the customer pays the fees, or shares them, the total
  never falls from a subtotal on if and only if it is outside the first two holes
  (`FeeSplit.InrTotalGrowsExactlyOutsideHoles`).
- **`BACKUP_KEEP` of zero, or one that is no number, deletes the recovery point just taken**, also
  inside a full reset, before the tables are emptied (`Backups.FreshSurvivesExactly`, and over whole
  histories `Schedule.EveryEmptyingKeepsItsDumpExactly`). The comments at
  `apps/api/prisma/seed-operation.ts:318-327` promise a recovery point every time.
- **A failed `pg_dump` can leave a partial file that is listed as the newest recovery point**, counts
  as recent (`Backups.PartialFileIsListedFirst`). A prune then gives up a good recovery point for it
  exactly when it is listed before position KEEP and the good one at or after it
  (`Backups.CrowdsOutExactly`).
- **An off-platform copy can exist without its evidence row.** The row is written, best effort, only by
  the attempt that creates the object, and is left if and only if that attempt's own reply is seen and
  the database takes the row (`OffsiteUpload.EvidenceExactlyWhenSeen`). A lost reply makes the retry
  answer `exists` (`OffsiteUpload.LostReplyThenExists`); a failing write goes unseen behind `uploaded`
  (`OffsiteUpload.UploadedWithoutRow`), although `apps/api/prisma/backup-offsite.ts:142-144` promises a
  row for every `uploaded`.
- **A step-up code can answer a request it was not submitted for.** A code submitted for one request and
  accepted after another has replaced it answers the other yes (`StepUp.CodeAnswersAnother`); it answers
  its own request if and only if only submits and refusals came between
  (`StepUp.AnswersItsRequestExactly`).
- **One checkout key can make two bookings** when the reply is lost and the account changes before the
  retry, or when a free confirmation fails and releases the key (`Checkout.TwoBookingsOtherwise`);
  otherwise it makes at most one (`Checkout.AtMostOneBooking`).
- **`--limit 0.5` becomes a limit of zero**, with which the image move makes no progress
  (`ImageMove.ProgressExactly`).
- **The image move's read-back compares sizes, not bytes.** A store that accepts a put but keeps other bytes
  of the same size loses the image, and only such a store can (`ImageMove.MoveLosesExactly`).
- **The image move relies on content-addressed keys.** From rows still holding their bytes every faithful
  history keeps every image readable if and only if equal keys mean equal content
  (`ImageMove.ImagesAreSafeExactly`).

## Model

| member | source | states |
|---|---|---|
| Binary64.RelativeError | apps/admin-web/lib/fee-policies.ts:319 | every rounded operation is within 2^-53 of the exact result, relatively |
| Binary64.IntegersAreExact | apps/admin-web/lib/billing.ts:142-143 | every integer up to 2^53 is represented exactly, so a safe integer is what it seems |
| Binary64.Monotone | apps/admin-web/lib/billing.ts:151 | rounding never reverses the order of two values |
| MoneyText.MatchIsTheLanguage | apps/admin-web/lib/fee-schedule-draft.ts:59-61 | the pattern accepts exactly digits with at most `e` decimals, and the groups are recovered uniquely |
| MoneyText.TextReadersAreExact | apps/admin-web/lib/billing.ts:134-144 | `majorToMinor` and `parseMajor` agree on every string, null included, and give the exact decimal value whenever it is a safe integer, despite rounding at every step |
| MoneyText.FloatReaderIsExact | apps/admin-web/lib/fee-policies.ts:314-320 | the reader through binary floating point gives the exact worth of every accepted text under 2^51 minor units, for every number of decimals, and so agrees with the two text readers |
| MoneyText.ReadersAcceptAlike | apps/admin-web/lib/fee-policies.ts:314-320 | on comma-free text the three readers accept and refuse alike, except beyond the safe-integer bound |
| MoneyText.CommasAreIgnored | apps/admin-web/lib/billing.ts:135 | wherever a comma stands in a text without outer spaces, both text readers read the text as they read it without that comma |
| MoneyText.SpacesAreIgnored | apps/admin-web/lib/fee-schedule-draft.ts:56 | spaces and line ends around a text change nothing for any of the three readers |
| MoneyText.FloatReaderAccepts | apps/admin-web/lib/fee-policies.ts:314-320 | the third reader accepts exactly the trimmed texts of digits with at most `e` decimals, and so none with a comma |
| MoneyPrinting.FloorOfQuotientIsExact | apps/admin-web/lib/billing.ts:150-151 | the floor of the rounded quotient of a safe amount is the true integer quotient |
| MoneyPrinting.BillingRoundTrip | apps/admin-web/lib/billing.ts:146-154 | every safe amount, at every exponent, is read back from its printed form by both text readers, and by the third below 2^51 |
| MoneyPrinting.CanonicalForm | apps/admin-web/lib/billing.ts:134-154 | two readable texts print alike exactly when they are worth the same, and the printed form reads as that worth |
| MoneyPrinting.BillingForm | apps/admin-web/lib/billing.ts:146-154 | the printed form of every safe amount: the whole part, and exactly `e` more digits unless they are all zero |
| MoneyPrinting.DraftRoundTrip | apps/admin-web/lib/fee-schedule-draft.ts:55-71 | below 2^52 minor units, at every exponent, the draft editor's print and read give the amount back |
| MoneyPrinting.DraftForm | apps/admin-web/lib/fee-schedule-draft.ts:66-71 | what `formatMajor` shows has exactly `e` decimals, a negative amount is its opposite with a sign, and null is empty |
| Percentages.PercentReadersAgree | apps/admin-web/lib/billing.ts:160-166 | the three percentage readers give the same answer on every string: the exact basis points from 1 to 10000, else nothing |
| Percentages.PercentRoundTrip | apps/admin-web/lib/fee-schedule-draft.ts:73-82 | every rate from 1 to 10000 basis points survives being shown and read |
| Percentages.PercentSpacesAreIgnored | apps/admin-web/lib/billing.ts:160-166 | spaces around a percentage change nothing for any of the three readers |
| Percentages.PercentTextIsShortest | apps/admin-web/lib/fee-schedule-draft.ts:81-83 | a rate is shown without a zero at the end of its decimals and is worth the rate |
| FloatExactness.DraftRoundTripExactly | apps/admin-web/lib/fee-schedule-draft.ts:67-71 | for every number of decimals and every safe amount: the draft editor's print and read give the amount back if and only if the product of the rounded quotient drifts by at least minus and less than plus a half, which is a test on one residue modulo 5^e |
| FloatExactness.FloatReaderExactly | apps/admin-web/lib/fee-policies.ts:314-320 | for every number of decimals and every accepted text of a safe worth: it is read as that worth if and only if the worth is under 2^51 or the same residue is small enough for one more rounding; the other two readers always read it so |
| FloatExactness.PrintedReadsExactly | apps/admin-web/lib/fee-policies.ts:314-320 | the same, for every safe amount as the billing printer shows it |
| FloatExactness.TwoDecimals | apps/admin-web/lib/fee-policies.ts:314-320 | both conditions at two decimals, as size bounds and remainders modulo 25 |
| FloatExactness.ThreeDecimals | apps/admin-web/lib/fee-policies.ts:314-320 | both conditions at three decimals, as size bounds and remainders modulo 125 |
| FloatExactness.WholeUnitsAreExact | apps/admin-web/lib/fee-policies.ts:314-320 | in a currency without decimals every safe amount is read exactly, and survives the draft editor's print and read |
| FloatExactness.FloatReaderFailsAbove | apps/admin-web/lib/fee-policies.ts:314-320 | a concrete text that the floating-point reader gets wrong by one minor unit and the others do not |
| FeeBands.BandFromRow | apps/admin-web/lib/fee-schedule-draft.ts:103-154 | the step-by-step reader returns the band its fields denote or every problem in order, and never neither |
| FeeBands.BandsFromRows | apps/admin-web/lib/fee-schedule-draft.ts:156-165 | a list of rows gives all its bands, or nothing when any row is unreadable |
| FeeBands.BandSurvivesExactly | apps/admin-web/lib/fee-schedule-draft.ts:81-154 | a band of any fee type, with safe amounts, comes back from its row unchanged if and only if it is one the form can hold and the printer keeps each of its amounts, as it does every one below 2^52; and then without problems |
| FeeBands.ScheduleSurvivesExactly | apps/admin-web/lib/fee-schedule-draft.ts:81-165 | a whole schedule survives exactly when each of its bands does |
| FeeBands.RowShows | apps/admin-web/lib/fee-schedule-draft.ts:81-100 | a row copies every plain field of its band, and an amount field is empty exactly when the band has none, or charges a percentage only |
| FeeBands.ProblemsExactly | apps/admin-web/lib/fee-schedule-draft.ts:103-154 | a row has a problem if and only if a field its fee type needs is missing or unreadable, an optional one is unreadable, or its end is not above its start, and which one |
| FeeBands.BandMeansItsRow | apps/admin-web/lib/fee-schedule-draft.ts:103-154 | a row gives a band if and only if it has no problem, and each field of the band is what the row's own field reads as for its fee type |
| FeeEditor.OfferedStartExactly | apps/admin-web/lib/fee-schedule-draft.ts:167-192 | the offered row starts one minor unit after the highest end if and only if the printer keeps that amount |
| FeeEditor.NewStartIsNext | apps/admin-web/lib/fee-schedule-draft.ts:172-180 | the intended start is above every readable end of the place and is one above some end, or zero |
| FeeEditor.OfferedIsBlank | apps/admin-web/lib/fee-schedule-draft.ts:172-192 | the offered row is a flat, active, open row of the place, empty but for its start |
| FeeEditor.StartIsShown | apps/admin-web/lib/fee-schedule-draft.ts:167-192 | over any editing session the offered start is one the printer keeps |
| FeeEditor.SessionTiles | apps/admin-web/lib/fee-schedule-draft.ts:167-192 | after any number of offered rows, mixed with work on other places, every order total below the next start (or every one, once a row is left open) falls in exactly one row |
| FeeEditor.FinishedScheduleIsWhole | apps/admin-web/lib/fee-schedule-draft.ts:156-192 | the bands sent for a finished session hold every order total from zero up exactly once |
| FeeSplit.BookingFee | apps/api/prisma/seed.ts:95-101 | the loop returns the fee of the first band holding the subtotal, else of the last band |
| FeeSplit.FirstBandOrLast | apps/api/prisma/seed.ts:95-101 | on any table the fee is that of a band holding the subtotal with none before it holding it, or of the last band |
| FeeSplit.ComputeFees | apps/api/prisma/seed.ts:103-122 | for every order whose sums are safe integers: customer plus organizer fee is booking plus payment fee, a side that does not pay is charged nothing, shared parts differ by at most one, the payment fee is exactly 2% with halves up while 200 times the amount is safe, and within 27/50 of a unit of 2% beyond |
| FeeSplit.FreeIsFree | apps/api/prisma/seed.ts:103-122 | an order of zero has no fee of any kind, and any other is charged its band's fee and the payment fee on both together |
| FeeSplit.PaymentFeeIsTwoPercent | apps/api/prisma/seed.ts:105 | the rounded floating-point quotient is exactly 2% with halves up, while 200 times the amount is safe |
| FeeSplit.UniqueBand | apps/api/prisma/seed.ts:95-101 | on any contiguous table exactly one band holds each subtotal and the lookup returns its fee |
| FeeSplit.PaymentFeeGrows | apps/api/prisma/seed.ts:105 | the payment fee, rounded at each step, never falls as the amount grows, without any bound |
| FeeSplit.TotalGrows | apps/api/prisma/seed.ts:103-122 | on any contiguous table with non-decreasing fees a dearer basket never costs the customer less, in any of the three modes |
| FeeSplit.WhichTablesQualify | apps/api/prisma/seed.ts:52-80 | the dollar tables are contiguous with non-decreasing fees; the rupee table is not contiguous |
| FeeSplit.DollarFees | apps/api/prisma/seed.ts:62-80 | the dollar fees, amount by amount |
| FeeSplit.InrHoles | apps/api/prisma/seed.ts:56-61 | exactly three ranges of subtotals are in no rupee band, and all pay the last band's fee |
| FeeSplit.InrFeeGrowsExactlyOutsideHoles | apps/api/prisma/seed.ts:52-101 | the rupee fee never falls from a subtotal on if and only if that subtotal is in neither of the two dear holes |
| FeeSplit.InrTotalGrowsExactlyOutsideHoles | apps/api/prisma/seed.ts:103-122 | in each mode, the customer's rupee total never falls from a subtotal on if and only if that subtotal is in neither dear hole, or the organizer pays |
| FeeSplit.InrTotalFalls | apps/api/prisma/seed.ts:103-122 | a concrete dearer basket that costs less |
| Gregorian.DateOfNumber | apps/admin-web/lib/calendar.ts:46-65 | calendar dates and day numbers are in bijection, over all years |
| Gregorian.DayOfNumber | apps/admin-web/lib/calendar.ts:61-65 | every day number of the four-digit years has a real day string that names it |
| Gregorian.NumberOfDay | apps/admin-web/lib/calendar.ts:50-55 | every string `parseDay` accepts is the string of its own number |
| Gregorian.NoDayOutside | apps/admin-web/lib/calendar.ts:50-65 | the cut ISO string is a day exactly within the years 0000 to 9999 |
| Gregorian.DayOrder | apps/admin-web/lib/calendar.ts:90 | string order on days is the order of their numbers, and equal strings mean equal days |
| Gregorian.MonthLengths | apps/admin-web/lib/calendar.ts:50-55 | how long each month of each year is, written out with the leap rule |
| Gregorian.MonthsFromMarch | apps/admin-web/lib/calendar.ts:50-65 | from 1 March to the first of the k-th month after it are (153k + 2) / 5 days, in every year |
| Gregorian.DaysExactly | apps/admin-web/lib/calendar.ts:50-55 | which texts are days: a month from 1 to 12 and a day within that month's length, and no other |
| Gregorian.NextString | apps/admin-web/lib/calendar.ts:61-65 | the string of the next number shows the next day of the month, or the first of the next month or year |
| CalendarViews.AddOneDay | apps/admin-web/lib/calendar.ts:61-65 | `addDays(day, 1)` is the next day of the month while there is one, else the first of the next month, for every day before 9999-12-31 |
| CalendarViews.AddDaysAdds | apps/admin-web/lib/calendar.ts:61-65 | adding days in two steps or in one is the same, forwards and back |
| CalendarViews.WeekdaysFollow | apps/admin-web/lib/calendar.ts:67-70 | weekdays follow one another from Thursday 1970-01-01 |
| CalendarViews.FirstOfMonthIsStart | apps/admin-web/lib/calendar.ts:76-78 | replacing the last two characters by `01` gives the first day of the month by number |
| CalendarViews.EndsAreNumbers | apps/admin-web/lib/calendar.ts:72-107 | the ends a view computes as strings are the days of the week and month they should be |
| CalendarViews.DaysBetween | apps/admin-web/lib/calendar.ts:87-92 | from any two texts on which the string-comparing loop ends, it pushes exactly the texts its rounds go through |
| CalendarViews.DrawsSpan | apps/admin-web/lib/calendar.ts:87-92 | between days, with the last before 9999-12-31, the loop ends having pushed every day from first to last, and nothing when first is after last |
| CalendarViews.LoopPassesTheEnd | apps/admin-web/lib/calendar.ts:87-92 | with 9999-12-31 as the last day the loop condition holds in every round, from every first day |
| CalendarViews.ViewDays | apps/admin-web/lib/calendar.ts:94-107 | every view that ends draws exactly the consecutive days from its first to its last, or nothing when it lies past 9999-12-31 |
| CalendarViews.EndStrings | apps/admin-web/lib/calendar.ts:101-107 | the two strings a view hands to the loop: its first and last day, cut as `toISOString().slice(0, 10)` cuts them outside the four-digit years, and read back as the first of their month |
| CalendarViews.InCalendarExactly | apps/admin-web/lib/calendar.ts:87-107 | for every view of every day: it draws its days if and only if they lie in the four-digit years with a day to spare, never ends if and only if it begins before year 0 or ends on 9999-12-31, and draws nothing if and only if it ends later |
| CalendarViews.MonthViewIsWholeWeeks | apps/admin-web/lib/calendar.ts:94-107 | a month view has 28, 35 or 42 strictly increasing consecutive days, runs Monday to Sunday, and holds every day of the month |
| CalendarViews.WeekAndAgenda | apps/admin-web/lib/calendar.ts:101-103 | a week view is seven days from a Monday that hold the anchor, an agenda fourteen days from the anchor, each the day after the one before |
| CalendarViews.WeeksFlattenBack | apps/admin-web/lib/calendar.ts:316-319 | the rows put end to end are the days, every row but the last has seven, and none is empty |
| CalendarViews.ViewsTile | apps/admin-web/lib/calendar.ts:101-128 | by day number, the week and agenda views a whole number of steps away put each day in exactly one view |
| CalendarViews.PressesTile | apps/admin-web/lib/calendar.ts:101-128 | on the strings: some number of presses of Next or Previous leads to the view showing a given day (while its anchor is in the calendar), and every number of presses that leads to a view showing it leads to that one |
| CalendarViews.NextViewFollows | apps/admin-web/lib/calendar.ts:121-128 | the next week or agenda view starts the day after this one ends |
| CalendarViews.MonthThereAndBack | apps/admin-web/lib/calendar.ts:121-128 | a month step lands on the first of the neighbouring month, and the step back on the first of this one |
| SessionPlacement.PlaceSessions | apps/admin-web/lib/calendar.ts:199-234 | the loops leave an entry for exactly the drawn days, each the sorted sessions of its day, and count the rest |
| SessionPlacement.PlacementIsPartition | apps/admin-web/lib/calendar.ts:199-234 | on distinct days, the day lists and the sessions outside together hold every session exactly as often as it was given |
| SessionPlacement.DayListIsSortedDay | apps/admin-web/lib/calendar.ts:192-234 | a day's list holds exactly the sessions of that venue-local day, ordered by venue minute, then title, then id |
| SessionPlacement.ClockReading | apps/admin-web/lib/calendar.ts:140-170 | the day and minute a session is placed at are those a clock that far ahead of UTC shows when it starts |
| SessionPlacement.DrawnSessionIsFetched | apps/admin-web/lib/calendar.ts:109-119 | a session on a drawn day starts inside the padded UTC window, for every offset under 24 hours |
| SessionPlacement.WindowLosesNothing | apps/admin-web/lib/calendar.ts:109-119 | placing only the fetched sessions gives, on every drawn day, exactly the list that placing all sessions gives |
| SessionPlacement.WindowExactly | apps/admin-web/lib/calendar.ts:109-119 | for every view that ends: there is a window to fetch if and only if the view draws its days; when it draws none `fetchWindow` throws |
| Gregorian.ReadOrder | apps/admin-web/lib/day-series.ts:27-38 | how string order between a day and a day, month or year text relates to the days they name: a short text stands just before its own first day |
| Gregorian.PlainOrder | apps/admin-web/lib/day-series.ts:23-32 | texts in string order name days in order, short ones included |
| DaySeries.FillDays | apps/admin-web/lib/day-series.ts:13-40 | for every request: the loops compute one point for each day of the window as `Date` reads its ends, and the points whose text is beyond it, sorted; or the sorted series when an end is absent, invalid, reversed or too far |
| DaySeries.FillsExactly | apps/admin-web/lib/day-series.ts:23-30 | between two days a window is filled if and only if the end is not before the start and both ends counted the days are at most `maxDays` |
| DaySeries.LeftAlone | apps/admin-web/lib/day-series.ts:23-30 | a window with an unreadable or reversed end, or too many days, leaves the series as it is, sorted |
| DaySeries.DefaultWindow | apps/admin-web/lib/day-series.ts:20-22 | when no end is asked for the window runs from the first day of the series to its last |
| DaySeries.LookupIsLast | apps/admin-web/lib/day-series.ts:32-37 | a window day shows the last point given for it |
| DaySeries.LookupIsEmpty | apps/admin-web/lib/day-series.ts:32-37 | a window day without a point shows an empty one of that day |
| DaySeries.FilledDays | apps/admin-web/lib/day-series.ts:32-39 | in a window of full days each window day occurs exactly once in the answer, every other day as often as it was given |
| DaySeries.FilledBetweenDays | apps/admin-web/lib/day-series.ts:32-39 | how often every day occurs in what the source computes, for ends that are days, months or years |
| DaySeries.FilledSum | apps/admin-web/lib/day-series.ts:32-39 | any sum in which empty points count zero is unchanged |
| DaySeries.FillIsFaithful | apps/admin-web/lib/day-series.ts:13-40 | for every request without signed years: the answer is strictly increasing and is the series plus one empty point for each missing window day, if and only if the window cannot be filled, or ends in a full day, or holds no point on the day its end names; and then its sums are the series' own |
| DaySeries.FillHoldsTheWindow | apps/admin-web/lib/day-series.ts:13-40 | the whole function's answer holds each day of a window once, and the end's day once more for each point on it when the end is not a full day |
| DaySeries.FillTwice | apps/admin-web/lib/day-series.ts:13-40 | filling a filled series again with the same request changes nothing if and only if there was nothing to fill or the end is a full day, also when the window is taken from the series |
| DaySeries.MonthEndDuplicates | apps/admin-web/lib/day-series.ts:26-39 | for every month: asked for that month to itself, a point on its first day comes back twice |
| PageAccess.OwningLinkHref | apps/admin-web/lib/page-access.ts:41-50 | the loop computes the best covering link that `BestIsLongest` characterises |
| PageAccess.ActiveHref | apps/admin-web/lib/admin-nav.ts:518-532 | the same for the link the menu marks |
| PageAccess.BestIsLongest | apps/admin-web/lib/page-access.ts:41-50 | the result is a longest applying link, and nothing only when no link applies |
| PageAccess.LongestIsUnique | apps/admin-web/lib/page-access.ts:41-50 | at most one href is longest |
| PageAccess.MenuOrderIsIrrelevant | apps/admin-web/lib/page-access.ts:41-50 | two menus with the same links in any order give the same owner |
| PageAccess.MarkedIsOwnerExactly | apps/admin-web/lib/admin-nav.ts:513-532 | the marked link is the owner if and only if there is no owner or a link with the owner's href may be marked at this path |
| PageAccess.AccessIsMonotone | apps/admin-web/lib/page-access.ts:61-73 | nobody loses a page by holding more roles or capabilities; `PageAllowedExactly` says what each page needs |
| PageAccess.PageAllowedExactly | apps/admin-web/lib/page-access.ts:52-73 | for every path, viewer and menu, with the owner given as the longest covering href: the super admin may open every page, everybody one without an owner, and anyone else exactly when holding everything the first link with the owner's href needs |
| PageAccess.CoversExactly | apps/admin-web/lib/page-access.ts:37-39 | an href covers itself and what is below it after a slash, and nothing else |
| PageAccess.NavExactly | apps/admin-web/lib/admin-nav.ts:508-511 | the flattened menu holds every link of every group and every child of such a link, and nothing else |
| PageAccess.GroupsInOrder | apps/admin-web/lib/admin-nav.ts:508-511 | the groups are flattened one after another |
| PageAccess.LinksBegin | apps/admin-web/lib/admin-nav.ts:508-511 | within a group each link stands right before its children, then come the links after it |
| PageAccess.DetailInheritsExactly | apps/admin-web/lib/page-access.ts:41-50 | a page below another has the same owner if and only if no link covers it without covering the page above |
| PageAccess.DetailAccessIsInherited | apps/admin-web/lib/page-access.ts:52-73 | such a page is open to exactly the same people |
| StepUp.StepUpProvider.AskForCode | apps/admin-web/components/step-up.tsx:40-51 | a new request answers the held one no, then is held itself |
| StepUp.StepUpProvider.FinishWith | apps/admin-web/components/step-up.tsx:69-73 | closing settles the held promise, if any, and lets go of it |
| StepUp.StepUpProvider.SubmitCode | apps/admin-web/components/step-up.tsx:75-79 | a submit is made while some promise, or none, is held |
| StepUp.StepUpProvider.SubmitReturned | apps/admin-web/components/step-up.tsx:79-91 | an accepted code settles the promise held then yes; a refused one leaves it held |
| StepUp.EveryRunIsSound | apps/admin-web/components/step-up.tsx:40-92 | over every interleaving each promise is settled at most once, all but the newest are settled, and the dialog is open exactly while one is held |
| StepUp.BusyAndErrorExactly | apps/admin-web/components/step-up.tsx:40-92 | over every run: the form is busy if and only if a submit has had no reply since, and shows an error if and only if a refusal came after the last submit or request |
| StepUp.NewYes | apps/admin-web/components/step-up.tsx:69-92 | in one step only an accepted code adds a yes, and only to the promise held |
| StepUp.YesNeedsAnAcceptedCode | apps/admin-web/components/step-up.tsx:69-92 | a promise is answered yes only by a code accepted while that very promise was held |
| StepUp.AnswersItsRequestExactly | apps/admin-web/components/step-up.tsx:40-92 | over every run: an accepted code answers the request it was submitted for if and only if only submits and refusals came between; a newer request if and only if one came and nothing settled it; else nobody |
| StepUp.CodeAnswersAnother | apps/admin-web/components/step-up.tsx:40-92 | a concrete run in which a code submitted for one request answers the next yes |
| FeePolicyRequests.Send | apps/admin-web/lib/fee-policies.ts:184-231 | the recursion ends, by its two one-way flags, and equals its specification |
| FeePolicyRequests.SendIsBounded | apps/admin-web/lib/fee-policies.ts:184-231 | whatever the world answers: at most three fetches, one refresh and one dialog, and no fetch repeated without one of them |
| FeePolicyRequests.LastReplyDecides | apps/admin-web/lib/fee-policies.ts:200-231 | data if and only if the last reply was good, an error only when no permitted repeat was left, and the setup report exactly when the last reply asks for it |
| FeePolicyRequests.TriedExactly | apps/admin-web/lib/fee-policies.ts:206-219 | the refresh and the dialog are tried if and only if a reply asked for them while their flag was down |
| FeePolicyRequests.ReportsExactly | apps/admin-web/lib/fee-policies.ts:220-225 | a missing second factor is reported once at most, and exactly when the last reply says so |
| Checkout.CheckoutScreen.OnPay | apps/customer-mobile/app/checkout.tsx:140-159 | a tap does nothing while the latch is up or the form is invalid; else it raises the latch and creates, or reuses the booking its render holds |
| Checkout.CheckoutScreen.AfterCreate | apps/customer-mobile/app/checkout.tsx:148-177 | a created booking is remembered, and paid for unless the server returned it confirmed |
| Checkout.CheckoutScreen.AfterFollow | apps/customer-mobile/app/checkout.tsx:178-195 | what each outcome of the payment step leads to, and that the latch comes down when the call ends |
| Checkout.CheckoutScreen.AfterStatus | apps/customer-mobile/app/checkout.tsx:197-214 | the server's status decides between the booking page and the alert; the latch comes down |
| Checkout.CheckoutScreen.AfterError | apps/customer-mobile/app/checkout.tsx:215-220 | any failure shows an alert and releases the latch |
| Checkout.EveryRunIsSound | apps/customer-mobile/app/checkout.tsx:140-221 | over every interleaving of taps, stale renders, lost and late replies: one call at most, latch up exactly while it runs, the call is on the payment started last, and no payment is started on a booking that is confirmed or not on record |
| Checkout.AlertsAreTold | apps/customer-mobile/app/checkout.tsx:181-216 | over every run: the alerts shown are exactly those of its failed calls, unsupported steps and unread or pending statuses, one each, in order |
| Checkout.OpensExactly | apps/customer-mobile/app/checkout.tsx:172-203 | at every point of every run: a booking's page is opened if and only if it comes to hand confirmed, or the steps of the payment started last are completed or its status is read as no longer pending, and it is that payment's booking |
| Checkout.PaysExactly | apps/customer-mobile/app/checkout.tsx:172-178 | a payment is started if and only if a booking comes to hand that is not confirmed, and it is for that booking |
| Checkout.BeginsExactly | apps/customer-mobile/app/checkout.tsx:140-163 | a call begins if and only if the form is valid and none is under way, and sends a create request if and only if no booking is at hand |
| Checkout.HoldsExactly | apps/customer-mobile/app/checkout.tsx:91 | the booking the screen holds is the one the last create call was answered with, until another begins |
| Checkout.ReadsExactly | apps/customer-mobile/app/checkout.tsx:197-202 | a status is read if and only if the steps were dismissed or failed |
| Checkout.FollowsExactly | apps/customer-mobile/app/checkout.tsx:178-179 | the steps of a payment are followed if and only if its start was answered |
| Checkout.EveryCallIsAccounted | apps/customer-mobile/app/checkout.tsx:140-221 | in every run each call is under way or returned with exactly one page opened or one alert shown |
| Checkout.ScreenShowsRecords | apps/customer-mobile/app/checkout.tsx:148-203 | every page opened and payment started, in any run, is for a booking on the server's record, made for its actor by a request of this screen |
| Checkout.RecordsExactly | apps/api/src/bookings/booking-idempotency.ts:54-76 | a record is kept for good, and is made only by the first accepted request of its actor, with that request's body and booking |
| Checkout.BooksExactly | apps/api/src/bookings/bookings.service.ts:1069-1090 | a booking is made if and only if a request of an actor without a record is not rejected, and either a record or a released key is left for it |
| Checkout.OnePaymentStartInFlight | apps/customer-mobile/app/checkout.tsx:102-107 | two payment starts are never in flight together |
| Checkout.BookingsAreBounded | apps/api/src/bookings/booking-idempotency.ts:54-76 | one screen's key makes at most one booking per actor that sent it, and one more per released key |
| Checkout.AtMostOneBooking | apps/customer-mobile/app/checkout.tsx:95-99 | with one account and no released key the screen makes at most one booking |
| Checkout.TwoBookingsOtherwise | apps/api/src/bookings/bookings.service.ts:1082-1090 | both conditions are needed: a reachable run with two bookings when either fails |
| ImageMove.Script.MoveRow | apps/api/prisma/backfill-object-storage.ts:157-182 | one row's copy, read-back and clear, with every place it can stop |
| ImageMove.Script.MoveTable | apps/api/prisma/backfill-object-storage.ts:58-92 | the loop stops at the first failure, and on success moved counts the rows of the snapshot that held bytes and skipped the others |
| ImageMove.GoesOnExactly | apps/api/prisma/backfill-object-storage.ts:157-182 | the run goes on from a row if and only if its bytes were put, read back at their size and cleared, in that order, and the update was answered |
| ImageMove.NothingIsEverDropped | apps/api/prisma/backfill-object-storage.ts:150-182 | after any runs with any faults, even a corrupting store, each row holds its original bytes or was cleared immediately after its key was written with them and read back at their size |
| ImageMove.MoveLosesExactly | apps/api/prisma/backfill-object-storage.ts:166-181 | one move loses its image if and only if the store accepted the put but keeps something else, a get reports the right size all the same, and the row is cleared |
| ImageMove.ImagesAreNeverLost | apps/api/prisma/backfill-object-storage.ts:18-24 | with a faithful store and content-addressed keys every image stays readable, over any runs with crashes, lost replies and failures |
| ImageMove.ImagesAreSafeExactly | apps/api/prisma/backfill-object-storage.ts:62-182 | from rows still holding their bytes, every faithful history leaves every image readable if and only if equal keys mean equal content |
| ImageMove.CollidingKeysLoseAnImage | apps/api/prisma/backfill-object-storage.ts:166-181 | two different images under one key lose the first without any fault |
| ImageMove.RunShrinks | apps/api/prisma/backfill-object-storage.ts:61-136 | a fault-free run leaves exactly what the limit does not cover, per table |
| ImageMove.RunsEmptyTheDatabase | apps/api/prisma/backfill-object-storage.ts:61-144 | repeated fault-free runs with a limit of at least one reach empty within as many runs as there were rows |
| ImageMove.ProgressExactly | apps/api/prisma/backfill-object-storage.ts:31-35 | a fault-free run makes progress if and only if its limit is not zero and rows are left |
| OffsiteUpload.KeyEndsWithName | apps/api/prisma/backup-offsite.ts:80-90 | the dump's name can be read off its key, so different dumps never share one |
| OffsiteUpload.KeyOfDump | apps/api/prisma/backup-offsite.ts:80-90 | a dump's key, under any prefix and from any directory: its environment in lower case, its date and its name |
| OffsiteUpload.KeyOfOther | apps/api/prisma/backup-offsite.ts:80-90 | every other name is kept under `unknown/undated` |
| OffsiteUpload.Uploader.UploadOffsite | apps/api/prisma/backup-offsite.ts:146-222 | the retry loop ends with an outcome and equals its specification |
| OffsiteUpload.AnswerExactly | apps/api/prisma/backup-offsite.ts:161-217 | for every network: a call sends until a reply is seen or a status says the request itself was wrong, three times at most, and when each of the three answers is given |
| OffsiteUpload.UploadIsSafe | apps/api/prisma/backup-offsite.ts:139-222 | whatever the network and the database do: nothing stored changes, at most three sends, evidence tried exactly on `uploaded` and a row left exactly when that write succeeds, and after `uploaded` or `exists` the key is present |
| OffsiteUpload.CallsAreSafe | apps/api/prisma/backup-offsite.ts:139-222 | over any calls an object once present never changes and every dump's key holds that dump |
| OffsiteUpload.AnswerMeansStored | apps/api/prisma/backup-offsite.ts:192-207 | after any earlier calls, `uploaded` and `exists` both mean this dump's bytes are under its key |
| OffsiteUpload.EvidenceExactlyWhenSeen | apps/api/prisma/backup.ts:82-133 | when an attempt creates the object, the call tries to leave evidence if and only if that attempt's own reply is seen, and a row is left if and only if the write then succeeds |
| OffsiteUpload.LostReplyThenExists | apps/api/prisma/backup-offsite.ts:203-207 | a concrete run: the object is created, the call says `exists`, and no evidence is tried |
| OffsiteUpload.UploadedWithoutRow | apps/api/prisma/backup-offsite.ts:193-195 | a concrete run: the object is created, the call says `uploaded`, and the row is lost in the database |
| Backups.ListedAre | apps/api/prisma/backup.ts:55-66 | the list holds exactly the files with a dump's name |
| Backups.DumpNameExactly | apps/api/prisma/backup.ts:57 | a dump's name is anything between the prefix and the suffix |
| Backups.ListIsNewestFirst | apps/api/prisma/backup.ts:55-66 | the list is newest first, and files of one time stay in directory order |
| Backups.RecentExactly | apps/api/prisma/backup.ts:68-80 | there is a recent backup if and only if some dump is at most that old, and it is the newest dump |
| Backups.Volume.TakeBackup | apps/api/prisma/backup.ts:135-220 | what each way of ending leaves on the volume, and that a file is returned only when it was read back |
| Backups.TakeExactly | apps/api/prisma/backup.ts:135-220 | a take adds at most one file, under its name and time: read back if and only if it verified, else a part, an empty output or an unreadable dump that would not delete |
| Backups.Volume.Prune | apps/api/prisma/backup.ts:222-234 | the loop deletes and reports exactly the files its specification names |
| Backups.FailedTakeKeeps | apps/api/prisma/backup.ts:141-215 | a failed take removes no earlier file and adds none that was read back |
| Backups.PruneRemovesExactly | apps/api/prisma/backup.ts:222-234 | a file goes if and only if it is listed from KEEP on and will delete |
| Backups.PruneLeavesFirst | apps/api/prisma/backup.ts:222-234 | when every file deletes, the list after a prune is exactly the first KEEP of the list before it, or for a negative KEEP all but the last so many |
| Backups.FreshSurvivesExactly | apps/api/prisma/backup.ts:42-43 | a new recovery point survives its own prune if and only if KEEP keeps the newest file or it will not delete |
| Backups.PartialFileIsListedFirst | apps/api/prisma/backup.ts:75-80 | what a failing `pg_dump` leaves behind is listed first and counts as recent |
| Backups.VolumeIsSound | apps/api/prisma/backup.ts:141-234 | over any history names stay unique, and every listed file was read back if failures leave no file |
| Backups.RetentionHolds | apps/api/prisma/backup.ts:141-234 | over any history at least KEEP files remain, or as many as takes ever succeeded, left-over files counted; all of them were read back when failures leave no file |
| Backups.CrowdsOutExactly | apps/api/prisma/backup.ts:188-234 | a prune with KEEP of at least one deletes a recovery point that was read back while keeping a listed file that was not, if and only if such a file is listed before position KEEP and such a point at or after it |
| Backups.PartialFilesCrowdOut | apps/api/prisma/backup.ts:188-201 | a concrete volume with KEEP two on which it happens |
| Schedule.AuthorisationLastsExactly | apps/api/prisma/destructive-authorisation.ts:42-88 | an authorisation is honoured exactly from sixty minutes before its moment until that moment |
| Schedule.VerdictIsSound | apps/api/prisma/scheduled-operation.ts:100-207 | a manual operation is allowed only inside its live window; without one only an operation a schedule may select runs |
| Schedule.EveryRunIsAsAsked | apps/api/prisma/seed-operation.ts:70-356 | over every history each run does exactly what its variables ask: without a manual operation it performs the schedule's one, or `status` when that is not one a schedule may select, a backup being performed if and only if its dump verified; a known manual one acts if and only if its window is live; a reset empties if and only if environment, authorisation and dump allow it; an unknown one does nothing |
| Schedule.KnownOperations | apps/api/prisma/scheduled-operation.ts:45-77 | the operations there are and those a schedule may select, written out |
| Schedule.WindowExactly | apps/api/prisma/scheduled-operation.ts:100-133 | the operation window is live if and only if it names a moment within the next hour |
| Schedule.DestructiveExactly | apps/api/prisma/destructive-authorisation.ts:42-84 | the authorisation is live if and only if it is the prefix in any case and a moment within the next hour |
| Schedule.EnvironmentExactly | apps/api/prisma/destructive-guard.ts:52-104 | the environments in which a reset is allowed, written out |
| Schedule.SettingIsTrimmed | apps/api/prisma/scheduled-operation.ts:135-150 | a variable is read without the spaces around it, and one not set as empty |
| Schedule.ResetAllowedExactly | apps/api/prisma/destructive-guard.ts:52-104 | a reset is allowed if and only if APP_ENV is on the allowlist and the platform does not name a protected environment |
| Schedule.Dispatcher.Run | apps/api/prisma/seed-operation.ts:70-356 | the switch's outcome, exit code, volume and log for every operation, whether the work it hands on succeeds or fails |
| Schedule.EveryEntryIsSound | apps/api/prisma/seed-operation.ts:286-349 | over any history of edits, ticks and runs, tables are emptied only by `full-reset` in an allowlisted environment, with an authorisation expiring within the hour, after a dump read back in that run |
| Schedule.ManualRunsAreWithinTheHour | apps/api/prisma/scheduled-operation.ts:127-207 | two runs that act on a manual operation with the same variables decide less than sixty minutes apart |
| Schedule.EmptiedWithRecoveryPointExactly | apps/api/prisma/seed-operation.ts:318-347 | in one run with a fresh dump: when tables are emptied, that dump is still on the volume if and only if BACKUP_KEEP keeps the newest file or it will not delete |
| Schedule.EveryEmptyingKeepsItsDumpExactly | apps/api/prisma/seed-operation.ts:318-347 | the same for every run of every history of edits, ticks and runs, freshness following from the clock and from names never used twice |

## Left out

Contracts narrower than the code, and why:

- CalendarViews.DaysBetween: requires that the loop ends, since a method here must; `CalendarViews.InCalendarExactly` says for every view when it does.
- CalendarViews.ViewDays: requires that the view neither begins before year 0 nor ends on 9999-12-31, because from there the loop does not end. The growing list and the memory it fills are not modelled.
- DaySeries.FillDays: the first ten characters of each point's day must be a real day, as the API keys them. A window text outside the formats of ECMA-262, such as `2026-02-30`, which some engines roll over to March, is treated as an invalid date.
- DaySeries.FillIsFaithful: needs distinct days, because the map built from the series keeps only the last point of a repeated day, and ends without a signed six-digit year, which `fillDays` reads but which compare as text before every day.
- SessionPlacement.WindowLosesNothing: the drawn days must be those of a view that ends (within the years 0000 to 9999, the last before 9999-12-31), and a zone's offset must be under 24 hours.
- SessionPlacement.DayListIsSortedDay: needs distinct session ids, because the remembered minute is kept by id.
- FeeSplit.ComputeFees: needs every sum of the order to be a safe integer, beyond which amounts are no longer whole units.
- FeeEditor.SessionTiles: an end must be one from which the printer keeps the next start; `FeeEditor.OfferedStartExactly` shows that this is needed.
- CalendarViews.PressesTile: follows presses while each lands on a day; beyond the four-digit years the anchor is a cut string that the page does not accept as a day.
- Checkout.AtMostOneBooking: holds for one account and no released key; `Checkout.TwoBookingsOtherwise` shows that both are needed.
- ImageMove.NothingIsEverDropped: nothing else edits or removes an image row between its snapshot and its update.
- Schedule.EveryEntryIsSound: the hour is counted from the clock reading that decided, not from the moment the tables are emptied, which a slow dump can put after the expiry.
- Schedule.Dispatcher.Run: of an operation other than `backup` and `full-reset`, and of the seed after a reset, only success or failure is modelled, not what it does.

What the models take as given:

- The exponent range of binary floating point is unbounded, so there is no underflow and no Infinity; amounts that large are refused as unsafe either way.
- `10 ** e` is taken as exact, which it is up to 22 decimals. `String(bps / 100)` is the shortest decimal, as section 6.1.6.1.20 of ECMA-262 prescribes.
- A currency's decimals and a zone's offset come from Intl and are parameters; Intl's formatting of years before 1000 is not modelled.
- `localeCompare` is a parameter that ranks strings; on texts that begin with a day it is taken to compare the days first, in string order.
- Lower and upper case are modelled for ASCII letters.
- The timestamp pattern and `Date.parse` are one parameter that gives the moment a text names, if any.
- `Date` reads a month, a year, and either with a sign and six digits for the year, as its first day (section 21.4.1 of ECMA-262).
- Two dumps never get the same name, a dump takes at least a millisecond, and no file is from the future; a file that cannot be examined while listing is not modelled.
- The upload store honours If-None-Match and the SHA-256 digest, and only it answers 412.

What is not modelled at all:

- Rendering, forms and navigation in React, React Native and Next, including the dialog's code, recovery and setup text and the open sidebar group.
- `sortRows`, problem wording, and `draftToTerms` beyond its percentage range: display or single-branch members.
- `restoreDrill`, `offsiteConfig`, `scrub`, `--dry-run` and the health check before the image move: process calls and settings with no property over runs.
- The evidence line, the evidence rows of `backup` and `restore-drill`, the census and the other seed operations' effects.
- Prisma, SQL, `pg_dump`, S3 and HTTP themselves: they appear only as choices the world makes.
- Booking prices, seat holds and payment confirmation on the server: the booking server is modelled only as far as its replay of request keys.
