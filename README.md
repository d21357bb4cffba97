# Booking, credit and status-history backend — Dafny model

The system is an Express/Sequelize service over a MySQL database with three
tables:

- **bookings**: a time, an optional patient (none for an anonymous booking),
  a provider, a status defaulting to `"pending"`, and a link to a credit;
- **credits**: a `type` string, an expiry date, and an optional booking that
  has used it. Where a sum needs a number, the model reads `type` as one: it
  skips leading spaces, takes an optional sign and then the leading digits;
  a string with no digits reads as 0. MySQL's own cast reads more than this
  (see the `CreditModel.Value` line under "## Left out").
- **booking status history**: an append-only ledger of `(status, timestamp,
  booking)` rows.

The model keeps the three tables as sequences in one `Database.Db` object,
each with its auto-increment counter. The constant `loadedAt` is the instant
the schema modules were loaded; the `isAfter` validators compare against it.
The store may hold rows that earlier processes wrote, so a stored booking's
`time` is not required to be after `loadedAt`; only inserts and updates
that give a `time` check it.
Every handler is a method over that object. Time is an integer of
milliseconds passed in as `now`. A response is an HTTP status plus a body
shape.

Modules:

- `Fields`: attribute presence (absent, explicit null, a value) and the
  Sequelize validation errors.
- `BookingModel`, `CreditModel`, `HistoryModel`: the three schemas. Each is a
  row datatype and a `Build` that collects the validation errors of an
  insert, or produces the row with defaults applied. `BookingModel` also
  validates and applies an update patch.
- `Calendar`: the UTC year and month of an instant.
- `Database`: the query functions over the tables, and the `Db` class with
  the inserting and updating methods. Ids are strictly increasing, so table
  order is primary-key order. "The first row" of an unordered query is the
  first in that order. The same choice orders the groups of the monthly
  usage query: MySQL leaves the order of `GROUP BY` rows unspecified, and the
  model lists them in the order of each month's first contributing booking.
- `Statistics`: both functions of `src/utils/statistics.ts`.
  - Per-provider status counts.
  - Monthly credit usage with percentages. The grouped SQL query is a
    function over the tables, with its group keys, its totals and the
    conservation of those totals proved.
- `StatisticsDraft`: the older `getStats` and `getCreditsUsedStats` of
  `ex2.ts`, each proved equal to the later version or compared with it.
- `Responses`: status and body shapes.
- `BookingController`, `HistoryController`: the two REST controllers.
- `BookingApi`: the handlers of `src/ex2.ts`, plus corrected versions of the
  two that are wrong.
- `BookingApiDraft`: the handlers of the draft `ex2.ts` that differ from
  `src/ex2.ts`.

The draft's `GET /bookings/:bookingId/history` (`ex2.ts:399-416`) is the same
handler as `src/ex2.ts:108-125`; `BookingApi.GetHistory` models both.

The draft's schemas (`ex2.ts:57-205`) are the same as those in
`src/models/*`; the model's schema modules serve both.

`src/ex2.ts` calls `getBookingStatusChangeStats` and
`getMonthlyCreditUsageStats` without importing them. They are taken to be
the functions in `src/utils/statistics.ts`.

## Model

| member | source | states |
|---|---|---|
| Fields.Nullable | src/models/Booking.ts:43-46 | a nullable attribute is stored as a value exactly when one was given |
| Fields.RequiredDateErrors | src/models/Booking.ts:35-42 | a required date passes exactly when it is present, is a date, and is after the bound when there is one |
| Fields.UpdatedDateErrors | src/models/Booking.ts:35-42 | on update an omitted date passes; a given one must be a date after the bound |
| BookingModel.Build | src/models/Booking.ts:28-61 | an insert succeeds iff `time` is a date after load time, `provider` is given and `status` is not null; failure lists at least one error; a success copies the given fields, defaults status to "pending", takes the given id and stamps both timestamps with `now`; a given `creditId` is copied as the row's credit |
| BookingModel.PatchErrors | src/models/Booking.ts:35-55 | a patch is valid iff `time`, `provider` and `status` are not set to null and a given `time` is a date after load time |
| BookingModel.ApplyPatch | src/controllers/bookingController.ts:43 | a patch keeps id and createdAt, sets updatedAt to `now`; the time is after load time when the row's was or the patch gives one; each given field takes the given value, a nullable field set to null becomes none, and each omitted field is kept |
| CreditModel.Build | src/models/Credit.ts:29-61 | an insert succeeds iff `type` is given and `expirationDate` is a date after load time; the row carries the given id, `type`, expiry, booking and patient (none when not given) and `now` as both timestamps |
| CreditModel.LeadingDigits | src/utils/statistics.ts:26-28 | the longest prefix of decimal digits: every character of it is a digit, and the character after it, if any, is not |
| CreditModel.SkipSpaces | src/utils/statistics.ts:26-28 | exactly the leading spaces are dropped: what is skipped is all spaces, and what is left does not start with one |
| CreditModel.SignedValue | src/utils/statistics.ts:26-28 | the reading after the spaces: 0 when no digit follows, and negative only behind a leading minus sign |
| CreditModel.Value | src/utils/statistics.ts:26-28 | the number a sum reads from `type`: 0 when it holds no digit, and negative only when it holds a minus sign |
| CreditModel.NumeralDigitsValue | src/utils/statistics.ts:26-28 | the decimal digits of a number read back as that number |
| CreditModel.ValueOfNumeral | src/utils/statistics.ts:26-28 | a decimal numeral reads as its number, behind a minus sign as its negation, and behind a space unchanged |
| CreditModel.Eligible | src/ex2.ts:37-44 | a credit can be allocated iff it expires strictly after `now` and names no booking |
| HistoryModel.Build | src/models/BookingStatusHistory.ts:32-59 | an insert succeeds iff status, a date timestamp and bookingId are all given; a missing timestamp is a not-null error; there is no default |
| Calendar.YearMonthOf | src/utils/statistics.ts:32-33 | `MONTH(time)` lies in 1..12 |
| Calendar.LeapYearFebruary | src/utils/statistics.ts:32-33 | 2024-02-29T23:59:59.999Z is in February 2024 and the next instant in March |
| Calendar.CommonYearFebruary | src/utils/statistics.ts:32-33 | 2023-02-28T23:59:59.999Z is in February 2023 and the next instant in March |
| Calendar.CenturyYearFebruary | src/utils/statistics.ts:32-33 | 1900-02-28T23:59:59.999Z is in February 1900 and the next instant in March |
| Calendar.EpochMonths | src/utils/statistics.ts:32-33 | the instant before the epoch is in December 1969 and the epoch in January 1970 |
| Calendar.YearEnd | src/utils/statistics.ts:32-33 | the last instant of 2023 is in December 2023 and the next in January 2024 |
| Database.FindBooking | src/controllers/bookingController.ts:28 | `findByPk` returns a row with that id from the table, and none iff no row has it |
| Database.FindEligibleCredit | src/ex2.ts:37-45 | `findOne` returns a credit expiring strictly after `now` with no booking, the first such in table order, and none iff none is eligible |
| Database.UpdateRows | src/controllers/bookingController.ts:43 | the update patches exactly the rows with that id; the others and all ids are unchanged |
| Database.RemoveRows | src/controllers/bookingController.ts:60 | the delete keeps exactly the rows with another id |
| Database.RemoveRowsKeepsOrder | src/controllers/bookingController.ts:60 | deleting keeps the ids increasing |
| Database.RemoveRowsCount | src/controllers/bookingController.ts:60-62 | the delete removes one row iff `findByPk` finds one, otherwise none |
| Database.RemoveMissingRow | src/controllers/bookingController.ts:60-65 | deleting an unknown id changes nothing |
| Database.UpdateMissingRow | src/controllers/bookingController.ts:43-49 | updating an unknown id changes nothing |
| Database.FindAfterUpdate | src/controllers/bookingController.ts:43-47 | re-reading after an update finds the patched row, and nothing when there was no row |
| Database.LinkCredit | src/ex2.ts:63 | `setCredit` sets creditId and updatedAt on that booking only |
| Database.LinkNewest | src/ex2.ts:54-63 | linking the booking just inserted changes only the last row |
| Database.ClaimCredit | src/ex2.ts:24-25 | the credit side of the association names the booking, on that credit only, which is then no longer eligible |
| Database.HistoryOf | src/controllers/bookingStatusHistoryController.ts:30-33 | exactly the booking's rows, with their multiplicities |
| Database.InsertByTimestamp | src/ex2.ts:113-116 | inserting into a timestamp-sorted list keeps it sorted and adds exactly that row |
| Database.SortByTimestamp | src/ex2.ts:113-116 | the rows ordered by ascending timestamp: sorted, and a permutation |
| Database.Db.constructor | src/models/Booking.ts:30-34 | the store as found at load time: the given tables and counters, with bookings not required to pass the load-time `isAfter` rule |
| Database.Db.CreateBooking | src/controllers/bookingController.ts:7 | a valid insert appends the built row and advances the counter; a rejected one changes nothing |
| Database.Db.CreateHistory | src/controllers/bookingStatusHistoryController.ts:7 | a history insert appends the built row, or changes nothing |
| Database.Db.UpdateBooking | src/controllers/bookingController.ts:43 | an invalid patch is an error with no write; otherwise the affected count is 1 iff the row exists, and the table is patched |
| Database.Db.DestroyBooking | src/controllers/bookingController.ts:60 | the delete removes the rows with that id; the count is 1 iff one existed |
| Database.Db.SetCredit | src/ex2.ts:63 | only the booking's creditId is written; the credits table is untouched |
| Database.Db.BindCredit | src/ex2.ts:24-25 | both sides of the association are written |
| Statistics.CountWithStatus | src/utils/statistics.ts:85-98 | `Booking.count` for a provider and status is at most the provider's bookings |
| Statistics.CountWithStatusZero | src/utils/statistics.ts:85-98 | the count is 0 exactly when no booking of the provider has that status |
| Statistics.CountWithStatusAppend | src/utils/statistics.ts:85-98 | a status count over two tables is the sum of the counts |
| Statistics.StatusCountsBounded | src/utils/statistics.ts:85-98 | canceled plus rescheduled is at most the provider's booking count |
| Statistics.BookingStatusChangeStats | src/utils/statistics.ts:80-100 | `[canceled, rescheduled]`, each and their sum at most the provider's bookings |
| Statistics.StatsIgnoreOtherBookings | src/utils/statistics.ts:85-98 | a booking of another provider or another status does not change the counts |
| Statistics.UsageKeys | src/utils/statistics.ts:48-51 | the (year, month) groups are distinct and are exactly the months holding a contributing booking |
| Statistics.RowsFor | src/utils/statistics.ts:21-53 | one row per group key, in key order, with that group's total |
| Statistics.JoinedValueNonNegative | src/utils/statistics.ts:24-29 | a booking's joined value is non-negative when every credit reads non-negative |
| Statistics.GroupTotalNonNegative | src/utils/statistics.ts:21-53 | a group's total is non-negative when every credit reads non-negative |
| Statistics.GroupTotalWithoutGroup | src/utils/statistics.ts:21-53 | a (year, month) without a contributing booking totals 0 |
| Statistics.RawMonthlyUsage | src/utils/statistics.ts:21-53 | distinct (year, month) rows with non-null totals and months 1..12; each row has a contributing booking and holds its month's group total; every contributing booking's month has a row |
| Statistics.UsageTotalsNonNegative | src/utils/statistics.ts:21-53 | the monthly totals are non-negative when every credit reads non-negative |
| Statistics.RowsForKeys | src/utils/statistics.ts:48-51 | each row carries its group's year and month |
| Statistics.SumGroupsGrow | src/utils/statistics.ts:21-53 | adding a booking raises the group sums by its value when its month is a key |
| Statistics.SumTotalsOfRows | src/utils/statistics.ts:21-53 | the rows' totals add up to the group sums |
| Statistics.KeysConserved | src/utils/statistics.ts:21-53 | the group sums equal the patient's whole joined credit value |
| Statistics.UsageTotalsConserved | src/utils/statistics.ts:21-53 | every contributing credit value lands in exactly one monthly row |
| Statistics.NonContributingIgnored | src/utils/statistics.ts:44-47 | another patient's booking, an unconfirmed booking or one with no joined credit leaves the report unchanged |
| Statistics.RowsForSameTotals | src/utils/statistics.ts:21-53 | tables with the same group totals give the same rows |
| Statistics.UnclaimedCreditsJoinNothing | src/utils/statistics.ts:35-43 | the join needs the credit to name the booking |
| Statistics.NoUsageWithoutClaims | src/utils/statistics.ts:35-43 | while no credit names a booking, the usage report is empty |
| Statistics.JoinedAtLeast | src/utils/statistics.ts:35-43 | a credit joined to a booking makes the booking join something, and adds at least its own value |
| Statistics.GroupAtLeast | src/utils/statistics.ts:21-53 | a contributing booking's joined value is part of its month's total |
| Statistics.BoundBookingCounted | src/utils/statistics.ts:21-53 | in any tables, a confirmed booking of the patient bound to a credit from both sides has a row for its month holding at least that credit's value, when credits read non-negative |
| Statistics.AvailableCredits | src/utils/statistics.ts:14-18 | `Credit.sum` over every unused credit, of all patients, is null iff no credit is unused, and non-negative when every credit reads non-negative |
| Statistics.AvailableSumConcat | src/utils/statistics.ts:14-18 | the sum over two tables side by side is the sum of their sums, null read as 0 |
| Statistics.AvailableCreditsAppend | src/utils/statistics.ts:14-18 | appending a bound credit leaves the sum as it was; appending an unused one makes it non-null and adds that credit's value |
| Statistics.AvailableAfterClaim | src/utils/statistics.ts:14-18 | claiming an unused credit whose id is unique lowers the sum by exactly that credit's value |
| Statistics.ParseUsageRows | src/utils/statistics.ts:56-62 | one parsed row per raw row; a null total reads as 0; month and year are copied |
| Statistics.WithPercentage | src/utils/statistics.ts:65-70 | the percentage map keeps row count, order, total, month and year |
| Statistics.Percentage | src/utils/statistics.ts:67-69 | 0 for zero use, and when the sum is 0 or null; for any other sum, negative included, percentage times sum equals 100 times use; non-negative for non-negative use and sum; negative for positive use over a negative sum |
| Statistics.UsagePercentages | src/utils/statistics.ts:65-70 | rows given `Percentage` of their own totals: non-negative for non-negative totals and sum, 0 for an unused month, all 0 when the sum is 0 or null |
| Statistics.StatsOfRows | src/utils/statistics.ts:55-70 | the parse and percentage maps keep each row's month and year; each row's total is its raw total with null read as 0, and its percentage is `Percentage` of that total over the available sum; 0 for an unused month, all 0 when the sum is 0 or null; non-negative percentages for non-negative totals and sum |
| Statistics.MonthlyCreditUsageStats | src/utils/statistics.ts:11-72 | one stat per monthly row, months 1..12; each row's total is its month's group total and its percentage is `Percentage` of that total over the unused-credit sum; 0 when unused, all 0 when the available sum is 0 or null; non-negative percentages when every credit reads non-negative |
| StatisticsDraft.DistinctIds | ex2.ts:219-244 | the distinct ids counted come from the table's rows |
| StatisticsDraft.Stats | ex2.ts:216-253 | `getStats` gives two counts |
| StatisticsDraft.IdsAfterFirst | ex2.ts:219-244 | in id order every later row has a larger id |
| StatisticsDraft.DistinctIdsCount | ex2.ts:219-244 | the distinct-id count equals the plain count for a counted status |
| StatisticsDraft.StatsAgree | ex2.ts:216-253 | the draft statistics equal the later per-status counts |
| StatisticsDraft.PercentageDraft | ex2.ts:312-317 | 0 for zero use; use times 100 when the sum is 0 or null; for any other sum the later percentage; non-negative for non-negative use and sum |
| StatisticsDraft.CreditsUsedStats | ex2.ts:264-324 | one stat per monthly row, 0 when unused, non-negative when every credit reads non-negative |
| StatisticsDraft.UsageRowsPaired | ex2.ts:264-324 | both reports are the parsed monthly rows in order, each row with its own percentage: `PercentageDraft` in the draft, `Percentage` in the later one |
| StatisticsDraft.UsageVersionsCompared | ex2.ts:312-317 | draft and later reports have the same rows; they are equal when the available sum is neither 0 nor null, otherwise the later one says 0 where the draft says use times 100 |
| BookingApi.SeedBooking | src/ex2.ts:33 | the booking insert receives the requested time, patient and provider unchanged, and no status and no credit |
| BookingApi.AllocateBooking | src/ex2.ts:32-75 | 404 and no write without an eligible credit; then insert booking, insert history, link, 201; a failing insert answers 500 and keeps the earlier writes |
| BookingApi.BookWithCredit | src/ex2.ts:53-74 | an invalid booking answers 500 with no write; otherwise the booking stays whatever follows |
| BookingApi.SeedAndLink | src/ex2.ts:56-68 | a rejected history row answers 500 with no further write; otherwise the booking is linked and returned with 201 |
| BookingApi.CreateBookingWithCredit | src/ex2.ts:32-75 | never 201; 404 iff no eligible credit; credits and history never change; a valid booking stays behind with no credit; only the booking counter can advance, by the one row written |
| BookingApi.CreateBookingWithCreditFixed | src/ex2.ts:32-75 | 201 iff a credit is eligible and the booking valid; then one new "pending" booking built from the requested time, patient and provider, with its credit, one history row at `now`, and the credit no longer eligible, with the booking and history counters one higher; otherwise nothing written |
| BookingApi.BookingsForUser | src/ex2.ts:89-93 | every returned booking is a row of the table whose patient or provider is the user, and every such row is returned |
| BookingApi.BookingsForUserCounts | src/ex2.ts:89-93 | each of the user's bookings is returned as many times as the table holds it, and no other row |
| BookingApi.BookingsForUserFirst | src/ex2.ts:89-96 | the first booking returned, the one `bookings?.[0]` reads, is the table's first row matching the user |
| BookingApi.GetBookingsForUser | src/ex2.ts:78-106 | 400 for a missing user id; 500 when nothing matches; otherwise the matches, with provider statistics iff the first match names the user as provider |
| BookingApi.GetBookingsForUserFixed | src/ex2.ts:78-106 | as above, but no match answers 200 with empty bookings and statistics |
| BookingApi.GetHistory | src/ex2.ts:108-125 | 200 with exactly the booking's history rows, ascending by timestamp |
| BookingApi.CreditsOfPatient | src/ex2.ts:132-136 | every returned credit is a row of the table naming the patient, and every such row is returned |
| BookingApi.CreditsOfPatientCounts | src/ex2.ts:132-136 | each of the patient's credits is returned as many times as the table holds it, and no other row |
| BookingApi.GetCreditsForPatient | src/ex2.ts:127-148 | 200 with the patient's credits and the monthly usage report, percentages non-negative when every credit reads non-negative |
| BookingApiDraft.CreateBookingWithCredit | ex2.ts:327-367 | 404 and no write without a credit; otherwise always 500, with the booking insert kept, credits and history unchanged, and only the booking counter advanced by that insert |
| BookingApiDraft.GetBookingsForUser | ex2.ts:370-397 | the same outcomes as the later handler, with the draft statistics equal to the later ones |
| BookingApiDraft.GetCreditsForPatient | ex2.ts:418-439 | 200 with the patient's credits and the draft report, which equals the later one when the available sum is neither 0 nor null |
| BookingController.CreateBooking | src/controllers/bookingController.ts:5-12 | 201 with the inserted row, or 400 with the validation errors and no write; only the booking counter moves, by one on an insert |
| BookingController.GetAllBookings | src/controllers/bookingController.ts:15-22 | 200 with every row |
| BookingController.GetBookingById | src/controllers/bookingController.ts:25-37 | 200 iff a row has that id, with that row; else 404 "Booking not found" |
| BookingController.UpdateBooking | src/controllers/bookingController.ts:40-54 | an invalid patch answers 500 with no write; a known id gives 200 with the patched row; an unknown id gives 404 with no write; no history row is written and no counter moves |
| BookingController.DeleteBooking | src/controllers/bookingController.ts:57-70 | no row keeps the id; 204 with one row fewer iff it existed; else 404 with no write; no counter moves |
| HistoryController.AddBookingStatusHistory | src/controllers/bookingStatusHistoryController.ts:5-12 | 201 with the appended row, or 400 with the errors and no write; the ledger only grows; only the history counter moves, by one on an insert |
| HistoryController.GetAllBookingStatusHistories | src/controllers/bookingStatusHistoryController.ts:15-25 | 200 with every row |
| HistoryController.GetHistoryByBookingId | src/controllers/bookingStatusHistoryController.ts:28-42 | always 200, with exactly that booking's rows; the 404 branch is never taken |

## Left out

- HTTP plumbing: routing, body parsing, the middleware, `app.listen`, JSON
  serialisation. Responses are a status and a body shape. An error body
  carries the validation errors rather than the message text.
- Storage failures: the connection or the database failing, and each
  handler's generic 500 answer to them. The statistics functions log and
  rethrow such errors; that is not modelled either. Only validation errors
  and the failures the handlers cause themselves are modelled.
- Client-supplied ids: a `POST` or `PUT` body that sets `id` is not
  modelled. Ids always come from the counters.
- Database.Db.UpdateBooking: the affected count is the number of rows with
  that id. MySQL's changed-rows reporting (0 for an update that writes the
  same values) is not modelled, and neither is Sequelize returning early on
  an empty patch.
- BookingController.UpdateBooking: for the same reason, an empty patch on an
  existing id answers 200 in the model. When Sequelize returns `[0]` for it,
  the source answers 404.
- Foreign-key constraints and `sync`: the database is not modelled
  rejecting a link to a missing row. No `ON DELETE` action is modelled
  either: deleting a booking leaves its history rows and any credit that
  names it as they were. Tables created by Sequelize's `sync` from the
  `hasMany` associations would carry such an action.
- Concurrency: handlers run one at a time. The allocation race and
  transactions are not modelled; the source has no transaction.
- Floating point: percentages are exact reals, and nothing is claimed about
  rounding.
- Operators: `sequelize.Op` in `src/ex2.ts` and `ex2.ts` is taken to be
  Sequelize's operator table. If the instance has no `Op`, every query that
  uses it throws and its handler answers 500 before reading any table; that
  is not modelled.
- SQL text: the double-quoted identifiers inside the literal SQL fragments
  are taken to name the columns they spell.
- Time zones: `YEAR`/`MONTH` are taken in UTC.
- Logging: all console output.
- `src/controllers/creditController.ts` is not part of this model. It
  filters credits by patient and calls the monthly statistics, which
  `BookingApi.GetCreditsForPatient` already models.
- Query keys: a `userId` given as an array or object is not modelled; it is
  a string or missing.
- String comparison: the `patientId`, `provider` and `status` filters of the
  queries are modelled as exact string equality. MySQL's default collation
  ignores letter case and trailing spaces; that is not modelled.
- CreditModel.Value: only leading spaces, an optional sign and the digits
  after it are read. A decimal point or exponent in `type`, and leading
  whitespace other than spaces, are not modelled, so the model has no
  fractional sums. Neither is the `parseInt` of a fractional sum dropping
  its fraction.
- Statistics.MonthlyCreditUsageStats: its percentages are stated
  non-negative only when every credit's `type` reads non-negative. A
  negative `type` gives negative totals and negative percentages.
- StatisticsDraft.CreditsUsedStats: likewise non-negative only when every
  credit's `type` reads non-negative.
- BookingApi.GetCreditsForPatient: likewise non-negative only when every
  credit's `type` reads non-negative.

## Findings

| source | as written | input that shows it | evidently intended | confidence | as-written member | corrected member |
|---|---|---|---|---|---|---|
| src/ex2.ts:57-60 | the first history row is created without `timestamp`, which the schema requires with no default, so `POST /bookings` never answers 201 and leaves the inserted booking behind | a valid body while some credit is eligible | record the initial status at the creation instant and answer 201 | high (not executed) | BookingApi.CreateBookingWithCredit | BookingApi.CreateBookingWithCreditFixed |
| src/ex2.ts:63 | `booking.setCredit(credit)` writes only the booking's `creditId`; the credit keeps `bookingId` null, so it stays eligible for the next booking and the usage join never matches | two bookings in a row with one eligible credit; a confirmed booking linked this way | bind the credit to the booking from both sides | high (not executed) | Database.Db.SetCredit | Database.Db.BindCredit |
| ex2.ts:352 | the history row is built from `status`, which is never declared, so the draft handler throws after the booking insert and always answers 500 | a valid body while some credit is eligible | use the new booking's status | high (not executed) | BookingApiDraft.CreateBookingWithCredit | BookingApi.CreateBookingWithCreditFixed |
| src/ex2.ts:96 | `bookings?.[0].provider` dereferences the first row of an empty result, so a user with no bookings gets 500 | a `userId` that matches no booking | answer 200 with no bookings and no statistics | high (not executed) | BookingApi.GetBookingsForUser | BookingApi.GetBookingsForUserFixed |

- For the second row, `Statistics.NoUsageWithoutClaims` exhibits the effect:
  with only booking-side links, the usage report is empty.
- `Statistics.BoundBookingCounted` is its counterpart: in any tables, a
  confirmed booking bound to its credit from both sides is counted for its
  month.
