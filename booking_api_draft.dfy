/**
 * The single-file draft `ex2.ts`: the same routes as `src/ex2.ts`, with its
 * own statistics queries. Where a handler is the same as the later version
 * (`GET /bookings/:bookingId/history`), `BookingApi` models both.
 */
module BookingApiDraft {
  import opened Wrappers
  import opened Fields
  import opened BookingModel
  import opened CreditModel
  import opened Database
  import opened Statistics
  import opened StatisticsDraft
  import opened Responses
  import opened BookingApi

  /**
   * `POST /bookings` in the draft: the history row is built from `status`,
   * a name this file never declares, so once a credit is found the handler
   * throws right after `Booking.create` and answers 500, whether or not the
   * insert succeeded.
   */
  method CreateBookingWithCredit(db: Db, time: Field<DateValue>, patientId: Field<string>, provider: Field<string>, now: int)
    returns (resp: Response)
    requires db.Valid()
    modifies db
    ensures db.Valid()
    ensures FindEligibleCredit(old(db.credits), now).None? ==>
      resp == Response(404, Error(NoCreditMessage)) && unchanged(db)
    ensures FindEligibleCredit(old(db.credits), now).Some? ==>
      var built := BookingModel.Build(SeedBooking(time, patientId, provider), old(db.nextBookingId), now, db.loadedAt);
      && resp == Response(500, Error(CreateFailedMessage))
      && db.credits == old(db.credits) && db.histories == old(db.histories)
      && db.bookings == old(db.bookings) + (if built.Success? then [built.value] else [])
      && db.nextBookingId == old(db.nextBookingId) + (if built.Success? then 1 else 0)
      && db.nextCreditId == old(db.nextCreditId) && db.nextHistoryId == old(db.nextHistoryId)
  {
    var credit := FindEligibleCredit(db.credits, now);
    if credit.None? {
      return Response(404, Error(NoCreditMessage));
    }
    var booking := db.CreateBooking(SeedBooking(time, patientId, provider), now);
    resp := Response(500, Error(CreateFailedMessage));
  }

  /**
   * `GET /bookings?userId=` in the draft, with the `COUNT(DISTINCT ...)`
   * statistics; over this table they equal the later per-status counts.
   */
  method GetBookingsForUser(db: Db, userId: Option<string>) returns (resp: Response)
    requires db.Valid()
    ensures Missing(userId) ==> resp == Response(400, Error(MissingUserMessage))
    ensures !Missing(userId) && BookingsForUser(db.bookings, userId.value) == [] ==>
      resp == Response(500, Error(RetrieveFailedMessage))
    ensures !Missing(userId) && BookingsForUser(db.bookings, userId.value) != [] ==>
      var found := BookingsForUser(db.bookings, userId.value);
      && resp.status == 200 && resp.body.BookingsAndStats? && resp.body.bookings == found
      && (found[0].provider == userId.value ==> resp.body.stats == BookingStatusChangeStats(db.bookings, userId.value))
      && (found[0].provider != userId.value ==> resp.body.stats == [])
  {
    if Missing(userId) {
      return Response(400, Error(MissingUserMessage));
    }
    var u := userId.value;
    var bookings := BookingsForUser(db.bookings, u);
    if bookings == [] {
      return Response(500, Error(RetrieveFailedMessage));
    }
    var stats: seq<nat> := [];
    if bookings[0].provider == u {
      stats := Stats(db.bookings, u);
      StatsAgree(db.bookings, u);
    }
    resp := Response(200, BookingsAndStats(bookings, stats));
  }

  /**
   * `GET /credits/:patientId` in the draft: the monthly rows are those of the
   * later version; only the percentage differs, and only when the sum of the
   * unused credits is 0 or NULL.
   */
  method GetCreditsForPatient(db: Db, patientId: string) returns (resp: Response)
    ensures resp.status == 200 && resp.body.CreditsAndStats?
    ensures resp.body.credits == CreditsOfPatient(db.credits, patientId)
    ensures resp.body.usage == CreditsUsedStats(db.bookings, db.credits, patientId)
    ensures |resp.body.usage| == |MonthlyCreditUsageStats(db.bookings, db.credits, patientId)|
    ensures AvailableCredits(db.credits).Some? && AvailableCredits(db.credits).value != 0 ==>
      resp.body.usage == MonthlyCreditUsageStats(db.bookings, db.credits, patientId)
  {
    var credits := CreditsOfPatient(db.credits, patientId);
    var stats := CreditsUsedStats(db.bookings, db.credits, patientId);
    UsageVersionsCompared(db.bookings, db.credits, patientId);
    resp := Response(200, CreditsAndStats(credits, stats));
  }
}
