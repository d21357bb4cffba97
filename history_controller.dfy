/**
 * The REST controller for the status ledger in
 * `src/controllers/bookingStatusHistoryController.ts`. It only ever appends:
 * no handler changes or removes a history row.
 */
module HistoryController {
  import opened Fields
  import opened HistoryModel
  import opened Database
  import opened Responses

  /** `POST`: append the request body as a history row; its validation errors answer 400. */
  method AddBookingStatusHistory(db: Db, body: HistoryInput, now: int) returns (resp: Response)
    requires db.Valid()
    modifies db
    ensures db.Valid()
    ensures db.bookings == old(db.bookings) && db.credits == old(db.credits)
    ensures old(db.histories) <= db.histories
    ensures var built := HistoryModel.Build(body, old(db.nextHistoryId), now);
      && (built.Success? ==> resp == Response(201, HistoryBody(built.value)) && db.histories == old(db.histories) + [built.value])
      && (built.Failure? ==> resp == Response(400, Invalid(built.error)) && db.histories == old(db.histories))
      && db.nextHistoryId == old(db.nextHistoryId) + (if built.Success? then 1 else 0)
    ensures db.nextBookingId == old(db.nextBookingId) && db.nextCreditId == old(db.nextCreditId)
  {
    var r := db.CreateHistory(body, now);
    if r.Success? {
      resp := Response(201, HistoryBody(r.value));
    } else {
      resp := Response(400, Invalid(r.error));
    }
  }

  /** `GET`: every history row, in table order. */
  method GetAllBookingStatusHistories(db: Db) returns (resp: Response)
    ensures resp == Response(200, HistoryList(db.histories))
  {
    resp := Response(200, HistoryList(db.histories));
  }

  /**
   * `GET /:bookingId`: the rows of that booking, in table order. The result
   * of `findAll` is an array, which is always truthy, so the 404 branch of
   * the handler is never taken, not even for an unknown booking.
   */
  method GetHistoryByBookingId(db: Db, bookingId: nat) returns (resp: Response)
    ensures resp.status == 200 && resp.body.HistoryList?
    ensures forall e :: e in resp.body.rows ==> e.bookingId == bookingId
    ensures forall e :: multiset(resp.body.rows)[e] == if e.bookingId == bookingId then multiset(db.histories)[e] else 0
  {
    var history := HistoryOf(db.histories, bookingId);
    resp := Response(200, HistoryList(history));
  }
}
