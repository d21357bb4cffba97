/** The REST controller for bookings in `src/controllers/bookingController.ts`. */
module BookingController {
  import opened Wrappers
  import opened Fields
  import opened BookingModel
  import opened Database
  import opened Responses

  const NotFoundMessage := "Booking not found"

  /** `POST`: insert the request body as a booking; its validation errors answer 400. */
  method CreateBooking(db: Db, body: BookingInput, now: int) returns (resp: Response)
    requires db.Valid()
    modifies db
    ensures db.Valid()
    ensures db.credits == old(db.credits) && db.histories == old(db.histories)
    ensures var built := BookingModel.Build(body, old(db.nextBookingId), now, db.loadedAt);
      && (built.Success? ==> resp == Response(201, BookingBody(built.value)) && db.bookings == old(db.bookings) + [built.value])
      && (built.Failure? ==> resp == Response(400, Invalid(built.error)) && db.bookings == old(db.bookings))
      && db.nextBookingId == old(db.nextBookingId) + (if built.Success? then 1 else 0)
    ensures db.nextCreditId == old(db.nextCreditId) && db.nextHistoryId == old(db.nextHistoryId)
  {
    var r := db.CreateBooking(body, now);
    if r.Success? {
      resp := Response(201, BookingBody(r.value));
    } else {
      resp := Response(400, Invalid(r.error));
    }
  }

  /** `GET`: every booking, in table order. */
  method GetAllBookings(db: Db) returns (resp: Response)
    ensures resp == Response(200, BookingList(db.bookings))
  {
    resp := Response(200, BookingList(db.bookings));
  }

  /** `GET /:id`: the row with that id, or 404. */
  method GetBookingById(db: Db, id: nat) returns (resp: Response)
    ensures resp.status == 200 || resp.status == 404
    ensures resp.status == 200 <==> exists b :: b in db.bookings && b.id == id
    ensures resp.status == 200 ==> resp.body.BookingBody? && resp.body.booking in db.bookings && resp.body.booking.id == id
    ensures resp.status == 404 ==> resp.body == Message(NotFoundMessage)
  {
    var booking := FindBooking(db.bookings, id);
    if booking.Some? {
      resp := Response(200, BookingBody(booking.value));
    } else {
      resp := Response(404, Message(NotFoundMessage));
    }
  }

  /**
   * `PUT /:id`: a patch that fails validation answers 500 and writes nothing;
   * otherwise the row is patched and re-read (200), or there was no such row
   * (404). No status-history row is written for a status change.
   */
  method UpdateBooking(db: Db, id: nat, patch: BookingPatch, now: int) returns (resp: Response)
    requires db.Valid()
    modifies db
    ensures db.Valid()
    ensures db.credits == old(db.credits) && db.histories == old(db.histories)
    ensures db.nextBookingId == old(db.nextBookingId) && db.nextCreditId == old(db.nextCreditId)
      && db.nextHistoryId == old(db.nextHistoryId)
    ensures PatchErrors(patch, db.loadedAt) != [] ==>
      resp == Response(500, Invalid(PatchErrors(patch, db.loadedAt))) && db.bookings == old(db.bookings)
    ensures PatchErrors(patch, db.loadedAt) == [] ==>
      var found := FindBooking(old(db.bookings), id);
      && db.bookings == UpdateRows(old(db.bookings), id, patch, now, db.loadedAt)
      && (found.Some? ==> resp == Response(200, BookingBody(ApplyPatch(found.value, patch, now, db.loadedAt))))
      && (found.None? ==> resp == Response(404, Message(NotFoundMessage)) && db.bookings == old(db.bookings))
  {
    var r := db.UpdateBooking(id, patch, now);
    if r.Failure? {
      return Response(500, Invalid(r.error));
    }
    if r.value != 0 {
      FindAfterUpdate(old(db.bookings), id, patch, now, db.loadedAt);
      var updated := FindBooking(db.bookings, id);
      resp := Response(200, BookingBody(updated.value));
    } else {
      UpdateMissingRow(old(db.bookings), id, patch, now, db.loadedAt);
      resp := Response(404, Message(NotFoundMessage));
    }
  }

  /** `DELETE /:id`: 204 when a row was removed, 404 (nothing removed) otherwise. */
  method DeleteBooking(db: Db, id: nat) returns (resp: Response)
    requires db.Valid()
    modifies db
    ensures db.Valid()
    ensures db.credits == old(db.credits) && db.histories == old(db.histories)
    ensures db.nextBookingId == old(db.nextBookingId) && db.nextCreditId == old(db.nextCreditId)
      && db.nextHistoryId == old(db.nextHistoryId)
    ensures db.bookings == RemoveRows(old(db.bookings), id)
    ensures forall b :: b in db.bookings ==> b.id != id
    ensures FindBooking(old(db.bookings), id).Some? ==>
      resp == Response(204, NoContent) && |db.bookings| == |old(db.bookings)| - 1
    ensures FindBooking(old(db.bookings), id).None? ==>
      resp == Response(404, Message(NotFoundMessage)) && db.bookings == old(db.bookings)
  {
    ghost var before := db.bookings;
    var deleted := db.DestroyBooking(id);
    RemoveRowsCount(before, id);
    if deleted != 0 {
      resp := Response(204, NoContent);
    } else {
      RemoveMissingRow(before, id);
      resp := Response(404, Message(NotFoundMessage));
    }
  }
}
