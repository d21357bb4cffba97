/**
 * The Express application in `src/ex2.ts`: booking with a credit, the user's
 * bookings with provider statistics, a booking's timeline, and a patient's
 * credits with monthly usage. Each handler reads and writes a `Db`; the
 * request arrives already parsed, the clock reading is the `now` parameter.
 */
module BookingApi {
  import opened Wrappers
  import opened Fields
  import opened BookingModel
  import opened CreditModel
  import opened HistoryModel
  import opened Database
  import opened Statistics
  import opened Responses

  const NoCreditMessage := "No unused, non-expired credits found."
  const CreatedMessage := "Booking created successfully"
  const CreateFailedMessage := "An error occurred while creating the booking."
  const MissingUserMessage := "User ID must be provided as a query parameter."
  const RetrieveFailedMessage := "An error occurred while retrieving bookings."

  /** `{ time, patientId, provider }` handed to `Booking.create`: status and credit are not sent. */
  function SeedBooking(time: Field<DateValue>, patientId: Field<string>, provider: Field<string>): (r: BookingInput)
    ensures r.time == time && r.patientId == patientId && r.provider == provider
    ensures r.status.Absent? && r.creditId.Absent?
  {
    BookingInput(time, patientId, provider, Absent, Absent)
  }

  /** Which side of the Booking/Credit association the handler writes. */
  datatype LinkMode = BookingSideOnly | BothSides

  /**
   * The body of `POST /bookings` for a given first history row: find an
   * eligible credit (404 if none), insert the booking, insert its history
   * row, link the credit, answer 201. A failing insert answers 500 and keeps
   * whatever was written before it.
   */
  method AllocateBooking(db: Db, time: Field<DateValue>, patientId: Field<string>, provider: Field<string>,
                         now: int, seedTimestamp: Field<DateValue>, mode: LinkMode) returns (resp: Response)
    requires db.Valid()
    modifies db
    ensures db.Valid()
    ensures db.nextCreditId == old(db.nextCreditId)
    ensures FindEligibleCredit(old(db.credits), now).None? ==>
      resp == Response(404, Error(NoCreditMessage)) && unchanged(db)
    ensures FindEligibleCredit(old(db.credits), now).Some? ==>
      var c := FindEligibleCredit(old(db.credits), now).value;
      var built := BookingModel.Build(SeedBooking(time, patientId, provider), old(db.nextBookingId), now, db.loadedAt);
      && (built.Failure? ==> resp == Response(500, Error(CreateFailedMessage)) && unchanged(db))
      && (built.Success? ==>
        var b := built.value;
        var seeded := HistoryModel.Build(HistoryInput(Present(b.status), seedTimestamp, Present(b.id)), old(db.nextHistoryId), now);
        && db.nextBookingId == old(db.nextBookingId) + 1
        && (seeded.Failure? ==>
          && resp == Response(500, Error(CreateFailedMessage))
          && db.bookings == old(db.bookings) + [b]
          && db.histories == old(db.histories) && db.nextHistoryId == old(db.nextHistoryId)
          && db.credits == old(db.credits))
        && (seeded.Success? ==>
          var linked := b.(creditId := Some(c.id), updatedAt := now);
          && resp == Response(201, Created(CreatedMessage, linked))
          && db.bookings == old(db.bookings) + [linked]
          && db.histories == old(db.histories) + [seeded.value] && db.nextHistoryId == old(db.nextHistoryId) + 1
          && db.credits == (if mode == BothSides then ClaimCredit(old(db.credits), c.id, b.id, now) else old(db.credits))))
  {
    var credit := FindEligibleCredit(db.credits, now);
    if credit.None? {
      return Response(404, Error(NoCreditMessage));
    }
    resp := BookWithCredit(db, credit.value, SeedBooking(time, patientId, provider), now, seedTimestamp, mode);
  }

  /** The part of `POST /bookings` after a credit `c` was found: insert the booking, then seed and link it. */
  method BookWithCredit(db: Db, c: Credit, input: BookingInput, now: int, seedTimestamp: Field<DateValue>, mode: LinkMode)
    returns (resp: Response)
    requires db.Valid()
    modifies db
    ensures db.Valid()
    ensures db.nextCreditId == old(db.nextCreditId)
    ensures var built := BookingModel.Build(input, old(db.nextBookingId), now, db.loadedAt);
      && (built.Failure? ==> resp == Response(500, Error(CreateFailedMessage)) && unchanged(db))
      && (built.Success? ==>
        var b := built.value;
        var seeded := HistoryModel.Build(HistoryInput(Present(b.status), seedTimestamp, Present(b.id)), old(db.nextHistoryId), now);
        && db.nextBookingId == old(db.nextBookingId) + 1
        && (seeded.Failure? ==>
          && resp == Response(500, Error(CreateFailedMessage))
          && db.bookings == old(db.bookings) + [b]
          && db.histories == old(db.histories) && db.nextHistoryId == old(db.nextHistoryId)
          && db.credits == old(db.credits))
        && (seeded.Success? ==>
          var linked := b.(creditId := Some(c.id), updatedAt := now);
          && resp == Response(201, Created(CreatedMessage, linked))
          && db.bookings == old(db.bookings) + [linked]
          && db.histories == old(db.histories) + [seeded.value] && db.nextHistoryId == old(db.nextHistoryId) + 1
          && db.credits == (if mode == BothSides then ClaimCredit(old(db.credits), c.id, b.id, now) else old(db.credits))))
  {
    var booking := db.CreateBooking(input, now);
    if booking.Failure? {
      return Response(500, Error(CreateFailedMessage));
    }
    resp := SeedAndLink(db, old(db.bookings), booking.value, c, now, seedTimestamp, mode);
  }

  /**
   * The part of `POST /bookings` after booking `b` was inserted as the
   * newest row: record its first status, link the credit, answer 201.
   */
  method SeedAndLink(db: Db, ghost before: seq<Booking>, b: Booking, c: Credit, now: int,
                     seedTimestamp: Field<DateValue>, mode: LinkMode) returns (resp: Response)
    requires db.Valid()
    requires db.bookings == before + [b]
    requires forall x :: x in before ==> x.id < b.id
    modifies db
    ensures db.Valid()
    ensures db.nextCreditId == old(db.nextCreditId) && db.nextBookingId == old(db.nextBookingId)
    ensures var seeded := HistoryModel.Build(HistoryInput(Present(b.status), seedTimestamp, Present(b.id)), old(db.nextHistoryId), now);
      && (seeded.Failure? ==> resp == Response(500, Error(CreateFailedMessage)) && unchanged(db))
      && (seeded.Success? ==>
        var linked := b.(creditId := Some(c.id), updatedAt := now);
        && resp == Response(201, Created(CreatedMessage, linked))
        && db.bookings == before + [linked]
        && db.histories == old(db.histories) + [seeded.value] && db.nextHistoryId == old(db.nextHistoryId) + 1
        && db.credits == (if mode == BothSides then ClaimCredit(old(db.credits), c.id, b.id, now) else old(db.credits)))
  {
    var history := db.CreateHistory(HistoryInput(Present(b.status), seedTimestamp, Present(b.id)), now);
    if history.Failure? {
      return Response(500, Error(CreateFailedMessage));
    }
    var linked := b.(creditId := Some(c.id), updatedAt := now);
    LinkNewest(before, b, c.id, now);
    assert LinkCredit(db.bookings, b.id, c.id, now) == before + [linked];
    if mode == BothSides {
      db.BindCredit(b.id, c.id, now);
    } else {
      db.SetCredit(b.id, c.id, now);
    }
    resp := Response(201, Created(CreatedMessage, linked));
  }

  /**
   * `POST /bookings` as written: the first history row is created without a
   * timestamp, which its model requires, so the handler never answers 201;
   * once a credit is found and the booking is valid, the booking row stays
   * behind with no credit and no history, and the credit stays eligible.
   */
  method CreateBookingWithCredit(db: Db, time: Field<DateValue>, patientId: Field<string>, provider: Field<string>, now: int)
    returns (resp: Response)
    requires db.Valid()
    modifies db
    ensures db.Valid()
    ensures resp.status == 404 || resp.status == 500
    ensures resp.status == 404 <==> FindEligibleCredit(old(db.credits), now).None?
    ensures db.credits == old(db.credits) && db.histories == old(db.histories)
    ensures FindEligibleCredit(old(db.credits), now).None? ==> unchanged(db)
    ensures FindEligibleCredit(old(db.credits), now).Some? ==>
      var built := BookingModel.Build(SeedBooking(time, patientId, provider), old(db.nextBookingId), now, db.loadedAt);
      && (built.Failure? ==> db.bookings == old(db.bookings))
      && (built.Success? ==> db.bookings == old(db.bookings) + [built.value] && built.value.creditId.None?)
      && db.nextBookingId == old(db.nextBookingId) + (if built.Success? then 1 else 0)
    ensures db.nextCreditId == old(db.nextCreditId) && db.nextHistoryId == old(db.nextHistoryId)
  {
    resp := AllocateBooking(db, time, patientId, provider, now, Absent, BookingSideOnly);
  }

  /**
   * `POST /bookings` as evidently intended: the first history row carries the
   * creation instant, and the credit is bound from both sides. Then the
   * handler is all or nothing: 201 with one new booking, its history row and
   * the claimed credit, or an error with nothing written.
   */
  method CreateBookingWithCreditFixed(db: Db, time: Field<DateValue>, patientId: Field<string>, provider: Field<string>, now: int)
    returns (resp: Response)
    requires db.Valid()
    modifies db
    ensures db.Valid()
    ensures resp.status == 201 <==>
      && FindEligibleCredit(old(db.credits), now).Some?
      && BookingModel.Build(SeedBooking(time, patientId, provider), old(db.nextBookingId), now, db.loadedAt).Success?
    ensures resp.status != 201 ==> unchanged(db) && (resp.status == 404 || resp.status == 500)
    ensures resp.status == 201 ==>
      var c := FindEligibleCredit(old(db.credits), now).value;
      && resp.body.Created?
      && var b := resp.body.booking;
      && b == BookingModel.Build(SeedBooking(time, patientId, provider), old(db.nextBookingId), now, db.loadedAt).value
               .(creditId := Some(c.id), updatedAt := now)
      && b.id == old(db.nextBookingId) && b.status == DefaultStatus && b.creditId == Some(c.id)
      && db.bookings == old(db.bookings) + [b]
      && db.histories == old(db.histories) + [HistoryEntry(old(db.nextHistoryId), DefaultStatus, now, b.id, now, now)]
      && db.credits == ClaimCredit(old(db.credits), c.id, b.id, now)
      && db.nextBookingId == old(db.nextBookingId) + 1 && db.nextHistoryId == old(db.nextHistoryId) + 1
      && db.nextCreditId == old(db.nextCreditId)
      && forall x :: x in db.credits && x.id == c.id ==> !Eligible(x, now)
  {
    resp := AllocateBooking(db, time, patientId, provider, now, Present(Instant(now)), BothSides);
  }

  /** The `[Op.or]` filter of the user's bookings: the user is the patient or the provider. */
  predicate OfUser(b: Booking, userId: string)
  {
    b.patientId == Some(userId) || b.provider == userId
  }

  /** `Booking.findAll` where the user is the patient or the provider, in table order. */
  function BookingsForUser(bs: seq<Booking>, userId: string): (r: seq<Booking>)
    ensures forall b :: b in r <==> b in bs && OfUser(b, userId)
    ensures |r| <= |bs|
  {
    if bs == [] then []
    else (if OfUser(bs[0], userId) then [bs[0]] else []) + BookingsForUser(bs[1..], userId)
  }

  /** Each of the user's bookings is returned as often as the table holds it, and no other. */
  lemma {:induction false} BookingsForUserCounts(bs: seq<Booking>, userId: string)
    ensures forall b :: multiset(BookingsForUser(bs, userId))[b] == if OfUser(b, userId) then multiset(bs)[b] else 0
  {
    if bs != [] {
      BookingsForUserCounts(bs[1..], userId);
      assert bs == [bs[0]] + bs[1..];
      assert multiset(bs) == multiset{bs[0]} + multiset(bs[1..]);
    }
  }

  /** The first booking returned is the table's first match: the row `found[0]` the handler tests. */
  lemma {:induction false} BookingsForUserFirst(bs: seq<Booking>, userId: string)
    ensures BookingsForUser(bs, userId) != [] ==>
      exists k :: 0 <= k < |bs| && BookingsForUser(bs, userId)[0] == bs[k] && (forall j :: 0 <= j < k ==> !OfUser(bs[j], userId))
  {
    if bs != [] && !OfUser(bs[0], userId) {
      BookingsForUserFirst(bs[1..], userId);
      var rest := BookingsForUser(bs[1..], userId);
      if rest != [] {
        var k :| 0 <= k < |bs[1..]| && rest[0] == bs[1..][k] && (forall j :: 0 <= j < k ==> !OfUser(bs[1..][j], userId));
        assert forall j :: 1 <= j < k + 1 ==> bs[j] == bs[1..][j - 1];
        assert BookingsForUser(bs, userId)[0] == bs[k + 1];
      }
    }
  }

  /** `!userId` on a query parameter: missing or empty. */
  predicate Missing(userId: Option<string>)
  {
    userId.None? || userId.value == ""
  }

  /**
   * `GET /bookings?userId=` as written. Statistics are attached only when the
   * first matching booking names the user as provider; with no match at all,
   * `bookings?.[0].provider` throws and the handler answers 500.
   */
  method GetBookingsForUser(db: Db, userId: Option<string>) returns (resp: Response)
    ensures Missing(userId) ==> resp == Response(400, Error(MissingUserMessage))
    ensures !Missing(userId) && BookingsForUser(db.bookings, userId.value) == [] ==>
      resp == Response(500, Error(RetrieveFailedMessage))
    ensures !Missing(userId) && BookingsForUser(db.bookings, userId.value) != [] ==>
      var found := BookingsForUser(db.bookings, userId.value);
      && resp.status == 200 && resp.body.BookingsAndStats? && resp.body.bookings == found
      && (found[0].provider == userId.value ==> resp.body.stats == BookingStatusChangeStats(db.bookings, userId.value))
      && (found[0].provider != userId.value ==> resp.body.stats == [])
    ensures resp.status == 200 ==> forall b :: b in resp.body.bookings ==> b in db.bookings
  {
    if Missing(userId) {
      return Response(400, Error(MissingUserMessage));
    }
    var u := userId.value;
    var bookings := BookingsForUser(db.bookings, u);
    if bookings == [] {
      return Response(500, Error(RetrieveFailedMessage));
    }
    var stats: seq<nat> := [];
    if bookings[0].provider == u {
      stats := BookingStatusChangeStats(db.bookings, u);
    }
    resp := Response(200, BookingsAndStats(bookings, stats));
  }

  /** `GET /bookings?userId=` with the first-row test guarded: a user with no bookings gets an empty 200. */
  method GetBookingsForUserFixed(db: Db, userId: Option<string>) returns (resp: Response)
    ensures Missing(userId) ==> resp == Response(400, Error(MissingUserMessage))
    ensures !Missing(userId) ==> resp.status == 200 && resp.body.BookingsAndStats?
    ensures !Missing(userId) ==>
      var found := BookingsForUser(db.bookings, userId.value);
      && resp.body.bookings == found
      && (found != [] && found[0].provider == userId.value ==> resp.body.stats == BookingStatusChangeStats(db.bookings, userId.value))
      && (found == [] || found[0].provider != userId.value ==> resp.body.stats == [])
  {
    if Missing(userId) {
      return Response(400, Error(MissingUserMessage));
    }
    var u := userId.value;
    var bookings := BookingsForUser(db.bookings, u);
    var stats: seq<nat> := [];
    if bookings != [] && bookings[0].provider == u {
      stats := BookingStatusChangeStats(db.bookings, u);
    }
    resp := Response(200, BookingsAndStats(bookings, stats));
  }

  /** `GET /bookings/:bookingId/history`: that booking's rows, oldest first. */
  method GetHistory(db: Db, bookingId: nat) returns (resp: Response)
    ensures resp.status == 200 && resp.body.HistoryObject?
    ensures SortedByTimestamp(resp.body.history)
    ensures forall e :: e in resp.body.history ==> e.bookingId == bookingId
    ensures forall e :: multiset(resp.body.history)[e] == if e.bookingId == bookingId then multiset(db.histories)[e] else 0
  {
    var history := SortByTimestamp(HistoryOf(db.histories, bookingId));
    assert forall e :: e in history ==> e in multiset(HistoryOf(db.histories, bookingId));
    resp := Response(200, HistoryObject(history));
  }

  /** `Credit.findAll({ where: { patientId } })`, in table order. */
  function CreditsOfPatient(cs: seq<Credit>, patientId: string): (r: seq<Credit>)
    ensures forall c :: c in r <==> c in cs && c.patientId == Some(patientId)
    ensures |r| <= |cs|
  {
    if cs == [] then []
    else (if cs[0].patientId == Some(patientId) then [cs[0]] else []) + CreditsOfPatient(cs[1..], patientId)
  }

  /** Each of the patient's credits is returned as often as the table holds it, and no other. */
  lemma {:induction false} CreditsOfPatientCounts(cs: seq<Credit>, patientId: string)
    ensures forall c :: multiset(CreditsOfPatient(cs, patientId))[c] == if c.patientId == Some(patientId) then multiset(cs)[c] else 0
  {
    if cs != [] {
      CreditsOfPatientCounts(cs[1..], patientId);
      assert cs == [cs[0]] + cs[1..];
      assert multiset(cs) == multiset{cs[0]} + multiset(cs[1..]);
    }
  }

  /** `GET /credits/:patientId`: the patient's credits and the monthly usage report. */
  method GetCreditsForPatient(db: Db, patientId: string) returns (resp: Response)
    ensures resp.status == 200 && resp.body.CreditsAndStats?
    ensures resp.body.credits == CreditsOfPatient(db.credits, patientId)
    ensures resp.body.usage == MonthlyCreditUsageStats(db.bookings, db.credits, patientId)
    ensures NonNegativeKinds(db.credits) ==>
      forall i :: 0 <= i < |resp.body.usage| ==> resp.body.usage[i].percentageCreditsUsed >= 0.0
  {
    var credits := CreditsOfPatient(db.credits, patientId);
    var stats := MonthlyCreditUsageStats(db.bookings, db.credits, patientId);
    resp := Response(200, CreditsAndStats(credits, stats));
  }
}
