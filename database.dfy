/**
 * The persistent store: three tables, each with its auto-increment counter,
 * and the ORM operations the handlers and controllers issue against them.
 * Rows sit in id order, which is also the order a table scan returns them in.
 */
module Database {
  import opened Wrappers
  import opened Fields
  import opened BookingModel
  import opened CreditModel
  import opened HistoryModel

  // ---------------------------------------------------------------- tables

  /** Ids strictly increase along the table, so they are distinct. */
  predicate IncreasingIds(bs: seq<Booking>)
  {
    forall i, j :: 0 <= i < j < |bs| ==> bs[i].id < bs[j].id
  }

  /**
   * A booking table with increasing positive ids below the counter. Rows are
   * not required to pass today's `isAfter` rule: rows written before the
   * modules were last loaded stay in the table.
   */
  predicate BookingTableValid(bs: seq<Booking>, next: nat)
  {
    && next > 0
    && IncreasingIds(bs)
    && (forall i :: 0 <= i < |bs| ==> 0 < bs[i].id < next)
  }

  /** An insert under the counter's id keeps the booking table valid, with the counter one higher. */
  lemma BookingTableAppend(bs: seq<Booking>, next: nat, b: Booking)
    requires BookingTableValid(bs, next) && b.id == next
    ensures BookingTableValid(bs + [b], next + 1)
  {
  }

  predicate CreditTableValid(cs: seq<Credit>, next: nat)
  {
    && next > 0
    && (forall i, j :: 0 <= i < j < |cs| ==> cs[i].id < cs[j].id)
    && (forall i :: 0 <= i < |cs| ==> 0 < cs[i].id < next)
  }

  predicate HistoryTableValid(hs: seq<HistoryEntry>, next: nat)
  {
    && next > 0
    && (forall i, j :: 0 <= i < j < |hs| ==> hs[i].id < hs[j].id)
    && (forall i :: 0 <= i < |hs| ==> 0 < hs[i].id < next)
  }

  /** `Booking.findByPk`: the row with that id, if any. */
  function FindBooking(bs: seq<Booking>, id: nat): (r: Option<Booking>)
    ensures r.Some? ==> r.value in bs && r.value.id == id
    ensures r.None? <==> forall b :: b in bs ==> b.id != id
  {
    if bs == [] then None
    else if bs[0].id == id then Some(bs[0])
    else FindBooking(bs[1..], id)
  }

  /**
   * `Credit.findOne` with `expirationDate > now` and `bookingId IS NULL`: the
   * first eligible credit in table order, or none when there is none.
   */
  function FindEligibleCredit(cs: seq<Credit>, now: int): (r: Option<Credit>)
    ensures r.Some? ==> r.value in cs && Eligible(r.value, now)
    ensures r.Some? ==> r.value.expirationDate > now && r.value.bookingId.None?
    ensures r.None? <==> forall c :: c in cs ==> !Eligible(c, now)
    ensures r.Some? ==> exists k :: 0 <= k < |cs| && cs[k] == r.value && forall j :: 0 <= j < k ==> !Eligible(cs[j], now)
  {
    if cs == [] then None
    else if Eligible(cs[0], now) then Some(cs[0])
    else
      var r := FindEligibleCredit(cs[1..], now);
      assert r.Some? ==> exists k :: 0 <= k < |cs| - 1 && cs[1..][k] == r.value && forall j :: 0 <= j < k ==> !Eligible(cs[1..][j], now);
      r
  }

  /** `UPDATE bookings SET ... WHERE id = ?`: only the row with that id changes. */
  function UpdateRows(bs: seq<Booking>, id: nat, patch: BookingPatch, now: int, loadedAt: int): (r: seq<Booking>)
    requires PatchErrors(patch, loadedAt) == []
    ensures |r| == |bs|
    ensures forall i :: 0 <= i < |bs| && bs[i].id != id ==> r[i] == bs[i]
    ensures forall i :: 0 <= i < |bs| && bs[i].id == id ==> r[i] == ApplyPatch(bs[i], patch, now, loadedAt)
    ensures forall i :: 0 <= i < |bs| ==> r[i].id == bs[i].id
  {
    if bs == [] then []
    else
      [if bs[0].id == id then ApplyPatch(bs[0], patch, now, loadedAt) else bs[0]]
      + UpdateRows(bs[1..], id, patch, now, loadedAt)
  }

  /** `DELETE FROM bookings WHERE id = ?`: the other rows stay, in their order. */
  function RemoveRows(bs: seq<Booking>, id: nat): (r: seq<Booking>)
    ensures forall b :: b in r <==> b in bs && b.id != id
    ensures |r| <= |bs|
  {
    if bs == [] then []
    else (if bs[0].id == id then [] else [bs[0]]) + RemoveRows(bs[1..], id)
  }

  /** Deleting rows keeps the remaining ids in increasing order. */
  lemma {:induction false} RemoveRowsKeepsOrder(bs: seq<Booking>, id: nat)
    requires IncreasingIds(bs)
    ensures IncreasingIds(RemoveRows(bs, id))
  {
    if bs != [] {
      RemoveRowsKeepsOrder(bs[1..], id);
      var rest := RemoveRows(bs[1..], id);
      forall b | b in rest ensures bs[0].id < b.id {
        var k :| 0 <= k < |bs[1..]| && bs[1..][k] == b;
        assert bs[k + 1] == b;
      }
    }
  }

  /** With distinct ids, a delete removes one row exactly when `findByPk` finds one. */
  lemma {:induction false} RemoveRowsCount(bs: seq<Booking>, id: nat)
    requires IncreasingIds(bs)
    ensures |RemoveRows(bs, id)| == |bs| - (if FindBooking(bs, id).Some? then 1 else 0)
  {
    if bs != [] {
      assert IncreasingIds(bs[1..]);
      RemoveRowsCount(bs[1..], id);
      if bs[0].id == id {
        forall b | b in bs[1..] ensures b.id != id {
          var k :| 0 <= k < |bs[1..]| && bs[1..][k] == b;
          assert bs[k + 1] == b;
        }
      }
    }
  }

  /** `booking.setCredit(credit)` saves the booking with `creditId` set; no credit row is written. */
  function LinkCredit(bs: seq<Booking>, bookingId: nat, creditId: nat, now: int): (r: seq<Booking>)
    ensures |r| == |bs|
    ensures forall i :: 0 <= i < |bs| && bs[i].id != bookingId ==> r[i] == bs[i]
    ensures forall i :: 0 <= i < |bs| && bs[i].id == bookingId ==>
      r[i] == bs[i].(creditId := Some(creditId), updatedAt := now)
  {
    if bs == [] then []
    else
      [if bs[0].id == bookingId then bs[0].(creditId := Some(creditId), updatedAt := now) else bs[0]]
      + LinkCredit(bs[1..], bookingId, creditId, now)
  }

  /** Linking the row just inserted, whose id is above every other, changes that row alone. */
  lemma LinkNewest(bs: seq<Booking>, b: Booking, creditId: nat, now: int)
    requires forall x :: x in bs ==> x.id < b.id
    ensures LinkCredit(bs + [b], b.id, creditId, now) == bs + [b.(creditId := Some(creditId), updatedAt := now)]
  {
    var r := LinkCredit(bs + [b], b.id, creditId, now);
    forall i | 0 <= i < |bs| ensures r[i] == bs[i] {
      assert (bs + [b])[i] == bs[i];
    }
  }

  /** An update that matches no row leaves the table as it was. */
  lemma UpdateMissingRow(bs: seq<Booking>, id: nat, patch: BookingPatch, now: int, loadedAt: int)
    requires PatchErrors(patch, loadedAt) == []
    requires FindBooking(bs, id).None?
    ensures UpdateRows(bs, id, patch, now, loadedAt) == bs
  {
    var r := UpdateRows(bs, id, patch, now, loadedAt);
    forall i | 0 <= i < |bs| ensures r[i] == bs[i] {
      assert bs[i] in bs;
    }
  }

  /** `findByPk` after an update sees the updated row, and only when the row was there before. */
  lemma {:induction false} FindAfterUpdate(bs: seq<Booking>, id: nat, patch: BookingPatch, now: int, loadedAt: int)
    requires PatchErrors(patch, loadedAt) == []
    ensures FindBooking(UpdateRows(bs, id, patch, now, loadedAt), id)
         == if FindBooking(bs, id).Some? then Some(ApplyPatch(FindBooking(bs, id).value, patch, now, loadedAt)) else None
  {
    if bs != [] {
      var r := UpdateRows(bs, id, patch, now, loadedAt);
      assert r[1..] == UpdateRows(bs[1..], id, patch, now, loadedAt);
      FindAfterUpdate(bs[1..], id, patch, now, loadedAt);
    }
  }

  /** A delete that matches no row leaves the table as it was. */
  lemma {:induction false} RemoveMissingRow(bs: seq<Booking>, id: nat)
    requires FindBooking(bs, id).None?
    ensures RemoveRows(bs, id) == bs
  {
    if bs != [] {
      RemoveMissingRow(bs[1..], id);
    }
  }

  /**
   * The credit side of a binding: the credit with that id records the
   * booking that holds it, and so is no longer eligible.
   */
  function ClaimCredit(cs: seq<Credit>, creditId: nat, bookingId: nat, now: int): (r: seq<Credit>)
    ensures |r| == |cs|
    ensures forall i :: 0 <= i < |cs| && cs[i].id != creditId ==> r[i] == cs[i]
    ensures forall i :: 0 <= i < |cs| && cs[i].id == creditId ==>
      r[i] == cs[i].(bookingId := Some(bookingId), updatedAt := now)
    ensures forall c :: c in r && c.id == creditId ==> !Eligible(c, now)
  {
    if cs == [] then []
    else
      [if cs[0].id == creditId then cs[0].(bookingId := Some(bookingId), updatedAt := now) else cs[0]]
      + ClaimCredit(cs[1..], creditId, bookingId, now)
  }

  /** `BookingStatusHistory.findAll({ where: { bookingId } })`: that booking's rows, in table order. */
  function HistoryOf(hs: seq<HistoryEntry>, bookingId: nat): (r: seq<HistoryEntry>)
    ensures forall e :: e in r ==> e.bookingId == bookingId
    ensures forall e :: multiset(r)[e] == if e.bookingId == bookingId then multiset(hs)[e] else 0
  {
    if hs == [] then []
    else
      assert hs == [hs[0]] + hs[1..];
      (if hs[0].bookingId == bookingId then [hs[0]] else []) + HistoryOf(hs[1..], bookingId)
  }

  predicate SortedByTimestamp(hs: seq<HistoryEntry>)
  {
    forall i, j :: 0 <= i < j < |hs| ==> hs[i].timestamp <= hs[j].timestamp
  }

  function InsertByTimestamp(e: HistoryEntry, hs: seq<HistoryEntry>): (r: seq<HistoryEntry>)
    requires SortedByTimestamp(hs)
    ensures SortedByTimestamp(r)
    ensures multiset(r) == multiset(hs) + multiset{e}
    ensures r != [] && (r[0] == e || (hs != [] && r[0] == hs[0]))
  {
    if hs == [] || e.timestamp < hs[0].timestamp then [e] + hs
    else
      assert hs == [hs[0]] + hs[1..];
      [hs[0]] + InsertByTimestamp(e, hs[1..])
  }

  /** `order: [["timestamp", "ASC"]]`: the same rows, ascending by timestamp. */
  function SortByTimestamp(hs: seq<HistoryEntry>): (r: seq<HistoryEntry>)
    ensures SortedByTimestamp(r)
    ensures multiset(r) == multiset(hs)
  {
    if hs == [] then []
    else
      assert hs == [hs[0]] + hs[1..];
      InsertByTimestamp(hs[0], SortByTimestamp(hs[1..]))
  }

  // ---------------------------------------------------------------- state

  class Db {
    /** The instant the schema modules were loaded; every `isAfter` rule compares against it. */
    const loadedAt: int
    var bookings: seq<Booking>
    var credits: seq<Credit>
    var histories: seq<HistoryEntry>
    var nextBookingId: nat
    var nextCreditId: nat
    var nextHistoryId: nat

    ghost predicate Valid()
      reads this
    {
      && BookingTableValid(bookings, nextBookingId)
      && CreditTableValid(credits, nextCreditId)
      && HistoryTableValid(histories, nextHistoryId)
    }

    /**
     * The store as the modules find it when loaded at `loadedAt`: whatever
     * tables earlier processes left, with their auto-increment counters.
     */
    constructor (loadedAt: int, bookings: seq<Booking>, nextBookingId: nat, credits: seq<Credit>, nextCreditId: nat,
                 histories: seq<HistoryEntry>, nextHistoryId: nat)
      requires BookingTableValid(bookings, nextBookingId)
      requires CreditTableValid(credits, nextCreditId)
      requires HistoryTableValid(histories, nextHistoryId)
      ensures Valid()
      ensures this.loadedAt == loadedAt
      ensures this.bookings == bookings && this.nextBookingId == nextBookingId
      ensures this.credits == credits && this.nextCreditId == nextCreditId
      ensures this.histories == histories && this.nextHistoryId == nextHistoryId
    {
      this.loadedAt := loadedAt;
      this.bookings := bookings;
      this.nextBookingId := nextBookingId;
      this.credits := credits;
      this.nextCreditId := nextCreditId;
      this.histories := histories;
      this.nextHistoryId := nextHistoryId;
    }

    /** `Booking.create(input)`: a rejected row reaches no table and uses no id. */
    method CreateBooking(input: BookingInput, now: int) returns (r: Result<Booking, seq<FieldError>>)
      requires Valid()
      modifies this`bookings, this`nextBookingId
      ensures Valid()
      ensures r == BookingModel.Build(input, old(nextBookingId), now, loadedAt)
      ensures r.Success? ==> bookings == old(bookings) + [r.value] && nextBookingId == old(nextBookingId) + 1
      ensures r.Failure? ==> bookings == old(bookings) && nextBookingId == old(nextBookingId)
    {
      r := BookingModel.Build(input, nextBookingId, now, loadedAt);
      if r.Success? {
        BookingTableAppend(bookings, nextBookingId, r.value);
        bookings := bookings + [r.value];
        nextBookingId := nextBookingId + 1;
      }
    }

    /** `BookingStatusHistory.create(input)`: the only write to the history table, and it appends. */
    method CreateHistory(input: HistoryInput, now: int) returns (r: Result<HistoryEntry, seq<FieldError>>)
      requires Valid()
      modifies this`histories, this`nextHistoryId
      ensures Valid()
      ensures r == HistoryModel.Build(input, old(nextHistoryId), now)
      ensures r.Success? ==> histories == old(histories) + [r.value] && nextHistoryId == old(nextHistoryId) + 1
      ensures r.Failure? ==> histories == old(histories) && nextHistoryId == old(nextHistoryId)
    {
      r := HistoryModel.Build(input, nextHistoryId, now);
      if r.Success? {
        histories := histories + [r.value];
        nextHistoryId := nextHistoryId + 1;
      }
    }

    /** `Booking.update(patch, { where: { id } })`: validation first, then the affected-row count. */
    method UpdateBooking(id: nat, patch: BookingPatch, now: int) returns (r: Result<nat, seq<FieldError>>)
      requires Valid()
      modifies this`bookings
      ensures Valid()
      ensures PatchErrors(patch, loadedAt) != [] ==>
        r == Failure(PatchErrors(patch, loadedAt)) && bookings == old(bookings)
      ensures PatchErrors(patch, loadedAt) == [] ==>
        && r == Success(if FindBooking(old(bookings), id).Some? then 1 else 0)
        && bookings == UpdateRows(old(bookings), id, patch, now, loadedAt)
    {
      var errs := PatchErrors(patch, loadedAt);
      if errs != [] {
        r := Failure(errs);
        return;
      }
      var found := FindBooking(bookings, id);
      bookings := UpdateRows(bookings, id, patch, now, loadedAt);
      r := Success(if found.Some? then 1 else 0);
    }

    /** `Booking.destroy({ where: { id } })`: the number of rows removed. */
    method DestroyBooking(id: nat) returns (deleted: nat)
      requires Valid()
      modifies this`bookings
      ensures Valid()
      ensures bookings == RemoveRows(old(bookings), id)
      ensures deleted == (if FindBooking(old(bookings), id).Some? then 1 else 0)
    {
      var before := |bookings|;
      RemoveRowsKeepsOrder(bookings, id);
      RemoveRowsCount(bookings, id);
      bookings := RemoveRows(bookings, id);
      deleted := before - |bookings|;
    }

    /** `booking.setCredit(credit)`: writes the booking's `creditId` only; the credits table is untouched. */
    method SetCredit(bookingId: nat, creditId: nat, now: int)
      requires Valid()
      modifies this`bookings
      ensures Valid()
      ensures bookings == LinkCredit(old(bookings), bookingId, creditId, now)
    {
      bookings := LinkCredit(bookings, bookingId, creditId, now);
    }

    /** Both sides of a binding: the booking's `creditId` and the credit's `bookingId`. */
    method BindCredit(bookingId: nat, creditId: nat, now: int)
      requires Valid()
      modifies this`bookings, this`credits
      ensures Valid()
      ensures bookings == LinkCredit(old(bookings), bookingId, creditId, now)
      ensures credits == ClaimCredit(old(credits), creditId, bookingId, now)
    {
      bookings := LinkCredit(bookings, bookingId, creditId, now);
      credits := ClaimCredit(credits, creditId, bookingId, now);
    }
  }
}
