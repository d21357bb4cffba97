/**
 * The two statistics of src/utils/statistics.ts, as functions of the
 * tables: a provider's counts of canceled and rescheduled bookings, and a
 * patient's credit use per calendar month with its share of the credits
 * still unused.
 */
module Statistics {
  import opened Wrappers
  import opened BookingModel
  import opened CreditModel
  import opened Calendar
  import Database

  const Canceled := "canceled"
  const Rescheduled := "rescheduled"
  const Confirmed := "confirmed"

  // ------------------------------------------------ status-change counts

  /**
   * `Booking.count({ where: { provider, status } })`: at most the provider's
   * bookings, and 0 exactly when none of them has that status.
   */
  function CountWithStatus(bs: seq<Booking>, provider: string, status: string): (r: nat)
    ensures r <= ProviderCount(bs, provider)
  {
    if bs == [] then 0
    else (if bs[0].provider == provider && bs[0].status == status then 1 else 0)
         + CountWithStatus(bs[1..], provider, status)
  }

  lemma {:induction false} CountWithStatusZero(bs: seq<Booking>, provider: string, status: string)
    ensures CountWithStatus(bs, provider, status) == 0 <==> forall b :: b in bs ==> !(b.provider == provider && b.status == status)
  {
    if bs != [] {
      CountWithStatusZero(bs[1..], provider, status);
      assert bs[0] in bs && forall b :: b in bs[1..] ==> b in bs;
      assert forall b :: b in bs ==> b == bs[0] || b in bs[1..];
    }
  }

  /** The number of bookings of one provider, whatever their status. */
  function ProviderCount(bs: seq<Booking>, provider: string): nat
  {
    if bs == [] then 0
    else (if bs[0].provider == provider then 1 else 0) + ProviderCount(bs[1..], provider)
  }

  /** A count over two tables end to end is the sum of the counts. */
  lemma {:induction false} CountWithStatusAppend(a: seq<Booking>, b: seq<Booking>, provider: string, status: string)
    ensures CountWithStatus(a + b, provider, status) == CountWithStatus(a, provider, status) + CountWithStatus(b, provider, status)
  {
    if a == [] {
      assert a + b == b;
    } else {
      assert (a + b)[0] == a[0] && (a + b)[1..] == a[1..] + b;
      CountWithStatusAppend(a[1..], b, provider, status);
    }
  }

  /** The two counts never exceed the provider's bookings, since no booking has both statuses. */
  lemma {:induction false} StatusCountsBounded(bs: seq<Booking>, provider: string)
    ensures CountWithStatus(bs, provider, Canceled) + CountWithStatus(bs, provider, Rescheduled) <= ProviderCount(bs, provider)
  {
    if bs != [] {
      StatusCountsBounded(bs[1..], provider);
    }
  }

  /** `getBookingStatusChangeStats(provider)`: `[canceled, rescheduled]`. */
  function BookingStatusChangeStats(bs: seq<Booking>, provider: string): (r: seq<nat>)
    ensures |r| == 2
    ensures r[0] <= ProviderCount(bs, provider) && r[1] <= ProviderCount(bs, provider)
    ensures r[0] + r[1] <= ProviderCount(bs, provider)
  {
    StatusCountsBounded(bs, provider);
    [CountWithStatus(bs, provider, Canceled), CountWithStatus(bs, provider, Rescheduled)]
  }

  /** A booking of another provider, or in any status but the two counted, changes neither count wherever it sits. */
  lemma StatsIgnoreOtherBookings(before: seq<Booking>, b: Booking, after: seq<Booking>, provider: string)
    requires b.provider != provider || (b.status != Canceled && b.status != Rescheduled)
    ensures BookingStatusChangeStats(before + [b] + after, provider) == BookingStatusChangeStats(before + after, provider)
  {
    CountWithStatusAppend(before + [b], after, provider, Canceled);
    CountWithStatusAppend(before, [b], provider, Canceled);
    CountWithStatusAppend(before + [b], after, provider, Rescheduled);
    CountWithStatusAppend(before, [b], provider, Rescheduled);
    CountWithStatusAppend(before, after, provider, Canceled);
    CountWithStatusAppend(before, after, provider, Rescheduled);
  }

  // ------------------------------------------------ monthly credit usage

  /** The include's join: the booking names the credit and the credit names the booking. */
  predicate Joins(b: Booking, c: Credit)
  {
    b.creditId == Some(c.id) && c.bookingId == Some(b.id)
  }

  /** How many credits the join attaches to a booking. */
  function JoinCount(b: Booking, cs: seq<Credit>): nat
  {
    if cs == [] then 0 else (if Joins(b, cs[0]) then 1 else 0) + JoinCount(b, cs[1..])
  }

  /** Every credit's `type` reads as a number of at least 0. */
  predicate NonNegativeKinds(cs: seq<Credit>)
  {
    forall c :: c in cs ==> Value(c.kind) >= 0
  }

  /** The summed value of the credits the join attaches to a booking. */
  function JoinedValue(b: Booking, cs: seq<Credit>): int
  {
    if cs == [] then 0
    else (if Joins(b, cs[0]) then Value(cs[0].kind) else 0) + JoinedValue(b, cs[1..])
  }

  /** Credits that read non-negative give a non-negative joined value. */
  lemma {:induction false} JoinedValueNonNegative(b: Booking, cs: seq<Credit>)
    requires NonNegativeKinds(cs)
    ensures JoinedValue(b, cs) >= 0
  {
    if cs != [] {
      assert cs[0] in cs && forall x :: x in cs[1..] ==> x in cs;
      JoinedValueNonNegative(b, cs[1..]);
    }
  }

  /** A booking the grouped query sees: the patient's, "confirmed", with at least one joined credit. */
  predicate Contributes(b: Booking, patientId: string, cs: seq<Credit>)
  {
    b.patientId == Some(patientId) && b.status == Confirmed && JoinCount(b, cs) > 0
  }

  /** The group a booking falls in: `YEAR` and `MONTH` of its `time`. */
  function KeyOf(b: Booking): YearMonth
  {
    YearMonthOf(b.time)
  }

  /** Some booking of the table contributes to month `k`. */
  predicate HasGroup(bs: seq<Booking>, patientId: string, cs: seq<Credit>, k: YearMonth)
  {
    exists b :: b in bs && Contributes(b, patientId, cs) && KeyOf(b) == k
  }

  /** The groups of the query, in the order their first booking appears. */
  function UsageKeys(bs: seq<Booking>, patientId: string, cs: seq<Credit>): (ks: seq<YearMonth>)
    ensures forall i, j :: 0 <= i < j < |ks| ==> ks[i] != ks[j]
    ensures forall k :: k in ks <==> HasGroup(bs, patientId, cs, k)
  {
    if bs == [] then []
    else
      var last := bs[|bs| - 1];
      assert bs == bs[..|bs| - 1] + [last];
      var ks := UsageKeys(bs[..|bs| - 1], patientId, cs);
      if Contributes(last, patientId, cs) && KeyOf(last) !in ks then ks + [KeyOf(last)] else ks
  }

  /** `SUM(...)` over one group: the joined value of its bookings. */
  function GroupTotal(bs: seq<Booking>, patientId: string, cs: seq<Credit>, k: YearMonth): int
  {
    if bs == [] then 0
    else
      var last := bs[|bs| - 1];
      GroupTotal(bs[..|bs| - 1], patientId, cs, k)
      + (if Contributes(last, patientId, cs) && KeyOf(last) == k then JoinedValue(last, cs) else 0)
  }

  /** Credits that read non-negative give every month a non-negative total. */
  lemma {:induction false} GroupTotalNonNegative(bs: seq<Booking>, patientId: string, cs: seq<Credit>, k: YearMonth)
    requires NonNegativeKinds(cs)
    ensures GroupTotal(bs, patientId, cs, k) >= 0
  {
    if bs != [] {
      GroupTotalNonNegative(bs[..|bs| - 1], patientId, cs, k);
      JoinedValueNonNegative(bs[|bs| - 1], cs);
    }
  }

  /** A month that holds no contributing booking has no credit use. */
  lemma {:induction false} GroupTotalWithoutGroup(bs: seq<Booking>, patientId: string, cs: seq<Credit>, k: YearMonth)
    requires !HasGroup(bs, patientId, cs, k)
    ensures GroupTotal(bs, patientId, cs, k) == 0
  {
    if bs != [] {
      var init := bs[..|bs| - 1];
      assert bs == init + [bs[|bs| - 1]];
      assert !HasGroup(init, patientId, cs, k);
      GroupTotalWithoutGroup(init, patientId, cs, k);
    }
  }

  /** The joined value of all the patient's confirmed bookings, whatever their month. */
  function TotalJoined(bs: seq<Booking>, patientId: string, cs: seq<Credit>): int
  {
    if bs == [] then 0
    else
      var last := bs[|bs| - 1];
      TotalJoined(bs[..|bs| - 1], patientId, cs) + (if Contributes(last, patientId, cs) then JoinedValue(last, cs) else 0)
  }

  /** A row as the grouped query returns it; `SUM` gives NULL for a group of NULLs. */
  datatype RawUsageRow = RawUsageRow(totalCreditsUsed: Option<int>, month: int, year: int)

  /** The grouped rows for a list of keys, in that order. */
  function RowsFor(bs: seq<Booking>, patientId: string, cs: seq<Credit>, ks: seq<YearMonth>): (rows: seq<RawUsageRow>)
    ensures |rows| == |ks|
    ensures forall i :: 0 <= i < |ks| ==>
      rows[i] == RawUsageRow(Some(GroupTotal(bs, patientId, cs, ks[i])), ks[i].month, ks[i].year)
  {
    if ks == [] then []
    else
      var k := ks[|ks| - 1];
      RowsFor(bs, patientId, cs, ks[..|ks| - 1]) + [RawUsageRow(Some(GroupTotal(bs, patientId, cs, k)), k.month, k.year)]
  }

  /**
   * The grouped query of `getMonthlyCreditUsageStats`: one row per calendar
   * month holding a contributing booking, and no other row.
   */
  function RawMonthlyUsage(bs: seq<Booking>, patientId: string, cs: seq<Credit>): (rows: seq<RawUsageRow>)
    ensures forall i, j :: 0 <= i < j < |rows| ==>
      YearMonth(rows[i].year, rows[i].month) != YearMonth(rows[j].year, rows[j].month)
    ensures forall i :: 0 <= i < |rows| ==>
      && rows[i].totalCreditsUsed.Some?
      && 1 <= rows[i].month <= 12
      && HasGroup(bs, patientId, cs, YearMonth(rows[i].year, rows[i].month))
      && rows[i].totalCreditsUsed.value == GroupTotal(bs, patientId, cs, YearMonth(rows[i].year, rows[i].month))
    ensures forall b :: b in bs && Contributes(b, patientId, cs) ==>
      exists i :: 0 <= i < |rows| && YearMonth(rows[i].year, rows[i].month) == KeyOf(b)
  {
    var ks := UsageKeys(bs, patientId, cs);
    RowsForKeys(bs, patientId, cs, ks);
    RowsFor(bs, patientId, cs, ks)
  }

  /** Credits that read non-negative give non-negative monthly totals. */
  lemma UsageTotalsNonNegative(bs: seq<Booking>, patientId: string, cs: seq<Credit>)
    ensures NonNegativeKinds(cs) ==>
      forall i :: 0 <= i < |RawMonthlyUsage(bs, patientId, cs)| ==> RawMonthlyUsage(bs, patientId, cs)[i].totalCreditsUsed.value >= 0
  {
    var rows := RawMonthlyUsage(bs, patientId, cs);
    if NonNegativeKinds(cs) {
      forall i | 0 <= i < |rows| ensures rows[i].totalCreditsUsed.value >= 0 {
        GroupTotalNonNegative(bs, patientId, cs, YearMonth(rows[i].year, rows[i].month));
      }
    }
  }

  /** The rows of a list of keys carry exactly those keys, each a month from 1 to 12. */
  lemma RowsForKeys(bs: seq<Booking>, patientId: string, cs: seq<Credit>, ks: seq<YearMonth>)
    requires ks == UsageKeys(bs, patientId, cs)
    ensures forall i :: 0 <= i < |ks| ==>
      YearMonth(RowsFor(bs, patientId, cs, ks)[i].year, RowsFor(bs, patientId, cs, ks)[i].month) == ks[i]
    ensures forall i :: 0 <= i < |ks| ==> 1 <= ks[i].month <= 12
    ensures forall b :: b in bs && Contributes(b, patientId, cs) ==> exists i :: 0 <= i < |ks| && ks[i] == KeyOf(b)
  {
    forall i | 0 <= i < |ks| ensures 1 <= ks[i].month <= 12 {
      assert HasGroup(bs, patientId, cs, ks[i]);
      var b :| b in bs && Contributes(b, patientId, cs) && KeyOf(b) == ks[i];
    }
    forall b | b in bs && Contributes(b, patientId, cs) ensures exists i :: 0 <= i < |ks| && ks[i] == KeyOf(b) {
      assert HasGroup(bs, patientId, cs, KeyOf(b));
      assert KeyOf(b) in ks;
    }
  }

  /** The sum of a list of group totals. */
  function SumGroups(bs: seq<Booking>, patientId: string, cs: seq<Credit>, ks: seq<YearMonth>): int
  {
    if ks == [] then 0
    else SumGroups(bs, patientId, cs, ks[..|ks| - 1]) + GroupTotal(bs, patientId, cs, ks[|ks| - 1])
  }

  /** The sum of the `totalCreditsUsed` column of a list of rows, NULL counting as 0. */
  function SumTotals(rows: seq<RawUsageRow>): int
  {
    if rows == [] then 0
    else
      var last := rows[|rows| - 1];
      SumTotals(rows[..|rows| - 1]) + (if last.totalCreditsUsed.Some? then last.totalCreditsUsed.value else 0)
  }

  /** Adding one booking at the end adds its value to the total of the one distinct key its month matches. */
  lemma {:induction false} SumGroupsGrow(bs: seq<Booking>, x: Booking, patientId: string, cs: seq<Credit>, ks: seq<YearMonth>)
    requires forall i, j :: 0 <= i < j < |ks| ==> ks[i] != ks[j]
    ensures SumGroups(bs + [x], patientId, cs, ks)
         == SumGroups(bs, patientId, cs, ks)
            + (if Contributes(x, patientId, cs) && KeyOf(x) in ks then JoinedValue(x, cs) else 0)
  {
    assert (bs + [x])[..|bs + [x]| - 1] == bs;
    if ks != [] {
      var init := ks[..|ks| - 1];
      SumGroupsGrow(bs, x, patientId, cs, init);
      assert ks == init + [ks[|ks| - 1]];
      assert KeyOf(x) in ks <==> KeyOf(x) in init || KeyOf(x) == ks[|ks| - 1];
      assert ks[|ks| - 1] !in init;
    }
  }

  lemma {:induction false} SumTotalsOfRows(bs: seq<Booking>, patientId: string, cs: seq<Credit>, ks: seq<YearMonth>)
    ensures SumTotals(RowsFor(bs, patientId, cs, ks)) == SumGroups(bs, patientId, cs, ks)
  {
    if ks != [] {
      var rows := RowsFor(bs, patientId, cs, ks);
      assert rows[..|rows| - 1] == RowsFor(bs, patientId, cs, ks[..|ks| - 1]);
      SumTotalsOfRows(bs, patientId, cs, ks[..|ks| - 1]);
    }
  }

  /**
   * Every contributing booking's credit value lands in exactly one monthly
   * row: the row totals add up to the patient's whole joined credit value.
   */
  lemma {:induction false} UsageTotalsConserved(bs: seq<Booking>, patientId: string, cs: seq<Credit>)
    ensures SumTotals(RawMonthlyUsage(bs, patientId, cs)) == TotalJoined(bs, patientId, cs)
  {
    SumTotalsOfRows(bs, patientId, cs, UsageKeys(bs, patientId, cs));
    KeysConserved(bs, patientId, cs);
  }

  lemma {:induction false} KeysConserved(bs: seq<Booking>, patientId: string, cs: seq<Credit>)
    ensures SumGroups(bs, patientId, cs, UsageKeys(bs, patientId, cs)) == TotalJoined(bs, patientId, cs)
  {
    if bs != [] {
      var init := bs[..|bs| - 1];
      var x := bs[|bs| - 1];
      assert bs == init + [x];
      var ks := UsageKeys(init, patientId, cs);
      var ks' := UsageKeys(bs, patientId, cs);
      KeysConserved(init, patientId, cs);
      SumGroupsGrow(init, x, patientId, cs, ks);
      assert TotalJoined(bs, patientId, cs)
          == TotalJoined(init, patientId, cs) + (if Contributes(x, patientId, cs) then JoinedValue(x, cs) else 0);
      if Contributes(x, patientId, cs) && KeyOf(x) !in ks {
        assert ks' == ks + [KeyOf(x)];
        GroupTotalWithoutGroup(init, patientId, cs, KeyOf(x));
        assert ks'[..|ks'| - 1] == ks;
        assert SumGroups(bs, patientId, cs, ks') == SumGroups(bs, patientId, cs, ks) + GroupTotal(bs, patientId, cs, KeyOf(x));
        assert GroupTotal(bs, patientId, cs, KeyOf(x)) == GroupTotal(init, patientId, cs, KeyOf(x)) + JoinedValue(x, cs);
      } else {
        assert ks' == ks;
      }
    }
  }

  /** The join needs both sides: a credit that names no booking attaches to none. */
  lemma {:induction false} UnclaimedCreditsJoinNothing(b: Booking, cs: seq<Credit>)
    requires forall c :: c in cs ==> c.bookingId.None?
    ensures JoinCount(b, cs) == 0
  {
    if cs != [] {
      assert cs[0] in cs;
      assert forall c :: c in cs[1..] ==> c in cs;
      UnclaimedCreditsJoinNothing(b, cs[1..]);
    }
  }

  /** While no credit row names its booking, the monthly usage report has no row at all. */
  lemma NoUsageWithoutClaims(bs: seq<Booking>, patientId: string, cs: seq<Credit>)
    requires forall c :: c in cs ==> c.bookingId.None?
    ensures RawMonthlyUsage(bs, patientId, cs) == []
  {
    var rows := RawMonthlyUsage(bs, patientId, cs);
    forall b | b in bs ensures !Contributes(b, patientId, cs) {
      UnclaimedCreditsJoinNothing(b, cs);
    }
    assert |rows| > 0 ==> HasGroup(bs, patientId, cs, YearMonth(rows[0].year, rows[0].month));
  }

  /** A credit joined to a booking adds at least its own value to the booking's joined value. */
  lemma {:induction false} JoinedAtLeast(b: Booking, c: Credit, cs: seq<Credit>)
    requires c in cs && Joins(b, c) && NonNegativeKinds(cs)
    ensures JoinCount(b, cs) > 0 && JoinedValue(b, cs) >= Value(c.kind)
  {
    var rest := cs[1..];
    assert NonNegativeKinds(rest) by {
      forall x | x in rest ensures Value(x.kind) >= 0 {
        assert x in cs;
      }
    }
    assert JoinedValue(b, cs) == (if Joins(b, cs[0]) then Value(cs[0].kind) else 0) + JoinedValue(b, rest);
    if cs[0] == c {
      JoinedValueNonNegative(b, rest);
    } else {
      assert cs[0] in cs;
      assert c in rest;
      JoinedAtLeast(b, c, rest);
    }
  }

  /** A contributing booking's joined value is part of its month's total. */
  lemma {:induction false} GroupAtLeast(bs: seq<Booking>, b: Booking, patientId: string, cs: seq<Credit>)
    requires b in bs && Contributes(b, patientId, cs) && NonNegativeKinds(cs)
    ensures GroupTotal(bs, patientId, cs, KeyOf(b)) >= JoinedValue(b, cs)
  {
    var init := bs[..|bs| - 1];
    var last := bs[|bs| - 1];
    assert bs == init + [last];
    assert GroupTotal(bs, patientId, cs, KeyOf(b)) == GroupTotal(init, patientId, cs, KeyOf(b))
      + (if Contributes(last, patientId, cs) && KeyOf(last) == KeyOf(b) then JoinedValue(last, cs) else 0);
    if b in init {
      GroupAtLeast(init, b, patientId, cs);
      JoinedValueNonNegative(last, cs);
    } else {
      assert b == last;
      GroupTotalNonNegative(init, patientId, cs, KeyOf(b));
    }
  }

  /**
   * A confirmed booking of the patient bound to a credit from both sides is
   * counted: the report has a row for its month holding at least that
   * credit's value.
   */
  lemma BoundBookingCounted(bs: seq<Booking>, b: Booking, cs: seq<Credit>, c: Credit, patientId: string)
    requires b in bs && c in cs && Joins(b, c)
    requires b.patientId == Some(patientId) && b.status == Confirmed
    requires NonNegativeKinds(cs)
    ensures exists i :: (0 <= i < |RawMonthlyUsage(bs, patientId, cs)|
      && YearMonth(RawMonthlyUsage(bs, patientId, cs)[i].year, RawMonthlyUsage(bs, patientId, cs)[i].month) == KeyOf(b)
      && RawMonthlyUsage(bs, patientId, cs)[i].totalCreditsUsed.value >= Value(c.kind))
  {
    var rows := RawMonthlyUsage(bs, patientId, cs);
    JoinedAtLeast(b, c, cs);
    GroupAtLeast(bs, b, patientId, cs);
    var i :| 0 <= i < |rows| && YearMonth(rows[i].year, rows[i].month) == KeyOf(b);
    assert rows[i].totalCreditsUsed.value == GroupTotal(bs, patientId, cs, KeyOf(b));
  }

  /**
   * A booking the query does not see (another patient's, not confirmed, or
   * without a joined credit) leaves the monthly rows as they were.
   */
  lemma NonContributingIgnored(bs: seq<Booking>, x: Booking, patientId: string, cs: seq<Credit>)
    requires !Contributes(x, patientId, cs)
    ensures RawMonthlyUsage(bs + [x], patientId, cs) == RawMonthlyUsage(bs, patientId, cs)
  {
    assert (bs + [x])[..|bs + [x]| - 1] == bs;
    forall k ensures GroupTotal(bs + [x], patientId, cs, k) == GroupTotal(bs, patientId, cs, k) {}
    RowsForSameTotals(bs + [x], bs, patientId, cs, UsageKeys(bs, patientId, cs));
  }

  lemma {:induction false} RowsForSameTotals(bs1: seq<Booking>, bs2: seq<Booking>, patientId: string, cs: seq<Credit>, ks: seq<YearMonth>)
    requires forall k :: GroupTotal(bs1, patientId, cs, k) == GroupTotal(bs2, patientId, cs, k)
    ensures RowsFor(bs1, patientId, cs, ks) == RowsFor(bs2, patientId, cs, ks)
  {
    if ks != [] {
      RowsForSameTotals(bs1, bs2, patientId, cs, ks[..|ks| - 1]);
    }
  }

  /** A sum read as a number, NULL as 0. */
  function SumOrZero(x: Option<int>): int
  {
    if x.Some? then x.value else 0
  }

  /** `Credit.sum("type", { where: { bookingId: null } })`, over all patients; NULL when no credit is unused. */
  function AvailableCredits(cs: seq<Credit>): (r: Option<int>)
    ensures r.None? <==> forall c :: c in cs ==> c.bookingId.Some?
    ensures NonNegativeKinds(cs) && r.Some? ==> r.value >= 0
  {
    if cs == [] then None
    else
      assert NonNegativeKinds(cs) ==> cs[0] in cs && NonNegativeKinds(cs[1..]);
      var rest := AvailableCredits(cs[1..]);
      if cs[0].bookingId.None? then Some(Value(cs[0].kind) + SumOrZero(rest))
      else rest
  }

  /** The first row's share of the unused-credit sum. */
  lemma AvailableCreditsUnfold(cs: seq<Credit>)
    requires cs != []
    ensures SumOrZero(AvailableCredits(cs))
      == (if cs[0].bookingId.None? then Value(cs[0].kind) else 0) + SumOrZero(AvailableCredits(cs[1..]))
  {
  }

  /** As numbers, the unused-credit sums of two tables side by side add up. */
  lemma {:induction false} AvailableSumConcat(a: seq<Credit>, b: seq<Credit>)
    ensures SumOrZero(AvailableCredits(a + b)) == SumOrZero(AvailableCredits(a)) + SumOrZero(AvailableCredits(b))
  {
    if a == [] {
      assert a + b == b;
    } else {
      assert (a + b)[0] == a[0] && (a + b)[1..] == a[1..] + b;
      AvailableSumConcat(a[1..], b);
      AvailableCreditsUnfold(a);
      AvailableCreditsUnfold(a + b);
    }
  }

  /** A credit added at the end of the table: a bound one leaves the sum alone, an unused one adds its value. */
  lemma AvailableCreditsAppend(cs: seq<Credit>, c: Credit)
    ensures AvailableCredits(cs + [c]).None? <==> AvailableCredits(cs).None? && c.bookingId.Some?
    ensures SumOrZero(AvailableCredits(cs + [c]))
      == SumOrZero(AvailableCredits(cs)) + (if c.bookingId.None? then Value(c.kind) else 0)
  {
    AvailableSumConcat(cs, [c]);
    var all := cs + [c];
    if AvailableCredits(cs).None? && c.bookingId.Some? {
      assert forall x :: x in all ==> x in cs || x == c;
    } else if c.bookingId.None? {
      assert all[|cs|] == c;
    } else {
      var x :| x in cs && x.bookingId.None?;
      assert x in all;
    }
  }

  /** Claiming the unused credit at `i`, whose id no other row carries, takes its value out of the sum. */
  lemma AvailableAfterClaim(cs: seq<Credit>, i: nat, bookingId: nat, now: int)
    requires i < |cs| && cs[i].bookingId.None?
    requires forall j :: 0 <= j < |cs| && j != i ==> cs[j].id != cs[i].id
    ensures SumOrZero(AvailableCredits(Database.ClaimCredit(cs, cs[i].id, bookingId, now)))
      == SumOrZero(AvailableCredits(cs)) - Value(cs[i].kind)
  {
    var claimed := Database.ClaimCredit(cs, cs[i].id, bookingId, now);
    var bound := cs[i].(bookingId := Some(bookingId), updatedAt := now);
    assert claimed == cs[..i] + [bound] + cs[i + 1..];
    assert cs == cs[..i] + [cs[i]] + cs[i + 1..];
    AvailableSumConcat(cs[..i] + [bound], cs[i + 1..]);
    AvailableSumConcat(cs[..i] + [cs[i]], cs[i + 1..]);
    AvailableCreditsAppend(cs[..i], bound);
    AvailableCreditsAppend(cs[..i], cs[i]);
  }

  /** A row after `parseInt` of its columns: NULL use becomes 0. */
  datatype UsageRow = UsageRow(totalCreditsUsed: int, month: int, year: int)

  function ParseUsageRow(raw: RawUsageRow): UsageRow
  {
    UsageRow(SumOrZero(raw.totalCreditsUsed), raw.month, raw.year)
  }

  function ParseUsageRows(raws: seq<RawUsageRow>): (rows: seq<UsageRow>)
    ensures |rows| == |raws|
    ensures forall i :: 0 <= i < |raws| ==>
      && rows[i].totalCreditsUsed == (if raws[i].totalCreditsUsed.Some? then raws[i].totalCreditsUsed.value else 0)
      && rows[i].month == raws[i].month && rows[i].year == raws[i].year
  {
    if raws == [] then [] else [ParseUsageRow(raws[0])] + ParseUsageRows(raws[1..])
  }

  /** A row of the statistics returned to the client. */
  datatype UsageStat = UsageStat(totalCreditsUsed: int, month: int, year: int, percentageCreditsUsed: real)

  /** The percentage map: every row kept, in order, with its percentage added. */
  function WithPercentage(rows: seq<UsageRow>, percent: int -> real): (r: seq<UsageStat>)
    ensures |r| == |rows|
    ensures forall i :: 0 <= i < |rows| ==>
      && r[i].totalCreditsUsed == rows[i].totalCreditsUsed
      && r[i].month == rows[i].month
      && r[i].year == rows[i].year
      && r[i].percentageCreditsUsed == percent(rows[i].totalCreditsUsed)
  {
    if rows == [] then []
    else
      [UsageStat(rows[0].totalCreditsUsed, rows[0].month, rows[0].year, percent(rows[0].totalCreditsUsed))]
      + WithPercentage(rows[1..], percent)
  }

  /**
   * `totalCreditsQuery ? used / totalCreditsQuery * 100 : 0`: zero when the
   * sum is NULL or 0; a negative sum is truthy and gives the opposite sign.
   */
  function Percentage(used: int, available: Option<int>): (pct: real)
    ensures used == 0 ==> pct == 0.0
    ensures available.None? || available.value == 0 ==> pct == 0.0
    ensures available.Some? && available.value != 0 ==> pct * (available.value as real) == (used as real) * 100.0
    ensures used >= 0 && (available.Some? ==> available.value >= 0) ==> pct >= 0.0
    ensures used > 0 && available.Some? && available.value < 0 ==> pct < 0.0
  {
    if available.Some? && available.value != 0 then (used as real / available.value as real) * 100.0
    else 0.0
  }

  /** What `Percentage` gives each row of a report, over the rows' own totals. */
  lemma UsagePercentages(rows: seq<UsageRow>, available: Option<int>, r: seq<UsageStat>)
    requires |r| == |rows|
    requires forall i :: 0 <= i < |rows| ==>
      r[i].totalCreditsUsed == rows[i].totalCreditsUsed
      && r[i].percentageCreditsUsed == Percentage(rows[i].totalCreditsUsed, available)
    ensures (forall i :: 0 <= i < |rows| ==> rows[i].totalCreditsUsed >= 0) && (available.Some? ==> available.value >= 0) ==>
      forall i :: 0 <= i < |r| ==> r[i].percentageCreditsUsed >= 0.0
    ensures forall i :: 0 <= i < |r| && r[i].totalCreditsUsed == 0 ==> r[i].percentageCreditsUsed == 0.0
    ensures available.None? || available.value == 0 ==> forall i :: 0 <= i < |r| ==> r[i].percentageCreditsUsed == 0.0
  {
  }

  /**
   * The two `map`s of `getMonthlyCreditUsageStats` over the grouped rows:
   * each row parsed, then given its share of the available sum.
   */
  function StatsOfRows(raws: seq<RawUsageRow>, available: Option<int>): (r: seq<UsageStat>)
    ensures |r| == |raws|
    ensures forall i :: 0 <= i < |r| ==> r[i].month == raws[i].month && r[i].year == raws[i].year
    ensures forall i :: 0 <= i < |r| ==>
      && r[i].totalCreditsUsed == SumOrZero(raws[i].totalCreditsUsed)
      && r[i].percentageCreditsUsed == Percentage(r[i].totalCreditsUsed, available)
    ensures ((forall i :: 0 <= i < |raws| && raws[i].totalCreditsUsed.Some? ==> raws[i].totalCreditsUsed.value >= 0)
             && (available.Some? ==> available.value >= 0))
        ==> forall i :: 0 <= i < |r| ==> r[i].percentageCreditsUsed >= 0.0
    ensures forall i :: 0 <= i < |r| && r[i].totalCreditsUsed == 0 ==> r[i].percentageCreditsUsed == 0.0
    ensures available.None? || available.value == 0 ==> forall i :: 0 <= i < |r| ==> r[i].percentageCreditsUsed == 0.0
  {
    var rows := ParseUsageRows(raws);
    var r := WithPercentage(rows, (u: int) => Percentage(u, available));
    UsagePercentages(rows, available, r);
    r
  }

  /** `getMonthlyCreditUsageStats(patientId)`. */
  function MonthlyCreditUsageStats(bs: seq<Booking>, cs: seq<Credit>, patientId: string): (r: seq<UsageStat>)
    ensures |r| == |RawMonthlyUsage(bs, patientId, cs)|
    ensures forall i :: 0 <= i < |r| ==> 1 <= r[i].month <= 12
    ensures forall i :: 0 <= i < |r| ==>
      r[i].month == RawMonthlyUsage(bs, patientId, cs)[i].month && r[i].year == RawMonthlyUsage(bs, patientId, cs)[i].year
    ensures forall i :: 0 <= i < |r| ==>
      && r[i].totalCreditsUsed == GroupTotal(bs, patientId, cs, YearMonth(r[i].year, r[i].month))
      && r[i].percentageCreditsUsed == Percentage(r[i].totalCreditsUsed, AvailableCredits(cs))
    ensures NonNegativeKinds(cs) ==> forall i :: 0 <= i < |r| ==> r[i].percentageCreditsUsed >= 0.0
    ensures forall i :: 0 <= i < |r| && r[i].totalCreditsUsed == 0 ==> r[i].percentageCreditsUsed == 0.0
    ensures AvailableCredits(cs).None? || AvailableCredits(cs).value == 0 ==>
      forall i :: 0 <= i < |r| ==> r[i].percentageCreditsUsed == 0.0
  {
    UsageTotalsNonNegative(bs, patientId, cs);
    StatsOfRows(RawMonthlyUsage(bs, patientId, cs), AvailableCredits(cs))
  }
}
