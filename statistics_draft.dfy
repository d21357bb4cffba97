/**
 * The older statistics of ex2.ts, `getStats` and `getCreditsUsedStats`, and
 * how they relate to the current ones: the counts agree on any table with
 * distinct ids, and the usage rows agree except where the sum of the
 * unused credits is 0 or NULL, where the older code divides by 1 instead of
 * reporting 0.
 */
module StatisticsDraft {
  import opened Wrappers
  import opened BookingModel
  import opened CreditModel
  import opened Statistics
  import Database

  /** The `where` of `getStats`: the provider's bookings that are canceled or rescheduled. */
  predicate Considered(b: Booking, provider: string)
  {
    b.provider == provider && (b.status == Canceled || b.status == Rescheduled)
  }

  /** `COUNT(DISTINCT CASE WHEN status = s THEN id END)` over the considered rows: their distinct ids. */
  function DistinctIds(bs: seq<Booking>, provider: string, status: string): (ids: set<nat>)
    ensures forall id :: id in ids ==> exists b :: b in bs && b.id == id
  {
    if bs == [] then {}
    else
      (if Considered(bs[0], provider) && bs[0].status == status then {bs[0].id} else {})
      + DistinctIds(bs[1..], provider, status)
  }

  /** `getStats(provider)`: `[canceled, rescheduled]`; `COUNT` is never NULL, so `|| 0` keeps the count. */
  function Stats(bs: seq<Booking>, provider: string): (r: seq<nat>)
    ensures |r| == 2
  {
    [|DistinctIds(bs, provider, Canceled)|, |DistinctIds(bs, provider, Rescheduled)|]
  }

  /** In a table in id order, every row after the first has a larger id. */
  lemma IdsAfterFirst(bs: seq<Booking>)
    requires Database.IncreasingIds(bs) && bs != []
    ensures forall b :: b in bs[1..] ==> b.id > bs[0].id
  {
    forall b | b in bs[1..] ensures b.id > bs[0].id {
      var k :| 0 <= k < |bs[1..]| && bs[1..][k] == b;
      assert bs[k + 1] == b;
    }
  }

  /** With distinct ids, counting distinct ids is counting rows. */
  lemma {:induction false} DistinctIdsCount(bs: seq<Booking>, provider: string, status: string)
    requires Database.IncreasingIds(bs)
    requires status == Canceled || status == Rescheduled
    ensures |DistinctIds(bs, provider, status)| == CountWithStatus(bs, provider, status)
  {
    if bs != [] {
      assert Database.IncreasingIds(bs[1..]);
      DistinctIdsCount(bs[1..], provider, status);
      var rest := DistinctIds(bs[1..], provider, status);
      IdsAfterFirst(bs);
      assert bs[0].id !in rest;
      var head: set<nat> := if Considered(bs[0], provider) && bs[0].status == status then {bs[0].id} else {};
      assert head !! rest;
      assert |head + rest| == |head| + |rest|;
    }
  }

  /** On a table with distinct ids, the older `getStats` and `getBookingStatusChangeStats` agree. */
  lemma StatsAgree(bs: seq<Booking>, provider: string)
    requires Database.IncreasingIds(bs)
    ensures Stats(bs, provider) == BookingStatusChangeStats(bs, provider)
  {
    DistinctIdsCount(bs, provider, Canceled);
    DistinctIdsCount(bs, provider, Rescheduled);
  }

  /**
   * `totalCreditsUsed / (totalCreditsQuery || 1) * 100`: when the sum is
   * NULL or 0 the divisor is 1; any other sum, negative included, is kept.
   */
  function PercentageDraft(used: int, available: Option<int>): (pct: real)
    ensures used == 0 ==> pct == 0.0
    ensures available.None? || available.value == 0 ==> pct == (used as real) * 100.0
    ensures available.Some? && available.value != 0 ==> pct == Percentage(used, available)
    ensures used >= 0 && (available.Some? ==> available.value >= 0) ==> pct >= 0.0
  {
    var divisor := if available.Some? && available.value != 0 then available.value else 1;
    (used as real / divisor as real) * 100.0
  }

  /**
   * `getCreditsUsedStats(patientId)`: the same grouped query as the current
   * code; `getDataValue("totalCreditsUsed") || 0` maps a NULL sum to 0 as
   * `ParseUsageRow` does.
   */
  function CreditsUsedStats(bs: seq<Booking>, cs: seq<Credit>, patientId: string): (r: seq<UsageStat>)
    ensures |r| == |RawMonthlyUsage(bs, patientId, cs)|
    ensures NonNegativeKinds(cs) ==> forall i :: 0 <= i < |r| ==> r[i].percentageCreditsUsed >= 0.0
    ensures forall i :: 0 <= i < |r| && r[i].totalCreditsUsed == 0 ==> r[i].percentageCreditsUsed == 0.0
  {
    UsageTotalsNonNegative(bs, patientId, cs);
    var available := AvailableCredits(cs);
    WithPercentage(ParseUsageRows(RawMonthlyUsage(bs, patientId, cs)), (u: int) => PercentageDraft(u, available))
  }

  /** Both reports are the parsed monthly rows, each with its own percentage. */
  lemma UsageRowsPaired(bs: seq<Booking>, cs: seq<Credit>, patientId: string)
    ensures var rows := ParseUsageRows(RawMonthlyUsage(bs, patientId, cs));
      && |CreditsUsedStats(bs, cs, patientId)| == |rows|
      && |MonthlyCreditUsageStats(bs, cs, patientId)| == |rows|
      && forall i :: 0 <= i < |rows| ==>
        && CreditsUsedStats(bs, cs, patientId)[i] == UsageStat(rows[i].totalCreditsUsed, rows[i].month, rows[i].year,
             PercentageDraft(rows[i].totalCreditsUsed, AvailableCredits(cs)))
        && MonthlyCreditUsageStats(bs, cs, patientId)[i] == UsageStat(rows[i].totalCreditsUsed, rows[i].month, rows[i].year,
             Percentage(rows[i].totalCreditsUsed, AvailableCredits(cs)))
  {
  }

  /**
   * The older and current usage statistics have the same rows; their
   * percentages agree when the sum of the unused credits is neither 0 nor
   * NULL, and otherwise the current one is 0 where the older one is the use
   * times 100.
   */
  lemma UsageVersionsCompared(bs: seq<Booking>, cs: seq<Credit>, patientId: string)
    ensures |CreditsUsedStats(bs, cs, patientId)| == |MonthlyCreditUsageStats(bs, cs, patientId)|
    ensures AvailableCredits(cs).Some? && AvailableCredits(cs).value != 0 ==>
      CreditsUsedStats(bs, cs, patientId) == MonthlyCreditUsageStats(bs, cs, patientId)
    ensures forall i :: 0 <= i < |CreditsUsedStats(bs, cs, patientId)| ==>
      var older := CreditsUsedStats(bs, cs, patientId)[i];
      var current := MonthlyCreditUsageStats(bs, cs, patientId)[i];
      && older.(percentageCreditsUsed := current.percentageCreditsUsed) == current
      && (AvailableCredits(cs).None? || AvailableCredits(cs).value == 0 ==>
            current.percentageCreditsUsed == 0.0
            && older.percentageCreditsUsed == (older.totalCreditsUsed as real) * 100.0)
  {
    var older := CreditsUsedStats(bs, cs, patientId);
    var current := MonthlyCreditUsageStats(bs, cs, patientId);
    UsageRowsPaired(bs, cs, patientId);
    if AvailableCredits(cs).Some? && AvailableCredits(cs).value != 0 {
      assert forall i :: 0 <= i < |older| ==> older[i] == current[i];
    }
  }
}
