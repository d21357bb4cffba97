/**
 * The Credit record (src/models/Credit.ts). The `type` column holds a
 * string that the statistics sum as a number; the column is named `kind`
 * here because `type` is a keyword.
 */
module CreditModel {
  import opened Wrappers
  import opened Fields

  /** A row of the credits table. `bookingId` NULL means the credit is unused; `patientId` may be NULL. */
  datatype Credit = Credit(
    id: nat,
    kind: string,
    expirationDate: int,
    bookingId: Option<nat>,
    patientId: Option<string>,
    createdAt: int,
    updatedAt: int)

  /** The attributes `Credit.create` reads; `id` is the only one the table supplies. */
  datatype CreditInput = CreditInput(
    kind: Field<string>,
    expirationDate: Field<DateValue>,
    bookingId: Field<nat>,
    patientId: Field<string>)

  /** All validation errors of a creation: `type` and `expirationDate` are required, the latter after `loadedAt`. */
  function CreateErrors(input: CreditInput, loadedAt: int): seq<FieldError>
  {
    RequiredErrors("type", input.kind)
    + RequiredDateErrors("expirationDate", input.expirationDate, Some(loadedAt))
  }

  /** `Credit.create`: validate, then build the row stored under the next id. */
  function Build(input: CreditInput, id: nat, now: int, loadedAt: int): (r: Result<Credit, seq<FieldError>>)
    requires id > 0
    ensures r.Success? <==>
      && input.kind.Present?
      && input.expirationDate.Present? && input.expirationDate.value.Instant?
      && input.expirationDate.value.ms > loadedAt
    ensures r.Failure? ==> r.error != []
    ensures r.Success? ==>
      && r.value.id == id
      && r.value.kind == input.kind.value
      && r.value.expirationDate == input.expirationDate.value.ms
      && (r.value.bookingId.None? <==> !input.bookingId.Present?)
      && (r.value.patientId.None? <==> !input.patientId.Present?)
      && (input.bookingId.Present? ==> r.value.bookingId == Some(input.bookingId.value))
      && (input.patientId.Present? ==> r.value.patientId == Some(input.patientId.value))
      && r.value.createdAt == now && r.value.updatedAt == now
  {
    var errs := CreateErrors(input, loadedAt);
    if errs != [] then Failure(errs)
    else
      Success(Credit(
        id,
        input.kind.value,
        input.expirationDate.value.ms,
        Nullable(input.bookingId),
        Nullable(input.patientId),
        now,
        now))
  }

  /** A credit the allocation may take: it expires strictly after `now` and no booking holds it. */
  predicate Eligible(c: Credit, now: int)
  {
    c.expirationDate > now && c.bookingId.None?
  }

  predicate IsDigit(ch: char)
  {
    '0' <= ch <= '9'
  }

  /** The longest prefix of decimal digits. */
  function LeadingDigits(s: string): (r: string)
    ensures |r| <= |s| && r == s[..|r|]
    ensures forall i :: 0 <= i < |r| ==> IsDigit(r[i])
    ensures |r| < |s| ==> !IsDigit(s[|r|])
  {
    if |s| > 0 && IsDigit(s[0]) then [s[0]] + LeadingDigits(s[1..]) else []
  }

  /** The number a string of decimal digits denotes. */
  function DigitsValue(ds: string): nat
    requires forall i :: 0 <= i < |ds| ==> IsDigit(ds[i])
  {
    if ds == [] then 0
    else
      var d := ds[|ds| - 1];
      assert IsDigit(d);
      DigitsValue(ds[..|ds| - 1]) * 10 + (d as int - '0' as int)
  }

  /** The string without its leading spaces. */
  function SkipSpaces(s: string): (r: string)
    ensures |r| <= |s| && r == s[|s| - |r|..]
    ensures forall i :: 0 <= i < |s| - |r| ==> s[i] == ' '
    ensures r != [] ==> r[0] != ' '
  {
    if s != [] && s[0] == ' ' then SkipSpaces(s[1..]) else s
  }

  /**
   * What is read once leading spaces are skipped: an optional sign, then the
   * longest run of decimal digits; with no digits there it reads as 0.
   */
  function SignedValue(t: string): (r: int)
    ensures (forall i :: 0 <= i < |t| ==> !IsDigit(t[i])) ==> r == 0
    ensures r < 0 ==> t != [] && t[0] == '-'
  {
    if t != [] && (t[0] == '-' || t[0] == '+') then
      var ds := LeadingDigits(t[1..]);
      assert ds != [] ==> ds[0] == t[1];
      if t[0] == '-' then -(DigitsValue(ds) as int) else DigitsValue(ds)
    else
      DigitsValue(LeadingDigits(t))
  }

  /**
   * The number the database reads from a credit's `type` where a number is
   * needed, as in `SUM(type)`: leading spaces are skipped, then an optional
   * sign and the longest run of decimal digits; with no digits there the
   * string reads as 0.
   */
  function Value(kind: string): (r: int)
    ensures (forall i :: 0 <= i < |kind| ==> !IsDigit(kind[i])) ==> r == 0
    ensures r < 0 ==> '-' in kind
  {
    var t := SkipSpaces(kind);
    assert forall j :: 0 <= j < |t| ==> t[j] == kind[|kind| - |t| + j];
    SignedValue(t)
  }

  /** The decimal numeral of `n`, without leading zeros. */
  function Numeral(n: nat): (s: string)
    ensures s != [] && forall i :: 0 <= i < |s| ==> IsDigit(s[i])
  {
    var d := (('0' as int) + n % 10) as char;
    if n < 10 then [d] else Numeral(n / 10) + [d]
  }

  lemma {:induction false} NumeralDigitsValue(n: nat)
    ensures DigitsValue(Numeral(n)) == n
  {
    if n >= 10 {
      var s := Numeral(n);
      assert s[..|s| - 1] == Numeral(n / 10);
      NumeralDigitsValue(n / 10);
    }
  }

  /** A string of digits is its own longest digit prefix. */
  lemma AllDigitsLead(s: string)
    requires forall i :: 0 <= i < |s| ==> IsDigit(s[i])
    ensures LeadingDigits(s) == s
  {
  }

  /** A digit string, bare or behind a minus sign, reads as its digits' value. */
  lemma SignedDigits(s: string)
    requires s != [] && forall i :: 0 <= i < |s| ==> IsDigit(s[i])
    ensures SignedValue(s) == DigitsValue(s)
    ensures SignedValue("-" + s) == -(DigitsValue(s) as int)
  {
    AllDigitsLead(s);
    var neg := "-" + s;
    assert neg[0] == '-' && neg[1..] == s;
  }

  /** Reading a numeral back, unsigned, negative, or after a space, gives its number. */
  lemma ValueOfNumeral(n: nat)
    ensures Value(Numeral(n)) == n
    ensures Value("-" + Numeral(n)) == -(n as int)
    ensures Value(" " + Numeral(n)) == n
  {
    var s := Numeral(n);
    NumeralDigitsValue(n);
    SignedDigits(s);
    assert IsDigit(s[0]);
    assert SkipSpaces(s) == s;
    var neg := "-" + s;
    assert neg[0] == '-';
    assert SkipSpaces(neg) == neg;
    var spaced := " " + s;
    assert spaced[1..] == s;
    assert SkipSpaces(spaced) == s;
  }
}
