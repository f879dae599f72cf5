/**
 * ExpirationDate: a value object holding a calendar date, here a day number.
 * `Of` refuses null and any date strictly before today (today is fine);
 * `Reconstitute` trusts any stored date; `IsExpired` is evaluated against the
 * day it is asked on, not the day the value was built.
 */
module Expiration {
  import opened Errors

  /** A calendar date as a day number: consecutive days differ by one. */
  type Date = int

  /** Equality is by the stored date: datatype equality. */
  datatype ExpirationDate = ExpirationDate(value: Date)

  /** ExpirationDate.of, with LocalDate.now() passed in as today. */
  function Of(value: Option<Date>, today: Date): (r: Result<ExpirationDate>)
    ensures r.Ok? <==> value.Some? && today <= value.value
    ensures r.Ok? ==> r.value.value == value.value
    ensures r.Err? ==> r.error == InvalidExpirationDate(if value.None? then DateRequired else DateInPast)
  {
    if value.None? then Err(InvalidExpirationDate(DateRequired))
    else if value.value < today then Err(InvalidExpirationDate(DateInPast))
    else Ok(ExpirationDate(value.value))
  }

  /** ExpirationDate.reconstitute: no validation at all; value() gives back the date unchanged. */
  function Reconstitute(value: Date): (e: ExpirationDate)
    ensures e.value == value
  {
    ExpirationDate(value)
  }

  /**
   * isExpired, with LocalDate.now() passed in as today: a date is expired
   * exactly when Of would refuse it today as a date in the past.
   */
  function IsExpired(e: ExpirationDate, today: Date): (expired: bool)
    ensures expired <==> Of(Some(e.value), today) == Err(InvalidExpirationDate(DateInPast))
  {
    e.value < today
  }

  /**
   * A date Of accepts on some day is not expired on that day, nor on any day
   * up to and including the date itself; it is expired on every later day.
   */
  lemma AcceptedDateNotExpiredYet(value: Date, today: Date, day: Date)
    requires Of(Some(value), today).Ok?
    ensures !IsExpired(Of(Some(value), today).value, today)
    ensures IsExpired(Of(Some(value), today).value, day) <==> value < day
  {
  }

  /** Once expired, a date stays expired on every later day. */
  lemma ExpiryIsPermanent(e: ExpirationDate, day: Date, later: Date)
    requires day <= later && IsExpired(e, day)
    ensures IsExpired(e, later)
  {
  }

  /** Reconstitute keeps a past date that Of refuses, and it reads as expired. */
  lemma ReconstituteSkipsValidation(value: Date, today: Date)
    requires value < today
    ensures Of(Some(value), today) == Err(InvalidExpirationDate(DateInPast))
    ensures Reconstitute(value).value == value && IsExpired(Reconstitute(value), today)
  {
  }
}
