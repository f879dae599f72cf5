/**
 * The Coupon aggregate. Its nine fields are read through getters; only
 * `deleted` and `deletedAt` ever change, and only through `Delete`, a one-shot
 * soft delete. The pure part (what `create` builds, what `delete` turns a
 * coupon into, when a coupon is expired or active) is stated on CouponState,
 * the value of the nine getters; the class Coupon is proved against it.
 */
module Coupons {
  import opened Errors
  import opened Text
  import opened Decimals
  import Codes
  import Discounts
  import Expiration

  /** A coupon identifier (a UUID). */
  type Uuid = nat

  /** A LocalDateTime, as a point on a time line. */
  type Timestamp = int

  /** The values of a coupon's nine getters. */
  datatype CouponState = CouponState(
    id: Uuid,
    code: Codes.CouponCode,
    description: string,
    discountValue: Discounts.DiscountValue,
    expirationDate: Expiration.ExpirationDate,
    published: bool,
    deleted: bool,
    deletedAt: Option<Timestamp>,
    createdAt: Timestamp)

  /** validateDescription: not null, and holding at least one character that is not white space. */
  function ValidDescription(description: Option<string>): (valid: bool)
    ensures valid <==> description.Some? && exists k | 0 <= k < |description.value| :: !IsWhitespace(description.value[k])
  {
    description.Some? && !IsBlank(description.value)
  }

  /**
   * Coupon.create, with UUID.randomUUID() passed in as id, LocalDate.now() as
   * today and LocalDateTime.now() as now. The description is checked first;
   * the value objects are then built in argument order (code, discount,
   * expiration), so the first of them that fails decides the error.
   */
  function Created(code: Option<string>, description: Option<string>, discountValue: Option<Decimal>,
                   expirationDate: Option<Expiration.Date>, published: bool,
                   id: Uuid, today: Expiration.Date, now: Timestamp): (r: Result<CouponState>)
    ensures r.Ok? ==> DeletionStamped(r.value) && IsActive(r.value, today)
    ensures r.Ok? ==> r.value.id == id && code.Some? && r.value.code.value == Codes.Sanitize(code.value)
  {
    if !ValidDescription(description) then
      Err(InvalidDescription)
    else
      match Codes.Of(code)
      case Err(e) => Err(e)
      case Ok(c) =>
        match Discounts.Of(discountValue)
        case Err(e) => Err(e)
        case Ok(d) =>
          match Expiration.Of(expirationDate, today)
          case Err(e) => Err(e)
          case Ok(x) => Ok(CouponState(id, c, Trim(description.value), d, x, published, false, None, now))
  }

  /**
   * Coupon.delete, with LocalDateTime.now() passed in as now: refused on a
   * deleted coupon, naming its code; otherwise the same coupon, deleted and
   * stamped with now, every other field kept.
   */
  function AfterDelete(s: CouponState, now: Timestamp): (r: Result<CouponState>)
    ensures r.Ok? <==> !s.deleted
    ensures r.Err? ==> r.error == CouponAlreadyDeleted(s.code.value)
    ensures r.Ok? ==> && r.value.deleted && r.value.deletedAt == Some(now)
                      && r.value.(deleted := s.deleted, deletedAt := s.deletedAt) == s
  {
    if s.deleted then Err(CouponAlreadyDeleted(s.code.value))
    else Ok(s.(deleted := true, deletedAt := Some(now)))
  }

  /** isExpired: the coupon's date would be refused today as a date in the past. */
  function IsExpired(s: CouponState, today: Expiration.Date): (expired: bool)
    ensures expired <==> Expiration.Of(Some(s.expirationDate.value), today).Err?
  {
    Expiration.IsExpired(s.expirationDate, today)
  }

  /** isActive: not deleted, and its date would still be accepted today. */
  function IsActive(s: CouponState, today: Expiration.Date): (active: bool)
    ensures active <==> !s.deleted && Expiration.Of(Some(s.expirationDate.value), today).Ok?
  {
    !s.deleted && !IsExpired(s, today)
  }

  /** The pairing of the two delete fields that create and delete maintain. */
  predicate DeletionStamped(s: CouponState)
  {
    s.deleted <==> s.deletedAt.Some?
  }

  /** equals: coupons are the same coupon when their ids are equal. */
  predicate SameCoupon(a: CouponState, b: CouponState)
  {
    a.id == b.id
  }

  /**
   * equals is an equivalence that looks at the id alone: a coupon equals
   * itself after a delete, and two coupons differing only in id differ.
   */
  lemma {:induction false} SameCouponIsById(a: CouponState, b: CouponState, c: CouponState, now: Timestamp)
    ensures SameCoupon(a, a)
    ensures SameCoupon(a, b) ==> SameCoupon(b, a)
    ensures SameCoupon(a, b) && SameCoupon(b, c) ==> SameCoupon(a, c)
    ensures AfterDelete(a, now).Ok? ==> SameCoupon(AfterDelete(a, now).value, a)
    ensures !SameCoupon(a, a.(id := a.id + 1))
    ensures a.id == b.id ==> SameCoupon(a, b)
  {
  }

  /** The order in which create reports the first invalid field. */
  lemma CreateChecksInOrder(code: Option<string>, description: Option<string>, discountValue: Option<Decimal>,
                            expirationDate: Option<Expiration.Date>, published: bool,
                            id: Uuid, today: Expiration.Date, now: Timestamp)
    ensures var r := Created(code, description, discountValue, expirationDate, published, id, today, now);
      && (!ValidDescription(description) ==> r == Err(InvalidDescription))
      && (ValidDescription(description) && Codes.Of(code).Err? ==> r == Err(Codes.Of(code).error))
      && (ValidDescription(description) && Codes.Of(code).Ok? && Discounts.Of(discountValue).Err? ==>
            r == Err(Discounts.Of(discountValue).error))
      && (ValidDescription(description) && Codes.Of(code).Ok? && Discounts.Of(discountValue).Ok?
          && Expiration.Of(expirationDate, today).Err?
          ==> r == Err(Expiration.Of(expirationDate, today).error))
      && (r.Ok? <==> ValidDescription(description) && Codes.Of(code).Ok? && Discounts.Of(discountValue).Ok? &&
                     Expiration.Of(expirationDate, today).Ok?)
  {
  }

  /**
   * What a successful create stores: the given id and published flag, the
   * sanitised six-character code, the trimmed description, the discount and
   * date exactly as given (both within their bounds), not deleted, and now
   * as the creation time.
   */
  lemma {:induction false} CreatedCoupon(code: Option<string>, description: Option<string>, discountValue: Option<Decimal>,
                                         expirationDate: Option<Expiration.Date>, published: bool,
                                         id: Uuid, today: Expiration.Date, now: Timestamp)
    requires Created(code, description, discountValue, expirationDate, published, id, today, now).Ok?
    ensures var s := Created(code, description, discountValue, expirationDate, published, id, today, now).value;
      && s.id == id && s.published == published && s.createdAt == now
      && s.code.value == Codes.Sanitize(code.value) && |s.code.value| == Codes.RequiredLength
      && s.description == Trim(description.value)
      && s.discountValue.value == discountValue.value && 2 * s.discountValue.value.unscaled >= Pow10(s.discountValue.value.scale)
      && s.expirationDate.value == expirationDate.value && today <= s.expirationDate.value
      && !s.deleted && s.deletedAt == None
  {
    Codes.OfOutcome(code);
  }

  /**
   * The stored description keeps every visible character of the given one:
   * a description holding a character above U+0020 that is not white space
   * is stored non-blank.
   */
  lemma {:induction false} CreatedDescriptionKeepsText(code: Option<string>, description: Option<string>,
                                                       discountValue: Option<Decimal>, expirationDate: Option<Expiration.Date>,
                                                       published: bool, id: Uuid, today: Expiration.Date, now: Timestamp, k: nat)
    requires Created(code, description, discountValue, expirationDate, published, id, today, now).Ok?
    requires k < |description.value| && !IsTrimmed(description.value[k]) && !IsWhitespace(description.value[k])
    ensures !IsBlank(Created(code, description, discountValue, expirationDate, published, id, today, now).value.description)
  {
    TrimKeepsVisible(description.value, k);
  }

  /**
   * As written, the blank check comes before the trim: a description made of
   * a control character is not blank, passes, and is stored trimmed to "".
   */
  lemma {:induction false} CreatedDescriptionCanBeEmpty(id: Uuid, today: Expiration.Date, now: Timestamp)
    ensures var r := Created(Some("ABC123"), Some("\U{1}"), Some(Decimal(10, 0)), Some(today), true, id, today, now);
      r.Ok? && r.value.description == ""
  {
    assert !IsWhitespace("\U{1}"[0]);
    assert Codes.AllCodeChars("ABC123");
    Codes.SanitizeKeepsCodeChars("ABC123");
    Codes.CodeCharsAreNotBlank("ABC123");
  }

  /**
   * delete succeeds exactly on a coupon not yet deleted; it sets deleted and
   * stamps deletedAt with now and changes nothing else; the coupon keeps its
   * identity; and a second delete fails with "already deleted", naming the code.
   */
  lemma DeleteIsOneShot(s: CouponState, now: Timestamp, later: Timestamp)
    ensures AfterDelete(s, now).Ok? <==> !s.deleted
    ensures s.deleted ==> AfterDelete(s, now) == Err(CouponAlreadyDeleted(s.code.value))
    ensures AfterDelete(s, now).Ok? ==>
      var d := AfterDelete(s, now).value;
      && d.deleted && d.deletedAt == Some(now)
      && d.(deleted := s.deleted, deletedAt := s.deletedAt) == s
      && SameCoupon(d, s)
      && AfterDelete(d, later) == Err(CouponAlreadyDeleted(s.code.value))
  {
  }

  /** Delete keeps "deleted exactly when deletedAt is set". */
  lemma DeleteKeepsStamp(s: CouponState, now: Timestamp)
    requires DeletionStamped(s)
    ensures AfterDelete(s, now).Ok? ==> DeletionStamped(AfterDelete(s, now).value)
  {
  }

  /**
   * The state a coupon reaches when delete is attempted at each of the given
   * times in turn, a failed attempt leaving it as it was.
   */
  function DeleteAttempts(s: CouponState, times: seq<Timestamp>): CouponState
    decreases |times|
  {
    if times == [] then s
    else
      var next := match AfterDelete(s, times[0]) case Ok(d) => d case Err(_) => s;
      DeleteAttempts(next, times[1..])
  }

  /**
   * Along any run of delete attempts, "deleted exactly when deletedAt is set"
   * holds throughout, and once deleted a coupon keeps its deletion time.
   */
  lemma {:induction false} DeleteAttemptsKeepStamp(s: CouponState, times: seq<Timestamp>)
    requires DeletionStamped(s)
    ensures DeletionStamped(DeleteAttempts(s, times))
    ensures s.deleted ==> DeleteAttempts(s, times) == s
    ensures !s.deleted && times != [] ==> DeleteAttempts(s, times).deletedAt == Some(times[0])
    decreases |times|
  {
    if times != [] {
      var next := match AfterDelete(s, times[0]) case Ok(d) => d case Err(_) => s;
      DeleteAttemptsKeepStamp(next, times[1..]);
    }
  }

  /** Every coupon made by create, then touched only by delete, keeps the stamp invariant. */
  lemma {:induction false} CreatedThenDeletedKeepsStamp(code: Option<string>, description: Option<string>,
                                                        discountValue: Option<Decimal>, expirationDate: Option<Expiration.Date>,
                                                        published: bool, id: Uuid, today: Expiration.Date, now: Timestamp,
                                                        times: seq<Timestamp>)
    requires Created(code, description, discountValue, expirationDate, published, id, today, now).Ok?
    ensures DeletionStamped(DeleteAttempts(Created(code, description, discountValue, expirationDate, published, id, today, now).value, times))
  {
    DeleteAttemptsKeepStamp(Created(code, description, discountValue, expirationDate, published, id, today, now).value, times);
  }

  /**
   * isActive: not deleted and not expired, both judged on the day asked. A
   * deleted coupon is never active again, and an inactive coupon stays
   * inactive on every later day.
   */
  lemma ActivityOverTime(s: CouponState, now: Timestamp, day: Expiration.Date, later: Expiration.Date)
    requires day <= later
    ensures IsActive(s, day) <==> !s.deleted && s.expirationDate.value >= day
    ensures AfterDelete(s, now).Ok? ==> !IsActive(AfterDelete(s, now).value, later)
    ensures !IsActive(s, day) ==> !IsActive(s, later)
  {
  }

  /**
   * The aggregate root. Seven fields are fixed at construction; deleted and
   * deletedAt change only through Delete.
   */
  class Coupon {
    const id: Uuid
    const code: Codes.CouponCode
    const description: string
    const discountValue: Discounts.DiscountValue
    const expirationDate: Expiration.ExpirationDate
    const published: bool
    var deleted: bool
    var deletedAt: Option<Timestamp>
    const createdAt: Timestamp

    /** The nine getters. */
    function State(): CouponState
      reads this
    {
      CouponState(id, code, description, discountValue, expirationDate, published, deleted, deletedAt, createdAt)
    }

    /** Coupon.reconstitute (and the private constructor): every field as given, no validation. */
    constructor Reconstitute(id: Uuid, code: Codes.CouponCode, description: string,
                             discountValue: Discounts.DiscountValue, expirationDate: Expiration.ExpirationDate,
                             published: bool, deleted: bool, deletedAt: Option<Timestamp>, createdAt: Timestamp)
      ensures State() == CouponState(id, code, description, discountValue, expirationDate,
                                     published, deleted, deletedAt, createdAt)
    {
      this.id := id;
      this.code := code;
      this.description := description;
      this.discountValue := discountValue;
      this.expirationDate := expirationDate;
      this.published := published;
      this.deleted := deleted;
      this.deletedAt := deletedAt;
      this.createdAt := createdAt;
    }

    /** Coupon.create: validates, then builds a new, non-deleted coupon. */
    static method Create(code: Option<string>, description: Option<string>, discountValue: Option<Decimal>,
                         expirationDate: Option<Expiration.Date>, published: bool,
                         id: Uuid, today: Expiration.Date, now: Timestamp) returns (r: Result<Coupon>)
      ensures var spec := Created(code, description, discountValue, expirationDate, published, id, today, now);
        && (spec.Err? ==> r.Err? && r.error == spec.error)
        && (spec.Ok? ==> r.Ok? && fresh(r.value) && r.value.State() == spec.value)
    {
      if !ValidDescription(description) {
        return Err(InvalidDescription);
      }
      var c := Codes.Of(code);
      if c.Err? {
        return Err(c.error);
      }
      var d := Discounts.Of(discountValue);
      if d.Err? {
        return Err(d.error);
      }
      var x := Expiration.Of(expirationDate, today);
      if x.Err? {
        return Err(x.error);
      }
      var coupon := new Coupon.Reconstitute(id, c.value, Trim(description.value), d.value, x.value,
                                            published, false, None, now);
      return Ok(coupon);
    }

    /** Coupon.delete: the one-shot soft delete. */
    method Delete(now: Timestamp) returns (r: Result<()>)
      modifies this
      ensures var spec := AfterDelete(old(State()), now);
        && (spec.Err? ==> r.Err? && r.error == spec.error && State() == old(State()))
        && (spec.Ok? ==> r.Ok? && State() == spec.value)
    {
      if deleted {
        return Err(CouponAlreadyDeleted(code.value));
      }
      deleted := true;
      deletedAt := Some(now);
      return Ok(());
    }

    /** isExpired, with LocalDate.now() passed in as today. */
    function IsExpiredOn(today: Expiration.Date): (expired: bool)
      reads this
      ensures expired <==> Expiration.Of(Some(expirationDate.value), today).Err?
    {
      IsExpired(State(), today)
    }

    /** isActive, with LocalDate.now() passed in as today. */
    function IsActiveOn(today: Expiration.Date): (active: bool)
      reads this
      ensures active <==> !deleted && Expiration.Of(Some(expirationDate.value), today).Ok?
    {
      IsActive(State(), today)
    }

    /** equals: the same object, or another one with the same id; the id alone decides. */
    function Equals(other: Coupon): (eq: bool)
      ensures eq <==> id == other.id
    {
      this == other || id == other.id
    }
  }

  /** Deleting twice through the aggregate: the second call fails and leaves deletedAt as the first set it. */
  method DeleteTwice(c: Coupon, first: Timestamp, second: Timestamp) returns (r1: Result<()>, r2: Result<()>)
    requires !c.deleted
    modifies c
    ensures r1.Ok? && r2 == Err(CouponAlreadyDeleted(c.code.value))
    ensures c.deleted && c.deletedAt == Some(first)
  {
    r1 := c.Delete(first);
    r2 := c.Delete(second);
  }
}
