/**
 * The persistence record of a coupon (the nine mapped columns of the coupons
 * table) and the mapper between it and the aggregate. Going to the record
 * unwraps the value objects; coming back goes only through the trusting
 * reconstitute constructors, so stored data that `of` would now refuse still
 * loads.
 */
module CouponMapper {
  import opened Errors
  import opened Decimals
  import opened Coupons
  import Codes
  import Discounts
  import Expiration

  datatype CouponEntity = CouponEntity(
    id: Uuid,
    code: string,
    description: string,
    discountValue: Decimal,
    expirationDate: Expiration.Date,
    published: bool,
    deleted: bool,
    deletedAt: Option<Timestamp>,
    createdAt: Timestamp)

  /**
   * CouponMapper.toJpaEntity: nothing is lost; each value object is what
   * reconstitute rebuilds from its column, and the other columns hold the
   * coupon's fields.
   */
  function ToJpaEntity(c: CouponState): (e: CouponEntity)
    ensures Codes.Reconstitute(e.code) == c.code
    ensures Discounts.Reconstitute(e.discountValue) == c.discountValue
    ensures Expiration.Reconstitute(e.expirationDate) == c.expirationDate
    ensures (e.id, e.description, e.published) == (c.id, c.description, c.published)
    ensures (e.deleted, e.deletedAt, e.createdAt) == (c.deleted, c.deletedAt, c.createdAt)
  {
    CouponEntity(c.id, c.code.value, c.description, c.discountValue.value, c.expirationDate.value,
                 c.published, c.deleted, c.deletedAt, c.createdAt)
  }

  /**
   * CouponMapper.toDomain, as the value of the coupon it reconstitutes:
   * nothing is lost, saving the coupon gives the record back.
   */
  function ToDomain(e: CouponEntity): (c: CouponState)
    ensures ToJpaEntity(c) == e
  {
    CouponState(e.id, Codes.Reconstitute(e.code), e.description, Discounts.Reconstitute(e.discountValue),
                Expiration.Reconstitute(e.expirationDate), e.published, e.deleted, e.deletedAt, e.createdAt)
  }

  /** CouponMapper.toDomain: a new Coupon object reconstituted from the record. */
  method ToDomainCoupon(e: CouponEntity) returns (c: Coupon)
    ensures fresh(c) && c.State() == ToDomain(e)
  {
    var s := ToDomain(e);
    c := new Coupon.Reconstitute(s.id, s.code, s.description, s.discountValue, s.expirationDate,
                                 s.published, s.deleted, s.deletedAt, s.createdAt);
  }

  /** Saving and loading a coupon gives back all nine of its fields. */
  lemma ToDomainInvertsToJpaEntity(c: CouponState)
    ensures ToDomain(ToJpaEntity(c)) == c
  {
  }

  /** Loading and saving a record gives back all nine of its columns, the delete pair included. */
  lemma ToJpaEntityInvertsToDomain(e: CouponEntity)
    ensures ToJpaEntity(ToDomain(e)) == e
  {
  }

  /** The record holds the inner values of the value objects unchanged: the code string, the decimal with its scale, the date. */
  lemma ToJpaEntityUnwraps(c: CouponState)
    ensures ToJpaEntity(c).code == c.code.value
    ensures ToJpaEntity(c).discountValue == c.discountValue.value
    ensures ToJpaEntity(c).expirationDate == c.expirationDate.value
    ensures ToJpaEntity(c).deleted == c.deleted && ToJpaEntity(c).deletedAt == c.deletedAt
  {
  }

  /**
   * A record whose date is past and whose discount is below the minimum (so
   * that the validating constructors refuse both) still loads, unchanged,
   * and loads as an expired coupon.
   */
  lemma ToDomainSkipsValidation(e: CouponEntity, today: Expiration.Date)
    requires e.expirationDate < today && 2 * e.discountValue.unscaled < Pow10(e.discountValue.scale)
    ensures Expiration.Of(Some(e.expirationDate), today).Err?
    ensures Discounts.Of(Some(e.discountValue)).Err?
    ensures ToDomain(e).expirationDate.value == e.expirationDate
    ensures ToDomain(e).discountValue.value == e.discountValue
    ensures IsExpired(ToDomain(e), today) && !IsActive(ToDomain(e), today)
  {
  }
}
