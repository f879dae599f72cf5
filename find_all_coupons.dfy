/**
 * The find-all query: every stored coupon in table order, deleted ones
 * included.
 */
module FindAllCoupons {
  import opened Errors
  import opened Coupons
  import opened CouponMapper
  import opened Repository
  import CreateCoupon
  import DeleteCoupon
  import Expiration

  class FindAllCouponsUseCase {
    const repository: InMemoryCouponRepository

    constructor (repository: InMemoryCouponRepository)
      ensures this.repository == repository
    {
      this.repository := repository;
    }

    /** execute: every record, as a coupon, with none left out and none added. */
    function Execute(): (r: seq<CouponState>)
      reads repository
      ensures |r| == |repository.rows|
      ensures forall i | 0 <= i < |r| :: ToJpaEntity(r[i]) == repository.rows[i]
    {
      repository.FindAll()
    }
  }

  /** After a successful create the listing is the earlier listing with the new coupon at the end. */
  lemma {:induction false} CreateAddsToListing(rows: seq<CouponEntity>, cmd: CreateCoupon.CreateCouponCommand,
                                               id: Uuid, today: Expiration.Date, now: Timestamp)
    requires CreateCoupon.Outcome(rows, cmd, id, today, now).Ok?
    ensures DomainRows(CreateCoupon.RowsAfter(rows, cmd, id, today, now))
         == DomainRows(rows) + [CreateCoupon.Outcome(rows, cmd, id, today, now).value]
  {
    var s := CreateCoupon.Outcome(rows, cmd, id, today, now).value;
    ToDomainInvertsToJpaEntity(s);
    assert DomainRows(rows + [ToJpaEntity(s)]) == DomainRows(rows) + [s];
  }

  /**
   * Delete is soft: the listing keeps its length after a delete, and the
   * deleted coupon is still listed at its place, flagged deleted.
   */
  lemma {:induction false} DeletedCouponStillListed(rows: seq<CouponEntity>, couponCode: string,
                                                    now: Timestamp, k: nat)
    requires TableInvariant(rows) && k < |rows| && rows[k].code == DeleteCoupon.Key(couponCode) && !rows[k].deleted
    ensures var after := DeleteCoupon.Outcome(rows, couponCode, now).value;
      && |DomainRows(after)| == |DomainRows(rows)|
      && DomainRows(after)[k].id == rows[k].id
      && DomainRows(after)[k].deleted
      && DomainRows(after)[k].deletedAt == Some(now)
  {
    DeleteCoupon.DeleteStoredCoupon(rows, couponCode, now, k);
  }
}
