/**
 * The find-by-code query: upper-case the code and return the coupon stored
 * under it, deleted or not, or fail with "not found" naming the key.
 */
module FindCouponByCode {
  import opened Errors
  import opened Coupons
  import opened CouponMapper
  import opened Repository
  import Text

  class FindCouponByCodeUseCase {
    const repository: InMemoryCouponRepository

    constructor (repository: InMemoryCouponRepository)
      ensures this.repository == repository
    {
      this.repository := repository;
    }

    /** execute: a read-only lookup by the upper-cased code. */
    function Execute(code: string): (r: Result<CouponState>)
      reads repository
      ensures var key := Text.ToUpperAscii(code);
        && (r.Err? <==> !CodeTaken(repository.rows, key))
        && (r.Err? ==> r.error == CouponNotFound(key))
        && (r.Ok? ==> r.value.code.value == key && ToJpaEntity(r.value) in repository.rows)
    {
      var key := Text.ToUpperAscii(code);
      match LookupCode(repository.rows, key)
      case None => Err(CouponNotFound(key))
      case Some(e) =>
        ToJpaEntityInvertsToDomain(e);
        Ok(ToDomain(e))
    }
  }

  /**
   * A lower-case query finds the stored upper-case code, and returns its
   * record as stored: a deleted coupon is returned, not filtered out.
   */
  lemma {:induction false} LowerCaseFindsStoredCoupon(u: FindCouponByCodeUseCase, k: nat)
    requires TableInvariant(u.repository.rows) && k < |u.repository.rows|
    requires u.repository.rows[k].code == "ABC123"
    ensures u.Execute("abc123") == Ok(ToDomain(u.repository.rows[k]))
  {
    assert Text.ToUpperAscii("abc123") == "ABC123";
    UniqueCodeLookup(u.repository.rows, k);
  }
}
