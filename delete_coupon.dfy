/**
 * The delete-coupon use case: upper-case the given code (and nothing more),
 * load the coupon stored under it, soft-delete it, and write it back. The
 * record stays in the table, now flagged deleted and stamped with the time.
 */
module DeleteCoupon {
  import opened Errors
  import opened Coupons
  import opened CouponMapper
  import opened Repository
  import Codes
  import Text

  /**
   * The lookup key: String.toUpperCase of the code, with no sanitising. It
   * is already upper-case, and it sanitises as the given code does.
   */
  function Key(couponCode: string): (k: string)
    ensures |k| == |couponCode| && Text.ToUpperAscii(k) == k
    ensures Codes.Sanitize(k) == Codes.Sanitize(couponCode)
  {
    Text.ToUpperAsciiIdempotent(couponCode);
    Codes.SanitizeIgnoresCase(couponCode);
    Text.ToUpperAscii(couponCode)
  }

  /** Writing back a stored record with only its non-key columns changed never trips the code constraint. */
  lemma RewriteDoesNotConflict(rows: seq<CouponEntity>, code: string, e: CouponEntity)
    requires TableInvariant(rows) && LookupCode(rows, code).Some?
    requires e.id == LookupCode(rows, code).value.id && e.code == code
    ensures !ConflictsWith(rows, e)
  {
    forall i | 0 <= i < |rows| && rows[i].code == e.code
      ensures rows[i].id == e.id
    {
      UniqueCodeLookup(rows, i);
    }
  }

  /** The soft delete of a record: the record flagged deleted and stamped with now. */
  function Deleted(e: CouponEntity, now: Timestamp): CouponEntity
  {
    e.(deleted := true, deletedAt := Some(now))
  }

  /**
   * In a table with unique keys, writing back the record found under a code,
   * soft-deleted, changes that one row in place and keeps the keys unique.
   */
  lemma RewriteInPlace(rows: seq<CouponEntity>, code: string, now: Timestamp)
    requires LookupCode(rows, code).Some?
    ensures var w := Upsert(rows, Deleted(LookupCode(rows, code).value, now));
      TableInvariant(rows) ==>
        && TableInvariant(w) && |w| == |rows|
        && forall i | 0 <= i < |rows| :: w[i] == if rows[i].code == code then Deleted(rows[i], now) else rows[i]
  {
    if TableInvariant(rows) {
      var e := LookupCode(rows, code).value;
      var k :| 0 <= k < |rows| && rows[k] == e;
      UniqueIdIndex(rows, k);
      RewriteDoesNotConflict(rows, code, Deleted(e, now));
      UpsertKeepsInvariant(rows, Deleted(e, now));
      forall i | 0 <= i < |rows| && i != k
        ensures rows[i].code != code
      {
        UniqueCodeLookup(rows, i);
      }
    }
  }

  /**
   * What execute does to the table. An unknown key is "not found", naming
   * the key; a coupon already deleted is "already deleted", naming the key
   * (its code); otherwise, in a table with unique keys, exactly the row
   * holding the key is flagged deleted and stamped, in place, and the keys
   * stay unique.
   */
  function Outcome(rows: seq<CouponEntity>, couponCode: string, now: Timestamp): (r: Result<seq<CouponEntity>>)
    ensures !CodeTaken(rows, Key(couponCode)) ==> r == Err(CouponNotFound(Key(couponCode)))
    ensures CodeTaken(rows, Key(couponCode)) ==>
      (r.Err? <==> LookupCode(rows, Key(couponCode)).value.deleted)
    ensures CodeTaken(rows, Key(couponCode)) && r.Err? ==> r.error == CouponAlreadyDeleted(Key(couponCode))
    ensures r.Ok? && TableInvariant(rows) ==>
      && TableInvariant(r.value) && |r.value| == |rows|
      && forall i | 0 <= i < |rows| ::
           r.value[i] == if rows[i].code == Key(couponCode) then Deleted(rows[i], now) else rows[i]
  {
    match LookupCode(rows, Key(couponCode))
    case None => Err(CouponNotFound(Key(couponCode)))
    case Some(e) =>
      match AfterDelete(ToDomain(e), now)
      case Err(err) => Err(err)
      case Ok(s) =>
        RewriteInPlace(rows, Key(couponCode), now);
        Ok(Upsert(rows, ToJpaEntity(s)))
  }

  class DeleteCouponUseCase {
    const repository: InMemoryCouponRepository

    constructor (repository: InMemoryCouponRepository)
      ensures this.repository == repository
    {
      this.repository := repository;
    }

    /** execute, with LocalDateTime.now() passed in as now. */
    method Execute(couponCode: string, now: Timestamp) returns (r: Result<()>)
      requires repository.Valid()
      modifies repository
      ensures repository.Valid()
      ensures var spec := Outcome(old(repository.rows), couponCode, now);
        && (spec.Err? ==> r == Err(spec.error) && repository.rows == old(repository.rows))
        && (spec.Ok? ==> r == Ok(()) && repository.rows == spec.value)
    {
      var key := Key(couponCode);
      var found := repository.FindByCode(key);
      if found.None? {
        return Err(CouponNotFound(key));
      }
      var coupon := found.value;
      var deleted := coupon.Delete(now);
      if deleted.Err? {
        return Err(deleted.error);
      }
      RewriteDoesNotConflict(repository.rows, key, ToJpaEntity(coupon.State()));
      var _ := repository.Save(coupon);
      return Ok(());
    }
  }

  /** An unknown key is "not found", naming the upper-cased code. */
  lemma NotFound(rows: seq<CouponEntity>, couponCode: string, now: Timestamp)
    requires !CodeTaken(rows, Key(couponCode))
    ensures Outcome(rows, couponCode, now) == Err(CouponNotFound(Key(couponCode)))
  {
  }

  /**
   * On a stored coupon: when it is not deleted yet, exactly its row changes,
   * in place, to deleted with the time stamped, and the table keeps its keys
   * unique; when it is, the outcome is "already deleted" naming its code.
   */
  lemma DeleteStoredCoupon(rows: seq<CouponEntity>, couponCode: string, now: Timestamp, k: nat)
    requires TableInvariant(rows) && k < |rows| && rows[k].code == Key(couponCode)
    ensures !rows[k].deleted ==>
      && Outcome(rows, couponCode, now) == Ok(rows[k := rows[k].(deleted := true, deletedAt := Some(now))])
      && TableInvariant(Outcome(rows, couponCode, now).value)
    ensures rows[k].deleted ==> Outcome(rows, couponCode, now) == Err(CouponAlreadyDeleted(rows[k].code))
  {
    UniqueCodeLookup(rows, k);
    if !rows[k].deleted {
      var e := rows[k].(deleted := true, deletedAt := Some(now));
      assert ToJpaEntity(AfterDelete(ToDomain(rows[k]), now).value) == e;
      UniqueIdIndex(rows, k);
      RewriteDoesNotConflict(rows, Key(couponCode), e);
      UpsertKeepsInvariant(rows, e);
    }
  }

  /**
   * Deleting twice: the first call soft-deletes the coupon, the second
   * finds the same record and fails with "already deleted"; the stamp of
   * the first call stays.
   */
  lemma {:induction false} SecondDeleteFails(rows: seq<CouponEntity>, couponCode: string,
                                             first: Timestamp, second: Timestamp, k: nat)
    requires TableInvariant(rows) && k < |rows| && rows[k].code == Key(couponCode) && !rows[k].deleted
    ensures Outcome(rows, couponCode, first).Ok?
    ensures var after := Outcome(rows, couponCode, first).value;
      && after[k].deletedAt == Some(first)
      && Outcome(after, couponCode, second) == Err(CouponAlreadyDeleted(Key(couponCode)))
  {
    DeleteStoredCoupon(rows, couponCode, first, k);
    var after := Outcome(rows, couponCode, first).value;
    DeleteStoredCoupon(after, couponCode, second, k);
  }

  /**
   * The key is only upper-cased, never sanitised: in a table of sanitised
   * codes (as create stores them), "ab-c123" is looked up as "AB-C123" and
   * is not found, although create would have read it as "ABC123".
   */
  lemma {:induction false} KeyIsNotSanitised(rows: seq<CouponEntity>, now: Timestamp)
    requires forall i | 0 <= i < |rows| :: Codes.AllCodeChars(rows[i].code)
    ensures Outcome(rows, "ab-c123", now) == Err(CouponNotFound("AB-C123"))
  {
    assert Key("ab-c123") == "AB-C123";
    forall i | 0 <= i < |rows|
      ensures rows[i].code != "AB-C123"
    {
      if |rows[i].code| > 2 {
        assert Codes.IsCodeChar(rows[i].code[2]);
      }
    }
  }
}
