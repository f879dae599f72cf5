/**
 * The create-coupon use case: build the aggregate (which validates every
 * field), refuse a code that is already stored (looked up by the sanitised
 * code), and otherwise save the new coupon and return it as saved.
 */
module CreateCoupon {
  import opened Errors
  import opened Decimals
  import opened Coupons
  import opened CouponMapper
  import opened Repository
  import Codes
  import Expiration

  /** CreateCouponCommand; each field may be null except the flag. */
  datatype CreateCouponCommand = CreateCouponCommand(
    code: Option<string>,
    description: Option<string>,
    discountValue: Option<Decimal>,
    expirationDate: Option<Expiration.Date>,
    published: bool)

  function Build(cmd: CreateCouponCommand, id: Uuid, today: Expiration.Date, now: Timestamp): Result<CouponState>
  {
    Created(cmd.code, cmd.description, cmd.discountValue, cmd.expirationDate, cmd.published, id, today, now)
  }

  /**
   * What execute returns or throws, given the stored rows: a validation error
   * from create; else "already exists" when the sanitised code is stored;
   * else the new coupon.
   */
  function Outcome(rows: seq<CouponEntity>, cmd: CreateCouponCommand, id: Uuid,
                   today: Expiration.Date, now: Timestamp): (r: Result<CouponState>)
    ensures r.Ok? <==> Build(cmd, id, today, now).Ok? && !CodeTaken(rows, Codes.Sanitize(cmd.code.value))
    ensures r.Ok? ==> r.value == Build(cmd, id, today, now).value
    ensures r.Err? ==> r.error == if Build(cmd, id, today, now).Err? then Build(cmd, id, today, now).error
                                 else CouponCodeAlreadyExists(Codes.Sanitize(cmd.code.value))
  {
    match Build(cmd, id, today, now)
    case Err(e) => Err(e)
    case Ok(s) =>
      if CodeTaken(rows, s.code.value) then Err(CouponCodeAlreadyExists(s.code.value)) else Ok(s)
  }

  /**
   * The rows after execute: the earlier rows unchanged, followed by one new
   * record exactly when execute succeeds. With a fresh id the table's keys
   * stay unique.
   */
  function RowsAfter(rows: seq<CouponEntity>, cmd: CreateCouponCommand, id: Uuid,
                     today: Expiration.Date, now: Timestamp): (r: seq<CouponEntity>)
    ensures |r| == (if Outcome(rows, cmd, id, today, now).Ok? then |rows| + 1 else |rows|)
    ensures r[..|rows|] == rows
    ensures TableInvariant(rows) && !IdTaken(rows, id) ==> TableInvariant(r)
  {
    match Outcome(rows, cmd, id, today, now)
    case Ok(s) =>
      AppendFreshKeepsInvariant(rows, ToJpaEntity(s));
      rows + [ToJpaEntity(s)]
    case Err(_) => rows
  }

  class CreateCouponUseCase {
    const repository: InMemoryCouponRepository

    constructor (repository: InMemoryCouponRepository)
      ensures this.repository == repository
    {
      this.repository := repository;
    }

    /** execute, with the generated id, today and now passed in; the id is one no stored coupon has. */
    method Execute(cmd: CreateCouponCommand, id: Uuid, today: Expiration.Date, now: Timestamp)
      returns (r: Result<Coupon>)
      requires repository.Valid() && !IdTaken(repository.rows, id)
      modifies repository
      ensures repository.Valid()
      ensures repository.rows == RowsAfter(old(repository.rows), cmd, id, today, now)
      ensures var spec := Outcome(old(repository.rows), cmd, id, today, now);
        && (spec.Err? ==> r.Err? && r.error == spec.error)
        && (spec.Ok? ==> r.Ok? && fresh(r.value) && r.value.State() == spec.value)
    {
      var created := Coupon.Create(cmd.code, cmd.description, cmd.discountValue, cmd.expirationDate,
                                   cmd.published, id, today, now);
      if created.Err? {
        return Err(created.error);
      }
      var coupon := created.value;
      if repository.ExistsByCode(coupon.code.value) {
        return Err(CouponCodeAlreadyExists(coupon.code.value));
      }
      r := repository.Save(coupon);
    }
  }

  /**
   * A validation error wins: when a field is invalid, that error is the
   * outcome and nothing is stored, whatever the table holds (even a
   * coupon with the same code).
   */
  lemma ValidationErrorWins(rows: seq<CouponEntity>, cmd: CreateCouponCommand, id: Uuid,
                            today: Expiration.Date, now: Timestamp)
    requires Build(cmd, id, today, now).Err?
    ensures Outcome(rows, cmd, id, today, now) == Err(Build(cmd, id, today, now).error)
    ensures RowsAfter(rows, cmd, id, today, now) == rows
  {
  }

  /**
   * A valid command whose sanitised code is already stored fails with
   * "already exists" naming that code, and nothing is stored.
   */
  lemma DuplicateCodeRefused(rows: seq<CouponEntity>, cmd: CreateCouponCommand, id: Uuid,
                             today: Expiration.Date, now: Timestamp, k: nat)
    requires Build(cmd, id, today, now).Ok?
    requires k < |rows| && rows[k].code == Codes.Sanitize(cmd.code.value)
    ensures Outcome(rows, cmd, id, today, now) == Err(CouponCodeAlreadyExists(rows[k].code))
    ensures RowsAfter(rows, cmd, id, today, now) == rows
  {
    CreatedCoupon(cmd.code, cmd.description, cmd.discountValue, cmd.expirationDate, cmd.published, id, today, now);
  }

  /**
   * A valid command with a new code appends exactly one record, the new
   * coupon's, keeps every earlier row as it was, and keeps the table's
   * keys unique.
   */
  lemma CreateAppendsOne(rows: seq<CouponEntity>, cmd: CreateCouponCommand, id: Uuid,
                         today: Expiration.Date, now: Timestamp)
    requires TableInvariant(rows) && !IdTaken(rows, id)
    requires Outcome(rows, cmd, id, today, now).Ok?
    ensures var after := RowsAfter(rows, cmd, id, today, now);
      var s := Outcome(rows, cmd, id, today, now).value;
      && |after| == |rows| + 1 && after[..|rows|] == rows
      && after[|rows|] == ToJpaEntity(s)
      && LookupCode(after, s.code.value) == Some(ToJpaEntity(s))
      && TableInvariant(after)
  {
    var s := Outcome(rows, cmd, id, today, now).value;
    var e := ToJpaEntity(s);
    assert !ConflictsWith(rows, e);
    assert IndexOfId(rows, e.id) == None;
    UpsertStoresRecord(rows, e);
    UpsertKeepsInvariant(rows, e);
  }

  /**
   * Creating twice with the same sanitised code: the first call stores the
   * coupon, the second fails with "already exists" and stores nothing more.
   */
  lemma {:induction false} SecondCreateWithSameCodeFails(rows: seq<CouponEntity>, first: CreateCouponCommand,
                                                         second: CreateCouponCommand, id1: Uuid, id2: Uuid,
                                                         today: Expiration.Date, now: Timestamp, later: Timestamp)
    requires TableInvariant(rows) && !IdTaken(rows, id1)
    requires Outcome(rows, first, id1, today, now).Ok?
    requires Build(second, id2, today, later).Ok?
    requires Codes.Sanitize(second.code.value) == Codes.Sanitize(first.code.value)
    ensures var after := RowsAfter(rows, first, id1, today, now);
      && Outcome(after, second, id2, today, later) == Err(CouponCodeAlreadyExists(Codes.Sanitize(first.code.value)))
      && RowsAfter(after, second, id2, today, later) == after
  {
    CreatedCoupon(first.code, first.description, first.discountValue, first.expirationDate, first.published,
                  id1, today, now);
    var after := RowsAfter(rows, first, id1, today, now);
    assert after[|rows|].code == Codes.Sanitize(first.code.value);
    DuplicateCodeRefused(after, second, id2, today, later, |rows|);
  }

  /** "AB-C1.2!3" sanitises to the code "ABC123" already stored, so it is refused. */
  lemma {:induction false} PunctuatedDuplicateRefused(rows: seq<CouponEntity>, k: nat, id: Uuid,
                                                      today: Expiration.Date, now: Timestamp)
    requires k < |rows| && rows[k].code == "ABC123"
    ensures var cmd := CreateCouponCommand(Some("AB-C1.2!3"), Some("Spring sale"), Some(Decimal(1000, 2)),
                                           Some(today + 30), true);
      Outcome(rows, cmd, id, today, now) == Err(CouponCodeAlreadyExists("ABC123"))
  {
    Codes.SanitizeExamples();
    assert ValidDescription(Some("Spring sale")) by {
      assert !Text.IsWhitespace("Spring sale"[0]);
    }
    assert Discounts.Of(Some(Decimal(1000, 2))).Ok? by {
      Discounts.OfKeepsScale();
    }
    assert Expiration.Of(Some(today + 30), today).Ok?;
    var cmd := CreateCouponCommand(Some("AB-C1.2!3"), Some("Spring sale"), Some(Decimal(1000, 2)), Some(today + 30), true);
    assert Build(cmd, id, today, now).Ok?;
    assert CodeTaken(rows, "ABC123");
  }
}
