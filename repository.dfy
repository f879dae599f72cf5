/**
 * The repository port (save, findById, findByCode, findAll, existsByCode)
 * realised as an in-memory table of persistence records kept in insertion
 * order. Like the coupons table it is keyed by id (save is an upsert by id)
 * and holds each code at most once (the unique constraint on the code
 * column, which refuses a write that would duplicate a code).
 */
module Repository {
  import opened Errors
  import opened Coupons
  import opened CouponMapper

  predicate UniqueIds(rows: seq<CouponEntity>)
  {
    forall i, j | 0 <= i < j < |rows| :: rows[i].id != rows[j].id
  }

  predicate UniqueCodes(rows: seq<CouponEntity>)
  {
    forall i, j | 0 <= i < j < |rows| :: rows[i].code != rows[j].code
  }

  /** The primary key and the unique code constraint of the table. */
  predicate TableInvariant(rows: seq<CouponEntity>)
  {
    UniqueIds(rows) && UniqueCodes(rows)
  }

  predicate IdTaken(rows: seq<CouponEntity>, id: Uuid)
  {
    exists i | 0 <= i < |rows| :: rows[i].id == id
  }

  predicate CodeTaken(rows: seq<CouponEntity>, code: string)
  {
    exists i | 0 <= i < |rows| :: rows[i].code == code
  }

  /** Writing e would put its code on a second row: the unique constraint refuses it. */
  predicate ConflictsWith(rows: seq<CouponEntity>, e: CouponEntity)
  {
    exists i | 0 <= i < |rows| :: rows[i].code == e.code && rows[i].id != e.id
  }

  /** The position of the row with the given id, if there is one. */
  function IndexOfId(rows: seq<CouponEntity>, id: Uuid): (r: Option<nat>)
    ensures r.Some? ==> r.value < |rows| && rows[r.value].id == id
    ensures r.Some? ==> forall j | 0 <= j < r.value :: rows[j].id != id
    ensures r.None? <==> !IdTaken(rows, id)
  {
    if rows == [] then None
    else if rows[0].id == id then Some(0)
    else
      match IndexOfId(rows[1..], id)
      case None => None
      case Some(i) => Some(i + 1)
  }

  /** The first row holding the given code, if there is one. */
  function LookupCode(rows: seq<CouponEntity>, code: string): (r: Option<CouponEntity>)
    ensures r.Some? ==> r.value in rows && r.value.code == code
    ensures r.None? <==> !CodeTaken(rows, code)
  {
    if rows == [] then None
    else if rows[0].code == code then Some(rows[0])
    else LookupCode(rows[1..], code)
  }

  /**
   * save's effect on the table: the row with e's id is replaced in place, or
   * e is appended. Every row with another id stays where it was, nothing but
   * e is added, and a lookup by e's id then finds e.
   */
  function Upsert(rows: seq<CouponEntity>, e: CouponEntity): (r: seq<CouponEntity>)
    ensures |r| == if IdTaken(rows, e.id) then |rows| else |rows| + 1
    ensures forall i | 0 <= i < |rows| && rows[i].id != e.id :: r[i] == rows[i]
    ensures forall i | |rows| <= i < |r| :: r[i] == e
    ensures IndexOfId(r, e.id).Some? && r[IndexOfId(r, e.id).value] == e
  {
    match IndexOfId(rows, e.id)
    case Some(i) =>
      FirstIndexOfId(rows[i := e], e.id, i);
      rows[i := e]
    case None =>
      FirstIndexOfId(rows + [e], e.id, |rows|);
      rows + [e]
  }

  /** The id's position is the first row holding it. */
  lemma FirstIndexOfId(rows: seq<CouponEntity>, id: Uuid, k: nat)
    requires k < |rows| && rows[k].id == id
    requires forall j | 0 <= j < k :: rows[j].id != id
    ensures IndexOfId(rows, id) == Some(k)
  {
    assert IdTaken(rows, id);
  }

  /** A write the unique constraint lets through keeps the table's keys unique. */
  lemma UpsertKeepsInvariant(rows: seq<CouponEntity>, e: CouponEntity)
    requires TableInvariant(rows) && !ConflictsWith(rows, e)
    ensures TableInvariant(Upsert(rows, e))
  {
    match IndexOfId(rows, e.id)
    case Some(k) =>
      var r := rows[k := e];
      forall i, j | 0 <= i < j < |r|
        ensures r[i].id != r[j].id && r[i].code != r[j].code
      {
        if i == k {
          assert rows[j].id != rows[k].id;
          assert rows[j].code != e.code;
        } else if j == k {
          assert rows[i].id != rows[k].id;
          assert rows[i].code != e.code;
        }
      }
    case None =>
      var r := rows + [e];
      forall i, j | 0 <= i < j < |r|
        ensures r[i].id != r[j].id && r[i].code != r[j].code
      {
        if j == |rows| {
          assert rows[i].code != e.code;
        }
      }
  }

  /**
   * After a write the constraint allows, the record is stored under its id
   * and its code, the table grows by one row exactly when the id is new,
   * and every row with another id is kept at its place.
   */
  lemma UpsertStoresRecord(rows: seq<CouponEntity>, e: CouponEntity)
    requires TableInvariant(rows) && !ConflictsWith(rows, e)
    ensures var r := Upsert(rows, e);
      && LookupCode(r, e.code) == Some(e)
      && (|r| == if IdTaken(rows, e.id) then |rows| else |rows| + 1)
      && (forall i | 0 <= i < |rows| && rows[i].id != e.id :: r[i] == rows[i])
  {
    UpsertKeepsInvariant(rows, e);
    var r := Upsert(rows, e);
    var k := if IdTaken(rows, e.id) then IndexOfId(rows, e.id).value else |rows|;
    assert r[k] == e;
    UniqueCodeLookup(r, k);
  }

  /** Appending a record whose id and code are both new keeps the table's keys unique. */
  lemma AppendFreshKeepsInvariant(rows: seq<CouponEntity>, e: CouponEntity)
    ensures TableInvariant(rows) && !IdTaken(rows, e.id) && !CodeTaken(rows, e.code) ==> TableInvariant(rows + [e])
  {
    if TableInvariant(rows) && !IdTaken(rows, e.id) && !CodeTaken(rows, e.code) {
      assert !ConflictsWith(rows, e);
      UpsertKeepsInvariant(rows, e);
    }
  }

  /** In a table with unique codes, looking up a row's code finds that row. */
  lemma UniqueCodeLookup(rows: seq<CouponEntity>, k: nat)
    requires UniqueCodes(rows) && k < |rows|
    ensures LookupCode(rows, rows[k].code) == Some(rows[k])
  {
    var r := LookupCode(rows, rows[k].code);
    var i :| 0 <= i < |rows| && rows[i] == r.value;
    assert i == k;
  }

  /** In a table with unique ids, a row's position is the position of its id. */
  lemma UniqueIdIndex(rows: seq<CouponEntity>, k: nat)
    requires UniqueIds(rows) && k < |rows|
    ensures IndexOfId(rows, rows[k].id) == Some(k)
  {
  }

  /** findAll's contents: every record, in table order, as a domain coupon. */
  function DomainRows(rows: seq<CouponEntity>): (r: seq<CouponState>)
    ensures |r| == |rows|
    ensures forall i | 0 <= i < |rows| :: ToJpaEntity(r[i]) == rows[i]
  {
    seq(|rows|, i requires 0 <= i < |rows| => ToDomain(rows[i]))
  }

  class InMemoryCouponRepository {
    var rows: seq<CouponEntity>

    ghost predicate Valid()
      reads this
    {
      TableInvariant(rows)
    }

    constructor ()
      ensures Valid() && rows == []
    {
      rows := [];
    }

    /**
     * save: writes the coupon's record (insert or update by id) and returns
     * the coupon as reloaded from it, or fails when another row already holds
     * the code.
     */
    method Save(coupon: Coupon) returns (r: Result<Coupon>)
      requires Valid()
      modifies this
      ensures Valid()
      ensures var e := ToJpaEntity(coupon.State());
        && (r.Err? <==> ConflictsWith(old(rows), e))
        && (r.Err? ==> r.error == CodeConflict(e.code) && rows == old(rows))
        && (r.Ok? ==> rows == Upsert(old(rows), e) && fresh(r.value)
                      && r.value.State() == coupon.State() && r.value.Equals(coupon))
    {
      var e := ToJpaEntity(coupon.State());
      if exists i | 0 <= i < |rows| :: rows[i].code == e.code && rows[i].id != e.id {
        return Err(CodeConflict(e.code));
      }
      UpsertKeepsInvariant(rows, e);
      rows := Upsert(rows, e);
      var saved := ToDomainCoupon(e);
      ToDomainInvertsToJpaEntity(coupon.State());
      return Ok(saved);
    }

    /** findById */
    function FindById(id: Uuid): (r: Option<CouponState>)
      reads this
      ensures r.None? <==> !IdTaken(rows, id)
      ensures r.Some? ==> r.value.id == id && ToJpaEntity(r.value) in rows
    {
      match IndexOfId(rows, id)
      case None => None
      case Some(i) => Some(ToDomain(rows[i]))
    }

    /** findByCode: the coupon reconstituted from the row holding exactly this code. */
    method FindByCode(code: string) returns (r: Option<Coupon>)
      ensures r.None? <==> !CodeTaken(rows, code)
      ensures r.Some? ==> fresh(r.value) && r.value.State() == ToDomain(LookupCode(rows, code).value)
    {
      var found := LookupCode(rows, code);
      if found.None? {
        return None;
      }
      var c := ToDomainCoupon(found.value);
      return Some(c);
    }

    /** findAll */
    function FindAll(): (r: seq<CouponState>)
      reads this
      ensures |r| == |rows|
      ensures forall i | 0 <= i < |rows| :: ToJpaEntity(r[i]) == rows[i]
    {
      DomainRows(rows)
    }

    /** existsByCode */
    function ExistsByCode(code: string): (b: bool)
      reads this
      ensures b <==> CodeTaken(rows, code)
    {
      LookupCode(rows, code).Some?
    }
  }
}
