# Coupon domain: a verified model

This project models the core of a coupon service: the `Coupon` aggregate,
its three value objects (`CouponCode`, `DiscountValue` and
`ExpirationDate`), the mapper between the aggregate and its nine-column
persistence record, and the four use cases. The use cases create a coupon,
soft-delete it, find one by code, and list them all. The repository port
they use is an in-memory table with the database's own rules: the id is
the primary key, so `save` is an upsert by id, and the code column is
unique.

Modules, one per file:

| file | module | models |
|---|---|---|
| decimals.dfy | `Decimals` | the parts of `java.math.BigDecimal` the domain uses: an exact decimal (unscaled value and scale), `compareTo`, and `stripTrailingZeros` |
| errors.dfy | `Errors` | the domain exceptions as an error datatype, `Result`, and `Option` for Java `null` |
| text.dfy | `Text` | `String.isBlank`, `String.trim` and the ASCII part of `String.toUpperCase` |
| coupon_code.dfy | `Codes` | `CouponCode` |
| discount_value.dfy | `Discounts` | `DiscountValue` |
| expiration_date.dfy | `Expiration` | `ExpirationDate` |
| coupon.dfy | `Coupons` | `Coupon`: a value-level specification (`CouponState`, `Created`, `AfterDelete`) and the mutable class `Coupon` proved against it |
| coupon_mapper.dfy | `CouponMapper` | `CouponMapper` and the `CouponEntity` record |
| repository.dfy | `Repository` | the `CouponRepository` port as the class `InMemoryCouponRepository` |
| create_coupon.dfy, delete_coupon.dfy, find_coupon_by_code.dfy, find_all_coupons.dfy | one module each | the four use cases |

The environment is explicit:
- `LocalDate.now()` becomes a `today` parameter.
- `LocalDateTime.now()` becomes a `now` parameter.
- `UUID.randomUUID()` becomes an `id` parameter.
- Dates and timestamps are integers: a day number and a tick count.
- Exceptions become `Err` values of `DomainError`. A field's error records
  which check failed (for example `CodeLength(actual)`), not the message text.

The two use cases that change the table, create and delete, state their
effect twice:
- a pure function of the stored rows (`Outcome`, and `RowsAfter` for create);
- the imperative `Execute` method, whose `ensures` ties the returned value
  and the new table to that function.

The two read-only use cases, find-by-code and find-all, change nothing:
their `Execute` is itself a function of the repository's rows, and its
`ensures` states the result directly. They have no `Outcome`.

The lemmas state the properties of those functions.

The description check follows the code. `Coupon.create` checks `isBlank`
before it trims. `isBlank` skips only white space, while `trim` drops every
character at or below U+0020. Consider a description all of whose
characters are at or below U+0020, with at least one of them not white
space (U+0001, say). It passes the check and is stored as the empty string.
A rule that "the description may not be blank after trimming" would refuse
it. `Text.BlankVersusTrim` characterises exactly these strings, and
`Coupons.CreatedDescriptionCanBeEmpty` states the behaviour of create.

## Model

| member | source | states |
|---|---|---|
| Decimals.Value | src/main/java/br/com/stoom/coupon_domain/domain/model/DiscountValue.java:22 | The rational number a decimal denotes: its unscaled value divided by 10^scale |
| Decimals.ValueAtScale | src/main/java/br/com/stoom/coupon_domain/domain/model/DiscountValue.java:22 | Rescaling a decimal to any larger scale keeps the number it denotes |
| Decimals.Compare | src/main/java/br/com/stoom/coupon_domain/domain/model/DiscountValue.java:22 | `compareTo` is the sign of the difference of the two numbers denoted: 0 exactly when they are equal, -1 exactly when the first is smaller, 1 exactly when it is larger, whatever the two scales |
| Decimals.CompareAtScale | src/main/java/br/com/stoom/coupon_domain/domain/model/DiscountValue.java:22 | Comparing at any common scale that is at least both scales gives the same answer as comparing at the larger of the two, so scale never changes an ordering |
| Decimals.WideningKeepsValue | src/main/java/br/com/stoom/coupon_domain/domain/model/DiscountValue.java:42 | Appending k zeros to the unscaled value (10.0 to 10.00) gives a number equal under `compareTo` |
| Decimals.NumericallyEqualSymmetric | src/main/java/br/com/stoom/coupon_domain/domain/model/DiscountValue.java:42 | `compareTo(...) == 0` is symmetric |
| Decimals.NumericallyEqualTransitive | src/main/java/br/com/stoom/coupon_domain/domain/model/DiscountValue.java:42 | `compareTo(...) == 0` is transitive across different scales |
| Decimals.NumericallyEqualIsEquivalence | src/main/java/br/com/stoom/coupon_domain/domain/model/DiscountValue.java:38-43 | `compareTo(...) == 0` is reflexive, symmetric and transitive, so `equals` is an equivalence |
| Decimals.StripTrailingZeros | src/main/java/br/com/stoom/coupon_domain/domain/model/DiscountValue.java:47 | The result equals the input numerically and has no trailing zero left to strip |
| Decimals.CanonicalFormIsUnique | src/main/java/br/com/stoom/coupon_domain/domain/model/DiscountValue.java:47 | Two numerically equal decimals without trailing zeros are the same decimal |
| Decimals.EqualNumbersStripAlike | src/main/java/br/com/stoom/coupon_domain/domain/model/DiscountValue.java:45-48 | Numerically equal decimals strip to the identical decimal |
| Text.IsBlank | src/main/java/br/com/stoom/coupon_domain/domain/model/Coupon.java:135 | `isBlank`: every character is white space in the sense of `Character.isWhitespace`; the empty string is blank |
| Text.TrimStart | src/main/java/br/com/stoom/coupon_domain/domain/model/Coupon.java:45 | Only characters at or below U+0020 are dropped from the front, and the result is a suffix whose first character is above U+0020 |
| Text.TrimEnd | src/main/java/br/com/stoom/coupon_domain/domain/model/Coupon.java:45 | The mirror of TrimStart at the back |
| Text.Trim | src/main/java/br/com/stoom/coupon_domain/domain/model/Coupon.java:45 | The result is empty or starts and ends with a character above U+0020 |
| Text.TrimKeepsVisible | src/main/java/br/com/stoom/coupon_domain/domain/model/Coupon.java:45 | `trim` keeps every character above U+0020 |
| Text.TrimEmptyIff | src/main/java/br/com/stoom/coupon_domain/domain/model/Coupon.java:45 | `trim` yields "" exactly when every character is at or below U+0020 |
| Text.TrimIdempotent | src/main/java/br/com/stoom/coupon_domain/domain/model/Coupon.java:45 | Trimming twice is trimming once |
| Text.BlankVersusTrim | src/main/java/br/com/stoom/coupon_domain/domain/model/Coupon.java:40-45 | A string passes the `isBlank` check yet trims to "" exactly when all its characters are at or below U+0020 and one of them is not white space |
| Text.ControlCharTrimsAway | src/main/java/br/com/stoom/coupon_domain/domain/model/Coupon.java:40-45 | U+0001 is not blank, so it passes the check, yet `trim` removes it |
| Text.EnQuadSurvivesTrim | src/main/java/br/com/stoom/coupon_domain/domain/model/Coupon.java:40-45 | U+2000 is blank, so the check refuses it, yet `trim` would keep it |
| Text.ToUpperAscii | src/main/java/br/com/stoom/coupon_domain/domain/model/CouponCode.java:23 | Upper-casing keeps the length |
| Text.ToUpperAsciiIdempotent | src/main/java/br/com/stoom/coupon_domain/application/usecase/DeleteCouponUseCaseImpl.java:22 | Upper-casing twice is upper-casing once |
| Text.ToUpperAsciiKeepsBlankness | src/main/java/br/com/stoom/coupon_domain/domain/model/CouponCode.java:19-23 | A string is blank exactly when its upper-cased form is |
| Codes.StripNonAlphanumeric | src/main/java/br/com/stoom/coupon_domain/domain/model/CouponCode.java:23 | Removing `[^a-zA-Z0-9]` leaves only ASCII letters and digits and never lengthens the string |
| Codes.Sanitize | src/main/java/br/com/stoom/coupon_domain/domain/model/CouponCode.java:23 | The sanitised code holds only A-Z and 0-9 and is no longer than the input |
| Codes.Of | src/main/java/br/com/stoom/coupon_domain/domain/model/CouponCode.java:18-33 | An accepted code is exactly six characters from A-Z and 0-9; every refusal is an invalid-code error |
| Codes.OfOutcome | src/main/java/br/com/stoom/coupon_domain/domain/model/CouponCode.java:18-33 | Null or blank input is "required". Otherwise a sanitised length other than 6 is refused and names that length. Otherwise the sanitised code is accepted |
| Codes.StripConcat | src/main/java/br/com/stoom/coupon_domain/domain/model/CouponCode.java:23 | Stripping distributes over concatenation |
| Codes.SanitizeConcat | src/main/java/br/com/stoom/coupon_domain/domain/model/CouponCode.java:23 | Sanitising distributes over concatenation |
| Codes.StripKeepsAlphanumeric | src/main/java/br/com/stoom/coupon_domain/domain/model/CouponCode.java:23 | A string of ASCII letters and digits is left as it is by stripping |
| Codes.SanitizeKeepsCodeChars | src/main/java/br/com/stoom/coupon_domain/domain/model/CouponCode.java:23 | A string of A-Z and 0-9 is its own sanitised form |
| Codes.SanitizeIdempotent | src/main/java/br/com/stoom/coupon_domain/domain/model/CouponCode.java:23 | Sanitising twice is sanitising once |
| Codes.StripCommutesWithUpper | src/main/java/br/com/stoom/coupon_domain/domain/model/CouponCode.java:23 | Stripping and upper-casing can be done in either order |
| Codes.SanitizeIgnoresCase | src/main/java/br/com/stoom/coupon_domain/domain/model/CouponCode.java:23 | Upper-casing the input first does not change its sanitised form |
| Codes.CodeCharsAreNotBlank | src/main/java/br/com/stoom/coupon_domain/domain/model/CouponCode.java:19 | A non-empty string of A-Z and 0-9 is not blank |
| Codes.OfIdempotent | src/main/java/br/com/stoom/coupon_domain/domain/model/CouponCode.java:18-33 | Validating an accepted code's value again accepts it unchanged |
| Codes.OfIgnoresCase | src/main/java/br/com/stoom/coupon_domain/domain/model/CouponCode.java:18-33 | A code and its upper-cased spelling have the same outcome, error or value |
| Codes.LowerAndUpperCodesAreEqual | src/main/java/br/com/stoom/coupon_domain/domain/model/CouponCode.java:23 | "abc123" and "ABC123" both yield the code "ABC123" |
| Codes.SanitizeExamples | src/main/java/br/com/stoom/coupon_domain/domain/model/CouponCode.java:18-33 | "AB-C1.23" sanitises to "ABC123", and `of` accepts "AB-C1.2!3" as the code "ABC123" |
| Codes.SpecialsOnlyFailLengthCheck | src/main/java/br/com/stoom/coupon_domain/domain/model/CouponCode.java:19-30 | "!@#$%^" is not blank, so it passes the "required" check; it is refused for sanitised length 0 |
| Codes.ReconstituteSkipsValidation | src/main/java/br/com/stoom/coupon_domain/domain/model/CouponCode.java:35-37 | `reconstitute` keeps a value `of` refuses (a four-character code) |
| Codes.Reconstitute | src/main/java/br/com/stoom/coupon_domain/domain/model/CouponCode.java:35-37 | Wraps the given string unchanged, without sanitising or the length check |
| Discounts.AtLeastHalf | src/main/java/br/com/stoom/coupon_domain/domain/model/DiscountValue.java:22 | A decimal is at least 0.5 under `compareTo` exactly when the number it denotes is at least 0.5, that is when twice its unscaled value reaches 10^scale |
| Discounts.Of | src/main/java/br/com/stoom/coupon_domain/domain/model/DiscountValue.java:18-28 | A discount is accepted if and only if it is present and denotes a number of at least 0.5. It is then kept exactly as given, scale included. Every refusal is an invalid-discount error |
| Discounts.OfRefusesNull | src/main/java/br/com/stoom/coupon_domain/domain/model/DiscountValue.java:19-26 | Null is "required"; every other refusal is "below the minimum" and carries the given value |
| Discounts.Boundary | src/main/java/br/com/stoom/coupon_domain/domain/model/DiscountValue.java:22 | 0.5 and 0.50 are accepted. 0.49, 0, -1.0 and 0.4999999999999999999 are refused, by exact comparison |
| Discounts.OfKeepsScale | src/main/java/br/com/stoom/coupon_domain/domain/model/DiscountValue.java:27 | 10.00 is stored as 10.00, not normalised |
| Discounts.ReconstituteSkipsValidation | src/main/java/br/com/stoom/coupon_domain/domain/model/DiscountValue.java:30-32 | `reconstitute` keeps any decimal, including 0.1, which `of` refuses |
| Discounts.Reconstitute | src/main/java/br/com/stoom/coupon_domain/domain/model/DiscountValue.java:30-32 | Wraps the given decimal unchanged, without the minimum check |
| Discounts.Equals | src/main/java/br/com/stoom/coupon_domain/domain/model/DiscountValue.java:38-43 | True exactly when the two discounts denote the same number, whatever their scales |
| Discounts.HashKey | src/main/java/br/com/stoom/coupon_domain/domain/model/DiscountValue.java:45-48 | The decimal `hashCode` hashes denotes the discount's number and has no trailing zero, so it is the same for every scale of that number |
| Discounts.EqualsIgnoresScale | src/main/java/br/com/stoom/coupon_domain/domain/model/DiscountValue.java:38-43 | `equals` holds exactly when the two numbers denoted are equal, so it is an equivalence, and it holds between 10.0 and 10.00 although those are different decimals |
| Discounts.HashConsistentWithEquals | src/main/java/br/com/stoom/coupon_domain/domain/model/DiscountValue.java:45-48 | Equal discounts hash the same decimal |
| Expiration.Of | src/main/java/br/com/stoom/coupon_domain/domain/model/ExpirationDate.java:16-24 | A date is accepted exactly when it is present and not before today, and is kept as given. Null is "required"; a past date is "in the past" |
| Expiration.AcceptedDateNotExpiredYet | src/main/java/br/com/stoom/coupon_domain/domain/model/ExpirationDate.java:16-36 | An accepted date is not expired on the day it was accepted. It is expired on a later day exactly when it lies before that day |
| Expiration.ExpiryIsPermanent | src/main/java/br/com/stoom/coupon_domain/domain/model/ExpirationDate.java:34-36 | Once expired, a date stays expired on every later day |
| Expiration.ReconstituteSkipsValidation | src/main/java/br/com/stoom/coupon_domain/domain/model/ExpirationDate.java:26-28 | `reconstitute` keeps a past date that `of` refuses, and that date reads as expired |
| Expiration.Reconstitute | src/main/java/br/com/stoom/coupon_domain/domain/model/ExpirationDate.java:26-28 | Wraps the given date unchanged, without the past-date check |
| Expiration.IsExpired | src/main/java/br/com/stoom/coupon_domain/domain/model/ExpirationDate.java:34-36 | A date is expired today exactly when `of` would refuse it today as lying in the past |
| Coupons.Created | src/main/java/br/com/stoom/coupon_domain/domain/model/Coupon.java:38-53 | A created coupon is active on the day of creation and is undeleted with no deletion time |
| Coupons.CreateChecksInOrder | src/main/java/br/com/stoom/coupon_domain/domain/model/Coupon.java:38-53 | The first failing check decides the error: description, then code, then discount, then date. Create succeeds if and only if all four pass |
| Coupons.CreatedCoupon | src/main/java/br/com/stoom/coupon_domain/domain/model/Coupon.java:38-53 | Every stored field of a created coupon: the given id and flag, the sanitised six-character code, the trimmed description, discount and date as given and within bounds, not deleted, and `now` as creation time |
| Coupons.CreatedDescriptionKeepsText | src/main/java/br/com/stoom/coupon_domain/domain/model/Coupon.java:45 | A description with a visible character is stored non-blank |
| Coupons.CreatedDescriptionCanBeEmpty | src/main/java/br/com/stoom/coupon_domain/domain/model/Coupon.java:40-45 | A description of one control character is accepted and stored as "" |
| Coupons.DeleteIsOneShot | src/main/java/br/com/stoom/coupon_domain/domain/model/Coupon.java:63-71 | Delete succeeds exactly on an undeleted coupon. It sets only the two delete fields, stamping `now`, and keeps the identity. A second delete fails with "already deleted" naming the code |
| Coupons.DeleteKeepsStamp | src/main/java/br/com/stoom/coupon_domain/domain/model/Coupon.java:63-71 | Delete keeps "deleted exactly when deletedAt is set" |
| Coupons.DeleteAttemptsKeepStamp | src/main/java/br/com/stoom/coupon_domain/domain/model/Coupon.java:63-71 | Along any run of delete attempts, the stamp invariant holds. An already deleted coupon is left unchanged, and otherwise the first attempt's time stays |
| Coupons.CreatedThenDeletedKeepsStamp | src/main/java/br/com/stoom/coupon_domain/domain/model/Coupon.java:38-71 | Every coupon that create makes and that only delete touches afterwards satisfies the stamp invariant |
| Coupons.ActivityOverTime | src/main/java/br/com/stoom/coupon_domain/domain/model/Coupon.java:73-79 | A coupon is active exactly when it is undeleted and its date is not before today. A deleted coupon is never active, and inactivity persists on later days |
| Coupons.ValidDescription | src/main/java/br/com/stoom/coupon_domain/domain/model/Coupon.java:134-138 | A description is valid exactly when it is present and has a character that is not white space |
| Coupons.AfterDelete | src/main/java/br/com/stoom/coupon_domain/domain/model/Coupon.java:63-71 | Succeeds exactly on an undeleted coupon, then sets `deleted` and stamps `now` and changes no other field; on a deleted coupon it fails with "already deleted" naming the code |
| Coupons.IsExpired | src/main/java/br/com/stoom/coupon_domain/domain/model/Coupon.java:73-75 | A coupon is expired today exactly when its date would be refused today by `ExpirationDate.of` |
| Coupons.IsActive | src/main/java/br/com/stoom/coupon_domain/domain/model/Coupon.java:77-79 | A coupon is active exactly when it is not deleted and its date would be accepted today by `ExpirationDate.of` |
| Coupons.SameCoupon | src/main/java/br/com/stoom/coupon_domain/domain/model/Coupon.java:117-122 | `equals` on coupons: the two ids are equal |
| Coupons.SameCouponIsById | src/main/java/br/com/stoom/coupon_domain/domain/model/Coupon.java:117-122 | `equals` is an equivalence that looks at the id only: a coupon equals itself after delete, and two coupons differing only in id are unequal |
| Coupons.Coupon.Reconstitute | src/main/java/br/com/stoom/coupon_domain/domain/model/Coupon.java:55-61 | The new object holds exactly the nine given fields |
| Coupons.Coupon.Create | src/main/java/br/com/stoom/coupon_domain/domain/model/Coupon.java:38-53 | Returns the error `Created` gives, or a fresh object whose state is the coupon `Created` describes |
| Coupons.Coupon.Delete | src/main/java/br/com/stoom/coupon_domain/domain/model/Coupon.java:63-71 | On an already deleted coupon it fails and changes nothing; otherwise the object's new state is `AfterDelete`'s |
| Coupons.Coupon.IsExpiredOn | src/main/java/br/com/stoom/coupon_domain/domain/model/Coupon.java:73-75 | The object is expired today exactly when its date would be refused today by `ExpirationDate.of` |
| Coupons.Coupon.IsActiveOn | src/main/java/br/com/stoom/coupon_domain/domain/model/Coupon.java:77-79 | The object is active exactly when it is not deleted and its date would be accepted today by `ExpirationDate.of` |
| Coupons.Coupon.Equals | src/main/java/br/com/stoom/coupon_domain/domain/model/Coupon.java:117-122 | Two coupon objects are equal exactly when their ids are |
| Coupons.DeleteTwice | src/main/java/br/com/stoom/coupon_domain/domain/model/Coupon.java:63-71 | On one object, a first delete succeeds, a second fails with "already deleted", and the first time stays stamped |
| CouponMapper.ToJpaEntity | src/main/java/br/com/stoom/coupon_domain/adapter/out/persistence/CouponMapper.java:13-25 | The record's code, discount and date reconstitute to the coupon's value objects, and the other six columns are the coupon's fields |
| CouponMapper.ToDomain | src/main/java/br/com/stoom/coupon_domain/adapter/out/persistence/CouponMapper.java:27-39 | The coupon loaded from a record maps back to exactly that record |
| CouponMapper.ToDomainCoupon | src/main/java/br/com/stoom/coupon_domain/adapter/out/persistence/CouponMapper.java:27-39 | Builds a fresh coupon whose state is the record's reconstitution |
| CouponMapper.ToDomainInvertsToJpaEntity | src/main/java/br/com/stoom/coupon_domain/adapter/out/persistence/CouponMapper.java:13-39 | Mapping a coupon to its record and back gives the same coupon |
| CouponMapper.ToJpaEntityInvertsToDomain | src/main/java/br/com/stoom/coupon_domain/adapter/out/persistence/CouponMapper.java:13-39 | Mapping a record to a coupon and back gives the same record, the delete pair included |
| CouponMapper.ToJpaEntityUnwraps | src/main/java/br/com/stoom/coupon_domain/adapter/out/persistence/CouponMapper.java:13-25 | The record holds the value objects' inner values unchanged, with the decimal's scale kept |
| CouponMapper.ToDomainSkipsValidation | src/main/java/br/com/stoom/coupon_domain/adapter/out/persistence/CouponMapper.java:27-39 | A record with a past date and a discount below 0.5 still loads unchanged, and it loads as expired and inactive |
| Repository.IndexOfId | src/main/java/br/com/stoom/coupon_domain/adapter/out/persistence/CouponAdapter.java:27-31 | Finds a position holding the id, or reports none exactly when no row has it |
| Repository.LookupCode | src/main/java/br/com/stoom/coupon_domain/adapter/out/persistence/CouponAdapter.java:33-37 | Finds a stored record with exactly that code, or reports none exactly when no row has it |
| Repository.FirstIndexOfId | src/main/java/br/com/stoom/coupon_domain/adapter/out/persistence/CouponAdapter.java:27-31 | A row holding the id with no earlier such row is the position `findById` finds |
| Repository.Upsert | src/main/java/br/com/stoom/coupon_domain/adapter/out/persistence/CouponAdapter.java:20-25 | `save` as the database runs it: the table grows by one row exactly when the id is new, rows with other ids stay in place, a new record goes at the end, and the record is then found by its id |
| Repository.AppendFreshKeepsInvariant | src/main/java/br/com/stoom/coupon_domain/adapter/out/persistence/CouponEntity.java:19-24 | Appending a record with a new id and a new code keeps ids and codes unique |
| Repository.TableInvariant | src/main/java/br/com/stoom/coupon_domain/adapter/out/persistence/CouponEntity.java:19-24 | The table's two keys: no two rows share an id (the primary key), and no two rows share a code (the unique column) |
| Repository.UpsertKeepsInvariant | src/main/java/br/com/stoom/coupon_domain/adapter/out/persistence/CouponEntity.java:19-24 | A write that the unique-code constraint allows keeps ids and codes unique |
| Repository.UpsertStoresRecord | src/main/java/br/com/stoom/coupon_domain/adapter/out/persistence/CouponAdapter.java:20-25 | After an allowed write the record is found by its code. The table grows by one row exactly when the id is new, and rows with other ids stay in place |
| Repository.UniqueCodeLookup | src/main/java/br/com/stoom/coupon_domain/adapter/out/persistence/CouponEntity.java:23-24 | With unique codes, looking up a row's code finds that row |
| Repository.UniqueIdIndex | src/main/java/br/com/stoom/coupon_domain/adapter/out/persistence/CouponEntity.java:19-21 | With unique ids, a row's id is found at that row's position |
| Repository.DomainRows | src/main/java/br/com/stoom/coupon_domain/adapter/out/persistence/CouponAdapter.java:39-44 | One coupon per record, in order, each mapping back to its record |
| Repository.InMemoryCouponRepository.Save | src/main/java/br/com/stoom/coupon_domain/adapter/out/persistence/CouponAdapter.java:20-25 | Fails with a code conflict exactly when another id holds the code, leaving the table alone. Otherwise it upserts the record, keeps the table's keys unique, and returns a fresh coupon with the same state that `equals` the given one |
| Repository.InMemoryCouponRepository.FindById | src/main/java/br/com/stoom/coupon_domain/adapter/out/persistence/CouponAdapter.java:27-31 | Empty exactly when no row has the id; otherwise a coupon with that id whose record is stored |
| Repository.InMemoryCouponRepository.FindByCode | src/main/java/br/com/stoom/coupon_domain/adapter/out/persistence/CouponAdapter.java:33-37 | Empty exactly when no row has the code; otherwise a fresh coupon reconstituted from the row with that code |
| Repository.InMemoryCouponRepository.FindAll | src/main/java/br/com/stoom/coupon_domain/adapter/out/persistence/CouponAdapter.java:39-44 | As many coupons as rows, each mapping back to the row at its position |
| Repository.InMemoryCouponRepository.ExistsByCode | src/main/java/br/com/stoom/coupon_domain/adapter/out/persistence/CouponAdapter.java:46-49 | True exactly when some row holds the code |
| CreateCoupon.Outcome | src/main/java/br/com/stoom/coupon_domain/application/usecase/CreateCouponUseCaseImpl.java:21-37 | Execute succeeds exactly when create succeeds and the sanitised code is not stored, returning the created coupon; otherwise the error is create's, or "already exists" naming the sanitised code |
| CreateCoupon.RowsAfter | src/main/java/br/com/stoom/coupon_domain/application/usecase/CreateCouponUseCaseImpl.java:21-37 | The earlier rows stay as they were, followed by one new record exactly when execute succeeds; with a new id the keys stay unique |
| CreateCoupon.CreateCouponUseCase.Execute | src/main/java/br/com/stoom/coupon_domain/application/usecase/CreateCouponUseCaseImpl.java:21-37 | Returns `Outcome`'s error, or a fresh coupon with `Outcome`'s state. The table becomes `RowsAfter` and keeps its keys unique |
| CreateCoupon.ValidationErrorWins | src/main/java/br/com/stoom/coupon_domain/application/usecase/CreateCouponUseCaseImpl.java:22-28 | An invalid field is reported before any duplicate check, and nothing is stored |
| CreateCoupon.DuplicateCodeRefused | src/main/java/br/com/stoom/coupon_domain/application/usecase/CreateCouponUseCaseImpl.java:30-34 | A valid command whose sanitised code is stored fails with "already exists" naming it, and nothing is stored |
| CreateCoupon.CreateAppendsOne | src/main/java/br/com/stoom/coupon_domain/application/usecase/CreateCouponUseCaseImpl.java:21-37 | A successful create appends exactly the new record and keeps earlier rows. The new coupon is then found by its code, and the keys stay unique |
| CreateCoupon.SecondCreateWithSameCodeFails | src/main/java/br/com/stoom/coupon_domain/application/usecase/CreateCouponUseCaseImpl.java:30-36 | After one create, a second valid create with the same sanitised code fails with "already exists" and stores nothing |
| CreateCoupon.PunctuatedDuplicateRefused | src/main/java/br/com/stoom/coupon_domain/application/usecase/CreateCouponUseCaseImpl.java:30-34 | With "ABC123" stored, creating "AB-C1.2!3" fails with "already exists" for "ABC123" |
| DeleteCoupon.Key | src/main/java/br/com/stoom/coupon_domain/application/usecase/DeleteCouponUseCaseImpl.java:22 | The key is upper-case, as long as the given code, and sanitises as the given code does |
| DeleteCoupon.RewriteDoesNotConflict | src/main/java/br/com/stoom/coupon_domain/application/usecase/DeleteCouponUseCaseImpl.java:23 | Writing back the found record under its own id and code never trips the unique-code constraint |
| DeleteCoupon.RewriteInPlace | src/main/java/br/com/stoom/coupon_domain/application/usecase/DeleteCouponUseCaseImpl.java:23-31 | In a table with unique keys, writing back the found record soft-deleted changes exactly the row holding the code, in place, and keeps the keys unique |
| DeleteCoupon.Outcome | src/main/java/br/com/stoom/coupon_domain/application/usecase/DeleteCouponUseCaseImpl.java:21-32 | An unknown key is "not found" naming the key. A stored coupon fails exactly when it is already deleted, with "already deleted" naming the key. Otherwise only the row holding the key becomes deleted and stamped, in place, and the keys stay unique |
| DeleteCoupon.DeleteCouponUseCase.Execute | src/main/java/br/com/stoom/coupon_domain/application/usecase/DeleteCouponUseCaseImpl.java:21-32 | Returns `Outcome`'s error and leaves the table, or succeeds with `Outcome`'s table; the keys stay unique |
| DeleteCoupon.NotFound | src/main/java/br/com/stoom/coupon_domain/application/usecase/DeleteCouponUseCaseImpl.java:22-27 | An unknown key fails with "not found" naming the upper-cased code |
| DeleteCoupon.DeleteStoredCoupon | src/main/java/br/com/stoom/coupon_domain/application/usecase/DeleteCouponUseCaseImpl.java:21-32 | For a stored, undeleted coupon only its row changes, in place, to deleted and stamped, and the keys stay unique. For an already deleted one the result is "already deleted" naming its code |
| DeleteCoupon.SecondDeleteFails | src/main/java/br/com/stoom/coupon_domain/application/usecase/DeleteCouponUseCaseImpl.java:21-32 | A first delete stamps its time; a second fails with "already deleted" |
| DeleteCoupon.KeyIsNotSanitised | src/main/java/br/com/stoom/coupon_domain/application/usecase/DeleteCouponUseCaseImpl.java:22-27 | In a table of sanitised codes, "ab-c123" is looked up as "AB-C123" and is not found |
| FindCouponByCode.FindCouponByCodeUseCase.Execute | src/main/java/br/com/stoom/coupon_domain/application/usecase/BuscarCupomPorCodigoUseCaseImpl.java:21-28 | Fails exactly when no row holds the upper-cased key, with "not found" naming it. Otherwise returns a coupon with that code whose record is stored |
| FindCouponByCode.LowerCaseFindsStoredCoupon | src/main/java/br/com/stoom/coupon_domain/application/usecase/BuscarCupomPorCodigoUseCaseImpl.java:22-27 | "abc123" finds the stored "ABC123" record as it is, deleted or not |
| FindAllCoupons.FindAllCouponsUseCase.Execute | src/main/java/br/com/stoom/coupon_domain/application/usecase/BuscarTodosCuponsUseCaseImpl.java:21-24 | Every stored record in table order, none dropped and none added |
| FindAllCoupons.CreateAddsToListing | src/main/java/br/com/stoom/coupon_domain/application/usecase/CreateCouponUseCaseImpl.java:36 | After a successful create the listing is the previous listing plus the new coupon at the end |
| FindAllCoupons.DeletedCouponStillListed | src/main/java/br/com/stoom/coupon_domain/application/usecase/DeleteCouponUseCaseImpl.java:21-32 | After a delete the listing keeps its length, and the coupon stays at its place, flagged deleted with the time |

## Left out

- HTTP controllers, request/response DTOs, the exception handler and OpenAPI configuration are not modelled; they only translate to and from the core.
- Transactions and concurrent requests are not modelled. Two creates racing between `existsByCode` and `save` are left to the database's unique constraint, which the model's `Save` states as a `CodeConflict` error.
- The record's `updated_at` column and its `@PrePersist`/`@PreUpdate` hooks are not modelled; no domain field reads it.
- The discount column's precision 10 and scale 2 are not modelled. The model stores the decimal exactly as the domain holds it, with no rounding.
- CouponRepository.existsByCode and findByCode compare codes exactly, as the model does; database collation is not modelled.
- Text.ToUpperAscii: upper-cases the ASCII letters only, not the full Unicode `String.toUpperCase` with its locale and length-changing cases. The model assumes a default locale without Turkish or Azeri casing rules. Under such a locale (tr, az) `toUpperCase` maps `i` to U+0130. `CouponCode.of` upper-cases after its filter, so a code such as "abcdi1" is then stored with U+0130 where the model stores `I`. Under any other default locale the model is exact inside `CouponCode.of`, because only ASCII letters survive the filter and their upper case is ASCII. In the delete and find keys a non-ASCII letter is kept as it is.
- Decimals.Decimal: scales are non-negative. `BigDecimal` values with negative scales, and `stripTrailingZeros` taking an integer such as 100 to 1E+2, are not modelled.
- Discounts.HashKey: models `hashCode` as the stripped decimal it hashes, not the integer hash.
- Message texts and `toString` are not modelled.
- Null arguments to the use cases (a null code given to delete or find) raise `NullPointerException` in the source; the model takes a string.
- CreateCoupon.CreateCouponUseCase.Execute: requires that the generated id is not already stored. A UUID collision, which the source does not guard against, is outside the model.
- FindAllCoupons.FindAllCouponsUseCase.Execute: the listing is in insertion order. The database returns rows in an unspecified order.
- Coupons.Coupon.Equals: stated with object identity or equal ids, which is the source's test. `hashCode` on the id is not modelled.
