/**
 * Optional values (a Java reference that may be null, or an Optional) and the
 * closed set of domain failures that the value objects, the aggregate and the
 * use cases raise as exceptions.
 */
module Errors {
  import opened Decimals

  datatype Option<T> = None | Some(value: T)

  /** Why a raw coupon code was refused. */
  datatype CodeFault =
    | CodeRequired                // null or blank
    | CodeLength(actual: nat)     // the sanitised code is not 6 characters long

  /** Why a raw discount value was refused. */
  datatype DiscountFault =
    | DiscountRequired            // null
    | DiscountBelowMinimum(given: Decimal)

  /** Why a raw expiration date was refused. */
  datatype DateFault =
    | DateRequired                // null
    | DateInPast

  datatype DomainError =
    | InvalidCode(codeFault: CodeFault)
    | InvalidDiscountValue(discountFault: DiscountFault)
    | InvalidExpirationDate(dateFault: DateFault)
    | InvalidDescription
    | CouponNotFound(lookedUp: string)
    | CouponCodeAlreadyExists(existing: string)
    | CouponAlreadyDeleted(deletedCode: string)
    // the storage's unique constraint on the code column rejected a write
    | CodeConflict(conflicting: string)

  /** The outcome of an operation that either returns a value or throws a domain error. */
  datatype Result<T> = Ok(value: T) | Err(error: DomainError)
}
