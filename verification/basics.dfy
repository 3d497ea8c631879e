/** Shared vocabulary of the model: nullable values, the error kinds the
    services raise, and the scalar types that stand for the source's
    `Long` ids, `LocalDate` hire dates, `LocalDateTime` timestamps and
    `BigDecimal` salaries. */
module Basics {

  /** A Java reference that may be null. */
  datatype Option<+T> = None | Some(value: T)

  /** Why a service call failed. `NotFound` and `DuplicateResource` are the
      two exceptions the services throw themselves; `ConstraintViolation`
      is the relational store refusing a row that breaks a column
      constraint declared on the entity. */
  datatype Error = NotFound | DuplicateResource | ConstraintViolation

  datatype Result<+T> = Ok(value: T) | Err(error: Error)

  /** Surrogate keys generated by an IDENTITY column. A caller may pass
      any `Long`, including zero and negative values that no row has. */
  type Id = int

  /** A calendar date, as a day number: only its order matters. */
  type Date = int

  /** A point in time, as produced by the store's clock. */
  type Time = int

  /** An exact decimal (never a floating-point value). */
  type Decimal = real
}
