/** Small value types shared by both interners. */
module Common {

  datatype Option<T> = None | Some(value: T)

  datatype Result<T, E> = Ok(value: T) | Err(error: E)

  /** The call-site tag recorded by `get_ref` (a `&'static Location`): opaque here. */
  datatype Location = Location(file: string, line: nat, column: nat)

  /** The ways the interners halt the program. */
  datatype Panic =
    | CannotInternWhileHolding(lastRef: Location)  // "Cannot intern while holding an InternRef"
    | RefCountOverflow                              // "Interner reference count overflow"
    | NonlocalRefCountOverflow                      // "Interner nonlocal reference count overflow"
    | Unreachable                                   // `unreachable!()`
    | UnwrapNone                                    // `Option::unwrap` on `None`
    | SliceOutOfRange                               // `&store[span]` outside the store

  /** A call that either returns a value or panics. */
  datatype Outcome<T> = Returned(value: T) | Panicked(panic: Panic)
}
