/** The entity the repository serves, and the optional-value wrapper used for
    the C# nullable results (`Product?`, `string?`). */
module Domain {

  /** `None` plays the part of C#'s `null`. */
  datatype Option<+T> = None | Some(value: T) {
    predicate IsFailure() { None? }

    function PropagateFailure<U>(): Option<U>
      requires None?
    {
      None
    }

    function Extract(): T
      requires Some?
    {
      value
    }
  }

  /** Domain.Entities.Product: a store-assigned identity, an optional name and
      an unvalidated price. */
  datatype Product = Product(id: int, name: Option<string>, price: int)
}
