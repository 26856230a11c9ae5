/** How a skip-list operation ends: it returns a value, or Python raises. */
module Results {

  datatype Option<T> = None | Some(value: T)

  /** The two exceptions the skip list can raise: reading `.key` or `.next` of None,
      and indexing past the end of a node's link list. */
  datatype PyError = AttributeError | IndexError

  datatype Outcome<T> = Returned(value: T) | Raised(error: PyError)
}
