/** A minimal optional value, used for the GraphQL fields that may be null. */
module Wrappers {

  /** `None` stands for a field that is `null` or absent in the query result. */
  datatype Option<+T> = None | Some(value: T)
}
