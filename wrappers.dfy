/** Small value wrappers shared by the other modules. */
module Wrappers {

  /** The conventional Some/None datatype. */
  datatype Option<+T> = None | Some(value: T)

  /** One key of a JSON object as a query response delivers it: the key is
      missing, present with `null`, or present with a value. Python's
      `d.get(key)` gives `None` in the first two cases. */
  datatype Field<+T> = Absent | Null | Present(value: T)
}
