/** The optional-value wrapper shared by the other modules. */
module Wrappers {

  /** `None` stands for Python's "no value": a parse that raised, a search that found nothing. */
  datatype Option<+T> = None | Some(value: T)
}
