/** The optional value used wherever the modelled code can fail softly. */
module Wrappers {

  /** `None` stands for a failure the source catches and reports, such as a
      `ParseException` thrown by a date parser. */
  datatype Option<+T> = None | Some(value: T)
}
