/** The optional value used for the nullable `gchar *` fields and results of the editor. */
module Wrappers {

  /** `None` plays the part of a NULL pointer. */
  datatype Option<+T> = None | Some(value: T)
}
