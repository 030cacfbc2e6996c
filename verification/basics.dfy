/** Small shared vocabulary. */
module Basics {

  /** A value that may be absent: used for "the workbook file may not exist yet"
      and for "no backup is known to have reached the remote folder". */
  datatype Option<+T> = None | Some(value: T)
}
