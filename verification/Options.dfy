/** The two small result shapes shared by every module. */
module Options {

  datatype Option<+T> = None | Some(value: T)

  /** What a transaction leaves behind: the new value, or nothing because a constraint failed. */
  datatype Outcome<+T> = Aborted | Committed(value: T)
}
