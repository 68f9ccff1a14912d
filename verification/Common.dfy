/** What the modules share. */
module Common {
  datatype Option<+T> = None | Some(value: T)

  /** Threads are numbered. */
  type ThreadId = nat
}
