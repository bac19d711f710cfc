/** Capacities of the editor and the optional-value type shared by every module. */
module Base {
  /** Number of slots in the line store (MAX_LINES). */
  const MaxLines: int := 1200

  /** Size of one line buffer, terminator included (LINE_LEN): a line holds at most 255 characters. */
  const LineLen: int := 256

  /** Iteration cap of the replace loop in replace_in_line. */
  const ReplaceLimit: int := 1024

  datatype Option<T> = None | Some(value: T)
}
