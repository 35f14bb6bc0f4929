/** Outcomes of the operations of make_index.py that can raise. */
module Results {

  /** The Python exceptions the modelled code can raise on malformed input. */
  datatype Error =
    | StopIteration  // next() on a metadata table with no rows at all
    | IndexError     // row[k] on a metadata row with too few fields

  datatype Result<+T> = Ok(value: T) | Err(error: Error)

  datatype Option<+T> = None | Some(value: T)
}
