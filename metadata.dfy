/** read_metadata (make_index.py:44-47), applied to the rows the CSV reader
    has already split the metadata file into. */
module Metadata {
  import opened Results

  /** `titles = next(rows); return titles, list(rows)`: the first row is the
      header, the remaining rows in file order are the data. A file with no
      rows at all makes `next` raise StopIteration. */
  function ReadMetadata(rows: seq<seq<string>>): (r: Result<(seq<string>, seq<seq<string>>)>)
    ensures r.Err? <==> rows == []
    ensures r.Err? ==> r.error == StopIteration
    ensures r.Ok? ==> [r.value.0] + r.value.1 == rows
  {
    if rows == [] then Err(StopIteration) else Ok((rows[0], rows[1..]))
  }
}
