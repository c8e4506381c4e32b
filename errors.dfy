/** The error taxonomy of the record table and the two helpers that turn
    a missing save path and an I/O failure into it. */
module DbErrors {

  /** A filesystem path; path syntax is not modelled. */
  type Path = string

  datatype Option<+T> = None | Some(value: T)

  /** The payload of an I/O failure. Its contents are carried, never inspected. */
  datatype IoCause = IoCause(description: string)

  /** The outcome of a single filesystem call. */
  datatype IoResult<+X> = IoOk(value: X) | IoErr(cause: IoCause)

  datatype DatabaseError =
    | ItemNotFound          // remove of a record that is not in the table
    | DupeFound             // add of a present record under the strict policy
    | SavePathRequired      // a persistence step needed a save path and there was none
    | IOError(cause: IoCause)

  datatype Result<+X> = Ok(value: X) | Err(error: DatabaseError)

  /** Wraps the outcome of a filesystem call: success passes through with
      its value, a failure becomes IOError carrying the same cause. */
  function IoToDbError<X>(io: IoResult<X>): (r: Result<X>)
    ensures r.Ok? <==> io.IoOk?
    ensures r.Ok? ==> r.value == io.value
    ensures r.Err? ==> r.error == IOError(io.cause)
  {
    match io
    case IoOk(x) => Ok(x)
    case IoErr(e) => Err(IOError(e))
  }

  /** Resolves the optional save path: absent is SavePathRequired, present
      yields that very path. No default is derived from the label. */
  function PathToDbError(path: Option<Path>): (r: Result<Path>)
    ensures r.Ok? <==> path.Some?
    ensures r.Ok? ==> r.value == path.value
    ensures r.Err? ==> r.error == SavePathRequired
  {
    match path
    case None => Err(SavePathRequired)
    case Some(p) => Ok(p)
  }

  /** The cause survives the wrapping, so two different I/O outcomes never
      collapse into the same database result. */
  lemma IoToDbErrorFaithful<X>(a: IoResult<X>, b: IoResult<X>)
    ensures IoToDbError(a) == IoToDbError(b) ==> a == b
  {
  }
}
