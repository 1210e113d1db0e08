/** Option and Result values used for the source's `undefined` returns and thrown exceptions. */
module Results {

  datatype Option<T> = None | Some(value: T)

  /** The exceptions the modelled code can raise. `btoa` raises a DOMException named
      InvalidCharacterError when its argument has a character above U+00FF. */
  datatype Error = InvalidCharacterError

  datatype Result<T> = Ok(value: T) | Failure(error: Error)

  /** `prefix` followed by a successful text; a failure is passed on unchanged. */
  function Prepend(prefix: string, r: Result<string>): (q: Result<string>)
    ensures q.Ok? <==> r.Ok?
    ensures q.Ok? ==> q.value == prefix + r.value
    ensures q.Failure? ==> q.error == r.error
  {
    match r
    case Ok(s) => Ok(prefix + s)
    case Failure(e) => Failure(e)
  }
}
