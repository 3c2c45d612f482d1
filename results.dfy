/** Option and Result values for the decoder's error paths. */
module Results {

  datatype Option<+T> = None | Some(value: T)

  datatype Result<+T, +E> = Ok(value: T) | Err(error: E) {

    /** Replaces any error by `e`, keeping a success as it is (Rust's `or_else(|_| Err(e))`). */
    function OrElse<E2>(e: E2): (r: Result<T, E2>)
      ensures r.Ok? <==> this.Ok?
      ensures r.Ok? ==> r.value == this.value
      ensures r.Err? ==> r.error == e
    {
      match this
      case Ok(v) => Ok(v)
      case Err(_) => Err(e)
    }
  }
}
