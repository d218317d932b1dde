/** Small value wrappers shared by the whole model. */
module Results {

  /** A value that may be missing: a nullable column, or a query that found no row. */
  datatype Option<T> = None | Some(value: T)

  /** One field of a partial-update payload: left out of the request (`Unset`), or sent
      explicitly, possibly with an empty value (`Set`). This is the distinction that
      pydantic's `model_dump(exclude_unset=True)` draws. */
  datatype Patch<T> = Unset | Set(value: T) {
    /** The value the column holds after the patch is applied to `current`. */
    function Over(current: T): (r: T)
      ensures Unset? ==> r == current
      ensures Set? ==> r == value
    {
      if Set? then value else current
    }
  }

  /** The outcome of an HTTP handler: a status code with a body, or an `HTTPException`
      with its status code and detail message. */
  datatype Response<T> = Ok(status: int, body: T) | Err(status: int, detail: string)
}
