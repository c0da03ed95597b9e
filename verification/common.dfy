/** Shared result and error types. The services raise NestJS HTTP exceptions;
    here each exception becomes an `Err` carrying its kind and its message. */
module Common {

  datatype Option<+T> = None | Some(value: T)

  /** The HTTP exception classes the core raises. */
  datatype ErrorKind =
    | BadRequest
    | Unauthorized
    | Forbidden
    | NotFound
    | Conflict
    | InternalServerError

  datatype Error = Error(kind: ErrorKind, message: string)

  datatype Result<+T> = Ok(value: T) | Err(error: Error)

  /** What the framework answers when a handler throws something that is not
      an HTTP exception (a failed database write, for instance). */
  const UnhandledError := Error(InternalServerError, "Internal server error")

  function Lookup<K, V>(m: map<K, V>, k: K): (r: Option<V>)
    ensures r.Some? <==> k in m
    ensures r.Some? ==> r.value == m[k]
  {
    if k in m then Some(m[k]) else None
  }

  /** Deleting a document just inserted under a fresh key restores the
      collection. */
  lemma DeleteInserted<K, V>(m: map<K, V>, k: K, v: V)
    requires k !in m
    ensures m[k := v] - {k} == m
  {
    assert (m[k := v] - {k}).Keys == m.Keys;
  }
}
