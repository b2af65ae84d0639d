/** Success/failure values shared by every part of the model.

    The server reports failures in four ways, and the model keeps them apart
    because they differ in what survives:
    - BadRequest: the handler writes status 400 and returns;
    - ServerError: the handler writes status 500 and returns;
    - Panic: a Go runtime panic (an index out of range); the HTTP server
      recovers it and drops the connection;
    - Fatal: `log.Fatal`, which ends the whole process.
    In every case the session store is left as it was: a handler only stores
    the session on its success path.
 */
module Outcomes {

  datatype Option<+T> = None | Some(value: T)

  datatype Failure = BadRequest | ServerError | Panic | Fatal

  datatype Result<+T> = Ok(value: T) | Err(failure: Failure)
}
