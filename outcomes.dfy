/** Small value types shared by the modules of the model. */
module Outcomes {

  /** A value that may be absent: a configuration file that does not exist,
      a key missing from a JSON report. */
  datatype Option<+T> = None | Some(value: T)

  /** The HTTP outcome of a request (200, 400, 403, 404), without the transport. */
  datatype Status = Ok | BadRequest | Forbidden | NotFound
}
