/** Optional values and results with an error, as the source's `undefined`,
    `null` and thrown errors are modelled throughout. */
module Wrappers {

  datatype Option<+T> = None | Some(value: T) {
    function GetOr(default: T): T {
      match this
      case Some(v) => v
      case None => default
    }
  }

  datatype Result<+T, +E> = Ok(value: T) | Err(error: E)
}

/** The role of a chat message, `"user" | "assistant"`, shared by the local
    store and the server tables. */
module ChatTypes {
  datatype Role = User | Assistant
}
