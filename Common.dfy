/** Identifiers, time and the optional-value wrapper shared by every module. */
module Common {

  /** A value that may be absent: a nullable column, a missing JSON key. */
  datatype Option<+T> = None | Some(value: T) {
    /** The wrapped value, or `default` when absent (Python's `dict.get(k, default)`). */
    function GetOr(default: T): T {
      match this
      case Some(v) => v
      case None => default
    }
  }

  /** Primary keys handed out by the database; the first row of a table gets 1. */
  type UserId = nat
  type ChatId = nat
  type MessageId = nat

  /** The channel layer's name for one live connection. */
  type ChannelName = nat

  /** `timezone.now()` is passed in as a parameter; only its ordering matters. */
  type Time = int
}
