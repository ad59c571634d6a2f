/**
 * The module-level `ERROR_MESSAGES` list of the two checker scripts: the change
 * checker appends one reason per rejected cell, and the report pops them from the
 * front, one per rejected cell.
 */
module ErrorQueues {

  class ErrorQueue {
    var messages: seq<string>

    /** `ERROR_MESSAGES = []` at import time. */
    constructor ()
      ensures messages == []
    {
      messages := [];
    }

    /** `ERROR_MESSAGES.append(m)`. */
    method Append(m: string)
      modifies this
      ensures messages == old(messages) + [m]
    {
      messages := messages + [m];
    }

    /** `ERROR_MESSAGES.pop(0)`; every caller pops only while a message is queued. */
    method PopFront() returns (m: string)
      requires messages != []
      modifies this
      ensures m == old(messages)[0] && messages == old(messages)[1..]
      ensures old(messages) == [m] + messages
    {
      m := messages[0];
      messages := messages[1..];
    }
  }
}
