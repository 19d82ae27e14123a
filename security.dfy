/**
 * The Security framework as an abstract oracle. Every request the keychain
 * code sends is appended to `log`; the reply is an arbitrary function of the
 * requests sent before and of the request itself, so any keychain behaviour
 * (including one that changes after an add or an update) is covered.
 */
module Security {
  import opened Dictionary

  /** Result codes the code distinguishes (Apple's SecBase.h values). */
  const ErrSecSuccess: int := 0
  const ErrSecItemNotFound: int := -25300

  datatype Call =
    | SecItemCopyMatching(query: Dict)
    | SecItemAdd(attributes: Dict)
    | SecItemUpdate(query: Dict, changes: Dict)

  /**
   * What the platform hands back: the status code and what it writes to the
   * result pointer, read as a dictionary when attributes were requested and
   * as password data when data was requested.
   */
  datatype Reply = Reply(status: int, attributes: Dict, data: string)

  class Service {
    const respond: (seq<Call>, Call) -> Reply
    /** SecCopyErrorMessageString: the platform's text for a result code. */
    const errorMessage: int -> string
    var log: seq<Call>

    constructor (respond: (seq<Call>, Call) -> Reply, errorMessage: int -> string)
      ensures this.respond == respond && this.errorMessage == errorMessage
      ensures log == []
    {
      this.respond := respond;
      this.errorMessage := errorMessage;
      log := [];
    }

    /** Sends one request to the platform. */
    method Perform(call: Call) returns (reply: Reply)
      modifies this
      ensures log == old(log) + [call]
      ensures reply == respond(old(log), call)
    {
      reply := respond(log, call);
      log := log + [call];
    }
  }
}
