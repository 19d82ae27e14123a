/**
 * The earlier, standalone Keychain::Item of lib/keychain.rb: a nil-tolerant
 * constructor, `exists?` and `password`, raising a plain KeychainException
 * whose message is a fixed text followed by the platform's message.
 */
module LegacyKeychain {
  import opened Wrappers
  import opened Dictionary
  import opened Security

  /** The trivial exception class: only a message. */
  datatype LegacyException = LegacyException(message: string)

  const ExistsMessage: string := "Error checking keychain item existence: "
  const PasswordMessage: string := "Error getting password: "

  /** `raise KeychainException, "#{text}#{message}"` with the platform's message for `status`. */
  function Raised(text: string, status: int, errorMessage: int -> string): (e: LegacyException)
    ensures text <= e.message
    ensures e.message[|text|..] == errorMessage(status)
  {
    LegacyException(text + errorMessage(status))
  }

  /** The `case` of `exists?`: success is true, not-found false, anything else raises. */
  function ExistenceOutcome(status: int, errorMessage: int -> string): (r: Result<bool, LegacyException>)
    ensures r == Success(true) <==> status == ErrSecSuccess
    ensures r == Success(false) <==> status == ErrSecItemNotFound
    ensures r.Failure? <==> status != ErrSecSuccess && status != ErrSecItemNotFound
    ensures r.Failure? ==> r.error == Raised(ExistsMessage, status, errorMessage)
  {
    if status == ErrSecSuccess then Success(true)
    else if status == ErrSecItemNotFound then Success(false)
    else Failure(Raised(ExistsMessage, status, errorMessage))
  }

  /** The `case` of `password`: success yields the data, anything else raises. */
  function PasswordOutcome(status: int, data: string, errorMessage: int -> string): (r: Result<string, LegacyException>)
    ensures r.Success? <==> status == ErrSecSuccess
    ensures r.Success? ==> r.value == data
    ensures r.Failure? ==> r.error == Raised(PasswordMessage, status, errorMessage)
  {
    if status == ErrSecSuccess then Success(data)
    else Failure(Raised(PasswordMessage, status, errorMessage))
  }

  class Item {
    var attributes: Dict

    /** `Item.new(attributes = nil)`: the default class, overridden by the attributes when given. */
    constructor (attributes: Option<Dict> := None)
      ensures attributes.None? ==> this.attributes == DefaultClass
      ensures attributes.Some? ==> this.attributes == Merge(DefaultClass, attributes.value)
    {
      this.attributes := DefaultClass;
      new;
      if attributes.Some? {
        this.attributes := Merge(this.attributes, attributes.value);
      }
    }

    /** `exists?`: the attributes with the controls merged over them; the attributes are not changed. */
    method Exists(service: Service) returns (r: Result<bool, LegacyException>)
      modifies service
      ensures attributes == old(attributes)
      ensures service.log == old(service.log) + [SecItemCopyMatching(AttributesQuery(attributes))]
      ensures var reply := service.respond(old(service.log), SecItemCopyMatching(AttributesQuery(attributes)));
              r == ExistenceOutcome(reply.status, service.errorMessage)
    {
      var reply := service.Perform(SecItemCopyMatching(AttributesQuery(attributes)));
      r := ExistenceOutcome(reply.status, service.errorMessage);
    }

    /** `password`: the attributes with the data controls merged over them; never stored. */
    method Password(service: Service) returns (r: Result<string, LegacyException>)
      modifies service
      ensures attributes == old(attributes)
      ensures service.log == old(service.log) + [SecItemCopyMatching(DataQuery(attributes))]
      ensures var reply := service.respond(old(service.log), SecItemCopyMatching(DataQuery(attributes)));
              r == PasswordOutcome(reply.status, reply.data, service.errorMessage)
    {
      var reply := service.Perform(SecItemCopyMatching(DataQuery(attributes)));
      r := PasswordOutcome(reply.status, reply.data, service.errorMessage);
    }
  }
}
