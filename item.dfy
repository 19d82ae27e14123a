/**
 * Keychain::Item: one keychain entry's attributes, held in a mutable map, and
 * the operations that build a request from that map and send it to the
 * platform. `exists?`, `password` and `metadata` leave the map alone;
 * `metadata!` and `update!` replace it with what the platform returns.
 * The item never stores a password.
 */
module KeychainItem {
  import opened Wrappers
  import opened Dictionary
  import opened Security
  import KeychainException
  import Outcome

  type Error = KeychainException.Exception

  const ExistsPrefix: string := "Checking keychain item existence"
  const PasswordPrefix: string := "Getting password"
  const UpdatePasswordPrefix: string := "Updating password"
  const UpdateItemPrefix: string := "Updating keychain item"
  const MetadataPrefix: string := "Getting metadata"

  /**
   * The key `exists?` writes an attribute under: a Symbol goes through
   * `attr_const_get` (given as `attrConstGet`); any other key is used as it is.
   */
  function PlatformKey(key: Key, attrConstGet: string -> Key): (k: Key)
    ensures key.Symbol? ==> k == attrConstGet(key.name)
    ensures !key.Symbol? ==> k == key
  {
    if key.Symbol? then attrConstGet(key.name) else key
  }

  /**
   * `search` is what `exists?` sends for `attributes` when, for each platform
   * key, `source` names the attribute whose value was written last under it:
   * the controls MatchLimitOne and ReturnAttributes = true, with every
   * attribute written over them under its platform key.
   */
  ghost predicate IsExistsSearchFrom(search: Dict, attributes: Dict, attrConstGet: string -> Key, source: map<Key, Key>) {
    && search.Keys == AttributesRequest.Keys + source.Keys
    && (forall key :: key in attributes ==> PlatformKey(key, attrConstGet) in source)
    && (forall k :: k in source ==>
          && source[k] in attributes
          && PlatformKey(source[k], attrConstGet) == k
          && search[k] == attributes[source[k]])
    && (forall k :: k in search && k !in source ==> search[k] == AttributesRequest[k])
  }

  /**
   * `search` is a request `exists?` may send for `attributes`. When two
   * attributes share a platform key, the one Ruby's hash enumerates last
   * wins; a map keeps no order, so only "one of them" is said.
   */
  ghost predicate IsExistsSearch(search: Dict, attributes: Dict, attrConstGet: string -> Key) {
    exists source :: IsExistsSearchFrom(search, attributes, attrConstGet, source)
  }

  /** The `each_pair` loop of `exists?`. */
  method BuildExistsSearch(attributes: Dict, attrConstGet: string -> Key) returns (search: Dict)
    ensures IsExistsSearch(search, attributes, attrConstGet)
  {
    search := AttributesRequest;
    ghost var source: map<Key, Key> := map[];
    var pending := attributes.Keys;
    while pending != {}
      invariant pending <= attributes.Keys
      invariant IsExistsSearchFrom(search, attributes - pending, attrConstGet, source)
      decreases pending
    {
      var key :| key in pending;
      ghost var done := attributes - pending;
      search := search[PlatformKey(key, attrConstGet) := attributes[key]];
      source := source[PlatformKey(key, attrConstGet) := key];
      pending := pending - {key};
      assert attributes - pending == done[key := attributes[key]];
    }
    assert attributes - pending == attributes;
    assert IsExistsSearchFrom(search, attributes, attrConstGet, source);
  }

  /** Without Symbol keys, `exists?` sends exactly the attributes written over the two controls. */
  lemma ExistsSearchWithoutSymbols(search: Dict, attributes: Dict, attrConstGet: string -> Key)
    requires forall key :: key in attributes ==> !key.Symbol?
    requires IsExistsSearch(search, attributes, attrConstGet)
    ensures search == Merge(AttributesRequest, attributes)
  {
    var source :| IsExistsSearchFrom(search, attributes, attrConstGet, source);
    SourceIsIdentity(search, attributes, attrConstGet, source);
    ControlsUnderAttributes(search, attributes);
  }

  /** A dictionary that agrees with `attributes` on their keys and with the controls elsewhere is their merge. */
  lemma ControlsUnderAttributes(search: Dict, attributes: Dict)
    requires search.Keys == AttributesRequest.Keys + attributes.Keys
    requires forall k :: k in attributes ==> search[k] == attributes[k]
    requires forall k :: k in search && k !in attributes ==> search[k] == AttributesRequest[k]
    ensures search == Merge(AttributesRequest, attributes)
  {
  }

  /** With no Symbol keys every attribute is written under its own key. */
  lemma SourceIsIdentity(search: Dict, attributes: Dict, attrConstGet: string -> Key, source: map<Key, Key>)
    requires forall key :: key in attributes ==> !key.Symbol?
    requires IsExistsSearchFrom(search, attributes, attrConstGet, source)
    ensures source.Keys == attributes.Keys
    ensures search.Keys == AttributesRequest.Keys + attributes.Keys
    ensures forall k :: k in attributes ==> search[k] == attributes[k]
    ensures forall k :: k in search && k !in attributes ==> search[k] == AttributesRequest[k]
  {
    forall k | k in source
      ensures k in attributes && source[k] == k
    {
      assert PlatformKey(source[k], attrConstGet) == source[k];
    }
    forall key | key in attributes
      ensures key in source
    {
      assert PlatformKey(key, attrConstGet) == key;
    }
  }

  /** Unless an attribute lands on a control key, the request asks for one match and its attributes. */
  lemma ExistsSearchControls(search: Dict, attributes: Dict, attrConstGet: string -> Key)
    requires IsExistsSearch(search, attributes, attrConstGet)
    requires forall key :: key in attributes ==> PlatformKey(key, attrConstGet) !in AttributesRequest
    ensures search[MatchLimit] == MatchLimitOne && search[ReturnAttributes] == Bool(true)
  {
    var source :| IsExistsSearchFrom(search, attributes, attrConstGet, source);
  }

  /** `{ KSecValueData => new_password.to_data }`. */
  function PasswordData(password: string): (d: Dict)
    ensures d.Keys == {ValueData} && d[ValueData] == Data(password)
  {
    map[ValueData := Data(password)]
  }

  /**
   * The write `password=` is meant to send: an update of the data when the
   * item exists, an add of the attributes together with the data otherwise.
   */
  function PasswordWrite(attributes: Dict, present: bool, password: string): (c: Call)
    ensures c.SecItemUpdate? <==> present
    ensures c.SecItemAdd? <==> !present
    ensures c.SecItemUpdate? ==> c.query == attributes && c.changes == PasswordData(password)
    ensures c.SecItemAdd? ==>
              && c.attributes.Keys == attributes.Keys + {ValueData}
              && c.attributes[ValueData] == Data(password)
              && forall k :: k in attributes && k != ValueData ==> c.attributes[k] == attributes[k]
  {
    if present then SecItemUpdate(attributes, PasswordData(password))
    else SecItemAdd(Merge(attributes, PasswordData(password)))
  }

  /**
   * The calls `password=` makes after `exists?` answered `present` (the log
   * so far is `prior`), and what it returns: a failed write raises
   * 'Updating password'; a successful one is followed by a `password` read,
   * whose result is returned.
   */
  function StoreOutcome(respond: (seq<Call>, Call) -> Reply, errorMessage: int -> string, prior: seq<Call>,
                        attributes: Dict, present: bool, password: string): (outcome: (seq<Call>, Result<string, Error>))
    ensures 1 <= |outcome.0| <= 2 && outcome.0[0] == PasswordWrite(attributes, present, password)
    ensures var written := respond(prior, PasswordWrite(attributes, present, password)).status;
            && (|outcome.0| == 2 <==> written == ErrSecSuccess)
            && (|outcome.0| == 1 ==> outcome.1 == Failure(KeychainException.New(UpdatePasswordPrefix, written, errorMessage)))
    ensures |outcome.0| == 2 ==>
              var read := SecItemCopyMatching(DataQuery(attributes));
              var reply := respond(prior + [outcome.0[0]], read);
              && outcome.0[1] == read
              && (outcome.1.Success? <==> reply.status == ErrSecSuccess)
              && (outcome.1.Success? ==> outcome.1.value == reply.data)
              && (outcome.1.Failure? ==> outcome.1.error == KeychainException.New(PasswordPrefix, reply.status, errorMessage))
  {
    var write := PasswordWrite(attributes, present, password);
    var written := respond(prior, write).status;
    if written != ErrSecSuccess then
      ([write], Failure(KeychainException.New(UpdatePasswordPrefix, written, errorMessage)))
    else
      var read := SecItemCopyMatching(DataQuery(attributes));
      var reply := respond(prior + [write], read);
      ([write, read], Outcome.Required(reply.status, reply.data, PasswordPrefix, errorMessage))
  }

  /** For a missing item the password is added together with the attributes, and read back once stored. */
  lemma MissingItemAdded(respond: (seq<Call>, Call) -> Reply, errorMessage: int -> string, prior: seq<Call>,
                         attributes: Dict, password: string)
    ensures var (calls, result) := StoreOutcome(respond, errorMessage, prior, attributes, false, password);
            && calls[0].SecItemAdd?
            && calls[0].attributes[ValueData] == Data(password)
            && (forall k :: k in attributes && k != ValueData ==> k in calls[0].attributes && calls[0].attributes[k] == attributes[k])
            && (result.Success? ==> result.value == respond(prior + [calls[0]], SecItemCopyMatching(DataQuery(attributes))).data)
  {
  }

  /** What `password=` can raise once `exists?` has answered. */
  datatype StoreError =
    | KeychainFailure(exception: Error)
    | ArgumentError   // a Ruby ArgumentError, raised before any request is sent

  /**
   * The write of `password=` as item.rb:103 is written: on the add branch the
   * `nil` meant for `SecItemAdd` is taken as a second argument of `merge`,
   * a one-argument method, so the call raises ArgumentError and nothing is
   * added. The update branch is as intended.
   */
  function StoreOutcomeAsWritten(respond: (seq<Call>, Call) -> Reply, errorMessage: int -> string, prior: seq<Call>,
                                 attributes: Dict, present: bool, password: string): (outcome: (seq<Call>, Result<string, StoreError>))
    ensures present ==>
              var intended := StoreOutcome(respond, errorMessage, prior, attributes, true, password);
              && outcome.0 == intended.0
              && (outcome.1.Success? <==> intended.1.Success?)
              && (outcome.1.Success? ==> outcome.1.value == intended.1.value)
              && (outcome.1.Failure? ==> outcome.1.error == KeychainFailure(intended.1.error))
  {
    if present then
      var (calls, result) := StoreOutcome(respond, errorMessage, prior, attributes, true, password);
      (calls, if result.Success? then Success(result.value) else Failure(KeychainFailure(result.error)))
    else
      ([], Failure(ArgumentError))
  }

  /**
   * The discrepancy: as written, `password=` on a missing item sends no
   * request after the probe and raises ArgumentError, while the intended
   * code adds the item with its password.
   */
  lemma MissingItemNeverAdded(respond: (seq<Call>, Call) -> Reply, errorMessage: int -> string, prior: seq<Call>,
                              attributes: Dict, password: string)
    ensures StoreOutcomeAsWritten(respond, errorMessage, prior, attributes, false, password).0 == []
    ensures StoreOutcomeAsWritten(respond, errorMessage, prior, attributes, false, password).1 == Failure(ArgumentError)
    ensures StoreOutcome(respond, errorMessage, prior, attributes, false, password).0[0]
            == SecItemAdd(Merge(attributes, PasswordData(password)))
  {
  }

  class Item {
    var attributes: Dict

    /** `Item.new(attributes = {})`: the default class, overridden by what is given. */
    constructor (attributes: Dict := map[])
      ensures this.attributes == Merge(DefaultClass, attributes)
    {
      this.attributes := Merge(DefaultClass, attributes);
    }

    /**
     * `item[key]`: the stored value, or nil when the key is absent; as in
     * Ruby, an absent key and one stored with nil read the same.
     */
    function Get(key: Key): (v: Value)
      reads this
      ensures key in attributes ==> v == attributes[key]
      ensures v == Nil <==> key !in attributes || attributes[key] == Nil
    {
      if key in attributes then attributes[key] else Nil
    }

    /** `item[key] = value`. */
    method Set(key: Key, value: Value)
      modifies this
      ensures attributes == old(attributes)[key := value]
    {
      attributes := attributes[key := value];
    }

    /** `exists?`. */
    method Exists(service: Service, attrConstGet: string -> Key) returns (r: Result<bool, Error>)
      modifies service
      ensures attributes == old(attributes)
      ensures |service.log| == |old(service.log)| + 1 && service.log[..|old(service.log)|] == old(service.log)
      ensures var probe := service.log[|old(service.log)|];
              && probe.SecItemCopyMatching?
              && IsExistsSearch(probe.query, attributes, attrConstGet)
              && r == Outcome.Existence(service.respond(old(service.log), probe).status, ExistsPrefix, service.errorMessage)
    {
      var search := BuildExistsSearch(attributes, attrConstGet);
      var reply := service.Perform(SecItemCopyMatching(search));
      r := Outcome.Existence(reply.status, ExistsPrefix, service.errorMessage);
    }

    /** `password`: one fetch of the data; every failure, not-found included, raises. */
    method Password(service: Service) returns (r: Result<string, Error>)
      modifies service
      ensures attributes == old(attributes)
      ensures service.log == old(service.log) + [SecItemCopyMatching(DataQuery(attributes))]
      ensures var reply := service.respond(old(service.log), SecItemCopyMatching(DataQuery(attributes)));
              r == Outcome.Required(reply.status, reply.data, PasswordPrefix, service.errorMessage)
    {
      var reply := service.Perform(SecItemCopyMatching(DataQuery(attributes)));
      r := Outcome.Required(reply.status, reply.data, PasswordPrefix, service.errorMessage);
    }

    /**
     * `password = new_password`: asks `exists?`; when that does not raise,
     * writes the password as `StoreOutcome` describes.
     */
    method SetPassword(newPassword: string, service: Service, attrConstGet: string -> Key)
      returns (r: Result<string, Error>)
      modifies service
      ensures attributes == old(attributes)
      ensures |old(service.log)| < |service.log| && service.log[..|old(service.log)|] == old(service.log)
      ensures var probe := service.log[|old(service.log)|];
              probe.SecItemCopyMatching? && IsExistsSearch(probe.query, attributes, attrConstGet)
      ensures var probe := service.log[|old(service.log)|];
              var found := Outcome.Existence(service.respond(old(service.log), probe).status, ExistsPrefix, service.errorMessage);
              if found.Failure? then
                service.log == old(service.log) + [probe] && r == Failure(found.error)
              else
                var (calls, result) :=
                  StoreOutcome(service.respond, service.errorMessage, old(service.log) + [probe], attributes, found.value, newPassword);
                service.log == old(service.log) + [probe] + calls && r == result
    {
      var found := Exists(service, attrConstGet);
      ghost var probe := service.log[|old(service.log)|];
      assert service.log == old(service.log) + [probe];
      if found.Failure? {
        return Failure(found.error);
      }
      r := StorePassword(found.value, newPassword, service);
    }

    /** The write and the read-back of `password=`, once `exists?` has answered `present`. */
    method StorePassword(present: bool, newPassword: string, service: Service) returns (r: Result<string, Error>)
      modifies service
      ensures attributes == old(attributes)
      ensures var (calls, result) :=
                StoreOutcome(service.respond, service.errorMessage, old(service.log), attributes, present, newPassword);
              service.log == old(service.log) + calls && r == result
    {
      var reply := service.Perform(PasswordWrite(attributes, present, newPassword));
      if reply.status == ErrSecSuccess {
        r := Password(service);
      } else {
        r := Failure(KeychainException.New(UpdatePasswordPrefix, reply.status, service.errorMessage));
      }
    }

    /** `metadata`: one fetch of the attributes, returned and not stored. */
    method Metadata(service: Service) returns (r: Result<Dict, Error>)
      modifies service
      ensures attributes == old(attributes)
      ensures service.log == old(service.log) + [SecItemCopyMatching(AttributesQuery(attributes))]
      ensures var reply := service.respond(old(service.log), SecItemCopyMatching(AttributesQuery(attributes)));
              r == Outcome.Required(reply.status, reply.attributes, MetadataPrefix, service.errorMessage)
    {
      var reply := service.Perform(SecItemCopyMatching(AttributesQuery(attributes)));
      r := Outcome.Required(reply.status, reply.attributes, MetadataPrefix, service.errorMessage);
    }

    /** `metadata!`: the attributes become exactly the fetched dictionary; unchanged when it raises. */
    method ReloadMetadata(service: Service) returns (r: Result<Dict, Error>)
      modifies this, service
      ensures service.log == old(service.log) + [SecItemCopyMatching(AttributesQuery(old(attributes)))]
      ensures var reply := service.respond(old(service.log), SecItemCopyMatching(AttributesQuery(old(attributes))));
              r == Outcome.Required(reply.status, reply.attributes, MetadataPrefix, service.errorMessage)
      ensures attributes == if r.Success? then r.value else old(attributes)
    {
      r := Metadata(service);
      if r.Success? {
        attributes := r.value;
      }
    }

    /**
     * `update!(new_attributes)`: an update matching the attributes (one match);
     * on success the attributes are re-fetched as by `metadata!`, otherwise it
     * raises and the attributes are untouched.
     */
    method Update(newAttributes: Dict, service: Service) returns (r: Result<Dict, Error>)
      modifies this, service
      ensures var update := SecItemUpdate(MatchOneQuery(old(attributes)), newAttributes);
              var status := service.respond(old(service.log), update).status;
              if status != ErrSecSuccess then
                && service.log == old(service.log) + [update]
                && r == Failure(KeychainException.New(UpdateItemPrefix, status, service.errorMessage))
                && attributes == old(attributes)
              else
                var fetch := SecItemCopyMatching(AttributesQuery(old(attributes)));
                var reply := service.respond(old(service.log) + [update], fetch);
                && service.log == old(service.log) + [update, fetch]
                && r == Outcome.Required(reply.status, reply.attributes, MetadataPrefix, service.errorMessage)
                && attributes == if r.Success? then r.value else old(attributes)
    {
      var reply := service.Perform(SecItemUpdate(MatchOneQuery(attributes), newAttributes));
      if reply.status == ErrSecSuccess {
        r := ReloadMetadata(service);
      } else {
        r := Failure(KeychainException.New(UpdateItemPrefix, reply.status, service.errorMessage));
      }
    }
  }
}
