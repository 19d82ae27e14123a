/**
 * Keychain.item_exists?: builds the search dictionary from a default class,
 * the caller's filters and the enforced controls, strips the return-type keys
 * that conflict with "return attributes", and reads the status as true, false
 * or a raised KeychainException.
 */
module Keychain {
  import opened Wrappers
  import opened Dictionary
  import opened Security
  import KeychainException
  import Outcome

  const ExistencePrefix: string := "Checking item existence"

  /** The return-type keys `item_exists?` deletes after merging. */
  const StrippedKeys: seq<Key> := [ReturnData, ReturnRef, ReturnPersistentRef]

  /**
   * The request `item_exists?` sends for the caller's `searchDict`: the
   * caller's class or Internet Password, one match, attributes returned, no
   * conflicting return type, and every other caller pair unchanged.
   */
  function ExistenceSearch(searchDict: Dict): (dict: Dict)
    ensures Class in dict && dict[Class] == if Class in searchDict then searchDict[Class] else ClassInternetPassword
    ensures MatchLimit in dict && dict[MatchLimit] == MatchLimitOne
    ensures ReturnAttributes in dict && dict[ReturnAttributes] == Bool(true)
    ensures ReturnData !in dict && ReturnRef !in dict && ReturnPersistentRef !in dict
    ensures forall k :: k in searchDict && k !in ReturnTypeKeys && k != Class && k != MatchLimit ==> k in dict && dict[k] == searchDict[k]
  {
    var requested := Merge(searchDict, AttributesRequest);
    assert requested[MatchLimit] == MatchLimitOne && requested[ReturnAttributes] == Bool(true);
    var merged := Merge(DefaultClass, requested);
    assert merged[Class] == if Class in searchDict then searchDict[Class] else ClassInternetPassword;
    merged - {ReturnData, ReturnRef, ReturnPersistentRef}
  }

  /** The request holds the caller's keys and the three it adds, less the conflicting return types. */
  lemma ExistenceSearchKeys(searchDict: Dict)
    ensures ExistenceSearch(searchDict).Keys
            == ({Class, MatchLimit, ReturnAttributes} + searchDict.Keys) - {ReturnData, ReturnRef, ReturnPersistentRef}
  {
    var merged := Merge(DefaultClass, Merge(searchDict, AttributesRequest));
    assert merged.Keys == {Class, MatchLimit, ReturnAttributes} + searchDict.Keys;
  }

  /** Exactly one return-type flag is sent: ReturnAttributes. */
  lemma ExistenceSearchOneReturnType(searchDict: Dict)
    ensures ExistenceSearch(searchDict).Keys * ReturnTypeKeys == {ReturnAttributes}
  {
    var dict := ExistenceSearch(searchDict);
    assert ReturnAttributes in dict.Keys * ReturnTypeKeys;
  }

  /** The dictionary building of `item_exists?`: merge, then delete each stripped key in turn. */
  method BuildExistenceSearch(searchDict: Dict) returns (dict: Dict)
    ensures dict == ExistenceSearch(searchDict)
  {
    dict := Merge(DefaultClass, Merge(searchDict, AttributesRequest));
    ghost var merged := dict;
    for n := 0 to |StrippedKeys|
      invariant dict == merged - (set i | 0 <= i < n :: StrippedKeys[i])
    {
      dict := dict - {StrippedKeys[n]};
    }
    assert StrippedKeys[0] == ReturnData && StrippedKeys[1] == ReturnRef && StrippedKeys[2] == ReturnPersistentRef;
    assert (set i | 0 <= i < |StrippedKeys| :: StrippedKeys[i]) == {ReturnData, ReturnRef, ReturnPersistentRef};
  }

  /**
   * `Keychain.item_exists?(search_dict)`. The caller's dictionary is a value,
   * so it cannot be changed by the call.
   */
  method ItemExists(searchDict: Dict, service: Service) returns (r: Result<bool, KeychainException.Exception>)
    modifies service
    ensures service.log == old(service.log) + [SecItemCopyMatching(ExistenceSearch(searchDict))]
    ensures r == Outcome.Existence(
                   service.respond(old(service.log), SecItemCopyMatching(ExistenceSearch(searchDict))).status,
                   ExistencePrefix, service.errorMessage)
  {
    var dict := BuildExistenceSearch(searchDict);
    var reply := service.Perform(SecItemCopyMatching(dict));
    r := Outcome.Existence(reply.status, ExistencePrefix, service.errorMessage);
  }
}
