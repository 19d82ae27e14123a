/**
 * The dictionaries exchanged with the Security framework: finite maps from
 * attribute, search and return-type keys to values, and the request shapes
 * the keychain code builds from them.
 */
module Dictionary {

  /** The constants the code names, plus any other platform constant and Ruby symbols. */
  datatype Key =
    | Class                 // KSecClass
    | MatchLimit            // KSecMatchLimit
    | ReturnAttributes      // KSecReturnAttributes
    | ReturnData            // KSecReturnData
    | ReturnRef             // KSecReturnRef
    | ReturnPersistentRef   // KSecReturnPersistentRef
    | ValueData             // KSecValueData
    | Named(constant: string)  // any other KSec… key, e.g. KSecAttrServer; never one of the names above
    | Symbol(name: string)     // a Ruby Symbol used as a key, e.g. :server

  datatype Value =
    | Nil                      // Ruby's nil; in `update!` changes it asks the platform to remove the attribute
    | ClassInternetPassword    // KSecClassInternetPassword
    | MatchLimitOne            // KSecMatchLimitOne
    | Bool(flag: bool)
    | Text(text: string)
    | Data(bytes: string)      // NSData; password bytes are kept opaque as the string they encode
    | Constant(name: string)   // any other KSec… value, e.g. KSecAttrProtocolHTTPS

  type Dict = map<Key, Value>

  /** The return-type keys, of which a search request should carry exactly one. */
  const ReturnTypeKeys: set<Key> := {ReturnAttributes, ReturnData, ReturnRef, ReturnPersistentRef}

  /** The class every new item and every `item_exists?` search starts from. */
  const DefaultClass: Dict := map[Class := ClassInternetPassword]

  /** Controls of a metadata search: one match, return its attributes. */
  const AttributesRequest: Dict := map[MatchLimit := MatchLimitOne, ReturnAttributes := Bool(true)]

  /** Controls of a password search: one match, return its data. */
  const DataRequest: Dict := map[MatchLimit := MatchLimitOne, ReturnData := Bool(true)]

  /** Ruby's `a.merge(b)` (and `a.merge!(b)` on a fresh hash): union in which `b` wins. */
  function Merge(a: Dict, b: Dict): (r: Dict)
    ensures r.Keys == a.Keys + b.Keys
    ensures forall k :: k in b ==> r[k] == b[k]
    ensures forall k :: k in a && k !in b ==> r[k] == a[k]
  {
    a + b
  }

  /** `attributes.merge(KSecMatchLimit => KSecMatchLimitOne, KSecReturnAttributes => true)`. */
  function AttributesQuery(attributes: Dict): (q: Dict)
    ensures q.Keys == attributes.Keys + {MatchLimit, ReturnAttributes}
    ensures q[MatchLimit] == MatchLimitOne && q[ReturnAttributes] == Bool(true)
    ensures forall k :: k in attributes && k != MatchLimit && k != ReturnAttributes ==> q[k] == attributes[k]
  {
    Merge(attributes, AttributesRequest)
  }

  /** `attributes.merge(KSecMatchLimit => KSecMatchLimitOne, KSecReturnData => true)`. */
  function DataQuery(attributes: Dict): (q: Dict)
    ensures q.Keys == attributes.Keys + {MatchLimit, ReturnData}
    ensures q[MatchLimit] == MatchLimitOne && q[ReturnData] == Bool(true)
    ensures forall k :: k in attributes && k != MatchLimit && k != ReturnData ==> q[k] == attributes[k]
  {
    Merge(attributes, DataRequest)
  }

  /** `attributes.merge(KSecMatchLimit => KSecMatchLimitOne)`. */
  function MatchOneQuery(attributes: Dict): (q: Dict)
    ensures q.Keys == attributes.Keys + {MatchLimit}
    ensures q[MatchLimit] == MatchLimitOne
    ensures forall k :: k in attributes && k != MatchLimit ==> q[k] == attributes[k]
  {
    Merge(attributes, map[MatchLimit := MatchLimitOne])
  }
}
