# keychain — a Dafny model

This project models the Ruby glue that the `keychain` gem puts between a
MacRuby program and the macOS keychain (Security.framework):

- `NSMutableString#camelize!`, which rewrites a snake_case string to
  UpperCamelCase in its own buffer;
- `Keychain.item_exists?`, which turns a caller's search dictionary into one
  that asks whether a match exists;
- the `Keychain::Item` class. It holds one entry's attributes. Its methods
  build query dictionaries, send them to the platform and map result codes to
  values or exceptions;
- `Keychain::KeychainException#initialize`. It builds the message
  `"<prefix>. [Error code: <code>] <platform message>"` and keeps the code;
- the older `Keychain::Item` in `lib/keychain.rb`, with its message-only
  exception.

Dictionaries are `map<Key, Value>`. The keys are the `KSec…` constants the
code names, any other constant, and Ruby symbols. Ruby's `merge` is
`Dictionary.Merge`: the right-hand side wins.

The Security functions (`SecItemCopyMatching`, `SecItemAdd`, `SecItemUpdate`,
`SecCopyErrorMessageString`) are an oracle, `Security.Service`. Its `respond`
function gives the reply to a request from everything sent before it. Its
`errorMessage` function gives the platform's text for a code. Every request
is appended to `log`, so each method's contract states exactly which
requests it sends, in which order, and what it returns for any answer.
A reply carries a status, a dictionary and a string. A method reads the one
its request asked for.

Failures are values: `Result.Failure(exception)` stands for `raise`.

## Model

| member | source | states |
|---|---|---|
| CoreExt.Upcase | lib/mr_keychain/core_ext.rb:15 | `upcase` turns each of 'a'..'z' into its capital 'A'..'Z', leaves no lower-case letter and changes nothing else |
| CoreExt.Camelized | lib/mr_keychain/core_ext.rb:15 | the string `gsub!` produces: empty exactly for the empty string, and it starts with the first character up-cased whatever it is (the `^` alternative) |
| CoreExt.CamelTail | lib/mr_keychain/core_ext.rb:15 | the rest of the scan, where each `_` followed by a character yields that character up-cased; never longer than its input |
| CoreExt.Consumed | lib/mr_keychain/core_ext.rb:15 | the number of `_c` matches after the first character, at most half the text |
| CoreExt.NSMutableString.Camelize | lib/mr_keychain/core_ext.rb:14-16 | the buffer, edited in place, now holds `Camelized` of the old string; the result is the receiver, or nil for the empty string, which stays empty (spec/core_ext_spec.rb:16-18) |
| CoreExt.CamelizedLength | lib/mr_keychain/core_ext.rb:15 | each consumed underscore removes one character, so the string never grows |
| CoreExt.CamelTailLength | lib/mr_keychain/core_ext.rb:15 | after the first character, the scan's length is the input's less the underscores it consumes, at most half the input |
| CoreExt.CamelTailCopies | lib/mr_keychain/core_ext.rb:15 | text with no underscore is copied unchanged |
| CoreExt.CamelTailPair | lib/mr_keychain/core_ext.rb:15 | "_c" becomes the up-cased c; the text before it is kept |
| CoreExt.CamelTailTrailingUnderscore | lib/mr_keychain/core_ext.rb:15 | a final underscore has no character to capture and is kept |
| CoreExt.CamelCaseUnchanged | spec/core_ext_spec.rb:7-11 | a string already in UpperCamelCase is unchanged |
| CoreExt.TwoWords | spec/core_ext_spec.rb:2-6 | snake_case words become capitalised words, with the underscore dropped |
| Dictionary.Merge | lib/mr_keychain/item.rb:38 | keys are the union; the right-hand value wins on shared keys |
| Dictionary.AttributesQuery | lib/mr_keychain/item.rb:141-144 | the attributes, with match limit one and return-attributes true written over them |
| Dictionary.DataQuery | lib/mr_keychain/item.rb:79-82 | the attributes, with match limit one and return-data true written over them |
| Dictionary.MatchOneQuery | lib/mr_keychain/item.rb:125 | the attributes, with match limit one written over them |
| Decimal.NatToDecimal | lib/mr_keychain/keychain_exception.rb:13 | a non-empty string of digits, with no leading zero except for 0 itself |
| Decimal.IntToDecimal | lib/mr_keychain/keychain_exception.rb:13 | a leading '-' exactly for negative codes, then digits |
| Decimal.DigitChar | lib/mr_keychain/keychain_exception.rb:13 | a digit whose value is the given digit |
| Decimal.DigitValue | lib/mr_keychain/keychain_exception.rb:13 | a digit's value is below ten |
| Decimal.NatRoundTrip | lib/mr_keychain/keychain_exception.rb:13 | reading back the decimal text of a natural number gives the number |
| Decimal.IntRoundTrip | lib/mr_keychain/keychain_exception.rb:13 | reading back the decimal text of a code, negative ones included, gives the code |
| KeychainException.New | lib/mr_keychain/keychain_exception.rb:10-14 | the code is kept; the message starts with the prefix and ". [Error code: ", ends with "] " and the platform message for the code, and is exactly as long as those parts and the decimal code |
| KeychainException.CodeReadable | lib/mr_keychain/keychain_exception.rb:13 | the message is, segment by segment, the prefix, ". [Error code: ", the decimal code, "] " and the platform message, with nothing else; the digits read back as `code` |
| Outcome.Existence | lib/mr_keychain/keychain.rb:44-49 | success means true, not-found means false, and each holds only for that code; any other code raises an exception built from the prefix and that code |
| Outcome.Required | lib/mr_keychain/item.rb:84-89 | only success returns, and it returns the fetched value; every other code, not-found included, raises with the prefix and that code |
| Keychain.ExistenceSearch | lib/mr_keychain/keychain.rb:33-41 | the class defaults to internet password unless given; match limit one and return-attributes true; no other return-type key; every other caller key kept with its value |
| Keychain.ExistenceSearchKeys | lib/mr_keychain/keychain.rb:33-41 | the key set is the caller's keys plus the class and the two controls, less the three removed return types |
| Keychain.ExistenceSearchOneReturnType | lib/mr_keychain/keychain.rb:33-41 | return-attributes is the only return-type key left |
| Keychain.BuildExistenceSearch | lib/mr_keychain/keychain.rb:33-41 | the merge and the deletion loop compute `ExistenceSearch` |
| Keychain.ItemExists | lib/mr_keychain/keychain.rb:32-50 | sends exactly one copy-matching request for `ExistenceSearch` of the input, and answers as `Outcome.Existence` does for the reply's code |
| KeychainItem.PlatformKey | lib/mr_keychain/item.rb:52-56 | a symbol goes through `attr_const_get` by its name; any other key is used as it is |
| KeychainItem.BuildExistsSearch | lib/mr_keychain/item.rb:47-57 | the search holds the two controls with every attribute written over them under its platform key |
| KeychainItem.ExistsSearchWithoutSymbols | lib/mr_keychain/item.rb:47-57 | with no symbol keys the search is the controls merged under the attributes, so the attributes win |
| KeychainItem.ExistsSearchControls | lib/mr_keychain/item.rb:47-50 | unless an attribute lands on a control key, the search asks for one match and its attributes |
| KeychainItem.Item.constructor | lib/mr_keychain/item.rb:37-39 | the attributes are the default class overridden by the argument |
| KeychainItem.Item.Get | lib/mr_keychain/item.rb:24-26 | the attribute's value when the key is present; nil exactly when it is absent or stored as nil |
| KeychainItem.Item.Set | lib/mr_keychain/item.rb:29-31 | that one key now maps to the value; every other attribute is unchanged |
| KeychainItem.Item.Exists | lib/mr_keychain/item.rb:45-67 | sends one copy-matching request that is an `exists?` search for the attributes, and answers as `Outcome.Existence` does; attributes unchanged |
| KeychainItem.Item.Password | lib/mr_keychain/item.rb:77-90 | sends one data query for the attributes; returns the data only on success, otherwise raises 'Getting password'; attributes unchanged |
| KeychainItem.PasswordData | lib/mr_keychain/item.rb:99 | a dictionary holding only the password data |
| KeychainItem.PasswordWrite | lib/mr_keychain/item.rb:100-104 | an update of the item's data with the password exactly when the item exists, otherwise an add of the attributes with the password data added |
| KeychainItem.StoreOutcome | lib/mr_keychain/item.rb:99-111 | the write comes first; the read-back follows exactly when the write succeeds; a failed write raises 'Updating password' with its code; after the read-back the password is returned only when that read succeeds, and a failed read raises 'Getting password' with its code |
| KeychainItem.MissingItemAdded | lib/mr_keychain/item.rb:93-94 | for a missing item the first request adds it, carrying every attribute and the password; a returned password is the one read back after that add |
| KeychainItem.StoreOutcomeAsWritten | lib/mr_keychain/item.rb:98-112 | the `password=` write as the code stands; for an existing item it sends the same requests as the intended code and answers the same password, or the same exception wrapped as a keychain failure |
| KeychainItem.MissingItemNeverAdded | lib/mr_keychain/item.rb:103 | as written, a missing item gets no request after the probe and the call raises ArgumentError, where the intended code adds the item |
| KeychainItem.Item.SetPassword | lib/mr_keychain/item.rb:98-112 | first the `exists?` probe; its exception is passed on; otherwise the write and read-back `StoreOutcome` gives are sent and its result returned; attributes unchanged |
| KeychainItem.Item.StorePassword | lib/mr_keychain/item.rb:99-111 | an update of the data when the item exists, an add of attributes merged with the data when not; on success the password is read back, otherwise raises 'Updating password' |
| KeychainItem.Item.Metadata | lib/mr_keychain/item.rb:139-152 | sends one attributes query; returns the fetched dictionary on success, otherwise raises 'Getting metadata'; attributes unchanged |
| KeychainItem.Item.ReloadMetadata | lib/mr_keychain/item.rb:157-159 | sends `metadata`'s query; the attributes become the fetched dictionary, and stay unchanged when it raises |
| KeychainItem.Item.Update | lib/mr_keychain/item.rb:123-133 | sends one update that matches the attributes with limit one; on failure raises 'Updating keychain item' with the attributes unchanged; on success reloads as `metadata!` |
| LegacyKeychain.Raised | lib/keychain.rb:41-42 | the message is the fixed text followed by exactly the platform message |
| LegacyKeychain.ExistenceOutcome | lib/keychain.rb:35-43 | true exactly on success, false exactly on not-found; any other code raises "Error checking keychain item existence: …" |
| LegacyKeychain.PasswordOutcome | lib/keychain.rb:66-72 | the data exactly on success; every other code raises "Error getting password: …" |
| LegacyKeychain.Item.constructor | lib/keychain.rb:18-21 | the default class alone when no attributes are given, otherwise overridden by them |
| LegacyKeychain.Item.Exists | lib/keychain.rb:28-44 | sends one attributes query for the item and answers as `ExistenceOutcome` does; attributes unchanged |
| LegacyKeychain.Item.Password | lib/keychain.rb:59-73 | sends one data query for the item and answers as `PasswordOutcome` does; attributes unchanged |
| Security.Service.Perform | lib/mr_keychain/item.rb:59 | a request is appended to the log and answered by the oracle from the earlier history |

## Left out

- The keychain itself: matching, storage, encryption and the authorization prompt. These belong to the platform. `Security.Service.respond` stands for them and may answer anything.
- `Pointer.new :id` and reading `result[0]` are not modelled. A reply carries both an attribute dictionary and a data string, and each method reads the one it asked for. A reply of the wrong shape cannot arise.
- `to_data`, `to_str` and `NSString#initWithData:encoding:` are not modelled. Password text and password data are the same `string`, so UTF-8 conversion is the identity.
- `attr_const_get` turns a symbol into a `KSec…` constant by reflection. Here it is the parameter `attrConstGet`.
- `KeychainItem.BuildExistsSearch`: states that the written value is one of the attributes with that platform key, not which one. When two attributes map to one platform key, Ruby keeps the one its hash enumerates last; a map has no order.
- `KeychainItem.Item.Exists`: inherits the same weaker statement about colliding platform keys.
- `KeychainItem.Item.SetPassword`: follows the intended add branch. The ArgumentError the code as written raises for a missing item is modelled only by `KeychainItem.StoreOutcomeAsWritten` (see "## Findings").
- `KeychainItem.Item.SetPassword`: takes a `string`. `password = nil` would fail on `nil.to_data` in Ruby and is not modelled.
- `KeychainItem.Item.StorePassword`: for a missing item it sends the intended add of the attributes and the password. The code as written raises ArgumentError at lib/mr_keychain/item.rb:103 and sends nothing; that is modelled by `KeychainItem.StoreOutcomeAsWritten` (see "## Findings").
- `KeychainItem.Item.ReloadMetadata` and `KeychainItem.Item.Update`: in Ruby the hash they return is the very object now held in `@attributes`, so changing it later changes the item. Maps are values here, and this aliasing is not modelled.
- `attr_accessor :attributes` is not a method here. Writing and reading the `attributes` field directly is the same operation.
- `item_exists?` does not change the caller's dictionary. Map values are immutable here, so this holds without a proof.
- `camelize!`: `^` is treated as the start of the string only, and `.` as any character. Ruby's `^` also matches after a newline, and its `.` does not match a newline. Strings with newlines are outside the model.
- `camelize!`: `upcase` is ASCII only.
- `Named` keys stand for platform constants other than the ones `Key` lists by name. Nothing in the type stops a `Named` key from carrying one of those names, so "the request has no KSecReturnData" is about the `ReturnData` key only.
- `Nil` is a value like any other. The platform's reading of a nil change in `update!` as "remove this attribute" is part of the oracle.
- Where the specs and the code differ, the model follows the code, except for the one bug under "## Findings":
  - spec/keychain_spec.rb:10-11 expects `item_exists?` to return false on an unexpected code. The code raises, and so does `Keychain.ItemExists`.
  - The method `password=` returns the password read back by `password` (the `r` of `KeychainItem.Item.SetPassword`). An assignment `item.password = v` still evaluates to `v` in Ruby, so a caller sees the read-back only through `send(:password=, v)` or through the exception it raises.
  - In `Item#exists?` the attributes are written after the two controls, so an attribute under a control key overrides it (see `KeychainItem.ExistsSearchControls`).

## Findings

| source | as written | input that shows it | evidently intended | confidence | as-written member | corrected member |
|---|---|---|---|---|---|---|
| lib/mr_keychain/item.rb:103 | the paren-less `merge` call is the only argument in `SecItemAdd`'s parentheses, so the `nil` goes to `merge` as a second argument. `Hash#merge` takes one hash, so this raises ArgumentError and sends no add | `password = "pw"` on an item whose `exists?` probe answers not-found | add the item with its password data, then read the password back (lib/mr_keychain/item.rb:93-94) | medium, not executed; inferred from Ruby's grammar for a paren-less call as the sole argument | KeychainItem.MissingItemNeverAdded | KeychainItem.MissingItemAdded |

The rest of the model uses the corrected behaviour: `KeychainItem.Item.SetPassword` and `KeychainItem.Item.StorePassword` follow `StoreOutcome`.
