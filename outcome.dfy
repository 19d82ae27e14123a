/**
 * How the keychain code reads a platform result code: the `case` statements
 * that turn a status into a value or a raised KeychainException.
 */
module Outcome {
  import opened Wrappers
  import opened Security
  import KeychainException

  /**
   * The existence checks: success is true, not-found is false, and any other
   * code raises with the given prefix.
   */
  function Existence(status: int, prefix: string, errorMessage: int -> string)
    : (r: Result<bool, KeychainException.Exception>)
    ensures r == Success(true) <==> status == ErrSecSuccess
    ensures r == Success(false) <==> status == ErrSecItemNotFound
    ensures r.Failure? <==> status != ErrSecSuccess && status != ErrSecItemNotFound
    ensures r.Failure? ==> r.error == KeychainException.New(prefix, status, errorMessage)
  {
    if status == ErrSecSuccess then Success(true)
    else if status == ErrSecItemNotFound then Success(false)
    else Failure(KeychainException.New(prefix, status, errorMessage))
  }

  /**
   * The fetches and writes: success yields `value`; every other code, not-found
   * included, raises with the given prefix.
   */
  function Required<T>(status: int, value: T, prefix: string, errorMessage: int -> string)
    : (r: Result<T, KeychainException.Exception>)
    ensures r.Success? <==> status == ErrSecSuccess
    ensures r.Success? ==> r.value == value
    ensures r.Failure? ==> r.error == KeychainException.New(prefix, status, errorMessage)
  {
    if status == ErrSecSuccess then Success(value)
    else Failure(KeychainException.New(prefix, status, errorMessage))
  }
}
