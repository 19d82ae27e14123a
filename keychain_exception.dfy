/**
 * Keychain::KeychainException: an error carrying the platform result code and
 * a message that names where it was raised, the code, and the platform's text
 * for that code.
 */
module KeychainException {
  import opened Decimal

  datatype Exception = Exception(message: string, code: int)

  const CodeOpening: string := ". [Error code: "
  const CodeClosing: string := "] "

  /**
   * `KeychainException.new(prefix, code)`, with `errorMessage` standing for
   * SecCopyErrorMessageString. Defined for every integer code, 0 included.
   */
  function New(prefix: string, code: int, errorMessage: int -> string): (e: Exception)
    ensures e.code == code
    ensures prefix <= e.message
    ensures |prefix| + |CodeOpening| <= |e.message|
    ensures e.message[|prefix|..|prefix| + |CodeOpening|] == CodeOpening
    ensures EndsWith(e.message, CodeClosing + errorMessage(code))
    ensures |e.message| == |prefix| + |CodeOpening| + |IntToDecimal(code)| + |CodeClosing| + |errorMessage(code)|
  {
    Exception(prefix + CodeOpening + IntToDecimal(code) + CodeClosing + errorMessage(code), code)
  }

  predicate EndsWith(s: string, suffix: string) {
    |suffix| <= |s| && s[|s| - |suffix|..] == suffix
  }

  /**
   * The message is exactly the prefix, ". [Error code: ", the code in
   * decimal, "] " and the platform text, with nothing in between; the
   * digits read back as the exception's code.
   */
  lemma CodeReadable(prefix: string, code: int, errorMessage: int -> string)
    ensures var e := New(prefix, code, errorMessage);
            var start := |prefix| + |CodeOpening|;
            var digits := |IntToDecimal(code)|;
            && start + digits + |CodeClosing| <= |e.message|
            && e.message[..|prefix|] == prefix
            && e.message[|prefix|..start] == CodeOpening
            && e.message[start..start + digits] == IntToDecimal(code)
            && e.message[start + digits..start + digits + |CodeClosing|] == CodeClosing
            && e.message[start + digits + |CodeClosing|..] == errorMessage(code)
            && ParseInt(e.message[start..start + digits]) == e.code
  {
    var e := New(prefix, code, errorMessage);
    var start := |prefix| + |CodeOpening|;
    var text := IntToDecimal(code);
    assert e.message[start..start + |text|] == text;
    assert e.message[start + |text|..start + |text| + |CodeClosing|] == CodeClosing;
    assert e.message[start + |text| + |CodeClosing|..] == errorMessage(code);
    IntRoundTrip(code);
  }
}
