/**
 * NSMutableString#camelize!: rewrites a snake_case string to UpperCamelCase in
 * place. Each match of "start of string or '_', then one character" is
 * replaced by that character upper-cased; the result is the receiver, or nil
 * when nothing matched (the empty string).
 */
module CoreExt {

  /** ASCII `upcase`. */
  function Upcase(c: char): (u: char)
    ensures !('a' <= u <= 'z')
    ensures 'a' <= c <= 'z' ==> 'A' <= u <= 'Z' && u as int == c as int - 32
    ensures !('a' <= c <= 'z') ==> u == c
  {
    if 'a' <= c <= 'z' then (c as int - 32) as char else c
  }

  /** The string `camelize!` leaves behind. */
  function Camelized(s: string): (r: string)
    ensures r == [] <==> s == []
    ensures r != [] ==> r[0] == Upcase(s[0])
  {
    if s == [] then [] else [Upcase(s[0])] + CamelTail(s[1..])
  }

  /** The rest of the scan, after the first character: each "_c" becomes "C". */
  function CamelTail(t: string): (r: string)
    ensures |r| <= |t|
  {
    if |t| >= 2 && t[0] == '_' then [Upcase(t[1])] + CamelTail(t[2..])
    else if t == [] then []
    else [t[0]] + CamelTail(t[1..])
  }

  /** How many underscores the scan of `t` consumes. */
  function Consumed(t: string): (n: nat)
    ensures 2 * n <= |t|
  {
    if |t| >= 2 && t[0] == '_' then 1 + Consumed(t[2..])
    else if t == [] then 0
    else Consumed(t[1..])
  }

  /** A mutable string buffer; the first `len` characters of `buf` are the string. */
  class NSMutableString {
    var buf: array<char>
    var len: nat

    ghost predicate Valid()
      reads this
    {
      len <= buf.Length
    }

    function Value(): string
      reads this, buf
      requires Valid()
    {
      buf[..len]
    }

    constructor (s: string)
      ensures Valid() && fresh(buf) && Value() == s
    {
      buf := new char[|s|](i requires 0 <= i < |s| => s[i]);
      len := |s|;
    }

    /**
     * `camelize!`: rewrites the buffer in place, reading at `i` and writing at
     * `j <= i`; returns this string, or null for the empty string.
     */
    method Camelize() returns (r: NSMutableString?)
      requires Valid()
      modifies this`len, buf
      ensures Valid() && buf == old(buf)
      ensures Value() == Camelized(old(Value()))
      ensures r == if old(len) == 0 then null else this
    {
      var a, n := buf, len;
      if n == 0 {
        return null;
      }
      ghost var s := a[..n];
      a[0] := Upcase(a[0]);
      ScanStart(s);
      assert a[..1] == [Upcase(s[0])];
      var i, j := 1, 1;
      while i < n
        invariant n == |s| <= a.Length
        invariant 1 <= j <= i <= n
        invariant forall k :: i <= k < n ==> a[k] == s[k]
        invariant Scanned(a[..j], s, i)
        decreases n - i
      {
        ghost var done := a[..j];
        var pair := a[i] == '_' && i + 1 < n;
        var c := if pair then Upcase(a[i + 1]) else a[i];
        Advance(done, s, i);
        a[j] := c;
        assert a[..j + 1] == done + [c];
        i, j := if pair then i + 2 else i + 1, j + 1;
      }
      ScanEnd(a[..j], s);
      len := j;
      r := this;
    }
  }

  /** After reading `s[..i]` the scan has written `out`: what is left to write is the scan of `s[i..]`. */
  ghost predicate Scanned(out: string, s: string, i: nat) {
    i <= |s| && out + CamelTail(s[i..]) == Camelized(s)
  }

  lemma ScanStart(s: string)
    requires s != []
    ensures Scanned([Upcase(s[0])], s, 1)
  {
  }

  lemma ScanEnd(out: string, s: string)
    requires Scanned(out, s, |s|)
    ensures out == Camelized(s)
  {
    assert s[|s|..] == [];
  }

  /**
   * One step of the scan at position `i` of `s`: "_c" (with a character
   * after the underscore) writes the up-cased character and reads two, any
   * other character is copied and read alone.
   */
  lemma Advance(done: string, s: string, i: nat)
    requires i < |s|
    requires Scanned(done, s, i)
    ensures i + 1 < |s| && s[i] == '_' ==> Scanned(done + [Upcase(s[i + 1])], s, i + 2)
    ensures !(i + 1 < |s| && s[i] == '_') ==> Scanned(done + [s[i]], s, i + 1)
  {
    assert s[i..][1..] == s[i + 1..];
    if i + 1 < |s| && s[i] == '_' {
      assert s[i..][2..] == s[i + 2..];
      assert CamelTail(s[i..]) == [Upcase(s[i + 1])] + CamelTail(s[i + 2..]);
    } else {
      assert CamelTail(s[i..]) == [s[i]] + CamelTail(s[i + 1..]);
    }
  }

  /** Each consumed underscore shortens the string by one, so it never grows. */
  lemma {:induction false} CamelizedLength(s: string)
    ensures |Camelized(s)| == |s| - (if s == [] then 0 else Consumed(s[1..]))
    ensures |Camelized(s)| <= |s|
  {
    if s != [] {
      CamelTailLength(s[1..]);
    }
  }

  lemma {:induction false} CamelTailLength(t: string)
    ensures |CamelTail(t)| == |t| - Consumed(t)
    ensures 2 * Consumed(t) <= |t|
  {
    if |t| >= 2 && t[0] == '_' {
      CamelTailLength(t[2..]);
    } else if t != [] {
      CamelTailLength(t[1..]);
    }
  }

  /** Text without underscores is copied unchanged and in order. */
  lemma {:induction false} CamelTailCopies(w: string)
    requires '_' !in w
    ensures CamelTail(w) == w
  {
    if w != [] {
      assert w[0] != '_';
      CamelTailCopies(w[1..]);
    }
  }

  /** A segment `w`, then "_c": the segment is copied and "_c" becomes "C". */
  lemma {:induction false} CamelTailPair(w: string, c: char, t: string)
    requires '_' !in w
    ensures CamelTail(w + ['_', c] + t) == w + [Upcase(c)] + CamelTail(t)
  {
    if w == [] {
      assert (['_', c] + t)[2..] == t;
    } else {
      assert w[0] != '_';
      assert (w + ['_', c] + t)[1..] == w[1..] + ['_', c] + t;
      CamelTailPair(w[1..], c, t);
    }
  }

  /** A lone underscore at the end has no character after it and is kept. */
  lemma {:induction false} CamelTailTrailingUnderscore(w: string)
    requires '_' !in w
    ensures CamelTail(w + ['_']) == w + ['_']
  {
    if w == [] {
    } else {
      assert w[0] != '_';
      assert (w + ['_'])[1..] == w[1..] + ['_'];
      CamelTailTrailingUnderscore(w[1..]);
    }
  }

  /** A string already in UpperCamelCase, with no underscores, is left as it is. */
  lemma CamelCaseUnchanged(s: string)
    requires s != [] && !('a' <= s[0] <= 'z')
    requires '_' !in s
    ensures Camelized(s) == s
  {
    assert forall k :: 0 <= k < |s[1..]| ==> s[1..][k] == s[k + 1];
    CamelTailCopies(s[1..]);
  }

  /**
   * Two snake_case words become two capitalised words, as "method_name"
   * becomes "MethodName": the first character and the one after the
   * underscore are up-cased, the underscore dropped, the rest copied.
   */
  lemma TwoWords(u: string, c: char, v: string)
    requires u != [] && '_' !in u && '_' !in v
    ensures Camelized(u + ['_', c] + v) == [Upcase(u[0])] + u[1..] + [Upcase(c)] + v
  {
    var s := u + ['_', c] + v;
    assert s[1..] == u[1..] + ['_', c] + v;
    assert '_' !in u[1..];
    CamelTailPair(u[1..], c, v);
    CamelTailCopies(v);
  }

}
