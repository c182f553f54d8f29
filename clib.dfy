// The pieces of the C library the modelled code relies on, fixed to their
// ASCII / "C" locale definitions (isspace, isdigit, isxdigit, toupper,
// strlen), and the Option type used for results that may be absent.
module CLib {

  datatype Option<T> = None | Some(value: T)

  /** isspace in the "C" locale: space, \t, \n, \v, \f, \r. */
  predicate IsSpace(c: char)
  {
    c == ' ' || c == '\t' || c == '\n' || c == '\U{0B}' || c == '\U{0C}' || c == '\r'
  }

  /** isdigit: '0'..'9'. */
  predicate IsDigit(c: char)
  {
    '0' <= c <= '9'
  }

  /** isxdigit: '0'..'9', 'a'..'f', 'A'..'F'. */
  predicate IsXDigit(c: char)
  {
    IsDigit(c) || 'a' <= c <= 'f' || 'A' <= c <= 'F'
  }

  /** toupper in the "C" locale: only 'a'..'z' change. */
  function ToUpper(c: char): char
  {
    if 'a' <= c <= 'z' then (c as int - 32) as char else c
  }

  /** A sequence with no NUL: the characters of a C string before its terminator. */
  predicate NoNul(s: seq<char>)
  {
    forall i :: 0 <= i < |s| ==> s[i] != '\0'
  }

  /** strlen: the index of the first NUL of a buffer that holds one. */
  function Strlen(a: seq<char>): (n: nat)
    requires '\0' in a
    ensures n < |a| && a[n] == '\0'
    ensures NoNul(a[..n])
  {
    if a[0] == '\0' then 0
    else
      assert '\0' in a[1..] by {
        var k :| 0 <= k < |a| && a[k] == '\0';
        assert a[1..][k - 1] == '\0';
      }
      var n := 1 + Strlen(a[1..]);
      assert a[..n] == [a[0]] + a[1..][..n - 1];
      n
  }

  /** The string held by a NUL-terminated buffer. */
  function CStr(a: seq<char>): (s: seq<char>)
    requires '\0' in a
    ensures NoNul(s) && s + ['\0'] <= a
  {
    a[..Strlen(a)]
  }

  /** A NUL after q characters that are not NUL ends the string there. */
  lemma NulEndsString(a: seq<char>, q: nat)
    requires q < |a| && a[q] == '\0' && NoNul(a[..q])
    ensures '\0' in a && CStr(a) == a[..q]
  {
    assert forall i :: 0 <= i < q ==> a[i] == a[..q][i];
  }

  lemma NoNulAppend(x: seq<char>, y: seq<char>)
    requires NoNul(x) && NoNul(y)
    ensures NoNul(x + y)
  {
    forall i | 0 <= i < |x + y| ensures (x + y)[i] != '\0' {
      if i >= |x| {
        assert (x + y)[i] == y[i - |x|];
      }
    }
  }

  /** The string of a buffer whose first n characters are not NUL is those
      characters followed by the string that starts at n. */
  lemma CStrAfter(a: seq<char>, n: nat)
    requires n <= |a| && NoNul(a[..n]) && '\0' in a[n..]
    ensures '\0' in a && CStr(a) == a[..n] + CStr(a[n..])
  {
    var t := a[n..];
    var m := Strlen(t);
    assert a[n + m] == t[m];
    assert a[..n + m] == a[..n] + t[..m];
    NoNulAppend(a[..n], t[..m]);
    NulEndsString(a, n + m);
  }
}
