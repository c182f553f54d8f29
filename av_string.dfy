// Model of the string helpers of string/av_string.c: the prefix tests
// av_strstart and av_stristart, the case-insensitive search av_stristr,
// the bounded copies av_strlcpy and av_strlcat, and the tokenizer
// av_get_token.
//
// A read-only C string is the sequence of its characters before the
// terminator; the end of the sequence stands for the NUL.  A pointer into
// such a string is an offset.  The destination of av_strlcpy/av_strlcat is
// a char array written in place.
module AvString {
  import opened CLib

  function Min(a: nat, b: nat): nat
  {
    if a <= b then a else b
  }

  // -----------------------------------------------------------------------
  // av_strstart, av_stristart

  /** pfx is a prefix of str when characters are compared under toupper. */
  predicate IsPrefixNoCase(pfx: seq<char>, str: seq<char>)
  {
    |pfx| <= |str| && forall i :: 0 <= i < |pfx| ==> ToUpper(pfx[i]) == ToUpper(str[i])
  }

  /** av_strstart(str, pfx, &ptr): walks both strings while they agree.
      Matches exactly when pfx is a prefix of str, and then ptr is the
      offset just after the prefix (Some); no match leaves ptr alone
      (None). */
  method StrStart(str: seq<char>, pfx: seq<char>) returns (r: Option<nat>)
    ensures r.Some? <==> pfx <= str
    ensures r.Some? ==> r.value == |pfx|
  {
    var i := 0;
    while i < |pfx| && i < |str| && pfx[i] == str[i]
      invariant i <= |pfx| && i <= |str|
      invariant pfx[..i] == str[..i]
    {
      i := i + 1;
    }
    if i == |pfx| {
      return Some(i);
    }
    return None;
  }

  /** av_stristart(str, pfx, &ptr): the same walk comparing toupper of
      both characters. */
  method StriStart(str: seq<char>, pfx: seq<char>) returns (r: Option<nat>)
    ensures r.Some? <==> IsPrefixNoCase(pfx, str)
    ensures r.Some? ==> r.value == |pfx|
  {
    var i := 0;
    while i < |pfx| && i < |str| && ToUpper(pfx[i]) == ToUpper(str[i])
      invariant i <= |pfx| && i <= |str|
      invariant forall j :: 0 <= j < i ==> ToUpper(pfx[j]) == ToUpper(str[j])
    {
      i := i + 1;
    }
    if i == |pfx| {
      return Some(i);
    }
    return None;
  }

  /** A string mapped through toupper. */
  function Upper(s: seq<char>): (r: seq<char>)
    ensures |r| == |s|
  {
    seq(|s|, i requires 0 <= i < |s| => ToUpper(s[i]))
  }

  /** The case-insensitive prefix test is the plain prefix test on the
      upper-cased strings. */
  lemma PrefixNoCaseIsUpperPrefix(pfx: seq<char>, str: seq<char>)
    ensures IsPrefixNoCase(pfx, str) <==> Upper(pfx) <= Upper(str)
  {
    if Upper(pfx) <= Upper(str) {
      forall i | 0 <= i < |pfx| ensures ToUpper(pfx[i]) == ToUpper(str[i]) {
        assert Upper(pfx)[i] == Upper(str)[i];
      }
    }
  }

  /** A prefix is also a prefix regardless of case. */
  lemma PrefixIsPrefixNoCase(pfx: seq<char>, str: seq<char>)
    requires pfx <= str
    ensures IsPrefixNoCase(pfx, str)
  {
    forall i | 0 <= i < |pfx| ensures pfx[i] == str[i] {
      assert str[..|pfx|][i] == str[i];
    }
  }

  // -----------------------------------------------------------------------
  // av_stristr

  /** av_stristr(s1, s2): an empty needle matches at offset 0; otherwise
      av_stristart is tried at every offset of s1 in turn, the offset of
      its terminator included, and the first match is returned (None for
      the null pointer). */
  method StriStr(s1: seq<char>, s2: seq<char>) returns (r: Option<nat>)
    ensures |s2| == 0 ==> r == Some(0)
    ensures r.Some? ==> r.value <= |s1| && IsPrefixNoCase(s2, s1[r.value..])
    ensures r.Some? ==> forall j :: 0 <= j < r.value ==> !IsPrefixNoCase(s2, s1[j..])
    ensures r.None? ==> forall j :: 0 <= j <= |s1| ==> !IsPrefixNoCase(s2, s1[j..])
  {
    if |s2| == 0 {
      return Some(0);
    }
    var i := 0;
    var m := StriStart(s1, s2);
    assert s1[0..] == s1;
    while m.None? && i < |s1|
      invariant i <= |s1|
      invariant m.Some? <==> IsPrefixNoCase(s2, s1[i..])
      invariant forall j :: 0 <= j < i ==> !IsPrefixNoCase(s2, s1[j..])
    {
      i := i + 1;
      m := StriStart(s1[i..], s2);
    }
    if m.Some? {
      return Some(i);
    }
    return None;
  }

  /** A case-sensitive occurrence of the needle bounds where av_stristr
      stops: it finds that one or an earlier match. */
  lemma StriStrFindsExact(s1: seq<char>, s2: seq<char>, j: nat, r: Option<nat>)
    requires j <= |s1| && s2 <= s1[j..]
    requires r.Some? ==> r.value <= |s1| && forall i :: 0 <= i < r.value ==> !IsPrefixNoCase(s2, s1[i..])
    requires r.None? ==> forall i :: 0 <= i <= |s1| ==> !IsPrefixNoCase(s2, s1[i..])
    ensures r.Some? && r.value <= j
  {
    PrefixIsPrefixNoCase(s2, s1[j..]);
  }

  // -----------------------------------------------------------------------
  // av_strlcpy, av_strlcat

  /** av_strlcpy(dst + at, src, size): copies at most size - 1 characters
      of src to dst + at and terminates them, writing nothing when size is
      0; returns strlen(src).  Nothing at or after dst + at + size is
      written. */
  method StrLCpy(dst: array<char>, at: nat, src: seq<char>, size: nat) returns (r: nat)
    requires at + size <= dst.Length && NoNul(src)
    modifies dst
    ensures r == |src|
    ensures size == 0 ==> dst[..] == old(dst[..])
    ensures size > 0 ==> var k := Min(|src|, size - 1);
      && dst[..at] == old(dst[..at])
      && dst[at..at + k] == src[..k] && dst[at + k] == '\0'
      && dst[at + k + 1..] == old(dst[at + k + 1..])
    ensures size > 0 ==> '\0' in dst[at..] && CStr(dst[at..]) == src[..Min(|src|, size - 1)]
    ensures size > 0 ==> (CStr(dst[at..]) == src <==> r < size)
  {
    var len := CopyPrefix(dst, at, src, size);
    if len <= size {
      dst[at + len - 1] := '\0';
    }
    r := len + |src[len - 1..]| - 1;
    if size > 0 {
      CopiedString(dst[..], old(dst[..]), at, src, len - 1);
    }
  }

  /** The loop of av_strlcpy: `while (++len < size && *src)` copies one
      character per round.  Returns len, one more than the number copied. */
  method CopyPrefix(dst: array<char>, at: nat, src: seq<char>, size: nat) returns (len: nat)
    requires at + size <= dst.Length
    modifies dst
    ensures 1 <= len <= |src| + 1
    ensures size > 0 ==> len - 1 == Min(|src|, size - 1)
    ensures size == 0 ==> len == 1
    ensures forall j :: 0 <= j < len - 1 ==> dst[at + j] == src[j]
    ensures forall j :: 0 <= j < at ==> dst[j] == old(dst[j])
    ensures forall j :: at + len - 1 <= j < dst.Length ==> dst[j] == old(dst[j])
  {
    len := 1;
    while len < size && len - 1 < |src|
      invariant 1 <= len <= |src| + 1
      invariant size > 0 ==> len <= size
      invariant size == 0 ==> len == 1
      invariant forall j :: 0 <= j < len - 1 ==> dst[at + j] == src[j]
      invariant forall j :: 0 <= j < at ==> dst[j] == old(dst[j])
      invariant forall j :: at + len - 1 <= j < dst.Length ==> dst[j] == old(dst[j])
    {
      dst[at + len - 1] := src[len - 1];
      len := len + 1;
    }
  }

  /** The buffer av_strlcpy leaves: k characters of src at offset at, then
      a NUL, the rest as before. */
  lemma CopiedString(a: seq<char>, a0: seq<char>, at: nat, src: seq<char>, k: nat)
    requires at + k < |a| == |a0| && k <= |src| && NoNul(src)
    requires forall j :: 0 <= j < k ==> a[at + j] == src[j]
    requires a[at + k] == '\0'
    requires forall j :: 0 <= j < at ==> a[j] == a0[j]
    requires forall j :: at + k + 1 <= j < |a| ==> a[j] == a0[j]
    ensures a[..at] == a0[..at] && a[at..at + k] == src[..k]
    ensures a[at + k + 1..] == a0[at + k + 1..]
    ensures '\0' in a[at..] && CStr(a[at..]) == src[..k]
  {
    var t := a[at..];
    assert t[..k] == src[..k] by {
      forall j | 0 <= j < k ensures t[j] == src[j] {
        assert t[j] == a[at + j];
      }
    }
    assert forall i :: 0 <= i < k ==> t[i] == t[..k][i];
    assert t[k] == '\0';
  }

  /** av_strlcat(dst, src, size): when size <= strlen(dst) + 1 nothing is
      written (unlike BSD strlcat, strlen(dst) is not bounded by size);
      otherwise src is appended with av_strlcpy(dst + len, src, size - len).
      Returns strlen(dst) + strlen(src) in both cases. */
  method StrLCat(dst: array<char>, src: seq<char>, size: nat) returns (r: nat)
    requires '\0' in dst[..] && size <= dst.Length && NoNul(src)
    modifies dst
    ensures var d := CStr(old(dst[..])); r == |d| + |src|
    ensures var d := CStr(old(dst[..])); size <= |d| + 1 ==> dst[..] == old(dst[..])
    ensures var d := CStr(old(dst[..])); size > |d| + 1 ==>
      && dst[..|d|] == d && dst[size..] == old(dst[size..])
      && '\0' in dst[..] && CStr(dst[..]) == (d + src)[..Min(|d| + |src|, size - 1)]
    ensures var d := CStr(old(dst[..])); size > |d| + 1 ==>
      dst[|d| + Min(|src|, size - |d| - 1) + 1..] == old(dst[|d| + Min(|src|, size - |d| - 1) + 1..])
    ensures var d := CStr(old(dst[..])); size > |d| + 1 ==>
      '\0' in dst[..] && (CStr(dst[..]) == d + src <==> r < size)
  {
    ghost var d := CStr(dst[..]);
    var len := Strlen(dst[..]);
    if size <= len + 1 {
      return len + |src|;
    }
    var n := StrLCpy(dst, len, src, size - len);
    r := len + n;
    AppendedString(dst[..], old(dst[..]), src, size);
  }

  /** The buffer av_strlcat leaves when it appends: what av_strlcpy leaves
      at dst + len, seen from the start of dst. */
  lemma AppendedString(a: seq<char>, a0: seq<char>, src: seq<char>, size: nat)
    requires size <= |a| == |a0| && '\0' in a0 && |CStr(a0)| + 1 < size
    requires var d := CStr(a0); var k := Min(|src|, size - |d| - 1);
      && a[..|d|] == a0[..|d|] && a[|d| + k + 1..] == a0[|d| + k + 1..]
      && '\0' in a[|d|..] && CStr(a[|d|..]) == src[..k]
    ensures var d := CStr(a0);
      && a[..|d|] == d && a[size..] == a0[size..]
      && '\0' in a && CStr(a) == (d + src)[..Min(|d| + |src|, size - 1)]
    ensures var d := CStr(a0);
      a[|d| + Min(|src|, size - |d| - 1) + 1..] == a0[|d| + Min(|src|, size - |d| - 1) + 1..]
    ensures var d := CStr(a0);
      '\0' in a && (CStr(a) == d + src <==> |d| + |src| < size)
  {
    var d := CStr(a0);
    var k := Min(|src|, size - |d| - 1);
    assert a[..|d|] == d by {
      assert a0[..|d|] == d;
    }
    assert a[size..] == a0[size..] by {
      SuffixUnchanged(a, a0, |d| + k + 1, size);
    }
    assert '\0' in a && CStr(a) == d + src[..k] by {
      CStrAfter(a, |d|);
    }
    assert (d + src)[..Min(|d| + |src|, size - 1)] == d + src[..k] by {
      assert Min(|d| + |src|, size - 1) == |d| + k;
    }
    assert CStr(a) == d + src <==> |d| + |src| < size by {
      assert |CStr(a)| == |d| + k;
      if |d| + |src| < size {
        assert src[..k] == src;
      }
    }
  }

  /** Suffixes of equal suffixes are equal. */
  lemma SuffixUnchanged(a: seq<char>, a0: seq<char>, i: nat, j: nat)
    requires i <= j <= |a| == |a0| && a[i..] == a0[i..]
    ensures a[j..] == a0[j..]
  {
    assert a[j..] == a[i..][j - i..];
    assert a0[j..] == a0[i..][j - i..];
  }

  // -----------------------------------------------------------------------
  // av_get_token

  /** The WHITESPACES of av_get_token: space, newline and tab. */
  predicate IsBlank(c: char)
  {
    c == ' ' || c == '\n' || c == '\t'
  }

  /** strspn(s, WHITESPACES): the number of blanks s starts with. */
  function BlankRun(s: seq<char>): (k: nat)
    ensures k <= |s|
  {
    if |s| == 0 || !IsBlank(s[0]) then 0 else 1 + BlankRun(s[1..])
  }

  lemma {:induction false} BlankRunUnique(s: seq<char>, k: nat)
    requires k <= |s|
    requires forall i :: 0 <= i < k ==> IsBlank(s[i])
    requires k < |s| ==> !IsBlank(s[k])
    ensures BlankRun(s) == k
  {
    if k > 0 {
      BlankRunUnique(s[1..], k - 1);
    }
  }

  /** The offset of the quote closing a literal opened before p, or |s|
      when there is none. */
  function QuoteEnd(s: seq<char>, p: nat): (q: nat)
    requires p <= |s|
    ensures p <= q <= |s| && (q < |s| ==> s[q] == '\'')
    ensures forall i :: p <= i < q ==> s[i] != '\''
    decreases |s| - p
  {
    if p == |s| || s[p] == '\'' then p else QuoteEnd(s, p + 1)
  }

  lemma {:induction false} QuoteEndUnique(s: seq<char>, p: nat, q: nat)
    requires p <= q <= |s| && (q < |s| ==> s[q] == '\'')
    requires forall i :: p <= i < q ==> s[i] != '\''
    ensures QuoteEnd(s, p) == q
    decreases q - p
  {
    if p < q {
      QuoteEndUnique(s, p + 1, q);
    }
  }

  /** Where the scan of av_get_token stops: the characters output, the
      length of their prefix that trailing-blank removal may not touch, and
      the offset of the first unconsumed input character. */
  datatype Scanned = Scanned(out: seq<char>, end: nat, rest: nat)

  /** The main loop of av_get_token from offset p, with out written so far
      and its first end characters protected.  A backslash followed by a
      character outputs that character, protected; a quote outputs
      everything up to the closing quote, protected when the quote is
      closed; any other character is output as it is.  The scan stops at
      the end of s or at a character of term met outside a quote or an
      escape. */
  function Scan(s: seq<char>, term: seq<char>, p: nat, out: seq<char>, end: nat): Scanned
    requires p <= |s| && end <= |out|
    decreases |s| - p
  {
    if p == |s| || s[p] in term then Scanned(out, end, p)
    else if s[p] == '\\' && p + 1 < |s| then
      Scan(s, term, p + 2, out + [s[p + 1]], |out| + 1)
    else if s[p] == '\'' then
      var q := QuoteEnd(s, p + 1);
      if q < |s| then Scan(s, term, q + 1, out + s[p + 1..q], |out| + (q - p - 1))
      else Scan(s, term, q, out + s[p + 1..q], end)
    else
      Scan(s, term, p + 1, out + [s[p]], end)
  }

  /** The final loop of av_get_token: NULs over trailing blanks, but not
      over the first end characters. */
  function TrimBlanks(out: seq<char>, end: nat): seq<char>
  {
    if |out| > end && IsBlank(out[|out| - 1]) then TrimBlanks(out[..|out| - 1], end) else out
  }

  /** av_get_token(&buf, term): the token and the new offset of *buf. */
  function Token(buf: seq<char>, term: seq<char>): (seq<char>, nat)
  {
    var sc := Scan(buf, term, BlankRun(buf), [], 0);
    (TrimBlanks(sc.out, sc.end), sc.rest)
  }

  /** The scan stops at the end of the input or at a character of term,
      only appends to the output, never protects less, and outputs at
      most one character per input character consumed. */
  lemma {:induction false} ScanBounds(s: seq<char>, term: seq<char>, p: nat, out: seq<char>, end: nat)
    requires p <= |s| && end <= |out|
    ensures var r := Scan(s, term, p, out, end);
      && p <= r.rest <= |s| && (r.rest < |s| ==> s[r.rest] in term)
      && out <= r.out && end <= r.end <= |r.out|
      && |r.out| + p <= |out| + r.rest
    decreases |s| - p
  {
    if p == |s| || s[p] in term {
    } else if s[p] == '\\' && p + 1 < |s| {
      ScanBounds(s, term, p + 2, out + [s[p + 1]], |out| + 1);
    } else if s[p] == '\'' {
      var q := QuoteEnd(s, p + 1);
      if q < |s| {
        ScanBounds(s, term, q + 1, out + s[p + 1..q], |out| + (q - p - 1));
      } else {
        ScanBounds(s, term, q, out + s[p + 1..q], end);
      }
    } else {
      ScanBounds(s, term, p + 1, out + [s[p]], end);
    }
  }

  /** Trailing-blank removal keeps a prefix that contains the protected
      part, does not end in a blank past it, and removes only blanks. */
  lemma {:induction false} TrimBlanksShape(out: seq<char>, end: nat)
    requires end <= |out|
    ensures var t := TrimBlanks(out, end);
      && t <= out && end <= |t|
      && (|t| > end ==> !IsBlank(t[|t| - 1]))
      && (forall i :: |t| <= i < |out| ==> IsBlank(out[i]))
  {
    if |out| > end && IsBlank(out[|out| - 1]) {
      TrimBlanksShape(out[..|out| - 1], end);
    }
  }

  /** The token av_get_token returns: it comes after the leading blanks,
      is no longer than the input it was scanned from, and the new *buf is
      the end of the input or a character of term. */
  lemma TokenBounds(buf: seq<char>, term: seq<char>)
    ensures var (t, rest) := Token(buf, term);
      && BlankRun(buf) + |t| <= rest <= |buf|
      && (rest < |buf| ==> buf[rest] in term)
  {
    var sc := Scan(buf, term, BlankRun(buf), [], 0);
    ScanBounds(buf, term, BlankRun(buf), [], 0);
    TrimBlanksShape(sc.out, sc.end);
  }

  /** av_get_token(&buf, term): skips blanks, scans, then removes trailing
      blanks from the output buffer.  Returns the token and the offset
      *buf is set to. */
  method GetToken(buf: seq<char>, term: seq<char>) returns (token: seq<char>, rest: nat)
    ensures (token, rest) == Token(buf, term)
  {
    var p := 0;
    while p < |buf| && IsBlank(buf[p])
      invariant p <= |buf|
      invariant forall i :: 0 <= i < p ==> IsBlank(buf[i])
    {
      p := p + 1;
    }
    BlankRunUnique(buf, p);
    var out, end, q := ScanLoop(buf, term, p);
    ghost var sc := Scan(buf, term, p, [], 0);
    while |out| > end && IsBlank(out[|out| - 1])
      invariant end <= |out|
      invariant TrimBlanks(out, end) == TrimBlanks(sc.out, sc.end)
    {
      out := out[..|out| - 1];
    }
    token, rest := out, q;
  }

  /** The main loop of av_get_token, from offset p0 past the leading
      blanks: returns the output buffer, the end of its protected part
      and the offset where the scan stopped. */
  method ScanLoop(buf: seq<char>, term: seq<char>, p0: nat) returns (out: seq<char>, end: nat, p: nat)
    requires p0 <= |buf|
    ensures end <= |out| && Scanned(out, end, p) == Scan(buf, term, p0, [], 0)
  {
    p, out, end := p0, [], 0;
    while p < |buf| && buf[p] !in term
      invariant p <= |buf| && end <= |out|
      invariant Scan(buf, term, p, out, end) == Scan(buf, term, p0, [], 0)
      decreases |buf| - p
    {
      var c := buf[p];
      p := p + 1;
      if c == '\\' && p < |buf| {
        out := out + [buf[p]];
        p := p + 1;
        end := |out|;
      } else if c == '\'' {
        out, p := CopyQuoted(buf, p, out);
        if p < |buf| {
          p := p + 1;
          end := |out|;
        }
      } else {
        out := out + [c];
      }
    }
  }

  /** The loop inside a quote: copies characters up to the closing quote
      or the end of the input, and stops on the quote. */
  method CopyQuoted(buf: seq<char>, p0: nat, out0: seq<char>) returns (out: seq<char>, p: nat)
    requires p0 <= |buf|
    ensures p == QuoteEnd(buf, p0) && out == out0 + buf[p0..p]
  {
    p, out := p0, out0;
    while p < |buf| && buf[p] != '\''
      invariant p0 <= p <= |buf| && out == out0 + buf[p0..p]
      invariant forall i :: p0 <= i < p ==> buf[i] != '\''
    {
      out := out + [buf[p]];
      p := p + 1;
    }
    QuoteEndUnique(buf, p0, p);
  }

  // -----------------------------------------------------------------------
  // Properties of av_get_token

  /** Characters the scan outputs as they are: no backslash, no quote and
      nothing of term. */
  predicate Ordinary(r: seq<char>, term: seq<char>)
  {
    forall i :: 0 <= i < |r| ==> r[i] != '\\' && r[i] != '\'' && r[i] !in term
  }

  predicate Blanks(r: seq<char>)
  {
    forall i :: 0 <= i < |r| ==> IsBlank(r[i])
  }

  /** A run of ordinary characters is copied to the output unprotected. */
  lemma {:induction false} ScanRun(s: seq<char>, term: seq<char>, p: nat, r: seq<char>, out: seq<char>, end: nat)
    requires p + |r| <= |s| && s[p..p + |r|] == r && Ordinary(r, term) && end <= |out|
    ensures Scan(s, term, p, out, end) == Scan(s, term, p + |r|, out + r, end)
    decreases |r|
  {
    if |r| == 0 {
      assert out + r == out;
    } else {
      assert s[p] == r[0];
      assert s[p + 1..p + |r|] == r[1..];
      assert Ordinary(r[1..], term) by {
        forall i | 0 <= i < |r| - 1 ensures r[1..][i] == r[i + 1] {
        }
      }
      ScanRun(s, term, p + 1, r[1..], out + [r[0]], end);
      assert out + [r[0]] + r[1..] == out + r;
    }
  }

  /** Trailing blanks past the protected part are all removed. */
  lemma {:induction false} TrimBlanksOver(t: seq<char>, v: seq<char>, end: nat)
    requires Blanks(v) && end <= |t| && (|t| > end ==> !IsBlank(t[|t| - 1]))
    ensures TrimBlanks(t + v, end) == t
    decreases |v|
  {
    if |v| == 0 {
      assert t + v == t;
    } else {
      assert (t + v)[..|t + v| - 1] == t + v[..|v| - 1];
      TrimBlanksOver(t, v[..|v| - 1], end);
    }
  }

  /** p blanks followed by something else: the leading blanks end at p. */
  lemma LeadingBlanks(s: seq<char>, p: nat)
    requires p < |s| && Blanks(s[..p]) && !IsBlank(s[p])
    ensures BlankRun(s) == p
  {
    assert forall i :: 0 <= i < p ==> s[i] == s[..p][i];
    BlankRunUnique(s, p);
  }

  lemma OrdinaryAppend(x: seq<char>, y: seq<char>, term: seq<char>)
    requires Ordinary(x, term) && Ordinary(y, term)
    ensures Ordinary(x + y, term)
  {
    forall i | |x| <= i < |x| + |y| ensures (x + y)[i] == y[i - |x|] {
    }
  }

  /** No quote character in r. */
  predicate Unquoted(r: seq<char>)
  {
    forall i :: 0 <= i < |r| ==> r[i] != '\''
  }

  /** A closed quote at p outputs its contents, all protected. */
  lemma ScanQuoted(s: seq<char>, term: seq<char>, p: nat, x: seq<char>, out: seq<char>, end: nat)
    requires p + |x| + 1 < |s| && s[p] == '\'' && '\'' !in term && end <= |out|
    requires s[p + 1..p + 1 + |x|] == x && Unquoted(x) && s[p + 1 + |x|] == '\''
    ensures Scan(s, term, p, out, end) == Scan(s, term, p + |x| + 2, out + x, |out| + |x|)
  {
    forall i | p + 1 <= i < p + 1 + |x| ensures s[i] != '\'' {
      assert s[i] == x[i - p - 1];
    }
    QuoteEndUnique(s, p + 1, p + 1 + |x|);
  }

  /** The scan stops at the end of the input or at a character of term. */
  lemma ScanStop(s: seq<char>, term: seq<char>, p: nat, out: seq<char>, end: nat)
    requires p <= |s| && end <= |out| && (p == |s| || s[p] in term)
    ensures Scan(s, term, p, out, end) == Scanned(out, end, p)
  {
  }

  /** A scan from p that meets only ordinary characters before a stop. */
  lemma ScanWord(s: seq<char>, term: seq<char>, p: nat, r: seq<char>)
    requires p + |r| <= |s| && s[p..p + |r|] == r && Ordinary(r, term)
    requires p + |r| == |s| || s[p + |r|] in term
    ensures Scan(s, term, p, [], 0) == Scanned(r, 0, p + |r|)
  {
    ScanRun(s, term, p, r, [], 0);
    assert [] + r == r;
  }

  /** A scan from a closed quote followed by ordinary characters and a stop. */
  lemma ScanQuotedWord(s: seq<char>, term: seq<char>, p: nat, x: seq<char>, v: seq<char>)
    requires p + |x| + 2 + |v| <= |s| && s[p] == '\'' && '\'' !in term
    requires s[p + 1..p + 1 + |x|] == x && Unquoted(x) && s[p + 1 + |x|] == '\''
    requires s[p + |x| + 2..p + |x| + 2 + |v|] == v && Ordinary(v, term)
    requires p + |x| + 2 + |v| == |s| || s[p + |x| + 2 + |v|] in term
    ensures Scan(s, term, p, [], 0) == Scanned(x + v, |x|, p + |x| + 2 + |v|)
  {
    var q := p + |x| + 2;
    ScanQuoted(s, term, p, x, [], 0);
    assert [] + x == x;
    ScanRun(s, term, q, v, x, |x|);
    ScanStop(s, term, q + |v|, x + v, |x|);
  }

  /** A scan from an escape followed by ordinary characters and a stop. */
  lemma ScanEscapedWord(s: seq<char>, term: seq<char>, p: nat, v: seq<char>)
    requires p + 2 + |v| <= |s| && s[p] == '\\' && '\\' !in term
    requires s[p + 2..p + 2 + |v|] == v && Ordinary(v, term)
    requires p + 2 + |v| == |s| || s[p + 2 + |v|] in term
    ensures Scan(s, term, p, [], 0) == Scanned([s[p + 1]] + v, 1, p + 2 + |v|)
  {
    assert [] + [s[p + 1]] == [s[p + 1]];
    assert Scan(s, term, p, [], 0) == Scan(s, term, p + 2, [s[p + 1]], 1);
    ScanRun(s, term, p + 2, v, [s[p + 1]], 1);
    ScanStop(s, term, p + 2 + |v|, [s[p + 1]] + v, 1);
  }

  /** A scan over ordinary characters up to a backslash that ends the input. */
  lemma ScanTrailingBackslash(s: seq<char>, term: seq<char>, p: nat, x: seq<char>)
    requires p + |x| + 1 == |s| && s[p..p + |x|] == x && Ordinary(x, term)
    requires s[p + |x|] == '\\' && '\\' !in term
    ensures Scan(s, term, p, [], 0) == Scanned(x + ['\\'], 0, |s|)
  {
    ScanRun(s, term, p, x, [], 0);
    assert [] + x == x;
    assert Scan(s, term, p + |x|, x, 0) == Scan(s, term, |s|, x + ['\\'], 0);
  }

  /** A scan from a quote that is never closed. */
  lemma ScanUnclosedQuote(s: seq<char>, term: seq<char>, p: nat)
    requires p < |s| && s[p] == '\'' && '\'' !in term && Unquoted(s[p + 1..])
    ensures Scan(s, term, p, [], 0) == Scanned(s[p + 1..], 0, |s|)
  {
    forall i | p + 1 <= i < |s| ensures s[i] != '\'' {
      assert s[i] == s[p + 1..][i - p - 1];
    }
    QuoteEndUnique(s, p + 1, |s|);
    assert [] + s[p + 1..] == s[p + 1..];
  }

  // In the lemmas below the input s holds p blanks, then the text the
  // lemma is about, then either nothing or a character of term.

  /** An unquoted word x followed by blanks v: the token is x, whose inner
      blanks stay, and *buf is left on the terminator. */
  lemma TokenWord(s: seq<char>, term: seq<char>, p: nat, x: seq<char>, v: seq<char>)
    requires p + |x| + |v| <= |s| && Blanks(s[..p])
    requires s[p..p + |x|] == x && s[p + |x|..p + |x| + |v|] == v
    requires |x| > 0 && !IsBlank(x[0]) && !IsBlank(x[|x| - 1]) && Ordinary(x, term)
    requires Blanks(v) && Ordinary(v, term)
    requires p + |x| + |v| == |s| || s[p + |x| + |v|] in term
    ensures Token(s, term) == (x, p + |x| + |v|)
  {
    assert s[p] == x[0];
    assert s[p..p + |x| + |v|] == x + v by {
      assert s[p..p + |x| + |v|] == s[p..p + |x|] + s[p + |x|..p + |x| + |v|];
    }
    LeadingBlanks(s, p);
    OrdinaryAppend(x, v, term);
    ScanWord(s, term, p, x + v);
    TrimBlanksOver(x, v, 0);
  }

  /** A quoted x followed by blanks v: the token is exactly x, term
      characters and blanks included (blanks at its end too), while the
      blanks after the closing quote are dropped. */
  lemma TokenQuoted(s: seq<char>, term: seq<char>, p: nat, x: seq<char>, v: seq<char>)
    requires p + |x| + 2 + |v| <= |s| && Blanks(s[..p])
    requires s[p] == '\'' && s[p + 1..p + 1 + |x|] == x && s[p + 1 + |x|] == '\''
    requires s[p + |x| + 2..p + |x| + 2 + |v|] == v
    requires '\'' !in term && Unquoted(x) && Blanks(v) && Ordinary(v, term)
    requires p + |x| + 2 + |v| == |s| || s[p + |x| + 2 + |v|] in term
    ensures Token(s, term) == (x, p + |x| + 2 + |v|)
  {
    LeadingBlanks(s, p);
    ScanQuotedWord(s, term, p, x, v);
    TrimBlanksOver(x, v, |x|);
  }

  /** A backslash, a character c and blanks v: the token is c, protected
      even when c is a blank or a character of term. */
  lemma TokenEscaped(s: seq<char>, term: seq<char>, p: nat, v: seq<char>)
    requires p + 2 + |v| <= |s| && Blanks(s[..p])
    requires s[p] == '\\' && s[p + 2..p + 2 + |v|] == v
    requires '\\' !in term && Blanks(v) && Ordinary(v, term)
    requires p + 2 + |v| == |s| || s[p + 2 + |v|] in term
    ensures Token(s, term) == ([s[p + 1]], p + 2 + |v|)
  {
    LeadingBlanks(s, p);
    ScanEscapedWord(s, term, p, v);
    TrimBlanksOver([s[p + 1]], v, 1);
  }

  /** Ordinary characters x and a backslash that ends the input: the
      backslash is kept. */
  lemma TokenTrailingBackslash(s: seq<char>, term: seq<char>, p: nat, x: seq<char>)
    requires p + |x| + 1 == |s| && Blanks(s[..p]) && s[p..p + |x|] == x && s[p + |x|] == '\\'
    requires Ordinary(x, term) && (|x| > 0 ==> !IsBlank(x[0])) && '\\' !in term
    ensures Token(s, term) == (x + ['\\'], |s|)
  {
    assert |x| > 0 ==> s[p] == x[0];
    LeadingBlanks(s, p);
    ScanTrailingBackslash(s, term, p, x);
    TrimBlanksOver(x + ['\\'], [], 0);
    assert x + ['\\'] + [] == x + ['\\'];
  }

  /** A quote that is never closed: the rest of the input x is copied, but
      it is not protected, so its trailing blanks are dropped. */
  lemma TokenUnclosedQuote(s: seq<char>, term: seq<char>, p: nat)
    requires p < |s| && Blanks(s[..p]) && s[p] == '\'' && '\'' !in term && Unquoted(s[p + 1..])
    ensures Token(s, term) == (TrimBlanks(s[p + 1..], 0), |s|)
  {
    LeadingBlanks(s, p);
    ScanUnclosedQuote(s, term, p);
  }

  // -----------------------------------------------------------------------
  // Inputs from the test driver of av_string.c, with ":" as term

  lemma ExampleQuotedThenColon()
    ensures Token("    '2'    :", ":") == ("2", 11)
  {
    TokenQuoted("    '2'    :", ":", 4, "2", "    ");
  }

  lemma ExampleQuotedBlanksKept()
    ensures Token("  '  foo  '  ", ":") == ("  foo  ", 13)
  {
    TokenQuoted("  '  foo  '  ", ":", 2, "  foo  ", "  ");
  }

  lemma ExampleQuotedColon()
    ensures Token("'foo :  '  :blahblah", ":") == ("foo :  ", 11)
  {
    TokenQuoted("'foo :  '  :blahblah", ":", 0, "foo :  ", "  ");
  }

  lemma ExampleInnerBlanks()
    ensures Token(" foo   bar    :   blahblah", ":") == ("foo   bar", 14)
  {
    InnerBlanksLayout();
    InnerBlanksPieces();
    TokenWord(" foo   bar    :   blahblah", ":", 1, "foo   bar", "    ");
  }

  /** How " foo   bar    :   blahblah" splits into the pieces TokenWord
      takes. */
  lemma InnerBlanksLayout()
    ensures var s := " foo   bar    :   blahblah";
      && s[..1] == " " && s[1..10] == "foo   bar" && s[10..14] == "    " && s[14] in ":"
  {
    var s := " foo   bar    :   blahblah";
    assert s[..14] == [' '] + "foo   bar" + "    ";
  }

  /** The pieces are blanks and ordinary characters as TokenWord needs. */
  lemma InnerBlanksPieces()
    ensures Blanks(" ") && Blanks("    ")
    ensures Ordinary("foo   bar", ":") && Ordinary("    ", ":")
  {
  }

  lemma ExampleTrailingBlanks()
    ensures Token("foo     ", ":") == ("foo", 8)
  {
    TokenWord("foo     ", ":", 0, "foo", "     ");
  }

  lemma ExampleEscapedBlank()
    ensures Token("\\ :blah", ":") == (" ", 2)
  {
    TokenEscaped("\\ :blah", ":", 0, "");
  }

  lemma ExampleTrailingBackslash()
    ensures Token("foo\\", ":") == ("foo\\", 4)
  {
    TokenTrailingBackslash("foo\\", ":", 0, "foo");
    assert "foo" + ['\\'] == "foo\\";
  }

  lemma ExampleLoneQuote()
    ensures Token("'", ":") == ("", 1)
  {
    TokenUnclosedQuote("'", ":", 0);
  }
}
