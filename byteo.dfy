// Model of the character and byte helpers of byteo.c: the whitespace
// trimmers atrim, ltrim, rtrim and trim (byteo.c:226-284), the character
// tests isbreak, isdigits and isxdigits (byteo.c:293-331) and the
// byte-wise ands, ors, xors and nots (byteo.c:342-395).
//
// A C string is an array of char holding a NUL; the string is what comes
// before the first NUL (CLib.CStr).  Whitespace is isspace in the "C" locale.
// The count nbytes of isdigits, isxdigits and the byte-wise operations is
// a U16, but the source counts with an S16: the model counts with an
// unbounded counter, and S16Counter below models the source's one.
module ByteO {
  import opened CLib
  import Bcd

  const S16_MAX: nat := 32767
  const U16_MAX: nat := 65535

  // -----------------------------------------------------------------------
  // atrim

  /** s with every whitespace character removed, the others kept in order. */
  function Unspaced(s: seq<char>): (r: seq<char>)
    ensures |r| <= |s|
    ensures forall i :: 0 <= i < |r| ==> !IsSpace(r[i])
  {
    if |s| == 0 then []
    else Unspaced(s[..|s| - 1]) + (if IsSpace(s[|s| - 1]) then [] else [s[|s| - 1]])
  }

  /** Removing whitespace piecewise removes it from the whole. */
  lemma {:induction false} UnspacedAppend(s: seq<char>, t: seq<char>)
    ensures Unspaced(s + t) == Unspaced(s) + Unspaced(t)
    decreases |t|
  {
    if |t| == 0 {
      assert s + t == s;
    } else {
      var t0 := t[..|t| - 1];
      assert (s + t)[..|s + t| - 1] == s + t0;
      UnspacedAppend(s, t0);
    }
  }

  /** A string without whitespace is left as it is. */
  lemma {:induction false} UnspacedKeeps(s: seq<char>)
    requires forall i :: 0 <= i < |s| ==> !IsSpace(s[i])
    ensures Unspaced(s) == s
  {
    if |s| > 0 {
      UnspacedKeeps(s[..|s| - 1]);
    }
  }

  /** atrim is idempotent. */
  lemma UnspacedIdempotent(s: seq<char>)
    ensures Unspaced(Unspaced(s)) == Unspaced(s)
  {
    UnspacedKeeps(Unspaced(s));
  }

  /** atrim(str): compacts the string in place, dropping every whitespace
      character, and terminates it after the kept ones; the bytes after the
      new terminator keep their old values.  The source returns str itself,
      offset 0, which the caller already holds, so nothing is returned. */
  method ATrim(a: array<char>)
    requires '\0' in a[..]
    modifies a
    ensures var u := Unspaced(CStr(old(a[..])));
      && |u| < a.Length
      && a[..|u|] == u && a[|u|] == '\0'
      && a[|u| + 1..] == old(a[|u| + 1..])
    ensures CStr(a[..]) == Unspaced(CStr(old(a[..])))
  {
    ghost var s := CStr(a[..]);
    assert a[..|s|] == s && a[|s|] == '\0';
    var q := Compact(a, s);
    ghost var kept := a[..q];
    a[q] := '\0';
    assert a[..q] == kept;
    UnspacedNoNul(s);
    NulEndsString(a[..], q);
  }

  /** The loop of atrim: copies each character of s that is not whitespace
      down to the next free position, up to the terminator after s. */
  method Compact(a: array<char>, ghost s: seq<char>) returns (q: nat)
    requires |s| < a.Length && a[..|s|] == s && a[|s|] == '\0' && NoNul(s)
    modifies a
    ensures q <= |s| && a[..q] == Unspaced(s)
    ensures forall j :: q <= j < a.Length ==> a[j] == old(a[j])
  {
    var p := 0;
    q := 0;
    while a[p] != '\0'
      invariant q <= p <= |s|
      invariant a[..q] == Unspaced(s[..p])
      invariant forall j :: q <= j < a.Length ==> a[j] == old(a[j])
      decreases |s| - p
    {
      assert p < |s| && a[p] == s[p];
      UnspacedStep(s, p);
      if !IsSpace(a[p]) {
        ghost var kept := a[..q];
        a[q] := a[p];
        assert a[..q + 1] == kept + [s[p]];
        q := q + 1;
      }
      p := p + 1;
    }
    assert s[..p] == s;
  }

  /** One more character of input adds at most that character. */
  lemma UnspacedStep(s: seq<char>, p: nat)
    requires p < |s|
    ensures Unspaced(s[..p + 1]) == Unspaced(s[..p]) + (if IsSpace(s[p]) then [] else [s[p]])
  {
    assert s[..p + 1][..p] == s[..p];
  }

  /** Removing whitespace adds no NUL. */
  lemma {:induction false} UnspacedNoNul(s: seq<char>)
    requires NoNul(s)
    ensures NoNul(Unspaced(s))
  {
    if |s| > 0 {
      UnspacedNoNul(s[..|s| - 1]);
    }
  }

  // -----------------------------------------------------------------------
  // ltrim

  /** The number of leading whitespace characters of s. */
  function SpaceRun(s: seq<char>): (k: nat)
    ensures k <= |s|
    ensures forall i :: 0 <= i < k ==> IsSpace(s[i])
    ensures k < |s| ==> !IsSpace(s[k])
  {
    if |s| == 0 || !IsSpace(s[0]) then 0 else 1 + SpaceRun(s[1..])
  }

  /** ltrim(str): the offset of the first character that is not whitespace
      (or of the terminator); nothing is written. */
  method LTrim(a: array<char>) returns (p: nat)
    requires '\0' in a[..]
    ensures p == SpaceRun(CStr(a[..]))
  {
    ghost var s := CStr(a[..]);
    p := 0;
    while a[p] != '\0' && IsSpace(a[p])
      invariant p <= |s|
      invariant forall i :: 0 <= i < p ==> IsSpace(s[i])
      decreases |s| - p
    {
      assert p < |s|;
      p := p + 1;
    }
    assert p < |s| ==> a[p] == s[p];
    SpaceRunUnique(s, p);
  }

  /** SpaceRun is the only count of leading whitespace that stops at a
      character that is not whitespace (or at the end). */
  lemma {:induction false} SpaceRunUnique(s: seq<char>, k: nat)
    requires k <= |s|
    requires forall i :: 0 <= i < k ==> IsSpace(s[i])
    requires k < |s| ==> !IsSpace(s[k])
    ensures SpaceRun(s) == k
  {
    if k > 0 {
      SpaceRunUnique(s[1..], k - 1);
    }
  }

  // -----------------------------------------------------------------------
  // rtrim

  /** The length of s once trailing whitespace is cut, walking back from
      the end but never below floor characters.  The source's rtrim stops
      at the first character (floor 1, so "   " keeps " "); floor 0 cuts
      every trailing whitespace character, as rtrim is meant to. */
  function KeptLength(s: seq<char>, floor: nat): (m: nat)
    requires floor <= 1
    ensures m <= |s| && (floor <= |s| ==> floor <= m)
    ensures forall j :: m <= j < |s| ==> IsSpace(s[j])
    ensures m > floor ==> !IsSpace(s[m - 1])
  {
    if |s| <= floor then |s|
    else if IsSpace(s[|s| - 1]) then KeptLength(s[..|s| - 1], floor)
    else |s|
  }

  /** KeptLength is the only length with those properties. */
  lemma {:induction false} KeptLengthUnique(s: seq<char>, m: nat, floor: nat)
    requires floor <= 1 && m <= |s| && (floor <= |s| ==> floor <= m)
    requires forall j :: m <= j < |s| ==> IsSpace(s[j])
    requires m > floor ==> !IsSpace(s[m - 1])
    ensures KeptLength(s, floor) == m
    decreases |s|
  {
    if |s| > floor && m < |s| {
      KeptLengthUnique(s[..|s| - 1], m, floor);
    }
  }

  /** Both lengths agree when the string is empty or does not begin with
      whitespace, which is always so for what ltrim returns. */
  lemma KeptLengthFloors(s: seq<char>)
    requires |s| == 0 || !IsSpace(s[0])
    ensures KeptLength(s, 1) == KeptLength(s, 0)
  {
    var m := KeptLength(s, 0);
    KeptLengthUnique(s, m, 1);
  }

  /** On a string of whitespace the source's rtrim keeps the first
      character, the corrected one keeps nothing. */
  lemma KeptLengthAllSpace(s: seq<char>)
    requires |s| > 0 && forall j :: 0 <= j < |s| ==> IsSpace(s[j])
    ensures KeptLength(s, 1) == 1 && KeptLength(s, 0) == 0
  {
    KeptLengthUnique(s, 1, 1);
    KeptLengthUnique(s, 0, 0);
  }

  /** rtrim("   ") as written leaves " ". */
  lemma RTrimAsWrittenKeepsBlank()
    ensures var s := "   "; s[..KeptLength(s, 1)] == " " && s[..KeptLength(s, 0)] == ""
  {
    KeptLengthAllSpace("   ");
  }

  /** rtrim(str + at) as written: overwrites the trailing whitespace of the
      string at offset at with NULs, from the end backwards, never touching
      its first character. */
  method RTrimAsWritten(a: array<char>, at: nat)
    requires at < a.Length && '\0' in a[at..]
    modifies a
    ensures var s := CStr(old(a[at..])); var m := KeptLength(s, 1);
      && a[..at + m] == old(a[..at + m])
      && (forall j :: at + m <= j < at + |s| ==> a[j] == '\0')
      && a[at + |s|..] == old(a[at + |s|..])
    ensures a[..at] == old(a[..at])
    ensures '\0' in a[at..] && CStr(a[at..]) == (var s := CStr(old(a[at..])); s[..KeptLength(s, 1)])
  {
    ghost var s := CStr(a[at..]);
    var n := Strlen(a[at..]);
    assert s == a[at..at + n];
    var m := ClearTrailing(a, at, n, s, 1);
    RTrimmedString(a[..], old(a[..]), at, s, m, 1);
  }

  /** rtrim(str + at) corrected: the same walk, down to the first character
      included, so every trailing whitespace character becomes a NUL. */
  method RTrim(a: array<char>, at: nat)
    requires at < a.Length && '\0' in a[at..]
    modifies a
    ensures var s := CStr(old(a[at..])); var m := KeptLength(s, 0);
      && a[..at + m] == old(a[..at + m])
      && (forall j :: at + m <= j < at + |s| ==> a[j] == '\0')
      && a[at + |s|..] == old(a[at + |s|..])
    ensures a[..at] == old(a[..at])
    ensures '\0' in a[at..] && CStr(a[at..]) == (var s := CStr(old(a[at..])); s[..KeptLength(s, 0)])
  {
    ghost var s := CStr(a[at..]);
    var n := Strlen(a[at..]);
    assert s == a[at..at + n];
    var m := ClearTrailing(a, at, n, s, 0);
    RTrimmedString(a[..], old(a[..]), at, s, m, 0);
  }

  /** The loop of rtrim: walks back from the last character of the n
      characters at offset at, overwriting whitespace with NULs, and stops
      at a character that is not whitespace or when floor characters are
      left.  Returns how many characters are kept. */
  method ClearTrailing(a: array<char>, at: nat, n: nat, ghost s: seq<char>, floor: nat) returns (m: nat)
    requires at + n <= a.Length && s == a[at..at + n] && floor <= 1
    modifies a
    ensures m <= n && (floor <= n ==> floor <= m) && (m > floor ==> !IsSpace(s[m - 1]))
    ensures forall j :: m <= j < n ==> IsSpace(s[j])
    ensures forall j :: 0 <= j < at + m ==> a[j] == old(a[j])
    ensures forall j :: at + m <= j < at + n ==> a[j] == '\0'
    ensures forall j :: at + n <= j < a.Length ==> a[j] == old(a[j])
  {
    m := n;
    while m > floor && IsSpace(a[at + m - 1])
      invariant m <= n && (floor <= n ==> floor <= m)
      invariant forall j :: at + m <= j < at + n ==> a[j] == '\0'
      invariant forall j :: m <= j < n ==> IsSpace(s[j])
      invariant forall j :: 0 <= j < at + m ==> a[j] == old(a[j])
      invariant forall j :: at + n <= j < a.Length ==> a[j] == old(a[j])
    {
      assert a[at + m - 1] == s[m - 1];
      a[at + m - 1] := '\0';
      m := m - 1;
    }
    assert m > floor ==> a[at + m - 1] == s[m - 1];
  }

  /** The buffer and the string rtrim leaves, once the walk stopped at m
      with the given floor. */
  lemma RTrimmedString(a: seq<char>, a0: seq<char>, at: nat, s: seq<char>, m: nat, floor: nat)
    requires at < |a0| == |a| && '\0' in a0[at..] && s == CStr(a0[at..]) && m <= |s|
    requires floor <= 1 && (floor <= |s| ==> floor <= m) && (m > floor ==> !IsSpace(s[m - 1]))
    requires forall j :: m <= j < |s| ==> IsSpace(s[j])
    requires forall j :: 0 <= j < at + m ==> a[j] == a0[j]
    requires forall j :: at + m <= j < at + |s| ==> a[j] == '\0'
    requires forall j :: at + |s| <= j < |a| ==> a[j] == a0[j]
    ensures var s := CStr(a0[at..]); var k := KeptLength(s, floor);
      && a[..at + k] == a0[..at + k]
      && (forall j :: at + k <= j < at + |s| ==> a[j] == '\0')
      && a[at + |s|..] == a0[at + |s|..]
    ensures a[..at] == a0[..at]
    ensures '\0' in a[at..] && CStr(a[at..]) == (var s := CStr(a0[at..]); s[..KeptLength(s, floor)])
  {
    KeptLengthUnique(s, m, floor);
    var t := a[at..];
    assert t[m] == '\0' by {
      if m < |s| {
        assert a[at + m] == '\0';
      } else {
        assert a0[at..][|s|] == '\0';
      }
    }
    forall i | 0 <= i < m ensures t[i] == s[i] {
      assert a0[at..][i] == s[i];
    }
    assert t[..m] == s[..m];
    NulEndsString(t, m);
  }

  // -----------------------------------------------------------------------
  // trim

  /** What trim returns: the string without leading whitespace, then
      without trailing whitespace. */
  function Stripped(s: seq<char>): seq<char>
  {
    var t := s[SpaceRun(s)..];
    t[..KeptLength(t, 0)]
  }

  /** trim(str): ltrim, then rtrim on what ltrim returned.  Returns the
      offset of the trimmed string, which ends at a NUL.  What ltrim returns
      does not begin with whitespace, so the source's rtrim and the
      corrected one agree here (KeptLengthFloors). */
  method Trim(a: array<char>) returns (p: nat)
    requires '\0' in a[..]
    modifies a
    ensures p == SpaceRun(CStr(old(a[..])))
    ensures a[..p] == old(a[..p])
    ensures p < a.Length && '\0' in a[p..]
    ensures CStr(a[p..]) == Stripped(CStr(old(a[..])))
    ensures var t := CStr(old(a[p..])); var m := KeptLength(t, 0);
      && a[..p + m] == old(a[..p + m])
      && (forall j :: p + m <= j < p + |t| ==> a[j] == '\0')
      && a[p + |t|..] == old(a[p + |t|..])
  {
    ghost var a0 := a[..];
    ghost var s := CStr(a0);
    p := LTrim(a);
    assert a[..] == a0;
    ghost var t := s[p..];
    StringFrom(a0, p);
    RTrim(a, p);
    assert CStr(a[p..]) == t[..KeptLength(t, 0)];
    assert t[..KeptLength(t, 0)] == Stripped(s);
  }

  /** The string at offset p of a buffer, for p within its string, is the
      rest of that string. */
  lemma StringFrom(a0: seq<char>, p: nat)
    requires '\0' in a0 && p <= |CStr(a0)|
    ensures p < |a0| && '\0' in a0[p..] && CStr(a0[p..]) == CStr(a0)[p..]
  {
    var s := CStr(a0);
    assert a0[p..][|s| - p] == '\0';
    assert a0[p..][..|s| - p] == s[p..];
    NulEndsString(a0[p..], |s| - p);
  }

  /** The trimmed string neither begins nor ends with whitespace. */
  lemma StrippedEnds(s: seq<char>)
    ensures var t := Stripped(s);
      |t| > 0 ==> !IsSpace(t[0]) && !IsSpace(t[|t| - 1])
  {
    var k := SpaceRun(s);
    var u := s[k..];
    var m := KeptLength(u, 0);
    if m > 0 {
      assert Stripped(s)[0] == u[0] == s[k];
      assert Stripped(s)[m - 1] == u[m - 1];
    }
  }

  /** The trimmed string is the original less whitespace at both ends: it
      sits in s right after the leading whitespace, and only whitespace
      follows it. */
  lemma StrippedWithin(s: seq<char>)
    ensures var t, i := Stripped(s), SpaceRun(s);
      && i + |t| <= |s| && s[i..i + |t|] == t
      && (forall j :: 0 <= j < i ==> IsSpace(s[j]))
      && (forall j :: i + |t| <= j < |s| ==> IsSpace(s[j]))
  {
    var k := SpaceRun(s);
    var u := s[k..];
    var m := KeptLength(u, 0);
    assert Stripped(s) == u[..m] == s[k..k + m];
    forall j | k + m <= j < |s| ensures IsSpace(s[j]) {
      assert s[j] == u[j - k];
    }
  }

  /** A string made only of whitespace trims to the empty string. */
  lemma StrippedAllSpace(s: seq<char>)
    requires forall i :: 0 <= i < |s| ==> IsSpace(s[i])
    ensures Stripped(s) == []
  {
    SpaceRunUnique(s, |s|);
  }

  /** Trimming is idempotent. */
  lemma StrippedIdempotent(s: seq<char>)
    ensures Stripped(Stripped(s)) == Stripped(s)
  {
    var t := Stripped(s);
    StrippedEnds(s);
    if |t| > 0 {
      SpaceRunUnique(t, 0);
      assert t[0..] == t;
      KeptLengthUnique(t, |t|, 0);
    }
  }

  // -----------------------------------------------------------------------
  // isbreak, isdigits, isxdigits

  /** isbreak(c): a carriage return or a line feed.  Both are whitespace,
      so atrim, ltrim, rtrim and trim remove line breaks. */
  predicate IsBreak(c: char): (r: bool)
    ensures r ==> IsSpace(c)
  {
    c == '\r' || c == '\n'
  }

  /** The line breaks are exactly the whitespace characters that are
      neither a blank, a tab, a vertical tab nor a form feed. */
  lemma BreaksAreSpace(c: char)
    ensures IsBreak(c) <==> IsSpace(c) && c !in {' ', '\t', '\U{0B}', '\U{0C}'}
  {
  }

  /** i++ on the S16 loop counter of isdigits, isxdigits, ands, ors, xors
      and nots: 32767 wraps to -32768 when stored back. */
  function S16Inc(i: int): (r: int)
    requires -32768 <= i <= S16_MAX
    ensures -32768 <= r <= S16_MAX
    ensures i < S16_MAX ==> r == i + 1
  {
    if i == S16_MAX then -32768 else i + 1
  }

  /** The source's counter after k rounds of the loop. */
  function S16Counter(k: nat): (i: int)
    ensures -32768 <= i <= S16_MAX
  {
    if k == 0 then 0 else S16Inc(S16Counter(k - 1))
  }

  /** Up to 32767 rounds the source's counter counts the rounds. */
  lemma {:induction false} S16CounterCounts(k: nat)
    requires k <= S16_MAX
    ensures S16Counter(k) == k
  {
    if k > 0 {
      S16CounterCounts(k - 1);
    }
  }

  /** Round 32768 wraps the source's counter to -32768. */
  lemma S16CounterWraps()
    ensures S16Counter(S16_MAX + 1) == -32768
  {
    S16CounterCounts(S16_MAX);
  }

  /** As written, with nbytes above 32767 the loop test i < nbytes holds
      after every round: the loop ends only on a failing character (and
      then past the nbytes the caller gave), or never for ands, ors, xors
      and nots.  The same holds for the loop of asc2bcdx over asc_len.
      This lemma only restates the range bound of S16Counter against a
      larger U16 bound; S16CounterWraps is the step that shows the wrap. */
  lemma S16CounterNeverReaches(nbytes: nat, k: nat)
    requires S16_MAX < nbytes <= U16_MAX
    ensures S16Counter(k) < nbytes
  {
  }

  /** isdigits(s, nbytes): every one of the first nbytes characters is a
      decimal digit (true for none). */
  method IsDigits(s: seq<char>, nbytes: nat) returns (r: bool)
    requires nbytes <= |s| && nbytes <= U16_MAX
    ensures r <==> forall i :: 0 <= i < nbytes ==> IsDigit(s[i])
  {
    var i := 0;
    while i < nbytes
      invariant i <= nbytes
      invariant forall j :: 0 <= j < i ==> IsDigit(s[j])
    {
      if !IsDigit(s[i]) {
        return false;
      }
      i := i + 1;
    }
    return true;
  }

  /** isxdigits(s, nbytes): every one of the first nbytes characters is a
      hexadecimal digit of either case (true for none). */
  method IsXDigits(s: seq<char>, nbytes: nat) returns (r: bool)
    requires nbytes <= |s| && nbytes <= U16_MAX
    ensures r <==> forall i :: 0 <= i < nbytes ==> IsXDigit(s[i])
  {
    var i := 0;
    while i < nbytes
      invariant i <= nbytes
      invariant forall j :: 0 <= j < i ==> IsXDigit(s[j])
    {
      if !IsXDigit(s[i]) {
        return false;
      }
      i := i + 1;
    }
    return true;
  }

  /** The strings isxdigits accepts are exactly those asc2bcdx converts
      without ABC_NUM. */
  lemma XDigitsAccepted(s: seq<char>)
    ensures (forall i :: 0 <= i < |s| ==> IsXDigit(s[i])) <==> Bcd.AllAccepted(s, false)
  {
    forall i | 0 <= i < |s| ensures IsXDigit(s[i]) == Bcd.Accepted(s[i], false) {
    }
  }

  /** Decimal digits are hexadecimal digits. */
  lemma DigitsAreXDigits(s: seq<char>)
    requires forall i :: 0 <= i < |s| ==> IsDigit(s[i])
    ensures forall i :: 0 <= i < |s| ==> IsXDigit(s[i])
  {
  }

  // -----------------------------------------------------------------------
  // ands, ors, xors, nots

  function AndBytes(x: seq<bv8>, y: seq<bv8>): (r: seq<bv8>)
    requires |x| == |y|
    ensures |r| == |x|
  {
    seq(|x|, i requires 0 <= i < |x| => x[i] & y[i])
  }

  function OrBytes(x: seq<bv8>, y: seq<bv8>): (r: seq<bv8>)
    requires |x| == |y|
    ensures |r| == |x|
  {
    seq(|x|, i requires 0 <= i < |x| => x[i] | y[i])
  }

  function XorBytes(x: seq<bv8>, y: seq<bv8>): (r: seq<bv8>)
    requires |x| == |y|
    ensures |r| == |x|
  {
    seq(|x|, i requires 0 <= i < |x| => x[i] ^ y[i])
  }

  function NotBytes(x: seq<bv8>): (r: seq<bv8>)
    ensures |r| == |x|
  {
    seq(|x|, i requires 0 <= i < |x| => !x[i])
  }

  /** The byte operator a call of BytewiseOp applies. */
  datatype Op = And | Or | Xor

  function Apply(op: Op, x: bv8, y: bv8): bv8
  {
    match op
    case And => x & y
    case Or => x | y
    case Xor => x ^ y
  }

  function OpBytes(op: Op, x: seq<bv8>, y: seq<bv8>): (r: seq<bv8>)
    requires |x| == |y|
    ensures |r| == |x|
  {
    match op
    case And => AndBytes(x, y)
    case Or => OrBytes(x, y)
    case Xor => XorBytes(x, y)
  }

  /** The loop shared by ands, ors and xors: dest[i] = b1[i] op b2[i] for
      i < nbytes.  dest may be b1 or b2 (each byte is read before it is
      written); nothing else in dest changes. */
  method BytewiseOp(op: Op, dest: array<bv8>, b1: array<bv8>, b2: array<bv8>, nbytes: nat)
    requires nbytes <= dest.Length && nbytes <= b1.Length && nbytes <= b2.Length && nbytes <= U16_MAX
    modifies dest
    ensures dest[..nbytes] == OpBytes(op, old(b1[..nbytes]), old(b2[..nbytes]))
    ensures dest[nbytes..] == old(dest[nbytes..])
  {
    ghost var x, y := b1[..nbytes], b2[..nbytes];
    var i := 0;
    while i < nbytes
      invariant i <= nbytes
      invariant forall j :: 0 <= j < i ==> dest[j] == Apply(op, x[j], y[j])
      invariant forall j :: i <= j < dest.Length ==> dest[j] == old(dest[j])
      invariant forall j :: i <= j < nbytes ==> b1[j] == x[j] && b2[j] == y[j]
    {
      dest[i] := Apply(op, b1[i], b2[i]);
      i := i + 1;
    }
    assert dest[..nbytes] == OpBytes(op, x, y);
  }

  /** ands(dest, b1, b2, nbytes). */
  method Ands(dest: array<bv8>, b1: array<bv8>, b2: array<bv8>, nbytes: nat)
    requires nbytes <= dest.Length && nbytes <= b1.Length && nbytes <= b2.Length && nbytes <= U16_MAX
    modifies dest
    ensures dest[..nbytes] == AndBytes(old(b1[..nbytes]), old(b2[..nbytes]))
    ensures dest[nbytes..] == old(dest[nbytes..])
  {
    BytewiseOp(And, dest, b1, b2, nbytes);
  }

  /** ors(dest, b1, b2, nbytes). */
  method Ors(dest: array<bv8>, b1: array<bv8>, b2: array<bv8>, nbytes: nat)
    requires nbytes <= dest.Length && nbytes <= b1.Length && nbytes <= b2.Length && nbytes <= U16_MAX
    modifies dest
    ensures dest[..nbytes] == OrBytes(old(b1[..nbytes]), old(b2[..nbytes]))
    ensures dest[nbytes..] == old(dest[nbytes..])
  {
    BytewiseOp(Or, dest, b1, b2, nbytes);
  }

  /** xors(dest, b1, b2, nbytes). */
  method Xors(dest: array<bv8>, b1: array<bv8>, b2: array<bv8>, nbytes: nat)
    requires nbytes <= dest.Length && nbytes <= b1.Length && nbytes <= b2.Length && nbytes <= U16_MAX
    modifies dest
    ensures dest[..nbytes] == XorBytes(old(b1[..nbytes]), old(b2[..nbytes]))
    ensures dest[nbytes..] == old(dest[nbytes..])
  {
    BytewiseOp(Xor, dest, b1, b2, nbytes);
  }

  /** nots(dest, b1, nbytes): dest[i] = ~b1[i] for i < nbytes; dest may be
      b1. */
  method Nots(dest: array<bv8>, b1: array<bv8>, nbytes: nat)
    requires nbytes <= dest.Length && nbytes <= b1.Length && nbytes <= U16_MAX
    modifies dest
    ensures dest[..nbytes] == NotBytes(old(b1[..nbytes]))
    ensures dest[nbytes..] == old(dest[nbytes..])
  {
    ghost var x := b1[..nbytes];
    var i := 0;
    while i < nbytes
      invariant i <= nbytes
      invariant forall j :: 0 <= j < i ==> dest[j] == !x[j]
      invariant forall j :: i <= j < dest.Length ==> dest[j] == old(dest[j])
      invariant forall j :: i <= j < nbytes ==> b1[j] == x[j]
    {
      dest[i] := !b1[i];
      i := i + 1;
    }
    assert dest[..nbytes] == NotBytes(x);
  }

  /** xors with the same key twice restores the data. */
  lemma XorTwice(x: seq<bv8>, k: seq<bv8>)
    requires |x| == |k|
    ensures XorBytes(XorBytes(x, k), k) == x
  {
    forall i | 0 <= i < |x| ensures XorBytes(XorBytes(x, k), k)[i] == x[i] {
      XorByteTwice(x[i], k[i]);
    }
  }

  lemma XorByteTwice(a: bv8, b: bv8)
    ensures (a ^ b) ^ b == a
  {
  }

  /** nots twice restores the data. */
  lemma NotTwice(x: seq<bv8>)
    ensures NotBytes(NotBytes(x)) == x
  {
    forall i | 0 <= i < |x| ensures NotBytes(NotBytes(x))[i] == x[i] {
      NotByteTwice(x[i]);
    }
  }

  lemma NotByteTwice(a: bv8)
    ensures !(!a) == a
  {
  }

  /** De Morgan over what ands, ors and nots leave in dest: nots of ands
      is ors of nots, and nots of ors is ands of nots. */
  lemma DeMorgan(x: seq<bv8>, y: seq<bv8>)
    requires |x| == |y|
    ensures NotBytes(OpBytes(And, x, y)) == OpBytes(Or, NotBytes(x), NotBytes(y))
    ensures NotBytes(OpBytes(Or, x, y)) == OpBytes(And, NotBytes(x), NotBytes(y))
  {
    var l, r := NotBytes(AndBytes(x, y)), OrBytes(NotBytes(x), NotBytes(y));
    forall i | 0 <= i < |x| ensures l[i] == r[i] {
      DeMorganByte(x[i], y[i]);
    }
    var l2, r2 := NotBytes(OrBytes(x, y)), AndBytes(NotBytes(x), NotBytes(y));
    forall i | 0 <= i < |x| ensures l2[i] == r2[i] {
      DeMorganByte(x[i], y[i]);
    }
  }

  lemma DeMorganByte(a: bv8, b: bv8)
    ensures !(a & b) == (!a | !b)
    ensures !(a | b) == (!a & !b)
  {
  }

  /** xors of data with itself clears it; ands and ors of data with itself
      leave it. */
  lemma SelfOps(x: seq<bv8>)
    ensures OpBytes(Xor, x, x) == seq(|x|, _ => 0)
    ensures OpBytes(And, x, x) == x && OpBytes(Or, x, x) == x
  {
  }
}
