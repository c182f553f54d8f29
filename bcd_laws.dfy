// Laws relating asc2bcdx and bcd2ascx (byteo.c:35-122 and byteo.c:137-217):
// packing and unpacking nibbles are inverse, the characters bcd2ascx writes
// are the upper-case spelling of what asc2bcdx accepted, and with ABC_FILL
// the padding asc2bcdx adds is exactly what bcd2ascx strips.
module BcdLaws {
  import opened CLib
  import opened Bcd

  // -----------------------------------------------------------------------
  // Nibbles of a byte

  lemma HiLoOfPack(hi: bv8, lo: bv8)
    requires hi < 16 && lo < 16
    ensures Hi(Pack(hi, lo)) == hi && Lo(Pack(hi, lo)) == lo
  {
  }

  lemma PackOfHiLo(x: bv8)
    ensures Pack(Hi(x), Lo(x)) == x
  {
  }

  lemma HiLoOfDoubled(f: bv8)
    requires f < 16
    ensures Hi(Doubled(f)) == f && Lo(Doubled(f)) == f
  {
  }

  /** The comparison bcd2ascx makes on the high halves compares high nibbles. */
  lemma HighMask(x: bv8, y: bv8)
    ensures ((x & 0xF0) == (y & 0xF0)) <==> Hi(x) == Hi(y)
  {
  }

  // -----------------------------------------------------------------------
  // Packing and unpacking

  /** Unpacking what was packed gives the nibbles back. */
  lemma UnpackPairs(n: seq<bv8>)
    requires IsNibbles(n) && |n| % 2 == 0
    ensures Unpack(Pairs(n)) == n
  {
    var u := Unpack(Pairs(n));
    forall i | 0 <= i < |n| ensures u[i] == n[i] {
      var k := i / 2;
      assert Pairs(n)[k] == Pack(n[2 * k], n[2 * k + 1]);
      HiLoOfPack(n[2 * k], n[2 * k + 1]);
    }
  }

  /** Packing the nibbles of a buffer gives the buffer back. */
  lemma PairsUnpack(b: seq<bv8>)
    ensures Pairs(Unpack(b)) == b
  {
    var u := Unpack(b);
    var p := Pairs(u);
    assert |p| == |b|;
    forall k | 0 <= k < |b| ensures p[k] == b[k] {
      assert p[k] == Pack(u[2 * k], u[2 * k + 1]);
      assert (2 * k) % 2 == 0 && (2 * k) / 2 == k && (2 * k + 1) % 2 == 1 && (2 * k + 1) / 2 == k;
      assert u[2 * k] == NibbleAt(b, 2 * k) == Hi(b[k]);
      assert u[2 * k + 1] == NibbleAt(b, 2 * k + 1) == Lo(b[k]);
      PackOfHiLo(b[k]);
    }
  }

  /** The nibbles of two buffers side by side. */
  lemma UnpackAppend(a: seq<bv8>, b: seq<bv8>)
    ensures Unpack(a + b) == Unpack(a) + Unpack(b)
  {
    var u, v := Unpack(a + b), Unpack(a) + Unpack(b);
    forall i | 0 <= i < |u| ensures u[i] == v[i] {
      if i < 2 * |a| {
        assert (a + b)[i / 2] == a[i / 2];
      } else {
        assert (a + b)[i / 2] == b[i / 2 - |a|];
        assert (i - 2 * |a|) / 2 == i / 2 - |a|;
      }
    }
  }

  // -----------------------------------------------------------------------
  // Characters and nibbles

  /** The spelling bcd2ascx gives to accepted text: unchanged under ABC_NUM,
      otherwise hex digits in upper case. */
  function Canonical(s: seq<char>, num: bool): (t: seq<char>)
    ensures |t| == |s|
  {
    seq(|s|, i requires 0 <= i < |s| => if num then s[i] else ToUpper(s[i]))
  }

  lemma CharOfValue(c: char, num: bool)
    requires Accepted(c, num)
    ensures NibbleChar(Value(c, num), num) == (if num then c else ToUpper(c))
  {
    if num || '0' <= c <= '9' {
      DigitChar(c, num);
    } else if 'a' <= c <= 'f' {
      LetterChar(c, 'a' as int - 10);
    } else {
      LetterChar(c, 'A' as int - 10);
    }
  }

  /** '0'..'?' under ABC_NUM, or a decimal digit, spells itself. */
  lemma DigitChar(c: char, num: bool)
    requires (num && '0' <= c <= '?') || '0' <= c <= '9'
    ensures Accepted(c, num) && NibbleChar(Value(c, num), num) == c
  {
    var v := c as int - '0' as int;
    SmallNibble(v);
    assert Value(c, num) == v as bv8;
  }

  /** A hex letter of either case spells the upper-case letter. */
  lemma LetterChar(c: char, base: int)
    requires ('a' <= c <= 'f' && base == 'a' as int - 10) || ('A' <= c <= 'F' && base == 'A' as int - 10)
    ensures Accepted(c, false) && NibbleChar(Value(c, false), false) == ToUpper(c)
  {
    var v := c as int - base;
    SmallNibble(v);
    assert Value(c, false) == v as bv8;
  }

  lemma SmallNibble(v: int)
    requires 0 <= v < 16
    ensures (v as bv8) as int == v
  {
  }

  lemma ValueOfChar(x: bv8, num: bool)
    requires x < 16
    ensures Accepted(NibbleChar(x, num), num) && Value(NibbleChar(x, num), num) == x
  {
  }

  /** Encoding accepted text and decoding it gives the text in canonical
      spelling. */
  lemma CharsOfNibbles(s: seq<char>, num: bool)
    requires AllAccepted(s, num)
    ensures Chars(Nibbles(s, num), num) == Canonical(s, num)
  {
    forall i | 0 <= i < |s|
      ensures Chars(Nibbles(s, num), num)[i] == Canonical(s, num)[i]
    {
      CharOfValue(s[i], num);
    }
  }

  /** Decoding nibbles and encoding the text gives the nibbles back. */
  lemma NibblesOfChars(n: seq<bv8>, num: bool)
    requires IsNibbles(n)
    ensures AllAccepted(Chars(n, num), num) && Nibbles(Chars(n, num), num) == n
  {
    forall i | 0 <= i < |n|
      ensures Accepted(Chars(n, num)[i], num) && Nibbles(Chars(n, num), num)[i] == n[i]
    {
      ValueOfChar(n[i], num);
    }
  }

  /** Canonical text is its own canonical spelling. */
  lemma CanonicalIdempotent(s: seq<char>, num: bool)
    ensures Canonical(Canonical(s, num), num) == Canonical(s, num)
  {
  }

  // -----------------------------------------------------------------------
  // Runs of fill bytes

  lemma LeadingFillAfterRun(a: nat, x: bv8, t: seq<bv8>)
    requires |t| > 0 && t[0] != x
    ensures LeadingFill(Run(a, x) + t, x) == a
  {
    var b := Run(a, x) + t;
    assert b[a] == t[0];
  }

  lemma TrailingFillBeforeRun(t: seq<bv8>, a: nat, x: bv8)
    requires |t| > 0 && t[|t| - 1] != x
    ensures TrailingFill(t + Run(a, x), x) == a
  {
    var b := t + Run(a, x);
    assert b[|t| - 1] == t[|t| - 1];
  }

  // -----------------------------------------------------------------------
  // Round trips

  /** Without ABC_FILL, bcd2ascx of the packed buffer begins with the packed
      stream spelt out: the canonical text, with the fill character in front
      (ABC_FORE) or behind when the text has odd length. */
  lemma RoundTripPlain(b0: seq<bv8>, s: seq<char>, flags: bv8, fch: char)
    requires Asc2BcdOk(s, |b0|, flags, fch) && !Has(flags, ABC_FILL)
    ensures var img, k := Asc2BcdImage(b0, s, flags, fch), (|s| + 1) / 2;
      var num, c := Has(flags, ABC_NUM), NibbleChar(HexValue(FillChar(flags, fch)), Has(flags, ABC_NUM));
      && |Bcd2AscText(img, flags, fch)| == 2 * |b0|
      && Bcd2AscText(img, flags, fch)[..2 * k] ==
         (if |s| % 2 == 0 then Canonical(s, num)
          else if Has(flags, ABC_FORE) then [c] + Canonical(s, num)
          else Canonical(s, num) + [c])
  {
    PlainImage(b0, s, flags, fch);
    PlainRoundTrip(Asc2BcdImage(b0, s, flags, fch), s, b0[(|s| + 1) / 2..], flags, fch);
  }

  /** Without ABC_FILL, the stream of s followed by any bytes decodes to the
      stream spelt out, followed by the spelling of those bytes. */
  lemma PlainRoundTrip(img: seq<bv8>, s: seq<char>, rest: seq<bv8>, flags: bv8, fch: char)
    requires IsXDigit(FillChar(flags, fch)) && !Has(flags, ABC_FILL)
    requires AllAccepted(s, Has(flags, ABC_NUM))
    requires var f := HexValue(FillChar(flags, fch));
      img == Pairs(Stream(s, Has(flags, ABC_NUM), f, Has(flags, ABC_FORE))) + rest
    ensures var k, num := (|s| + 1) / 2, Has(flags, ABC_NUM);
      var c := NibbleChar(HexValue(FillChar(flags, fch)), num);
      && |Bcd2AscText(img, flags, fch)| == 2 * k + 2 * |rest|
      && Bcd2AscText(img, flags, fch)[..2 * k] ==
         (if |s| % 2 == 0 then Canonical(s, num)
          else if Has(flags, ABC_FORE) then [c] + Canonical(s, num)
          else Canonical(s, num) + [c])
  {
    var num, fore := Has(flags, ABC_NUM), Has(flags, ABC_FORE);
    var f := HexValue(FillChar(flags, fch));
    var k := (|s| + 1) / 2;
    var st := Stream(s, num, f, fore);
    PlainText(img, flags, fch);
    UnpackAppend(Pairs(st), rest);
    StreamIsNibbles(s, num, f, fore);
    UnpackPairs(st);
    CharsAppend(st, Unpack(rest), num);
    StreamChars(s, num, f, fore);
    var t := Chars(st, num) + Chars(Unpack(rest), num);
    assert t[..2 * k] == Chars(st, num);
  }

  /** The packed buffer without ABC_FILL: the stream, then the old bytes. */
  lemma PlainImage(b0: seq<bv8>, s: seq<char>, flags: bv8, fch: char)
    requires Asc2BcdOk(s, |b0|, flags, fch) && !Has(flags, ABC_FILL)
    ensures var f := HexValue(FillChar(flags, fch));
      Asc2BcdImage(b0, s, flags, fch) ==
      Pairs(Stream(s, Has(flags, ABC_NUM), f, Has(flags, ABC_FORE))) + b0[(|s| + 1) / 2..]
  {
  }

  /** Without ABC_FILL, bcd2ascx spells every nibble of the buffer. */
  lemma PlainText(b: seq<bv8>, flags: bv8, fch: char)
    requires IsXDigit(FillChar(flags, fch)) && !Has(flags, ABC_FILL)
    ensures HasNonFill(b, flags, fch)
    ensures Bcd2AscText(b, flags, fch) == Chars(Unpack(b), Has(flags, ABC_NUM))
  {
    SpanAll(b, flags, fch);
    TextFromSpan(b, flags, fch, 0, 2 * |b|);
    assert Unpack(b)[0..2 * |b|] == Unpack(b);
  }

  /** The packed stream holds nibbles only, an even number of them. */
  lemma StreamIsNibbles(s: seq<char>, num: bool, f: bv8, fore: bool)
    requires f < 16
    ensures IsNibbles(Stream(s, num, f, fore)) && |Stream(s, num, f, fore)| % 2 == 0
  {
    assert IsNibbles(Nibbles(s, num));
    var k := (|s| + 1) / 2;
    assert |Stream(s, num, f, fore)| == k + k;
  }

  /** Spelling two runs of nibbles side by side. */
  lemma CharsAppend(a: seq<bv8>, b: seq<bv8>, num: bool)
    requires IsNibbles(a) && IsNibbles(b)
    ensures IsNibbles(a + b) && Chars(a + b, num) == Chars(a, num) + Chars(b, num)
  {
    assert IsNibbles(a + b) by {
      forall i | 0 <= i < |a + b| ensures (a + b)[i] < 16 {
        if i >= |a| {
          assert (a + b)[i] == b[i - |a|];
        }
      }
    }
  }

  /** The spelling of the stream asc2bcdx packs. */
  lemma StreamChars(s: seq<char>, num: bool, f: bv8, fore: bool)
    requires AllAccepted(s, num) && f < 16
    ensures var c := NibbleChar(f, num);
      Chars(Stream(s, num, f, fore), num) ==
      (if |s| % 2 == 0 then Canonical(s, num)
       else if fore then [c] + Canonical(s, num)
       else Canonical(s, num) + [c])
  {
    var d := Nibbles(s, num);
    CharsOfNibbles(s, num);
    assert IsNibbles([f]);
    if |s| % 2 == 1 {
      if fore {
        CharsAppend([f], d, num);
      } else {
        CharsAppend(d, [f], num);
      }
    }
  }

  /** The packed buffer of ABC_FILL with ABC_FORE: fill bytes, then the
      stream. */
  lemma FillForeImage(b0: seq<bv8>, s: seq<char>, flags: bv8, fch: char)
    requires Asc2BcdOk(s, |b0|, flags, fch) && Has(flags, ABC_FILL) && Has(flags, ABC_FORE)
    ensures var f := HexValue(FillChar(flags, fch));
      Asc2BcdImage(b0, s, flags, fch) ==
      Run(|b0| - (|s| + 1) / 2, Doubled(f)) + Pairs(Stream(s, Has(flags, ABC_NUM), f, true))
  {
  }

  /** The packed buffer of ABC_FILL without ABC_FORE: the stream, then fill
      bytes. */
  lemma FillBackImage(b0: seq<bv8>, s: seq<char>, flags: bv8, fch: char)
    requires Asc2BcdOk(s, |b0|, flags, fch) && Has(flags, ABC_FILL) && !Has(flags, ABC_FORE)
    ensures var f := HexValue(FillChar(flags, fch));
      Asc2BcdImage(b0, s, flags, fch) ==
      Pairs(Stream(s, Has(flags, ABC_NUM), f, false)) + Run(|b0| - (|s| + 1) / 2, Doubled(f))
  {
    var f := HexValue(FillChar(flags, fch));
    var k := (|s| + 1) / 2;
    var base := Run(|b0|, Doubled(f));
    assert base[k..] == Run(|b0| - k, Doubled(f));
  }

  /** Where bcd2ascx with ABC_FILL and ABC_FORE finds the text in a run of
      fill bytes followed by packed nibbles whose first byte is not a fill
      byte: after the run, and after a fill high nibble. */
  lemma FillForeSpan(img: seq<bv8>, k: nat, a: nat, st: seq<bv8>, e: nat, flags: bv8, fch: char)
    requires IsXDigit(FillChar(flags, fch)) && Has(flags, ABC_FILL) && Has(flags, ABC_FORE)
    requires IsNibbles(st) && k >= 1 && |st| == 2 * k
    requires var f := HexValue(FillChar(flags, fch));
      && (st[0] != f || st[1] != f)
      && img == Run(a, Doubled(f)) + Pairs(st)
      && e == if st[0] == f then 1 else 0
    ensures HasNonFill(img, flags, fch)
    ensures Span(img, flags, fch) == (2 * a + e, |st| - e)
  {
    var f := HexValue(FillChar(flags, fch));
    var ch2 := Doubled(f);
    var first := Pack(st[0], st[1]);
    assert Pairs(st)[0] == first;
    HiLoOfPack(st[0], st[1]);
    HiLoOfDoubled(f);
    assert img[a] == first != ch2;
    LeadingFillAfterRun(a, ch2, Pairs(st));
    HighMask(first, ch2);
    SpanFore(img, flags, fch, ch2, a, e);
  }

  /** The nibbles of a buffer holding x, then packed nibbles. */
  lemma UnpackAfter(img: seq<bv8>, x: seq<bv8>, st: seq<bv8>)
    requires IsNibbles(st) && |st| % 2 == 0 && img == x + Pairs(st)
    ensures Unpack(img) == Unpack(x) + st
  {
    UnpackAppend(x, Pairs(st));
    UnpackPairs(st);
  }

  /** The nibbles of a buffer holding packed nibbles, then y. */
  lemma UnpackBefore(img: seq<bv8>, st: seq<bv8>, y: seq<bv8>)
    requires IsNibbles(st) && |st| % 2 == 0 && img == Pairs(st) + y
    ensures Unpack(img) == st + Unpack(y)
  {
    UnpackAppend(Pairs(st), y);
    UnpackPairs(st);
  }

  /** The text of a buffer whose nibbles are u then st, when the span is st
      without its first e nibbles. */
  lemma TextOfTail(img: seq<bv8>, u: seq<bv8>, st: seq<bv8>, e: nat, flags: bv8, fch: char)
    requires IsXDigit(FillChar(flags, fch))
    requires IsNibbles(st) && e <= |st| && Unpack(img) == u + st
    requires Span(img, flags, fch) == (|u| + e, |st| - e)
    ensures IsNibbles(st[e..])
    ensures Bcd2AscText(img, flags, fch) == Chars(st[e..], Has(flags, ABC_NUM))
  {
    SliceOfAppend(u, st, e, |st|);
    assert Unpack(img)[|u| + e..|u| + e + (|st| - e)] == st[e..];
    TextFromSpan(img, flags, fch, |u| + e, |st| - e);
  }

  /** A slice that lies in the first half of a concatenation. */
  lemma SliceOfPrefix(x: seq<bv8>, y: seq<bv8>, j: nat)
    requires j <= |x|
    ensures (x + y)[0..j] == x[..j]
  {
  }

  /** A slice that lies in the second half of a concatenation. */
  lemma SliceOfAppend(x: seq<bv8>, y: seq<bv8>, i: nat, j: nat)
    requires i <= j <= |y|
    ensures (x + y)[|x| + i..|x| + j] == y[i..j]
  {
  }

  /** Where bcd2ascx without ABC_FORE finds the text in packed nibbles whose
      last byte is not a fill byte, followed by a run of fill bytes: before
      the run, and before a fill low nibble. */
  lemma FillBackSpan(img: seq<bv8>, k: nat, st: seq<bv8>, a: nat, e: nat, flags: bv8, fch: char)
    requires IsXDigit(FillChar(flags, fch)) && Has(flags, ABC_FILL) && !Has(flags, ABC_FORE)
    requires IsNibbles(st) && k >= 1 && |st| == 2 * k
    requires var f := HexValue(FillChar(flags, fch));
      && (st[2 * k - 2] != f || st[2 * k - 1] != f)
      && img == Pairs(st) + Run(a, Doubled(f))
      && e == if st[2 * k - 1] == f then 1 else 0
    ensures HasNonFill(img, flags, fch)
    ensures Span(img, flags, fch) == (0, 2 * k - e)
  {
    var f := HexValue(FillChar(flags, fch));
    var ch2 := Doubled(f);
    var last := Pack(st[2 * k - 2], st[2 * k - 1]);
    assert Pairs(st)[k - 1] == last;
    HiLoOfPack(st[2 * k - 2], st[2 * k - 1]);
    HiLoOfDoubled(f);
    assert img[k - 1] == last != ch2;
    TrailingFillBeforeRun(Pairs(st), a, ch2);
    assert |img| - TrailingFill(img, ch2) == k;
    assert ((img[k - 1] & 0x0F) == (ch2 & 0x0F)) == (st[2 * k - 1] == f);
    SpanBack(img, flags, fch, ch2, k, e);
  }

  /** The text of a buffer whose nibbles are st then u, when the span is st
      without its last e nibbles. */
  lemma TextOfHead(img: seq<bv8>, st: seq<bv8>, u: seq<bv8>, e: nat, flags: bv8, fch: char)
    requires IsXDigit(FillChar(flags, fch))
    requires IsNibbles(st) && e <= |st| && Unpack(img) == st + u
    requires Span(img, flags, fch) == (0, |st| - e)
    ensures IsNibbles(st[..|st| - e])
    ensures Bcd2AscText(img, flags, fch) == Chars(st[..|st| - e], Has(flags, ABC_NUM))
  {
    TextFromSpan(img, flags, fch, 0, |st| - e);
    SliceOfPrefix(st, u, |st| - e);
  }

  /** bcd2ascx with ABC_FILL and ABC_FORE on a run of fill bytes followed by
      packed nibbles whose first byte is not a fill byte: the run and a fill
      high nibble are stripped. */
  lemma FillForeDecode(img: seq<bv8>, k: nat, run: seq<bv8>, st: seq<bv8>, e: nat, flags: bv8, fch: char, f: bv8)
    requires IsXDigit(FillChar(flags, fch)) && Has(flags, ABC_FILL) && Has(flags, ABC_FORE)
    requires f == HexValue(FillChar(flags, fch)) && run == Run(|run|, Doubled(f))
    requires IsNibbles(st) && k >= 1 && |st| == 2 * k
    requires st[0] != f || st[1] != f
    requires img == run + Pairs(st)
    requires e == if st[0] == f then 1 else 0
    ensures HasNonFill(img, flags, fch)
    ensures Bcd2AscText(img, flags, fch) == Chars(st[e..], Has(flags, ABC_NUM))
  {
    assert |st| % 2 == 0;
    UnpackAfter(img, run, st);
    FillForeSpan(img, k, |run|, st, e, flags, fch);
    TextOfTail(img, Unpack(run), st, e, flags, fch);
  }

  /** bcd2ascx with ABC_FILL and without ABC_FORE on packed nibbles whose
      last byte is not a fill byte, followed by a run of fill bytes: the run
      and a fill low nibble are stripped. */
  lemma FillBackDecode(img: seq<bv8>, k: nat, st: seq<bv8>, run: seq<bv8>, e: nat, flags: bv8, fch: char, f: bv8)
    requires IsXDigit(FillChar(flags, fch)) && Has(flags, ABC_FILL) && !Has(flags, ABC_FORE)
    requires f == HexValue(FillChar(flags, fch)) && run == Run(|run|, Doubled(f))
    requires IsNibbles(st) && k >= 1 && |st| == 2 * k
    requires st[2 * k - 2] != f || st[2 * k - 1] != f
    requires img == Pairs(st) + run
    requires e == if st[2 * k - 1] == f then 1 else 0
    ensures HasNonFill(img, flags, fch)
    ensures Bcd2AscText(img, flags, fch) == Chars(st[..2 * k - e], Has(flags, ABC_NUM))
  {
    assert |st| % 2 == 0;
    UnpackBefore(img, st, run);
    FillBackSpan(img, k, st, |run|, e, flags, fch);
    TextOfHead(img, st, Unpack(run), e, flags, fch);
  }

  /** The stream asc2bcdx packs under ABC_FORE, when the first digit is not
      the fill digit: its first byte is not a fill byte, and it is the digits
      after e fill nibbles. */
  lemma ForeStream(s: seq<char>, num: bool, f: bv8, e: nat)
    requires |s| > 0 && f < 16 && Value(s[0], num) != f
    requires e == if |s| % 2 == 1 then 1 else 0
    ensures var st := Stream(s, num, f, true);
      && IsNibbles(st) && |st| == 2 * ((|s| + 1) / 2) && (|s| + 1) / 2 >= 1
      && (st[0] != f || st[1] != f)
      && e == (if st[0] == f then 1 else 0)
      && st[e..] == Nibbles(s, num)
  {
    var st := Stream(s, num, f, true);
    StreamLayout(s, num, f, true);
    assert st[e] == Value(s[0], num);
  }

  /** The stream asc2bcdx packs without ABC_FORE, when the last digit is not
      the fill digit: its last byte is not a fill byte, and it is the digits
      before e fill nibbles. */
  lemma BackStream(s: seq<char>, num: bool, f: bv8, k: nat, e: nat)
    requires |s| > 0 && f < 16 && Value(s[|s| - 1], num) != f
    requires k == (|s| + 1) / 2 && e == if |s| % 2 == 1 then 1 else 0
    ensures var st := Stream(s, num, f, false);
      && IsNibbles(st) && |st| == 2 * k && k >= 1
      && (st[2 * k - 2] != f || st[2 * k - 1] != f)
      && e == (if st[2 * k - 1] == f then 1 else 0)
      && st[..2 * k - e] == Nibbles(s, num)
  {
    var st := Stream(s, num, f, false);
    StreamLayout(s, num, f, false);
    assert st[2 * k - 1 - e] == Value(s[|s| - 1], num);
  }

  /** With ABC_FILL and ABC_FORE, bcd2ascx gives back the canonical text
      when its first digit is not the fill digit. */
  lemma RoundTripFillFore(b0: seq<bv8>, s: seq<char>, flags: bv8, fch: char)
    requires Asc2BcdOk(s, |b0|, flags, fch) && Has(flags, ABC_FILL) && Has(flags, ABC_FORE)
    requires |s| > 0 && Value(s[0], Has(flags, ABC_NUM)) != HexValue(FillChar(flags, fch))
    ensures HasNonFill(Asc2BcdImage(b0, s, flags, fch), flags, fch)
    ensures Bcd2AscText(Asc2BcdImage(b0, s, flags, fch), flags, fch) == Canonical(s, Has(flags, ABC_NUM))
  {
    FillForeImage(b0, s, flags, fch);
    ForeRoundTrip(Asc2BcdImage(b0, s, flags, fch), |b0| - (|s| + 1) / 2, s, flags, fch);
  }

  /** A run of fill bytes followed by the ABC_FORE stream of s decodes to the
      canonical s, when the first digit of s is not the fill digit. */
  lemma ForeRoundTrip(img: seq<bv8>, a: nat, s: seq<char>, flags: bv8, fch: char)
    requires IsXDigit(FillChar(flags, fch)) && Has(flags, ABC_FILL) && Has(flags, ABC_FORE)
    requires |s| > 0 && AllAccepted(s, Has(flags, ABC_NUM))
    requires Value(s[0], Has(flags, ABC_NUM)) != HexValue(FillChar(flags, fch))
    requires var f := HexValue(FillChar(flags, fch));
      img == Run(a, Doubled(f)) + Pairs(Stream(s, Has(flags, ABC_NUM), f, true))
    ensures HasNonFill(img, flags, fch)
    ensures Bcd2AscText(img, flags, fch) == Canonical(s, Has(flags, ABC_NUM))
  {
    var num := Has(flags, ABC_NUM);
    var f := HexValue(FillChar(flags, fch));
    var st := Stream(s, num, f, true);
    var e := if |s| % 2 == 1 then 1 else 0;
    ForeStream(s, num, f, e);
    FillForeDecode(img, (|s| + 1) / 2, Run(a, Doubled(f)), st, e, flags, fch, f);
    CharsOfNibbles(s, num);
  }

  /** With ABC_FILL and without ABC_FORE, bcd2ascx gives back the canonical
      text when its last digit is not the fill digit. */
  lemma RoundTripFillBack(b0: seq<bv8>, s: seq<char>, flags: bv8, fch: char)
    requires Asc2BcdOk(s, |b0|, flags, fch) && Has(flags, ABC_FILL) && !Has(flags, ABC_FORE)
    requires |s| > 0 && Value(s[|s| - 1], Has(flags, ABC_NUM)) != HexValue(FillChar(flags, fch))
    ensures HasNonFill(Asc2BcdImage(b0, s, flags, fch), flags, fch)
    ensures Bcd2AscText(Asc2BcdImage(b0, s, flags, fch), flags, fch) == Canonical(s, Has(flags, ABC_NUM))
  {
    FillBackImage(b0, s, flags, fch);
    BackRoundTrip(Asc2BcdImage(b0, s, flags, fch), |b0| - (|s| + 1) / 2, s, flags, fch);
  }

  /** The stream of s without ABC_FORE followed by a run of fill bytes
      decodes to the canonical s, when the last digit of s is not the fill
      digit. */
  lemma BackRoundTrip(img: seq<bv8>, a: nat, s: seq<char>, flags: bv8, fch: char)
    requires IsXDigit(FillChar(flags, fch)) && Has(flags, ABC_FILL) && !Has(flags, ABC_FORE)
    requires |s| > 0 && AllAccepted(s, Has(flags, ABC_NUM))
    requires Value(s[|s| - 1], Has(flags, ABC_NUM)) != HexValue(FillChar(flags, fch))
    requires var f := HexValue(FillChar(flags, fch));
      img == Pairs(Stream(s, Has(flags, ABC_NUM), f, false)) + Run(a, Doubled(f))
    ensures HasNonFill(img, flags, fch)
    ensures Bcd2AscText(img, flags, fch) == Canonical(s, Has(flags, ABC_NUM))
  {
    var num := Has(flags, ABC_NUM);
    var f := HexValue(FillChar(flags, fch));
    var st := Stream(s, num, f, false);
    var e, k := if |s| % 2 == 1 then 1 else 0, (|s| + 1) / 2;
    BackStream(s, num, f, k, e);
    FillBackDecode(img, k, st, Run(a, Doubled(f)), e, flags, fch, f);
    CharsOfNibbles(s, num);
  }

  // -----------------------------------------------------------------------
  // The empty text under ABC_FILL

  /** Under ABC_FILL, asc2bcdx of the empty text fills the whole buffer. */
  lemma EmptyFillImage(b0: seq<bv8>, flags: bv8, fch: char)
    requires Asc2BcdOk([], |b0|, flags, fch) && Has(flags, ABC_FILL)
    ensures Asc2BcdImage(b0, [], flags, fch) == Run(|b0|, Doubled(HexValue(FillChar(flags, fch))))
  {
    var f := HexValue(FillChar(flags, fch));
    var base := Run(|b0|, Doubled(f));
    assert Stream([], Has(flags, ABC_NUM), f, Has(flags, ABC_FORE)) == [];
    assert Pairs([]) == [];
    if Has(flags, ABC_FORE) {
      assert base[..|b0|] + [] + base[|b0|..] == base;
    } else {
      assert base[..0] + [] + base[0..] == base;
    }
  }

  /** As written, bcd2ascx cannot decode under ABC_FILL the buffer asc2bcdx
      makes from the empty text: every byte is a fill byte, so the byte it
      inspects after its fill loop lies outside the buffer. */
  lemma EmptyFillProbeOutside(b0: seq<bv8>, flags: bv8, fch: char)
    requires Asc2BcdOk([], |b0|, flags, fch) && Has(flags, ABC_FILL)
    ensures !HasNonFill(Asc2BcdImage(b0, [], flags, fch), flags, fch)
    ensures var k := ProbeAsWritten(Asc2BcdImage(b0, [], flags, fch), flags, fch);
      k == if Has(flags, ABC_FORE) then |b0| else -1
  {
    EmptyFillImage(b0, flags, fch);
  }

  /** With the inspection guarded, bcd2ascx gives the empty text back. */
  lemma RoundTripEmptyFill(b0: seq<bv8>, flags: bv8, fch: char)
    requires Asc2BcdOk([], |b0|, flags, fch) && Has(flags, ABC_FILL)
    ensures Bcd2AscText(Asc2BcdImage(b0, [], flags, fch), flags, fch) == []
  {
    EmptyFillImage(b0, flags, fch);
  }
}
