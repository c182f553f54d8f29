// Model of the ASCII <-> packed nibble codec of byteo.c: asc2bcdx
// (byteo.c:35-122) and bcd2ascx (byteo.c:137-217), with the flag values of
// byteo.h:15-21.
//
// Both routines take the fill character through C varargs when ABC_FCH is
// set; here it is the explicit parameter `fch`, read only under ABC_FCH
// (otherwise the fill character is '0').  The loop counters of the source are
// 16-bit signed, so lengths are bounded accordingly.
module Bcd {
  import opened CLib

  /** Digits are '0'..'?' instead of hex digits. */
  const ABC_NUM: bv8 := 0x01
  /** Pad (and strip) at the front instead of the back. */
  const ABC_FORE: bv8 := 0x02
  /** Fill the whole packed buffer. */
  const ABC_FILL: bv8 := 0x04
  /** The fill character is given instead of the default '0'. */
  const ABC_FCH: bv8 := 0x08

  predicate Has(flags: bv8, flag: bv8)
  {
    (flags & flag) != 0
  }

  /** The fill character in force for these flags. */
  function FillChar(flags: bv8, fch: char): char
  {
    if Has(flags, ABC_FCH) then fch else '0'
  }

  /** The value of a hexadecimal digit of either case. */
  function HexValue(c: char): (v: bv8)
    requires IsXDigit(c)
    ensures v < 16
  {
    if 'a' <= c <= 'f' then (c as int - 'a' as int + 10) as bv8
    else if 'A' <= c <= 'F' then (c as int - 'A' as int + 10) as bv8
    else (c as int - '0' as int) as bv8
  }

  /** The characters asc2bcdx accepts: '0'..'?' under ABC_NUM, otherwise
      hexadecimal digits of either case. */
  predicate Accepted(c: char, num: bool)
  {
    if num then '0' <= c <= '?'
    else ('a' <= c <= 'f') || ('A' <= c <= 'F') || ('0' <= c <= '9')
  }

  predicate AllAccepted(s: seq<char>, num: bool)
  {
    forall i :: 0 <= i < |s| ==> Accepted(s[i], num)
  }

  /** The nibble an accepted character stands for (0 for any other). */
  function Value(c: char, num: bool): (v: bv8)
    ensures v < 16
  {
    if !Accepted(c, num) then 0
    else if num then (c as int - '0' as int) as bv8
    else HexValue(c)
  }

  function Nibbles(s: seq<char>, num: bool): seq<bv8>
  {
    seq(|s|, i requires 0 <= i < |s| => Value(s[i], num))
  }

  predicate IsNibbles(n: seq<bv8>)
  {
    forall i :: 0 <= i < |n| ==> n[i] < 16
  }

  /** The byte with high nibble hi and low nibble lo. */
  function Pack(hi: bv8, lo: bv8): bv8
  {
    (hi << 4) | lo
  }

  /** A nibble repeated in both halves of a byte (the source's ch2). */
  function Doubled(f: bv8): bv8
  {
    f | (f << 4)
  }

  /** n copies of the byte x. */
  function Run(n: nat, x: bv8): (r: seq<bv8>)
    ensures |r| == n
  {
    seq(n, _ => x)
  }

  /** Consecutive nibbles packed two to a byte, the first one high. */
  function Pairs(n: seq<bv8>): seq<bv8>
  {
    seq(|n| / 2, k requires 0 <= k < |n| / 2 => Pack(n[2 * k], n[2 * k + 1]))
  }

  /** The nibbles asc2bcdx packs: the digits, with the fill nibble f in front
      (fore) or behind when their number is odd. */
  function Stream(s: seq<char>, num: bool, f: bv8, fore: bool): (n: seq<bv8>)
    ensures |n| == 2 * ((|s| + 1) / 2)
  {
    var d := Nibbles(s, num);
    if |s| % 2 == 0 then d else if fore then [f] + d else d + [f]
  }

  // -----------------------------------------------------------------------
  // asc2bcdx

  /** When asc2bcdx succeeds: the packed digits fit, the fill character is a
      hex digit and every character is accepted. */
  predicate Asc2BcdOk(s: seq<char>, bcdLen: nat, flags: bv8, fch: char)
  {
    && |s| <= 2 * bcdLen
    && IsXDigit(FillChar(flags, fch))
    && AllAccepted(s, Has(flags, ABC_NUM))
  }

  /** What asc2bcdx returns on success. */
  function Asc2BcdLen(sLen: nat, bcdLen: nat, flags: bv8): nat
  {
    if Has(flags, ABC_FILL) then bcdLen else (sLen + 1) / 2
  }

  /** The packed buffer after a successful asc2bcdx on a buffer that held b0:
      the packed stream at the front, or (ABC_FILL with ABC_FORE) ending at
      the last byte; under ABC_FILL every other byte is the doubled fill
      nibble, otherwise the other bytes keep their old values. */
  function Asc2BcdImage(b0: seq<bv8>, s: seq<char>, flags: bv8, fch: char): (b: seq<bv8>)
    requires Asc2BcdOk(s, |b0|, flags, fch)
    ensures |b| == |b0|
  {
    var f := HexValue(FillChar(flags, fch));
    var k := (|s| + 1) / 2;
    var base := if Has(flags, ABC_FILL) then Run(|b0|, Doubled(f)) else b0;
    var at := if Has(flags, ABC_FILL) && Has(flags, ABC_FORE) then |b0| - k else 0;
    base[..at] + Pairs(Stream(s, Has(flags, ABC_NUM), f, Has(flags, ABC_FORE))) + base[at + k..]
  }

  /** A buffer holding the pairs of n from index at on, and b0 elsewhere. */
  lemma PairsOverlay(b: seq<bv8>, b0: seq<bv8>, at: nat, n: seq<bv8>, m: nat)
    requires |n| == 2 * m && at + m <= |b0|
    requires PackedUpTo(b, b0, at, at + m, n)
    ensures b == b0[..at] + Pairs(n) + b0[at + m..]
  {
    var c := b0[..at] + Pairs(n) + b0[at + m..];
    assert |c| == |b|;
    forall j | 0 <= j < |b| ensures b[j] == c[j] {
      if at <= j < at + m {
        assert c[j] == Pairs(n)[j - at];
      }
    }
  }

  /** The buffer the packing loop leaves is the image asc2bcdx promises. */
  lemma ImageIs(b: seq<bv8>, b1: seq<bv8>, b0: seq<bv8>, s: seq<char>, flags: bv8, fch: char, at: nat)
    requires Asc2BcdOk(s, |b0|, flags, fch) && |b1| == |b0|
    requires Has(flags, ABC_FILL) ==> b1 == Run(|b0|, Doubled(HexValue(FillChar(flags, fch))))
    requires !Has(flags, ABC_FILL) ==> b1 == b0
    requires at == if Has(flags, ABC_FILL) && Has(flags, ABC_FORE) then |b0| - (|s| + 1) / 2 else 0
    requires b == b1[..at] + Pairs(Stream(s, Has(flags, ABC_NUM), HexValue(FillChar(flags, fch)), Has(flags, ABC_FORE)))
      + b1[at + (|s| + 1) / 2..]
    ensures b == Asc2BcdImage(b0, s, flags, fch)
  {
  }

  lemma LowOfDoubled(f: bv8)
    requires f < 16
    ensures Doubled(f) & 0x0F == f
  {
  }

  /** Where the digits sit in the packed stream, and what completes it. */
  lemma StreamLayout(s: seq<char>, num: bool, f: bv8, fore: bool)
    ensures var n, d := Stream(s, num, f, fore), if fore && |s| % 2 == 1 then 1 else 0;
      && |n| == d + |s| + (if !fore && |s| % 2 == 1 then 1 else 0)
      && (d == 1 ==> n[0] == f)
      && (forall k :: 0 <= k < |s| ==> n[d + k] == Value(s[k], num))
      && (d + |s| < |n| ==> n[|n| - 1] == f)
  {
    var digits := Nibbles(s, num);
    if |s| % 2 == 1 {
      if fore {
        assert Stream(s, num, f, fore) == [f] + digits;
      } else {
        assert Stream(s, num, f, fore) == digits + [f];
      }
    }
  }

  /** What the conversion loop needs: n is the nibble stream to pack into m
      bytes from index at on, led by ch1 unless that is the 0x55 sentinel,
      then the digits of asc, then (when needed) the low nibble of ch2. */
  predicate PackReady(asc: seq<char>, num: bool, ch2: bv8, at: nat, ch1: bv8, n: seq<bv8>, m: nat, len: nat)
  {
    var d := if ch1 == 0x55 then 0 else 1;
    && (ch1 == 0x55 || ch1 < 16)
    && |n| == 2 * m && d + |asc| <= 2 * m <= d + |asc| + 1 && at + m <= len
    && (d == 1 ==> n[0] == ch1)
    && (forall k :: 0 <= k < |asc| ==> n[d + k] == Value(asc[k], num))
    && (d + |asc| < 2 * m ==> n[2 * m - 1] == ch2 & 0x0F)
  }

  /** The stream asc2bcdx packs meets what the conversion loop needs. */
  lemma StreamReady(asc: seq<char>, num: bool, f: bv8, fore: bool, fill: bool, len: nat)
    requires f < 16 && |asc| <= 2 * len
    ensures PackReady(asc, num, Doubled(f), if fore && fill then len - (|asc| + 1) / 2 else 0,
      if fore && |asc| % 2 == 1 then f else 0x55, Stream(asc, num, f, fore), (|asc| + 1) / 2, len)
  {
    var n, m := Stream(asc, num, f, fore), (|asc| + 1) / 2;
    assert m <= len && |n| == 2 * m;
    StreamLayout(asc, num, f, fore);
    LowOfDoubled(f);
  }

  /** The pointwise picture of bcd while packing: the p - at bytes from at on
      hold the pairs of n, the others are as in b0. */
  ghost predicate PackedUpTo(b: seq<bv8>, b0: seq<bv8>, at: nat, p: nat, n: seq<bv8>)
  {
    |b| == |b0| && at <= p && 2 * (p - at) <= |n| &&
    forall j :: 0 <= j < |b| ==>
      b[j] == if at <= j < p then Pack(n[2 * (j - at)], n[2 * (j - at) + 1]) else b0[j]
  }

  /** Writing the next pair at p extends the packed part by one byte. */
  lemma PackedStep(b: seq<bv8>, b0: seq<bv8>, at: nat, p: nat, n: seq<bv8>)
    requires PackedUpTo(b, b0, at, p, n) && p < |b| && 2 * (p - at) + 2 <= |n|
    ensures PackedUpTo(b[p := Pack(n[2 * (p - at)], n[2 * (p - at) + 1])], b0, at, p + 1, n)
  {
  }

  /** The character loop of asc2bcdx: packs the nibbles of asc two to a byte
      into bcd from index at on.  ch1 is the pending high nibble (the 0x55
      sentinel when there is none, or the fill nibble that ABC_FORE puts in
      front).  Stops with ok false at the first character that is not
      accepted; otherwise returns the pending nibble left at the end. */
  method PackLoop(asc: seq<char>, bcd: array<bv8>, num: bool, ch2: bv8, at: nat, ch1: bv8,
                  ghost n: seq<bv8>, ghost m: nat)
    returns (ok: bool, p: nat, last: bv8)
    requires PackReady(asc, num, ch2, at, ch1, n, m, bcd.Length)
    modifies bcd
    ensures ok <==> AllAccepted(asc, num)
    ensures ok ==> PackedUpTo(bcd[..], old(bcd[..]), at, p, n)
    ensures ok ==> (if last == 0x55 then p - at == m else p - at + 1 == m && last == n[2 * (p - at)] && ch2 & 0x0F == n[2 * (p - at) + 1])
  {
    ghost var b0 := bcd[..];
    ghost var d := if ch1 == 0x55 then 0 else 1;
    last := ch1;
    p := at;
    var i := 0;
    while i < |asc|
      invariant 0 <= i <= |asc| && at <= p
      invariant forall j :: 0 <= j < i ==> Accepted(asc[j], num)
      invariant d + i == 2 * (p - at) + (if last == 0x55 then 0 else 1)
      invariant last != 0x55 ==> last == n[2 * (p - at)]
      invariant PackedUpTo(bcd[..], b0, at, p, n)
    {
      var c := asc[i];
      if !Accepted(c, num) {
        return false, p, last;
      }
      var ch := Value(c, num);
      if last == 0x55 {
        last := ch;
      } else {
        bcd[p] := Pack(last, ch);
        p := p + 1;
        last := 0x55;
      }
      i := i + 1;
    }
    ok := true;
  }

  /** The conversion of asc2bcdx: the character loop, then a nibble still
      pending at the end is completed with the low nibble of ch2. */
  method PackDigits(asc: seq<char>, bcd: array<bv8>, num: bool, ch2: bv8, at: nat, ch1: bv8,
                    ghost n: seq<bv8>, ghost m: nat)
    returns (ok: bool, convLen: nat)
    requires PackReady(asc, num, ch2, at, ch1, n, m, bcd.Length)
    modifies bcd
    ensures ok <==> AllAccepted(asc, num)
    ensures ok ==> convLen == m && bcd[..] == old(bcd[..])[..at] + Pairs(n) + old(bcd[..])[at + m..]
  {
    ghost var b0 := bcd[..];
    var p, last;
    ok, p, last := PackLoop(asc, bcd, num, ch2, at, ch1, n, m);
    if !ok {
      return false, 0;
    }
    if last != 0x55 {
      ghost var b1 := bcd[..];
      bcd[p] := Pack(last, ch2 & 0x0F);
      PackedStep(b1, b0, at, p, n);
      p := p + 1;
    }
    convLen := p - at;
    PairsOverlay(bcd[..], b0, at, n, convLen);
  }

  /** The packing half of asc2bcdx, once the sizes and the fill character
      are checked: fills the buffer under ABC_FILL, then packs the stream at
      the front or, under ABC_FILL with ABC_FORE, so that it ends at the last
      byte. */
  method PackStream(asc: seq<char>, bcd: array<bv8>, flags: bv8, fch: char) returns (ok: bool)
    requires |asc| <= 2 * bcd.Length && IsXDigit(FillChar(flags, fch))
    modifies bcd
    ensures ok <==> AllAccepted(asc, Has(flags, ABC_NUM))
    ensures ok ==> bcd[..] == Asc2BcdImage(old(bcd[..]), asc, flags, fch)
  {
    ghost var b00 := bcd[..];
    if Has(flags, ABC_FILL) {
      FillBuffer(bcd, Doubled(HexValue(FillChar(flags, fch))));
    }
    ok := PackFrom(asc, bcd, flags, fch, b00);
  }

  /** The packing of asc2bcdx once the buffer is filled (under ABC_FILL):
      sets the start index and the pending fill nibble for ABC_FORE, then
      packs.  b00 is the buffer before the fill. */
  method PackFrom(asc: seq<char>, bcd: array<bv8>, flags: bv8, fch: char, ghost b00: seq<bv8>) returns (ok: bool)
    requires |asc| <= 2 * bcd.Length && IsXDigit(FillChar(flags, fch)) && |b00| == bcd.Length
    requires Has(flags, ABC_FILL) ==> bcd[..] == Run(|b00|, Doubled(HexValue(FillChar(flags, fch))))
    requires !Has(flags, ABC_FILL) ==> bcd[..] == b00
    modifies bcd
    ensures ok <==> AllAccepted(asc, Has(flags, ABC_NUM))
    ensures ok ==> bcd[..] == Asc2BcdImage(b00, asc, flags, fch)
  {
    var num, fore, fill := Has(flags, ABC_NUM), Has(flags, ABC_FORE), Has(flags, ABC_FILL);
    var f := HexValue(FillChar(flags, fch));
    var ch2 := Doubled(f);
    ghost var b1 := bcd[..];
    var p := if fore && fill then bcd.Length - (|asc| + 1) / 2 else 0;
    var ch1: bv8 := if fore && |asc| % 2 == 1 then ch2 & 0x0F else 0x55;
    ghost var n, m := Stream(asc, num, f, fore), (|asc| + 1) / 2;
    StreamReady(asc, num, f, fore, fill, bcd.Length);
    var convLen;
    ok, convLen := PackDigits(asc, bcd, num, ch2, p, ch1, n, m);
    if ok {
      ImageIs(bcd[..], b1, b00, asc, flags, fch, p);
    }
  }

  /** memset(bcd, x, |bcd|). */
  method FillBuffer(bcd: array<bv8>, x: bv8)
    modifies bcd
    ensures bcd[..] == Run(bcd.Length, x)
  {
    forall j | 0 <= j < bcd.Length {
      bcd[j] := x;
    }
  }

  /** asc2bcdx(asc, |asc|, bcd, bcd.Length, flags, fch).  Returns -1 when the
      buffer is too small, the fill character is not a hex digit or a
      character is not accepted; bytes already written when a bad character
      is met are not restored. */
  method Asc2Bcdx(asc: seq<char>, bcd: array<bv8>, flags: bv8, fch: char) returns (r: int)
    requires |asc| <= 32767 && bcd.Length <= 32767
    modifies bcd
    ensures r == -1 <==> !Asc2BcdOk(asc, bcd.Length, flags, fch)
    ensures (|asc| > 2 * bcd.Length || !IsXDigit(FillChar(flags, fch))) ==> bcd[..] == old(bcd[..])
    ensures r != -1 ==> r == Asc2BcdLen(|asc|, bcd.Length, flags)
    ensures r != -1 ==> bcd[..] == Asc2BcdImage(old(bcd[..]), asc, flags, fch)
  {
    if bcd.Length * 2 < |asc| {
      return -1;
    }
    var fc := '0';
    if Has(flags, ABC_FCH) {
      fc := fch;
    }
    if !IsXDigit(fc) {
      return -1;
    }
    var ok := PackStream(asc, bcd, flags, fch);
    if !ok {
      return -1;
    }
    r := if Has(flags, ABC_FILL) then bcd.Length else (|asc| + 1) / 2;
  }

  // -----------------------------------------------------------------------
  // bcd2ascx

  /** The high nibble of a byte. */
  function Hi(x: bv8): (n: bv8)
    ensures n < 16
  {
    x >> 4
  }

  /** The low nibble of a byte. */
  function Lo(x: bv8): (n: bv8)
    ensures n < 16
  {
    x & 0x0F
  }

  /** The i-th nibble of b, counting the high nibble of each byte first. */
  function NibbleAt(b: seq<bv8>, i: nat): bv8
    requires i < 2 * |b|
  {
    if i % 2 == 0 then Hi(b[i / 2]) else Lo(b[i / 2])
  }

  /** The nibbles of a buffer, high nibble of each byte first. */
  function Unpack(b: seq<bv8>): (n: seq<bv8>)
    ensures |n| == 2 * |b| && IsNibbles(n)
  {
    seq(2 * |b|, i requires 0 <= i < 2 * |b| => NibbleAt(b, i))
  }

  /** The character bcd2ascx writes for a nibble: '0' + n under ABC_NUM,
      otherwise an upper-case hex digit. */
  function NibbleChar(n: bv8, num: bool): char
    requires n < 16
  {
    if num then ('0' as int + n as int) as char
    else if n > 9 then ('A' as int + n as int - 10) as char
    else ('0' as int + n as int) as char
  }

  function Chars(n: seq<bv8>, num: bool): (s: seq<char>)
    requires IsNibbles(n)
    ensures |s| == |n|
  {
    seq(|n|, i requires 0 <= i < |n| => NibbleChar(n[i], num))
  }

  /** How many leading bytes of b equal x. */
  function LeadingFill(b: seq<bv8>, x: bv8): (k: nat)
    ensures k <= |b|
    ensures forall j :: 0 <= j < k ==> b[j] == x
    ensures k < |b| ==> b[k] != x
  {
    if |b| == 0 || b[0] != x then 0 else 1 + LeadingFill(b[1..], x)
  }

  /** How many trailing bytes of b equal x. */
  function TrailingFill(b: seq<bv8>, x: bv8): (k: nat)
    ensures k <= |b|
    ensures forall j :: |b| - k <= j < |b| ==> b[j] == x
    ensures k < |b| ==> b[|b| - k - 1] != x
  {
    if |b| == 0 || b[|b| - 1] != x then 0 else 1 + TrailingFill(b[..|b| - 1], x)
  }

  /** When the source's bcd2ascx stays inside the buffer: under ABC_FILL
      (with a valid fill character) some byte must differ from the doubled
      fill (see ProbeAsWritten). */
  predicate HasNonFill(b: seq<bv8>, flags: bv8, fch: char)
  {
    Has(flags, ABC_FILL) && IsXDigit(FillChar(flags, fch)) ==>
      exists j :: 0 <= j < |b| && b[j] != Doubled(HexValue(FillChar(flags, fch)))
  }

  /** The index of the byte the source's bcd2ascx inspects after its fill
      loop under ABC_FILL: the first byte that is not a fill byte (ABC_FORE)
      or the last one.  When every byte is a fill byte this is |b| or -1,
      outside the buffer, and the source reads it all the same. */
  function ProbeAsWritten(b: seq<bv8>, flags: bv8, fch: char): (k: int)
    requires IsXDigit(FillChar(flags, fch)) && Has(flags, ABC_FILL)
    ensures -1 <= k <= |b|
    ensures 0 <= k < |b| <==> HasNonFill(b, flags, fch)
  {
    var ch2 := Doubled(HexValue(FillChar(flags, fch)));
    var k := if Has(flags, ABC_FORE) then LeadingFill(b, ch2) else |b| - TrailingFill(b, ch2) - 1;
    if 0 <= k < |b| then
      assert b[k] != ch2;
      k
    else
      assert !HasNonFill(b, flags, fch) by {
        if Has(flags, ABC_FORE) {
          assert forall j :: 0 <= j < |b| ==> b[j] == ch2;
        } else {
          assert forall j :: |b| - TrailingFill(b, ch2) <= j < |b| ==> b[j] == ch2;
        }
      }
      k
  }

  /** Where the text bcd2ascx produces lies among the nibbles of b: its
      first nibble and how many there are.  Without ABC_FILL, all of them.
      With ABC_FILL and ABC_FORE, those after the leading fill bytes and
      after one more leading fill nibble; with ABC_FILL alone, those before
      the trailing fill bytes and before one more trailing fill nibble.  The
      extra fill nibble is looked for only when some byte is left, so a
      buffer of fill bytes holds the empty text. */
  function Span(b: seq<bv8>, flags: bv8, fch: char): (r: (nat, nat))
    requires IsXDigit(FillChar(flags, fch))
    ensures r.0 + r.1 <= 2 * |b|
  {
    var ch2 := Doubled(HexValue(FillChar(flags, fch)));
    if !Has(flags, ABC_FILL) then (0, 2 * |b|)
    else if Has(flags, ABC_FORE) then
      var lead := LeadingFill(b, ch2);
      var e := if lead < |b| && (b[lead] & 0xF0) == (ch2 & 0xF0) then 1 else 0;
      (2 * lead + e, 2 * (|b| - lead) - e)
    else
      var m := |b| - TrailingFill(b, ch2);
      var e := if 0 < m && (b[m - 1] & 0x0F) == (ch2 & 0x0F) then 1 else 0;
      (0, 2 * m - e)
  }

  /** The nibbles bcd2ascx turns into characters. */
  function Visible(b: seq<bv8>, flags: bv8, fch: char): (n: seq<bv8>)
    requires IsXDigit(FillChar(flags, fch))
    ensures IsNibbles(n)
  {
    var sp := Span(b, flags, fch);
    Unpack(b)[sp.0..sp.0 + sp.1]
  }

  /** The text bcd2ascx produces from b. */
  function Bcd2AscText(b: seq<bv8>, flags: bv8, fch: char): seq<char>
    requires IsXDigit(FillChar(flags, fch))
  {
    Chars(Visible(b, flags, fch), Has(flags, ABC_NUM))
  }

  /** The text bcd2ascx produces, read off its span. */
  lemma TextFromSpan(b: seq<bv8>, flags: bv8, fch: char, start: nat, len: nat)
    requires IsXDigit(FillChar(flags, fch))
    requires Span(b, flags, fch) == (start, len)
    ensures |Visible(b, flags, fch)| == len
    ensures Bcd2AscText(b, flags, fch) == Chars(Unpack(b)[start..start + len], Has(flags, ABC_NUM))
  {
  }

  /** The buffer EmitChars leaves holds the text bcd2ascx promises. */
  lemma FinalText(a: seq<char>, a0: seq<char>, b: seq<bv8>, flags: bv8, fch: char, start: nat, len: nat)
    requires IsXDigit(FillChar(flags, fch))
    requires Span(b, flags, fch) == (start, len) && len <= |a0|
    requires a == Chars(Unpack(b)[start..start + len], Has(flags, ABC_NUM)) + a0[len..]
    ensures a == Bcd2AscText(b, flags, fch) + a0[len..]
  {
    TextFromSpan(b, flags, fch, start, len);
  }

  /** A buffer whose first k characters spell the nibbles from index start
      on, and which keeps a0 beyond them. */
  lemma CharsOverlay(a: seq<char>, a0: seq<char>, bcd: seq<bv8>, start: nat, k: nat, num: bool)
    requires |a| == |a0| && k <= |a| && start + k <= 2 * |bcd|
    requires forall t :: 0 <= t < |a| ==>
      a[t] == if t < k then NibbleChar(NibbleAt(bcd, start + t), num) else a0[t]
    ensures a == Chars(Unpack(bcd)[start..start + k], num) + a0[k..]
  {
    var c := Chars(Unpack(bcd)[start..start + k], num) + a0[k..];
    assert |c| == |a|;
    forall t | 0 <= t < |a| ensures a[t] == c[t] {
      if t < k {
        assert c[t] == NibbleChar(Unpack(bcd)[start + t], num);
      }
    }
  }

  /** The conversion loop of bcd2ascx: writes one character per nibble,
      convLen of them, starting at the high (i == 0) or low (i == 1) nibble
      of byte b. */
  method EmitChars(bcd: seq<bv8>, asc: array<char>, num: bool, b: nat, i: nat, convLen: nat)
    requires i <= 1 && 2 * b + i + convLen <= 2 * |bcd| && convLen <= asc.Length
    modifies asc
    ensures asc[..] == Chars(Unpack(bcd)[2 * b + i..2 * b + i + convLen], num) + old(asc[convLen..])
  {
    ghost var a0 := asc[..];
    ghost var b0, i0 := b, i;
    ghost var start := 2 * b + i;
    var b, i := b, i;
    var j := convLen + i;
    var k := 0;
    while i < j
      invariant i0 <= i <= j && k == i - i0 && b == b0 + i / 2
      invariant forall t :: 0 <= t < asc.Length ==>
        asc[t] == if t < k then NibbleChar(NibbleAt(bcd, start + t), num) else a0[t]
    {
      var ch1: bv8;
      if i % 2 == 1 {
        ch1 := bcd[b] & 0x0F;
        b := b + 1;
      } else {
        ch1 := bcd[b] >> 4;
      }
      asc[k] := NibbleChar(ch1, num);
      k := k + 1;
      i := i + 1;
    }
    CharsOverlay(asc[..], a0, bcd, start, convLen, num);
  }

  /** The leading-fill loop of bcd2ascx (ABC_FILL with ABC_FORE): the index
      of the first byte that is not the doubled fill nibble ch2. */
  method SkipLeadingFill(bcd: seq<bv8>, ch2: bv8) returns (b: nat, convLen: nat)
    ensures b == LeadingFill(bcd, ch2) && convLen == 2 * (|bcd| - b)
  {
    convLen := 2 * |bcd|;
    b := 0;
    while convLen > 0 && bcd[b] == ch2
      invariant 0 <= b <= |bcd| && convLen == 2 * (|bcd| - b)
      invariant forall j :: 0 <= j < b ==> bcd[j] == ch2
    {
      b := b + 1;
      convLen := convLen - 2;
    }
  }

  /** The trailing-fill loop of bcd2ascx (ABC_FILL without ABC_FORE): twice
      the number of bytes left once the trailing doubled fill bytes are cut. */
  method SkipTrailingFill(bcd: seq<bv8>, ch2: bv8) returns (convLen: nat)
    ensures convLen == 2 * (|bcd| - TrailingFill(bcd, ch2))
  {
    convLen := 2 * |bcd|;
    while convLen > 0 && bcd[convLen / 2 - 1] == ch2
      invariant 0 <= convLen <= 2 * |bcd| && convLen % 2 == 0
      invariant forall j :: convLen / 2 <= j < |bcd| ==> bcd[j] == ch2
    {
      convLen := convLen - 2;
    }
  }

  lemma SpanAll(b: seq<bv8>, flags: bv8, fch: char)
    requires IsXDigit(FillChar(flags, fch)) && !Has(flags, ABC_FILL)
    ensures Span(b, flags, fch) == (0, 2 * |b|)
  {
  }

  lemma SpanFore(b: seq<bv8>, flags: bv8, fch: char, ch2: bv8, lead: nat, e: nat)
    requires IsXDigit(FillChar(flags, fch))
    requires Has(flags, ABC_FILL) && Has(flags, ABC_FORE)
    requires ch2 == Doubled(HexValue(FillChar(flags, fch)))
    requires lead == LeadingFill(b, ch2)
    requires e == if lead < |b| && (b[lead] & 0xF0) == (ch2 & 0xF0) then 1 else 0
    ensures Span(b, flags, fch) == (2 * lead + e, 2 * (|b| - lead) - e)
  {
  }

  lemma SpanBack(b: seq<bv8>, flags: bv8, fch: char, ch2: bv8, m: nat, e: nat)
    requires IsXDigit(FillChar(flags, fch))
    requires Has(flags, ABC_FILL) && !Has(flags, ABC_FORE)
    requires ch2 == Doubled(HexValue(FillChar(flags, fch)))
    requires m == |b| - TrailingFill(b, ch2)
    requires e == if 0 < m && (b[m - 1] & 0x0F) == (ch2 & 0x0F) then 1 else 0
    ensures Span(b, flags, fch) == (0, 2 * m - e)
  {
  }

  /** The ABC_FORE branch of the span search: skip the leading fill bytes,
      then a fill high nibble when a byte is left. */
  method ForeSpan(bcd: seq<bv8>, flags: bv8, fch: char, ch2: bv8) returns (b: nat, i: nat, convLen: nat)
    requires IsXDigit(FillChar(flags, fch))
    requires Has(flags, ABC_FILL) && Has(flags, ABC_FORE)
    requires ch2 == Doubled(HexValue(FillChar(flags, fch)))
    ensures i <= 1 && (2 * b + i, convLen) == Span(bcd, flags, fch)
  {
    b, convLen := SkipLeadingFill(bcd, ch2);
    i := 0;
    if convLen > 0 && (bcd[b] & 0xF0) == (ch2 & 0xF0) {
      i := 1;
      convLen := convLen - 1;
    }
    SpanFore(bcd, flags, fch, ch2, b, i);
  }

  /** The trailing branch of the span search: skip the trailing fill bytes,
      then a fill low nibble when a byte is left. */
  method BackSpan(bcd: seq<bv8>, flags: bv8, fch: char, ch2: bv8) returns (convLen: nat)
    requires IsXDigit(FillChar(flags, fch))
    requires Has(flags, ABC_FILL) && !Has(flags, ABC_FORE)
    requires ch2 == Doubled(HexValue(FillChar(flags, fch)))
    ensures (0, convLen) == Span(bcd, flags, fch)
  {
    convLen := SkipTrailingFill(bcd, ch2);
    ghost var m := |bcd| - TrailingFill(bcd, ch2);
    assert convLen / 2 == m;
    if convLen > 0 && (bcd[convLen / 2 - 1] & 0x0F) == (ch2 & 0x0F) {
      convLen := convLen - 1;
    }
    SpanBack(bcd, flags, fch, ch2, m, 2 * m - convLen);
  }

  /** The part of bcd2ascx that finds where the text starts (byte b, low
      nibble first when i is 1) and how many nibbles it has. */
  method FindSpan(bcd: seq<bv8>, flags: bv8, fch: char, ch2: bv8) returns (b: nat, i: nat, convLen: nat)
    requires IsXDigit(FillChar(flags, fch))
    requires ch2 == Doubled(HexValue(FillChar(flags, fch)))
    ensures i <= 1 && (2 * b + i, convLen) == Span(bcd, flags, fch)
  {
    if !Has(flags, ABC_FILL) {
      SpanAll(bcd, flags, fch);
      return 0, 0, 2 * |bcd|;
    }
    if Has(flags, ABC_FORE) {
      b, i, convLen := ForeSpan(bcd, flags, fch, ch2);
    } else {
      b, i := 0, 0;
      convLen := BackSpan(bcd, flags, fch, ch2);
    }
  }

  /** bcd2ascx(bcd, |bcd|, asc, asc.Length, flags, fch).  Returns -1 when the
      fill character is not a hex digit or the text does not fit; otherwise
      writes the text (without a NUL) at the front of asc and returns its
      length.  Unlike the source, the fill nibble after the fill bytes is
      looked for only when a byte is left (see ProbeAsWritten). */
  method Bcd2Ascx(bcd: seq<bv8>, asc: array<char>, flags: bv8, fch: char) returns (r: int)
    requires |bcd| <= 16383 && asc.Length <= 65535
    modifies asc
    ensures !IsXDigit(FillChar(flags, fch)) ==> r == -1
    ensures IsXDigit(FillChar(flags, fch)) ==>
      (r == -1 <==> |Visible(bcd, flags, fch)| > asc.Length)
    ensures r == -1 ==> asc[..] == old(asc[..])
    ensures r != -1 ==> IsXDigit(FillChar(flags, fch)) && r == |Visible(bcd, flags, fch)|
    ensures r != -1 ==> asc[..] == Bcd2AscText(bcd, flags, fch) + old(asc[r..])
  {
    var fc := '0';
    if Has(flags, ABC_FCH) {
      fc := fch;
    }
    if !IsXDigit(fc) {
      return -1;
    }
    var ch2 := Doubled(HexValue(fc));
    var b, i, convLen := FindSpan(bcd, flags, fch, ch2);
    TextFromSpan(bcd, flags, fch, 2 * b + i, convLen);
    if convLen > asc.Length {
      return -1;
    }
    ghost var a0 := asc[..];
    assert a0 == old(asc[..]);
    EmitChars(bcd, asc, Has(flags, ABC_NUM), b, i, convLen);
    FinalText(asc[..], a0, bcd, flags, fch, 2 * b + i, convLen);
    r := convLen;
  }
}
