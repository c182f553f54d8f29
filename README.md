# libutil core in Dafny

This project models the core of libutil, a small C utility library, and
proves properties of the model. It covers four parts of the library:

- **the ring buffer** (`queue/queue.c`). It is a byte FIFO over one
  fixed-size buffer, modelled as the class `Queue.RingBuffer`.
  - The buffer is an `array<bv8>`. The read position (`data_ptr`) is an
    offset `cursor`, and `data_size` is `count`.
  - Every method says what it does to that state. It also says what it
    does to the ghost `Contents()`, the bytes queued in FIFO order.
  - The class invariant `Valid()` says that `0 <= cursor < size` and
    `0 <= count <= size`.
- **the byte helpers** (`byteo.c`):
  - the BCD packer `asc2bcdx` and unpacker `bcd2ascx`, with their flags
    `ABC_NUM`, `ABC_FORE`, `ABC_FILL` and `ABC_FCH` (module `Bcd`, with
    the round-trip laws in `BcdLaws`);
  - the in-place string trimmers `atrim`, `ltrim`, `rtrim` and `trim`;
  - the character-class scans `isbreak`, `isdigits` and `isxdigits`;
  - the byte-wise `ands`, `ors`, `xors` and `nots` (module `ByteO`).
- **the string helpers** (`string/av_string.c`): prefix tests,
  case-insensitive search, `av_strlcpy` and `av_strlcat`, and the
  tokenizer `av_get_token` (module `AvString`).
- **the arithmetic macros** of `types.h` (module `Types`).

C strings are `array<char>` when the source writes them in place, and
`seq<char>` when it only reads them. A `seq<char>` holds the characters
before the terminating NUL. `CLib` holds the shared C-library notions:
- ASCII `isspace`, `isdigit`, `isxdigit` and `toupper` in the C locale;
- `strlen`, and the string a NUL-terminated buffer holds (`CStr`).

A pointer that a C function returns into its argument is returned as an
offset. Where that pointer is always the argument itself (`atrim`,
`rtrim`), nothing is returned. Bytes are `bv8`. Fixed-width integers are unbounded `int` or
`nat`, except where the width changes behaviour. `types.h` word macros
use `bv32`, and the `S16` loop counters of `byteo.c` are modelled
explicitly (`ByteO.S16Counter`).

Every imperative C function is a Dafny `method` with loops and
invariants. Its contract ties the result and the new state to a
specification function. Lemmas then prove the properties about those
functions:
- the round trip of `asc2bcdx` followed by `bcd2ascx`;
- that reading a ring buffer returns the bytes in the order they were
  written;
- that trimming is idempotent;
- that xor is self-inverse, and De Morgan for the byte operations;
- the tokenizer's behaviour on each kind of input, including the
  library's own sample strings.

## Model

| member | source | states |
|---|---|---|
| Types.Rnd8RoundsUp | types.h:135 | `RND8(x)` is a multiple of 8, is at least x and less than x + 8, and equals x when x is already a multiple of 8 |
| Types.ShlIsMul | types.h:141 | shifting left by m multiplies by 2^m |
| Types.ShrIsDiv | types.h:144 | shifting right by m divides by 2^m, rounding down |
| Types.MulMIsProduct | types.h:141 | `MUL_M(x, m)` is x * 2^m for every x, m whose product fits in an int (the shift does not overflow) |
| Types.DivMIsQuotient | types.h:144 | `DIV_M(x, m)` is x / 2^m |
| Types.RemMIsRemainder | types.h:147 | `REM_M(x, m)`, x minus x shifted right then left by m, is x mod 2^m |
| Types.AndLowMask | types.h:150 | and-ing with 2^m - 1 keeps x mod 2^m |
| Types.RemYIsRemainder | types.h:150 | `REM_Y(x, y)` is x mod y when y is a power of two |
| Types.Arr2PosInBounds | types.h:162 | `ARR2_POS` of an in-range (i, j) lies inside the rows*cols array and divides back into row i and column j |
| Types.WordSplit | types.h:130-132 | `LOWORD`/`HIWORD` of `MAKEWORD(x, y)` give the low 16 bits of x and of y |
| Types.WordJoin | types.h:130-132 | `MAKEWORD(LOWORD(w), HIWORD(w))` rebuilds w |
| CLib.Strlen | byteo.c:263 | `strlen` is the index of the first NUL, and no NUL comes before it |
| CLib.CStr | byteo.c:263 | the string a buffer holds is NUL-free and followed by a NUL in the buffer |
| CLib.NulEndsString | byteo.c:236 | a NUL written after a NUL-free prefix makes that prefix the string |
| CLib.CStrAfter | string/av_string.c:57-60 | the string a buffer holds splits at any NUL-free prefix (how `av_strlcat` appends at `dst + len`) |
| Queue.WrapIsMod | queue/queue.c:50-54 | the source's one-step pointer correction (subtract the size once) equals the position mod the buffer size |
| Queue.WindowSegments | queue/queue.c:86-98 | the queued window is one slice, or the tail of the buffer followed by its head when it wraps |
| Queue.WindowDrop | queue/queue.c:92-99 | dropping k bytes from the front of the window leaves the window that starts k further on |
| Queue.WindowAppend | queue/queue.c:65-70 | placing d after the window extends the window by exactly d |
| Queue.PlacedSegments | queue/queue.c:55-69 | a placed block is one copy, or two copies split at the buffer end |
| Queue.Memcpy | queue/queue.c:65 | `memcpy` replaces exactly the bytes at [at, at + n) with the source |
| Queue.RingBuffer.Init | queue/queue.c:133-145 | a new buffer of the given size is zeroed and empty, with the read position at the base |
| Queue.RingBuffer.DataSize | queue/queue.c:153-156 | the data size is the number of queued bytes and lies between 0 and the buffer size |
| Queue.RingBuffer.BufferSize | queue/queue.c:158-161 | the buffer size is positive |
| Queue.RingBuffer.FreeSize | queue/queue.c:163-166 | free size is buffer size minus data size, and it is 0 exactly when the buffer is full |
| Queue.RingBuffer.Write | queue/queue.c:43-77 | returns 0 and appends the bytes to the queue when they fit, else returns -1 and changes nothing; the read position never moves |
| Queue.RingBuffer.Store | queue/queue.c:45-69 | the bytes land at the write position, wrapping past the buffer end as the two `memcpy` calls place them |
| Queue.RingBuffer.Read | queue/queue.c:79-131 | returns min(size, data size) and delivers that many bytes from the front of the queue, in order, and removes them; the read position follows the source in every branch, including the over-long non-wrapping read that advances by the requested size |
| Queue.RingBuffer.CopyOut | queue/queue.c:86-97 | copies the first n queued bytes to the destination, in one or two `memcpy` calls |
| Queue.RingBuffer.ReadData | queue/queue.c:3-19 | reads min(data size, buffer size) bytes from the front of the queue and returns that count |
| Queue.RingBuffer.WriteData | queue/queue.c:21-41 | returns 0 on a full buffer, -1 when the block does not fit, otherwise queues the block and returns its length |
| Queue.RoundTrip | queue/queue.c:43-131 | bytes written into an empty buffer and read back come out unchanged |
| Queue.WrapScenario | queue/queue.c:43-131 | a write that wraps past the physical end is read back in order, and a refused write leaves no trace |
| Bcd.HexValue | byteo.c:59-69 | the fill character's digit value is below 16 |
| Bcd.Asc2BcdImage | byteo.c:71-116 | the packed image has the length of the buffer |
| Bcd.PairsOverlay | byteo.c:105-111 | bytes packed one pair at a time from position `at` form the packed pairs of the stream, with the rest of the buffer untouched |
| Bcd.ImageIs | byteo.c:71-116 | pre-filling, the `ABC_FORE` offset and the packed stream together give the specified image |
| Bcd.LowOfDoubled | byteo.c:69 | the low nibble of the doubled fill byte `ch2` is the fill digit |
| Bcd.StreamLayout | byteo.c:75-116 | the nibble stream is the character values, with one fill nibble in front (`ABC_FORE`, odd length) or behind (odd length otherwise) |
| Bcd.StreamReady | byteo.c:75-83 | the source's setup of `bcd_buf` and `ch1` matches the nibble stream |
| Bcd.PackedStep | byteo.c:108 | writing the next pair extends the packed prefix by one byte |
| Bcd.PackLoop | byteo.c:85-112 | the loop succeeds iff every character is accepted, and it packs the stream pairwise, leaving any half pair in `ch1` |
| Bcd.PackDigits | byteo.c:85-116 | after the trailing nibble, exactly the packed stream is written at `at`, and it succeeds iff every character is accepted |
| Bcd.PackStream | byteo.c:71-116 | the buffer ends up as the specified image iff every character is accepted |
| Bcd.PackFrom | byteo.c:75-116 | from a pre-filled (or untouched) buffer the conversion yields the specified image |
| Bcd.FillBuffer | byteo.c:71-73 | `memset` sets every byte to the fill byte |
| Bcd.Asc2Bcdx | byteo.c:35-122 | returns -1 iff the text is too long for the buffer, the fill character is not a hex digit, or a character is rejected; on the first two the buffer is untouched; otherwise returns the buffer length (`ABC_FILL`) or the packed length and leaves the specified image |
| Bcd.Hi | byteo.c:208 | the high nibble is below 16 |
| Bcd.Unpack | byteo.c:206-208 | unpacking gives two nibbles per byte |
| Bcd.Chars | byteo.c:209-213 | one character per nibble |
| Bcd.LeadingFill | byteo.c:170-173 | the leading run of fill bytes: all fill, followed by a non-fill byte or the end |
| Bcd.TrailingFill | byteo.c:179-181 | the trailing run of fill bytes: all fill, preceded by a non-fill byte or the start |
| Bcd.ProbeAsWritten | byteo.c:174-182 | the byte the source probes after skipping fill lies inside the buffer iff the buffer has a non-fill byte; otherwise it is `bcd_buf[bcd_len]` or `bcd_buf[-1]` |
| Bcd.Span | byteo.c:167-185 | the decoded span lies inside the nibbles of the buffer |
| Bcd.Visible | byteo.c:206-208 | the decoded nibbles are nibbles |
| Bcd.TextFromSpan | byteo.c:206-215 | the decoded text is the characters of the span's nibbles |
| Bcd.CharsOverlay | byteo.c:207-215 | characters written one at a time form the characters of the span, with the rest of the buffer untouched |
| Bcd.EmitChars | byteo.c:206-215 | the output loop writes exactly the characters of the nibbles from index `i`, leaving the rest of `asc_buf` |
| Bcd.SkipLeadingFill | byteo.c:170-173 | the `ABC_FORE` skip loop stops after the leading fill run |
| Bcd.SkipTrailingFill | byteo.c:179-181 | the back skip loop stops before the trailing fill run |
| Bcd.SpanAll | byteo.c:186-198 | without `ABC_FILL` every nibble is decoded |
| Bcd.SpanFore | byteo.c:169-177 | with `ABC_FORE` the span starts after the fill run and after a fill high nibble |
| Bcd.SpanBack | byteo.c:178-185 | otherwise the span ends before the fill run and before a fill low nibble |
| Bcd.ForeSpan | byteo.c:169-177 | the `ABC_FORE` branch computes the specified span |
| Bcd.BackSpan | byteo.c:178-185 | the back-fill branch computes the specified span |
| Bcd.FindSpan | byteo.c:166-198 | the span computation matches the specification for every flag combination |
| Bcd.Bcd2Ascx | byteo.c:137-217 | returns -1 iff the fill character is not a hex digit or the text does not fit in `asc_buf` (then nothing is written); otherwise writes exactly the decoded text and returns its length |
| BcdLaws.HiLoOfPack | byteo.c:108 | unpacking a packed pair gives the two nibbles back |
| BcdLaws.PackOfHiLo | byteo.c:208 | packing the two nibbles of a byte gives the byte back |
| BcdLaws.HiLoOfDoubled | byteo.c:69 | both nibbles of `ch2` are the fill digit |
| BcdLaws.HighMask | byteo.c:174 | comparing under mask 0xF0 compares the high nibbles |
| BcdLaws.UnpackPairs | byteo.c:206-208 | unpack inverts pair packing on nibble streams |
| BcdLaws.PairsUnpack | byteo.c:105-111 | pair packing inverts unpack |
| BcdLaws.UnpackAppend | byteo.c:206-208 | unpack distributes over concatenation |
| BcdLaws.CharOfValue | byteo.c:209-213 | decoding an accepted character's value gives the character back (upper-cased hex letters outside `ABC_NUM`) |
| BcdLaws.DigitChar | byteo.c:86-99 | digits, and with `ABC_NUM` the characters ':' to '?', decode to themselves |
| BcdLaws.LetterChar | byteo.c:94-97 | the hex letters a-f and A-F decode to the upper-case letter |
| BcdLaws.ValueOfChar | byteo.c:86-104 | the character of any nibble is accepted and encodes back to that nibble |
| BcdLaws.CharsOfNibbles | byteo.c:206-215 | decoding the values of accepted text gives its canonical form |
| BcdLaws.NibblesOfChars | byteo.c:85-104 | encoding the characters of any nibble stream gives the stream back |
| BcdLaws.CanonicalIdempotent | byteo.c:212 | canonicalising is idempotent |
| BcdLaws.LeadingFillAfterRun | byteo.c:170-173 | the leading fill of a run followed by a non-fill byte is the run's length |
| BcdLaws.TrailingFillBeforeRun | byteo.c:179-181 | the trailing fill of a non-fill byte followed by a run is the run's length |
| BcdLaws.RoundTripPlain | byteo.c:35-217 | without `ABC_FILL`, decoding the packed image gives the canonical text first, with the fill nibble in front or behind for odd lengths |
| BcdLaws.PlainRoundTrip | byteo.c:186-215 | without `ABC_FILL`, a packed stream followed by any bytes decodes to the stream spelt out first |
| BcdLaws.PlainImage | byteo.c:75-116 | without `ABC_FILL` the image is the packed stream followed by the untouched rest of the buffer |
| BcdLaws.PlainText | byteo.c:186-215 | without `ABC_FILL` every nibble of the buffer is decoded |
| BcdLaws.StreamChars | byteo.c:75-116 | the characters of the nibble stream are the canonical text with the fill character added for odd lengths |
| BcdLaws.FillForeImage | byteo.c:71-83 | with `ABC_FILL` and `ABC_FORE` the image is a fill run followed by the packed stream |
| BcdLaws.FillBackImage | byteo.c:71-116 | with `ABC_FILL` alone the image is the packed stream followed by a fill run |
| BcdLaws.FillForeSpan | byteo.c:169-177 | on such an image the fore span starts exactly after the fill run and the fill nibble |
| BcdLaws.UnpackAfter | byteo.c:206-208 | unpacking a prefix followed by pairs gives the prefix's nibbles followed by the stream |
| BcdLaws.UnpackBefore | byteo.c:206-208 | unpacking pairs followed by a suffix gives the stream followed by the suffix's nibbles |
| BcdLaws.TextOfTail | byteo.c:206-215 | a span over the tail of the nibbles decodes that tail |
| BcdLaws.FillBackSpan | byteo.c:178-185 | on a back-filled image the span ends exactly before the fill run and the fill nibble |
| BcdLaws.TextOfHead | byteo.c:206-215 | a span over the head of the nibbles decodes that head |
| BcdLaws.FillForeDecode | byteo.c:169-215 | a fore-filled image decodes to the stream without its fill nibble |
| BcdLaws.FillBackDecode | byteo.c:178-215 | a back-filled image decodes to the stream without its fill nibble |
| BcdLaws.ForeStream | byteo.c:75-83 | the fore stream is the text's nibbles with at most one fill nibble in front |
| BcdLaws.BackStream | byteo.c:113-116 | the back stream is the text's nibbles with at most one fill nibble behind |
| BcdLaws.RoundTripFillFore | byteo.c:35-217 | with `ABC_FILL` and `ABC_FORE`, decoding the image gives back the canonical text, provided its first character is not the fill digit |
| BcdLaws.ForeRoundTrip | byteo.c:169-215 | a fill run followed by the `ABC_FORE` stream of a text decodes to the canonical text, when its first digit is not the fill digit |
| BcdLaws.BackRoundTrip | byteo.c:178-215 | the back stream of a text followed by a fill run decodes to the canonical text, when its last digit is not the fill digit |
| BcdLaws.RoundTripFillBack | byteo.c:35-217 | with `ABC_FILL` alone, decoding gives back the canonical text, provided its last character is not the fill digit |
| BcdLaws.EmptyFillImage | byteo.c:71-73 | packing the empty text with `ABC_FILL` leaves a buffer of fill bytes only |
| BcdLaws.EmptyFillProbeOutside | byteo.c:170-184 | on that buffer the source's probe reads `bcd_buf[bcd_len]` (`ABC_FORE`) or `bcd_buf[-1]` |
| BcdLaws.RoundTripEmptyFill | byteo.c:35-217 | with the probe guarded, the all-fill buffer decodes to the empty text |
| ByteO.Unspaced | byteo.c:230-235 | the kept characters are no more than the input and contain no space |
| ByteO.UnspacedAppend | byteo.c:230-235 | removing spaces distributes over concatenation |
| ByteO.UnspacedKeeps | byteo.c:230-235 | a string without spaces is left unchanged |
| ByteO.UnspacedIdempotent | byteo.c:226-238 | `atrim` applied twice equals `atrim` applied once |
| ByteO.UnspacedNoNul | byteo.c:230-236 | removing spaces introduces no NUL |
| ByteO.ATrim | byteo.c:226-238 | the string becomes its non-space characters, in order, NUL-terminated in place at offset 0 (what `atrim` returns); bytes after that NUL are unchanged |
| ByteO.Compact | byteo.c:229-235 | the compaction loop writes the non-space characters at the front and nothing beyond them |
| ByteO.SpaceRun | byteo.c:249 | the leading run of spaces: all spaces, followed by a non-space or the end |
| ByteO.LTrim | byteo.c:247-251 | returns the offset of the first non-space character of the string |
| ByteO.SpaceRunUnique | byteo.c:249 | any prefix of spaces followed by a non-space or the end is the leading run |
| ByteO.KeptLength | byteo.c:263-267 | what `rtrim` keeps: at least `floor` characters, only spaces after it, and a non-space last character unless at the floor |
| ByteO.KeptLengthUnique | byteo.c:263-267 | those three properties determine the kept length |
| ByteO.KeptLengthFloors | byteo.c:278-283 | when the string is empty or starts with a non-space, the as-written and the corrected floor keep the same length |
| ByteO.KeptLengthAllSpace | byteo.c:264 | on an all-space string the as-written loop keeps one character and the corrected one keeps none |
| ByteO.RTrimAsWrittenKeepsBlank | byteo.c:264 | `rtrim("   ")` as written leaves `" "`; corrected it leaves `""` |
| ByteO.RTrimAsWritten | byteo.c:260-269 | `rtrim` as written: NULs over the trailing spaces but never the first character; nothing else changes |
| ByteO.RTrim | byteo.c:260-269 | corrected `rtrim`: the string loses exactly its trailing spaces; nothing else changes |
| ByteO.ClearTrailing | byteo.c:263-267 | the loop clears the trailing spaces above the floor and leaves every other byte |
| ByteO.RTrimmedString | byteo.c:265 | clearing the tail with NULs leaves the kept prefix as the string |
| ByteO.Trim | byteo.c:278-284 | returns the offset after the leading spaces, where the string is the input without leading and trailing spaces; the bytes before the kept text's end are unchanged, each trailing space becomes a NUL, and the bytes from the old terminator on are unchanged |
| ByteO.StrippedEnds | byteo.c:278-284 | a trimmed string neither starts nor ends with a space |
| ByteO.StrippedWithin | byteo.c:278-284 | the trimmed string is a slice of the input with only spaces around it |
| ByteO.StrippedAllSpace | byteo.c:278-284 | an all-space string trims to the empty string |
| ByteO.StrippedIdempotent | byteo.c:278-284 | `trim` applied twice equals `trim` applied once |
| ByteO.IsBreak | byteo.c:293-296 | true only for '\r' and '\n', and every such character is a space to the trimmers |
| ByteO.BreaksAreSpace | byteo.c:293-296 | the line breaks are exactly the spaces other than blank, tab, vertical tab and form feed |
| ByteO.S16Inc | byteo.c:309 | the `S16` increment stays in range and adds one below 32767 |
| ByteO.S16Counter | byteo.c:309 | the `S16` loop counter after k increments stays in range |
| ByteO.S16CounterCounts | byteo.c:309 | up to 32767 increments the counter equals the count |
| ByteO.S16CounterWraps | byteo.c:309 | the 32768th increment wraps the counter to -32768 |
| ByteO.S16CounterNeverReaches | byteo.c:306-314 | for `nbytes` above 32767 the counter is below `nbytes` after any number of steps |
| ByteO.IsDigits | byteo.c:306-314 | true iff each of the first `nbytes` characters is a decimal digit |
| ByteO.IsXDigits | byteo.c:324-332 | true iff each of the first `nbytes` characters is a hex digit |
| ByteO.XDigitsAccepted | byteo.c:324-332 | `isxdigits` accepts exactly the text `asc2bcdx` accepts without `ABC_NUM` |
| ByteO.DigitsAreXDigits | byteo.c:306-332 | a digit string passes `isxdigits` |
| ByteO.BytewiseOp | byteo.c:342-395 | the first `nbytes` of `dest` become the byte-wise result of the inputs; the rest of `dest` is unchanged |
| ByteO.Ands | byteo.c:342-348 | `dest` becomes the byte-wise and of the inputs |
| ByteO.Ors | byteo.c:358-364 | `dest` becomes the byte-wise or of the inputs |
| ByteO.Xors | byteo.c:374-380 | `dest` becomes the byte-wise xor of the inputs |
| ByteO.Nots | byteo.c:389-395 | `dest` becomes the byte-wise complement of the input |
| ByteO.XorTwice | byteo.c:374-380 | xor-ing twice with the same key restores the data |
| ByteO.NotTwice | byteo.c:389-395 | complementing twice restores the data |
| ByteO.DeMorgan | byteo.c:342-395 | over what `ands`, `ors` and `nots` compute: not of and is or of nots, and not of or is and of nots |
| ByteO.SelfOps | byteo.c:342-380 | `xors` of data with itself gives zeros, and `ands` and `ors` of data with itself give the data |
| AvString.StrStart | string/av_string.c:10-19 | succeeds iff `pfx` is a prefix of `str`, and then points just past it |
| AvString.StriStart | string/av_string.c:21-30 | succeeds iff `pfx` is a case-insensitive prefix, and then points just past it |
| AvString.PrefixNoCaseIsUpperPrefix | string/av_string.c:23 | a case-insensitive prefix is a prefix after upper-casing both strings |
| AvString.PrefixIsPrefixNoCase | string/av_string.c:12-23 | an exact prefix is a case-insensitive prefix |
| AvString.StriStr | string/av_string.c:32-43 | an empty needle matches at 0; otherwise returns the first position where the needle matches case-insensitively, or none when no position (including the end) matches |
| AvString.StriStrFindsExact | string/av_string.c:32-43 | a search result is found no later than any exact occurrence |
| AvString.StrLCpy | string/av_string.c:45-53 | returns the length of `src`; size 0 writes nothing; otherwise copies at most size - 1 characters and a NUL, and the copy is all of `src` iff the result is below size |
| AvString.CopyPrefix | string/av_string.c:47-49 | the copy loop copies min(length, size - 1) characters and touches nothing else |
| AvString.CopiedString | string/av_string.c:50-51 | after the terminating NUL the destination holds the copied prefix |
| AvString.StrLCat | string/av_string.c:55-61 | returns len(dst) + len(src); when size <= len(dst) + 1 nothing changes; otherwise appends as much as fits in size - 1, leaves every byte after the new NUL unchanged, and the result is whole iff the return is below size |
| AvString.AppendedString | string/av_string.c:60 | copying at `dst + len` yields the concatenation cut to size - 1, leaves the bytes after its NUL unchanged, and is whole iff len(dst) + len(src) < size |
| AvString.BlankRun | string/av_string.c:93 | the leading run of " \n\t" lies inside the string |
| AvString.BlankRunUnique | string/av_string.c:93 | a prefix of blanks followed by a non-blank or the end is the leading run |
| AvString.QuoteEnd | string/av_string.c:103-104 | the quoted run ends at the next quote or at the end, with no quote inside |
| AvString.QuoteEndUnique | string/av_string.c:103-104 | that end is unique |
| AvString.ScanBounds | string/av_string.c:97-112 | the scan stops at a terminator or the end, only appends to the output, and the protected end never passes the output |
| AvString.TrimBlanksShape | string/av_string.c:114-116 | the trailing trim removes only blanks above the protected end, and leaves a non-blank last character above it |
| AvString.TokenBounds | string/av_string.c:86-121 | the remaining input starts at a terminator or the end, after the leading blanks and the token |
| AvString.GetToken | string/av_string.c:86-121 | the tokenizer's loops compute the token and the new position that the functional definition gives |
| AvString.ScanLoop | string/av_string.c:97-112 | the main loop computes the functional scan |
| AvString.CopyQuoted | string/av_string.c:103-104 | the quote loop copies up to the closing quote or the end |
| AvString.ScanRun | string/av_string.c:109-111 | ordinary characters are copied as they are |
| AvString.TrimBlanksOver | string/av_string.c:114-116 | trailing blanks after the last non-blank are removed |
| AvString.LeadingBlanks | string/av_string.c:93 | the leading blank run ends at the first non-blank |
| AvString.ScanQuoted | string/av_string.c:102-108 | a closed quote copies its contents and protects them from the trailing trim |
| AvString.ScanStop | string/av_string.c:97 | the scan stops at a terminator or the end |
| AvString.ScanWord | string/av_string.c:97-112 | a plain word is copied up to the terminator |
| AvString.ScanQuotedWord | string/av_string.c:97-112 | a quoted part followed by plain text yields both, with the quoted part protected |
| AvString.ScanEscapedWord | string/av_string.c:99-101 | a backslash copies the next character literally and protects it |
| AvString.ScanTrailingBackslash | string/av_string.c:99-110 | a backslash at the end of the input is kept as an ordinary character |
| AvString.ScanUnclosedQuote | string/av_string.c:102-105 | an unclosed quote copies the rest of the input without protecting it |
| AvString.TokenWord | string/av_string.c:86-121 | leading and trailing blanks around a plain word are dropped |
| AvString.TokenQuoted | string/av_string.c:86-121 | a quoted token keeps its inner blanks, and blanks after the quote are dropped |
| AvString.TokenEscaped | string/av_string.c:86-121 | an escaped character is a token of its own, even a blank |
| AvString.TokenTrailingBackslash | string/av_string.c:86-121 | a trailing backslash stays in the token |
| AvString.TokenUnclosedQuote | string/av_string.c:86-121 | an unclosed quote gives the rest of the input without its trailing blanks |
| AvString.ExampleQuotedThenColon | string/av_string.c:147 | `"    '2'    :"` gives token `2` and stops at the colon |
| AvString.ExampleQuotedBlanksKept | string/av_string.c:152 | `"  '  foo  '  "` gives `"  foo  "` and consumes the input |
| AvString.ExampleQuotedColon | string/av_string.c:157 | a quoted colon is not a terminator |
| AvString.ExampleInnerBlanks | string/av_string.c:163 | `" foo   bar    :   blahblah"` gives `"foo   bar"` |
| AvString.ExampleTrailingBlanks | string/av_string.c:151 | `"foo     "` gives `foo` |
| AvString.ExampleEscapedBlank | string/av_string.c:158 | `"\\ :blah"` gives a single blank |
| AvString.ExampleTrailingBackslash | string/av_string.c:153 | `"foo\\"` gives `foo\` |
| AvString.ExampleLoneQuote | string/av_string.c:146 | `"'"` gives the empty token and consumes the quote |

## Left out

- `ring_buffer_init` returning -1 when `malloc` fails. The constructor
  `Queue.RingBuffer.Init` always allocates. Non-positive sizes are
  excluded by its precondition.
- `ring_buffer_free`: releasing memory has no counterpart in Dafny.
- The mutex `iolock` and the reader and writer threads of
  `queue/test.c`. The model is sequential.
- Queue sizes are `nat`. The source's negative `size` and `buf_size`
  arguments are not modelled.
- `fileo.c` is not part of this model (file I/O).
- `hexdumpx`, `strcpyx` and `sprintfx` (formatted output and
  variadic printing) are not part of this model.
- `av_strlcatf` (vsnprintf formatting) and `av_d2str` (floating point
  formatting) are not part of this model.
- `mallocz` is not part of this model.
- The NULL-pointer checks returning -1 with `errno = EBADF`, and the
  `errno` values in general: Dafny references are never null, so only
  the return values are modelled.
- The locale: `isspace`, `isdigit`, `isxdigit` and `toupper` follow the
  C locale on ASCII.
- The `ABC_FCH` variadic fill character is the parameter `fch`. It is
  used only when the flag is set (`Bcd.FillChar`).
- Bcd.Asc2Bcdx: requires `asc_len` and `bcd_len` of at most 32767.
  The loop counter `i` of `asc2bcdx` is an `S16` compared with the
  `U16 asc_len` (byteo.c:85), so for longer texts it wraps and the loop
  does not stop at `asc_len` (see Findings). The source also returns
  `bcd_len` and counts `conv_len` in an `S16`, so larger buffers would
  need a signed 16-bit wrap that the model does not state.
- Bcd.Asc2Bcdx: when a character is rejected part-way, the source has
  already written some packed bytes. The model says the result is -1
  but does not say what the buffer then holds.
- Bcd.Bcd2Ascx: requires `bcd_len` of at most 16383. `conv_len = bcd_len << 1`
  is an `S16` and would wrap for larger buffers.
- Bcd.Bcd2Ascx: guards the post-skip probe for an all-fill buffer (see
  Findings).
- AvString.GetToken: `term` is a set of terminator characters, as
  `strspn(p, term)` uses it. The result is a sequence, not a
  malloc'd copy, and the allocation failure that returns NULL is not
  modelled.
- AvString.StrLCpy: `dst` and `src` do not alias. The source string
  is a value, so overlapping copies are not modelled.
- ByteO.Ands, ByteO.Ors, ByteO.Xors: the model allows `dest` to be
  `b1` or `b2` itself. Partial overlap, where `dest` starts inside an
  input, cannot arise between Dafny arrays and is not modelled.
- ByteO.IsDigits, ByteO.IsXDigits, ByteO.Ands, ByteO.Ors,
  ByteO.Xors, ByteO.Nots: the corrected loops count without the `S16`
  wrap (see Findings).
- Types: the operands of RND8, MUL_M, DIV_M, REM_M, REM_Y and ARR2_POS
  are non-negative. The macros on negative `int` values are not
  modelled: DIV_M's right shift of a negative value is
  implementation-defined, and REM_Y's `&` acts on the two's-complement
  pattern.
- The `size_t` and `int` arithmetic of `av_string.c` and `queue.c` is
  unbounded. No input in the modelled ranges overflows.

## Findings

| source | as written | input that shows it | evidently intended | confidence | as-written member | corrected member |
|---|---|---|---|---|---|---|
| byteo.c:306-395 | `isdigits`, `isxdigits`, `ands`, `ors`, `xors` and `nots` count with `S16 i` up to a `U16 nbytes`. The counter wraps from 32767 to -32768 and never reaches `nbytes` | `nbytes = 40000`: the loop runs past 32767 entries, reading (and for `ands` to `nots`, writing) beyond the buffers | visit exactly the first `nbytes` bytes for every `U16` length | not executed | ByteO.S16CounterNeverReaches (with ByteO.S16CounterWraps) | ByteO.IsDigits, ByteO.IsXDigits, ByteO.Ands, ByteO.Ors, ByteO.Xors, ByteO.Nots |
| byteo.c:85 | `asc2bcdx` counts with `S16 i` up to a `U16 asc_len`. The counter wraps from 32767 to -32768 and never reaches `asc_len` | `asc_len = 40000` with `bcd_len = 20000`: the size check `(bcd_len << 1) < asc_len` passes, and the loop reads past `asc_buf` and writes past `bcd_buf` until a rejected character stops it | convert exactly the first `asc_len` characters for every `U16` length | not executed | ByteO.S16CounterNeverReaches (with ByteO.S16CounterWraps) | Bcd.Asc2Bcdx (counts without the wrap, for `asc_len` up to 32767) |
| byteo.c:170-184 | with `ABC_FILL`, after skipping every fill byte, `bcd2ascx` still probes `*bcd_buf` (`ABC_FORE`) or `*(bcd_buf + (conv_len >> 1) - 1)`. Both lie outside the buffer when every byte is fill | the buffer `asc2bcdx` produces from the empty text with `ABC_FILL`: the probe reads `bcd_buf[bcd_len]` or `bcd_buf[-1]` | an all-fill buffer decodes to the empty text | not executed | BcdLaws.EmptyFillProbeOutside (with Bcd.ProbeAsWritten) | Bcd.Bcd2Ascx, with BcdLaws.RoundTripEmptyFill |
| byteo.c:260-269 | `rtrim` stops at `p > str`, so the first character is never cleared | `"   "` becomes `" "` | an all-space string trims to `""` | not executed | ByteO.RTrimAsWritten, with ByteO.RTrimAsWrittenKeepsBlank | ByteO.RTrim (used by ByteO.Trim; ByteO.KeptLengthFloors shows `trim` is unaffected) |
