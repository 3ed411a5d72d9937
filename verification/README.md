# Verified models of the RTU firmware components

A Dafny 4.11 model of the parts of the `decomoen_rtu` firmware that carry real invariants, with
proofs of what those parts promise.  `dafny verify dfyconfig.toml` checks the whole project.

| component | files | in short |
|---|---|---|
| Lua heap | `LuaHeapModel`, `LuaHeapLaws`, `LuaHeapTheorems`, `LuaHeap`, `LuaHeapInit`, `LuaHeapOutcomes` | a boundary-tag allocator: an abstract chain of blocks, its laws over every run, when each call succeeds, and the class that works on the bytes of the heap and is proved equal to it |
| cJSON | `JsonText`, `JsonRoundTrip`, `JsonParser`, `JsonEscapes`, `JsonLiterals`, `JsonNumbers`, `JsonGrammar`, `JsonErrors`, `JsonCapacity`, `JsonBounds`, `JsonPrinters`, `JsonLayout`, `JsonMeasured`, `JsonMinify`, `JsonFilter`, `Bits` | one definition of the printed text and of parsing; parser, both printers and the in-place minifier proved against it; the texts the parser takes, what it takes them for and where it gives others up, as a grammar; round trips |
| DES | `Des`, `DesCipher` | the bit tricks against the tables of FIPS PUB 46-3; deciphering for any S-box contents; the buffer functions in place |
| Hashes | `Blocks`, `Md5`, `Md5Transform`, `Sha1`, `Sha1Transform`, `HashPadding` | streaming against the padding of RFC 1321 and FIPS 180-4 for every split; equality of the two MD5 implementations; the SHA-1 rounds, on sixteen words in a circle, against the schedule of the standard |
| HJ/T 212 | `Hjt212`, `Hjt212Checks`, `Hjt212Fields` | encoder, byte-at-a-time receiver and field parser; which payloads get through, what is refused, and that all fields get through |
| Queues | `BlockMsgQueue`, `Bfifo` | rings refined to sequences; the condition-variable protocol over all interleavings; counters that wrap |
| Zigbee registry | `ZigbeeModel`, `ZigbeeReports`, `ZigbeeRegistry` | doubly linked lists proved against sequences; timed expiry and the addresses reported, over every run |
| Checksums | `CrcTables`, `Crc`, `Modbus` | table CRCs against their bitwise definitions; residues; the frame checks of the Modbus gateway |

State that the C code changes in place is a class over arrays, fields and linked nodes.  Each of
its methods is proved equal to a function on values, and the properties are lemmas about those
functions and about runs of them.  C integer widths are explicit: 32-bit sums are taken mod 2^32,
bit operations are on vectors or, where a sum is what they compute, on numbers with the equality
proved (`Bits.OrLow`).

Findings of the models, each with its exact condition or a concrete run:

- The links of the Lua heap have 24 bits, and initialisation accepts any size.  From 2^24 - 8 bytes
  on the end marker is written elsewhere, in the worst case over block 0, and the first allocation
  may never return (`LuaHeapInit.InitSound`, `LuaHeapInit.FirstComesBack`, `LuaHeapInit.EndOverStart`).
- On a heap of less than eight bytes lua_malloc never returns from a request it does not refuse
  (`LuaHeapTheorems.WalkEnds`).
- A request within four bytes of 2^32 is granted a block that does not hold it, by malloc and by
  realloc, which may cut the block to nothing (`LuaHeapTheorems.GrantHolds`,
  `LuaHeapTheorems.ReallocHolds`, `LuaHeapTheorems.WrappedRealloc`).
- The heap loses track of its lowest free block after a shrinking realloc
  (`LuaHeapTheorems.RunLowest`, `LuaHeapTheorems.MallocsStayAbove`), and a second initialisation keeps
  the usage count (`LuaHeapTheorems.InitKeeps`).
- `parse_string` can write behind its allocation exactly when an escape takes its second loop past the
  closing quote (`JsonCapacity.LiteralFits`), and reads past the text only at an escape that the text
  ends in (`JsonBounds.NeverOverruns`).
- lua_realloc to a smaller size can fail: a block up to sixteen bytes longer than asked is not cut, and
  another is looked for (`LuaHeapOutcomes.ReallocFails`, `LuaHeapOutcomes.SmallerRefused`).
- The JSON parser takes more than RFC 8259: a sign alone, a zero in front of digits, an exponent without
  digits, a literal that the text ends in, any byte up to the space as a blank (`JsonGrammar.ParsesExactly`).
- The HJ/T 212 receiver never recovers from a wrong first byte (`Hjt212.DeafExactly`).
- The HJ/T 212 receiver takes a frame whose two `#` are apart, losing what stands between them, and
  behind 2048 bytes without an end any two bytes for a head (`Hjt212Checks.HeadApart`,
  `Hjt212Checks.Headless`).
- `b_mq_recv` waits once and does not test again, so two receivers, a spurious wake-up or a reset break
  the queue (`BlockMsgQueue.RunInOrder`).
- `bfifo` reorders bytes when its counters wrap unless its size divides 2^32 (`Bfifo.WrapKeepsOrder`).
- The check of an ASCII frame of 2^16 bytes or more does not reach its check byte
  (`Modbus.AsciiAccepted`).

## Model

| member | source | states |
|---|---|---|
| `LuaHeapTheorems.RunKeeps` | soft/decomoen_rtu/board/lua/lua_mem.c:84-389 | after any run, from a first initialisation whose end fits the 24-bit links, of calls that come back, with live pointers: the chain tiles the heap, no two free neighbours, `used_mem` is the sum of the used spans, `lfree` is free or `heap_end` |
| `LuaHeapTheorems.RunLowest` | soft/decomoen_rtu/board/lua/lua_mem.c:129-389 | `lfree` is the lowest free block all through such a run exactly if every shrinking realloc of the run cuts a block above `lfree` or right below it |
| `LuaHeapTheorems.WalkEnds` | soft/decomoen_rtu/board/lua/lua_mem.c:129-164 | on any sound heap whose offsets fit the 24-bit links, lua_malloc comes back exactly if the request is zero, or above the heap's size once aligned, or the size looked for is at most the heap's; otherwise the bound of its walk wraps and the walk goes on for ever |
| `LuaHeapInit.SoundComesBack` | soft/decomoen_rtu/board/lua/lua_mem.c:129-164 | the same of the walk over the links in memory, with its 32-bit differences: on a sound chain it ends for exactly the calls the model answers |
| `LuaHeapInit.InitSound` | soft/decomoen_rtu/board/lua/lua_mem.c:84-126 | initialisation leaves a sound heap of one free block exactly if the offset of `heap_end` fits a 24-bit link and nothing was in use; otherwise memory is no chain of blocks up to `heap_end` |
| `LuaHeapInit.FirstComesBack` | soft/decomoen_rtu/board/lua/lua_mem.c:84-164 | for every size that initialisation accepts, up to 2^32, and every request: the first lua_malloc comes back exactly if it answers before its walk, or what it looks for fits the heap and either fits block 0 as its truncated link bounds it or the truncated end lies at the bound of the walk |
| `LuaHeapInit.EndOverStart` | soft/decomoen_rtu/board/lua/lua_mem.c:84-164 | on a heap of 2^24 - 8 bytes the end marker is written over block 0, and the first request for eight bytes never returns |
| `LuaHeapTheorems.WalkFinds` | soft/decomoen_rtu/board/lua/lua_mem.c:158-164 | on such a heap, where the walk over the links with its 32-bit bound first stops, the block it stands on is the one taken, or the call is refused at the bound |
| `LuaHeapTheorems.MallocKeeps` | soft/decomoen_rtu/board/lua/lua_mem.c:129-232 | a grant adds exactly one aligned block of at least the size asked to those in callers' hands; a refusal changes nothing |
| `LuaHeapTheorems.MallocTakesLowestFit` | soft/decomoen_rtu/board/lua/lua_mem.c:158-232 | with `lfree` lowest, malloc takes the lowest fitting block and refuses exactly when none fits below the strict bound of the walk |
| `LuaHeapTheorems.NeedCovers` | soft/decomoen_rtu/board/lua/lua_mem.c:145-156 | the size looked for covers the request exactly if rounding up does not wrap 32 bits; if it does, it is eight bytes |
| `LuaHeapTheorems.GrantHolds` | soft/decomoen_rtu/board/lua/lua_mem.c:145-232 | on any sound heap the block malloc grants holds the bytes asked for exactly if the request is at most 2^32 - 4 |
| `LuaHeapTheorems.FreshHeapGrants` | soft/decomoen_rtu/board/lua/lua_mem.c:158-164 | of the calls that come back, a fresh heap whose end fits a link grants exactly those of a non-zero request whose rounded size is below the heap's, never at it |
| `LuaHeapTheorems.FreeKeeps` | soft/decomoen_rtu/board/lua/lua_mem.c:337-389 | freeing takes exactly one block from the callers and keeps the invariant and the count |
| `LuaHeapTheorems.FreeUndoesMalloc` | soft/decomoen_rtu/board/lua/lua_mem.c:129-389 | free after malloc restores the whole heap but the high-water mark |
| `LuaHeapTheorems.ReallocKeeps` | soft/decomoen_rtu/board/lua/lua_mem.c:236-317 | on a live block realloc always comes back, and trades the block for one of at least the aligned size, or changes nothing; which of the two is `LuaHeapOutcomes.ReallocOutcome` |
| `LuaHeapTheorems.ReallocHolds` | soft/decomoen_rtu/board/lua/lua_mem.c:236-317 | the block realloc hands back holds the bytes asked for exactly if the request is at most 2^32 - 4 |
| `LuaHeapOutcomes.ReallocOutcome` | soft/decomoen_rtu/board/lua/lua_mem.c:236-317 | on any sound heap, of a live block: refused above the heap's size; kept when its length is exactly right; cut to the aligned size when it is more than sixteen bytes too long; in every other case granted exactly when lua_malloc of the aligned size is, with the old block then freed |
| `LuaHeapOutcomes.ReallocFails` | soft/decomoen_rtu/board/lua/lua_mem.c:236-317 | with `lfree` lowest, null comes back exactly above the heap's size, or when the block is neither right nor cut and either nothing is asked for or every block that fits begins at the strict bound of the walk |
| `LuaHeapOutcomes.SmallerRefused` | soft/decomoen_rtu/board/lua/lua_mem.c:281-317 | a heap on which a block of 24 bytes cannot be made one of 8 |
| `LuaHeapOutcomes.GrantSize` | soft/decomoen_rtu/board/lua/lua_mem.c:160-212 | a granted block is as long as what was looked for, or as the hole when the rest could hold no block: never sixteen bytes longer |
| `LuaHeapOutcomes.RunHighWater` | soft/decomoen_rtu/board/lua/lua_mem.c:84-389 | after any run from a first initialisation `max_mem` is the most that was ever in use, both blocks counted while realloc copies |
| `LuaHeapOutcomes.CallPeak` | soft/decomoen_rtu/board/lua/lua_mem.c:129-389 | a call raises the high-water mark exactly to what was in use at its peak |
| `LuaHeapTheorems.WrappedRealloc` | soft/decomoen_rtu/board/lua/lua_mem.c:247-305 | a heap on which a request for 2^32 - 1 bytes cuts a block of 40 bytes down to none and hands it back |
| `LuaHeapTheorems.LiveInside` | soft/decomoen_rtu/board/lua/lua_mem.c:350-356 | a live pointer lies below `heap_end`, so free never takes it for foreign |
| `LuaHeapTheorems.FreeLowest` | soft/decomoen_rtu/board/lua/lua_mem.c:337-389 | free keeps `lfree` the lowest free block |
| `LuaHeapTheorems.MallocLowest` | soft/decomoen_rtu/board/lua/lua_mem.c:129-232 | malloc keeps `lfree` the lowest free block |
| `LuaHeapTheorems.ShrinkLowest` | soft/decomoen_rtu/board/lua/lua_mem.c:281-305 | the split of realloc keeps `lfree` lowest exactly if it lay below the block or was the block right behind it |
| `LuaHeapTheorems.ShrunkMemoryHidden` | soft/decomoen_rtu/board/lua/lua_mem.c:281-305 | a heap on which 24 bytes cut off by realloc are refused to a request for 24, and granted once the block next to them is freed |
| `LuaHeapTheorems.MallocsStayAbove` | soft/decomoen_rtu/board/lua/lua_mem.c:158-232 | no run of malloc alone, however long, grants a block below the `lfree` it starts with: free memory below it stays hidden until a free or a realloc |
| `LuaHeapTheorems.InitKeeps` | soft/decomoen_rtu/board/lua/lua_mem.c:84-126 | the value of a fresh heap meets the invariant exactly if `used_mem`, which is not cleared, was zero and the end fits a 24-bit link |
| `LuaHeapTheorems.OwnedApart` | soft/decomoen_rtu/board/lua/lua_mem.c:129-389 | blocks in callers' hands are disjoint and inside the heap |
| `LuaHeapBytes.LuaHeap.constructor` | soft/decomoen_rtu/board/lua/lua_mem.c:84-126 | for every accepted region: the two headers written, the link of the first truncated to 24 bits and the second where it leads; one free block if the end fits |
| `LuaHeapBytes.LuaHeap.PlugHolesBytes` | soft/decomoen_rtu/board/lua/lua_mem.c:51-82 | relinking in the bytes merges as the model says and touches no live payload |
| `LuaHeapBytes.LuaHeap.LuaMalloc` | soft/decomoen_rtu/board/lua/lua_mem.c:129-232 | on bytes, for calls that come back: the model's malloc, every live payload unchanged, and no byte at all on a refusal |
| `LuaHeapBytes.LuaHeap.LuaFree` | soft/decomoen_rtu/board/lua/lua_mem.c:337-389 | on bytes: the model's free, every other live payload unchanged |
| `LuaHeapBytes.LuaHeap.LuaRealloc` | soft/decomoen_rtu/board/lua/lua_mem.c:236-317 | on bytes: the model's realloc, whose success `LuaHeapOutcomes.ReallocOutcome` and `LuaHeapOutcomes.ReallocFails` give exactly; the first min(old, new) bytes move along, other payloads stay, and a failure leaves everything as it was |
| `JsonRoundTrip.PrintThenParse` | soft/decomoen_rtu/drivers/cjson/cJSON.c:195-661 | parsing the printed text of any integer tree gives the tree back, formatted or not, to the end of the text |
| `JsonRoundTrip.ValueRead` | soft/decomoen_rtu/drivers/cjson/cJSON.c:360-661 | the same inside a larger text: parsing stops exactly behind the value, whatever delimiter follows |
| `JsonRoundTrip.StringRead` | soft/decomoen_rtu/drivers/cjson/cJSON.c:195-310 | a printed string reads back byte by byte, and the space scanned for it holds its bytes |
| `JsonRoundTrip.NumberRead` | soft/decomoen_rtu/drivers/cjson/cJSON.c:99-118 | a printed 32-bit integer reads back, up to the first byte that could continue it |
| `JsonParser.ParseWithOpts` | soft/decomoen_rtu/drivers/cjson/cJSON.c:326-340 | the pointer walk of the parser finds what the parse functions say: value, end, or the error position |
| `JsonParser.ParseValueAt` | soft/decomoen_rtu/drivers/cjson/cJSON.c:360-372 | one value from any position |
| `JsonParser.ParseStringAt` | soft/decomoen_rtu/drivers/cjson/cJSON.c:195-252 | the two loops of parse_string: the bytes and the position behind them; for which texts and which bytes is `JsonLiterals.LiteralFound` and `JsonEscapes.CodePointRead` |
| `JsonEscapes.CodePointRead` | soft/decomoen_rtu/drivers/cjson/cJSON.c:180-245 | the \u escape of every code point but 0, one unit or a surrogate pair, in digits of either case and whatever follows, is read as the one byte sequence of RFC 3629 that decodes to it |
| `JsonEscapes.Utf8Decodes` | soft/decomoen_rtu/drivers/cjson/cJSON.c:231-239 | the bytes written for a code point have the lead and continuation bytes of RFC 3629 and decode to it |
| `JsonEscapes.Utf8Only` | soft/decomoen_rtu/drivers/cjson/cJSON.c:231-239 | no other sequence that RFC 3629 allows decodes to it |
| `JsonEscapes.UnitRead` | soft/decomoen_rtu/drivers/cjson/cJSON.c:180-191 | parse_hex4 gives a number above 0 exactly if its four hexadecimal digits stand there |
| `JsonEscapes.UnpairedRead` | soft/decomoen_rtu/drivers/cjson/cJSON.c:218-229 | an escape with other characters, of 0, or of half a surrogate pair alone stands for nothing |
| `JsonEscapes.ShortRead` | soft/decomoen_rtu/drivers/cjson/cJSON.c:211-217 | a backslash and one of b, f, n, r, t stand for the control character of RFC 8259, a backslash and any other byte but u for that byte |
| `JsonLiterals.LiteralRead` | soft/decomoen_rtu/drivers/cjson/cJSON.c:195-252 | every literal of the grammar of pieces, closed or ended by the text, is taken up to its end with the value of its pieces |
| `JsonLiterals.LiteralFound` | soft/decomoen_rtu/drivers/cjson/cJSON.c:195-252 | and whatever parse_string takes is such a literal |
| `JsonLiterals.TameFits` | soft/decomoen_rtu/drivers/cjson/cJSON.c:199-201 | the measuring loop finds the end of every literal whose units hold no quote and no backslash |
| `JsonCapacity.LiteralFits` | soft/decomoen_rtu/drivers/cjson/cJSON.c:195-252 | for a literal up to the quote that ends the measuring loop: what the reading loop writes fits the allocation, whatever follows, exactly if no escape takes the reading loop past that quote |
| `JsonCapacity.OpenLiteralFits` | soft/decomoen_rtu/drivers/cjson/cJSON.c:195-252 | a literal the text ends before closing always fits |
| `JsonCapacity.ReadWithin` | soft/decomoen_rtu/drivers/cjson/cJSON.c:195-252 | as long as the reading loop ends no later than the measuring loop, it writes no more than was measured, even where the two step over different bytes |
| `JsonCapacity.QuoteSteppedOver` | soft/decomoen_rtu/drivers/cjson/cJSON.c:201-220 | a text whose malformed escape swallows the quote: two bytes written for one measured |
| `JsonBounds.NeverOverruns` | soft/decomoen_rtu/drivers/cjson/cJSON.c:195-661 | a text in which no backslash begins an escape that the text ends in is never read past its terminator |
| `JsonBounds.CutOffOverruns` | soft/decomoen_rtu/drivers/cjson/cJSON.c:195-252 | behind an opening quote, with plain bytes behind the escape, the text is overrun exactly if the escape is cut off |
| `JsonBounds.LastEleven` | soft/decomoen_rtu/drivers/cjson/cJSON.c:195-661 | a text without a backslash in its last eleven bytes is never read past its terminator |
| `JsonParser.ParseNumberAt` | soft/decomoen_rtu/drivers/cjson/cJSON.c:99-118 | the pointer walk over sign, digits, fraction and exponent finds the exact decimal that `JsonNumbers.NumeralRead` gives |
| `JsonNumbers.NumeralRead` | soft/decomoen_rtu/drivers/cjson/cJSON.c:99-118 | a sign, n digits, a point with k digits and an exponent e of either sign, each where it may be missing, are read as the number of the joined digits with exponent e - k, up to the first byte that cannot continue them |
| `JsonNumbers.NumeralFound` | soft/decomoen_rtu/drivers/cjson/cJSON.c:99-118 | and whatever parse_number reads is such a numeral |
| `JsonParser.ParseItemsAt` | soft/decomoen_rtu/drivers/cjson/cJSON.c:409-434 | the loop of parse_array; the texts it takes are those of `JsonGrammar.ParsesExactly`, the positions it fails at those of `JsonErrors.FailsExactly` |
| `JsonParser.ParseMembersAt` | soft/decomoen_rtu/drivers/cjson/cJSON.c:517-550 | the loop of parse_object, likewise |
| `JsonGrammar.ParsesExactly` | soft/decomoen_rtu/drivers/cjson/cJSON.c:99-551 | parse_value takes a text with a value and a rest exactly if a concrete syntax tree has that text and that value and can stand in front of that rest |
| `JsonGrammar.DocumentExactly` | soft/decomoen_rtu/drivers/cjson/cJSON.c:323-340 | cJSON_ParseWithOpts takes a text exactly if it is blanks, a value and, when the whole text is asked for, blanks |
| `JsonGrammar.SkipFound` | soft/decomoen_rtu/drivers/cjson/cJSON.c:323-323 | skip drops the longest run of bytes up to the space |
| `JsonErrors.FailsExactly` | soft/decomoen_rtu/drivers/cjson/cJSON.c:360-551 | parse_value fails with `ep` at a position exactly if the text is stuck there: no value begins, or behind elements or members that were read the grammar's next byte is missing |
| `JsonErrors.DocumentFailsExactly` | soft/decomoen_rtu/drivers/cjson/cJSON.c:326-340 | the same for a document, with the end of the text asked for or not |
| `JsonPrinters.PrintBuffered` | soft/decomoen_rtu/drivers/cjson/cJSON.c:348-356 | for every tree and every positive starting size the growing buffer ends up holding the printed text as a C string |
| `JsonPrinters.PrintBuffer.PrintValue` | soft/decomoen_rtu/drivers/cjson/cJSON.c:375-393 | one value at the offset, with what was there kept |
| `JsonPrinters.PrintBuffer.PrintArray` | soft/decomoen_rtu/drivers/cjson/cJSON.c:455-471 | the buffered half of print_array |
| `JsonPrinters.PrintBuffer.PrintObject` | soft/decomoen_rtu/drivers/cjson/cJSON.c:573-611 | the buffered half of print_object |
| `JsonPrinters.PrintBuffer.PrintString` | soft/decomoen_rtu/drivers/cjson/cJSON.c:255-310 | a string literal at the offset |
| `JsonPrinters.PrintBuffer.Ensure` | soft/decomoen_rtu/drivers/cjson/cJSON.c:124-139 | always gives the room asked for and keeps the bytes |
| `JsonPrinters.PrintBuffer.Pow2gtIsLeast` | soft/decomoen_rtu/drivers/cjson/cJSON.c:120-120 | pow2gt is a power of two at or above its argument, and less than twice as large |
| `JsonPrinters.PrintBuffer.Update` | soft/decomoen_rtu/drivers/cjson/cJSON.c:141-147 | moves the offset to the terminator |
| `JsonPrinters.MeasureString` | soft/decomoen_rtu/drivers/cjson/cJSON.c:259-281 | the length measured is the length of the escaped text |
| `JsonPrinters.PrintCString` | soft/decomoen_rtu/drivers/cjson/cJSON.c:375-661 | printed text holds no NUL |
| `JsonLayout.FormattedIsLaid` | soft/decomoen_rtu/drivers/cjson/cJSON.c:375-661 | the formatted print of every tree is its unformatted print laid out in one pass that only keeps the brackets it is in; an empty object closes one tab further left |
| `JsonEscapes.EscapeSpells` | soft/decomoen_rtu/drivers/cjson/cJSON.c:255-309 | what is printed for each byte of a string: quote and backslash behind a backslash, five control characters by letter, the others by four digits that spell them, the rest as they are |
| `JsonMeasured.PrintMeasured` | soft/decomoen_rtu/drivers/cjson/cJSON.c:345-346 | the measured printer gives the same text as the buffered one |
| `JsonMeasured.PrintArray` | soft/decomoen_rtu/drivers/cjson/cJSON.c:472-514 | every write is inside the allocation sized from the parts |
| `JsonMeasured.PrintObject` | soft/decomoen_rtu/drivers/cjson/cJSON.c:612-661 | every write is inside the allocation sized from the parts |
| `JsonMeasured.ItemsFit` | soft/decomoen_rtu/drivers/cjson/cJSON.c:480-488 | the lengths added up for an array cover entries and commas |
| `JsonMeasured.MembersFit` | soft/decomoen_rtu/drivers/cjson/cJSON.c:622-631 | the lengths added up for an object cover names, values, indentation and separators |
| `JsonMinify.MinifyPrinted` | soft/decomoen_rtu/drivers/cjson/cJSON.c:741-756 | minifying the print of a tree, formatted or not, gives its unformatted print |
| `JsonMinify.MinifyInPlace` | soft/decomoen_rtu/drivers/cjson/cJSON.c:741-756 | the two pointers in one buffer compute the minified text of every text that ends outside of string literals and multi-line comments |
| `JsonMinify.MinifyIffClosed` | soft/decomoen_rtu/drivers/cjson/cJSON.c:741-756 | the code stays inside the text for exactly those texts, told by a one-byte scan; `/*/` is a whole comment |
| `JsonFilter.MinifyFilters` | soft/decomoen_rtu/drivers/cjson/cJSON.c:741-756 | the minified text of every closed text is what a filter leaves of it that decides each byte from the mode of its position and the byte behind it |
| `JsonMinify.CopyLiteral` | soft/decomoen_rtu/drivers/cjson/cJSON.c:752-752 | a string literal is copied with its quotes and escapes untouched |
| `Bits.SmearAllFills` | soft/decomoen_rtu/drivers/cjson/cJSON.c:120-120 | below 2^32 the shifts and ors of pow2gt fill every bit under the highest |
| `DesCipher.CryptAllUndoes` | soft/decomoen_rtu/reg/rtu_des.c:319-385 | decryption undoes encryption of whole blocks, for every key schedule and every content of the S-boxes |
| `DesCipher.ThereAndBack` | soft/decomoen_rtu/reg/rtu_des.c:355-385 | the same through the two functions, in place |
| `DesCipher.CryptUndoes` | soft/decomoen_rtu/reg/rtu_des.c:319-341 | the rounds under the reversed subkeys run backwards |
| `DesCipher.CryptIsFips` | soft/decomoen_rtu/reg/rtu_des.c:203-341 | the word tricks compute the cipher of the permutation tables of FIPS PUB 46-3 |
| `DesCipher.ScheduleIsFips` | soft/decomoen_rtu/reg/rtu_des.c:242-305 | every round gets the bits that permuted choices 1 and 2 select for it |
| `DesCipher.FIsFips` | soft/decomoen_rtu/reg/rtu_des.c:227-240 | the eight lookups of a round are indexed by the expansion E xored with the subkey |
| `Des.FpInvertsIp` | soft/decomoen_rtu/reg/rtu_des.c:203-225 | DES_FP and DES_IP are inverse |
| `Des.IpIsTable` | soft/decomoen_rtu/reg/rtu_des.c:203-212 | DES_IP is the table IP, with both halves turned left by one |
| `Des.FpIsTable` | soft/decomoen_rtu/reg/rtu_des.c:215-224 | DES_FP is the table of the inverse of IP on such halves |
| `Des.KeyHalvesIsPc1` | soft/decomoen_rtu/reg/rtu_des.c:247-265 | the lookups in LHs and RHs are permuted choice 1 |
| `Des.KeysArePc2` | soft/decomoen_rtu/reg/rtu_des.c:281-303 | the two words of a round are permuted choice 2 |
| `Des.FullCircle` | soft/decomoen_rtu/reg/rtu_des.c:268-279 | the sixteen turns bring both key halves back |
| `DesCipher.MainKs` | soft/decomoen_rtu/reg/rtu_des.c:242-305 | the loop fills the array with the key schedule |
| `DesCipher.Context.constructor` | soft/decomoen_rtu/reg/rtu_des.c:307-317 | esk is the schedule of the key and dsk its pairs reversed |
| `DesCipher.CryptBlock` | soft/decomoen_rtu/reg/rtu_des.c:319-341 | eight bytes of the output are the cipher of eight bytes of the input, the rest stays |
| `DesCipher.Encrypt` | soft/decomoen_rtu/reg/rtu_des.c:355-369 | every started block is enciphered, also when output is input, and the rest of the output stays |
| `DesCipher.Decrypt` | soft/decomoen_rtu/reg/rtu_des.c:371-385 | the same under the reversed keys |
| `Md5.Sum` | soft/decomoen_rtu/sdccp/cc_md5.c:81-156 | for every message and every split into calls, the result is the fold of the transform over the message padded as in RFC 1321 |
| `Md5.Context.Update` | soft/decomoen_rtu/sdccp/cc_md5.c:81-113 | keeps the 64-bit bit counter, the folded blocks and the bytes of the last block |
| `Md5.Context.Final` | soft/decomoen_rtu/sdccp/cc_md5.c:119-156 | the digest of everything fed in |
| `Md5.CounterAdds` | soft/decomoen_rtu/sdccp/cc_md5.c:89-94 | the carry and shifts add a length to the bit counter mod 2^64 |
| `Md5.Padded` | soft/decomoen_rtu/sdccp/cc_md5.c:126-144 | padding fills whole blocks of 64 bytes |
| `HashPadding.Md5Pads` | soft/decomoen_rtu/sdccp/cc_md5.c:119-144 | a padded message is the message, the byte 0x80, the fewest zeros, and eight bytes that read low byte first are its length in bits mod 2^64 |
| `HashPadding.Md5PadsApart` | soft/decomoen_rtu/sdccp/cc_md5.c:119-144 | different messages of less than 2^61 bytes are padded differently |
| `HashPadding.WordsRead` | soft/decomoen_rtu/sdccp/cc_md5.c:103-108 | the words of a block are its bytes by four, low byte first |
| `HashPadding.Md5DigestRead` | soft/decomoen_rtu/sdccp/cc_md5.c:146-155 | the digest, read low byte first, is the four chaining words |
| `Md5Transform.DigestsAgree` | soft/decomoen_rtu/reg/rtu_md5.c:31-307 | rtu_MD5 and CC_MD5 give the same digest of every message, whatever the S-boxes and checksums are |
| `Md5Transform.EncsAreConstant` | soft/decomoen_rtu/reg/rtu_md5.c:155-206 | all four detours through DES end in the additive constant |
| `Md5Transform.DetourIsConstant` | soft/decomoen_rtu/reg/rtu_md5.c:155-206 | rtu_des_encrypt on eight bytes leaves nothing over, so the checksum branch is never taken |
| `Md5Transform.OpIsRfc` | soft/decomoen_rtu/sdccp/cc_md5.c:171-250 | each of the 64 steps takes the message word and the shift of RFC 1321, section 3.4 |
| `Md5Transform.FBits` | soft/decomoen_rtu/sdccp/cc_md5.c:20-20 | F takes y where x is set and z elsewhere |
| `Md5Transform.GBits` | soft/decomoen_rtu/sdccp/cc_md5.c:21-21 | G takes x where z is set and y elsewhere |
| `Md5Transform.HBits` | soft/decomoen_rtu/sdccp/cc_md5.c:22-22 | H is the parity of its arguments |
| `Md5Transform.IBits` | soft/decomoen_rtu/sdccp/cc_md5.c:23-23 | I differs from y exactly where x is set or z is not |
| `Md5Transform.TurnedByOne` | soft/decomoen_rtu/sdccp/cc_md5.c:26-26 | turning left by n is turning by one bit n times, the highest bit going to the lowest place |
| `Sha1.Sum` | soft/decomoen_rtu/reg/rtu_sha.c:161-251 | for every message of fewer than 2^32 blocks and every split into calls, the result is the fold of the transform over the padding of section 5.1.1 of FIPS 180-4 |
| `Sha1Transform.TransformIsFips` | soft/decomoen_rtu/reg/rtu_sha.c:23-155 | the eighty macro calls on five variables in changing roles, over sixteen words overwritten in a circle, compute what section 6.1.2 of FIPS 180-4 computes with a schedule of eighty words, but for the four constants |
| `Sha1Transform.CallsAreSteps` | soft/decomoen_rtu/reg/rtu_sha.c:55-147 | after n calls the variables hold the working variables of the standard in their roles, and the circle the last sixteen words of the schedule |
| `Sha1Transform.DigestIsFips` | soft/decomoen_rtu/reg/rtu_sha.c:23-251 | so the digest of every message is that of the standard but for the constants |
| `HashPadding.Sha1Pads` | soft/decomoen_rtu/reg/rtu_sha.c:204-238 | a padded message is the message, the byte 0x80, the fewest zeros, and eight bytes that read high byte first are its length in bits |
| `HashPadding.Sha1DigestRead` | soft/decomoen_rtu/reg/rtu_sha.c:241-250 | the digest, read high byte first, is the five chaining words |
| `Sha1.Context.Write` | soft/decomoen_rtu/reg/rtu_sha.c:161-187 | no byte is dropped, and the buffer is never full between calls |
| `Sha1.Context.Final` | soft/decomoen_rtu/reg/rtu_sha.c:197-251 | the buffer begins with the digest of everything fed in |
| `Sha1.BitCount` | soft/decomoen_rtu/reg/rtu_sha.c:204-217 | the two words computed from blocks and count are the length in bits |
| `Sha1.Context.Pad` | soft/decomoen_rtu/reg/rtu_sha.c:219-231 | one or two blocks of padding |
| `Hjt212.DeliveredExactly` | soft/decomoen_rtu/sdccp/hjt212.c:99-161 | a clean receiver hands over an encoded frame and is clean again for exactly the payloads of 6 to 2035 bytes without CR LF from index 10 on |
| `Hjt212.StreamDelivered` | soft/decomoen_rtu/sdccp/hjt212.c:99-161 | frames back to back are handed over in order, each once |
| `Hjt212.Receive` | soft/decomoen_rtu/sdccp/hjt212.c:99-161 | the same however the stream is cut into calls |
| `Hjt212.FrameDelivered` | soft/decomoen_rtu/sdccp/hjt212.c:99-161 | what the parser gets of a frame: its payload, and the text that runs on into the buffer |
| `Hjt212.DeafExactly` | soft/decomoen_rtu/sdccp/hjt212.c:99-161 | from any state, the receiver hands nothing over whatever bytes come exactly if it waits for a head behind a first byte that is not `#` |
| `Hjt212.BadFirstByte` | soft/decomoen_rtu/sdccp/hjt212.c:111-118 | a clean receiver is deaf for ever from a first byte on exactly if that byte is not `#` |
| `Hjt212.Receiver.PutBytes` | soft/decomoen_rtu/sdccp/hjt212.c:99-161 | the byte loop on the receive buffer, position and state; what it hands over and what it refuses is `Hjt212Checks.CheckedExactly` and `Hjt212Checks.HandedStands` |
| `Hjt212Checks.CheckedExactly` | soft/decomoen_rtu/sdccp/hjt212.c:99-161 | from a clean receiver, a frame with any four characters in place of the check is handed over exactly if they are the four hexadecimal digits of the CRC of its payload, and otherwise nothing is; for every payload that is carried |
| `Hjt212Checks.HandedStands` | soft/decomoen_rtu/sdccp/hjt212.c:99-161 | from any clean receiver and any bytes: whatever is handed over stands in the bytes received, behind its length and in front of its own check and CR LF |
| `Hjt212Checks.StepTracks` | soft/decomoen_rtu/sdccp/hjt212.c:99-161 | for every state and byte: the buffer behind its first byte holds the last bytes received, up to its position, so what is handed over stands in front of its own check |
| `Hjt212Checks.HeadApart` | soft/decomoen_rtu/sdccp/hjt212.c:107-125 | bytes between the two `#` of a head are lost and the frame is taken all the same |
| `Hjt212Checks.Headless` | soft/decomoen_rtu/sdccp/hjt212.c:107-130 | behind 2048 bytes without an end the next frame is taken with any two bytes for its head |
| `Hjt212Checks.LosesItsHead` | soft/decomoen_rtu/sdccp/hjt212.c:107-130 | a stream after which that happens to a frame |
| `Hjt212Checks.LengthIsDecimal` | soft/decomoen_rtu/sdccp/hjt212.c:130-138 | the four characters of a length are its decimal digits, the highest first |
| `Hjt212Checks.KnownValue` | soft/decomoen_rtu/sdccp/hjt212.c:37-71 | the CRC of the bytes 31 32 33 |
| `Hjt212.GetCrc16` | soft/decomoen_rtu/sdccp/hjt212.c:37-71 | the nested loops compute the CRC variant that drops the low byte |
| `Hjt212Fields.EncodedIsUnderstood` | soft/decomoen_rtu/sdccp/hjt212.c:99-512 | from encoder through receiver to parser: every field is found again, cut to its length, whatever stale bytes the buffer holds |
| `Hjt212Fields.FieldsRecovered` | soft/decomoen_rtu/sdccp/hjt212.c:182-241 | the parser undoes the encoder for any subset of the arguments, even if CP contains tag names |
| `Hjt212Fields.FieldOf` | soft/decomoen_rtu/sdccp/hjt212.c:199-232 | a tag is found in its own part or behind all parts |
| `Hjt212Fields.Encode` | soft/decomoen_rtu/sdccp/hjt212.c:404-512 | the index loops write the frame of the payload |
| `Hjt212Fields.PayloadLayout` | soft/decomoen_rtu/sdccp/hjt212.c:404-489 | the layout of a payload with all its fields, tag by tag in their order, for all values that fit their places |
| `Hjt212Fields.PutLength` | soft/decomoen_rtu/sdccp/hjt212.c:494-498 | the digits of the length, last first |
| `Hjt212Fields.CheckText` | soft/decomoen_rtu/sdccp/hjt212.c:500-505 | the CRC as four upper-case digits |
| `BlockMsgQueue.Fifo` | soft/decomoen_rtu/block_msg_queue.c:68-160 | in every interleaving of senders with one receiver, with wake-ups only from a signal and no reset: delivered followed by held is accepted, in send order; a send is refused exactly at capacity |
| `BlockMsgQueue.RunKeeps` | soft/decomoen_rtu/block_msg_queue.c:90-160 | the invariant of such runs, with a message there for every woken receiver |
| `BlockMsgQueue.RunInOrder` | soft/decomoen_rtu/block_msg_queue.c:57-160 | in every run of any senders and receivers, with spurious wake-ups and resets: messages are in order in every state exactly if every woken receiver finds a message and every reset finds the queue empty |
| `BlockMsgQueue.StepInOrder` | soft/decomoen_rtu/block_msg_queue.c:57-160 | of all steps exactly those keep the order |
| `BlockMsgQueue.WakeIsFifo` | soft/decomoen_rtu/block_msg_queue.c:122-153 | the take behind a wait delivers in order exactly if the queue still holds a message |
| `BlockMsgQueue.TwoReceivers` | soft/decomoen_rtu/block_msg_queue.c:122-153 | a run with two receivers that delivers a message never sent |
| `BlockMsgQueue.SpuriousWakeUp` | soft/decomoen_rtu/block_msg_queue.c:122-153 | a run with a spurious wake-up that delivers a stale slot |
| `BlockMsgQueue.ResetInBetween` | soft/decomoen_rtu/block_msg_queue.c:57-66 | a run with a reset after which a receiver takes from an empty queue, which then claims to hold a message |
| `BlockMsgQueue.DropFromEmpty` | soft/decomoen_rtu/block_msg_queue.c:149-151 | a take from an empty ring leaves it claiming to be full |
| `BlockMsgQueue.FullIffCapacity` | soft/decomoen_rtu/block_msg_queue.c:96-97 | the test of send is true exactly of a ring at capacity |
| `BlockMsgQueue.StoreAppends` | soft/decomoen_rtu/block_msg_queue.c:99-102 | storing at tail appends |
| `BlockMsgQueue.DropTakesOldest` | soft/decomoen_rtu/block_msg_queue.c:149-151 | taking at head removes the oldest |
| `BlockMsgQueue.Queue.constructor` | soft/decomoen_rtu/block_msg_queue.c:15-38 | an empty queue of the capacity asked for |
| `BlockMsgQueue.Queue.Send` | soft/decomoen_rtu/block_msg_queue.c:90-113 | appends a slot that begins with the message and is zero behind it, or says why not and changes nothing |
| `BlockMsgQueue.Queue.Recv` | soft/decomoen_rtu/block_msg_queue.c:115-160 | removes the oldest message, or says why not and changes nothing |
| `BlockMsgQueue.Serve` | soft/decomoen_rtu/block_msg_queue.c:90-160 | over any calls of send and recv on a new queue that do not wait, what is received is byte for byte what a plain list of messages gives: the first bytes of the messages accepted, in order, and zeros behind a shorter one |
| `BlockMsgQueue.PaddedCarries` | soft/decomoen_rtu/block_msg_queue.c:99-102 | the slot stored for a message begins with it and is zero behind it |
| `BlockMsgQueue.Queue.Msgs` | soft/decomoen_rtu/block_msg_queue.c:68-77 | the number of messages held |
| `BlockMsgQueue.Queue.Remain` | soft/decomoen_rtu/block_msg_queue.c:79-88 | messages and remaining room make up the capacity |
| `Bfifo.Fifo.Push` | soft/decomoen_rtu/sdccp/bfifo.c:165-199 | the step on fields and buffer for every state; as long as the counters keep places, as many bytes as fit are appended in order |
| `Bfifo.Fifo.Pull` | soft/decomoen_rtu/sdccp/bfifo.c:219-253 | the step for every state; as long as the counters keep places the oldest bytes come out, and pulled followed by held is always pushed |
| `Bfifo.Fifo.Peek` | soft/decomoen_rtu/sdccp/bfifo.c:255-277 | what a pull would hand out, nothing changed |
| `Bfifo.Fifo.Count` | soft/decomoen_rtu/sdccp/bfifo.c:279-287 | the difference of the 32-bit counters is the number of bytes held, never above size |
| `Bfifo.PlacesIffDivides` | soft/decomoen_rtu/sdccp/bfifo.c:179-185 | a 32-bit counter mod size is the byte number mod size for every byte exactly if size divides 2^32 |
| `Bfifo.WrapKeepsOrder` | soft/decomoen_rtu/sdccp/bfifo.c:165-253 | on rings of a size of at least two: after a push to any ring in order, two pulls hand out the bytes held and taken in order, whatever they are, exactly if the size divides 2^32 |
| `Bfifo.PushOrdered` | soft/decomoen_rtu/sdccp/bfifo.c:165-199 | a push keeps every held byte and every new one in its place while the counters keep places |
| `Bfifo.PullOrdered` | soft/decomoen_rtu/sdccp/bfifo.c:219-253 | a pull hands out the oldest bytes held while the counters keep places |
| `Bfifo.PushedInPlace` | soft/decomoen_rtu/sdccp/bfifo.c:182-190 | the two copies put new bytes in their places and disturb none that is held |
| `Bfifo.CountIs` | soft/decomoen_rtu/sdccp/bfifo.c:237-237 | the counters subtract to the number held, also across a wrap |
| `ZigbeeModel.HeardNodesStay` | soft/decomoen_rtu/board/zgb_std.c:266-362 | in every run with a clock that never goes back: unique addresses, one child entry per type, and a node heard of less than eleven learn steps ago is in the registry |
| `ZigbeeModel.RemovedAtEleven` | soft/decomoen_rtu/board/zgb_std.c:331-362 | eleven learn steps is the exact bound |
| `ZigbeeModel.RunKeeps` | soft/decomoen_rtu/board/zgb_std.c:266-362 | the invariant of such runs |
| `ZigbeeModel.CheckTimely` | soft/decomoen_rtu/board/zgb_std.c:340-357 | a node dropped was last heard of eleven learn steps ago or more |
| `ZigbeeModel.InsertKeeps` | soft/decomoen_rtu/board/zgb_std.c:266-316 | inserting keeps addresses unique and child types single |
| `ZigbeeModel.InsertKidKeeps` | soft/decomoen_rtu/board/zgb_std.c:111-147 | replacing a child entry keeps one per type |
| `ZigbeeReports.InsertCarries` | soft/decomoen_rtu/board/zgb_std.c:266-316 | after a report its node, the only one changed, carries what was reported, is online, lists exactly the addresses reported for a Modbus type and what it listed before for every other |
| `ZigbeeReports.InsertKidLists` | soft/decomoen_rtu/board/zgb_std.c:111-147 | of a child list, for each type and address |
| `ZigbeeReports.ReportsListed` | soft/decomoen_rtu/board/zgb_std.c:111-362 | in every run: a node heard of less than eleven learn steps ago lists for a Modbus type exactly the addresses of its last report of that type |
| `ZigbeeReports.ReportedAddressFound` | soft/decomoen_rtu/board/zgb_std.c:195-362 | so the look-up by address finds a node for every address reported last less than eleven learn steps ago |
| `ZigbeeReports.OnlineExactly` | soft/decomoen_rtu/board/zgb_std.c:331-362 | right after a check in any run, a node counts as online exactly if it was heard of less than four learn steps ago |
| `ZigbeeModel.RemoveKeeps` | soft/decomoen_rtu/board/zgb_std.c:226-249 | removal keeps the registry well formed |
| `ZigbeeReports.RemoveDrops` | soft/decomoen_rtu/board/zgb_std.c:226-249 | removal takes the node with the address away and no other |
| `ZigbeeModel.CheckKeeps` | soft/decomoen_rtu/board/zgb_std.c:331-362 | the check keeps the registry well formed |
| `ZigbeeRegistry.Play` | soft/decomoen_rtu/board/zgb_std.c:28-362 | a linked registry driven through any run is well linked and shows the nodes of the model, so every node heard of less than eleven learn steps ago is in its lists, and every address it reported last is found |
| `ZigbeeRegistry.Registry.Insert` | soft/decomoen_rtu/board/zgb_std.c:266-316 | the linked lists after an insert are well linked and show the model's insert, whose addresses, work mode and times `ZigbeeReports.InsertCarries` gives |
| `ZigbeeRegistry.Registry.RmWithId` | soft/decomoen_rtu/board/zgb_std.c:226-249 | the same for removal |
| `ZigbeeRegistry.Registry.CheckOnline` | soft/decomoen_rtu/board/zgb_std.c:331-362 | the same for the loop that removes while it walks |
| `ZigbeeRegistry.Registry.Unlink` | soft/decomoen_rtu/board/zgb_std.c:234-240 | relinking around a node leaves the list without it, linked both ways |
| `ZigbeeRegistry.Registry.FindWithNetid` | soft/decomoen_rtu/board/zgb_std.c:178-193 | the first node with the address, or none |
| `ZigbeeRegistry.Registry.FindWithAddr` | soft/decomoen_rtu/board/zgb_std.c:195-210 | the first node that lists the address for the type, or none |
| `ZigbeeRegistry.Registry.Num` | soft/decomoen_rtu/board/zgb_std.c:318-329 | the number of nodes |
| `ZigbeeRegistry.MNode.FindWithType` | soft/decomoen_rtu/board/zgb_std.c:37-50 | the first child entry of a type, or none |
| `ZigbeeRegistry.MNode.FindWithAddr` | soft/decomoen_rtu/board/zgb_std.c:53-70 | finds something exactly if an entry of the type lists the address |
| `ZigbeeRegistry.MNode.RmOne` | soft/decomoen_rtu/board/zgb_std.c:73-94 | the child list without the first entry of the type |
| `ZigbeeRegistry.MNode.InsertSNode` | soft/decomoen_rtu/board/zgb_std.c:111-147 | the child list with the entry replaced, at the end; which addresses it lists then is `ZigbeeReports.InsertKidLists` |
| `Crc.DasCrc16` | soft/decomoen_rtu/das_util.c:282-293 | the two table registers compute the bitwise CRC of section 6.2.2 of MODBUS over Serial Line V1.02 on every buffer |
| `Crc.Residue` | soft/decomoen_rtu/das_util.c:282-293 | the CRC of a frame is zero exactly if its last two bytes are the CRC of the rest, low byte first |
| `Crc.StandardExample` | soft/decomoen_rtu/das_util.c:282-293 | the example of section 6.2.2 of MODBUS over Serial Line V1.02: the frame 02 07 has the CRC 0x1241 |
| `Crc.TableStep` | soft/decomoen_rtu/das_util.c:287-291 | one table step is eight shifts of the bitwise register |
| `CrcTables.TablesAreShifts` | soft/decomoen_rtu/das_util.c:232-280 | the two tables of 256 bytes hold the two bytes of eight shifts |
| `Crc.UlRTCrc32` | soft/decomoen_rtu/board/rtcrc32.c:60-71 | the table loop computes the reflected CRC-32 register |
| `Crc.CheckValue` | soft/decomoen_rtu/board/rtcrc32.c:60-71 | the check value of CRC-32: that of the digits 1 to 9 is 0xCBF43926 |
| `CrcTables.Table32IsShifts` | soft/decomoen_rtu/board/rtcrc32.c:6-58 | the table of 256 words holds eight shifts of its index |
| `Crc.Chunks` | soft/decomoen_rtu/board/rtcrc32.c:60-71 | two calls on consecutive parts give what one call gives |
| `Crc.InParts` | soft/decomoen_rtu/board/rtcrc32.c:60-71 | the same for any number of parts |
| `Modbus.Accept` | soft/decomoen_rtu/board/xfer_net.c:59-86 | an RTU frame passes exactly if it ends in its CRC, an ASCII frame exactly if the bytes within its length mod 2^16 sum to zero; the address found |
| `Modbus.AsciiAccepted` | soft/decomoen_rtu/board/xfer_net.c:27-86 | an encoded ASCII frame passes exactly if its check byte is that of the payload, for exactly the frames shorter than 2^16: of longer ones the 16-bit length leaves the check byte out; the address is the first byte |
| `Modbus.UcMBAsciiLrc` | soft/decomoen_rtu/board/xfer_net.c:27-46 | the loop over pairs of characters is the two's complement of the sum of the decoded bytes |
| `Modbus.DecodeEncode` | soft/decomoen_rtu/board/xfer_net.c:25-42 | upper-case hexadecimal decodes back |
| `Modbus.NibbleReads` | soft/decomoen_rtu/board/xfer_net.c:25-25 | a character stands for a number above 0 exactly if it is its decimal or upper-case hexadecimal digit |
| `Modbus.OctetReads` | soft/decomoen_rtu/board/xfer_net.c:34-40 | of two characters the first is the high half of the byte |
| `Modbus.DecodeAt` | soft/decomoen_rtu/board/xfer_net.c:33-41 | the bytes decoded are those of the pairs of characters, in order |
| `Modbus.SumJoins` | soft/decomoen_rtu/board/xfer_net.c:33-44 | the sum of two parts is the sum of their sums, so every byte counts once |

## Left out

- LuaHeapBytes.LuaHeap: the error branch of initialisation is the precondition of the constructor.  Calls on a heap whose end does not fit its links have no model beyond when the first allocation returns.
- LuaHeapBytes.LuaHeap.LuaMalloc: calls whose walk never ends have no result; `LuaHeapTheorems.WalkEnds` says which they are.
- `lua_calloc`, `lua_memory_info` and the semaphore around the heap.
- JsonText.Print: numbers are integers of 32 bits; `%e`, `%f` and other doubles are not printed.  Parsing computes the exact decimal value; its rounding to a double is not modelled.
- JsonPrinters.PrintBuffered: the printed text, with the 21 bytes of room that printing a number asks for, is at most 2^30 bytes, the largest size pow2gt can round up to in an int; allocation succeeds; a starting size of zero.
- JsonMeasured.PrintMeasured: lengths are unbounded, an int overflow of the measured length is not modelled.
- JsonParser.ParseStringAt: gives the text that parse_string writes; when that fits the allocation is `JsonCapacity.LiteralFits`.  A read past the terminator ends in the outcome `Overran`, without what was written until then.
- JsonParser.ParseNumberAt: the exact decimal value; rounding to a double and an int overflow of the exponent are not modelled.
- JsonParser.ParseWithOpts: as its parts, numbers are exact decimals and writes past the allocation of a string are not part of the text it finds.
- JsonMinify.MinifyInPlace: texts that end inside a string literal or a multi-line comment, where the code runs past the terminator.
- JsonMinify.CopyLiteral: a string literal that is not closed, for the same reason.
- cJSON nodes are values, not linked nodes; the functions that edit trees are left out.
- DesCipher.CryptIsFips: the S-boxes with the permutation P folded into them are a parameter, and their contents are not compared with the standard; nor are the additive constants of MD5.
- Sha1Transform.DigestIsFips: the initial words and the four additive constants are those of the source, which are not those of FIPS 180-4.
- Md5Transform.DigestsAgree: the streaming code of rtu_md5.c is the same text as that of cc_md5.c and is modelled once; rtu_crc32 and rtu_ncrc32 are parameters.
- Hjt212.Receiver.PutBytes: one index of the static arrays; the CRC that the code computes over a length field beyond the buffer is not modelled, since a frame with such a length is refused anyway; nor is the NUL that the second Hex2Str writes one byte behind `usCheck` at every end-of-message.
- Hjt212Fields.FieldsRecovered: stops before the password comparison and the command dispatch; strings are C strings without NUL, `char` is unsigned.
- BlockMsgQueue.Queue.Send: negative sizes, which pass the test of the size and reach memcpy.
- BlockMsgQueue.Queue.Recv: negative sizes likewise; the class gives the calls that do not wait; waiting is in the protocol, where a time-out is a step that may happen at any time.  Null handles, deletion and the clock are left out.
- Bfifo.Fifo.constructor: a size of zero, which initialisation accepts and every later call divides by.
- Bfifo.Fifo.Push: how a wait ended is an argument; locks, `bfifo_reset` and the descriptor table are left out, and `bfifo_peek` keeping its lock on the empty path is not modelled.
- ZigbeeRegistry.Registry.RmWithId: a removed node is unlinked; that its memory is freed is not modelled.  `zgb_mnode_rm_all` and the JSON output are left out.
- ZigbeeModel.HeardNodesStay: the clock does not go back or pass 2^32 seconds, and ten learn steps fit 32 bits.
- Modbus.Accept: forwarding of an accepted frame, which is input and output; negative lengths.
- Sockets, serial ports, threads, SQLite storage, CGI handlers, Lua bindings and AES.
