# xStl: codecs, buffers and parsers, modelled and proved

This project models the stateful core of the xStl C++ library in Dafny and proves what that code
promises. Classes keep the fields of the originals and their methods keep the branches; each
method is proved against a function of its state, and the properties are proved about those
functions.

| file | what it models |
|---|---|
| `Bits.dfy`, `MemoryStream.dfy`, `BitStream.dfy` | numbers as bits, `cMemoryStream` with `pipeRead` and `pipeWrite`, `cBitStream` |
| `Common.dfy` | results, pieces and the 32-bit bound, shared by several files |
| `LzwCodes.dfy`, `LzwProofs.dfy`, `LzwRoundTrip.dfy` | the LZW compressor and decompressor as machines on codes, and what they promise |
| `LzwParse.dfy`, `LzwEnding.dfy` | the code stream as a cut of the input into phrases, and what the padding of its last byte does |
| `LzwStream.dfy`, `LzwRun.dfy` | `cLZWcompression` over the bit stream, and whole runs of it at two to eight bits |
| `LzwOneBit.dfy`, `LzwCount.dfy`, `LzwPuzzle.dfy`, `LzwSurvivor.dfy`, `LzwOneBitRun.dfy` | one-bit symbols |
| `Rle.dfy` | `cRLEcompression` |
| `QueueFifo.dfy` | `cQueueFifo` |
| `RefCount.dfy` | the reference-count macros, as interleaved locked steps |
| `Braces.dfy` | `Braces` |
| `Strings.dfy` | `cString::find`, `part`, `left`, `right`, `replace`, `split` |
| `Numbers.dfy` | `BasicVariable::makeString` and `Parser::readVariable` |
| `CacheStream.dfy` | `cCacheStream` |
| `Fragments.dfy` | `cFragmentsDescriptor` down to typed addresses and byte orders |
| `SetArray.dfy` | `cSetArray` |

`dafny verify dfyconfig.toml` checks all of it.

## What the code does not do

Some promises of the library turn out to hold only in part. For each there is a lemma that says when.

- **LZW, several writes.** The header presents `write` as one step of a stream, but every write after
  the first leaves out its last symbol, because the loop count is the same while the first symbol is
  read only once per stream (`lzw.cpp:197-211`). `LzwRuns.ByteRoundTrip` says what comes back, and
  `LzwRuns.TransparentIff` that the data survives exactly when at most one write carries any.
- **LZW, one-bit symbols.** The header allows symbols of one to eight bits. At one bit the first code
  width is used up from the start: the compressor widens after its first code, the decompressor never
  does and reads pairs of bits (`LzwOneBits.DecodesTokens`). `LzwOneBitRuns.OneBitRoundTrip` gives the
  exact condition: of all data only the single byte 0x1A comes back; a zero byte, for one, comes back
  as nothing. Three bytes and more cannot survive because distinct phrases get long faster than codes
  get wide (`LzwCounts.PhrasesCover`, `LzwSurvivors.Candidates`); what is left is a puzzle of ten codes.
- **LZW, two to six bits.** A rest of the buffer shorter than a symbol is dropped. The padding of the
  last byte can hold one more code, at two bits a short one behind a clear code, and the decompressor
  reads it. The padding is not zeros, as `bitStream.h` says, but the bits of the byte before it
  (`BitStreams.BitStream.Flush`), so the code is settled by the data. `LzwRuns.AnySizeRoundTrip` says
  when the data survives: exactly when that code adds no symbols or too few to complete a byte (or,
  when symbols do not cut the data evenly, just those that were cut off). It throws exactly when that
  code is past the next free one. `LzwRuns.TwiceExample` is a byte that comes back twice,
  `LzwRuns.ThrowsExample` one that throws.
- **LZW, short requests.** `pipeWrite` never returns on a full buffer, so `read` spins when the output
  is longer than the request, which an extra code can make it (`LzwStreams.LzwStream.Read`).
- **Reference counts.** `operator=` ignores the result of `free`, so overwriting the last handle of an
  object leaks the object, though never its counter (`RefCounts.DeletedExactly`, `RefCounts.LeakExample`).
- **Split.** Joining the parts gives back the string exactly when the divider's matches behind the
  first character do not overlap (`Strings.CString.Split`), and for all strings exactly when the divider
  does not overlap itself (`Strings.SafeDividers`). A divider at the very start is never found: the first
  part always runs to the first match behind the first character.
- **Fragments.** Written with one fixed address type, a list is cut to that type and then answers the
  same for every address exactly when it does so at its edges (`Fragments.SameAnswersIff`).
- **Cache.** `flush` forgets bytes that were read ahead; it changes nothing for the reader exactly when
  there are none (`Caches.CacheStream.Flush`).

## Model

| member | source | states |
|---|---|---|
| MemoryStreams.MemoryStream.Write | Source/xStl/stream/memoryStream.cpp:117-138 | overwrites behind the position and extends the store only if it may grow; a full fixed store takes a part |
| MemoryStreams.MemoryStream.PipeRead | Source/xStl/stream/basicIO.cpp:68-95 | in pieces of at most 4096 bytes, returns the next bytes in order and fewer than asked for only at the end |
| MemoryStreams.MemoryStream.PipeWrite | Source/xStl/stream/basicIO.cpp:508-523 | all bytes arrive in order |
| Bits.BytesBitsAt | Source/xStl/stream/bitStream.cpp:130-177 | bit i of a byte string is bit i modulo 8 of byte i / 8, counted from the lowest |
| BitStreams.BitStream.Write | Source/xStl/stream/bitStream.cpp:130-154 | the bits sent so far grow by the given ones, across byte boundaries |
| BitStreams.BitStream.ReadBits | Source/xStl/stream/bitStream.cpp:156-198 | returns the number spelled by the next bits, or throws exactly when too few are left and has then used them up |
| BitStreams.BitStream.WriteBits | Source/xStl/stream/bitStream.cpp:200-216 | sends the low bits of the number, lowest first |
| BitStreams.BitStream.Flush | Source/xStl/stream/bitStream.cpp:83-92 | all bits sent reach the store, padded to whole bytes with the bits the partial byte held before, which are those of the byte sent last |
| BitStreams.PackAndUnpack | Source/xStl/stream/bitStream.cpp:83-216 | any list of (value, width up to 32) fields written and flushed takes ceil(total bits / 8) bytes and reads back each value modulo 2^width |
| LzwProofs.EncodeOk | Source/xStl/stream/lzw.cpp:231-250 | in every reachable table each prefix is a literal or an earlier entry and each value a symbol, entries are distinct, 2^(width-1) < codes in use <= 2^width, and every code sent is below 2^width, so that no bit is dropped |
| LzwProofs.ExpandInjective | Source/xStl/stream/lzw.cpp:218-250 | codes of a reachable table stand for pairwise distinct strings |
| LzwProofs.Parse | Source/xStl/stream/lzw.cpp:203-251 | at every turn the strings of the codes sent, followed by that of the pending prefix, are the input consumed |
| LzwProofs.GreedyRun | Source/xStl/stream/lzw.cpp:218-246 | each code sent inside the loop stands for the longest string of the table that starts the rest of the input |
| LzwCodes.DecodeCode | Source/xStl/stream/lzw.cpp:345-452 | on any code the decompressor keeps a well-founded table, so that string expansion and prefix walks end, or rejects the code, or walks in a circle; a first code past the literals builds on the prefix left from before; output only grows |
| LzwProofs.Lag | Source/xStl/stream/lzw.cpp:231-250 | fed the codes sent so far at the compressor's widths, the decompressor holds the compressor's table without its last entry, waits at the same width, and has written all but the pending prefix |
| LzwProofs.FollowPrefix | Source/xStl/stream/lzw.cpp:393-452 | the next code completes the compressor's last entry and width; a code outside the table can only be that of the entry about to be added |
| LzwRoundTrip.FollowFinish | Source/xStl/stream/lzw.cpp:255-264 | after the flushed stream the decompressor has written exactly the input and holds the compressor's table |
| LzwRoundTrip.SymbolRoundTrip | Source/xStl/stream/lzw.cpp:184-459 | the flushed bits of any symbol sequence decode to it and then to whatever follows; fewer bits than a code end the stream |
| LzwRoundTrip.LeadingClear | Source/xStl/stream/lzw.cpp:169-177 | a leading clear code changes nothing |
| LzwRoundTrip.WidthsAgree | Source/xStl/stream/lzw.cpp:240-241 | the two width tests keep step on a whole stream if and only if symbols have at least two bits or there is a single code |
| LzwParses.ParsesInPhrases | Source/xStl/stream/lzw.cpp:203-251 | the codes cut the input into phrases: each is a symbol or the number of an earlier phrase and means that phrase with the symbol behind it, and no code is followed by the same symbol twice |
| LzwParses.PhrasesDiffer | Source/xStl/stream/lzw.cpp:218-246 | no two phrases are alike together with the symbols behind them |
| LzwParses.WidthsLeast | Source/xStl/stream/lzw.cpp:231-250 | each code goes out with the least width that holds every code in use at that time |
| LzwEndings.PaddingEnds | Source/xStl/stream/lzw.cpp:345-452 | what a decompressor that has caught up makes of padding of any contents: nothing, more symbols, an exception, or a walk in a circle |
| LzwEndings.StreamDecodes | Source/xStl/stream/lzw.cpp:345-452 | at two to eight bits the flushed stream of any whole bytes, with or without clear code, decodes to its symbols and then ends as the bits of its last whole byte say |
| LzwStreams.LzwStream.Write | Source/xStl/stream/lzw.cpp:184-253 | runs the compressor over all digits of the buffer on the first write and over all but the last on later ones, and sends exactly the bits of its codes |
| LzwStreams.LzwStream.Flush | Source/xStl/stream/lzw.cpp:255-264 | sends the pending prefix and pads the last byte with older bits |
| LzwStreams.LzwStream.InitNewStream | Source/xStl/stream/lzw.cpp:169-177 | sends the clear code and starts over with an empty table |
| LzwStreams.LzwStream.Append | Source/xStl/stream/lzw.cpp:436-451 | appends the prefix with the literal at the bottom of the code's prefix chain, also when the walk starts at the new entry |
| LzwStreams.LzwStream.Read | Source/xStl/stream/lzw.cpp:306-459 | for a request of any length: returns the whole bytes of what the decompressor makes of the bits and sets end-of-file, throws exactly on a rejected code, and never returns exactly when the output outgrows the request or a walk goes in a circle |
| LzwRuns.RoundTrip | Source/xStl/stream/lzw.cpp:184-459 | at two to eight bits, for any run of writes and any request: the whole bytes of all symbols taken and of those the padding adds, an exception, or no return |
| LzwRuns.ByteRoundTrip | Source/xStl/stream/lzw.cpp:184-459 | for bytes, any run of writes, a flush and a request of at least that length to a fresh decompressor return the first write whole and every later one without its last byte, and reach the end of the stream |
| LzwRuns.TransparentIff | Source/xStl/stream/lzw.cpp:197-211 | that is all the data if and only if at most one write is not empty |
| LzwRuns.QuietIff | Source/xStl/stream/lzw.cpp:197-211 | at any symbol size, when the padding adds nothing, several writes come back as all the data if and only if at most one is not empty and symbols cut it evenly |
| LzwRuns.AnySizeRoundTrip | Source/xStl/stream/lzw.cpp:184-459 | at two to eight bits a single write comes back if and only if the padding adds no symbols or exactly completes the data, and throws if and only if the padding spells a code that is rejected |
| LzwRuns.WidePaddingQuiet | Source/xStl/stream/bitStream.cpp:83-92 | at seven or eight bits the padding never adds anything |
| LzwRuns.TwiceExample | Source/xStl/stream/lzw.cpp:364-452 | at four bits the padding behind the byte 0x28 spells the code of both its symbols |
| LzwRuns.ThrowsExample | Source/xStl/stream/lzw.cpp:384-397 | at two bits the padding behind the byte 0x2A spells a code past the next free one |
| LzwOneBits.DecodesTokens | Source/xStl/stream/lzw.cpp:345-452 | at one bit the decompressor reads pairs of bits, whatever the codes were, and never throws |
| LzwCounts.PhrasesCover | Source/xStl/stream/lzw.cpp:203-251 | one-bit phrases cover at least as much as that many shortest distinct words |
| LzwSurvivors.OnlySurvivor | Source/xStl/stream/lzw.cpp:240-241 | at one bit a stream whose pairs spell its own symbols, eight to a byte, is that of the byte 0x1A |
| LzwSurvivors.Survives | Source/xStl/stream/lzw.cpp:345-452 | and that stream does |
| LzwOneBitRuns.OneBitRoundTrip | Source/xStl/stream/lzw.cpp:184-459 | at one bit a single write of any data, with or without clear code, comes back if and only if it is the byte 0x1A; a zero byte comes back as nothing |
| Rle.RunCodeDecodes | Source/xStl/stream/rle.cpp:105-167 | for every flag and run the code decodes to the run, never takes its length byte for the flag, and is at most twice as long |
| Rle.DecodeAppend | Source/xStl/stream/rle.cpp:214-286 | items decode one after the other |
| Rle.RleStream.Write | Source/xStl/stream/rle.cpp:169-207 | what the encoded bytes and the pending run stand for grows by the buffer; the encoded bytes stay whole items, at most twice their meaning; a run goes out exactly when it reaches 255 bytes or another byte comes |
| Rle.RleStream.Flush | Source/xStl/stream/rle.cpp:92-103 | sends the pending run; the encoded bytes alone stand for everything written |
| Rle.Compress | Source/xStl/stream/rle.cpp:105-207 | however data is cut into writes and flushes, its code takes at most five bytes for each change of neighbours, each 255 bytes and each flush, and never more than twice the data |
| Rle.PackRun | Source/xStl/stream/rle.cpp:105-167 | the very bytes of a run of up to 255 equal bytes: flag, count and byte from three on, the count one less and the byte once more where it would look like the flag, and single bytes below three |
| Rle.RleStream.Read | Source/xStl/stream/rle.cpp:214-286 | returns the next decoded bytes, fewer only at the end, and throws exactly when the data ends inside an escape before the request is met |
| Rle.RleStream.IsEOS | Source/xStl/stream/rle.cpp:330-333 | true exactly when nothing is left to read and the last escape was complete |
| Rle.RoundTrip | Source/xStl/stream/rle.cpp:105-333 | for all flags, and however data is cut into writes, flushes and reads, each read gets its piece and the stream is over exactly when all has been read |
| Queues.QueueFifo.FreeSpace | Source/xStl/data/queueFifo.cpp:55-85 | the capacity less the bytes held, in every pointer constellation |
| Queues.QueueFifo.Write | Source/xStl/data/queueFifo.cpp:110-142 | appends the first min(count, free) bytes, also with a pointer at the end of the ring |
| Queues.QueueFifo.Read | Source/xStl/data/queueFifo.cpp:145-177 | removes the first min(count, held) bytes |
| Queues.Run | Source/xStl/data/queueFifo.cpp:110-177 | every run behaves as a plain bounded queue |
| Queues.FifoRun | Source/xStl/data/queueFifo.cpp:110-177 | over every run, bytes given out followed by bytes held are the bytes let in, within the capacity |
| RefCounts.StepSafe | Include/xStl/refCountObject.h:110-185 | every locked step of any thread keeps each live counter equal to the number of attached handles, each attached handle on a live counter, and the source of each open assignment attached |
| RefCounts.StepEffect | Include/xStl/refCountObject.h:110-185 | what each step does to handles, holders and counts, and that nothing else changes: a copy and the second section of an assignment share the source's counter and add one holder, detaching takes one away and deletes the counter with the last |
| RefCounts.AssignmentShares | Include/xStl/refCountObject.h:176-186 | however other threads come between its sections, an assignment ends with target and source on one live counter, the one the source had at its beginning |
| RefCounts.ShareExample | Include/xStl/refCountObject.h:168-175 | a run in which a copy outlives its original and the object goes with the last handle |
| RefCounts.After | Include/xStl/refCountObject.h:110-185 | so does every interleaving of steps |
| RefCounts.DeletedExactly | Include/xStl/refCountObject.h:114-120 | a step deletes a counter exactly when it detaches the last handle; the object is leaked if the step was an assignment and deleted otherwise |
| RefCounts.SourceSurvives | Include/xStl/refCountObject.h:176-186 | the first section of an assignment never deletes the counter the second will share |
| RefCounts.GoneForGood | Source/xStl/data/counter.cpp:58-78 | a deleted counter is never counted or pointed to again in any later run |
| RefCounts.LeakExample | Include/xStl/refCountObject.h:178 | a run that loses an object |
| Brace.Braces.EatCharacter | Source/xStl/parser/braces.cpp:70-109 | is the stack machine; on an error it names the brace found and one that would have been accepted |
| Brace.BlockIff | Source/xStl/parser/braces.cpp:70-109 | the machine reports the end of the block exactly at the end of a well-nested one |
| Brace.BlockPaired | Source/xStl/parser/braces.cpp:52-61 | every block accepted has as many } as {, as many ] as [ and as many ) as ( |
| Brace.BracePartners | Source/xStl/parser/braces.cpp:110-156 | six characters are braces, each closing brace matches the one opener it belongs to, and all other characters are passed over |
| Brace.ThrowsExactly | Source/xStl/parser/braces.cpp:82-88 | it throws exactly at the first character after which no continuation is balanced |
| Brace.Eat | Source/xStl/parser/parser.cpp:450-486 | feeding a text stops at that character or end and reports which |
| Strings.CString.Find | Source/xStl/data/string.cpp:545-583 | the least match at or after the start, or the length if there is none |
| Strings.CString.Replace | Source/xStl/data/string.cpp:638-651 | replaces leftmost matches until none is left, and ends, whenever the replacement has fewer of some character than the search string |
| Strings.ShorterUsesUp | Source/xStl/data/string.cpp:638-651 | every shorter replacement has |
| Strings.RewritesUnique | Source/xStl/data/string.cpp:638-651 | the run of replacements is determined by its start |
| Strings.NeverDone | Source/xStl/data/string.cpp:638-651 | a replacement that contains the search string never gets rid of it |
| Strings.CString.Split | Source/xStl/data/string.cpp:653-669 | ends; joining gives back the text if and only if matches behind the first character do not overlap, and then no part but the first contains the divider; the first part runs to the first match behind the first character |
| Strings.SafeDividers | Source/xStl/data/string.cpp:653-669 | all texts survive if and only if the divider does not overlap itself |
| Numbers.DigitsFromStrip | Source/xStl/data/datastream.cpp:45-66 | digits are printed from 0123456789ABCDEF, and letters of either case are read for what they stand for |
| Numbers.RangeOfBits | Source/xStl/parser/variable.cpp:117-180 | the ranges accepted are those of 8, 16 and 32 bits, signed or not |
| Numbers.WordCharacters | Source/xStl/parser/parser.cpp:207-232 | a word goes on with exactly the letters, digits and the underscore |
| Numbers.Decimal | Source/xStl/data/string.cpp:205-235 | decimal digits of the number without leading zeros |
| Numbers.HexDwordText | Source/xStl/data/datastream.cpp:68-79 | eight hexadecimal digits of the number |
| Numbers.MakeString | Source/xStl/parser/variable.cpp:182-207 | the sign and decimal text of signed values, 0x and two, four or eight hexadecimal digits with capital letters of unsigned ones |
| Numbers.Parser.ReadCUnsignedInteger | Source/xStl/parser/parser.cpp:314-389 | takes a maximal word, accepts exactly the number words, and returns their value modulo 2^32 |
| Numbers.CaseIgnored | Source/xStl/parser/parser.cpp:352-383 | words that differ only by the case of letters behind 0x or of the long mark are numbers alike and have the same value |
| Numbers.MarkIgnored | Source/xStl/parser/parser.cpp:355-363 | a long mark of either case changes nothing |
| Numbers.ReadLowered | Source/xStl/parser/parser.cpp:314-389 | the hexadecimal text of any 32-bit value in small letters, with or without a long mark, reads as that value |
| Numbers.Parser.ReadVariable | Source/xStl/parser/parser.cpp:507-539 | takes an optional sign and a maximal word; accepts it exactly when it is a number word, a minus sign goes with at most 2^31, and some value of the type is congruent to the signed number modulo 2^32, which is then the result |
| Numbers.PrintAndRead | Source/xStl/parser/variable.cpp:117-207 | every value of every integer type but the least 32-bit one comes back from its text, whatever non-word text follows |
| Caches.CacheStream.Write | Source/xStl/stream/cacheStream.cpp:101-117 | takes exactly what fits behind the buffered bytes, after a full buffer and nothing else has gone down; device bytes plus buffered bytes grow by that part |
| Caches.CacheStream.Flush | Source/xStl/stream/cacheStream.cpp:69-78 | the device alone has all bytes accepted; the reader loses exactly what was read ahead |
| Caches.CacheStream.Read | Source/xStl/stream/cacheStream.cpp:119-137 | bytes returned plus bytes to come are unchanged, whatever the device's short reads; an empty buffer causes exactly one call for a whole one, a buffer with bytes none, and the answer is as much of the buffer as was asked for |
| Caches.WriteThrough | Source/xStl/stream/cacheStream.cpp:69-117 | for any cache size and chunking the device gets all bytes in order |
| Caches.ReadThrough | Source/xStl/stream/cacheStream.cpp:119-137 | the pieces read are, in order, a prefix of the device's data, and all of it after as many requests as bytes when the device gives something whenever it can |
| Fragments.EndianRoundTrip | Source/xStl/data/endian.cpp:98-209 | in either byte order a number comes back modulo its width |
| Fragments.EncodedByte | Source/xStl/data/endian.cpp:98-209 | byte i of a number is its i-th lowest in little endian and its i-th highest in big endian |
| Fragments.ReadAddress | Source/xStl/stream/basicIO.cpp:455-485 | is the address parser: fails exactly on a wrong tag or too few bytes, and uses up exactly the bytes parsed |
| Fragments.AddressParses | Source/xStl/stream/basicIO.cpp:665-688 | in every mode and byte order the bytes written for an address parse as the address cut to its type, and no further |
| Fragments.ListParses | Source/xStl/os/fragmentsDescriptor.cpp:81-134 | so do the bytes of a list of up to 65535 ranges |
| Fragments.ListCoded | Source/xStl/stream/basicIO.cpp:455-485 | and whatever parses as a list is the bytes of that list and the rest, so that no other tag or layout is accepted |
| Fragments.TagLayout | Include/xStl/remoteAddress.h:63-67 | tags 0, 1 and 2 go before two, four and eight bytes |
| Fragments.ListLayout | Source/xStl/os/fragmentsDescriptor.cpp:97-134 | a list of one range byte by byte: the count, then start and end, each with its tag |
| Fragments.SameAnswers | Source/xStl/remoteAddress.cpp:58-89 | a list whose addresses keep their clipped values gives the same answer for every address |
| Fragments.FragmentsDescriptor.IsMemoryValid | Source/xStl/os/fragmentsDescriptor.cpp:50-61 | true exactly when no range covers the address |
| Fragments.FragmentsDescriptor.Serialize | Source/xStl/os/fragmentsDescriptor.cpp:97-108 | writes count and ranges, or nothing when there are more than 65535 |
| Fragments.FragmentsDescriptor.Deserialize | Source/xStl/os/fragmentsDescriptor.cpp:81-95 | is the list parser: fails exactly on malformed bytes, and replaces the list by what it parses |
| Fragments.SameAnswersIff | Source/xStl/os/fragmentsDescriptor.cpp:50-61 | two lists answer the same for every address if and only if they do so where a range of either starts and right behind where it ends |
| Fragments.RoundTrip | Source/xStl/os/fragmentsDescriptor.cpp:81-134 | in every mode and byte order a list of at most 65535 ranges uses up exactly its bytes and comes back cut to the types written; tagged it answers the same for every address, and in a fixed mode if and only if it does so at its edges |
| SetArrays.PlaceOfBit | Source/xStl/data/setArray.cpp:155-161 | location 32 w + k is bit k of word w |
| SetArrays.SetArray.First | Source/xStl/data/setArray.cpp:79-110 | the least member or the length, also with stale bits behind the length |
| SetArrays.SetArray.IsSetInOnePlace | Source/xStl/data/setArray.cpp:112-124 | true exactly when the set has one member |
| SetArrays.SetArray.Put | Source/xStl/data/setArray.cpp:126-144 | adds or removes one member and touches no other; out of range nothing changes |
| SetArrays.SetArray.Combine | Source/xStl/data/setArray.cpp:170-202 | intersection or union, also of a set with itself; different lengths are refused |
| SetArrays.SetArray.ChangeSize | Source/xStl/data/setArray.cpp:146-153 | places present before and after keep their value |

## Left out

- LzwStreams.LzwStream.constructor: symbol sizes outside 1 to 8 are a precondition; the source throws above 8.
- LzwStreams.LzwStream.Write: table and code numbers stay below 2^30, and buffers below 2^29 bytes, so that no 32-bit number wraps.
- LzwStreams.LzwStream.Read: a call that never returns is a result `Spins`; nothing is said of the object after it or after an exception. The list of spilled codes is always empty, because a full output spins instead of throwing. On a fresh object the prefix is unset; should it happen to hold the clear or end code, a first code past the literals counts as rejected, where the source writes low bits of that number.
- LzwRuns.ByteRoundTrip: data is not empty; with nothing written a flush sends nothing.
- LzwRuns.QuietIff: several writes whose padding does add symbols are covered by RoundTrip alone; lost bits may then come back by chance.
- LzwOneBitRuns.OneBitRoundTrip: several writes of one-bit symbols.
- BitStreams.BitStream.WriteBits: widths above 32 are a precondition; the source throws.
- Rle.RleStream.WriteFlush: the length byte is the low byte of a 32-bit count, as on little-endian machines.
- Numbers.MakeString: the least 32-bit integer, whose absolute value is undefined in the source.
- Numbers.Parser.ReadVariable: `uint` is 32 bits wide, minus 2^31 wraps where its negation is undefined in the source, and strings are not read.
- Strings.CString.Replace: a replacement with at least as many of every character as the search string may or may not end.
- Strings.CString.Split: an empty divider on an empty text, where the index wraps around 32 bits.
- Fragments.FragmentsDescriptor.Deserialize: nothing is said of the list or the stream position after malformed bytes.
- RefCounts.StepSafe: handles, counters and the lock are values of one state machine, not heap objects, and a locked section is one step.
- LZW: end-of-information by `closeNewStream`, clear codes in mid-stream, a second stream after `flush` (which, unlike its comment says, does not start a new table), `seek`.
- RLE and bit streams: `seek`, `length` and `getPointer`; reading and writing one filter at the same time.
- Braces: strings and line counting in `readBracesBlock`.
- Strings: null characters, `rfind`, case and trimming.
- Set arrays: the contents of new words when an array grows.
- Wildcards, comments, containers, digests, files, sockets, threads and other platform calls.
