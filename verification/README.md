# A verified model of the QNX codec, messaging and layout libraries

The project models the parts of the QNX library sources whose behaviour is hardest to see from the code, and proves
what they are for:

* **LZO codecs** (`lib/lzo`). Compressors and decompressors of LZO1, LZO1A, LZO1X/LZO1Y-999 and LZO2A-999, each ending
  in a `RoundTrip` method: for every input the decompressor returns success and the original bytes. LZO1 is proved
  together with its expansion bound, LZO1A for arbitrary initial work memory, LZO1X/Y with a preset dictionary, any
  lazy-matching settings and a bound on the expansion, LZO2A through its interleaved stream of bits and bytes, with its
  bound. Beside the round trips, the instructions of every format are decoded from their bytes, given as numbers, and
  the checked decompressors succeed with exactly the room and the input a stream needs. The two 999 compressors run on
  the sliding-window match finder they share, with its ring buffer, hash chains and uninitialised tables; nothing is
  assumed about it. A search that is not limited finds the longest match in the window.
* **MD5 streaming** (`lib/misc/md5c.c`). Any split of a message into updates gives the digest of sections 3.1 to 3.5 of
  RFC 1321.
* **Asynchronous messages** (`lib/asyncmsg`). The send ring as a state machine over putter, kernel, timer, event thread and
  the parts of a detach, with safety and exactly-once callbacks over every run, and exactly which connection attributes
  never leave a message waiting for nobody; the receive side's free list of buffers.
* **POSIX message queue descriptors** (`lib/mq/mq.c`). A most-recently-used list with cyclic identifiers, none of which
  comes round again before all others have been tried.
* **Migration library** (`lib/mig4nto`). A record table with a live cursor, and the queue behind `Receive()`.
* **Adler-32** (`lib/lzo/lzo_util.c`) against section 8.2 of RFC 1950, and the **ELF section layout** of
  `lib/elf/libelf.c`.

Where a promise turns out not to hold of the code, the project keeps the code as it is, exhibits an input
(`SendRing.PutOne`, `SendRing.PutTwoFault`, `SendRing.TimerFault`, `SendRing.WrapMisreports`,
`ReceiveQueue.SharedIdRepeats`, `ReceiveQueue.ProxyForgotten`, `RecordTable.DeleteAtCursorRevisits`,
`RecordTable.AddBehindRevisits`, `ElfLayout.SkippedMisaligns`, `Md5.GuardOverruns`, `Lzo1xDecoder.FewerFail`) and
proves the exact condition under which it holds (`SendRing.WokenWithoutFaults`, `SendRing.WokenDespiteFaults`,
`SendRing.FullProgress`, `SendRing.DetachReports`, `ReceiveQueue.TriggerSparesSends`, `ReceiveQueue.ProxyRemembered`,
`RecordTable.DeleteDuringScan`, `RecordTable.AddDuringScan`, `ElfLayout.SectionAligned`, `Md5.GuardExact`,
`Lzo1xDecoder.MarginExact`).

`dafny verify dfyconfig.toml` checks everything. Each `.dfy` file holds one module.

| files | component |
|---|---|
| `Bytes`, `Lz77`, `Buffers`, `Hashing` | bytes, the LZ77 copy, the overlapping copy macros, dictionary hashing |
| `Lzo1Format`, `Lzo1`, `Lzo1a`, `Lzo1Bytes` | LZO1 and LZO1A; what each instruction's bytes mean |
| `Lzo1xFormat`, `Lzo1xCopy`, `Lzo1xDecoder`, `Lzo1xBytes`, `Lzo1xLimits`, `Lzo1xStream`, `Lzo1xEncoder` | LZO1X/Y: instructions, dictionary copies, decoder, what the bytes mean, room and length a stream needs, unique decodability, encoder |
| `WindowHash`, `WindowRing`, `MatchFinder` | sliding-window match finder: hash keys, ring buffer and chains, search |
| `BitStream`, `Lzo2a`, `Lzo2aBytes` | LZO2A; what each token's fields mean, room and length a stream needs |
| `Adler32` | checksum |
| `Md5` | MD5 streaming |
| `SendRing`, `LinkedLists`, `ReceiveBuffers` | asynchronous messages |
| `MessageQueues` | queue descriptors |
| `RecordTable`, `ReceiveQueue` | migration library |
| `ElfLayout` | section layout |

Two comments in the sources do not describe their code; the model follows the code. `Bfind` is documented to report
the last record the key is less than; it reports the last one the key is greater than. `get_next_record` with `S_RESET`
is documented to return the first record and `S_NEXT` the one after the record returned before; after `S_RESET` it
returns the first record again.

## Model

| member | source | states |
|---|---|---|
| `Lz77.CopyRepeats` | lib/lzo/lzo_util.h:112-118 | copying `len` bytes from `off` back, byte by byte, rebuilds any text in which those bytes repeat |
| `Lz77.CopyMatchRepeats` | lib/lzo/lzo_util.h:112-118 | conversely, what the copy produces repeats at distance `off`, overlap included |
| `Buffers.CopyForward` | lib/lzo/lzo_util.h:112-114 | the forward copy writes exactly the source slice and nothing else in the buffer |
| `Buffers.CopyOverlap` | lib/lzo/lzo_util.h:116-118 | the overlapping copy in place is the LZ77 copy, for every distance and length |
| `Hashing.Dindex1` | lib/lzo/lzo_dict.h:126-192 | the hash of any three bytes is a valid dictionary slot |
| `Lzo1Format.MatchCode` | lib/lzo/lzo1.c:459-545 | every codable (offset, length) has a marker that reads back as exactly that offset and length, in 2 or 3 bytes |
| `Lzo1Bytes.MatchWritten` | lib/lzo/lzo1.c:459-545 | for offsets up to 8192 and lengths up to 264 those bytes are the length and the low five offset bits, the other eight, and beyond 8 the length less 9 |
| `Lzo1Format.ReadRunHead` | lib/lzo/lzo1.c:227-256 | reads short, R0 and shifted long run heads with the table of long run sizes |
| `Lzo1Format.MeasureMatch` | lib/lzo/lzo1.c:409-528 | the unrolled comparison stops at the first mismatch or length limit: the whole measured range repeats |
| `Lzo1.DecodeExtends` | lib/lzo/lzo1.c:206-284 | a complete stream decodes the same way when more bytes follow, continuing at its end with its output |
| `Lzo1.CodesAppendLiterals` | lib/lzo/lzo1.c:227-256 | appending a run head and its literals to a code for a text codes the text with those literals appended |
| `Lzo1.CodesAppendMatch` | lib/lzo/lzo1.c:257-276 | appending a match code codes the text continued by the LZ77 copy |
| `Lzo1.Decompress` | lib/lzo/lzo1.c:206-284 | the decompressor in place on an array computes the decoder specification, with its three outcomes |
| `Lzo1Bytes.DecodesRun` | lib/lzo/lzo1.c:227-256 | the head bytes of runs of 1 to 31, 32 to 280 and 512 to 32768 literals, given as numbers, append that many literals |
| `Lzo1Bytes.DecodesMatch` | lib/lzo/lzo1.c:257-276 | the match bytes, given as numbers for every offset and length, append the copy from that far back, or fault if it is not there |
| `Lzo1.StoreRun` | lib/lzo/lzo1.c:291-331 | a run of any length is cut into long, R0 and short runs that decode to it; overhead at most 1 + length/32 |
| `Lzo1.Probe` | lib/lzo/lzo1.c:383-405 | the two-slot lookup returns the first slot's position if it is in reach and agrees in three bytes; if it is in reach and does not agree, the second's under the same condition; else none. The slot looked at last takes the current position, and every entry stays null or earlier |
| `Lzo1.CodeMatch` | lib/lzo/lzo1.c:459-545 | measured match and code agree: the output then codes the text up to the end of the match |
| `Lzo1.DoCompress` | lib/lzo/lzo1.c:343-608 | for every text the code written decodes to the text and keeps the expansion bound throughout |
| `Lzo1.Compress` | lib/lzo/lzo1.c:615-642 | with an output array of text + text/32 + 1 bytes, compression never writes past it and codes the whole text |
| `Lzo1.RoundTrip` | lib/lzo/lzo1.c:206-642 | decompressing what was compressed succeeds and returns the text, for every text |
| `Lzo1a.DecodeExtends` | lib/lzo/lzo1a.c:158-245 | streams decode independently of what follows, in both decoder states |
| `Lzo1a.CodesAppendR1` | lib/lzo/lzo1a.c:195-208 | a marker below 32 right after a match is read as a three-byte match followed by one literal, because the decoder is in its after-literal state |
| `Lzo1a.Decompress` | lib/lzo/lzo1a.c:131-253 | the two-state decompressor in place computes the decoder specification |
| `Lzo1Bytes.DecodesRunA` | lib/lzo/lzo1a.c:163-192 | run heads as numbers append their literals, and leave the after-literal state exactly below 280 |
| `Lzo1Bytes.DecodesMatchA` | lib/lzo/lzo1a.c:211-237 | match bytes as numbers append the copy in either state, or fault |
| `Lzo1Bytes.DecodesR1` | lib/lzo/lzo1a.c:193-209 | after literals an offset without length bits and a byte append three copied bytes and that byte, for every offset, or fault |
| `Lzo1a.StoreRun` | lib/lzo/lzo1a_cr.ch:39-109 | runs of any length decode to their literals |
| `Lzo1a.R1Rewrite` | lib/lzo/lzo1a.c:351-372 | clearing the length bits of the marker two bytes back turns a three-byte match and a literal into the R1 form without changing what is decoded |
| `Lzo1a.CodeR1` | lib/lzo/lzo1a.c:351-372 | the back-patched output codes the same text plus the literal |
| `Lzo1a.CodeRun` | lib/lzo/lzo1a.c:346-409 | held-back literals are coded as an R1 literal or as runs, whichever branch is taken |
| `Lzo1a.Probe` | lib/lzo/lzo_dict.h:266-283 | the same for arbitrary dictionary contents, where in reach means from the start of the input up to, not including, the current position |
| `Lzo1a.CodeMatch` | lib/lzo/lzo1a.c:443-546 | the match coded extends the decoded text by the matched bytes and prepares the next R1 rewrite |
| `Lzo1a.DoCompress` | lib/lzo/lzo1a.c:265-612 | for every text and every initial dictionary the code written decodes to the text |
| `Lzo1a.Compress` | lib/lzo/lzo1a.c:619-673 | the same with and without clearing the dictionary first, including the short inputs |
| `Lzo1a.RoundTrip` | lib/lzo/lzo1a.c:131-673 | decompressing what was compressed returns the text, whatever the work memory held |
| `Lzo1xFormat.CodedLengthExact` | lib/lzo/lzo1x_9x.c:348-386 | `len_of_coded_match` is positive exactly for codable matches, equals the number of bytes `code_match` writes and never exceeds the match length |
| `Lzo1xFormat.LenOfCodedMatch` | lib/lzo/lzo1x_9x.c:348-386 | the counting loops compute that length |
| `Lzo1xBytes.ShortForms` | lib/lzo/lzo1x_9x.c:157-213 | which matches the encoder writes in two bytes, and which bytes, as numbers |
| `Lzo1xBytes.LongForms` | lib/lzo/lzo1x_9x.c:214-271 | the bytes of all others: marker, length and fourteen offset bits up to 16384 back, and the fifteenth in the marker beyond |
| `Lzo1xCopy.BlockCopy` | lib/lzo/lzo1x_d3.c:46-94 | a block move equals the byte-at-a-time copy when the distance is at least the length |
| `Lzo1xCopy.CopyDict` | lib/lzo/lzo1x_d3.c:86-94 | the dictionary copy is the LZ77 copy on dictionary followed by output, for every length and reachable offset |
| `Lzo1xCopy.CopyDictDict` | lib/lzo/lzo1x_d3.c:69-84 | including copies that start in the dictionary, cross into the output and overlap themselves |
| `Lzo1xDecoder.DecompressDictSafe` | lib/lzo/lzo1x_d.ch:33-434 | the checked decompressor in place computes the step-by-step decoder: text, status and every overrun error |
| `Lzo1xDecoder.TakeTurn` | lib/lzo/lzo1x_d.ch:96-405 | one turn of the decoder loop is one step of the decoder in each of its three literal contexts |
| `Lzo1xDecoder.ReadMatch` | lib/lzo/lzo1x_d.ch:180-330 | offset, length and trailing literal count of all match forms, whose meaning depends on the preceding literals |
| `Lzo1xBytes.DecodesM1` | lib/lzo/lzo1x_d.ch:148-349 | the two bytes of an M1 match copy two bytes after one to three literals, and three from beyond the M2 range after a run |
| `Lzo1xBytes.DecodesM2` | lib/lzo/lzo1x_d.ch:183-383 | the two bytes of an M2 match, for LZO1X and LZO1Y, copy that many bytes from that far back, byte by byte out of output or dictionary; a full buffer is an output overrun, a match that is not there a look-behind overrun, in this order |
| `Lzo1xBytes.DecodesM3` | lib/lzo/lzo1x_d.ch:236-383 | the same up to 16384 back, for every length, in the marker or counted behind it |
| `Lzo1xBytes.DecodesM4` | lib/lzo/lzo1x_d.ch:274-383 | the same beyond 16384 and up to 49151 back |
| `Lzo1xBytes.DecodesRun` | lib/lzo/lzo1x_d.ch:95-146 | a run of any length from four, its length in the marker or counted behind it, appends its literals; it is an output overrun without room, an input overrun if the input ends within it or with it |
| `Lzo1xBytes.DecodesFirst` | lib/lzo/lzo1x_d.ch:86-94 | a first byte above 17 is a run of literals, as many as the byte is above 17; any other is a marker |
| `Lzo1xBytes.DecodesEnd` | lib/lzo/lzo1x_d.ch:282-414 | the bytes 17, 0, 0 end the stream: with success at its end, with input left before it, with an overrun behind it |
| `Lzo1xBytes.DecodesNoMarker` | lib/lzo/lzo1x_d.ch:96-407 | where the input ends before a marker, or right behind the marker that follows literals, no end code is reported |
| `Lzo1xLimits.RoomExact` | lib/lzo/lzo1x_d.ch:32-434 | a stream that decodes at some capacity decodes to the same text at every capacity that holds it, and is an output overrun at every smaller one |
| `Lzo1xLimits.LengthExact` | lib/lzo/lzo1x_d.ch:32-434 | it decodes with its own input length only: with less the decoder reports an input overrun or no end code, with more the same text and input left |
| `Lzo1xDecoder.SixSuffice` | lib/lzo/lzo1x_d.ch:89-405 | with six readable bytes behind a stream that is not empty, no input makes the checked decompressor read anything else, although operands are not tested and the input test wraps behind the end |
| `Lzo1xDecoder.FewerFail` | lib/lzo/lzo1x_d.ch:151-405 | a stream that makes it read behind any smaller number of bytes |
| `Lzo1xDecoder.MarginExact` | lib/lzo/lzo1x_d.ch:89-405 | six is the exact margin: every stream of every length keeps to it, and to no smaller one |
| `Lzo1xStream.LongCodeRead` | lib/lzo/lzo1x_9x.c:213-265 | zero-padded counts read back as the number coded and end where the code ends |
| `Lzo1xStream.MatchRead` | lib/lzo/lzo1x_9x.c:120-276 | every match instruction, with any literal count or-ed into its second last byte, is read back as that offset, length and count in its context |
| `Lzo1xStream.LeadsMatch` | lib/lzo/lzo1x_9x.c:120-276 | appending a match instruction makes the decoder produce the copied bytes and be ready for a patched count |
| `Lzo1xStream.LeadsRun` | lib/lzo/lzo1x_9x.c:279-319 | appending a run of four or more literals makes the decoder produce them |
| `Lzo1xStream.LeadsFirst` | lib/lzo/lzo1x_9x.c:279-319 | the run at the start of the stream, coded with an offset of 17 or as a plain run, is recovered |
| `Lzo1xStream.LeadsEof` | lib/lzo/lzo1x_9x.c:775-779 | the code 17,0,0 ends decoding with success and is not taken for a match |
| `WindowHash.Head3Third` | lib/lzo/lzo_swd.ch:61-70 | positions with equal keys and equal first two bytes agree in the third, which the search never compares |
| `WindowRing.ReadAt` | lib/lzo/lzo_swd.ch:343-371 | reading on past the end of the ring, into the copy kept behind it, yields the following bytes of the text |
| `WindowRing.StoreHolds` | lib/lzo/lzo_swd.ch:343-371 | storing the next byte, twice near the start of the ring, keeps ring and copy in agreement with the text |
| `WindowRing.StoreKeyed` | lib/lzo/lzo_swd.ch:343-371 | and never changes the key of a listed position |
| `WindowRing.PushChain` | lib/lzo/lzo_swd.ch:427-433 | adding the newest position keeps every chain a list of exactly its positions, newest first |
| `WindowRing.PopChain` | lib/lzo/lzo_swd.ch:395-397 | the oldest position is last in its chain, so counting one less removes it without touching a link |
| `WindowRing.PushPaired` | lib/lzo/lzo_swd.ch:435-439 | the newest position takes over its pair of bytes, and every other kept position still has its pair lead to it or a later one |
| `WindowRing.PopPaired` | lib/lzo/lzo_swd.ch:399-404 | pairs of bytes lead to kept positions only, and to one whenever there is one, also after the oldest is dropped |
| `WindowRing.SameRepeats` | lib/lzo/lzo_swd.ch:489-506 | bytes that agree in the ring repeat in dictionary and text |
| `WindowRing.SeenDistance` | lib/lzo/lzo_swd.ch:334-335 | the index difference, wrapped or not, is the true distance back |
| `MatchFinder.Window.constructor` | lib/lzo/lzo_swd.ch:220-312 | for any dictionary and input, and any contents of the uninitialised tables, the finder starts in a consistent state |
| `MatchFinder.Window.DropOldest` | lib/lzo/lzo_swd.ch:378-408 | removing the node at the remove pointer removes exactly the oldest position from chains and pairs |
| `MatchFinder.Window.GetByte` | lib/lzo/lzo_swd.ch:343-371 | moves the window by one byte, before and after the end of the input |
| `MatchFinder.Window.Accept` | lib/lzo/lzo_swd.ch:417-443 | lists the bytes of an accepted match and keeps the finder consistent |
| `MatchFinder.Window.Measure` | lib/lzo/lzo_swd.ch:489-497 | all of the measured length agrees, and one byte more does not or is beyond the look-ahead |
| `MatchFinder.Window.Consider` | lib/lzo/lzo_swd.ch:471-528 | a candidate passed over for its ends, or measured, has no match longer than the one kept |
| `MatchFinder.Window.Search` | lib/lzo/lzo_swd.ch:451-530 | every match and best position kept is really there and none of the positions visited has a longer one; the search visits its whole counted list or stops for one of its three reasons |
| `MatchFinder.Window.SearchPair` | lib/lzo/lzo_swd.ch:541-569 | a two-byte match reported is there, and if none is reported no position in the window has one |
| `MatchFinder.Window.LongestOfAll` | lib/lzo/lzo_swd.ch:578-612 | a position outside the list of its key has no match of three bytes, so a match no position of the list beats is the longest in the window |
| `MatchFinder.StopLosesNothing` | lib/lzo/lzo_swd.ch:525-526 | when a match is longer than the length kept for its position, no earlier position has a longer one |
| `MatchFinder.Window.NothingMissed` | lib/lzo/lzo_swd.ch:451-530 | with lengths kept from searches that were not limited, and no limit now, none of the three stop rules passes over a longer match |
| `MatchFinder.Window.FindBest` | lib/lzo/lzo_swd.ch:578-635 | the match and the offsets by length are true repetitions at most the window size back; the match is the longest among the positions searched, and with the nearest of those as long; the positions are as many as the limit allows unless a stop rule applied; it is the longest in the whole window when the list was searched to its end or no search so far was limited by chain length or nice length; the offset kept for its length is its own |
| `MatchFinder.Window.FindMatch` | lib/lzo/lzo_mchw.ch:149-191 | accepts, searches and reports position, look-ahead and a true match, for every reachable state; the longest one if no search was limited, as with a chain limit of zero or the window size and a nice length of the look-ahead |
| `Lzo1xEncoder.CopyTrueMatch` | lib/lzo/lzo1x_9x.c:429-460 | a repetition the finder reports, in text or dictionary, is reproduced by the decoder's copy |
| `Lzo1xEncoder.LazySaves` | lib/lzo/lzo1x_9x.c:389-423 | a lazy match that clears `min_gain` saves strictly more bytes than the match it displaces, counting what is kept of that one |
| `Lzo1xEncoder.Compressor.AcceptsExact` | lib/lzo/lzo1x_9x.c:624-643 | a match is taken exactly when it has at least two bytes, its code is no longer than it, shorter after a run of four literals or more, and there is a literal before it; the first match of the stream must also have three |
| `Lzo1xEncoder.Compressor.Weigh` | lib/lzo/lzo1x_9x.c:705-732 | a match further on is preferred exactly when it is longer, or as long and nearer, can be coded, and gains what `min_gain` asks; preferring it then saves bytes |
| `Lzo1xEncoder.BetterMatch` | lib/lzo/lzo1x_9x.c:465-525 | a replacement is still a true match, at most two bytes shorter and closer, and its code is shorter by at least as many bytes; a match one byte shorter in M2 reach replaces one beyond it, and one in M3 reach one beyond that |
| `Lzo1xEncoder.StoredLeads` | lib/lzo/lzo1x_9x.c:279-341 | literals of any number, stored as a run or or-ed into the previous match, decode to themselves |
| `Lzo1xEncoder.Compressor.FindMatch` | lib/lzo/lzo_mchw.ch:149-191 | advances by the bytes accepted; the match found there is true in text or dictionary |
| `Lzo1xEncoder.Compressor.CodeMatch` | lib/lzo/lzo1x_9x.c:120-276 | writes exactly the match instruction of its literal context |
| `Lzo1xEncoder.Compressor.StoreRun` | lib/lzo/lzo1x_9x.c:279-319 | writes the run or patches the byte two back, and nothing else |
| `Lzo1xEncoder.Compressor.CodeRun` | lib/lzo/lzo1x_9x.c:322-341 | the literal context left for the next match is the number of literals stored |
| `Lzo1xEncoder.Compressor.CodeBoth` | lib/lzo/lzo1x_9x.c:722-762 | literals and the match behind them extend what the output codes by exactly those bytes |
| `Lzo1xEncoder.Compressor.TryLazy` | lib/lzo/lzo1x_9x.c:685-752 | every outcome of looking ahead keeps coded text + literals + bytes ahead equal to the position, and the output within its limit or in debt for no more than the match found will save; looking ahead without success stops only at its limit or near the end of the text |
| `Lzo1xEncoder.SizeShortened` | lib/lzo/lzo1x_9x.c:719-738 | coding the displaced match shortened leaves no more owing than the lazy match will save |
| `Lzo1xEncoder.Compressor.Choose` | lib/lzo/lzo1x_9x.c:655-682 | the match taken is true, codable and worth its code, and saves no less than the one found; the look-ahead goes exactly as far as the number of tries and one less than its code size allow, and nowhere for long matches |
| `Lzo1xEncoder.Compressor.TakeMatch` | lib/lzo/lzo1x_9x.c:655-770 | one accepted match, lazy or not, advances the position and keeps the encoder's invariant |
| `Lzo1xEncoder.Compressor.Finish` | lib/lzo/lzo1x_9x.c:773-795 | the finished stream decodes to the text; literal and match bytes add up to its length; final run and end code add at most 5 bytes to the limit |
| `Lzo1xEncoder.Compressor.Compress` | lib/lzo/lzo1x_9x.c:534-798 | for every dictionary, text and setting the stream decodes to the text, which literals and matches cover exactly once, and is at most n + n/22 + 6 bytes long for n bytes of text |
| `Lzo1xEncoder.RoundTrip` | lib/lzo/lzo1x_9x.c:534-798 | `lzo1x_decompress_dict_safe` of the output returns success and the text, for every dictionary, text and setting |
| `BitStream.OrAbove` | lib/lzo/config2a.h:137-137 | or-ing shifted bits above the ones present is addition |
| `BitStream.PromiseReserve` | lib/lzo/lzo2a_9x.c:66-71 | reserving a byte for bits keeps the stream readable whatever will be put there |
| `BitStream.PromiseSpill` | lib/lzo/lzo2a_9x.c:66-71 | a field that straddles two bit bytes is read back in one piece although bytes written in between lie between them |
| `BitStream.Writer.PutBits` | lib/lzo/lzo2a_9x.c:66-71 | putting a field extends what any reader recovers by that field |
| `BitStream.Writer.PutByte` | lib/lzo/lzo2a_9x.c:64-64 | the same for a plain byte |
| `BitStream.Writer.Flush` | lib/lzo/lzo2a_9x.c:309-319 | after the final flush everything put is recovered from the bytes as they stand |
| `BitStream.RecoverWeight` | lib/lzo/config2a.h:131-143 | reading back takes exactly the bits that were put |
| `BitStream.WriteAll` | lib/lzo/lzo2a_9x.c:64-72 | any sequence of fields below 8 bits and bytes, written and read back with the same shape, yields the same values, from as many bytes as its bits need |
| `BitStream.GetBits` | lib/lzo/config2a.h:131-143 | a field is read from the low bits, refilling at most once: field and bits left make up the bits before and the byte read, and fewer than 8 are left if there were fewer than 8 |
| `Lzo2a.TokenStep` | lib/lzo/lzo2a_d.ch:74-175 | the bits and bytes written for a literal or match make the decoder take exactly that literal or match |
| `Lzo2a.EofStep` | lib/lzo/lzo2a_9x.c:301-307 | the end code is not the code of any match |
| `Lzo2aBytes.DecodesLiteral` | lib/lzo/lzo2a_d.ch:77-85 | a zero bit and a byte append that byte, or are an output overrun |
| `Lzo2aBytes.DecodesM1` | lib/lzo/lzo2a_d.ch:88-102 | one, zero, two bits and a byte copy two to five bytes from up to 256 back, for every length and offset, with the errors in their order |
| `Lzo2aBytes.DecodesLong` | lib/lzo/lzo2a_d.ch:105-147 | two ones and two bytes copy three to nine bytes from up to 8191 back |
| `Lzo2aBytes.DecodesLonger` | lib/lzo/lzo2a_d.ch:110-147 | with no length there, zero bytes worth 255 each and a last byte count what is over nine; at offset zero the copy leaves what the buffer held |
| `Lzo2aBytes.DecodesEnd` | lib/lzo/lzo2a_d.ch:137-163 | two ones and the bytes 32, 0 end the stream, with success at its end and with input left before it |
| `Lzo2aBytes.RoomExact` | lib/lzo/lzo2a_d.ch:41-183 | a stream that decodes into some buffer decodes the same into every longer or shorter one of the same contents that holds the text, and is an output overrun in one that does not |
| `Lzo2aBytes.LengthExact` | lib/lzo/lzo2a_d.ch:41-183 | a stream that decodes does not do so cut short, which is an input overrun or no end code, nor with bytes behind it, which are reported as input left |
| `Lzo2a.DecodeTokens` | lib/lzo/lzo2a_d.ch:41-189 | a whole token sequence decodes to the text it expands to |
| `Lzo2a.Decompress` | lib/lzo/lzo2a_d.ch:41-189 | the checked decompressor in place computes the step-by-step decoder with its error cases, for every stream and whatever the output buffer held, which a long match with offset zero leaves as it was |
| `Lzo2a.Turn` | lib/lzo/lzo2a_9x.c:130-299 | every turn writes, for exactly the bytes it passes, a literal if no match found is worth it; otherwise the match, or a literal if the next position's match is longer by the gain asked for |
| `Lzo2a.AllWeight` | lib/lzo/lzo2a_9x.c:130-299 | tokens take at most nine bits for each byte they stand for |
| `Lzo2a.Compress` | lib/lzo/lzo2a_9x.c:86-340 | for every text and search limit the stream decodes to the text, whatever the output buffer held, and is at most n + (n + 25)/8 bytes long for n bytes of text |
| `Lzo2a.RoundTrip` | lib/lzo/lzo2a_9x.c:343-353 | decompressing what was compressed returns the text |
| `Adler32.Adler` | lib/lzo/lzo_util.c:189-217 | the deferred-modulo loops return the reduce-every-byte checksum for every start value and buffer, and 1 for a missing buffer, with no sum leaving 32 bits |
| `Adler32.RawReduced` | lib/lzo/lzo_util.c:209-213 | reducing once at the end of a non-empty block equals reducing after every byte |
| `Adler32.BlockFits` | lib/lzo/lzo_util.c:199-213 | within a block of 5552 bytes neither sum exceeds 2^32 - 1, from any 16-bit sums |
| `Adler32.NmaxExact` | lib/lzo/lzo_util.c:179-181 | 5552 is the largest block length with that bound, both ways |
| `Adler32.ChecksumConcat` | lib/lzo/lzo_util.c:189-217 | continuing a checksum over a second piece is the checksum of both pieces joined |
| `Adler32.ChecksumClosed` | lib/lzo/lzo_util.c:189-217 | for any bytes at all the low half is the start's low half plus the bytes, the high half adds the number of bytes times that start and each byte times its distance from the end, both modulo 65521; no bytes change nothing |
| `Adler32.ByteChangeDetected` | lib/lzo/lzo_util.c:189-217 | changing any single byte changes the checksum |
| `Md5.DecodeEncode` | lib/misc/md5c.c:105-136 | decoding encoded words returns them |
| `Md5.EncodeDecode` | lib/misc/md5c.c:105-136 | encoding decoded bytes returns them |
| `Md5.Encode` | lib/misc/md5c.c:105-118 | the loop writes the little-endian bytes of the words |
| `Md5.Decode` | lib/misc/md5c.c:125-136 | the loop reads them back |
| `Md5.FoldConcat` | lib/misc/md5c.c:231-242 | processing whole blocks in two goes is processing them in one |
| `Md5.FoldOne` | lib/misc/md5c.c:231-242 | a further block is transformed once, after the others |
| `Md5.PaddedExact` | lib/misc/md5c.c:255-275 | the padded message is the message, 0x80, zeros to the end of a block less eight bytes, and eight bytes worth the length in bits modulo 2^64, lowest first, with no block to spare |
| `Md5.PaddedOnly` | lib/misc/md5c.c:255-275 | nothing else has that form |
| `Md5.DigestStart` | lib/misc/md5c.c:188-202 | with a transformation that changes nothing the digest is 0123456789abcdeffedcba9876543210 |
| `Md5.LittleEndianAt` | lib/misc/md5c.c:105-118 | each word takes its four bytes, lowest first |
| `Md5.CountAddExact` | lib/misc/md5c.c:223-227 | the two-word counter with its carry stays the bit length modulo 2^64 |
| `Md5.Context.constructor` | lib/misc/md5c.c:188-202 | the four initial chaining words and an empty message |
| `Md5.Context.Absorb` | lib/misc/md5c.c:231-242 | completes the buffered block and folds all whole blocks of the input, in order |
| `Md5.Context.Update` | lib/misc/md5c.c:209-250 | state, counter and buffer then stand for the old message followed by the input |
| `Md5.GuardExact` | lib/misc/md5c.c:231-242 | at every index the block loop arrives at, its 32-bit guard passes only blocks that fit, if and only if buffered bytes plus input stay below 2^32 |
| `Md5.GuardOverruns` | lib/misc/md5c.c:231-242 | otherwise the loop arrives at 2^32 less the buffered bytes and passes a block that is not there |
| `Md5.Context.Final` | lib/misc/md5c.c:255-282 | the digest is the fold over the message padded as `PaddedExact` says, which is section 3 of RFC 1321, and the context is wiped |
| `Md5.HashChunks` | lib/misc/md5c.c:188-282 | any split into updates within that limit gives the digest of the whole message |
| `SendRing.AppendHeld` | lib/asyncmsg/asyncmsg_put.c:53-78 | putting appends to the messages held and leaves the delivered ones alone |
| `SendRing.DeliverHeld` | services/system/ker/nano_asyncmsg.c:420-495 | delivery marks the oldest undelivered message with its status, moves the border past it and keeps the order |
| `SendRing.CollectHeld` | lib/asyncmsg/asyncmsg_connect_attach.c:58-80 | collecting removes the oldest held message |
| `SendRing.DrainHeld` | lib/asyncmsg/asyncmsg_connect_detach.c:40-65 | draining removes the oldest held message, delivered or not |
| `SendRing.StepInv` | lib/asyncmsg/asyncmsg_connect_detach.c:26-71 | every step of every party, including those between `ConnectDetach`, the deletion of the handle and the drain, and a delivery preempted before the emptied connection is unlinked, keeps the indices, the accounting of messages and the state of link and timer |
| `SendRing.RingSafety` | lib/asyncmsg/asyncmsg_put.c:53-84 | in every run at most size - 1 slots are occupied, callbacks come once each in the order accepted, until the drain each after its delivery and with its status, and after the drain for every message |
| `SendRing.Wakeups` | lib/asyncmsg/asyncmsg_put.c:24-39 | in every run undelivered messages have a wakeup due if and only if the past has left the connection on the channel, a one-shot timer is running, or a periodic one was ever set |
| `SendRing.TimedWakeups` | services/system/ker/nano_timer.c:218-225 | with a trigger time there is none exactly when a sender fault came after the last put, flush or expiry that found messages and the timer is off or, if periodic, was never set |
| `SendRing.LinkedForMessages` | lib/asyncmsg/asyncmsg_put.c:24-39 | in every run a connection is on the channel only if messages were waiting or put since it was last taken off |
| `SendRing.WokenWithoutFaults` | services/system/ker/ker_timer.c:164-165 | without faults no run leaves a message without a wakeup if and only if there is a trigger time, every message triggers, or the ring takes none |
| `SendRing.WokenDespiteFaults` | services/system/ker/nano_asyncmsg.c:420-455 | with faults that takes a periodic trigger time and a trigger that is not every message, and nothing less, in a ring of three slots or more; a ring of two holds one message at a time and needs no more than without faults |
| `SendRing.FullProgress` | lib/asyncmsg/asyncmsg_put.c:54-69 | in every run a put that waits for room can be let go by deliveries, collections and expiries alone if and only if something is delivered already or the rest has a wakeup; otherwise nothing at all can happen but a flush or the detach |
| `SendRing.StillReleasable` | lib/asyncmsg/asyncmsg_put.c:54-69 | until it is let go or the connection is taken away a put that can be let go still can, whatever the other parties do, faults included |
| `SendRing.NeverDelivered` | lib/asyncmsg/asyncmsg_flush.c:23-44 | with no trigger time and no trigger the ring can reach, no run without a flush delivers anything |
| `SendRing.PutOne` | services/system/ker/ker_timer.c:164-165 | one put below the trigger with no trigger time leaves a message with no wakeup |
| `SendRing.PutTwoFault` | services/system/ker/nano_asyncmsg.c:420-455 | a fault on the first of two triggered messages leaves the second with none, whatever the trigger time |
| `SendRing.TimerFault` | services/system/ker/nano_asyncmsg.c:420-455 | the same after a one-shot timer put them on the channel |
| `SendRing.StampsExact` | lib/asyncmsg/asyncmsg_connect_detach.c:51-65 | the reports of a drain carry EBADF for exactly the undelivered messages and the status of its delivery for every other, if and only if neither region wraps |
| `SendRing.RunStamps` | lib/asyncmsg/asyncmsg_connect_detach.c:51-65 | that holds at every point of every run before the drain, with no assumption on the statuses |
| `SendRing.DetachReports` | lib/asyncmsg/asyncmsg_connect_detach.c:26-71 | in every run that a detach brings to its end, the callbacks of the drain are exactly its reports, and right if and only if neither region wrapped when it took the mutex |
| `SendRing.WrapMisreports` | lib/asyncmsg/asyncmsg_connect_detach.c:54-56 | a run in which the drain reports success for a message that was never delivered |
| `SendRing.Connection.Putv` | lib/asyncmsg/asyncmsg_put.c:41-84 | appends and triggers, or refuses or waits on a full ring, and changes nothing else |
| `SendRing.Connection.TakePulse` | lib/asyncmsg/asyncmsg_connect_attach.c:48-56 | an expiry seen links the connection if messages wait and sets the flag, whether the timer runs on or not |
| `SendRing.Connection.CollectAll` | lib/asyncmsg/asyncmsg_connect_attach.c:58-80 | calls back for every delivered message in order and empties that region |
| `SendRing.Connection.DrainAll` | lib/asyncmsg/asyncmsg_connect_detach.c:49-71 | calls back once for every message still held, in order, with exactly the reports that `StampsExact` judges |
| `LinkedLists.SegmentUnlink` | lib/mq/mq.c:148-160 | relinking through the predecessor removes exactly one node from a chain |
| `LinkedLists.MoveToFront` | lib/mq/mq.c:84-103 | moving a node to the front only permutes the list |
| `ReceiveBuffers.Channel.Refill` | lib/asyncmsg/asyncmsg_get.c:38-67 | allocates until the maximum or until memory runs out and puts each buffer on the free chain |
| `ReceiveBuffers.Channel.Split` | lib/asyncmsg/asyncmsg_get.c:69-88 | cuts the free chain for the receive, leaving count and chain in agreement |
| `ReceiveBuffers.Channel.Splice` | lib/asyncmsg/asyncmsg_get.c:90-111 | returns the unused rest to the free chain without losing or repeating a buffer |
| `ReceiveBuffers.Channel.Get` | lib/asyncmsg/asyncmsg_get.c:37-113 | the caller gets a chain ending in null, of as many buffers as were used and offered; as many are allocated as are missing to the maximum or memory allows; every buffer allocated so far and not given back is on the chain whose length is the free count, once, or with a caller, never both |
| `ReceiveBuffers.Channel.Free` | lib/asyncmsg/asyncmsg_free.c:24-28 | giving back a buffer that a caller has keeps that account |
| `MessageQueues.Control.Lookup` | lib/mq/mq.c:84-103 | finds a live identifier if and only if there is one, copies its descriptor and only permutes the list |
| `MessageQueues.Control.Modify` | lib/mq/mq.c:107-121 | a first call finds a live identifier if and only if there is one, and holds the mutex exactly if it does; the second call gives it back; the list stays as it is |
| `MessageQueues.Control.Insert` | lib/mq/mq.c:127-143 | fails exactly when all 65536 identifiers are live; otherwise gives the first one that is not live behind the last one given, round 2^16, with the magic number |
| `MessageQueues.Control.Number` | lib/mq/mq.c:132-142 | the cyclic search starts behind the last number given, passes only live ones, terminates and misses no free one |
| `MessageQueues.NotSoonAgain` | lib/mq/mq.c:127-160 | over every run of insertions, failures and deletions a number is given again only after every other has been tried, and given or found live |
| `MessageQueues.Control.Delete` | lib/mq/mq.c:148-160 | removes the one descriptor with that identifier and keeps the rest in order |
| `RecordTable.Table.BinaryFind` | lib/c/ansi/bsearch.c:5-28 | in an ordered table finds a record with the key, or reports that there is none |
| `RecordTable.Table.LinearFind` | lib/mig4nto/_table.c:68-86 | finds the first record with the key |
| `RecordTable.Table.FindSlot` | lib/mig4nto/_table.c:121-146 | in an ordered table the slot is the number of records with a smaller key |
| `RecordTable.InsertOrdered` | lib/mig4nto/_table.c:201-248 | inserting there keeps the table ordered |
| `RecordTable.Table.AddRecord` | lib/mig4nto/_table.c:201-248 | adds one record at its place or at the end; fails only for lack of memory, changing nothing |
| `RecordTable.Table.DeleteAt` | lib/mig4nto/_table.c:288-337 | removes that record, fails for a number outside the table, keeps the cursor within it |
| `RecordTable.Table.DeleteKey` | lib/mig4nto/_table.c:271-337 | removes a record with the key if and only if there is one |
| `RecordTable.Table.GetRecord` | lib/mig4nto/_table.c:366-401 | finds a record with the key if and only if there is one and remembers where |
| `RecordTable.Table.Forward` | lib/mig4nto/_table.c:453-460 | returns the record under the cursor and moves on |
| `RecordTable.Table.Backward` | lib/mig4nto/_table.c:461-467 | undoes a step forward |
| `RecordTable.Table.Recall` | lib/mig4nto/_table.c:470-475 | returns the record under the last hit, if the table is still that long |
| `RecordTable.Table.Perform` | lib/mig4nto/_table.c:201-480 | whatever a client does is one operation on the table's view |
| `RecordTable.Table.Sweep` | lib/mig4nto/_table.c:271-480 | a forward scan deleting any subset of just-returned records visits each original record once, in order, and leaves the others |
| `RecordTable.RunKeeps` | lib/mig4nto/_table.c:201-480 | every run of operations keeps a sorted table ordered and the cursor between 0 and the number of records |
| `RecordTable.DeleteDuringScan` | lib/mig4nto/_table.c:309-314 | a deletion leaves the rest of a scan intact if and only if it does not hit the record under a cursor past the start |
| `RecordTable.DeleteAtCursorRevisits` | lib/mig4nto/_table.c:309-314 | in that case the previous record is returned again |
| `RecordTable.AddDuringScan` | lib/mig4nto/_table.c:201-248 | an addition leaves the rest of a scan intact if and only if its place is at the cursor or past it |
| `RecordTable.AddBehindRevisits` | lib/mig4nto/_table.c:216-233 | before the cursor, the previous record is returned again |
| `RecordTable.RecallAfterDelete` | lib/mig4nto/_table.c:300-323 | the last hit is still the record found if and only if the deletion came after it |
| `RecordTable.RecallAfterAdd` | lib/mig4nto/_table.c:216-246 | the same for an addition |
| `RecordTable.ScanExactlyOnce` | lib/mig4nto/_table.c:201-480 | in every run of steps, searches and changes of that kind each record that was ahead or was added is returned once, deleted before its turn or still ahead |
| `ReceiveQueue.Receiver.PutQueued` | lib/mig4nto/ipc_funcs.c:387-421 | appends a record or counts a proxy on the record it has; fails only for lack of memory |
| `ReceiveQueue.Receiver.GetQueued` | lib/mig4nto/ipc_funcs.c:438-492 | takes one message off the first matching record, deleting the record with its last, and reports an error exactly if the message cannot be processed |
| `ReceiveQueue.Receiver.ReceiveFrom` | lib/mig4nto/ipc_funcs.c:506-553 | a call is one step of the specification: queued messages first, then arrivals with others set aside; delivered, failed and lost messages are told apart |
| `ReceiveQueue.ReceiveOnlyWanted` | lib/mig4nto/ipc_funcs.c:439-553 | a call on a process is given only that process's messages, loses only others', and is interrupted only when nothing more arrives |
| `ReceiveQueue.ReceiveQueuedFirst` | lib/mig4nto/ipc_funcs.c:439-492 | the first queued record a call wants is the one it takes, one message of it; a call on 0 wants the oldest, whatever its kind |
| `ReceiveQueue.AwaitFirst` | lib/mig4nto/ipc_funcs.c:521-552 | otherwise it takes the first arrival it wants, and passes over no such one |
| `ReceiveQueue.ReceiveWaits` | lib/mig4nto/ipc_funcs.c:512-522 | a call waits for arrivals whenever nothing queued is wanted |
| `ReceiveQueue.ReceiveConserves` | lib/mig4nto/ipc_funcs.c:387-553 | per id, messages arrived minus messages disposed of is the sum of count + 1 over its records |
| `ReceiveQueue.ReceivePulses` | lib/mig4nto/ipc_funcs.c:387-492 | an id used only by pulses is always delivered as a pulse |
| `ReceiveQueue.ReceiveInOrder` | lib/mig4nto/ipc_funcs.c:438-553 | what a call takes out of the line and what is left in it is what was in line and what arrived and was not lost, in order, per sender, or over all when it takes anyone; also when memory runs out |
| `ReceiveQueue.ReceiveLoses` | lib/mig4nto/ipc_funcs.c:546-551 | only a call that runs out of memory loses anything, and that is the last message it received |
| `ReceiveQueue.RunConserves` | lib/mig4nto/ipc_funcs.c:387-553 | the conservation over every run of calls |
| `ReceiveQueue.RunInOrder` | lib/mig4nto/ipc_funcs.c:387-553 | over every run Send messages are handed over in arrival order, per sender, and overall when all calls take anyone, whether or not some are lost |
| `ReceiveQueue.RunStayed` | lib/mig4nto/ipc_funcs.c:387-553 | over every run the Send messages received are made up of those and the ones that calls reported lost, each in arrival order |
| `ReceiveQueue.TriggerSparesSends` | lib/mig4nto/ipc_funcs.c:401-412 | a trigger leaves every Send record due once if and only if the first record with its id is not a Send record |
| `ReceiveQueue.SharedIdRepeats` | lib/mig4nto/ipc_funcs.c:401-412 | with an id shared by a process and a proxy one Send message is handed over twice |
| `ReceiveQueue.ProxyRemembered` | lib/mig4nto/ipc_funcs.c:401-421 | a manager's proxy message keeps its receive id if and only if no record with its id is queued |
| `ReceiveQueue.ProxyForgotten` | lib/mig4nto/ipc_funcs.c:401-412 | of two messages queued for one proxy the first is taken twice and the second never |
| `ReceiveQueue.RcvidFromPid` | lib/mig4nto/ipc_funcs.c:615-638 | finds a blocked sender if and only if there is one and strikes off exactly that one |
| `ElfLayout.AndMask` | lib/elf/libelf.c:525-530 | masking with a power of two less one is the remainder |
| `ElfLayout.FillReaches` | lib/elf/libelf.c:525-530 | the padding reaches the nearest multiple of the alignment |
| `ElfLayout.FragmentAligned` | lib/elf/libelf.c:547-561 | every fragment is aligned within its section |
| `ElfLayout.FragmentsOrdered` | lib/elf/libelf.c:547-564 | fragments do not overlap and lie within the section's size |
| `ElfLayout.SectionsOrdered` | lib/elf/libelf.c:502-572 | file ranges of sections are in order and disjoint |
| `ElfLayout.SectionWithin` | lib/elf/libelf.c:497-574 | they start after the program headers and end before the section headers |
| `ElfLayout.SectionsClear` | lib/elf/libelf.c:497-574 | every section lies behind the 52 bytes of the file header and the 32 of each program header, takes its size there or nothing, and ends before the section headers |
| `ElfLayout.SectionGap` | lib/elf/libelf.c:518-574 | a section starts less than its alignment behind the bytes before it, and the section headers right behind the last |
| `ElfLayout.FragmentGap` | lib/elf/libelf.c:549-566 | a fragment starts less than its alignment behind the one before, and the section ends with the last |
| `ElfLayout.StrictestIs` | lib/elf/libelf.c:518-525 | a section's alignment is zero or some fragment's, and no fragment's is greater |
| `ElfLayout.SectionAligned` | lib/elf/libelf.c:522-570 | a section's file offset is aligned if and only if the sizes of the NOBITS sections before it add up to a multiple of its alignment |
| `ElfLayout.NothingSkipped` | lib/elf/libelf.c:522-570 | in particular with no NOBITS section before it |
| `ElfLayout.FragmentInFile` | lib/elf/libelf.c:522-564 | the same condition decides whether a fragment is aligned in the file |
| `ElfLayout.SkippedMisaligns` | lib/elf/libelf.c:566-569 | one byte of NOBITS space misaligns the next section |
| `ElfLayout.ElfFile.Update` | lib/elf/libelf.c:497-575 | the nested loops assign exactly the specified offsets, sizes and alignments and return the file size |

## Left out

- LZO1 and LZO1A are modelled in their default configuration (5 run bits, compression level 1); the other levels change only how often the dictionary is filled.
- LZO1X and LZO2A output grows as a sequence; the output buffer those encoders assume to be large enough is not modelled. LZO1 and LZO1A write into an array.
- LZO1Z, LZO1B, LZO1C, LZO1F, the optimizers, the faster LZO1X compressors and `lzo_crc32`: further instances of the same ideas.
- Word-wise copies in the decoders and the statistics counters of the encoders.
- Positions taken from an arbitrary dictionary are compared as integers; pointers into other objects are not modelled.
- MD5Transform is a parameter: the block function is not part of this model.
- Sizes are unbounded integers unless a member says otherwise: the checksum, the MD5 counter and guard, the match finder's hash and the queue identifiers model their widths.
- SendRing.FullProgress: that the event thread receives the kernel's notice of a delivery is taken for granted; a collection is possible whenever something is delivered.
- Locked regions are single steps. The kernel's delivery loop takes no mutex, and a put moves the tail before it fills the slot; a delivery between the two, possible while the connection is on the channel, is not modelled.
- The kernel, timers, callbacks and memory allocation are environment choices. Failures of kernel calls when a queue is already consistent only return an error.
- `asyncmsg_get` is modelled for one receiver at a time: its vector array is shared while unlocked.
- ReceiveQueue.RunInOrder: assumes process and proxy ids do not overlap, because `ReceiveQueue.SharedIdRepeats` shows it fails otherwise.
- Message contents, replies to the manager and the copying done while processing a message are not modelled; whether the processing of a message works is a parameter.
- The `mq_*` calls themselves, opening, sending and notifying: they add kernel requests around the descriptor list.
- ElfLayout.ElfFile.Update: alignments are zero or powers of two, as the source requires, and 32-bit wrap-around of file offsets is not modelled.
- libelf reading and writing, Bessel functions, terminal, device and process-information libraries, and kernel-dump utilities.
