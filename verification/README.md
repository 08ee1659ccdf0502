# Models of Pauline

Pauline captures and simulates floppy drives: a control program on an ARM/FPGA board, a WebSocket server with a small
client, and a driver patch for its display. This project models the algorithms of that software in Dafny and proves
what they are for. `dafny verify dfyconfig.toml` checks all of it.

- **LZ4 blocks** (`Lz4Format`, `Lz4Counters`, `Lz4Astray`, `Lz4Blocks`, `Lz4Memory`, `Lz4Parse`, `Lz4Compress`,
  `Lz4Periodic`, `Lz4Decompress`, `Lz4RoundTrip`): the compressor and the safe decoder as the program instantiates them
  on a 32-bit target, against a byte-by-byte reading of the LZ4 Block Format; `Lz4Counters` and `Lz4Astray` are that
  reading with 32-bit lengths and addresses, `Lz4Parse` which matches the compressor chooses, `Lz4Periodic` how small a
  block gets that way. Offset 0, which the format excludes, copies zeros, as the decoder does.
- **Flux** (`Bits`, `Flux`, `TrackCodec`, `FastCodec`, `DumpChunk`, `DumpCells`, `ChunkLayout`, `DumpDrain`): captures as
  16-bit words, most significant cell first; the variable-length gaps between pulses; the reference encoder and decoder
  of a track; the table-driven encoders of tracks and chunks; what a reader makes of them; chunk layout with a reader;
  the loop that drains a dump.
- **Checksums and text codes** (`Crc32`, `Sha1`, `Sha1Examples`, `Base64`).
- **Concurrency** (`Mailbox`, `DirtyPages`, with `Controller`, the display controller as a reader of transfers): each critical section is a method of a class, proved against a function on
  values; the interleavings of threads are a step relation over those functions, and what is proved holds after every
  run of steps.
- **WebSocket** (`ByteReader`, `WsFrames`, `WebSocket`, `WsServer`, `ToyWs`, `WsExamples`, `Utf8`): `WebSocket` defines which frame
  sequences are legal messages, what the receiver makes of a stream of bytes, and proves that it accepts exactly the
  legal ones; `WsServer` holds the loops that compute it from a socket; `ToyWs` is the client.

Methods with `modifies` clauses state their whole effect through these functions; the lemmas beside them say what the
functions mean.

## Where the code does less than it promises

- The lengths of an LZ4 block are summed up in 32 bits and may wrap. The decoder accepts `WrappedBlock`, which means
  nothing to the format; what it returns is what the format says if and only if no length field that is read wraps
  (`AgreesExactly`), which takes a block of over 16.8 million bytes (`ShortBlocksFit`).
- The check for a match that would end behind the last address comes before the four bytes every match has in
  addition, so the end can wrap (`Status.Astray`), exactly when a match that is reached ends on one of the addresses
  0 to 3 (`AstrayExactly`). Wherever the buffer lies there is a block that does that (`AstrayIsReached`): ten bytes are
  enough when it lies at the upper end, and it takes megabytes when it lies low (`AstrayNeeds`).
- Words with several pulses make the fast encoders drop sixteen cells and all but one pulse; gaps of 2^28 cells or more
  are written as 2^28 - 1. `EncodersAgree`, `TrackRoundTrip` and `DumpIsLossless` give the exact conditions;
  `DoublePulseIsLost` and `LongGapIsCut` are captures that do not come back.
- Draining a dump from an empty buffer never ends (`DrainEndsExactly`).
- The last chunk of a dump is rounded up to 32 bytes: it looks at one or five words behind its window
  (`WordsRead`, `WindowStep`); those words stand in its pulse stream but not in its second channel. If no
  captured word holds two pulses and no gap is cut down, the captured words come back whatever these hold
  (`CapturedComesBack`).
- A track size that is not a multiple of four bytes makes tracks overlap (`ApartExactly`).
- A page of the display is put at its column only if the segment offset is below 16 (`PaintsExactly`): the lower half of
  the column is sent with all eight low bits of the offset.
- `next_page_update` is masked with the number of pages minus one, which makes the third page wait for ever with 3, 5,
  6 or 7 pages (`FairExactly`).
- The client skips the payload of frames that are neither text nor binary and then reads as many bytes again
  (`ClientReceives`); a ping is delivered as the bytes behind it (`PingIsMisread`).
- `base64_decode` has no result for the encoding of nothing (`RoundTrip`).
- A SHA-1 message that is too long is reported with code 1, which the header names a null pointer.
- The mask bit and the shortness of a length are not checked by the server; `Frame` keeps both as free fields.

## Model

| member | source | states |
|---|---|---|
| Lz4RoundTrip.PackAndUnpack | Softwares_Pauline/Pauline_control/src/lz4.c:1171-2020 | for every input up to the size limit, any acceleration and any capacity of at least the input size, unpacking what was packed returns its size and exactly its bytes; the packed size is at most n + n/255 + 16 |
| Lz4Compress.CompressGeneric | Softwares_Pauline/Pauline_control/src/lz4.c:802-1168 | whatever the hash function, the kind of table, its contents that lie before the input, and the acceleration: success exactly for supported sizes, a result within the compression bound, a block that obeys the end-of-block restrictions and whose byte-by-byte meaning is the input; and its bytes are those of the matches that the search, the extensions and the test behind each match choose |
| Lz4Parse.SearchExactly | Softwares_Pauline/Pauline_control/src/lz4.c:876-961 | the search is complete: it finds nothing if and only if no probe, in steps that grow, meets a candidate in the table as it is then, and otherwise what the first such probe meets |
| Lz4Parse.MatchEndLongest | Softwares_Pauline/Pauline_control/src/lz4.c:1037-1038 | a match ends no earlier than the input agrees |
| Lz4Periodic.PeriodicSize | Softwares_Pauline/Pauline_control/src/lz4.c:1171-1184 | an input with a period whose positions have different hashes becomes one run of literals, no longer than as many probes as the period is long reach, and one match: its exact bytes and size, for any acceleration |
| Lz4Periodic.ShortPeriod | Softwares_Pauline/Pauline_control/src/lz4.c:1171-1184 | at the default acceleration a period of up to 65 bytes costs exactly its literals and one match |
| Lz4Periodic.ConstantInput | Softwares_Pauline/Pauline_control/src/lz4.c:1171-1184 | one byte over and over becomes one literal and one match, with any acceleration |
| Lz4Periodic.ThousandZeros | Softwares_Pauline/Pauline_control/src/lz4.c:1171-1184 | a thousand zeros become fourteen bytes, these |
| Lz4Compress.HashUndone | Softwares_Pauline/Pauline_control/src/lz4.c:658-664 | the multiplication can be undone modulo 2^32, so that no two words have the same product |
| Lz4Compress.HashBits | Softwares_Pauline/Pauline_control/src/lz4.c:658-682 | the hash is the 13 upper bits of the product for inputs below 64 KiB and 11 bytes, and 12 bits for longer ones |
| Lz4Compress.CompressFast | Softwares_Pauline/Pauline_control/src/lz4.c:1171-1184 | the same for the table, hash and start values this program uses, with the bytes of FastBlock; only too large an input fails |
| Lz4Compress.Count | Softwares_Pauline/Pauline_control/src/lz4.c:565-588 | the word-wise comparison returns the exact length of the common prefix up to the limit |
| Lz4Compress.FindMatch | Softwares_Pauline/Pauline_control/src/lz4.c:876-961 | the loop finds a match exactly when the search of SearchExactly does, the same one, for any hash function, and leaves the same table, which still refers only to earlier positions |
| Lz4Compress.CatchUp | Softwares_Pauline/Pauline_control/src/lz4.c:963-964 | a match is extended backwards over equal bytes as far as they go, without passing the anchor |
| Lz4Compress.TestNextPosition | Softwares_Pauline/Pauline_control/src/lz4.c:1074-1126 | another match follows without literals if and only if the entry behind the last match is a candidate; which entries the table then has |
| Lz4Compress.EncodeLiterals | Softwares_Pauline/Pauline_control/src/lz4.c:966-991 | the wild copy stays inside a buffer of the compression bound and leaves token, length and literals |
| Lz4Compress.EncodeMatch | Softwares_Pauline/Pauline_control/src/lz4.c:1009-1067 | the match is as long as the input agrees, ends at least five bytes before the end, and the output, no longer than 256/255 of the input, stands for all input up to there |
| Lz4Compress.EncodeMatches | Softwares_Pauline/Pauline_control/src/lz4.c:993-1131 | the chain of matches without literals keeps that relation between what is read and what is written, and writes exactly the matches that follow each other |
| Lz4Compress.EncodeLastLiterals | Softwares_Pauline/Pauline_control/src/lz4.c:1133-1159 | the final literals complete a conforming block that means the whole input |
| Lz4Decompress.DecompressSafe | Softwares_Pauline/Pauline_control/src/lz4.c:1634-2011 | for every byte string and capacity, the verdict on the block says which of three outcomes happens; a non-negative result is at most the capacity and the bytes are what the block means to 32-bit counters, and what it means to the format if and only if no length field wraps; the cursor is lost if and only if the end of a match that is reached wraps |
| Lz4Decompress.CopyMatchTail | Softwares_Pauline/Pauline_control/src/lz4.c:1905-1998 | a copy command with all its checks in their order, addresses and 32-bit lengths included, ends as its verdict says; when it goes on, the output has grown by the overlapping copy |
| Lz4Counters.AgreesExactly | Softwares_Pauline/Pauline_control/src/lz4.c:1605-1625 | what 32-bit counters decode is what the format says if and only if no length field read on the way reaches 2^32 |
| Lz4Counters.WrappedBlockIsAccepted | Softwares_Pauline/Pauline_control/src/lz4.c:1859-1903 | a block with a literal length of 2^32 + 15 is decoded to its last fifteen bytes, and means nothing to the format |
| Lz4Counters.ConformingAccepted | Softwares_Pauline/Pauline_control/src/lz4.c:435-441 | every block with legal end-of-block margins is accepted by a buffer it fits, and none of its length fields wraps |
| Lz4Counters.ShortBlocksFit | Softwares_Pauline/Pauline_control/src/lz4.c:1605-1625 | below 16 843 000 bytes no length field can wrap |
| Lz4Astray.AstrayExactly | Softwares_Pauline/Pauline_control/src/lz4.c:1916-1953 | the decoder goes astray if and only if a match that is reached, with the margins a copy takes, ends on one of the addresses 2^32 to 2^32 + 3 |
| Lz4Astray.AstrayIsReached | Softwares_Pauline/Pauline_control/src/lz4.c:1916-1953 | for every place of the output buffer, a block that leads astray, of ten bytes and one for each 255 that the buffer lies lower |
| Lz4Astray.AstrayNeeds | Softwares_Pauline/Pauline_control/src/lz4.c:1916-1953 | none does while buffer address, capacity and 255 times the length of the block stay below 2^32 - 19 |
| Lz4Decompress.ReadVariableLength | Softwares_Pauline/Pauline_control/src/lz4.c:1605-1625 | for every input: the extension summed up modulo 2^32, the cursor behind it, and exactly when each of the two errors is reported |
| Lz4Decompress.CopyMatchInto | Softwares_Pauline/Pauline_control/src/lz4.c:1952-1998 | for every offset and every length whose end is an address, the block copies give the byte-by-byte overlapping copy; refused exactly when it would enter the last five bytes |
| Lz4Decompress.DistanceIsMultiple | Softwares_Pauline/Pauline_control/src/lz4.c:350-351 | the two adjustment tables make the source distance a multiple of the offset, at least eight and at most eight more |
| Lz4Decompress.ReplaysExtends | Softwares_Pauline/Pauline_control/src/lz4.c:1971-1997 | copying from any multiple of the offset back continues an overlapping match |
| Lz4Decompress.Shortcut | Softwares_Pauline/Pauline_control/src/lz4.c:1819-1858 | the two-stage shortcut, with its over-long copies, decodes the sequence it was entered for |
| Lz4Format.ReplaysIsCopyMatch | Softwares_Pauline/Pauline_control/src/lz4.c:1962-1997 | a region that repeats the bytes one offset back is the overlapping copy |
| Lz4Format.ConformsDecodes | Softwares_Pauline/Pauline_control/src/lz4.c:435-441 | a conforming block has a meaning, of the length it was made for |
| Lz4Blocks.SequenceReads | Softwares_Pauline/Pauline_control/src/lz4.c:966-1067 | the written form of a sequence is read back as that sequence |
| Lz4Blocks.SequenceAdds | Softwares_Pauline/Pauline_control/src/lz4.c:966-1067 | appending a sequence to output that stands for a prefix of the input makes it stand for a longer prefix |
| Lz4Memory.WildCopyIn | Softwares_Pauline/Pauline_control/src/lz4.c:341-348 | the block copy writes the requested bytes and changes nothing before them |
| Lz4Memory.WildCopyWithin | Softwares_Pauline/Pauline_control/src/lz4.c:341-348 | inside the output every byte becomes the one at the distance of the two cursors |
| Flux.PulsesExact | Softwares_Pauline/Pauline_control/src/stream_hfe.c:288-350 | the positions list is increasing and holds exactly the cells with a pulse |
| Flux.RebuildsWords | Softwares_Pauline/Pauline_control/src/stream_hfe.c:136-136 | setting the pulses of a capture in blank words rebuilds it |
| Flux.FindsPulses | Softwares_Pauline/Pauline_control/src/stream_hfe.c:136-136 | the pulses found in rebuilt words are the ones that were set |
| Flux.PositionsOfGaps | Softwares_Pauline/Pauline_control/src/stream_hfe.c:94-137 | the running sum of the gaps gives the positions back, in the 32-bit counter |
| Flux.GapCode | Softwares_Pauline/Pauline_control/src/stream_hfe.c:94-134 | each code is read back, with its length, as the gap cut down to 28 bits |
| Flux.GapBits | Softwares_Pauline/Pauline_control/src/stream_hfe.c:297-338 | a code is, read as one number, the gap behind the leading bits of its size, 7, 14, 21 or 28 bits in the fewest bytes |
| Flux.GapsCode | Softwares_Pauline/Pauline_control/src/stream_hfe.c:92-139 | a stream of codes is read back gap by gap |
| TrackCodec.ConvertTrack | Softwares_Pauline/Pauline_control/src/stream_hfe.c:251-358 | for every track size, the cells rounded up to whole words, the encoder writes the codes of the gaps of exactly the pulses of one side, counts them, and needs at most one byte per cell |
| TrackCodec.DecodeStream | Softwares_Pauline/Pauline_control/src/stream_hfe.c:64-146 | the decoder adds exactly the pulses of the stream to one side and touches no other word of the image, as far behind the track as the pulses go |
| TrackCodec.WordsApart | Softwares_Pauline/Pauline_control/src/stream_hfe.c:84-85 | different places of a track have different words |
| TrackCodec.ApartExactly | Softwares_Pauline/Pauline_control/src/stream_hfe.c:84-85 | the words the decoder may change for one side of a track belong to no other side or track if and only if the track size is a multiple of four bytes |
| TrackCodec.CopySide | Softwares_Pauline/Pauline_control/src/stream_hfe.c:64-358 | encoding a side of one image and decoding it into a blank side of another gives the same words if and only if no gap is 2^28 cells or more, and no word of the other side or another track changes |
| TrackCodec.SaturatedPositions | Softwares_Pauline/Pauline_control/src/stream_hfe.c:321-337 | decoding cut-down gaps gives the positions back exactly when none was cut down |
| TrackCodec.ReloadedIsDecoded | Softwares_Pauline/Pauline_control/src/stream_hfe.c:64-358 | every stream the encoder writes may be given to the decoder |
| TrackCodec.TrackRoundTrip | Softwares_Pauline/Pauline_control/src/stream_hfe.c:64-358 | a track comes back exactly if and only if no gap is 2^28 cells or more |
| TrackCodec.LongGapIsCut | Softwares_Pauline/Pauline_control/src/stream_hfe.c:327-336 | a track with one pulse behind 2^28 empty cells comes back with the pulse one cell earlier |
| TrackCodec.ShortTrackRoundTrip | Softwares_Pauline/Pauline_control/src/stream_hfe.c:64-358 | every track of up to 2^28 cells comes back |
| TrackCodec.StreamRoundTrip | Softwares_Pauline/Pauline_control/src/stream_hfe.c:64-358 | encoding what was decoded from a canonical stream finds the same pulses |
| FastCodec.PrepareLut | Softwares_Pauline/Pauline_control/src/fpga.c:49-64 | the table holds, for a word whose only pulse is in cell b, b and 16 - b, and 0 for every other word |
| FastCodec.LutMeaning | Softwares_Pauline/Pauline_control/src/fpga.c:49-64 | an entry is not 0 exactly for a word with one pulse |
| FastCodec.FastGapsExact | Softwares_Pauline/Pauline_control/src/stream_hfe.c:386-495 | without double pulses, the word-wise encoder produces the gaps of the capture |
| FastCodec.EncodersAgree | Softwares_Pauline/Pauline_control/src/stream_hfe.c:251-503 | the two encoders agree in bytes and count if and only if no word holds two pulses |
| FastCodec.DoublePulseIsLost | Softwares_Pauline/Pauline_control/src/stream_hfe.c:386-495 | the word 0xC000 has pulses in its first two cells, of which the fast encoder writes one |
| FastCodec.CellsConserved | Softwares_Pauline/Pauline_control/src/dump_chunk.c:71-181 | every cell is in a gap or in the carry, except the sixteen of each word with several pulses |
| FastCodec.FastSize | Softwares_Pauline/Pauline_control/src/dump_chunk.c:61-181 | at most one byte per word, plus what the carry-in has earned |
| FastCodec.ConvertWords | Softwares_Pauline/Pauline_control/src/dump_chunk.c:69-182 | the loop of the fast encoders against the word-by-word definition: bytes, count, carry |
| FastCodec.FastConvertTrack | Softwares_Pauline/Pauline_control/src/stream_hfe.c:360-503 | the fast track encoder fits its buffer of half the track size, multi-pulse words and odd sizes included |
| DumpChunk.WholeChunk | Softwares_Pauline/Pauline_control/src/dump_chunk.c:61-64 | the encoder looks at the words of the chunk, and no more, exactly when the size is a multiple of 32 bytes |
| DumpChunk.FastConvertChunk | Softwares_Pauline/Pauline_control/src/dump_chunk.c:50-190 | a chunk is encoded from the carry it is given, within its rounded buffer for any carry |
| DumpChunk.ChunksJoin | Softwares_Pauline/Pauline_control/src/dump_chunk.c:50-190 | encoding piece by piece with the carry handed on gives the bytes and the carry of encoding in one go |
| DumpChunk.PartsJoin | Softwares_Pauline/Pauline_control/src/dump_chunk.c:50-190 | the same for a capture cut into any number of pieces of any size |
| DumpChunk.SamplesReported | Softwares_Pauline/Pauline_control/src/dump_chunk.c:308-308 | the reported number of samples is the sum of the gaps exactly when as many words held several pulses as words behind the chunk were looked at |
| ChunkLayout.WriteMetadata | Softwares_Pauline/Pauline_control/src/dump_chunk.c:280-319 | the text, NUL-terminated and padded to four bytes |
| ChunkLayout.WritePacked | Softwares_Pauline/Pauline_control/src/dump_chunk.c:321-354 | a packed block: header fields, an LZ4 block with its compression bound of room, padding to four bytes; nothing before it changes |
| ChunkLayout.WriteBlocks | Softwares_Pauline/Pauline_control/src/dump_chunk.c:272-361 | in a buffer of the computed size all three blocks fit, with room for the checksum |
| ChunkLayout.SplitIo | Softwares_Pauline/Pauline_control/src/dump_chunk.c:339-343 | every second word, starting with the second |
| ChunkLayout.GenerateChunk | Softwares_Pauline/Pauline_control/src/dump_chunk.c:233-369 | the finished chunk: signature, size, number, exactly three aligned blocks between byte 12 and the checksum, and the checksum; the carry for the next chunk |
| ChunkLayout.ThreeBlocks | Softwares_Pauline/Pauline_control/src/dump_chunk.c:317-361 | walking by header and payload size visits exactly the three blocks and stops at the checksum |
| ChunkLayout.ChunkReads | Softwares_Pauline/Pauline_control/src/dump_chunk.c:233-369 | a reader that checks signature, size and checksum gets the gaps and the second channel out of every chunk |
| ChunkLayout.ChunkStarts | Softwares_Pauline/Pauline_control/src/dump_chunk.c:363-369 | a chunk starts with "CHKH", its blocks are of type 0, 2 and 1, and its checksum starts from an empty register |
| DumpDrain.WindowStep | Softwares_Pauline/Pauline_control/src/fpga.c:1052-1062 | the windows follow each other without gap or overlap, full ones are multiples of 32 bytes, and no word past the mapped pages is read |
| DumpDrain.Fpga.GetNextAvailableStreamChunk | Softwares_Pauline/Pauline_control/src/fpga.c:1025-1070 | a chunk of the next window, numbered, with offset and carry moved on; nothing, and no change, exactly when the index timed out |
| DumpDrain.ReadDisk | Softwares_Pauline/Pauline_control/src/script.c:711-759 | for a buffer that is not empty the drain loop ends; without a timeout its chunks hold the whole capture, with one what came before |
| DumpDrain.DrainEndsExactly | Softwares_Pauline/Pauline_control/src/script.c:720-759 | the loop over the chunks ends if and only if the buffer is not empty |
| DumpCells.DumpIsLossless | Softwares_Pauline/Pauline_control/src/dump_chunk.c:50-190 | what is rebuilt from the gaps of a dump is the capture if and only if no word of it holds two pulses and no gap between its pulses is 2^28 cells or more |
| DumpCells.CapturedComesBack | Softwares_Pauline/Pauline_control/src/dump_chunk.c:50-190 | captured words without double pulses come back, whatever the words looked at behind them hold, if and only if no gap is 2^28 cells or more, the one to a pulse behind them included |
| DumpCells.LostPulseMadeUpFor | Softwares_Pauline/Pauline_control/src/dump_chunk.c:50-190 | with double pulses they may come back by accident: 0xC000 followed by 0x4000 does |
| DumpDrain.FinishedDump | Softwares_Pauline/Pauline_control/src/script.c:711-759 | from the chunks of a finished dump a reader gets the whole second channel, all cells looked at exactly under the condition of DumpIsLossless, and the captured ones exactly under that of CapturedComesBack |
| DumpDrain.DrainAndRead | Softwares_Pauline/Pauline_control/src/script.c:711-759 | draining and reading together: an error exactly when a call timed out; otherwise the second channel as captured, and the cells exactly under those conditions |
| Crc32.TableIsShift8 | Softwares_Pauline/Pauline_control/src/std_crc32.c:50-94 | each of the 256 entries is eight steps of the reflected polynomial 0xEDB88320 |
| Crc32.StdCrc32 | Softwares_Pauline/Pauline_control/src/std_crc32.c:96-107 | the table loop computes the bitwise register for every message and start value |
| Crc32.CrcConcat | Softwares_Pauline/Pauline_control/src/std_crc32.c:96-107 | the checksum of a concatenation is that of the second part started with that of the first |
| Crc32.RegisterInjective | Softwares_Pauline/Pauline_control/src/std_crc32.c:96-107 | different registers stay different through any message |
| Crc32.BurstDetected | Softwares_Pauline/Pauline_control/src/std_crc32.c:96-107 | two messages that differ only within four consecutive bytes never share a checksum |
| Crc32.StoredChecksumResidue | Softwares_Pauline/Pauline_control/src/dump_chunk.c:367-369 | a block followed by its stored checksum always has the checksum 0x2144DF1C |
| Crc32.CheckValue | Softwares_Pauline/Pauline_control/src/std_crc32.c:96-107 | the digits from 1 to 9 have the checksum 0xCBF43926 |
| Mailbox.InBuffer.PushInMsg | Softwares_Pauline/Pauline_control/src/messages.c:365-380 | the ring as a queue: the first 511 characters of the message, all of them if it is not longer, join, and of 63 messages the oldest is lost |
| Mailbox.InBuffer.TakeMessage | Softwares_Pauline/Pauline_control/src/messages.c:397-421 | the oldest message leaves the queue, if there is one |
| Mailbox.StepKeepsFifo | Softwares_Pauline/Pauline_control/src/messages.c:361-426 | every step keeps: the queue is what was pushed last, at most 63; older messages were delivered, in order, or dropped |
| Mailbox.StepKeepsWakeUp | Softwares_Pauline/Pauline_control/src/messages.c:64-92 | every step keeps: nobody waits for a message that is there unless a producer has yet to set or signal the event |
| Mailbox.MailboxSafe | Softwares_Pauline/Pauline_control/src/messages.c:361-426 | after any interleaving of any number of producers with the script thread: both; entry k of the log is the first 511 characters of what push k of the run was given; every message that was dropped was dropped by a push that found it the oldest of 63, every delivered one was taken as the oldest |
| Mailbox.SleepsOnlyOnEmpty | Softwares_Pauline/Pauline_control/src/messages.c:384-426 | with no producer under way the script thread sleeps only on an empty queue |
| Mailbox.NeverStuck | Softwares_Pauline/Pauline_control/src/messages.c:384-426 | a waiting script thread with a message gets the oldest one within four steps of its own and of one producer under way |
| DirtyPages.BuildPage | Linux_Pauline/targets/Pauline_RevA_de10-nano/config/patches/ssd1307fb.c:335-361 | what is sent for a page is the header that PaintsExactly is about, and behind it the eight-row bit transpose of the frame buffer |
| Controller.PaintsExactly | Linux_Pauline/targets/Pauline_RevA_de10-nano/config/patches/ssd1307fb.c:337-344 | read as control bytes, commands and data, the transfer of a page puts its bytes in that page from the segment offset on, whatever the controller's state, and changes nothing else, if and only if the offset is below 16 |
| Controller.StoresAll | Linux_Pauline/targets/Pauline_RevA_de10-nano/config/patches/ssd1307fb.c:344-358 | data bytes go to consecutive columns of the page, and no others |
| DirtyPages.FindPage | Linux_Pauline/targets/Pauline_RevA_de10-nano/config/patches/ssd1307fb.c:317-324 | the search ends at the nearest marked page, around the end of the eight flags |
| DirtyPages.StepKeeps | Linux_Pauline/targets/Pauline_RevA_de10-nano/config/patches/ssd1307fb.c:317-411 | every step keeps: each page is marked, or a writer that changed this page has yet to mark it, or what is shown or has been read of it so far is what the frame buffer holds |
| DirtyPages.DisplaySafe | Linux_Pauline/targets/Pauline_RevA_de10-nano/config/patches/ssd1307fb.c:317-411 | the same after any interleaving of byte writes, marks and the bit-by-bit update |
| DirtyPages.AtRest | Linux_Pauline/targets/Pauline_RevA_de10-nano/config/patches/ssd1307fb.c:263-411 | a page that is not marked, not under way, and not changed by a writer since its last mark is shown as the frame buffer holds it, however busy the writers are on other pages |
| DirtyPages.ComesToRest | Linux_Pauline/targets/Pauline_RevA_de10-nano/config/patches/ssd1307fb.c:317-366 | after the writers, as many updates as marked pages bring the whole display up to date |
| DirtyPages.TakenInTurn | Linux_Pauline/targets/Pauline_RevA_de10-nano/config/patches/ssd1307fb.c:823-835 | with a power-of-two number of pages a marked page is taken when its turn comes, however often pages are marked again |
| DirtyPages.StarvingRun | Linux_Pauline/targets/Pauline_RevA_de10-nano/config/patches/ssd1307fb.c:833-833 | with 3, 5, 6 or 7 pages the third page is never taken in an animation of any length |
| DirtyPages.FairExactly | Linux_Pauline/targets/Pauline_RevA_de10-nano/config/patches/ssd1307fb.c:833-833 | every marked page is taken within as many updates as there are pages if and only if their number is a power of two |
| DirtyPages.Display.Write | Linux_Pauline/targets/Pauline_RevA_de10-nano/config/patches/ssd1307fb.c:380-414 | how much is written where, the position behind it, when it is refused; and that a write is one run of byte copies and one mark |
| DirtyPages.RunWrite | Linux_Pauline/targets/Pauline_RevA_de10-nano/config/patches/ssd1307fb.c:401-411 | the steps of a write that nobody interrupts change exactly its bytes and mark every page |
| DirtyPages.Display.FramesHandler | Linux_Pauline/targets/Pauline_RevA_de10-nano/config/patches/ssd1307fb.c:823-835 | an update as one run of the steps: one page transferred, and shown as the controller reads the transfer, its mark cleared, the next start; nothing without marks |
| DirtyPages.RunUpdate | Linux_Pauline/targets/Pauline_RevA_de10-nano/config/patches/ssd1307fb.c:263-367 | the steps of an update that nobody interrupts: what changes and what does not |
| Utf8.AcceptsExactly | Softwares_Pauline/wsServer/src/utf8.c:32-59 | in every state the table accepts exactly what the grammar allows to follow |
| Utf8.ValidExactly | Softwares_Pauline/wsServer/src/utf8.c:70-78 | accepted if and only if the string is a concatenation of well-formed characters of section 4 of RFC 3629 |
| Utf8.IsUtf8Len | Softwares_Pauline/wsServer/src/utf8.c:70-78 | the loop decides that |
| Utf8.IsUtf8LenState | Softwares_Pauline/wsServer/src/utf8.c:80-88 | the loop returns the state behind the string |
| Utf8.FragmentsCompose | Softwares_Pauline/wsServer/src/utf8.c:80-88 | validating in fragments, handing the state on, is validating the whole |
| Utf8.RejectAbsorbs | Softwares_Pauline/wsServer/src/utf8.c:32-59 | once rejected, rejected for good |
| Utf8.RejectedExactly | Softwares_Pauline/wsServer/src/ws.c:1356-1368 | a fragment is rejected if and only if nothing that could follow would make the text valid |
| Utf8.CodepointAtAccept | Softwares_Pauline/wsServer/src/utf8.c:50-59 | behind a character the code point is the number it stands for |
| Utf8.EncodingExact | Softwares_Pauline/wsServer/src/utf8.c:50-59 | every scalar value has an encoding that is a character and stands for it |
| Utf8.ScalarExact | Softwares_Pauline/wsServer/src/utf8.c:50-59 | every character is the encoding of the scalar value it stands for |
| ByteReader.Reader.NextByte | Softwares_Pauline/wsServer/src/ws.c:988-1005 | the next byte of the concatenation of all chunks, however recv cuts it; -1 and the error mark at its end |
| WsFrames.FrameReads | Softwares_Pauline/wsServer/src/ws.c:1074-1158 | reading the bytes of a frame, with any mask and any form of its length, gives the frame back |
| WsFrames.FrameIs | Softwares_Pauline/wsServer/src/ws.c:1074-1158 | what is read as a frame is the bytes of that frame |
| WsFrames.XorExactly | Softwares_Pauline/wsServer/src/ws.c:1157-1157 | masking a byte is the exclusive or bit by bit, and no other byte has these bits |
| WsFrames.MaskedBits | Softwares_Pauline/wsServer/src/ws.c:1157-1157 | byte i of a payload is changed in the bits of mask byte i modulo 4, and in no others |
| WsExamples.MaskedText | Softwares_Pauline/wsServer/src/ws.c:1196-1472 | the masked "Hello" of section 5.7 of RFC 6455 is received as that text |
| WsExamples.MaskedPing | Softwares_Pauline/wsServer/src/ws.c:1196-1472 | a masked ping is answered with a pong that carries its payload |
| WsExamples.MaskedPong | Softwares_Pauline/wsServer/src/ws.c:1196-1472 | a masked pong is passed over |
| WsExamples.InvalidText | Softwares_Pauline/wsServer/src/ws.c:1356-1368 | text that is not valid is answered with close code 1007 |
| WsExamples.ServerBinary | Softwares_Pauline/wsServer/src/ws.c:491-560 | the headers of section 5.7 of RFC 6455 for 256 bytes and for 64 KiB |
| WsExamples.ServerText | Softwares_Pauline/wsServer/src/ws.c:491-560 | the unmasked text and ping of section 5.7 of RFC 6455 |
| WsExamples.ClientText | Softwares_Pauline/wsServer/extra/toyws/toyws.c:185-258 | the eleven bytes the client sends for "Hello" |
| WebSocket.LegalIsReceived | Softwares_Pauline/wsServer/src/ws.c:1196-1472 | legal frames, with control frames anywhere between fragments, are received as their message, with a pong for each ping; what follows is not touched |
| WebSocket.ReceivedIsLegal | Softwares_Pauline/wsServer/src/ws.c:1196-1472 | a message that is received stands in the stream as legal frames |
| WebSocket.ReceivesExactly | Softwares_Pauline/wsServer/src/ws.c:1196-1472 | a message is received if and only if the stream starts with legal frames that make it, text valid as section 8.1 of RFC 6455 asks |
| WebSocket.RefusedAnywhere | Softwares_Pauline/wsServer/src/ws.c:1248-1329 | reserved bits and opcodes, stray continuations, nested data frames, fragmented or long control frames: failure wherever they come, after answering the pings before them |
| WebSocket.FragmentStep | Softwares_Pauline/wsServer/src/ws.c:1331-1371 | a fragment in front of frames is legal exactly when they are legal behind it |
| WsServer.ReadFrame | Softwares_Pauline/wsServer/src/ws.c:1052-1183 | length, masks and payload, refused exactly when the stream ends or the message grows over 16 MiB |
| WsServer.ReadHeader | Softwares_Pauline/wsServer/src/ws.c:1234-1329 | the checks of the first two bytes refuse exactly the frames that are to be refused |
| WsServer.TakeFrame | Softwares_Pauline/wsServer/src/ws.c:1331-1457 | what each kind of frame does to the message under way |
| WsServer.NextFrame | Softwares_Pauline/wsServer/src/ws.c:1196-1472 | the whole loop: its result, replies and rest depend on the bytes of the stream only |
| WsServer.SendFrame | Softwares_Pauline/wsServer/src/ws.c:491-560 | the bytes of a frame of the server, in the shortest form of its length |
| ToyWs.TwsSendFrame | Softwares_Pauline/wsServer/extra/toyws/toyws.c:185-258 | the bytes of a masked frame of the client |
| ToyWs.ServerReceives | Softwares_Pauline/wsServer/extra/toyws/toyws.c:185-258 | the server receives what the client sends, text or binary, if and only if it is not over 16 MiB and, as text, valid |
| ToyWs.TwsReceiveFrame | Softwares_Pauline/wsServer/extra/toyws/toyws.c:324-410 | what the client makes of a stream, and that it reports every other case as an error |
| ToyWs.ClientReceives | Softwares_Pauline/wsServer/extra/toyws/toyws.c:324-410 | the client receives a frame of the server if and only if it is text or binary, or empty and not a close frame |
| ToyWs.PingIsMisread | Softwares_Pauline/wsServer/extra/toyws/toyws.c:374-410 | a ping of the server with a payload is delivered as a frame of the bytes that follow it |
| Sha1.ProcessBlock | Softwares_Pauline/wsServer/src/sha1.c:232-317 | the loops over the schedule and the four groups of rounds compute the compression of section 6.1 of RFC 3174 |
| Sha1.BlocksConcat | Softwares_Pauline/wsServer/src/sha1.c:189-206 | compressing a concatenation of whole blocks is compressing its parts in turn |
| Sha1.Context.Input | Softwares_Pauline/wsServer/src/sha1.c:159-209 | the context then holds the longer message: 64-bit length, whole blocks compressed, the rest in the block; a message of 2^64 bits or more, or input after the result, is marked |
| Sha1.Context.PadMessage | Softwares_Pauline/wsServer/src/sha1.c:343-389 | in both cases the blocks compressed are the message, 0x80, the fewest zeros and the 64-bit length |
| Sha1.Context.Result | Softwares_Pauline/wsServer/src/sha1.c:101-137 | the digest of the message, the first time and every later time; what a digest is, DigestOfAbc and DigestOfFiftySix pin down |
| Sha1.PadsInOne | Softwares_Pauline/wsServer/src/sha1.c:371-388 | padding that fits the block that was begun |
| Sha1.PadsInTwo | Softwares_Pauline/wsServer/src/sha1.c:352-388 | padding that takes a second block |
| Sha1.DigestOfPortions | Softwares_Pauline/wsServer/src/sha1.c:59-209 | however a message is cut into portions, the digest is that of the message |
| Sha1Examples.DigestOfAbc | Softwares_Pauline/wsServer/src/sha1.c:232-317 | TEST1 of section 7.3 of RFC 3174: the digest of "abc", word by word and round by round |
| Sha1Examples.DigestOfFiftySix | Softwares_Pauline/wsServer/src/sha1.c:232-317 | TEST2, a message of two blocks |
| Sha1Examples.ConstantsAreRoots | Softwares_Pauline/wsServer/src/sha1.c:234-240 | the four constants are the square roots of 2, 3, 5 and 10 times 2^30, rounded down |
| Sha1Examples.RotlBit | Softwares_Pauline/wsServer/src/sha1.c:37-38 | a rotation moves each bit by as many places, around the end of the word |
| Sha1Examples.WordOfBytes | Softwares_Pauline/wsServer/src/sha1.c:130-134 | the four bytes of a word, the most significant first, make it up again |
| Base64.BuildTable | Softwares_Pauline/wsServer/src/base64.c:104-107 | the decoding table inverts the alphabet and marks everything else |
| Base64.Alphabet | Softwares_Pauline/wsServer/src/base64.c:14-15 | the characters are the letters, the digits, + and /, in this order |
| Base64.QuadNumber | Softwares_Pauline/wsServer/src/base64.c:50-76 | four characters are the digits to base 64 of three bytes; pads stand for what is missing |
| Base64.EncodedLength | Softwares_Pauline/wsServer/src/base64.c:54-79 | four characters for three bytes and a line feed behind every line of 72 |
| Base64.LineOf72 | Softwares_Pauline/wsServer/src/base64.c:54-79 | a line holds 72 characters, those of 54 bytes |
| Base64.EncodedFits | Softwares_Pauline/wsServer/src/base64.c:37-46 | characters, line feeds and NUL fit the size computed beforehand |
| Base64.OverflowFound | Softwares_Pauline/wsServer/src/base64.c:37-41 | the check for an overflow of the 32-bit size refuses exactly the inputs for which the size is wrong, those of 2^30 bytes or more |
| Base64.Base64Encode | Softwares_Pauline/wsServer/src/base64.c:29-84 | the encoder, within its buffer; no result exactly when the size overflows |
| Base64.Base64Decode | Softwares_Pauline/wsServer/src/base64.c:97-155 | the decoder, within its buffer |
| Base64.RoundTrip | Softwares_Pauline/wsServer/src/base64.c:29-155 | decoding what was encoded gives it back if and only if it is not empty |

## Left out

- Lz4Decompress.DecompressSafe: the output buffer lies clear of the first 64 KiB and of the last 32 bytes of a 32-bit address space (`Placed`), so that the sums of short lengths and offsets stay inside it, and the input clear of its last bytes; what happens after the outcome `Lost` is not followed.
- Lz4Compress.CompressGeneric: the table is an array of indices; positions and the search step are unbounded integers, and an acceleration so large that its shift overflows 32 bits is not modelled.
- Lz4Decompress.CopyMatchInto: indices are integers; the address checks before it are part of CopyMatchTail.
- Lz4Compress.Count: counting trailing zero bits of an exclusive or is the comparison of the bytes of two words.
- ChunkLayout.WritePacked: the LZ4 block is made in a buffer of its own and copied into place; the source hands the compressor the place itself, with a capacity that still counts the header in front of it.
- ChunkLayout.GenerateChunk: the text of the metadata is an argument of less than 8192 bytes.
- Base64.Base64Encode: size_t has 32 bits, as on the board.
- DumpDrain.ReadDisk: the hardware is reduced to a fixed buffer and, for each call, whether the index timed out; the wait for data and network and file output are left out. It requires a buffer that is not empty, because with an empty one the loop never ends, as DrainEndsExactly proves.
- DumpDrain.FinishedDump: captures below 2^30 bytes, so that the reader's 32-bit position does not run over.
- TrackCodec.ConvertTrack: track sizes other than 0 whose number of cells fits a 32-bit counter.
- FastCodec.FastConvertTrack: track sizes of at least two bytes; with less, its buffer is empty and it looks at a word all the same.
- TrackCodec.DecodeStream: streams whose pulses fall inside the image; the source checks nothing, and outside there is nothing a model could say.
- Mailbox.InBuffer.PushInMsg: slots hold strings; the unterminated copy of a message of 511 characters into the caller's buffer is not modelled, nor are disabled clients.
- DirtyPages.BuildPage: the height of the display is a multiple of eight rows.
- DirtyPages.Display.FramesHandler: the segment offset is below 16 and the width fits behind it, as PaintsExactly asks; the controller is read in page addressing, with the commands for page and column, and no others.
- DirtyPages.StepKeeps: locks are always obtained, sending to the controller does not fail, and there is one work item.
- Utf8.IsUtf8Len: the variant for NUL-terminated strings is the same loop.
- WebSocket.ReceivesExactly: payload lengths are unbounded, which for lengths below 2^63, as section 5.2 of RFC 6455 requires, is what the 64-bit sums give; the bookkeeping of pong identifiers and failing sends are left out.
- WsServer.NextFrame: operands are read from left to right; the closing state does not change within a call; growing the message buffer is concatenation.
- ToyWs.TwsReceiveFrame: the caller's buffer and its growth, and the null buffer an empty frame would be written to.
- Sha1.Context.Result: null arguments, and the copy of the digest word by word.
- Failing memory allocation, here and everywhere.
- LZ4 dictionaries, streaming, limited and partial modes, the fast loop of other targets.
- The per-client output rings of the mailbox, which have no common lock.
- Broadcast, handshake, ping identifiers, time-outs and sockets of the server.
- Probe, initialisation and bus traffic of the display driver; drawing primitives are writes like any other.
- Sound, screens, drive control, index configuration in floating point, scripts: no algorithm that would add to the above.
