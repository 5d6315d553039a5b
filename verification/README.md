# Verified model of the server's codecs, response buffering, shared cache and calendar

This project models, in Dafny, the parts of the server whose correctness rests on intricate
arithmetic or long-lived state, and proves what they promise for all inputs and all runs.

| component | modules | main results |
|---|---|---|
| FastLZ block compressor and decompressor, both levels | `Bytes`, `FastLzFormat`, `FastLzGreedy`, `FastLzCompress`, `FastLzDecompress`, `FastLz` | every non-empty input round-trips; the block is exactly the one of the greedy tokens of the input, with the longest match wherever one begins; decompression of arbitrary bytes executes exactly the tokens the block means and never writes past `maxout`; output is at most n + 1 + (n-1)/32 bytes |
| Chunked responses | `ChunkedBody`, `ResponseBuffers`, `PartialWrite`, `WriteShapes`, `Transmission`, `ResponsePlan`, `Response`, `ResponseRun`, `ResponseExample` | every chunked request (one that flushes something or overflows the buffers) finishes, and its wire follows from script, sizes and socket; it is exactly the intended stream, which decodes to what the script echoed, if and only if every write call is harmless; with the loop's offset cleared on every round it always is; a response for which the loop as written goes wrong |
| YAC shared cache | `YacTable`, `YacAllocator`, `YacSlots`, `YacStorage`, `YacRun`, `YacInterleaved` | every run agrees with a plain map, an undisturbed update is hit until it expires, and in every interleaving of any number of processes every hit was stored |
| Calendar | `Calendar`, `DateObject` | day numbers and Gregorian dates, and day numbers and ISO week dates, are mutually inverse over all integers and count days one by one |
| RESP client | `Powers`, `LuaNumber`, `Resp` | a reply comes back with its integers rounded to doubles, so exactly when it holds no null and doubles hold its integers; requests round-trip exactly when no argument is null |
| Form reader | `FormReader` | fields do not depend on how the body arrives, exactly when each arrives within fewer than 99 reads |
| MO catalogue reader | `MoCatalogue`, `MoLookup`, `MoExample` | which images are read, entry by entry, lengths that turn a read into a backward seek included; the byte ranges the tables name; lookup and plural selection from the image to the text |
| Base64 | `Base64` | decoding undoes encoding; encoding undoes decoding exactly on canonical strings |

Code that updates state in place is imperative here too: FastLZ, base64, the cache and the
response are loops and classes over arrays and fields, each proved against a function or predicate
on values, about which the theorems are stated.

## How the parts fit

**FastLZ.** A block means a list of tokens (`Literal`, `Match`, or `Cut` where the input breaks
off), and a token list expands to bytes by plain byte-by-byte copying. The compressor carries a
ghost token list whose encoding is what it has written and whose expansion is what it has read
(`Open`: a literal run still being filled; `Done`: between tokens). `FastLzGreedy` says as a function
of the input which match is taken at every position, how long it is, and how the table changes; the
compressor is proved to write exactly those tokens. The hash only proposes a candidate position, so
the round trip does not depend on its values; bytes looked up past the end of the input
read as 0, which level 2 needs for its table refresh. The decompressor keeps "what is written plus
what is still to parse" equal to the block's tokens. `strictAlign` selects between the byte copy
and the 16-bit word copy.

**Responses.** `ResponsePlan` tells from the script alone which pieces its echoes and flushes cut
the output into, and which buffers hold each piece with its size line and trailer (`Sends`). The
methods of `Epd` are proved to reach exactly those stages and buffers, and `Transmission` tells from
the sends and the socket what any number of calls of the write callback put on the wire
(`AfterCalls`). So `ResponseRun.Serve` promises a wire that is a function of size, header, script and
socket, for every script that flushes or overflows the buffers and every socket that never stops
taking bytes for good.

The write loop in `network_be_write` clears its offset `k` only when it is positive
(`src/network.c:1275`). When a write ends exactly on a buffer boundary the next round computes a
negative offset, which stays for the rest of that call, and a later round of the same call that
resumes inside a buffer offers that buffer from its start again. The model keeps this, and has a
switch `resets` for the loop that clears the offset on every round:

- A call writes the next bytes in order if and only if it is `Harmless`: wherever a round starts away
  from its position, the bytes taken there equal the bytes due (`PartialWrite.HarmlessExactly`). A
  finished response put exactly its stream on the wire if and only if all its calls were
  (`Transmission.FinishedExactly`, `ResponseRun.Serve`).
- With `resets`, or with at most one short write in each call, every call is harmless, so the wire
  decodes to what was echoed (`ResponseRun.Serve`).
- `ResponseExample.SpoiledResponse` is a response that goes wrong: one echo of 1017 bytes through
  buffers of 1024, and a socket that takes the header, one byte and then 1023. The first digit of
  the chunk size goes out twice, the last byte of the chunk never, and a strict reader finds no body
  in it.
- `WriteShapes` gives a condition on buffer lengths and counts alone, `Faithful`, that makes a call
  right whatever all of the buffers hold, if and only if it holds. A response's framing bytes are
  fixed, so for responses it is only sufficient.

**YAC.** The hashes and the checksum are arbitrary functions. The allocator keeps ghost lists of
blocks handed out since each segment was last recycled; the table knows nothing of recycling, so
a block may be overwritten under a slot, and correctness rests on the length and checksum in the
slot alone. In `YacInterleaved` copying and storing a slot are atomic, a block may hold any bytes
whenever it is read, and all else interleaves; two processes may then store one key twice, so the
table invariant of the sequential model is not claimed there.

Even a hit writes the access time into its block (`deps/yac/yac_storage.c:335`). After a recycle
(`deps/yac/yac_allocator.c:131-134`) that block may begin inside the last bytes of another key's
newer block, so a lookup of one key can spoil another. In a segment of 128-byte blocks that started
over, a value of 120 bytes lies in bytes 12 to 131 of its new block at 0, which is written up to
byte 134; an older block at 128, whose length and data lie from 136 on, still hits and rewrites
bytes 128 to 135. The theorem that an update stays hit therefore allows only lookups of its own
key, and lookups that miss, in between.

**MO catalogues.** The input function takes a count that is not positive for a relative seek, so a
string whose length word is 2^31 - 1 or more is "read" by seeking back, and left uninitialised.
`MoCatalogue.Readable` says exactly which images are decoded, by the position after every seek and
read; `MoCatalogue.ReadableExactly` says it entry by entry: a string lies inside, or has such a
length and offset + length + 1 is at least 2^32. It asks that no string of such a length be said to
be at 2^31 or beyond, where success depends on the position reached before. `MoExample` is an image
of 37 bytes that is decoded although its key does not lie inside.

**Numbers in Lua.** `tonumber` gives a double. `LuaNumber.ToDouble` is the nearest one, ties to an
even significand; lengths are far below 2^53 and exact, integer replies need not be
(`Resp.RoundedInteger`).

**Where the code differs from its description.** `yac_storage_startup` doubles the table size
only when there is room for no slot at all, where it settles on two (`YacTable.SlotsSize`).
`lua-libs/redis.lua:9` takes `null` from a global that nothing defines, so a null reply is the nil
that also signals failure, and a null inside an array or a pipeline ends the read. A form field that needs 99 reads or more ends the form. The header of
FastLZ asks for at least 16 bytes of input; the code and the proof cover all lengths.

## Model

| member | source | states |
|---|---|---|
| FastLz.CompressThenDecompress | deps/fastlz/fastlz.c:134-625 | Compressing any non-empty input at either level and decompressing with room for it gives the input back; the block has at most n + 1 + (n-1)/32 bytes |
| FastLz.BlockRoundTrip | deps/fastlz/fastlz.c:145-160 | Any block of tokens that expand to x means x, under either level marker |
| FastLz.CompressAt | deps/fastlz/fastlz.c:162-173 | The block written is that of the input's greedy tokens, names the level asked for (1 under four bytes), and means the input whatever decoder limit is allowed; 0 exactly for empty input or an unknown level; nothing past the peak size is touched |
| FastLz.Compress | deps/fastlz/fastlz.c:134-143 | The same with level 1 below 65536 bytes and level 2 from there on |
| FastLz.DecompressAny | deps/fastlz/fastlz.c:145-160 | For arbitrary bytes: the result is what the block means within maxout, or 0 when it means nothing; nothing at or past maxout is written |
| FastLz.DocumentedBufferSuffices | deps/fastlz/fastlz.h:46-52 | A buffer 5% larger than the input and of at least 66 bytes covers every byte the compressor writes, including the marker written ahead |
| FastLzFormat.CopyBack | deps/fastlz/fastlz.c:541-594 | Every byte of an overlapping copy is the one `dist` before it, and what came before stays |
| FastLzFormat.CopyBackUnique | deps/fastlz/fastlz.c:541-594 | That property fixes the copy completely |
| FastLzFormat.ExpandAppend | deps/fastlz/fastlz.c:482-621 | Executing tokens one after the other composes; a failed token fails the block |
| FastLzFormat.FormsAtTheEdges | deps/fastlz/fastlz.c:355-420 | The bytes of all forms of a match at the edges of their ranges |
| FastLzFormat.ExcessRoundTrip | deps/fastlz/fastlz.c:504-507 | The level-2 length bytes (255 runs) are read back to the same length and end |
| FastLzFormat.LongMatchRoundTrip | deps/fastlz/fastlz.c:361-400 | Level-2 matches with extended length, near or far, are read back exactly |
| FastLzFormat.MatchRoundTrip | deps/fastlz/fastlz.c:486-520 | Every encodable match, either level, is read back with its length, distance and end |
| FastLzFormat.ParseEncoded | deps/fastlz/fastlz.c:482-621 | Parsing the encoding of a token list gives exactly that list |
| FastLzFormat.ParseBlockRoundTrip | deps/fastlz/fastlz.c:145-160 | A marked block selects its level and parses to its tokens, the marker bits being masked off |
| FastLzDecompress.ReadExcessLoop | deps/fastlz/fastlz.c:504-507 | The loop over length bytes reads what the format function reads |
| FastLzDecompress.ReadHeader | deps/fastlz/fastlz.c:486-520 | The match header is decoded as the format says, at both levels, with 16-bit far distances |
| FastLzDecompress.FillRun | deps/fastlz/fastlz.c:541-550 | A run fill is the overlapping copy at distance 1 |
| FastLzDecompress.CopyBytes | deps/fastlz/fastlz.c:557-560 | The byte copy repeats with its distance and touches nothing else |
| FastLzDecompress.MoveWord | deps/fastlz/fastlz.c:563-585 | A 16-bit move at distance at least 2 copies two bytes and nothing else |
| FastLzDecompress.MoveFourWords | deps/fastlz/fastlz.c:578-585 | Four words repeat with the distance, even when it is less than eight |
| FastLzDecompress.CopyWords | deps/fastlz/fastlz.c:563-591 | The word copy equals the byte copy for every distance from 2 on, odd addresses and lengths included |
| FastLzDecompress.CopyMatch | deps/fastlz/fastlz.c:541-594 | All three copies give the plain byte-by-byte overlapping copy |
| FastLzDecompress.CopyLiteral | deps/fastlz/fastlz.c:597-614 | The literal bytes are appended and nothing else changes |
| FastLzDecompress.Step | deps/fastlz/fastlz.c:482-621 | One token of arbitrary input: either executed, with the rest of the meaning left, or the block means nothing; never past maxout |
| FastLzDecompress.Decompress | deps/fastlz/fastlz.c:475-625 | The whole loop at either level computes the expansion of the parsed block, or 0 when that is undefined or too long |
| FastLzGreedy.Hash | deps/fastlz/fastlz.c:102 | A hash is a table index, for any position, with bytes past the end read as 0 |
| FastLzGreedy.HashSeesThree | deps/fastlz/fastlz.c:102 | Equal three bytes hash alike |
| FastLzGreedy.MixedValues | deps/fastlz/fastlz.c:102 | Two values of the mixture |
| FastLzGreedy.LongestExactly | deps/fastlz/fastlz.c:279-338 | The length taken is the one length up to the limit that repeats and cannot be made longer |
| FastLzGreedy.MoveExactly | deps/fastlz/fastlz.c:221-338 | A match is taken if and only if one begins there: a run at level 2, or else the position the table has, near enough and matching as many bytes as its distance asks; it is the longest |
| FastLzGreedy.EqualBytesTokens | deps/fastlz/fastlz.c:191-472 | Equal bytes at level 2 are two literals, one match over all but the last three, three literals |
| FastLzGreedy.EqualBytesTokens1 | deps/fastlz/fastlz.c:191-472 | At level 1 the same with the match taken from the table, in pieces |
| FastLzCompress.FindMatch | deps/fastlz/fastlz.c:221-274 | A candidate is accepted exactly under the code's tests, then really repeats over its first bytes within the distance limit; the table gains this position |
| FastLzCompress.ExtendRun | deps/fastlz/fastlz.c:285-296 | The run repeats up to the byte before the stop, and stops at a mismatch or the bound |
| FastLzCompress.ExtendCopy | deps/fastlz/fastlz.c:297-338 | A copy is extended to the longest repetition, the first eight comparisons without a look at the end |
| FastLzCompress.CompareEight | deps/fastlz/fastlz.c:300-325 | The unrolled comparisons stop at the first mismatch |
| FastLzCompress.ExtendMatch | deps/fastlz/fastlz.c:279-338 | Either way the length is that of the longest repetition up to the limit |
| FastLzCompress.Refresh | deps/fastlz/fastlz.c:424-428 | Two table entries are set and every entry stays below the position |
| FastLzCompress.MatchTokensExpand | deps/fastlz/fastlz.c:403-420 | Splitting a long level-1 match into pieces copies the same bytes as the whole |
| FastLzCompress.MatchTokensSize | deps/fastlz/fastlz.c:355-420 | A match always costs at most its length less one, so it also pays for the next marker |
| FastLzCompress.EmitExcess | deps/fastlz/fastlz.c:369-374 | The 255 runs are written as the format says |
| FastLzCompress.EmitShort | deps/fastlz/fastlz.c:411-420 | A level-1 match of either form is appended |
| FastLzCompress.EmitMatch1 | deps/fastlz/fastlz.c:402-420 | A level-1 match of any length is appended as its pieces |
| FastLzCompress.EmitLength | deps/fastlz/fastlz.c:360-378 | The level-2 length byte and its extension are appended |
| FastLzCompress.EmitMatch2 | deps/fastlz/fastlz.c:355-400 | A level-2 match of any length, near or far, is appended |
| FastLzCompress.PutLiteral | deps/fastlz/fastlz.c:434-443 | One literal byte extends the open run, and a run of 32 is closed and a new marker started |
| FastLzCompress.CloseRun | deps/fastlz/fastlz.c:340-349 | The literal count is patched back, or the unused marker dropped; what is written encodes tokens expanding to the input so far |
| FastLzCompress.PutMatch | deps/fastlz/fastlz.c:340-431 | A match is written after closing the run, as the tokens of its length and distance, and the encoding still expands to the input, within the size budget |
| FastLzCompress.Step | deps/fastlz/fastlz.c:208-444 | One round of the main loop is one turn of the greedy compressor: position, table, open run and tokens are those of `FastLzGreedy`, and encoding, expansion and budget are kept |
| FastLzCompress.CompressShort | deps/fastlz/fastlz.c:191-207 | Inputs under four bytes become one unmarked literal, a level-1 block |
| FastLzCompress.CompressLevel | deps/fastlz/fastlz.c:177-473 | The output is the marked block of the greedy tokens of the input, which expand to the input, within the size bound |
| FastLzCompress.EqualBytes | deps/fastlz/fastlz.c:177-473 | n >= 15 equal bytes at level 2 make a block of exactly 10 + (n - 14)/255 bytes |
| FastLzCompress.EqualBytes1 | deps/fastlz/fastlz.c:177-473 | At level 1 one of at most 10 + 3((n - 8)/262) bytes |
| FastLzCompress.BlockNamesLevel | deps/fastlz/fastlz.c:467-470 | A block names its level in the top bits of its first byte |
| FastLzCompress.Finish | deps/fastlz/fastlz.c:459-472 | The last run is closed and the level marked, giving a complete block |
| ChunkedBody.HexRoundTrip | src/network.c:402-431 | A chunk size reads back from its hexadecimal digits |
| ChunkedBody.DecodeChunk | src/network.c:395-447 | A strict reader of section 4.1 of RFC 7230 takes one chunk off the front of any rest |
| ChunkedBody.DecodeBody | src/network.c:395-447 | Chunks and one last chunk decode to the concatenation of the pieces |
| PartialWrite.FreshRound | src/network.c:1252-1276 | A round starting with a cleared offset offers exactly the unsent suffix, and leaves the offset negative exactly on an inner boundary |
| PartialWrite.StaleRound | src/network.c:1252-1276 | A round starting with a negative offset offers whole buffers from the one it should resume in |
| PartialWrite.HarmlessExactly | src/network.c:1187-1295 | For all buffers, contents, positions and counts, a call writes the next bytes in order if and only if it is harmless |
| PartialWrite.HarmlessCall | src/network.c:1187-1295 | A harmless call transmits the next bytes, each once and in order, and signals completion if and only if every byte was transmitted |
| PartialWrite.ResetIsHarmless | src/network.c:1270-1276 | With the offset cleared on every round, every call is harmless |
| PartialWrite.OneWriteIsHarmless | src/network.c:1187-1295 | So is every call that makes one short write only |
| PartialWrite.CallLength | src/network.c:1193-1196 | The position counts the bytes written, right or wrong |
| PartialWrite.CallAdvances | src/network.c:1191-1196 | A call that can write moves the position forward; it may pass the end |
| WriteShapes.FaithfulIsHarmless | src/network.c:1187-1295 | A call in which no round resumes inside a buffer after one resumed on a boundary with more than one buffer to go is harmless |
| WriteShapes.FaithfulExactly | src/network.c:1187-1295 | For given buffer lengths and counts, a call writes the next bytes in order for all contents of the buffers if and only if it is faithful |
| WriteShapes.WrongContents | src/network.c:1252-1276 | For any unfaithful call some contents of those lengths are sent wrongly |
| WriteShapes.RepeatedByte | src/network.c:1193-1276 | Writes of one, one and m bytes over three buffers send a byte twice; for m = 2 completion is signalled with the last byte never sent, for m = 3 the position passes the end |
| WriteShapes.FewWritesAreFaithful | src/network.c:1187-1295 | One short write in a call, or two from the start, are always faithful |
| Transmission.WireSoFar | src/network.c:1187-1295 | After any number of calls over any sends the wire is what is due if all calls were harmless, and otherwise is too long or deviates from the stream, for good |
| Transmission.FinishedExactly | src/network.c:1187-1295 | A finished transmission put exactly the stream on the wire if and only if every call was harmless |
| Transmission.ResetOrOneWrite | src/network.c:1270-1276 | All calls are harmless when the offset is cleared on every round, or each call makes one short write at most |
| Transmission.FaithfulCallsHarmless | src/network.c:1187-1295 | So they are when no call resumes inside a buffer after it resumed on a boundary with more than one buffer to go, a condition on lengths and counts alone |
| Transmission.FinishedStays | src/network.c:1198-1252 | Further calls change nothing, so a finished transmission has one outcome |
| ResponsePlan.OfferedText | src/lua-ext.c:121-160 | Offering data of any length, however often it fills the buffers, accounts for exactly that data and leaves no more than the buffers hold |
| ResponsePlan.OfferedPiecesFull | src/lua-ext.c:121-160 | An echo cuts a piece only when the buffers are full |
| ResponsePlan.FlushCuts | src/network.c:1401-1507 | A flush cuts a piece there when something was collected: everything echoed before it is in the pieces by then |
| ResponsePlan.PlanText | src/lua-ext.c:121-253 | The pieces of a script and what is collected at its end are what it echoed, in order, none of them empty |
| ResponsePlan.PlanGrows | src/lua-ext.c:121-253 | Pieces once cut stay as they are |
| ResponsePlan.ChunkedHasParts | src/lua-ext.c:238-243 | A script that flushes, or echoes more than the buffers hold, sends a piece before its end |
| ResponsePlan.FlatSend | src/network.c:395-447 | The buffers of a send hold the header if it comes first, one chunk if there is a body, and the last chunk at the end |
| ResponsePlan.StreamIsFramed | src/network.c:395-447 | All sends together hold the header and one chunked body with one last chunk |
| ResponsePlan.StreamDecodes | src/network.c:395-447 | That body decodes to exactly what the script echoes |
| ResponseBuffers.CapacityValue | src/network.c:128-201 | The buffers take 236 times their size less 8 bytes, whose length fits six hex digits |
| ResponseBuffers.BodyFits | src/network.c:128-201 | What is collected never exceeds the capacity and fills it exactly when the trailer slot is next |
| Response.Epd.constructor | src/network.c:128-150 | A fresh response is valid, at the first stage, with nothing sent |
| Response.Epd.NetworkSend | src/network.c:128-201 | Exactly the fitting prefix is appended, the number of bytes left over is returned, all buffers but the last stay full, and the length stays the sum |
| Response.Epd.FillSlot | src/network.c:140-185 | The current buffer is allocated if need be and takes data until it is full |
| Response.BodySlots | src/network.c:128-201 | The buffers hold the body cut at their capacities, and slot 237 stays empty for the trailer |
| Response.DressedSlots | src/network.c:402-431 | Size line and trailer make of them the buffers of one chunk, the trailer in a slot of its own when it does not fit |
| Response.Epd.PutTrailer | src/network.c:411-428 | The trailer goes behind the last slot or into a new one, and no slot overflows |
| Response.Epd.MetasAround | src/network.c:402-431 | Size line and trailer turn the collected body into exactly the planned buffers, and no slot overflows |
| Response.Epd.AddChunkMetas | src/network.c:395-447 | Buffers are the planned ones with or without a body, and the length is theirs |
| Response.Epd.FirstFlush | src/network.c:1401-1507 | The first flush puts the header before the first chunk and starts sending |
| Response.Epd.LaterFlush | src/network.c:1401-1507 | A later flush sends the next chunk only |
| Response.Epd.NetworkFlush | src/network.c:1401-1507 | Nothing to send returns 0 and changes nothing; otherwise the collected body becomes the next piece |
| Response.Epd.BeEnd | src/network.c:665-690 | The end of the request sends what is left and the last chunk |
| Response.Epd.Offer | src/lua-ext.c:205-253 | The stage reached is that of the plan: what fits is collected, otherwise the full buffers are flushed and exactly the rest is kept |
| Response.Epd.KeepRest | src/lua-ext.c:238-243 | The full buffers become a piece and the rest is kept to be offered again |
| Response.Epd.Echo | src/lua-ext.c:162-253 | The stage moves by exactly the string echoed, an empty one changing nothing |
| Response.Epd.SendThenSend | src/lua-ext.c:121-160 | The kept rest is offered again without loss, and what is kept after that is shorter |
| Response.Epd.Gather | src/network.c:1254-1271 | The loop over the buffers computes the vector and offset of one pass |
| Response.Epd.WriteLoop | src/network.c:1187-1295 | The loop of rounds writes what a call writes, and reports completion exactly when the position has reached the length to send |
| Response.Epd.BeWrite | src/network.c:1173-1399 | A write call keeps the stage, goes on to the next send exactly when its position has reached the end, ends the response only after the last, and makes progress whenever the socket takes anything |
| Response.Epd.Completed | src/network.c:1198-1252 | At the end of a send the buffers are cleared and the script or the kept rest goes on, or the response ends |
| ResponseRun.SendIsDue | src/network.c:1252-1271 | The buffers being sent are always those of the send that is due in the plan of the script |
| ResponseRun.Drain | src/network.c:1187-1252 | With a socket that never stops for good, sending always completes, and the response stays exactly where the calls take the sends of its script |
| ResponseRun.Act | src/lua-ext.c:162-253 | One echo or flush of a script moves the response to the next stage of its plan |
| ResponseRun.RunScript | src/lua-ext.c:121-253 | Every script that flushes or overflows the buffers runs to its end, at the stage its plan ends in |
| ResponseRun.Judge | src/network.c:1173-1507 | A finished wire is the stream if and only if every call was harmless, and the stream is header and body decoding to what was echoed |
| ResponseRun.Serve | src/network.c:1173-1507 | Every chunked request finishes with the wire that its calls make of the sends of its script; it is the stream, which decodes to all that was echoed, if and only if every call was harmless, and always so when the offset is cleared on every round, each call makes one short write at most, or every call is faithful |
| ResponseExample.FirstCall | src/network.c:1193-1276 | A call of the loop as written that repeats the first byte of a chunk, never sends its last, and signals completion |
| ResponseExample.SpoiledResponse | src/network.c:1173-1507 | A response of one echo and a flush, for every header and every 1017 bytes, whose wire is spoiled by that call and decodes to nothing |
| YacTable.MaskIsMod | deps/yac/yac_storage.c:305-345 | Masking with a power of two less one is the remainder |
| YacTable.AlignSize | deps/yac/yac_storage.c:30-36 | The largest power of two not above the size |
| YacTable.SlotsSize | deps/yac/yac_storage.c:39-60 | The table has the largest power of two of slots that fit, or two when none does, and masking with it is the remainder |
| YacAllocator.Allocator.constructor | deps/yac/yac_allocator.c:31-79 | Segments laid out apart start with no block |
| YacAllocator.Allocator.RealSize | deps/yac/yac_allocator.c:160-168 | 0 exactly for sizes no segment can hold; otherwise 128, or the next multiple of 8 |
| YacAllocator.Allocator.Alloc | deps/yac/yac_allocator.c:98-136 | Every request gets a block inside one segment: the first with room among the four from the hash's on, going around; one is recycled only when none of those has room, and then the last of them; other segments are untouched |
| YacAllocator.Allocator.AheadIsProbed | deps/yac/yac_allocator.c:119-130 | The probes see every segment less than four ahead, each once and in order |
| YacAllocator.Allocator.Search | deps/yac/yac_allocator.c:102-130 | The first segment with room among the four is found, or that none of them has any |
| YacAllocator.Allocator.Take | deps/yac/yac_allocator.c:110-114 | The next bytes of a segment are given out, disjoint from all live blocks, and nothing else changes |
| YacAllocator.LiveBlocksDisjoint | deps/yac/yac_allocator.c:98-136 | Any two blocks given out since their segments were last recycled are disjoint and inside them |
| YacSlots.MatchIsKey | deps/yac/yac_storage.c:307-310 | In a good table the comparison of hash, length and bytes holds exactly for the slot of that key |
| YacSlots.PathSteps | deps/yac/yac_storage.c:344-347 | The first probe is the masked hash, and each further one goes on by the masked second hash |
| YacSlots.ProbesDiffer | deps/yac/yac_storage.c:344-347 | In a table of a multiple of four slots an odd second hash sees four different slots |
| YacSlots.NotProbedIsAbsent | deps/yac/yac_storage.c:402-415 | A probe that meets an empty slot, or four others, proves the key is nowhere in the table |
| YacSlots.StoreKeepsTable | deps/yac/yac_storage.c:402-547 | Storing on a key's own path keeps the invariant: every slot on its path, earlier slots occupied, no key twice |
| YacSlots.LocateFinds | deps/yac/yac_storage.c:298-360 | The probe loop finds a slot if and only if it holds the key |
| YacStorage.Storage.constructor | deps/yac/yac_storage.c:39-63 | A fresh cache is valid and holds nothing |
| YacStorage.Storage.Find | deps/yac/yac_storage.c:298-363 | Lookup returns what slot and block determine; a hit has length, checksum and flag of the last successful update, not expired or deleted, leaves further lookups of the key as they were and sets the access time of its block; a miss writes nothing |
| YacStorage.Storage.LocateSlot | deps/yac/yac_storage.c:302-357 | The probes of a lookup settle where `Locate` says |
| YacStorage.Storage.FindSlot | deps/yac/yac_storage.c:402-490 | The update's probe gives the key's slot, the first free slot of its path, or reports the path full, and the key's absence in the last two |
| YacStorage.Storage.PickVictim | deps/yac/yac_storage.c:472-502 | A full path gives up its first dead slot among the first three, otherwise the least recently used, the last on a tie with it and else the first |
| YacStorage.Storage.Allocate | deps/yac/yac_storage.c:510-541 | A new block with room for header and value, in a segment the hash leads to, holds the value and the slot describes it; or the allocator refuses and no slot changes |
| YacStorage.Storage.DoUpdate | deps/yac/yac_storage.c:415-474 | A slot is rewritten exactly when that is not an add of a live value that checks, and its old block checks and is large enough or a new one can be had; the block stays in the first case |
| YacStorage.Storage.Update | deps/yac/yac_storage.c:402-547 | Where an update ends and exactly when it succeeds; a success is the new value of its key alone, in that slot, and hits until it expires; a failed one changes no slot; slots never become empty; an add fails when the key would hit |
| YacStorage.Storage.Aim | deps/yac/yac_storage.c:402-502 | An update ends in the key's own slot, else the first free one of its path, else the first dead one, else the least recently used |
| YacStorage.Storage.Settle | deps/yac/yac_storage.c:415-547 | It succeeds exactly when that slot can be rewritten or a block be had |
| YacStorage.OneTarget | deps/yac/yac_storage.c:402-502 | That slot is unique |
| YacStorage.RefusedForALiveOne | deps/yac/yac_storage.c:415-474 | With room, only an add is refused, and only for a live entry of the key or of one whose probes meet its own |
| YacStorage.Storage.Delete | deps/yac/yac_storage.c:366-399 | Only expiry fields change; a key found in its home slot and given a ttl still hits until the ttl ends and no longer, any other misses at once; other keys keep their values |
| YacStorage.ExpirySet | deps/yac/yac_storage.c:366-399 | A new expiry decides how long the key is found, and nothing else |
| YacStorage.HitIsLast | deps/yac/yac_storage.c:298-363 | Every hit agrees with the map of last updates in length, checksum, flag and expiry, whatever the blocks hold |
| YacStorage.HitIsExact | deps/yac/yac_storage.c:298-363 | With a collision-free checksum it is that value |
| YacStorage.FreshHit | deps/yac/yac_storage.c:298-363 | A slot and its block as an update leaves them hit until the entry expires |
| YacRun.Perform | deps/yac/yac_storage.c:298-547 | One operation does to the cache what it does to a plain map, and an update that has room fails only as an add, for the sake of a live entry of its key or of one whose probes meet it |
| YacRun.StillHitStep | deps/yac/yac_storage.c:298-547 | One operation leaves every update hit that it does not disturb: a lookup of the key itself, or one that misses, disturbs nothing |
| YacRun.Run | deps/yac/yac_storage.c:298-547 | In every sequence of operations every hit agrees with the plain map; after an update of a key, while only lookups of that key or misses come between, every lookup of it hits and every add of it fails until it expires; and with room only adds fail, for the sake of a live entry |
| YacInterleaved.StepInv | deps/yac/yac_storage.c:298-547 | Every atomic step of every process keeps: slots and copies in flight describe some update that has started |
| YacInterleaved.RunInv | deps/yac/yac_storage.c:298-547 | So in every reachable state |
| YacInterleaved.EveryHitWasStored | deps/yac/yac_storage.c:305-340 | In every interleaving every hit has key, length, flag and checksum of an update started before, and is its value with a collision-free checksum |
| Calendar.Drift | lua-libs/date.lua:124-128 | How far a year's first day strays from the mean year; the estimate's constant leaves five parts in 734775 |
| Calendar.YearLength | lua-libs/date.lua:109-115 | A year has 366 days exactly when the next February is a leap year's |
| Calendar.EstimateWithinOne | lua-libs/date.lua:126-128 | The estimate is never below the March-based year and at most one above, and the correction gets it |
| Calendar.MarchYearSpans | lua-libs/date.lua:126-128 | Every day lies in the year found for it |
| Calendar.BreakThenMake | lua-libs/date.lua:117-131 | Every integer breaks into an existing date that makes the same number |
| Calendar.MakeThenBreak | lua-libs/date.lua:117-131 | Every existing date comes back from its day number |
| Calendar.CountsDays | lua-libs/date.lua:117-131 | The day after a date on a wall calendar has the next number, and 1 January of year 1 is day 0 |
| Calendar.DaysLaterCount | lua-libs/date.lua:117-131 | A day number n larger is the date n days later, counted day by day |
| Calendar.MakeFromFirst | lua-libs/date.lua:117-131 | A month or day out of range makes the date counted in days from the first of the month, forward or back; within the month it is that day |
| Calendar.MonthCarries | lua-libs/date.lua:117-119 | Twelve months are a year, for months out of range too |
| Calendar.WeekdaysCycle | lua-libs/date.lua:157 | Weekdays follow one another, and 1 January of year 1 is a Monday |
| Calendar.YearDaysCount | lua-libs/date.lua:159-161 | The day of the year counts from 0 on 1 January and starts again with every year |
| Calendar.YearOf | lua-libs/date.lua:159-161 | A day's year is the one whose span of days holds it |
| Calendar.IsoW1IsMonday | lua-libs/date.lua:168-173 | ISO week 1 begins on the Monday on or before 4 January |
| Calendar.IsoYearLength | lua-libs/date.lua:168-173 | An ISO year is 52 or 53 whole weeks |
| Calendar.IsoWYSpans | lua-libs/date.lua:174-196 | The ISO year found holds the day, the week is 1 to 53, and the two functions agree on the year |
| Calendar.IsoYearUnique | lua-libs/date.lua:174-192 | No other year holds the day |
| Calendar.IsoYearIsThursdays | lua-libs/date.lua:174-192 | Year and week are those of the week's Thursday, as section 4.1.4 of ISO 8601:2004 defines them |
| Calendar.IsoRoundTrip | lua-libs/date.lua:197-199 | A day comes back from its ISO year, week and weekday |
| Calendar.IsoCarries | lua-libs/date.lua:197-199 | Weeks and weekdays out of range carry |
| Calendar.IsoRoundTripBack | lua-libs/date.lua:174-199 | An ISO date that exists comes back from its day |
| DateObject.LimitsAreAMillionYears | lua-libs/date.lua:20-21 | The limits lie a million years of days from 1 January of year 1 either way, the upper one on 1 January of year 1000001 |
| DateObject.DateTime.Normalize | lua-libs/date.lua:418-422 | Whole days are carried and the instant is unchanged; the limits are checked on the day number before the carry |
| DateObject.DateTime.AddDayFrc | lua-libs/date.lua:531-541 | Adding units of time, whole or not, adds exactly their ticks to the instant |
| DateObject.DateTime.AddYears | lua-libs/date.lua:514-525 | Months carry into the year, the days run on from the first of the month reached, past its end or back before it, and the time of day stays |
| DateObject.DateTime.SetDate | lua-libs/date.lua:479-490 | Each part given is taken and the others stay; an existing date reads back, any other is counted in days from the first of its month |
| DateObject.DateTime.SetIsoDate | lua-libs/date.lua:461-472 | Each ISO part given is taken and the others stay, and an existing week date reads back |
| DateObject.AddMonths | lua-libs/date.lua:527-529 | As long as no day overflows, adding months keeps the day, carries into the year, and is undone by taking them away |
| LuaNumber.RoundNatNearest | lua-libs/redis.lua:235 | Rounding to 53 significant bits gives a double, none is nearer, the even one of two equally near, and exactly the doubles stay as they are |
| LuaNumber.ToDoubleNearest | lua-libs/redis.lua:235 | The same for negative integers |
| LuaNumber.FirstRounded | lua-libs/redis.lua:235 | 9007199254740993 becomes 9007199254740992 |
| Resp.NumberRoundTrip | lua-libs/redis.lua:166-245 | A decimal integer reads back as the nearest double: as itself if and only if a double holds it, as every length does |
| Resp.BulkRoundTrip | lua-libs/redis.lua:178-200 | A bulk string of arbitrary bytes, line breaks included, is read back and nothing more |
| Resp.ReplyRoundTrip | lua-libs/redis.lua:166-245 | Every nested reply tree without nulls is read back with its integers rounded and exactly its bytes consumed; one with a null gives nil with exactly the bytes up to and including its first null consumed |
| Resp.CutAtNull | lua-libs/redis.lua:166-245 | Those bytes end in the line of a null, and with the rest make up the whole reply |
| Resp.NegativeCount | lua-libs/redis.lua:180-183 | A bulk or an array with a negative count is nil, and only its line is consumed |
| Resp.UnknownPrefix | lua-libs/redis.lua:242-244 | So is a line that begins like no reply |
| Resp.BrokenOff | lua-libs/redis.lua:185-200 | A bulk that breaks off is nil and leaves nothing |
| Resp.ReplyExactly | lua-libs/redis.lua:166-245 | It is read back exactly if and only if it holds no null and doubles hold all its integers |
| Resp.RoundedInteger | lua-libs/redis.lua:233-235 | A 64-bit integer reply that comes back as another integer |
| Resp.ItemsRoundTrip | lua-libs/redis.lua:213-231 | Concatenated replies without nulls are split into the same replies in order, their integers rounded; otherwise the read stops right behind the first null |
| Resp.ItemsExactly | lua-libs/redis.lua:213-231 | They come back exactly if and only if none holds a null and doubles hold all their integers |
| Resp.RequestRoundTrip | lua-libs/redis.lua:248-272 | A request is an array of its arguments, read back if and only if none is null |
| Resp.GenReq | lua-libs/redis.lua:248-272 | The loop over the arguments builds that request |
| Resp.Socket.ReadReplyFrom | lua-libs/redis.lua:166-245 | Reading from the socket gives the reply of the reader function, and leaves its rest |
| Resp.Socket.ReadItemsFrom | lua-libs/redis.lua:213-231 | The loop over the elements likewise, stopping at the first nil |
| Resp.Socket.CommitPipeline | lua-libs/redis.lua:399-440 | A pipeline reads one reply a request; replies as sent come back in order, integers rounded, with what follows left unread; with a null among them the call fails and everything behind that null is unread; exactly as sent if and only if there is no null and doubles hold all integers |
| FormReader.CallTakesFirst | core.lua:245-320 | One call returns the piece before the first '&' of the whole rest of the body, however it arrives, exactly when it takes fewer than 99 reads |
| FormReader.FieldsAreSplit | core.lua:245-341 | The fields read equal the split of the whole body if and only if no field takes too many reads |
| FormReader.LongByPosition | core.lua:245-320 | That no call runs out of turns is the same as every field arriving within fewer than 99 reads, counted by position in the body and the lengths of the reads |
| FormReader.FieldsExactly | core.lua:245-341 | So the fields of a body are its pieces if and only if each arrives within fewer than 99 reads after the '&' before it |
| FormReader.LongFieldLost | core.lua:245-320 | A form without '&' that takes 98 reads or more is read as no fields at all |
| FormReader.FewReadsSuffice | core.lua:245-320 | A body that arrives in at most 97 reads never has such a field |
| FormReader.Reader.NextPostField | core.lua:245-320 | The loop over reads computes one call |
| FormReader.Reader.ReadAll | core.lua:322-341 | The loop over fields collects the split of the whole body, if and only if every field arrives within fewer than 99 reads |
| MoCatalogue.WordRead | deps/i18n/ok_mo.c:163-170 | A 32-bit number reads as it was written, most significant byte first or last |
| MoCatalogue.HalfRead | deps/i18n/ok_mo.c:154-161 | So does a 16-bit one |
| MoCatalogue.HeaderRead | deps/i18n/ok_mo.c:172-209 | A header written in either byte order names that order and is read in it, and is accepted exactly for major versions 0 and 1 and at least one string |
| MoCatalogue.EntryRead | deps/i18n/ok_mo.c:238-260 | So is an entry of a table |
| MoCatalogue.SeekLandsOn | deps/i18n/ok_mo.c:218-236 | From any position the wrapped relative seek ends on the absolute offset modulo 2 to the 32nd: on the offset itself when both are below 2^31, and otherwise on it, before the start, or where no read succeeds |
| MoCatalogue.Input.Read | deps/i18n/ok_mo.c:30-41 | A positive count reads all its bytes or fails; any other count is a relative seek that reads nothing |
| MoCatalogue.Input.ReadAt | deps/i18n/ok_mo.c:246-260 | Seek and read succeed exactly as the signed arithmetic says, a positive count gives the bytes at the absolute offset, and the tracked position stays right |
| MoCatalogue.ReadInside | deps/i18n/ok_mo.c:218-236 | A read of fewer than 2^31 bytes succeeds exactly inside the image, wherever it is reached from |
| MoCatalogue.Input.ReadStrings | deps/i18n/ok_mo.c:238-272 | A table is read exactly when every seek and read in turn succeeds, and every string shorter than 2^31 - 1 is the byte range its entry names |
| MoCatalogue.CountZeros | deps/i18n/ok_mo.c:274-283 | The number of variants is the number of NULs inside the value |
| MoCatalogue.DecodeMo | deps/i18n/ok_mo.c:172-286 | An image of either byte order is decoded if and only if it is readable, and every key and value that is read is the range named for it |
| MoCatalogue.OneString | deps/i18n/ok_mo.c:238-272 | One string, from a position below 2^31: accepted exactly inside the image when shorter than 2^31 - 1; otherwise exactly when offset + length + 1 reaches 2^32, or, for an offset of 2^31 or more, when it is less than 2^31 ahead |
| MoCatalogue.ReadableExactly | deps/i18n/ok_mo.c:172-286 | The images decoded, entry by entry, from header and tables alone |
| MoCatalogue.InPlaceIsReadable | deps/i18n/ok_mo.c:172-286 | An image with header, tables and strings in place is decoded |
| MoExample.BackwardString | deps/i18n/ok_mo.c:30-41 | An image whose key does not lie inside and which is decoded all the same |
| MoLookup.CStr | deps/i18n/ok_mo.c:290-294 | A C string is what comes before the first NUL |
| MoLookup.LessExactly | deps/i18n/ok_mo.c:290-294 | Keys are compared by their first difference, as unsigned bytes, a prefix first |
| MoLookup.FindValue | deps/i18n/ok_mo.c:296-320 | Binary search finds the entry of a key, with its context, if and only if there is one |
| MoLookup.PluralIndex | deps/i18n/ok_mo.c:335-338 | The index for n, never beyond the number of variants |
| MoLookup.PluralStart | deps/i18n/ok_mo.c:344-351 | The walk stops inside the value, at the start of the piece with that index |
| MoLookup.PluralValue | deps/i18n/ok_mo.c:340-361 | The chosen piece of a present key; for an absent one the key for n = 1 and the plural key otherwise |
| MoLookup.WellFormedEntries | deps/i18n/ok_mo.c:172-286 | A well-formed image decodes to sorted entries whose keys and values end in NUL, each the one its table names |
| MoLookup.Translate | deps/i18n/ok_mo.c:134-361 | Reading a well-formed image and looking a key up gives the piece of that key's value in the image that n selects, or the given text for a key the image does not hold |
| Base64.LettersAreStandard | deps/string_utils.c:100-101 | The letters are those of Table 1 of RFC 4648, in order |
| Base64.SameBits | deps/string_utils.c:110-131 | Three bytes and their four letters are the same 24 bits, most significant first; shorter groups are padded with zero bits |
| Base64.RoundTrip | deps/string_utils.c:98-201 | Decoding an encoding gives the bytes |
| Base64.CanonicalRoundTrip | deps/string_utils.c:98-201 | A decoded string encodes back to itself if and only if it is canonical: whole groups, correct padding, unused bits clear |
| Base64.DecodeAny | deps/string_utils.c:136-177 | What any string decodes to: nothing for a byte outside the alphabet before the first '=' or for a length of 1 modulo 4, otherwise the whole bytes of the letters' bits; what follows a '=' is ignored |
| Base64.EncodeTo | deps/string_utils.c:102-134 | The buffer receives exactly the encoding, of the length the macro gives, and nothing past it |
| Base64.DecodeRun | deps/string_utils.c:148-177 | The loop over groups and the last group decode a string of letters |
| Base64.DecodeTo | deps/string_utils.c:136-177 | Any input is decoded, or refused with 0, within the length the macro gives |

## Left out

- ResponseRun.Serve: covers scripts that flush something or overflow the buffers, each flush after something echoed; when the wire is not the stream, it does not say what a client makes of it, beyond the one response in `ResponseExample`.
- ResponseRun.RunScript: the same scripts.
- WriteShapes.FaithfulExactly: speaks of all contents of the buffers, framing included; `PartialWrite.HarmlessExactly` is the exact condition for given contents.
- Response.Epd.NetworkFlush: asks that the first flush find something collected; otherwise the source sends the header directly and then has no buffers to write, which is not modelled.
- YacInterleaved.EveryHitWasStored: makes no claim that a slot holds its key only once, because interleaved updates can store it twice.
- YacRun.Run: hits of other keys count as disturbing an update, because the access time they write may lie in its block (see above); no claim is made that they do no harm when the blocks are disjoint.
- FastLz.Compress: for inputs of 2^31 bytes or more, and for those whose compressed size leaves the range of a C `int` (above about 2.08e9 bytes), C arithmetic on lengths is not modelled.
- MoCatalogue.DecodeMo: the image is shorter than 2^31 bytes; strings are allocated whatever their length, and entries up to a given number (a parameter). What the uninitialised memory of a string of length 2^31 - 1 or more holds, and what using it does, is not said.
- MoCatalogue.ReadableExactly: for a string of such a length at an offset of 2^31 or beyond, only `Readable` itself is exact.
- MoLookup.FullKey: the key with a context ends where it is meant to; the source writes its NUL one byte past the memory it allocated for it.
- MoLookup.FindValue: which midpoint the C library's `bsearch` takes is not fixed by it; the model takes the usual one, and keys are required to be sorted and to end in NUL as the format demands.
- Sockets, TLS, timeouts, event callbacks, the Lua VM and `malloc` failures: the kernel is an arbitrary positive short count or "would block".
- `EP_D_BUF_SIZE` is not in the repository's files: any size from 1024 to 71089, with a header (given as bytes) smaller than one buffer.
- The routine that prints a chunk size (`_ultostr`) is not part of this model; it is taken to write lower-case hexadecimal without leading zeros, as section 4.1 of RFC 7230 asks.
- Responses other than chunked HTTP/1.1: gzip, files sent with sendfile, and a response ended before any flush, which gets a Content-Length.
- Echoes of several arguments or tables, `flush` with arguments, and hard write errors that close the connection.
- The concrete hash functions and checksum of YAC, its hit, miss, kick and failure counters, the truncation of expiry times to 32 bits, flushing, dumping and statistics.
- YAC segments smaller than the first one: start-up makes the segments equal, the last one at least as large.
- Calendar.BreakDayNum: Lua computes in doubles; `10000*g + 14780` is exact up to 2^53, for some 2.4 thousand million years either way, and beyond that the integers of the model and the doubles part.
- DateObject.DateTime.AddDayFrc: fractional ticks are real numbers; their rounding in doubles is not modelled.
- Date parsing, formatting, time zones, and time-of-day setters.
- Unescaping and grouping of form fields into `_POST`, and multipart forms: string plumbing around the fields.
- Resp.Socket.ReadReplyFrom: an empty line or a size that is no number, which raises a Lua run-time error in the source, is a nil reply here; so are the other forms `tonumber` accepts without an error: a number with spaces around it, with a fraction or an exponent, or in hexadecimal.
- Resp.ReplyRoundTrip: integers are those of 64 bits, as the protocol sends them; beyond the exponent range of a double rounding is not modelled.
- RESP subscription state, connection handling and timeouts; an error reply inside an array or pipeline is one value here.
- The URL-safe base64 alphabet, which only replaces two letters of the table.
- WebSocket frames, virtual hosts, the router, templates, other database clients and the remaining utilities.
