# A verified model of heatshrink

heatshrink is a streaming LZSS codec built from two machines that can suspend at any byte. The
encoder takes input with `sink`, gives output with `poll` and is closed with `finish`; it keeps a
buffer of two windows, searches it for repeats, and packs literals and back-references into bits.
The decoder pulls bits from a small input buffer and rebuilds the data over a ring of history.

The project has three layers.

1. **The format as pure functions.** `Words` and `BitStrings` hold the bit arithmetic. `Lzss` holds
   tokens, their bits, the parse of any bit string and the expansion over a window of zeros.
   `Greedy` holds the encoder's choice of tokens, `Fields` the two ways of cutting a field into
   chunks, and `Codec` the whole-string `Encode` and `Decode`.
2. **The machines as classes.** `Encoder` and `Decoder` have the fields, arrays, states and steps of
   the C structs. Ghost fields record every byte sunk and emitted, and `Valid` ties them to the pure
   functions. `MatchSearch`, `SlidingWindow`, `Accumulator`, `BitSource`, `Ring` and `Output` hold
   the parts they are made of and the facts about those parts.
3. **The callers.** `Handles` holds the buffered files of the command-line program and `Client` its
   encode and decode loops. `Schedules` runs any interleaving of calls on both machines at once.

The main results:

- **Round trip.** For every input, every configuration, every input-buffer size and every
  interleaving of sinks, polls and `finish`, each call has exactly its effect, the decoder's output
  is at every moment a prefix of the input, a run that hands everything on has delivered exactly the
  input, and every schedule can be completed to such a run (`Schedules.RunSchedule`,
  `Schedules.RunDelivers`, `Schedules.Pipeline.Complete`, `Codec.RoundTrip`).
- **Schedule independence.** An encoder that is done has emitted `Encode(input)`, and what it has
  emitted before that begins the encoding of every input its bytes can still become
  (`Encoder.Encoder.DoneMeansEncoded`, `Encoder.Encoder.EmittedIsPrefix`).
- **Decoder refinement.** For any bytes, well-formed or not, a decoder whose `finish` says done has
  handed out `Decode(bytes)` and stands at the first incomplete field. `Codec.DecodeMeaning` says
  what that is without a parser, and `Lzss.ExpandMeaning` and `Lzss.TokenLayout` byte by byte and bit
  by bit.
- **Search.** The indexed and the plain search both return the closest of the longest matches, and a
  position is encoded as a back-reference if and only if some match of n bytes there has
  8n > 1 + window bits + lookahead bits.
- **Size.** n bytes never encode to more than ceil(9n/8) bytes.
- **Clients.** For any file and any lengths of its reads, the loops terminate, no call is refused, the
  closed output file is the encoding or decoding of the whole file, and encoding ends within three
  empty reads.

Modelling conventions. `uint8_t`, `uint16_t` and `int16_t` are integer subset types, so every
assignment is proved to stay in range; the decoder's head index wraps explicitly. Shifts, `&` and
`|` are functions on naturals with the lemmas that connect them to arithmetic. An input pointer
with a length is a byte sequence; an output buffer is an array whose length is the buffer size.
The compile-time index switch is the constant `useIndex`. `hide` statements keep proofs small and
have no other effect. Nothing was executed.

## Model

| member | source | states |
|---|---|---|
| Words.MaskedDifference | heatshrink_decoder.c:269-276 | `(head - offset) & mask` is the slot of the position that many bytes back, even when the wrapped head is smaller than the offset |
| Words.Increment16IsLowBits | heatshrink_decoder.c:212 | the wrapping 16-bit head keeps counting the emitted bytes modulo 2^16 |
| Words.ShiftMeaning | heatshrink_encoder.c:528-545 | `<<` multiplies by a power of two, and what `>>` cuts off is the low bits |
| Words.AndOrAt | heatshrink_decoder.c:322-325 | the bitwise and and or of two numbers, bit by bit |
| BitStrings.PackBytes | heatshrink_encoder.c:547-575 | packing a bit string gives back the whole bytes it starts with, then packs the rest |
| BitStrings.UnpackPack | heatshrink_encoder.c:368-381 | unpacking gives the bits back followed by at most seven zeros, and the packed length is the bit count over eight rounded up |
| BitStrings.FieldBitAt | heatshrink_encoder.c:559-573 | position i of a k-bit field is bit k - 1 - i of the number |
| BitStrings.BytesBitAt | heatshrink_decoder.c:302-334 | bytes are read in order, each from bit 7 down to bit 0 |
| Lzss.ParseTokenBits | heatshrink_decoder.c:186-260 | the bits of any legal token, whatever follows, are recognised as that token |
| Lzss.ParseStream | heatshrink_decoder.c:135-184 | unique decodability: the bits of any token list parse back to it, and the parse goes on behind them |
| Lzss.ParseIsLossless | heatshrink_decoder.c:135-260 | for every bit string, the bits of the parsed tokens and the unparsed rest are the string |
| Lzss.HistoryGrows | heatshrink_decoder.c:200-218 | later tokens never change bytes already expanded |
| Lzss.TokenLayout | heatshrink_encoder.c:303-360 | every bit of a token: marker 1 and the byte, or marker 0, offset - 1 and length - 1, most significant bits first |
| Lzss.CopyAt | heatshrink_decoder.c:275-281 | every copied byte is the one offset places before it |
| Lzss.ExpandMeaning | heatshrink_decoder.c:200-286 | one more token adds its literal byte, or length bytes, each the one offset places before it or zero before the start of the output |
| Lzss.IncompleteMeaning | heatshrink_decoder.c:186-260 | parsing stops if and only if the bits begin with those of no legal token |
| Greedy.BestIsLongestAndClosest | heatshrink_encoder.c:449-508 | no offset has a longer match than the chosen one, and none that ties is closer |
| Greedy.TokenAtMeaning | heatshrink_encoder.c:451-526 | a back-reference is chosen if and only if some offset in 1..2^windowBits has a match with 8 x length > 1 + windowBits + lookaheadBits, and it is then the closest of the longest |
| Greedy.MatchLenMeaning | heatshrink_encoder.c:478-480 | a match of length n is n equal bytes, then the limit or a difference |
| Greedy.MatchAtMeaning | heatshrink_encoder.c:281-282 | a match runs on to the end of the input, to 2^lookaheadBits bytes or to a byte that differs, whichever comes first |
| Greedy.TokenAtStable | heatshrink_encoder.c:268-282 | a token chosen with a full lookahead does not depend on input beyond it |
| Greedy.GreedyStable | heatshrink_encoder.c:268-275 | more input changes none of the tokens chosen so far |
| Greedy.GreedyParseIsGreedy | heatshrink_encoder.c:261-301 | the greedy parse covers the whole input, each token chosen where the previous ones end |
| Greedy.CopyReproduces | heatshrink_decoder.c:262-286 | copying from a matching place, overlap included, reproduces the bytes there |
| Greedy.GreedyExpands | heatshrink_encoder.c:261-301 | expanding a prefix of the greedy parse gives back exactly the input it covers |
| Greedy.EveryBackrefIsValid | heatshrink_encoder.c:277-318 | every back-reference has offset 1..W and length 2..L, fits its field widths, stays inside the input, repeats its source bytes and costs fewer than eight bits a byte |
| Greedy.TokenIsCheap | heatshrink_encoder.c:510-525 | a literal costs nine bits; the integer break-even test makes a back-reference cost fewer than eight per byte |
| Greedy.GreedyCost | heatshrink_encoder.c:510-525 | a greedy prefix takes at most nine bits for each byte it covers |
| Codec.PaddingIsInert | heatshrink_decoder.c:343-350 | zero bits after a token stream complete no token if and only if there are fewer of them than a back-reference has bits; up to seven are always inert |
| Codec.DecodeTokens | heatshrink_decoder.c:135-286 | decoding the packed bits of any legal tokens expands those tokens |
| Codec.DecodeMeaning | heatshrink_decoder.c:135-286 | bytes whose bits are those of some legal tokens and a rest that begins with no token decode to the expansion of those tokens |
| Codec.DecodeIsDefined | heatshrink_decoder.c:135-286 | the bits of every byte string can be split that way |
| Codec.EncodeMeaning | heatshrink_encoder.c:261-381 | the encoding is the bits of the tokens chosen along the whole input and fewer than eight zeros |
| Codec.RoundTrip | test_heatshrink_dynamic_theft.c:451-501 | decoding the encoding of any input gives back the input |
| Codec.SizeBound | test_heatshrink_dynamic_theft.c:529-556 | n bytes encode to at most (9n + 7) / 8 bytes |
| Codec.EncodedPrefix | heatshrink_encoder.c:303-360 | whole bytes of the bits of greedily chosen tokens begin the encoding |
| Codec.DecodeGrows | heatshrink_decoder.c:94-114 | more input bytes only add to the decoded output |
| Fields.NextChunk | heatshrink_encoder.c:528-545 | a field is its next chunk, truncated to a byte as the C code does, followed by what is left |
| Fields.JoinChunks | heatshrink_decoder.c:220-260 | shifting the high chunk up and or-ing in the low one gives the number the chunks spell together |
| Fields.ChunksInvert | heatshrink_decoder.c:220-260 | the decoder recovers every field although the encoder cuts it elsewhere |
| MatchSearch.ChainIsExact | heatshrink_encoder.c:404-419 | the index chain from a position lists, newest first, exactly the positions up to it with the same byte |
| MatchSearch.BuildIndex | heatshrink_encoder.c:420-435 | every index entry is the last earlier position with the same byte, or -1 |
| MatchSearch.QuickReject | heatshrink_encoder.c:470-476 | a candidate that differs at once or at the length to beat cannot win |
| MatchSearch.SkipLink | heatshrink_encoder.c:487 | following one index link skips only candidates that cannot win |
| MatchSearch.CountMatch | heatshrink_encoder.c:478-480 | the comparison loop returns the match length |
| MatchSearch.SearchIndex | heatshrink_encoder.c:462-488 | the search along the index finds the best match in the window |
| MatchSearch.SearchScan | heatshrink_encoder.c:490-507 | the plain scan finds the same best match |
| MatchSearch.FindLongestMatch | heatshrink_encoder.c:451-526 | in both builds: offset and length of the best match if 8 x length > 1 + windowBits + lookaheadBits, else not found |
| MatchSearch.IndexFitsWords | heatshrink_encoder.c:427-435 | index positions fit their 16-bit types if and only if the window has at most 14 bits; at 15 the end of a full buffer wraps to 0 |
| Accumulator.AppendBit | heatshrink_encoder.c:559-573 | one more bit keeps: bits of emitted bytes plus pending bits are all bits pushed, unused low bits zero |
| Accumulator.CompleteByte | heatshrink_encoder.c:567-572 | the eighth bit completes a byte that spells exactly the pending bits |
| Accumulator.AppendByte | heatshrink_encoder.c:554-557 | the whole-byte shortcut has the effect of the bit loop |
| Accumulator.FlushCompletes | heatshrink_encoder.c:368-381 | flushing the pending byte, if any, completes the encoding |
| SlidingWindow.FillOk | heatshrink_encoder.c:149-156 | sinking extends the slice of zero-padded input held by the buffer |
| SlidingWindow.SlideOk | heatshrink_encoder.c:586-604 | sliding moves the slice by the scanned bytes and keeps the unscanned ones |
| SlidingWindow.SearchOk | heatshrink_encoder.c:277-286 | searching the buffer finds the token the greedy parse of the whole stream prescribes |
| Output.OutputInfo.Push | heatshrink_decoder.c:363-367 | one byte is appended, nothing else of the caller's buffer is touched |
| Encoder.Encoder.constructor | heatshrink_encoder.c:70-104 | a new encoder is valid with nothing sunk or emitted |
| Encoder.Encoder.Reset | heatshrink_encoder.c:118-135 | reset forgets everything and is valid again |
| Encoder.Encoder.Sink | heatshrink_encoder.c:137-166 | takes the whole input or fills the window of 2^windowBits bytes, never more, and appends exactly those bytes to the stream; filled exactly when the window is; refused without any change while finishing or not waiting for input |
| Encoder.Encoder.Poll | heatshrink_encoder.c:190-251 | terminates; appends exactly the bytes written to the output; misuse exactly for an empty buffer, without any change; empty exactly in the states not full and done; more only with the buffer full and a state waiting for room; while finishing, the bytes are the next ones of the encoding; a settled encoder is left unchanged |
| Encoder.Encoder.Finish | heatshrink_encoder.c:253-259 | sets the flag, moves a waiting encoder on, says done exactly in the done state |
| Encoder.Encoder.Step | heatshrink_encoder.c:206-250 | one iteration keeps the invariant and scans input, or moves down the ranks of states, or pushes outgoing bits, or finds the output full |
| Encoder.Encoder.StepSearch | heatshrink_encoder.c:261-301 | chooses the greedy token at the scan position, or reports that lookahead or input has run out |
| Encoder.Encoder.TakeLiteral | heatshrink_encoder.c:288-292 | a literal moves the scan position at search time |
| Encoder.Encoder.TakeBackref | heatshrink_encoder.c:293-300 | a back-reference is recorded without moving the scan position |
| Encoder.Encoder.StepYieldTagBit | heatshrink_encoder.c:303-318 | pushes the tag and moves on to the literal or the index, or waits for room |
| Encoder.Encoder.StepYieldLiteral | heatshrink_encoder.c:320-328 | pushes the literal byte, or waits for room |
| Encoder.Encoder.StepYieldBrIndex | heatshrink_encoder.c:330-344 | pushes the index chunk by chunk, then queues the length |
| Encoder.Encoder.StepYieldBrLength | heatshrink_encoder.c:346-360 | pushes the length chunk by chunk, then moves the scan position over the match |
| Encoder.Encoder.StepFlushBitBuffer | heatshrink_encoder.c:368-381 | ends with the whole encoding emitted, or waits for room |
| Encoder.Encoder.StepSaveBacklog | heatshrink_encoder.c:586-604 | the base moves by the scan index, the unscanned bytes stay, and at least W - L + 1 bytes are free |
| Encoder.Encoder.PushBits | heatshrink_encoder.c:547-575 | appends the low bits of its argument to the stream and emits at most one byte |
| Encoder.Encoder.PushOutgoingBits | heatshrink_encoder.c:528-545 | pushes at most eight bits; pushed and remaining bits together are the field |
| Encoder.Encoder.PushLiteralByte | heatshrink_encoder.c:577-584 | pushes the byte before the scan position |
| Encoder.Encoder.AddTagBit | heatshrink_encoder.c:383-386 | pushes one bit |
| Encoder.Encoder.DoIndexing | heatshrink_encoder.c:402-439 | makes the index valid for the search states |
| Encoder.Encoder.DoneMeansEncoded | heatshrink_encoder.c:190-259 | a done encoder has emitted exactly the encoding of what was sunk |
| Encoder.Encoder.EmittedIsPrefix | heatshrink_encoder.c:190-259 | at every moment the emitted bytes begin the encoding of every continuation of the input |
| Encoder.Encoder.EmittedBound | heatshrink_encoder.c:510-525 | at every moment at most ceil(9n/8) bytes have been emitted for n sunk |
| Encoder.Encoder.WaitingMeansFlushed | heatshrink_encoder.c:261-275 | an encoder that waits for input has emitted every whole byte of the greedy tokens before the unscanned input it holds |
| Ring.RingRead | heatshrink_decoder.c:275-276 | every offset from 1 to the whole window reads the byte that many places back |
| Ring.RingWrite | heatshrink_decoder.c:278 | a write at the head replaces only the byte that leaves the window |
| Ring.BackSlot | heatshrink_decoder.c:269-276 | the masked read at head minus offset is the byte that many places back in the zero-padded output |
| Ring.RingEmit | heatshrink_decoder.c:208-213 | the masked write and the wrapped increment keep ring and head in step with the output |
| BitSource.SuspendTest | heatshrink_decoder.c:296-300 | the suspend test sees exactly whether enough bits are left in the current byte |
| BitSource.ReadBit | heatshrink_decoder.c:317-330 | a read takes the first unread bit |
| BitSource.PullByte | heatshrink_decoder.c:303-316 | pulling a byte, resetting the buffer after the last one, keeps the unread bits |
| BitSource.AppendInput | heatshrink_decoder.c:107-113 | sinking appends to the unread bits |
| Decoder.Decoder.constructor | heatshrink_decoder.c:49-70 | a new decoder is valid with nothing sunk or emitted |
| Decoder.Decoder.Reset | heatshrink_decoder.c:80-92 | reset forgets everything and is valid again |
| Decoder.Decoder.Sink | heatshrink_decoder.c:94-114 | takes the whole input or fills the buffer, never more, and appends exactly those bytes to the stream; full, without any change, exactly when there is no room |
| Decoder.Decoder.GetBits | heatshrink_decoder.c:288-335 | first in, first out; all or nothing for the one to eight bits the states ask for, and exactly what happens for larger counts |
| Decoder.Decoder.ReadBits | heatshrink_decoder.c:302-334 | the loop returns the number its bits spell, or uses up an input that is too short |
| Decoder.Decoder.Poll | heatshrink_decoder.c:135-184 | terminates; appends exactly the bytes written to the output; more exactly when the buffer is full; otherwise all that the input decodes to is out, input drained and no copy pending; silent once finish would say done |
| Decoder.Decoder.Finish | heatshrink_decoder.c:337-361 | done exactly when no copy is pending and no whole byte is unread, and then everything sunk has been decoded |
| Decoder.Decoder.Step | heatshrink_decoder.c:147-183 | one iteration keeps the invariant and reads bits, ends a copy, or leaves the state because input or output ran out |
| Decoder.Decoder.StepTagBit | heatshrink_decoder.c:186-198 | reads the tag and starts a literal or a back-reference, or finds no bit |
| Decoder.Decoder.StepYieldLiteral | heatshrink_decoder.c:200-218 | hands out and remembers a literal, or waits for input or room |
| Decoder.Decoder.StepBackrefIndexMsb | heatshrink_decoder.c:220-228 | reads the high bits of the index, or too few are there |
| Decoder.Decoder.StepBackrefIndexLsb | heatshrink_decoder.c:230-240 | completes an index within 1..W, or too few bits are there |
| Decoder.Decoder.StepBackrefCountMsb | heatshrink_decoder.c:242-250 | reads the high bits of the count, or too few are there |
| Decoder.Decoder.StepBackrefCountLsb | heatshrink_decoder.c:252-260 | completes a count within 1..L and with it the token, or too few bits are there |
| Decoder.Decoder.StepYieldBackref | heatshrink_decoder.c:262-286 | copies as much as fits; what is left to copy still leads to the expanded history |
| Decoder.Decoder.CopyByte | heatshrink_decoder.c:275-281 | one copied byte leaves the rest of the same copy to do |
| Decoder.Decoder.ParsedSoFar | heatshrink_decoder.c:135-184 | the parse of everything sunk is the tokens read and then the parse of what the machine still holds |
| Decoder.Decoder.EmittedIsPrefix | heatshrink_decoder.c:135-286 | at every moment the output begins what the bytes sunk decode to |
| Decoder.Decoder.RestIsComplete | heatshrink_decoder.c:337-361 | at rest all decodable output is out, and the unparsed bits are exactly the unfinished field and the unread bits |
| Decoder.RestIsIncomplete | heatshrink_decoder.c:343-356 | what a resting decoder holds completes no token |
| Handles.ReadHandle.Read | heatshrink.c:154-187 | looks at the next bytes without losing any: as many as asked for or all that are buffered, none only at the end of the file |
| Handles.ReadHandle.Drop | heatshrink.c:190-202 | gives up exactly the oldest bytes, refused without any change beyond the buffered ones |
| Handles.WriteHandle.Sink | heatshrink.c:206-222 | appends exactly the bytes given, flushed before or not; refused without any change if larger than the buffer |
| Handles.WriteHandle.Close | heatshrink.c:224-236 | the file then holds everything sunk |
| Client.DrainEncoder | heatshrink.c:265-269 | the poll loop terminates without error, writes exactly what the encoder emits and settles the encoder |
| Client.EncoderSinkRead | heatshrink.c:245-278 | sinks the whole read without error; an empty read finishes, and finds the end once the encoder is done |
| Client.EncodeFile | heatshrink.c:280-309 | for any file and any lengths of its reads: no error, the closed output file has gained the encoding of the file, at most three empty reads |
| Client.DrainDecoder | heatshrink.c:332-336 | the poll loop terminates without error, writes exactly what the decoder emits and drains the decoder |
| Client.DecoderSinkRead | heatshrink.c:311-346 | sinks the whole read without error, at least one byte a round |
| Client.DecodeFile | heatshrink.c:348-386 | for any bytes and any lengths of the reads: the closed output file has gained what they decode to, and the first empty read ends it |
| Client.RoundTripFile | heatshrink.c:280-386 | compressing a file and decompressing the result gives the file back |
| Schedules.Pipeline.Run | README.md:40-71 | in any valid state each of the five calls has exactly its effect: bytes taken, handed out or handed on, states reached, and nothing else changed |
| Schedules.RunInvariant | README.md:40-71 | in every run: what the decoder is fed begins what the encoder handed out, which begins the encoding; a resting decoder has handed out all it was fed |
| Schedules.RunDelivers | test_heatshrink_dynamic_theft.c:451-501 | every run's output begins the input, and is the input once the encoder is done, the decoder fed everything and at rest |
| Schedules.OneOfEachDelivers | README.md:40-71 | with large enough buffers, one call of each kind delivers the input |
| Schedules.CallAdvances | README.md:40-71 | before a run is complete, a call chosen by what the caller can see always makes progress |
| Schedules.Pipeline.OutputIsPrefix | test_heatshrink_dynamic_theft.c:451-501 | at every moment the output begins the input |
| Schedules.Pipeline.Complete | README.md:40-71 | no schedule leads into a dead end: from every state the remaining calls deliver the whole input |
| Schedules.ScheduleIndependence | heatshrink_encoder.c:190-259 | encoders done with the same input agree on the output, whatever their schedules and with or without the index |
| Schedules.RunSchedule | test_heatshrink_dynamic_theft.c:451-501 | any schedule is run call by call, each with its effect; the output then begins the input, and completing the schedule yields the input and its encoding |

## Left out

- Encoder.Encoder.constructor: takes windows of 4 to 14 bits, not 15, because at 15 bits index positions no longer fit their 16-bit types (`MatchSearch.IndexFitsWords`) and what the C code then reads is not defined by the code; the decoder takes 4 to 15.
- Encoder.Encoder.Sink: a refused call reports 0 bytes, where the C code leaves the caller's count as it was; `Encoder.Encoder.Poll` with an empty buffer does the same.
- Allocation and its failure, freeing, NULL arguments and the rejection of bad parameters: the constructors start from parameters the allocators accept.
- Aliasing: the output buffer of a poll is taken to be distinct from the machine's own arrays.
- Read and write errors, writes that take fewer bytes than given, argument parsing and reporting in `heatshrink.c`: a read returns any positive number of bytes up to its room, or none at the end of the file, and a write takes all of its bytes.
- The flags byte has one flag, so it is the boolean `finishing`; states outside the enumerations cannot occur.
- Debug logging, loop detection, the AVR cycle test, the ABI probe and the test programs.
- Compression ratio beyond the worst case, timing and memory use.
