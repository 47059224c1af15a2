# Verification of the LZ16 and rANS codecs, and of the LZFSE and zstd entropy coders beside them

This project models the two compression stages of `lib/` and the entropy coders of the bundled
LZFSE and zstd sources, and proves that what is encoded is decoded.

- **rANS second stage** (`Rans64`, `Normalize`, `Stats`, `FreqHeader`, `RansCodec`, `RansForm`,
  `RansProgram`, `RansDecoder`). A 64-bit state with 32-bit renormalisation, a division-free encoder, a frequency
  normaliser that steals slots, a header of one to four bytes a frequency, and two interleaved
  states that write one word stream backwards. `RansCodec` is the specification on values;
  `RansForm` gives the compressed form in numbers; `RansProgram` and `RansDecoder` are the
  program's loops over arrays, proved to compute it.
- **LZ16 first stage** (`Tokens`, `Nibbles`, `NibbleBuffer`, `LzDecode`, `LzRoundTrip`, `LzForm`,
  `LzErrors`, `LzMatch`, `LzSearch`, `MatchCount`, `LzCapacity`, `LzBytes`, `LzLayout`, `LzSections`, `LzOutput`, `LzEncoder`, `LzZeros`,
  `WideCopy`, `LzDecoder`). Tokens of literals and a match are split over five sections, in one
  layout for levels 1 and 3 and another for levels 2 and 4. The hash is an arbitrary function of
  two words. `Sections` and `Decoder` are classes with the program's cursors; every method is tied
  to the specification functions. The sections lie in one output memory of arbitrary content,
  cleared as far as the program clears it; `LzOutput` says what comes out of that.
- **Both stages** (`Container`, `ContainerProgram`). Which sections the second stage codes, and that both stages
  together return the input.
- **LZFSE** (`FseTables`, `FseStream`, `FseLiterals`, `FseLiteralCoder`, `FseMatches`,
  `FseMatchCoder`, `FseNormalize`, `FseFreqTable`, `FseBlock`, `FseForm`, `Lzvn`,
  `LzvnStream`, `LzvnPrinter`, `LzvnParser`). The tANS tables, the bit streams as a stack, the literal payload, the match
  payload with the program's three coders, the normaliser, the packed frequency header, a whole
  block of them, and LZVN: its opcodes and whole streams.
- **zstd** (`ZstdSpread`, `ZstdTable`, `ZstdCells`, `ZstdBuilder`). The decoding-table builder: the
  walk over the cells, the two ways of spreading, the state intervals, and every cell in numbers.
- `Arith`, `Words` and `Bytes` hold powers of two, division facts and little-endian storage.

Bytes and words are bounded naturals; shifts and masks are division and remainder by powers of
two, and every narrowing or wrap-around of the source is written out. A read outside a buffer,
a shift by the full width and a division by zero have no defined result in the source; the
specifications say so (`Undefined`, `DividesByZero`) instead of excluding the input.

## What was found

- The three-byte form of the rANS header narrows bits 16 to 21 to a byte before shifting them
  down (`lib/c/rans64me.c:77`), so they are lost. `FreqHeader.FreqRoundTrip` says exactly for which
  values the header works; normalised frequencies never exceed `2^14` and are all among them.
- At levels 2 and 4 the second stage also codes an *empty* distance section when a later section
  has 4096 bytes, and the normaliser then divides by the total 0.
  `Container.DividesByZeroExactly` gives the exact condition and `Container.ZerosDivideByZero` a
  family of inputs.
- The nibbles of the fifth section are or-ed into the output, of which only the first
  `2 * inlen` bytes are cleared (`lib/c/lz16encode.c:21-26`). With an output of 2.5 times the input
  or more the whole section lies behind the cleared part (`LzOutput.ReservesExceed`); the retry in
  `lib/c/lz16.c:49-58` always asks for such an output. `LzOutput.EncodeOutcomeExactly` gives the
  exact condition under which the sections come out as specified, and what a caller has to see to;
  `LzZeros.UncleanMemoryLosesInput` is a family of inputs and memories for which the result cannot
  be decoded.
- The reserves of the five sections together are larger than the least output the length check
  accepts (`LzOutput.ReservesExceed`). What is written ends earlier: `LzEncoder.Lz16Encode` says
  where, and `LzOutput.StaysInside` how long an output is always enough.
- The comment in `lib/c/lz16encode.h:242` speaks of one to four words left for the last block;
  the code leaves at least four whole words after a token (`LzMatch.RestIsLong`).
- The two-word copy of the LZ16 decoders (`lib/c/lz16decode.c:112`, `:226`) is the one copy that
  does not check the end of the output; on encoder output it stays inside
  (`LzDecoder.NoSpill`), on other streams the specification has no defined result.
- The LZFSE encoder puts 8 padding bytes in front of the match payload
  (`other/lzfse/src/lzfse_encode_base.c:318-324`); 7 bytes in front of a payload are enough (`FseLiterals.LiteralsRoundTrip`, `FseStream.InStream.Flush`).

## Model

| member | source | states |
|---|---|---|
| Rans64.RenormRange | lib/rans/rans64.h:81-89 | Renormalising pushes at most one word, the word and the state together are the old state, and the new state lies in `[freq * 2^(31-bits), freq * 2^(63-bits))`, so the renormalisation never needs to loop. |
| Rans64.EncStepInvariant | lib/rans/rans64.h:77-93 | From a state in `[2^31, 2^63)` one encoder step ends in the same interval and pushes at most one word, for every slot of every scale up to 31 bits. |
| Rans64.PutThenGet | lib/rans/rans64.h:123-132 | The decoding function undoes the coding function and the low bits of the coded state name a position inside the symbol's slot. |
| Rans64.RefillUndoesRenorm | lib/c/rans64me.c:152-160 | The decoder's state is below `2^31` exactly when the encoder pushed a word; taking that one word back restores the state, so the `while` refill runs at most once and leaves later words alone. |
| Rans64.StepRoundTrip | lib/rans/rans64.h:77-142 | One encoder step followed by one decoder step is the identity on state and word stack. |
| Rans64.ReciprocalDivides | lib/rans/rans64.h:173-188 | Multiplying by the exact reciprocal and shifting is integer division, for every 63-bit number. |
| Rans64.UnitFrequency | lib/rans/rans64.h:192-221 | The special case of frequency 1: with reciprocal `2^64 - 1` and bias `start + M - 1` the multiply-high form gives `x * M + start` modulo `2^64`. |
| Rans64.SplitReciprocalIsExact | lib/rans/rans64.h:230-240 | The quotient put together from the two 64:64 bit divisions fits 64 bits and is `ceil(2^(shift+63) / freq)`. |
| Rans64.Reciprocal | lib/rans/rans64.h:230-240 | The imperative long division returns that reciprocal without leaving 64-bit words. |
| Rans64.EncSymbolInit | lib/rans/rans64.h:167-247 | The initialised symbol is faithful: on every state from 1 to `2^63 - 1` the multiply-high form equals `(x / freq) * M + x % freq + start` modulo `2^64`, for every frequency and scale up to 31 bits. |
| Normalize.DonorIsBest | lib/rans/rans64_main.h:57-66 | The donor search returns the first symbol of smallest width above 1, or none when no width is above 1. |
| Normalize.DonorExists | lib/rans/rans64_main.h:67-67 | Pigeonhole over the 256 symbols: whenever a used symbol has no slot, a donor with width above 1 exists and it is another symbol. |
| Normalize.StealWidths | lib/rans/rans64_main.h:68-76 | Shifting the cumulative sums between donor and receiver changes exactly two widths by one. |
| Normalize.FeedKeepsFair | lib/rans/rans64_main.h:53-78 | Each turn of the repair loop keeps the sums monotone and the total at the target, keeps unused symbols without slots, and settles one more used symbol. |
| Normalize.FeedTakesNarrowest | lib/rans/rans64_main.h:53-78 | One repair moves one slot: the starved symbol gains it, the first of the narrowest symbols with more than one slot loses it, no other width changes. |
| Normalize.NormaliseIsSlotTable | lib/rans/rans64_main.h:38-90 | For every histogram with a total from 1 to `2^32 - 1` the result sums to the target and is positive exactly where the count was. |
| Normalize.NormaliseIsProportional | lib/rans/rans64_main.h:45-78 | The normaliser scales: every boundary is `target * sum / total` rounded down, up to one slot for every symbol that would lose all its slots; such a symbol gets exactly one slot, any other less than its share plus one, and when no symbol loses all, more than its share less one. |
| Normalize.NormaliseIsIdempotent | lib/c/rans64me.c:129-129 | Normalising a normalised table again changes nothing, which the decoder relies on. |
| Stats.CountIsHistogram | lib/rans/rans64_main.h:22-29 | The counts total the input's length and are positive exactly for the bytes that occur. |
| Stats.CountIsOccurrences | lib/rans/rans64_main.h:22-29 | The count of a byte is its multiplicity in the input. |
| Stats.SStats.CountFreqs | lib/rans/rans64_main.h:22-29 | The counting loop leaves in every entry the multiplicity of its byte in the input. |
| Stats.SStats.CalcCumFreqs | lib/rans/rans64_main.h:31-36 | The cumulative array becomes the prefix sums of the frequencies. |
| Stats.SStats.FindDonor | lib/rans/rans64_main.h:57-66 | The inner search loop returns the specification's donor. |
| Stats.SStats.StealSlot | lib/rans/rans64_main.h:68-76 | The two shifting loops change the cumulative array as `Steal` says, in either direction. |
| Stats.SStats.NormalizeFreqs | lib/rans/rans64_main.h:38-90 | The record is updated in place: cumulative sums proportional to the counts in the sense of `NormaliseIsProportional`, the normalised ones of the specification, and frequencies that are their differences. |
| FreqHeader.FreqRoundTrip | lib/c/rans64me.c:66-81 | One header entry always leaves the cursor right, and the value comes back exactly when it is below `2^16` or from `2^22` to `2^30 - 1`. |
| FreqHeader.HeaderRoundTrip | lib/c/rans64me.c:65-126 | All frequencies of a table come back from the header whenever they are below `2^16`, which normalised ones are, with the bytes behind it untouched. |
| RansCodec.ByteRoundTrip | lib/c/rans64me.c:52-59 | One byte through one of the two states: the decoder names the byte and returns state and words. |
| RansCodec.PairRoundTrip | lib/c/rans64me.c:35-61 | Two bytes pushed in reverse order through the two interleaved states over one word stack come back in order. |
| RansCodec.DecodeUndoesEncode | lib/c/rans64me.c:141-168 | For every table that covers the input, odd lengths included, the decoding loop returns the input, both states end at `2^31`, and exactly the emitted words are consumed. |
| RansCodec.RansRoundTrip | lib/c/rans64me.c:11-170 | The full second-stage round trip: every non-empty byte string below `2^31` bytes is returned by `Uncompress` from `Compress`, whatever bytes follow and for every output large enough. |
| RansCodec.CompressBound | lib/c/rans64me.c:84-92 | A compressed section is at most twice the input plus 536 bytes. |
| RansForm.CodesAreOrdered | lib/rans/rans64.h:92-93 | The codes of a symbol are in the order of the states they stand for. |
| RansForm.EveryCodeIsUsed | lib/rans/rans64.h:123-132 | Every number whose remainder lies in a symbol's slots is the code of the state the decoder gets from it, so the coding function is the one order-preserving map onto those numbers. |
| RansForm.OneByteMore | lib/c/rans64me.c:19-61 | A byte put in front of an input swaps the two states and is coded, in slots of 14 bits, on the one that comes first, its word in front of all others; both states begin at `2^31`. This determines states and words of every input. |
| RansForm.WordByNumber | lib/c/rans64me.c:44-45 | A word of 32 bits is stored lowest byte first. |
| RansForm.FrequencyByNumber | lib/c/rans64me.c:66-81 | The bytes of a header entry as a number: the length by the thresholds `2^6`, `2^14` and `2^22`, the number of further bytes in the two low bits, the frequency above them, and of a three-byte entry only the low sixteen bits. |
| RansForm.SectionByNumber | lib/c/rans64me.c:62-92 | A section is its uncompressed length, its own length, the header, both states, the one of the first byte first and each low half first, and the words. |
| RansForm.OneSymbol | lib/c/rans64me.c:11-93 | What an input of `n` equal bytes compresses to, byte by byte: 282 bytes for every `n`, with both states where they began. |
| RansForm.TooLongExactly | lib/c/rans64me.c:103-104 | A section is rejected exactly when its length field is a length and more than the output holds; data come back in exactly that length. |
| RansProgram.EncPutSymbol | lib/rans/rans64.h:262-278 | The imperative multiply-high step in wrapping arithmetic, on a downward-filling buffer, is the exact coding step. |
| RansProgram.PutFreq | lib/c/rans64me.c:66-81 | One header entry is written below the cursor in its one to four byte form. |
| RansProgram.EncodeOddByte | lib/c/rans64me.c:29-33 | The odd last byte goes through state 0 alone. |
| RansProgram.EncPutPair | lib/c/rans64me.c:35-61 | One turn of the reversed loop is the specification's pair step on states and words. |
| RansProgram.EncodeBytes | lib/c/rans64me.c:29-61 | Odd byte and reversed loop together leave in buffer and states what `EncodeAll` says. |
| RansProgram.EncFlush | lib/rans/rans64.h:96-103 | The flush stores the low and the high word of a state below the cursor. |
| RansProgram.Ranscompress | lib/c/rans64me.c:11-93 | The whole compressor writes exactly `Compress(data)` at the end of the output area, with the two lengths in front, and touches nothing below it. |
| RansDecoder.ReadFreqs | lib/c/rans64me.c:106-127 | The header loop reads 256 frequencies as the specification does, or finds the bytes exhausted. |
| RansDecoder.BuildSlots | lib/c/rans64me.c:130-133 | The slot-to-symbol array maps every slot to the symbol whose range holds it. |
| RansDecoder.DecRefill | lib/c/rans64me.c:154-154 | The refill loop over a byte buffer is the refill of the specification. |
| RansDecoder.DecodeBytes | lib/c/rans64me.c:145-168 | The decoding loop with its odd last byte writes exactly what `DecodeAll` decodes and nothing behind it. |
| RansDecoder.Ransuncompress | lib/c/rans64me.c:95-170 | For every byte string the decoder reports what `Uncompress` says: the data, the rejection code, or no defined result. |
| Nibbles.ReadLengthOfCode | lib/c/lz16decode.h:26-44 | Every length from 0 on is read back from its nibble code, wherever the code lies and whatever surrounds it. |
| Nibbles.LengthCodeSize | lib/c/lz16encode.h:39-58 | A length takes at most one nibble per unit and one more. |
| Nibbles.OrDisjoint | other/lzfse/src/lzfse_fse.h:262-268 | Or-ing disjoint bit ranges is adding, which is how the bit streams and the packed frequency header collect their bits. |
| Nibbles.OrBytes | lib/c/lz16encode.h:39-58 | Or-ing two bytes or-s their low and their high halves apart from each other. |
| Nibbles.OrAbsorbs | lib/c/lz16encode.h:39-58 | Or-ing leaves the written value as it is if and only if every bit that was there before is one of its bits. |
| NibbleBuffer.PutNibble | lib/c/lz16encode.h:40-43 | The short or-assign store at the half-byte cursor or-s one more nibble over whatever the memory holds, and changes nothing outside the section. |
| NibbleBuffer.PutByte | lib/c/lz16encode.h:310-311 | The wide or-assign store or-s two more nibbles across one or two bytes at the same cursor, over whatever is there. |
| NibbleBuffer.WriteLength44 | lib/c/lz16encode.h:39-58 | The length writer or-s the code of its length in at the shared cursor, in all three forms. |
| NibbleBuffer.LoadIsNibbles | lib/c/lz16decode.h:26-44 | A 16-bit load shifted by the half-byte cursor shows the nibbles at the cursor. |
| NibbleBuffer.ReadLength44 | lib/c/lz16decode.h:26-44 | The length reader returns the specification's value and cursor for every section content. |
| Tokens.CopyMatch | lib/c/lz16decode.c:64-90 | The forward overlapping copy: the old output is kept and every new word equals the one `dist` places before it. |
| LzRoundTrip.DistanceRoundTrip | lib/c/lz16encode.h:25-37 | The split distance of up to 20 bits is put together again by the decoder, with both cursors behind what was written. |
| LzRoundTrip.NarrowMatch | lib/c/lz16encode.h:349-369 | A match token of levels 1 and 3 is read back. |
| LzRoundTrip.NarrowTwo | lib/c/lz16encode.h:370-378 | A two-word token of levels 1 and 3 is read back. |
| LzRoundTrip.PackedBareMatch | lib/c/lz16encode.h:293-307 | A match token of levels 2 and 4 without literals is read back. |
| LzRoundTrip.PackedBareTwo | lib/c/lz16encode.h:308-314 | A two-word token of levels 2 and 4 without literals, with eight distance bits among the nibbles, is read back. |
| LzRoundTrip.PackedLitsMatch | lib/c/lz16encode.h:316-338 | A match token of levels 2 and 4 with literals is read back. |
| LzRoundTrip.PackedLitsTwo | lib/c/lz16encode.h:316-344 | A two-word token of levels 2 and 4 with literals is read back. |
| LzRoundTrip.TokenRoundTrip | lib/c/lz16decode.c:10-252 | Any token in any context: all five cursors land behind what was printed and the output is the token's meaning. |
| LzRoundTrip.TokensRoundTrip | lib/c/lz16decode.c:31-115 | A printed token stream, whatever follows it, decodes to its meaning, cursors agreeing after every token. |
| LzRoundTrip.TailRoundTrip | lib/c/lz16decode.c:116-134 | The last block and the odd last byte are read back. |
| LzRoundTrip.SectionsRoundTrip | lib/c/lz16encode.h:240-258 | Tokens and last block together decode to the input bytes. |
| LzForm.WordsByNumber | lib/c/lz16encode.h:227-231 | Words of the input have their low byte first. |
| LzForm.DistanceByNumber | lib/c/lz16encode.h:154-168 | The distance flag `iixx,dddd` as documented: below 32 in five bits, otherwise four bits, a bit for one or two bytes, and those bytes lowest first. |
| LzForm.NarrowByNumber | lib/c/lz16encode.h:177-182 | The fields of a token of levels 1 and 3: identity, `mmmd,dddd`, and the two lengths among the nibbles in their order. |
| LzForm.PackedTwoByNumber | lib/c/lz16encode.h:171-176 | Levels 2 and 4, two words without literals: no flag byte, eight bits of the distance among the nibbles. |
| LzForm.PackedMatchByNumber | lib/c/lz16encode.h:171-176 | Levels 2 and 4, a match without literals: `mmmd,dddd`, its length continued among the nibbles. |
| LzForm.PackedRunByNumber | lib/c/lz16encode.h:171-176 | Levels 2 and 4, literals and two words: `ccdd,dddd`, the literal length continued among the nibbles. |
| LzForm.PackedBothByNumber | lib/c/lz16encode.h:171-176 | Levels 2 and 4, literals and a match: `mmmc,cddd`, the continued literal length in front of the match length. |
| LzForm.LengthByNumber | lib/c/lz16encode.h:39-58 | The nibbles of every length: one, two, or bytes of 255 for 30 and each further 255 and a byte of what is left. |
| LzForm.TailByNumber | lib/c/lz16encode.h:17-23 | The bytes of the last block's length: one below 15, otherwise 15, bytes of 255 and the rest. |
| LzErrors.TokenRefused | lib/c/lz16decode.c:31-115 | Any token in any context that does not fit: -3 for literals beyond the output, else -4 for a distance before its start, else -3 for a match of three words or more beyond the output. |
| LzErrors.StreamRefused | lib/c/lz16decode.c:10-115 | A stream is decoded up to its first such token and refused with its error, whatever follows; one longer than the output is refused with -2 at once. |
| LzMatch.FindIsSound | lib/c/lz16encode.c:107-155 | Whatever hash and tables say, a hit is a true match at a distance below `2^20` that leaves at least four whole words of the input, and the ring holds only positions already passed. |
| LzSearch.FindExactly | lib/c/lz16encode.c:107-155 | The search both ways: no hit when the candidate under the key of `w[p]` and `w[p+1]` does not agree in two words; otherwise that candidate, or the one in slot `4 * key + w[p+8] % 4` of the ring if it agrees and its counted length is longer, and a hit exactly when the one chosen is less than `2^20` words away. Only an agreeing candidate lets the position into the ring. |
| LzSearch.MatchIsFound | lib/c/lz16encode.c:48-60 | Completeness: a candidate of the table that agrees and is near enough is found, no shorter than its counted length, unless the ring's candidate agrees and is too far back. |
| LzSearch.FillEnters | lib/c/lz16encode.h:139-148 | After the positions from `p` to `q - 1` are entered each key of theirs holds the last such position and every other key what it held. |
| LzSearch.TurnExactly | lib/c/lz16encode.c:42-60 | One turn: what the search finds, one literal or one token with the literals, length and distance of the hit, the position moved behind it, and each key of the positions entered (one, two, or `min(length, distance)` of them) holding the last such position. |
| LzSearch.PatternIsFound | lib/c/lz16encode.c:28-65 | Any input that repeats its first `d` words, whose pairs have different keys: the first token holds the pattern as its literals and repeats it from distance `d` over all words compared but one. |
| LzMatch.PairRepeats | lib/c/lz16encode.h:84-137 | A match makes the data periodic: every word pair inside it repeats one of the first `dist` pairs. |
| LzMatch.ShortFillCoversMatch | lib/c/lz16encode.h:139-148 | Entering only `min(m, n)` positions touches every key of the match, and for an overlapping match exactly those keys. |
| LzMatch.StepKeepsGood | lib/c/lz16encode.c:42-60 | One turn of the search loop keeps the invariant: tables hold earlier positions, the tokens so far mean the input so far, the next token will leave four words. |
| LzMatch.TokenMeansInput | lib/c/lz16encode.c:42-60 | Appending the token of a true match extends the meaning by exactly the input it covers. |
| LzMatch.RestIsLong | lib/c/lz16encode.h:233-242 | At least four whole words are left for the last block whenever a token was emitted. |
| LzMatch.Lz16RoundTrip | lib/c/lz16decode.c:10-252 | Decoding the sections an input stands for returns the input, for every input longer than eight bytes, every pad byte, every hash function, both searches and both layouts. When the memory holds these sections is `LzOutput.EncodeOutcomeExactly`. |
| MatchCount.CarriesLocate | lib/c/lz16encode.h:69-69 | The branch-free sum of three carries counts the words behind the first difference. |
| MatchCount.CommonGrows | lib/c/lz16encode.h:65-68 | One group of the counting loop either finds the exact length of the common run or extends it by four. |
| LzSearch.ExtraIsCounted | lib/c/lz16encode.h:60-71 | The length of a match without the counting loop's terms: up to the first difference among two words and the groups of four that start before the search's end, one short of them when all agree. |
| MatchCount.CharEqCount | lib/c/lz16encode.h:60-71 | The counting macro is sound (all counted words agree), exact when a difference stopped it, one short of the words compared otherwise, and reads inside the input only. |
| LzCapacity.TokensSize | lib/c/lz16encode.h:291-378 | A token stream takes one identity byte, at most one flag byte and two distance bytes per token, and no more nibbles than words. |
| LzCapacity.SectionsFit | lib/c/lz16encode.h:187-202 | Sections 1 to 4 fit their capacities for every input, and with the large capacities the literal section does too. |
| LzCapacity.DistanceStoreFits | lib/c/lz16encode.h:32-34 | Tokens number at most a quarter of the bytes less two, and the four-byte store of a distance stays inside the distance section. |
| LzSections.Sections.PutDistance | lib/c/lz16encode.h:25-37 | The distance macro appends identity byte and zero to two distance bytes, although it stores four. |
| LzSections.Sections.EmitNarrow | lib/c/lz16encode.h:349-378 | The emission macro of levels 1 and 3 appends exactly the token's fragment to all five sections of the one output memory, the nibbles or-ed over what it holds. |
| LzSections.Sections.EmitPacked | lib/c/lz16encode.h:291-344 | The emission macro of levels 2 and 4 does so in its layout. |
| LzSections.Sections.PutTailLength | lib/c/lz16encode.h:17-23 | The byte run of the last block's length is appended. |
| LzSections.Sections.PutTail | lib/c/lz16encode.h:240-253 | The last block's words, length, end marker and half-written byte go to the sections. |
| LzSections.Sections.Merge | lib/c/lz16encode.h:260-270 | The copying loop moves the sections together: behind the header lie the five sections one right behind the other, and nothing behind the nibbles used has changed. |
| LzEncoder.FillTable | lib/c/lz16encode.h:139-148 | The filling loop leaves in each key of the positions entered the last such position and changes no other key. |
| LzEncoder.FindMatch | lib/c/lz16encode.c:123-153 | The imperative search enters the position in the hash table and finds what `FindExactly` says, for one and for two candidates, the ring updated in place. |
| LzEncoder.EncodeTurn | lib/c/lz16encode.c:42-60 | One turn of the loop performs one `Step` on input position, literal count, tables and sections. |
| LzEncoder.EncodeLoop | lib/c/lz16encode.c:42-60 | The whole loop performs `Run`; every store of sections 1 to 4 stays inside its reserve, and literals that exceed theirs stay in front of the nibbles. |
| LzEncoder.EncodeSections | lib/c/lz16encode.c:28-65 | On any output memory the imperative encoder writes exactly `EncodeStreams`, the nibbles over what was there. |
| LzEncoder.Clear | lib/c/lz16encode.c:24-24 | The memory is cleared for twice the length of the input and no further. |
| LzEncoder.Lz16Encode | lib/c/lz16encode.c:28-214 | For every initial content of the output memory the encoders report refusal, overflow or the five lengths exactly as `EncodeOutcome` says, leave the merged sections behind the header, and change nothing behind the cleared part and the used nibbles. |
| LzEncoder.MemoryDecodes | lib/c/lz16decode.c:19-24 | The bytes left in memory, cut by the five lengths, decode to the input when the used nibble bytes were clean, whatever follows them. |
| LzOutput.OverlaidExactly | lib/c/lz16encode.h:39-58 | The nibbles come out as specified if and only if each used byte lies in the cleared memory or its old bits are among those written. |
| LzOutput.EncodeOutcomeExactly | lib/c/lz16encode.c:21-26 | Encoding is refused exactly for unfit lengths, overflows exactly when the literals exceed their reserve, never with an output of 2.5 times the input. The sections come out as specified if and only if every used nibble byte is clean, which zeros between the cleared memory and the end of the reserves guarantee; they then decode to the input. |
| LzOutput.MergedDecodes | lib/c/lz16decode.c:19-24 | Cutting the merged bytes by the lengths in the header gives the sections back. |
| LzOutput.ReservesExceed | lib/c/lz16encode.h:187-202 | The reserves end behind an output of exactly twice, or exactly 2.5 times, the input; the nibble section always starts inside the output, and with the larger reserves it starts behind everything that is cleared. |
| LzOutput.ReservesByNumber | lib/c/lz16encode.h:187-202 | The accepted lengths and the five reserves in bytes, for both sizes of output. |
| LzOutput.StaysInside | lib/c/lz16encode.h:204-231 | The used nibble bytes number less than a quarter of the input's, so with 84 bytes more than those least outputs nothing is written behind the output. |
| LzZeros.UncleanMemoryLosesInput | lib/c/lz16encode.c:21-26 | Zeros as input, an output of 2.5 times their number and ones in the memory behind the cleared part: encoding succeeds, decoding the result has no defined outcome, in both layouts and with both searches. |
| WideCopy.CopyIsUnique | lib/c/lz16decode.h:18-24 | Any output that keeps what was there and repeats it at the distance is the word-by-word copy. |
| WideCopy.CopyLiterals | lib/c/lz16decode.h:18-24 | Copying literals four words at a time appends exactly the literals and spills at most three words behind them. |
| WideCopy.CopyFar | lib/c/lz16decode.h:18-24 | Copying four words at a time over a distance above 3 is the overlapping word-by-word copy. |
| WideCopy.CopyNear | lib/c/lz16decode.c:75-90 | The repeated eight-byte store for distances 1 to 3 is the overlapping word-by-word copy. |
| LzDecoder.Decoder.ReadDistance | lib/c/lz16decode.c:33-40 | The cursor update of identity and distance bytes is the specification's, for every section content. |
| LzDecoder.Decoder.CopyWide | lib/c/lz16decode.c:64-90 | Length check, distance check and both copy paths do what `TakeMatch` says. |
| LzDecoder.Decoder.DecodeNarrow | lib/c/lz16decode.c:160-227 | One turn of the level 1/3 decoder is `TakeNarrow`, error codes included. |
| LzDecoder.Decoder.DecodePacked | lib/c/lz16decode.c:33-114 | One turn of the level 2/4 decoder is `TakePacked`, error codes included. |
| LzDecoder.Decoder.DecodeTokens | lib/c/lz16decode.c:31-115 | The token loop is `TakeAll` and writes at most four words behind its output. |
| LzDecoder.Decoder.DecodeTailWords | lib/c/lz16decode.c:117-134 | The last block's words and its one or two last bytes are written as the specification says. |
| LzDecoder.Lz16Decode | lib/c/lz16decode.c:10-252 | For every section content, both decoders return the specification's bytes or error code, and a success leaves everything behind `Reach` untouched. |
| LzDecoder.NoSpill | lib/c/lz16decode.c:192-211 | On encoder output all wide stores stay inside the input's length, although the decoder does not check it. |
| Container.SectionsReturn | lib/c/rans64me.c:186-203 | Whatever trailing part of the sections is coded, all sections come back from the joined data. |
| Container.CodedCountExactly | lib/c/rans64me.c:186-203 | The sections up to the last one of 4096 bytes or more are coded, and no others. |
| Container.PlainExactly | lib/c/rans64me.c:186-203 | Nothing is coded if and only if all sections are shorter than 4096 bytes; otherwise the number of coded sections is that of the last one that is not. |
| ContainerProgram.StoreSections | lib/c/rans64me.c:178-204 | The loop from the last section to the first leaves the coded and plain sections joined at the end of the output, with their lengths and number, or stops where the program would divide by zero. |
| ContainerProgram.LoadSections | lib/c/rans64me.c:244-263 | The loop from the first section to the last returns what the specification reads back. |
| Container.SecondStageReturns | lib/c/rans64me.c:173-267 | Whenever the second stage codes sections, decoding both stages is decoding the sections, whatever they hold. |
| Container.BothStagesRoundTrip | lib/c/rans64me.c:173-267 | Whenever the second stage codes the sections of an input whose used nibble bytes were clean, decoding them and then the tokens returns the input. |
| Container.OnlyDistancesCanBeEmpty | lib/c/lz16encode.h:240-258 | The encoder leaves no section empty except the one with the distance bytes. |
| Container.DividesByZeroExactly | lib/c/rans64me.c:188-199 | The second stage divides by zero if and only if no distance byte was written and the flag or the nibble section has 4096 bytes or more, whatever the output memory held. |
| Container.ZerosDivideByZero | lib/rans/rans64_main.h:42-47 | A family of inputs on which it happens: `8j + 20` zero bytes for every `j` from `2^18` to `2^26 - 1`, with every accepted output length and every memory. |
| FseTables.ShiftBounds | other/lzfse/src/lzfse_fse.c:39-40 | The difference of leading-zero counts brings the frequency between the number of states and twice that number. |
| FseTables.EncodeThenDecode | other/lzfse/src/lzfse_fse.h:495-532 | Every state is encoded into the symbol's slots, and the decoder entry there names the symbol, asks for exactly the bits written and leads back to the state. |
| FseTables.DecodeThenEncode | other/lzfse/src/lzfse_fse.h:495-532 | The other direction: every slot with every value of its bits is a state, and encoding that state writes those bits and returns to the slot. |
| FseTables.FieldsFit | other/lzfse/src/lzfse_fse.c:41-44 | With up to `2^14` states every table field fits its 16-bit signed integer. |
| FseTables.DecTableAt | other/lzfse/src/lzfse_fse.c:80-94 | Entry `offset + j` of the decoder table is slot `j` of the symbol with that offset. |
| FseTables.TablesInvert | other/lzfse/src/lzfse_fse.c:31-98 | The two tables are mutually inverse for every power of two of states and every frequency table that fits it. |
| FseForm.SlotByNumber | other/lzfse/src/lzfse_fse.c:80-94 | Slot `j` of a symbol of frequency `f` stands for `f + j`, shifted by the slot's bits until it lies from the number of states to twice that; the next state is what it exceeds the number of states by. |
| FseTables.InitEncoderTable | other/lzfse/src/lzfse_fse.c:31-48 | The loop fills every used symbol's entry and leaves the others as they are; the field computed with a shift by minus one is left open. |
| FseTables.InitDecoderTable | other/lzfse/src/lzfse_fse.c:57-98 | The nested loops lay out the decoder table, failing exactly when the frequencies exceed the states, with the symbols up to there laid out. |
| FseStream.PopUndoesPush | other/lzfse/src/lzfse_fse.h:262-268 | The stream is a stack of bit groups: the group pushed last is on top, and removing it restores the stream. |
| FseStream.PopTwo | other/lzfse/src/lzfse_fse.h:539-549 | Pulling two adjacent groups at once yields both, the later one in the high bits. |
| FseStream.OutStream.Push | other/lzfse/src/lzfse_fse.h:262-268 | Or-ing bits above the accumulator pushes them, without overflow of 64 bits. |
| FseStream.OutStream.Flush | other/lzfse/src/lzfse_fse.h:181-195 | Moving whole bytes to the buffer leaves the stream as it is and at most seven bits in the accumulator. |
| FseStream.OutStream.Finish | other/lzfse/src/lzfse_fse.h:223-237 | The finished bytes are the stream's number, and the bit count becomes the negated padding of 0 to 7 bits. |
| FseStream.InStream.Init | other/lzfse/src/lzfse_fse.h:300-325 | Opening for reading succeeds exactly when there are enough bytes and the padding is zero, and then shows the whole stream. |
| FseStream.InStream.Flush | other/lzfse/src/lzfse_fse.h:361-378 | Refilling leaves the stream as it is and fails exactly when fewer than 56 bits lie above the buffer's start. |
| FseStream.InStream.Pull | other/lzfse/src/lzfse_fse.h:407-413 | Pulling returns the top bits and removes them. |
| FseLiterals.OneRoundTrip | other/lzfse/src/lzfse_fse.h:495-532 | One symbol through tables and stream comes back with state and stream in front of it. |
| FseLiterals.DecTableIsSafe | other/lzfse/src/lzfse_fse.c:57-98 | A decoder table never leads out of the states, whatever bits it is fed. |
| FseLiterals.GroupRoundTrip | other/lzfse/src/lzfse_encode_base.c:281-304 | Four literals through four states over one stream, written last to first, come back first to last. |
| FseLiterals.GroupsRoundTrip | other/lzfse/src/lzfse_encode_base.c:269-308 | With 56 bits in front of the payload no refill fails, all literals come back, and states and stream end where the encoder began. |
| FseLiterals.LiteralsRoundTrip | other/lzfse/src/lzfse_decode_base.c:440-483 | What the encoder wrote and recorded in the header decodes to the literals; seven bytes in front of the payload are enough. |
| FseForm.FirstLiteralOnTop | other/lzfse/src/lzfse_encode_base.c:281-304 | After a group is coded its four states name its four literals in order, and the bits of the first one are on top of the stream. |
| FseForm.RecordedStates | other/lzfse/src/lzfse_encode_base.c:269-303 | The states a header records of a literal payload name its first four literals. |
| FseLiteralCoder.PutSymbol | other/lzfse/src/lzfse_fse.h:495-515 | The imperative encoder step writes the specification's bits and moves to its state. |
| FseLiteralCoder.EncodeLiterals | other/lzfse/src/lzfse_encode_base.c:269-308 | The literal loop writes a payload that the returned record describes, or reports a full output exactly when less than 16 bytes are left before the first group. |
| FseLiteralCoder.DecodeLiterals | other/lzfse/src/lzfse_decode_base.c:440-483 | For every buffer and header the literal loop of the decoder returns what the specification decodes, or fails as it does. |
| FseMatches.DistanceRangesContiguous | other/lzfse/src/lzfse_internal.h:600-614 | The 64 distance ranges follow one another without gap and cover 0 to 262139. |
| FseMatches.LengthRangesContiguous | other/lzfse/src/lzfse_internal.h:588-599 | The 20 ranges of literal lengths and of match lengths do too, up to 315 and 2359. |
| FseForm.LiteralLengthSymbols | other/lzfse/src/lzfse_internal.h:588-593 | The symbol of every literal length, by value. |
| FseForm.MatchLengthSymbols | other/lzfse/src/lzfse_internal.h:594-599 | The symbol of every match length, by value. |
| FseForm.DistanceSymbols | other/lzfse/src/lzfse_internal.h:600-614 | Distance symbol `4 * e + q` has `e` extra bits and starts at `(4 + q) * 2^e - 4`. |
| FseMatches.TripleWidths | other/lzfse/src/lzfse_encode_base.c:332-360 | A triple takes at most 14, 17 and 23 bits, so it fits the accumulator beside seven bits left over. |
| FseMatches.ValueRoundTrip | other/lzfse/src/lzfse_fse.h:539-549 | A value pushed as extra bits and symbol is read back in one pull, with state and stream. |
| FseForm.ValueOnTop | other/lzfse/src/lzfse_fse.h:539-549 | On top of the stream of a coded value are the state's bits, and right below them the value's distance from the first of its range. |
| FseForm.LengthOnTop | other/lzfse/src/lzfse_encode_base.c:328-366 | Of a coded triple the literal length is on top, the match length below it and the distance at the bottom. |
| FseMatches.TriplesRoundTrip | other/lzfse/src/lzfse_encode_base.c:310-376 | All triples come back, no refill fails with 56 bits in front, and states and stream end where the encoder began. |
| FseMatches.DistancesReturn | other/lzfse/src/lzfse_decode_base.c:210-214 | Replacing a repeated distance by zero is undone by the decoder, which never uses its illegal first distance. |
| FseMatches.MarkRepeats | other/lzfse/src/lzfse_encode_base.c:198-206 | The in-place loop marks exactly the repeated distances. |
| FseMatchCoder.EncodeTriples | other/lzfse/src/lzfse_encode_base.c:328-366 | The match loop leaves states and stream as the specification says, or reports a full output exactly when less than 16 bytes are left before the first triple. |
| FseMatchCoder.TakeValueSafe | other/lzfse/src/lzfse_fse.h:539-549 | With a value's width of bits available the decoder stays inside its states and its stream, whatever the bits are. |
| FseMatchCoder.DecodeTriples | other/lzfse/src/lzfse_decode_base.c:190-215 | For every stream the decoder's loop returns the triples of the specification, or fails as it does. |
| FseBlock.ProgramCodersValid | other/lzfse/src/lzfse_encode_base.c:332-360 | The program's three coders, with 64, 64 and 256 states and widths 14, 17 and 23, are coders in the sense of the match round trip: ranges contiguous, widths enough, 54 bits together. |
| FseBlock.KnownExactly | other/lzfse/src/lzfse_internal.h:588-614 | They know exactly the triples with values below 316, 2360 and 262140 whose symbols occur. |
| FseBlock.MatchesRoundTrip | other/lzfse/src/lzfse_decode_base.c:490-510 | What the encoder wrote and recorded of the matches decodes to them; seven bytes in front of the payload are enough. |
| FseBlock.EncodeMatches | other/lzfse/src/lzfse_encode_base.c:310-380 | Padding, loop and finish leave a payload behind eight zero bytes that the returned record describes, or report a full output exactly when there is no room for the padding or less than 16 bytes are left before the first triple. |
| FseBlock.DecodeMatchPayload | other/lzfse/src/lzfse_decode_base.c:490-510 | For every buffer and recorded state the decoder's opening and its loop return what the specification decodes, or fail as it does. |
| FseBlock.BlockRoundTrip | other/lzfse/src/lzfse_decode_base.c:393-510 | A whole block comes back: the packed header yields the frequency tables of literal lengths, match lengths, distances and literals in this order, 360 in all, and the tables built from them, with 1024 states for literals and 64, 64 and 256 for the others, decode the literals and the triples, each from its own payload. |
| FseNormalize.AdjustPass | other/lzfse/src/lzfse_fse.c:151-161 | A pass takes from the symbols in order up to the shifted part of what each has above 1: a symbol gives less than that only when nothing is left to be taken, and from then on nobody gives. Without a shift it removes all of the overrun. |
| FseNormalize.AdjustFreqs | other/lzfse/src/lzfse_fse.c:150-164 | The adjustment removes exactly the overrun in at most four passes, with shifts 3, 2, 1 and 0 in this order, whenever there is that much to remove. |
| FseNormalize.EighthIsEnough | other/lzfse/src/lzfse_fse.c:150-164 | While an eighth of what all frequencies have above 1 covers the overrun, no symbol loses more than an eighth of its own. |
| FseNormalize.SlackIsNeeded | other/lzfse/src/lzfse_fse.c:150-164 | Nothing can remove more than that without making a frequency zero. |
| FseNormalize.ShareFits | other/lzfse/src/lzfse_fse.c:184-194 | The rounded share of a symbol that occurs is from 1 to the number of states, computed without overflow. |
| FseNormalize.ShareIsNear | other/lzfse/src/lzfse_fse.c:181-194 | A share above 1 exceeds `n * count / total` by no more than one half, and no share falls short of it by more than one half and the loss `n * count / 2^31` of the fixed-point step; only a count of 0 has the share 0. |
| FseNormalize.Rescale | other/lzfse/src/lzfse_fse.c:184-204 | The rescaling loop leaves shares near their counts' parts, a larger count never with a smaller share, the exact remainder, and the first symbol of largest share. |
| FseNormalize.NormalizeFreq | other/lzfse/src/lzfse_fse.c:167-216 | The frequencies are shares near their counts' parts, the first symbol of largest share given what is missing or relieved of an overrun below a quarter of its share, a larger overrun taken from all by the passes. They sum exactly to the number of states and no symbol that occurs gets zero, whenever the occurring symbols are not more than the states. |
| FseNormalize.OccurringBelowSum | other/lzfse/src/lzfse_fse.c:167-216 | That condition is necessary: no frequencies meet the demands without it. |
| FseFreqTable.CodeIsRead | other/lzfse/src/lzfse_decode_base.c:28-48 | The header code is a prefix code: every value up to 1047 is read from its bits whatever lies above them. |
| FseFreqTable.ShortCode | other/lzfse/src/lzfse_encode_base.c:74-97 | The bits of the values 0 to 7, by number, are read as those values from the decoder's tables, whatever lies above them. |
| FseFreqTable.ByteCodeRead | other/lzfse/src/lzfse_encode_base.c:101-104 | The eight bits of the values 8 to 23, by number, are read as those values, whatever lies above them. |
| FseFreqTable.LongCode | other/lzfse/src/lzfse_encode_base.c:105-107 | The fourteen bits of the values 24 to 1047, by number, are read as those values, whatever lies above them. |
| FseFreqTable.CodeFits | other/lzfse/src/lzfse_encode_base.c:69-109 | A value's code fits its number of bits if and only if the value is at most 1047. |
| FseFreqTable.TableRoundTrip | other/lzfse/src/lzfse_decode_base.c:105-145 | All frequencies up to 1047 come back from the packed header, and the exact-end check is satisfied. |
| FseFreqTable.EncodeTable | other/lzfse/src/lzfse_encode_base.c:115-154 | The packing loop writes exactly the packed bytes and nothing behind them. |
| FseFreqTable.DecodeTable | other/lzfse/src/lzfse_decode_base.c:105-142 | For every header content, an empty one with all frequencies zero included, the unpacking loop returns the specification's values or fails as it does. |
| Lzvn.LiteralRoundTrip | other/lzfse/src/lzvn_encode_base.c:62-86 | The final literals are read back and decoding goes on behind them. |
| Lzvn.LiteralRun | other/lzfse/src/lzvn_decode_base.c:567-630 | The bytes `E0`, length less 16, and the literals append 16 to 271 literals. |
| Lzvn.ShortLiteral | other/lzfse/src/lzvn_decode_base.c:542-566 | `E0` plus the length and the literals append 1 to 15 literals. |
| Lzvn.PreviousForm | other/lzfse/src/lzvn_decode_base.c:358-385 | `LLMMM110` is a match of the last distance behind the literals. |
| Lzvn.ShortForm | other/lzfse/src/lzvn_decode_base.c:129-270 | `LLMMMDDD DDDDDDDD` is a match at a distance below 1536 behind the literals. |
| Lzvn.LongForm | other/lzfse/src/lzvn_decode_base.c:322-356 | `LLMMM111` and the distance in two bytes, lowest first. |
| Lzvn.MediumForm | other/lzfse/src/lzvn_decode_base.c:272-320 | `101LLMMM` and two bytes with the distance above two more bits of the match. |
| Lzvn.LongAgain | other/lzfse/src/lzvn_decode_base.c:520-540 | `F0` and the length less 16 repeat the last distance for 16 to 271 bytes. |
| Lzvn.FirstAgain | other/lzfse/src/lzvn_decode_base.c:491-518 | `F0` plus the length repeats the last distance for 1 to 15 bytes. |
| Lzvn.FormRead | other/lzfse/src/lzvn_encode_base.c:128-163 | Whichever of the previous, short, medium and long distance forms is chosen, the parser takes it for that form with the same lengths and distance. |
| Lzvn.MatchRunsRead | other/lzfse/src/lzvn_decode_base.c:491-541 | A match continued over several opcodes is the one long overlapping copy. |
| Lzvn.PrintRoundTrip | other/lzfse/src/lzvn_decode_base.c:47-541 | From any state whose last distance is the printer's, the opcodes for L literals and a match of M >= 3 at D <= 65535 append the literals and the overlapping copy, and decoding goes on behind them. |
| LzvnStream.EndIsRead | other/lzfse/src/lzvn_decode_base.c:649-660 | The byte 6 with any seven bytes behind it ends the stream, the cursor right behind them. |
| LzvnStream.EndIsTruncated | other/lzfse/src/lzvn_decode_base.c:653-656 | The byte 6 with fewer than seven bytes behind it is a stream cut off, the cursor staying in front of it. |
| LzvnStream.NopIsPassed | other/lzfse/src/lzvn_decode_base.c:632-647 | The bytes 14 and 22 are passed over. |
| LzvnStream.UnusedExactly | other/lzfse/src/lzvn_decode_base.c:664-707 | A stream is bad at the bytes 30, 38, 46, 54, 62, 112 to 127 and 208 to 223, whatever follows; of all other bytes a single one is no more than cut off. |
| LzvnStream.StreamRoundTrip | other/lzfse/src/lzvn_encode_base.c:568-580 | A whole stream: the opcodes of any pieces of literals and match, final literals and the bytes `6, 0, 0, 0, 0, 0, 0, 0` decode to the end, with what the pieces and literals stand for as the output and the cursor at whatever follows. |
| LzvnStream.OpcodeSize | other/lzfse/src/lzvn_encode_base.c:128-163 | A repeated distance takes one byte, one below 1536 two, any other three; and exactly how much of the match the opcode takes. |
| LzvnParser.Parse | other/lzfse/src/lzvn_decode_base.c:49-386 | The jump table and the field extraction of every opcode give the meaning of the specification's step, whose first bytes `UnusedExactly`, `NopIsPassed`, `EndIsRead` and the form lemmas pin by value. |
| LzvnParser.Execute | other/lzfse/src/lzvn_decode_base.c:387-489 | The copies behind the dispatch, their checks in the program's order, and cursors that stay at an opcode that cannot be executed and go behind an end marker. |
| LzvnParser.DecodeAll | other/lzfse/src/lzvn_decode_base.c:47-680 | For every source the dispatch loop ends where and as the specification does, with the same output; an empty source or a full destination is left alone. |
| LzvnPrinter.EmitRuns | other/lzfse/src/lzvn_encode_base.c:98-108 | The loop over long literal runs writes them or finds the output full. |
| LzvnPrinter.EmitMatch | other/lzfse/src/lzvn_encode_base.c:165-180 | The loop over the rest of the match writes its opcodes or finds the output full. |
| LzvnPrinter.Emit | other/lzfse/src/lzvn_encode_base.c:95-180 | The printer writes exactly the specified opcodes or finds the output full, which never happens with ten bytes more than it prints. |
| LzvnPrinter.EmitLiteral | other/lzfse/src/lzvn_encode_base.c:62-86 | The final literals are written as specified, or the output is full and nothing in front of it has changed. |
| LzvnPrinter.EmitEnd | other/lzfse/src/lzvn_encode_base.c:350-362 | The end marker is written if and only if eight bytes are left. |
| LzvnPrinter.EmitTail | other/lzfse/src/lzvn_encode_base.c:560-578 | The end of a stream: the literals in front of eight bytes kept free, and the marker, which is written even when the literals did not fit. |
| ZstdSpread.StepIsOdd | other/zstd/lib/common/fse.h:623-623 | The step is odd for every table of 16 cells or more. |
| ZstdCells.VisitAt | other/zstd/lib/common/fse.h:623-623 | In a table of `8 * m` cells the cell of step `k` is `k * (5 * m + 3)` modulo `8 * m`. |
| ZstdSpread.VisitsDiffer | other/zstd/lib/common/fse_decompress.c:91-95 | Because the step shares no factor with the size, no cell is visited twice in a round. |
| ZstdSpread.RoundIsPermutation | other/zstd/lib/common/fse_decompress.c:133-147 | With any number of low-probability cells left out, one round visits every other cell exactly once. |
| ZstdTable.SpreadIsUnique | other/zstd/lib/common/fse_decompress.c:91-147 | The specification of the spread leaves no choice, so both ways of spreading give the same table. |
| ZstdCells.SpreadByNumber | other/zstd/lib/common/fse_decompress.c:74-147 | The symbol of every cell from the counts alone: the symbols of count minus one in the last cells from the top down, and in the cell of each step, leaving out those, the symbol whose turn it is. |
| ZstdCells.FullSpread | other/zstd/lib/common/fse_decompress.c:91-132 | Without such symbols cell `k * (5 * m + 3) % (8 * m)` holds the symbol `s` with `Before(s) <= k < Before(s) + counts[s]`, for every `k`. |
| ZstdCells.TableByNumber | other/zstd/lib/common/fse_decompress.c:149-156 | In the whole table, moreover, a cell's number is its symbol's width plus the number of earlier cells of that symbol; shifted by the cell's bits it lies from the table's size to twice that, and the next state is what it exceeds the size by. |
| ZstdTable.SpreadCounts | other/zstd/lib/common/fse_decompress.c:74-147 | Every symbol gets exactly as many cells as its count says, one for a count of minus one. |
| ZstdTable.CellIsSlot | other/zstd/lib/common/fse_decompress.c:149-156 | The zstd cell of turn `j` is the LZFSE decoder entry of slot `j`. |
| ZstdTable.IntervalsPartition | other/zstd/lib/common/fse_decompress.c:149-156 | For every symbol with a count, the intervals `[newState, newState + 2^nbBits)` of its cells hold every state exactly once. |
| ZstdTable.FastCellsReadBits | other/zstd/lib/common/fse_decompress.c:75-89 | When no count reaches half the table every cell reads at least one bit, which the fast mode relies on. |
| ZstdBuilder.LayLow | other/zstd/lib/common/fse_decompress.c:74-89 | Low-probability symbols fill the top cells downwards, first state numbers are the counts, and the mode flag says whether all counts are below half the table. |
| ZstdBuilder.LayDown | other/zstd/lib/common/fse_decompress.c:96-117 | Laying down symbols eight bytes at a time, spilling over, leaves exactly the symbols in order. |
| ZstdBuilder.Walk | other/zstd/lib/common/fse_decompress.c:118-132 | The walk, two cells a turn, puts them into the cells in the order of the visits and ends at cell 0. |
| ZstdBuilder.SpreadAround | other/zstd/lib/common/fse_decompress.c:133-147 | The single-stage spread around the low-probability cells places all symbols, leaves the top cells alone and ends at position 0. |
| ZstdBuilder.FillStates | other/zstd/lib/common/fse_decompress.c:149-156 | The last loop gives every cell its symbol's next state number. |
| ZstdBuilder.BuildDTable | other/zstd/lib/common/fse_decompress.c:58-159 | Whichever way the symbols are spread, every cell holds the symbol, the bits and the next state that `TableByNumber` gives, and the fast mode is set exactly when all counts are below half the table. |

## Left out

- The thread pool, the command-line drivers, level dispatch, memory allocation and its failures,
  the retry with a larger buffer and the raw-copy fallback.
- Container headers: only the five section lengths, the coded lengths and the number of coded
  sections are modelled, not the bytes of the header records or the checks of their identifiers.
- ContainerProgram.LoadSections: each coded section is decoded into a buffer of its own; the program
  decodes into one output buffer, one section behind the other, and does not test the result.
- LzSections.Sections.EmitNarrow: the hash-table fill inside the emission macros is
  `LzEncoder.FillTable`. Once the literals run into the section behind them, nothing is said about
  the first four sections; the overflow is reported in the end.
- LzSections.Sections.Merge: the program's `memcpy` may be given areas that overlap; here the bytes
  are copied upwards, one after the other.
- LzEncoder.Lz16Encode: `mem` stands for the memory from the output pointer on, as far as the
  reserves reach; the caller's buffer is its first `outlen` bytes. The header records in its first
  52 bytes are not modelled.
- LzOutput.EncodeOutcomeExactly: whether unclean nibbles that still come to be read change the
  decoded output depends on the tokens behind them; that they may is shown for a family, not as a
  condition on the decoded output.
- LzDecoder.Lz16Decode: the output has four words behind the declared length, into which the wide
  stores may spill; `Reach` says how far they go.
- ContainerProgram.StoreSections: sections and output lie in separate memory; the program codes
  sections that lie in the same buffer.
- NibbleBuffer.ReadLength44: a load that reaches one byte behind its section reads a zero there;
  no result depends on it.
- RansDecoder.Ransuncompress: a header whose frequencies sum to 0 or to `2^32` or more, and a
  stream that runs out of bytes, have no defined result; what the program then reads from memory
  is not modelled.
- Normalize.NormaliseIsSlotTable: the target is below `2^32 - 1`, which the search's start value
  uses as "none found".
- LzMatch.Lz16RoundTrip: the byte an odd-length input is read past its end is an arbitrary pad
  byte; positions are not narrowed to 32 bits.
- Container.BothStagesRoundTrip: inputs of a third of `2^31` bytes or more, for which the program's
  own capacity arithmetic overflows, are outside.
- FseTables.InitEncoderTable: `fse_check_freq` and the assertions are represented by the sum of the
  frequencies; `fse_init_value_decoder_table` is the decoder table with extra bits and base value
  added to each entry (`FseMatches.TakeValue`) and its loop is not repeated.
- FseMatchCoder.DecodeTriples: what the decoder does with a triple, its check that a triple's
  literals are still there, and how it resumes one it could only partly execute, are not modelled.
  Frequencies that sum to less than the number of states, which the header check accepts, are
  outside: the decoder table then has entries nothing was laid into.
- FseLiteralCoder.DecodeLiterals: such frequencies are outside here too.
- FseBlock.EncodeMatches: a payload without matches needs 16 bytes of room, which the program's
  finishing store takes without a check.
- FseMatches.SymbolFits: a value's symbol is the last range not above the value; the program looks
  it up in literal tables that are not repeated here.
- FseLiteralCoder.EncodeLiterals: padding the literals to a multiple of four and restoring the
  encoder's state after a full output are not modelled; only the 64-bit streams are.
- FseNormalize.NormalizeFreq: occurrence counts sum to less than `2^32`.
- FseBlock.BlockRoundTrip: the fixed fields of the block header are a record; their packing into
  three words is not modelled. Frequencies come from `FseNormalize.NormalizeFreq`, which is not
  repeated here.
- LzvnParser.Execute: a copy that does not fit the destination copies nothing here; the program
  copies what fits and saves the rest.
- LzvnParser.DecodeAll: the saved state for a destination that is full in mid-opcode is not
  modelled; copies are exact, where the program copies in blocks of four or eight bytes and
  overwrites what spills. The match search of the LZVN encoder is not modelled.
- LzvnPrinter.Emit: exactly when the output counts as full is not stated, only that ten bytes more
  than is printed are enough. Copies are exact; the program copies in blocks of four or eight bytes and
  overwrites what spills.
- ZstdBuilder.BuildDTable: the sanity checks in front and the reading of the counts are not
  modelled; the counts are those the format allows, summing to a table of 32 to 4096 cells. The
  final check of the position is proved never to fail for them; counts that do not fill the table,
  which that check is for, are outside.
- LZ4, xxHash, LZFSE's match search and block driver, and the rest of zstd.
