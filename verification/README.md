# Taproot: what is stored comes back

Taproot is a key-value store that keeps a map in memory, an append-only log of text lines on
disk, and a binary snapshot that may be compressed with LZ4. This project models the two parts
that together decide whether stored data can be recovered, and proves that it can, or exactly
when it cannot.

**The LZ4 block codec**, as the snapshot writer reaches it: the greedy compressor with its lossy
hash table, backward catch-up, word-wise match counting and over-writing copies; the plain
byte-by-byte decoder; and the optimised decoder with its fast loop, its safe loop and the jumps
from one into the middle of the other.

- `Lz4Format` says what a list of sequences means (`Expand`, `Content`), how it is laid out
  (`Encode`), which blocks obey the end-of-block rules (`WellFormed`), and how large they get.
- `Lz4Decode` is the byte-by-byte decoder as a function on every byte string; `Lz4RoundTrip`
  proves that it and `Encode` are inverse, in both directions; `Lz4SimpleDecoder` is the loop.
- `Lz4Words`, `Lz4BitCount` and `Lz4Copies` hold the word tricks and the overlapping chunk
  copies; `Lz4FastDecoder` uses the copies. A phase variable stands for the program counter
  where the code uses `goto`. Pointers are indices into arrays; every array access is proved in
  range. `Lz4LenientDecode` and `Lz4LenientRoundTrip` say what this decoder accepts for an output
  of exactly the right size: slightly more than the plain one. `Lz4CapacityDecode` says what it
  makes of any input for an output of any size.
- `Lz4Search`, `Lz4Writer` and `Lz4Compressor` are the compressor, for any hash function.
  `Lz4Greedy` says which matches it finds, as a function of the input.

**The durability protocol**: commands change a map and append lines to a buffer; a flusher
thread swaps the buffer out under a lock and writes it; shutdown joins the flusher, drains,
compacts and takes a snapshot; opening replays the log through the same tokenizer and dispatch.

- `Text` and `Tokenizer` are words, lines and the quote-aware tokenizer; `Commands` is what
  command lines do to a store, what is logged for them, replay, and compaction.
- `LogProtocol` is the log as a step system (append, test, wake, swap, write, stop, join,
  drain); its theorems hold for every interleaving and every reachable state.
- `Atomicity` says which commands a crash can split; `ExactReplay` and `Clearing` say exactly
  when a log gives back what was stored, and when clearing with lines still pending does no harm.
- `Snapshot` is the binary file in its three layouts; `Database` has the classes `Disk`, `Log`
  and `DB`, whose methods are tied to the step system and keep a history of what was appended;
  `Server` is the dispatcher with its keyspace switch.

## Main results

1. *Lossless compression.* For every input up to the size limit and every hash function the
   compressor writes a well-formed block for that input, within the worst-case bound and never
   past its own end, every match of which is as long as it can be in both directions
   (`CompressValidated`, `CompressFast`, `WorstCaseSize`). The block is exactly that of the
   matches found: a search returns the first of the positions it visits that has a match
   (`SearchVisits`), nothing goes out uncompressed unless the first search fails
   (`FirstSearchDecides`), the position after a match is tried at once (`NextPositionTried`), and
   after the last match a search fails (`NothingAfterLast`). Equal bytes, however many, become
   one match (`EqualBytes`).
2. *The decoder accepts exactly the layouts of well-formed blocks* and returns their content
   (`DecodesIffEncoded`, `DecodeUndoesEncode`); the loop computes that function
   (`DecompressUnsafe`).
3. *The fast decoder is memory-safe on any input.* Every tolerated block that fits is decoded,
   whatever room there is to spare, and one that does not fit is an error; unless an offset of 0
   is met, what is decoded is always the content of a block laid out in the input
   (`DecompressSafe`, `WithinCapacity`), and the output is filled exactly for tolerated blocks of
   its size (`LenientAcceptsIff`). Those are the well-formed blocks and, besides, exactly the
   blocks with fewer than 5 literals after a last match that the shortcut for short sequences
   takes: at most 14 literals, a match of at most 18 from 8 or more bytes back, and enough bytes
   around it (`AcceptedAloneIff`; `ShortcutSkipsEndRule` is one of them). The plain decoder
   refuses all of these (`PlainRefuses`).
4. *Log conservation, crash recovery and closing*, over every interleaving (`Conservation`,
   `WholeLines`, `CrashRecovery`, `ClosedHoldsAll`, `SessionRecovers`), and for every state of a
   `DB` object (`DB.CrashLeavesPrefix`), those on the way through shutdown included
   (`ShutdownIsCrashSafe`). Whatever a crash leaves can be opened again (`CrashThenRestart`). A
   safe command is all or nothing under every crash exactly when its operations are all alike,
   not counting deletes of a phrase left open, which no store can hold (`CommandAtomicIff`); an
   `mput` of two entries is not (`MPutIsNotAtomic`).
5. *Printing and tokenizing are inverse exactly on log-safe tokens* (`TokenizerUndoesPrinter`,
   `LineParsesIffSafe`, `SafeLineIffStripsPlain`), and a store comes back from its log exactly
   when all its keys and values are log-safe (`CompactionKeepsIffSafe`, `PutReturnsIffSafe`);
   `EmptyKeyIsLost` is an entry that does not. Any token without whitespace can be entered in
   quotes (`QuotesStripped`), and what a line does is told from its letters (`LineEffect`).
6. *Shutdown then reload is the identity*, whichever way compaction goes, for every keyspace of
   the server, also one that an earlier run left (`Server.SwitchTo`, `Server.Dispatcher`). From
   any state, also after unsafe commands, shutdown leaves a log that gives the store back
   exactly when it did so before or, if the log is rewritten, when the store is log-safe
   (`DB.Shutdown`). Compaction preserves the store and no shorter log would
   (`CompactedReplays`, `CompactedIsShortest`).
7. *A snapshot file determines the store* (`RecoverUndoes`, `SnapshotDetermines`), and which form
   it has is told from its size (`LayoutForm`, `Log.WriteBinarySnapshot`).

## Hypotheses taken from the code

- `DB::replaying` has no initial value (include/taproot/db.h:14); it is taken to start as false.
- `clear` truncates the files but leaves the log buffer alone (src/db.cpp:89-96). Log and store
  agree afterwards if and only if every put that was not yet in the file is deleted again by a
  later line (`ClearedRunAgreesIff`, `DB.ClearData`, `Server.Clear`); `PutSurvivesClear` is a run
  in which a cleared entry comes back.
- A command is safe if its keys and values can be printed and tokenized back. For every command
  that changes something this is the same as: each quoted token of one word is, without its
  quotes, a non-empty word with no leading quote (`SafeLineIffStripsPlain`).
- Compaction writes to `<name>_temp.aof` (src/log.cpp:183), which is the log of a keyspace of
  that name; the server's keyspaces are assumed not to be named like that.
- docs.md:52 says that shutdown compacts once the log exceeds a size; the code compacts whenever
  something changed and the store is not empty (src/log.cpp:177-182). The model follows the code.

## Model

| member | source | states |
|---|---|---|
| Lz4Format.CopyMatchUnique | third-party/lz4/lz4.c:1951-1955 | the one-byte-at-a-time overlapping copy is the only extension in which every new byte repeats the one `offset` back |
| Lz4Format.PeriodicBack | third-party/lz4/lz4.c:465-475 | a stretch with period `offset` also repeats at every multiple of the offset |
| Lz4Format.ChunkContinuesPeriod | third-party/lz4/lz4.c:474-529 | copying a chunk of any size from a multiple of the offset further back equals the overlapping copy |
| Lz4Format.ExtensionSize | third-party/lz4/lz4.c:1123-1129 | how many bytes a length field can take |
| Lz4Format.SequenceSize | third-party/lz4/lz4.c:1111-1226 | one sequence takes at most 256/255 of the bytes it stands for |
| Lz4Format.SequencesSize | third-party/lz4/lz4.c:1111-1226 | the same for any list of sequences |
| Lz4Format.RulesInNumbers | third-party/lz4/lz4.c:242-245 | the rules for blocks, sequence by sequence and in numbers: offsets of 1 to 65535 inside the output, matches of 4 and more that start 12 and stop 5 bytes before the end |
| Lz4Format.WorstCaseSize | third-party/lz4/lz4.h:214-215 | no choice of matches makes a block exceed n + n/255 + 16, and that fits in a signed 32-bit int |
| Lz4Decode.LongLengthIff | third-party/lz4/lz4.c:1852-1858 | a long length field reads as n and stops right after itself iff the bytes there are those written for n |
| Lz4Decode.ReadLengthIff | third-party/lz4/lz4.c:1893-1897 | half-token plus extension: reading undoes writing, for every length |
| Lz4Decode.ReadLengthCanonical | third-party/lz4/lz4.c:1911-1919 | a length has only one encoding |
| Lz4RoundTrip.DecodeOverSequence | third-party/lz4/lz4.c:1888-1964 | decoding over one encoded sequence appends its literals and its match |
| Lz4RoundTrip.DecodeUndoesEncode | third-party/lz4/lz4.c:1870-1966 | every well-formed block decodes to its content, using all its bytes |
| Lz4RoundTrip.ParseTail | third-party/lz4/lz4.c:1888-1964 | whatever decodes is the layout of a well-formed block |
| Lz4RoundTrip.DecodesIffEncoded | third-party/lz4/lz4.c:1870-1966 | a byte string decodes to n bytes, all of it used, iff it is the layout of a well-formed block of n bytes |
| Lz4SimpleDecoder.ReadLongLengthNoCheck | third-party/lz4/lz4.c:1852-1858 | reads the long length field that is there |
| Lz4SimpleDecoder.CopyMatchSlow | third-party/lz4/lz4.c:1951-1955 | the loop performs the overlapping copy and changes nothing behind it |
| Lz4SimpleDecoder.LiteralRun | third-party/lz4/lz4.c:1889-1908 | the literal half of a sequence, with its end-of-block tests, follows the decoding function |
| Lz4SimpleDecoder.MatchRun | third-party/lz4/lz4.c:1910-1963 | the match half of a sequence, with its error tests, follows the decoding function |
| Lz4SimpleDecoder.DecompressUnsafe | third-party/lz4/lz4.c:1869-1966 | -1 exactly for blocks that break a rule, else the decoded bytes and the number of input bytes used |
| Lz4Words.XorEqualLow | third-party/lz4/lz4.c:685-697 | equal low parts of two words cancel in their difference |
| Lz4Words.XorDifferentLow | third-party/lz4/lz4.c:685-697 | different low parts leave a bit set among them |
| Lz4Words.NbCommonBytesIsPrefix | third-party/lz4/lz4.c:582-605 | trailing zeros of the difference divided by 8 count the equal leading bytes |
| Lz4Words.WordDifference | third-party/lz4/lz4.c:582-605 | the difference is 0 iff the words agree, and otherwise counts their common bytes |
| Lz4BitCount.XorPredecessor | third-party/lz4/lz4.c:608-608 | the exclusive or with the predecessor is a mask up to the lowest set bit |
| Lz4BitCount.AndMask | third-party/lz4/lz4.c:609-609 | a mask of ones leaves the low bits |
| Lz4BitCount.OnesAddUp | third-party/lz4/lz4.c:609-609 | the multiplication counts the bytes left in its top byte, wrap-around included |
| Lz4BitCount.SoftwareCountAgrees | third-party/lz4/lz4.c:606-610 | for every 64-bit word the software count equals trailing zeros divided by 8 |
| Lz4Words.WordStep | third-party/lz4/lz4.c:692-697 | one step of the word loop either extends the agreement by 8 bytes or finds its end |
| Lz4Words.TryWord | third-party/lz4/lz4.c:699-700 | a 4- or 2-byte step is taken iff it fits and agrees |
| Lz4Words.CountTail | third-party/lz4/lz4.c:699-701 | the 4/2/1 tail finishes the count |
| Lz4Words.Count | third-party/lz4/lz4.c:680-703 | the count is the longest common prefix up to the limit; no read leaves the input |
| Lz4Copies.CopyStripes | third-party/lz4/lz4.c:465-472 | literals in whole stripes: the right bytes, and an overshoot of at most a stripe |
| Lz4Copies.WildCopy8 | third-party/lz4/lz4.c:465-472 | chunks of 8 continue the period of the distance copied over; overshoot at most 7 |
| Lz4Copies.WildCopy32 | third-party/lz4/lz4.c:522-529 | chunks of 16+16 do the same for offsets of 16 and more |
| Lz4Copies.StartDistances | third-party/lz4/lz4.c:474-475 | for each short offset the tables leave a distance that is a multiple of it, at least 8 and at most 8 more than it |
| Lz4Copies.FirstFour | third-party/lz4/lz4.c:500-504 | the four single bytes after the clearing write repeat at the offset |
| Lz4Copies.NextFour | third-party/lz4/lz4.c:505-506 | the next four, taken after the table's increment, do too |
| Lz4Copies.MatchStart | third-party/lz4/lz4.c:499-513 | the first eight bytes are right and the source is left a multiple of the offset behind |
| Lz4Copies.CopyUsingOffsetBase | third-party/lz4/lz4.c:496-516 | equals the overlapping copy for every offset |
| Lz4Copies.CopyPattern | third-party/lz4/lz4.c:566-571 | laying down an 8-byte pattern equals the overlapping copy |
| Lz4Copies.CopyUsingOffset | third-party/lz4/lz4.c:535-572 | the pattern forms for 1, 2 and 4 and the base form equal the overlapping copy |
| Lz4Copies.Copy18 | third-party/lz4/lz4.c:2154-2156 | 8+8+2 bytes from at least 8 back equal the overlapping copy |
| Lz4Copies.FastMatchCopy | third-party/lz4/lz4.c:2198-2208 | the fast loop's match copy, for every offset, inside the buffer |
| Lz4Copies.CopyNearEnd | third-party/lz4/lz4.c:2421-2429 | chunks, then single bytes near the end of the output |
| Lz4Copies.FinishCopy | third-party/lz4/lz4.c:2430-2433 | 8 more bytes and, for long matches, as many chunks as needed |
| Lz4Copies.SafeMatchCopy | third-party/lz4/lz4.c:2387-2434 | the safe loop's match copy is refused iff it stops within the last 5 bytes, else equals the overlapping copy |
| Lz4LenientDecode.StrictIsLenient | third-party/lz4/lz4.c:2230-2256 | wherever the plain decoder reports no error the lenient one agrees with it |
| Lz4LenientDecode.ShortcutSkipsEndRule | third-party/lz4/lz4.c:2230-2256 | one block that ends with a match: refused by the plain decoder and accepted by the other |
| Lz4LenientRoundTrip.WellFormedIffTolerated | third-party/lz4/lz4.c:242-247 | the well-formed blocks are the tolerated ones with 5 last literals or no match |
| Lz4LenientRoundTrip.LenientOverSequence | third-party/lz4/lz4.c:2215-2434 | decoding over an encoded sequence that stops in time or is taken by the shortcut |
| Lz4LenientRoundTrip.ToleratedDecodes | third-party/lz4/lz4.c:2022-2445 | every tolerated block is accepted, as its content |
| Lz4LenientRoundTrip.ParseLate | third-party/lz4/lz4.c:2230-2330 | after a match that stops late only the last literals can follow, and the sequence was short |
| Lz4LenientRoundTrip.ParseLenientTail | third-party/lz4/lz4.c:2215-2434 | whatever is accepted is the layout of a tolerated block |
| Lz4LenientRoundTrip.LenientAcceptsIff | third-party/lz4/lz4.c:2022-2445 | the inputs accepted are exactly the layouts of tolerated blocks, and give their content |
| Lz4LenientRoundTrip.PlainRefuses | third-party/lz4/lz4.c:1957-1962 | the plain decoder reports an error for every tolerated block that is not well-formed |
| Lz4LenientRoundTrip.AcceptedAloneIff | third-party/lz4/lz4.c:2230-2256 | accepted by the optimised decoder alone iff the layout of a tolerated block with fewer than 5 literals after its last match |
| Lz4CapacityDecode.RoomAtToken | third-party/lz4/lz4.c:2083-2090 | an accepted block with 5 bytes of output to come has 6 bytes of input to come |
| Lz4CapacityDecode.RoomAtLiterals | third-party/lz4/lz4.c:2279-2319 | in an accepted block only the last literals meet the input or output limit, and they end both |
| Lz4CapacityDecode.RoomAtMatchLength | third-party/lz4/lz4.c:2345-2350 | in an accepted block the match length never meets the read limit |
| Lz4CapacityDecode.RoomAtLongLiterals | third-party/lz4/lz4.c:2264-2270 | in an accepted block a long literal length never meets the read limit |
| Lz4CapacityDecode.TokenWithin | third-party/lz4/lz4.c:2215-2445 | whatever the input and the capacity, an accepted result used the whole input and fits |
| Lz4CapacityDecode.WaiverIrrelevant | third-party/lz4/lz4.c:2142-2159 | with room to spare it does not matter whether the end rule is looked at |
| Lz4CapacityDecode.MatchAt | third-party/lz4/lz4.c:2332-2354 | what an offset and a match length come down to, in either loop and in the shortcut |
| Lz4CapacityDecode.TokenGrows | third-party/lz4/lz4.c:2215-2445 | what is accepted is accepted alike with more room in the output |
| Lz4CapacityDecode.TokenShrinks | third-party/lz4/lz4.c:2215-2445 | with less room it is accepted alike, or an error |
| Lz4CapacityDecode.TokenAccepted | third-party/lz4/lz4.c:2215-2445 | what decodes to exactly the size of the output meets none of the limits |
| Lz4CapacityDecode.TokenFills | third-party/lz4/lz4.c:2215-2445 | and what fills the output obeys the rules for a block of that size |
| Lz4CapacityDecode.FillsIffAccepted | third-party/lz4/lz4.c:2215-2445 | so the output is filled iff the input decodes to that many bytes, and alike |
| Lz4CapacityDecode.ParseWithin | third-party/lz4/lz4.c:2215-2445 | whatever is accepted, at any capacity, is the layout of a block with that content |
| Lz4CapacityDecode.WithinCapacity | third-party/lz4/lz4.h:193-207 | a result is the content of a block laid out in the input; every tolerated block that fits is decoded, and one that does not fit is an error |
| Lz4FastDecoder.ReadVariableLength | third-party/lz4/lz4.c:1978-2014 | recovers the length and stops right after it; an error iff the field does not end by the limit |
| Lz4FastDecoder.ShortLiterals | third-party/lz4/lz4.c:2107-2112 | short literals copied as one stripe, in step with the decoding function |
| Lz4FastDecoder.FastLiterals | third-party/lz4/lz4.c:2083-2115 | from the top of the fast loop to the offset or out to the safe loop, in step with the decoding function |
| Lz4FastDecoder.ReadMatchLength | third-party/lz4/lz4.c:2127-2141 | match length in either loop; it fails exactly when the length field does not end in time |
| Lz4FastDecoder.FastMatch | third-party/lz4/lz4.c:2117-2209 | from the offset to the top of the fast loop or into the safe loop, in step with the decoding function |
| Lz4FastDecoder.ShortMatch | third-party/lz4/lz4.c:2245-2256 | the second stage of the shortcut, wherever the match ends |
| Lz4FastDecoder.Shortcut | third-party/lz4/lz4.c:2230-2261 | the two-stage shortcut, in step with the decoding function |
| Lz4FastDecoder.SafeTop | third-party/lz4/lz4.c:2215-2270 | from the top of the safe loop to one of its labels |
| Lz4FastDecoder.LastLiterals | third-party/lz4/lz4.c:2279-2330 | literals that meet a limit end the block, with what was decoded, or are an error |
| Lz4FastDecoder.SafeLiteralCopy | third-party/lz4/lz4.c:2273-2342 | literals and offset, or the end of the block |
| Lz4FastDecoder.SafeMatchStep | third-party/lz4/lz4.c:2354-2434 | offset test and match copy |
| Lz4FastDecoder.SafeStep | third-party/lz4/lz4.c:2215-2435 | every step keeps simulation, in results and in errors, and bounds, and moves on |
| Lz4FastDecoder.FastLoop | third-party/lz4/lz4.c:2083-2209 | the fast loop is left only at the labels of the safe loop or with an error |
| Lz4FastDecoder.DecompressSafe | third-party/lz4/lz4.c:2022-2445 | never outside the buffers for any input; every tolerated block that fits is decoded to its content and length, one that does not fit gives a negative result; unless an offset is 0, a result that is not negative is the content of a block laid out in the input, and fills the output iff that block is a tolerated one of that size |
| Lz4Search.HashPosition | third-party/lz4/lz4.c:797-806 | a position hashes into the table |
| Lz4Search.HashesFit | third-party/lz4/lz4.c:777-795 | the two hashes of the code do so |
| Lz4Search.HashSamples | third-party/lz4/lz4.c:777-795 | their values for the bytes `abcd` and `abcdefgh` |
| Lz4Search.Hash5OfFive | third-party/lz4/lz4.c:785-790 | the second mixes five of the eight bytes it reads |
| Lz4Search.RepeatsIffPeriodic | third-party/lz4/lz4.c:1096-1098 | two equal stretches and a period are the same thing |
| Lz4Search.CandidateUsable | third-party/lz4/lz4.c:1089-1099 | a table entry that passes the tests gives an offset from 1 to 65535, also where 16-bit entries skip the distance test |
| Lz4Search.LookUp | third-party/lz4/lz4.c:1255-1287 | every entry stays before the next position, and a match is found iff the entry qualifies |
| Lz4Search.FindMatch | third-party/lz4/lz4.c:1042-1101 | the search ends, visits the accelerating positions, enters each, and returns the first that qualifies |
| Lz4Search.LeftEndIs | third-party/lz4/lz4.c:1104-1109 | a match moved back over equal literals is still one, and cannot be moved further |
| Lz4Search.CatchUp | third-party/lz4/lz4.c:1104-1109 | goes back exactly to that position |
| Lz4Search.RightEndUnique | third-party/lz4/lz4.c:1182-1183 | the longest agreement up to the limit ends in one place only |
| Lz4Search.MatchEnd | third-party/lz4/lz4.c:1182-1183 | the match ends exactly there: past every position in the table, 5 bytes before the end at the latest, and no sooner than bytes or end require |
| Lz4Search.EndPastFilled | third-party/lz4/lz4.c:1104-1109 | backing up never makes the match end before the last position entered |
| Lz4Search.TestNextPosition | third-party/lz4/lz4.c:1235-1294 | enters two positions and tests the second; exact new table and offset |
| Lz4Greedy.ProbeUsable | third-party/lz4/lz4.c:1042-1101 | whatever a search returns may be used as a match |
| Lz4Greedy.VisitNext | third-party/lz4/lz4.c:1021-1028 | which positions a search visits, in closed form: the step grows by one every 64 visits |
| Lz4Greedy.SearchVisits | third-party/lz4/lz4.c:1042-1101 | a search returns the first of these that finds a match in what was entered before it, and gives up only if none does |
| Lz4Greedy.RepeatIsFound | third-party/lz4/lz4.c:1042-1101 | no search passes two visits in a row, at most 65535 apart, with equal bytes |
| Lz4Greedy.FirstSearchDecides | third-party/lz4/lz4.c:1002-1055 | nothing is compressed iff the input has fewer than 13 bytes or no position visited from the second byte on, over a table of zeros, finds a match |
| Lz4Greedy.SearchEnds | third-party/lz4/lz4.c:1014-1300 | after the last match the search from the next position finds nothing, or the match ends within the last 11 bytes |
| Lz4Greedy.NothingAfterLast | third-party/lz4/lz4.c:1002-1300 | so for every input, told by the positions visited |
| Lz4Greedy.RestRepeats | third-party/lz4/lz4.c:1235-1294 | right after a match: bytes that repeat two places back are the next match, without literals |
| Lz4Greedy.FromMatchRest | third-party/lz4/lz4.c:1138-1300 | after each of its matches a block goes on with what is found from the end of that match |
| Lz4Greedy.NextPositionTried | third-party/lz4/lz4.c:1235-1294 | so after every match of every block bytes that repeat two places back are the next match |
| Lz4Greedy.NextPositionEntered | third-party/lz4/lz4.c:1255-1287 | and bytes that repeat one place on are matched after one literal at most, because the position was entered |
| Lz4Greedy.EqualBytes | third-party/lz4/lz4.c:1002-1300 | 13 or more equal bytes are one literal, one match at offset 1 and 5 last literals, for every hash and acceleration |
| Lz4Greedy.EqualBytesSize | third-party/lz4/lz4.c:1002-1329 | how long their block is, in numbers |
| Lz4Greedy.ThousandEqualBytes | third-party/lz4/lz4.c:1472-1475 | the 14 bytes written for a thousand of them |
| Lz4Writer.LengthBytesSplit | third-party/lz4/lz4.c:1213-1223 | a length field is any number of its 255s and the field for the rest |
| Lz4Writer.WriteLengthBytes | third-party/lz4/lz4.c:1123-1128 | the one-byte form writes the length field |
| Lz4Writer.WriteFullBlocks | third-party/lz4/lz4.c:1216-1221 | the blocks of four stay one block ahead |
| Lz4Writer.WriteLengthBlocks | third-party/lz4/lz4.c:1216-1223 | the four-byte form writes the same bytes and touches at most three more |
| Lz4Writer.WriteLiterals | third-party/lz4/lz4.c:1111-1136 | token, length and literals; the prefix is kept and the overshoot is at most 8 |
| Lz4Writer.WriteEmptyToken | third-party/lz4/lz4.c:1288-1289 | a token without literals |
| Lz4Writer.WriteLast | third-party/lz4/lz4.c:1302-1329 | the last literals, and nothing behind them |
| Lz4Writer.AddToToken | third-party/lz4/lz4.c:1213-1225 | adding the match half changes only the token |
| Lz4Writer.WriteMatch | third-party/lz4/lz4.c:1154-1226 | completes the layout of the sequence; at most three bytes behind it are touched |
| Lz4Compressor.EmitSequence | third-party/lz4/lz4.c:1111-1230 | literals and a repeating stretch extend the block to cover the input up to the match's end |
| Lz4Compressor.RoomForSequence | third-party/lz4/lz4.c:1132-1223 | the worst-case bound leaves room for a sequence and its overshooting writes |
| Lz4Compressor.EncodeMatch | third-party/lz4/lz4.c:1154-1230 | exactly the sequence for the match is emitted, maximal in both directions |
| Lz4Compressor.StartEmptySequence | third-party/lz4/lz4.c:1288-1289 | a sequence without literals is started |
| Lz4Compressor.EncodeNext | third-party/lz4/lz4.c:1138-1295 | one match, and whether another follows directly; nothing of what is to be found is lost |
| Lz4Compressor.EncodeMatches | third-party/lz4/lz4.c:1138-1295 | so for all matches that follow directly; the table stays behind the position |
| Lz4Compressor.StartSequence | third-party/lz4/lz4.c:1104-1136 | backs the match up and writes the literals before it |
| Lz4Compressor.EncodeFrom | third-party/lz4/lz4.c:1104-1295 | from a found match to the next search, with exactly the sequences found |
| Lz4Compressor.EncodeRound | third-party/lz4/lz4.c:1014-1300 | one search and what follows from it |
| Lz4Compressor.EncodeRounds | third-party/lz4/lz4.c:1014-1300 | the main loop ends, with exactly the sequences found |
| Lz4Compressor.EncodeAll | third-party/lz4/lz4.c:1004-1300 | and has emitted everything up to the anchor, starting from a cleared table |
| Lz4Compressor.EncodeLast | third-party/lz4/lz4.c:1302-1329 | the last literals complete a well-formed block of the input |
| Lz4Compressor.CompressValidated | third-party/lz4/lz4.c:930-1338 | exactly the block of the matches found, well-formed and for the input, all matches maximal, nothing behind the block touched |
| Lz4Compressor.EmptyBlock | third-party/lz4/lz4.c:1361-1372 | the block of an empty input |
| Lz4Compressor.CompressFast | third-party/lz4/lz4.c:1382-1394 | 0 for inputs over 0x7E000000 bytes, else exactly the block of the matches found, within n + n/255 + 16 bytes, which decodes to the input, for any hash function and acceleration |
| Lz4Compressor.CompressDefault | third-party/lz4/lz4.c:1472-1475 | the same with the code's own hashes |
| Text.Words | src/utils.cpp:26-28 | extraction yields non-empty words without whitespace |
| Text.WordsConcat | src/utils.cpp:26-28 | whitespace between two texts keeps their words apart |
| Text.WordsOfJoin | src/utils.cpp:31-36 | joining with single spaces keeps all words in order |
| Text.LinesAppend | src/db.cpp:109-113 | lines appended to a file that ends with a newline are read after the lines that were there |
| Tokenizer.SafeTokensReturn | src/utils.cpp:23-50 | grouping the words of log-safe tokens gives the tokens back |
| Tokenizer.ReturnedTokensAreSafe | src/utils.cpp:23-50 | only log-safe tokens come back |
| Tokenizer.TokenizerUndoesPrinter | src/utils.cpp:23-50 | tokenizing a printed list returns it iff its tokens are log-safe, the last possibly a phrase left open |
| Tokenizer.QuotesStripped | src/utils.cpp:29-47 | any token without whitespace can be entered in quotes, which are stripped, just these; plain words also without |
| Tokenizer.OpenWordCut | src/utils.cpp:38-41 | a last word whose quote is left open loses its last byte |
| Tokenizer.Separators | src/utils.cpp:26-28 | which bytes separate words, for every byte |
| Tokenizer.IsAllSpace | src/utils.cpp:13-21 | true iff there is no word |
| Tokenizer.NextWord | src/utils.cpp:28-28 | one extraction takes exactly the next word, if any |
| Tokenizer.CollectQuoted | src/utils.cpp:30-36 | the inner loop joins the words up to the first with a trailing quote |
| Tokenizer.NextToken | src/utils.cpp:28-47 | one turn of the outer loop takes one token |
| Tokenizer.Tokenize | src/utils.cpp:23-50 | the loops compute the grouping of the input's words |
| Commands.OthersUntouched | src/db.cpp:58-77 | put, del, mput and mdel leave the keys they do not mention alone |
| Commands.LastMentionDecides | src/db.cpp:58-77 | of several mentions of a key the last one decides whether it is there and its value |
| Commands.PutsSetPairs | src/db.cpp:58-64 | an mput sets its pairs from left to right |
| Commands.DelsRemove | src/db.cpp:66-77 | an mdel removes exactly its keys |
| Commands.JoinedCommand | src/db.cpp:235-285 | which command it is, by the letters of its name and the number of its arguments, for all log-safe arguments; any other is none |
| Commands.LineEffect | src/db.cpp:225-288 | what any line does to the store and answers, from its tokens alone; get and mget change and log nothing |
| Commands.QuotesDoNotMatter | src/utils.cpp:38-41 | a key or value in quotes is the same key or value |
| Commands.FoundOne | src/db.cpp:247-250 | get answers the value of its key, if it is there |
| Commands.FoundAppend | src/db.cpp:268-282 | mget answers for its keys one after the other |
| Commands.LoggedBytes | src/log.cpp:83-94 | the bytes logged for a put and for a del |
| Commands.PrintAppend | src/log.cpp:83-94 | what is logged for two lists of operations is the one text after the other |
| Commands.LineParsesIffSafe | src/log.cpp:81-90 | a logged line parses back to its operation iff its tokens are safe |
| Commands.ReplayPrinted | src/db.cpp:103-119 | replaying the lines of safe operations applies them, in order |
| Commands.ReplayExtended | src/db.cpp:103-119 | a log extended by safe lines replays to the extended store |
| Commands.ReplayLogsNothing | src/db.cpp:235-267 | whatever its tokens, a logged line is no mput or mdel, so replaying it appends nothing |
| Commands.SilentExtended | src/db.cpp:235-267 | that stays true of the whole log |
| Commands.NoChanges | src/db.cpp:26-46 | a dirty count of 0 means an unchanged store |
| Commands.CompactedRebuilds | src/log.cpp:191-193 | one put for each entry rebuilds the map, in any enumeration order |
| Commands.CompactedReplays | src/log.cpp:177-198 | the compacted log replays to the store |
| Commands.CompactedIsShortest | src/log.cpp:177-198 | no log of put and del lines, whatever is in it, replays to that store with fewer lines |
| Commands.SafeStoreKept | src/db.cpp:225-267 | safe operations keep the store printable |
| Commands.TokensSafeIffStripsPlain | src/utils.cpp:38-41 | tokens are log-safe iff every one-word quoted token is a plain word without its quotes |
| Commands.SafeLineIffStripsPlain | src/db.cpp:225-267 | that is exactly when a command that changes something can be logged safely |
| Commands.EmptyKeyIsStored | src/utils.cpp:38-41 | `put "" v` stores the empty key |
| Commands.EmptyKeyIsLost | src/log.cpp:83-86 | but the line logged for it replays to nothing |
| ExactReplay.ReplayNoNewline | src/db.cpp:103-119 | no store that is read from a log holds a newline |
| ExactReplay.GroupWeighs | src/utils.cpp:23-50 | tokenizing keeps all bytes that are not whitespace unless it strips quotes |
| ExactReplay.PutLineWeighs | src/db.cpp:235-240 | a put line read back adds no more than was printed, and as much only if it is safe |
| ExactReplay.CompactionKeepsIffSafe | src/log.cpp:177-198 | the compacted log replays to its store iff all keys and values are log-safe, for every store |
| ExactReplay.PutReturnsIffSafe | src/log.cpp:83-86 | a put comes back from the line logged for it iff its key and value are log-safe |
| LogProtocol.StepKeeps | src/log.cpp:50-95 | each step of either thread keeps the total and never takes back from the file |
| LogProtocol.JoinReturns | src/log.cpp:202-206 | once stopping, the flusher is gone after finitely many of its steps |
| LogProtocol.FlusherKeeps | src/log.cpp:52-71 | the flusher's own steps add nothing and lose nothing |
| LogProtocol.Conservation | src/log.cpp:50-95 | in every reachable state file, in-flight buffer and log buffer hold the lines appended, in order |
| LogProtocol.WholeLines | src/log.cpp:50-72 | and the cuts between them fall between lines |
| LogProtocol.CutStep | src/log.cpp:50-72 | which every single step keeps |
| LogProtocol.CrashRecovery | src/log.cpp:50-95 | in every reachable state the file replays to the store after some prefix of the operations |
| LogProtocol.PendingAgrees | src/log.cpp:50-95 | file and pending buffers replay to the store after all of them |
| LogProtocol.ClosedHoldsAll | src/log.cpp:200-226 | after closing, the file holds every line appended, none lost, doubled or moved |
| LogProtocol.FileGrows | src/log.cpp:67-70 | a longer run only adds to the file |
| LogProtocol.SessionApplies | src/db.cpp:225-267 | a session of command lines does what its primitive operations do |
| LogProtocol.SessionRecovers | src/log.cpp:50-95 | at any moment of a session of safe commands the file replays to a prefix of their operations; once closed, to the store the commands made |
| LogProtocol.EveryPrefixReached | src/log.cpp:52-70 | for every prefix of the operations there is a run in which a crash leaves exactly that prefix |
| Atomicity.RunsAtomicIff | src/log.cpp:50-95 | at every moment of every run the file replays to all or nothing iff every prefix of the operations gives all or nothing |
| Atomicity.OpenOnlyLast | src/utils.cpp:30-43 | only the last token of a line can be a phrase left open |
| Atomicity.ReplayKeepsClosed | src/db.cpp:103-119 | so no log, whatever is in it, replays to a store with such a key |
| Atomicity.EffectiveAtomic | src/db.cpp:260-266 | deletes of such keys do not matter for atomicity |
| Atomicity.CommandAtomicIff | src/db.cpp:225-267 | a safe command is all or nothing at every moment of every run over every log iff its operations are all alike, not counting deletes of a phrase left open |
| Atomicity.MPutIsNotAtomic | src/db.cpp:251-258 | a run in which a crash keeps the first half of an mput |
| Clearing.ClearAgreesIffAllDeleted | src/db.cpp:89-96 | lines written after a clear stand for the empty store iff every put among them is deleted again |
| Clearing.ClearedRunAgreesIff | src/db.cpp:89-96 | truncating the file at any moment of any run is faithful iff every put not yet written is deleted again |
| Clearing.PutSurvivesClear | src/db.cpp:89-96 | a run in which a cleared entry is back on reload |
| Snapshot.SizeRoundTrip | src/log.cpp:104-117 | sizes survive being written in eight bytes |
| Snapshot.SerializedLength | src/log.cpp:103-118 | 11 bytes, 16 for each entry, and the key and value bytes |
| Snapshot.DeserializeUndoes | src/log.cpp:103-118 | the data stream reads back as the store, in any enumeration order |
| Snapshot.RecoverUndoes | src/log.cpp:122-152 | so does the file, in each of its three layouts |
| Snapshot.SnapshotDetermines | src/log.cpp:97-153 | two states with the same file are the same |
| Snapshot.LayoutLength | src/log.cpp:127-150 | the file is at most 8 bytes longer than the data stream, and more than one byte longer exactly where compression saved fewer than 8 |
| Snapshot.LayoutForm | src/log.cpp:122-152 | which of the three layouts is written, and its bytes: plain up to 10485760, else compressed with flag 1 and size if that is smaller, else plain with flag 0 |
| Snapshot.OneEntry | src/log.cpp:103-118 | the bytes of the data stream for one entry |
| Snapshot.Compress | src/log.cpp:156-175 | empty for empty, else the compressor's block for the input, which decodes to it |
| Snapshot.SerializeState | src/log.cpp:103-118 | the loop writes the data stream |
| Snapshot.SnapshotFile | src/log.cpp:97-153 | the file has the form its size asks for, with the exact block if it is compressed, and recovers to the state |
| Database.PathBytes | src/log.cpp:23-24 | the three paths, byte by byte |
| Database.PathsDistinct | src/log.cpp:23-24 | log, snapshot and temporary paths of keyspaces collide only if their names do |
| Database.Log.constructor | src/log.cpp:21-32 | opening keeps what the file held and starts the protocol |
| Database.Log.AppendCommand | src/log.cpp:74-95 | is the append step, or nothing once the log is closed; the operation joins those waiting in the buffer |
| Database.Log.FlusherStep | src/log.cpp:52-71 | each atomic part of the flusher's loop is its step of the protocol |
| Database.Log.TakeBuffer | src/log.cpp:58-65 | under the lock the buffer is swapped out, if there is anything in it |
| Database.Log.WriteTaken | src/log.cpp:67-69 | what was swapped out goes to the file, in order |
| Database.Log.JoinFlusher | src/log.cpp:204-206 | the join returns, and nothing is lost meanwhile |
| Database.Log.CloseLog | src/log.cpp:200-226 | everything pending ends up in the file; closing again does nothing |
| Database.Log.Drain | src/log.cpp:208-217 | the final append reaches the file and the history is kept |
| Database.Log.CompactLog | src/log.cpp:177-198 | the three branches: clean, empty, or rewritten with the temporary file gone; and every disk on the way |
| Database.Log.ReplaceFile | src/log.cpp:183-197 | the temporary file is created, written and renamed, one step after the other |
| Database.Log.WriteBinarySnapshot | src/log.cpp:97-153 | only the snapshot file changes; it has the form its size asks for, and recovers to the state |
| Database.CompactedBuffer | src/log.cpp:191-193 | the loop prints the compacted log |
| Database.NextLine | src/db.cpp:109-109 | one getline takes exactly the next line |
| Database.FaithfulExtended | src/log.cpp:74-95 | logging what was done keeps log and store in agreement |
| Database.LoggingKeepsFaith | src/db.cpp:225-267 | logging safe operations as they are done keeps log and store in agreement |
| Database.HeldTotal | src/log.cpp:67-94 | file, in-flight and log buffer are the history of appended operations, in order |
| Database.DB.constructor | src/db.cpp:14-17 | the store is what the log replays to, with nothing counted as dirty |
| Database.DB.Put | src/db.cpp:26-33 | sets the entry and counts it unless replaying |
| Database.DB.Del | src/db.cpp:35-46 | removes the entry, reports and counts it iff it was there |
| Database.DB.MPut | src/db.cpp:58-64 | the puts in order, repeated keys included; dirty counts them |
| Database.DB.MDel | src/db.cpp:66-77 | the deletes in order, absent keys included; the status tells whether all were there |
| Database.DB.MGet | src/db.cpp:79-87 | the values in order |
| Database.DB.LogPuts | src/db.cpp:253-257 | an mput logs its puts, before the store changes and even while replaying |
| Database.DB.LogDels | src/db.cpp:262-265 | an mdel logs its dels likewise |
| Database.DB.ExecuteOne | src/db.cpp:235-246 | put and del log what they did, and not while replaying |
| Database.DB.Execute | src/db.cpp:235-287 | the dispatch on operator and number of tokens |
| Database.DB.ExecuteMany | src/db.cpp:251-285 | the commands on several keys, and what is none |
| Database.DB.RunLine | src/db.cpp:225-288 | a line does what its command does, and a blank one nothing |
| Database.DB.ParseCommand | src/db.cpp:225-288 | store, dirty count, log and result of a command line, also by the letters of its tokens; get and mget change nothing; safe lines keep log and store in agreement |
| Database.DB.ReplayLine | src/db.cpp:110-112 | replaying a line counts nothing as dirty |
| Database.DB.LoadFromLog | src/db.cpp:103-119 | loads what the log replays to into an empty store, and nothing into another |
| Database.DB.ClearData | src/db.cpp:89-96 | empties store and files, not the buffers; with only safe lines pending log and store agree iff every pending put is deleted again, whatever was there before |
| Database.DB.CrashLeavesPrefix | src/log.cpp:50-95 | in every state of a store the file replays to it as it was after a prefix of the operations, and is fit to be opened again |
| Database.DB.WriteFiles | src/log.cpp:97-198 | compaction and snapshot after closing, with every disk on the way |
| Database.DB.Shutdown | src/db.cpp:290-295 | the log replays to the store in every branch and at every moment from closing on, and the snapshot has the form its size asks for and recovers to it; from any state, exactly when the log gives the store back |
| Database.ShutdownIsCrashSafe | src/db.cpp:290-295 | whatever step of compaction or snapshot a crash hits, the log replays to the store |
| Database.ShutdownKeepsOthers | src/db.cpp:290-295 | shutdown touches no file but log, snapshot and temporary file |
| Database.OpeningIsFaithful | src/db.cpp:14-17 | opening a log this program left appends nothing and agrees with it |
| Server.StillSaved | src/server.cpp:95-99 | writing one keyspace's files leaves the others recoverable |
| Server.ShutdownSameLogs | src/server.cpp:97-97 | shutdown leaves the logs of all other keyspaces as they were |
| Server.LeftTwice | src/server.cpp:97-98 | shutting a keyspace down twice leaves the log and snapshot that the second shutdown alone would |
| Server.UseLine | src/server.cpp:95-95 | `use` and a log-safe name is a request to switch to that name |
| Server.CommandLineRuns | src/server.cpp:88-118 | a line that begins with the name of a command is no other request |
| Server.LoggedLineRuns | src/server.cpp:88-118 | nor is any line that was logged |
| Server.Server.constructor | src/server.cpp:17-17 | the server opens its keyspace as its log has it |
| Server.Server.CrashThenRestart | src/server.cpp:17-17 | after a crash at any moment every keyspace can be opened again, as it was left or after what had been written |
| Server.Server.Tick | src/log.cpp:52-71 | the flusher can take its step at any time between requests |
| Server.Server.Command | src/server.cpp:118-124 | the command's effect and result; a safe one on an open log keeps everything recoverable |
| Server.Server.Clear | src/server.cpp:91-94 | store and both files are emptied; with only safe lines pending the open keyspace becomes recoverable, whatever it was before, iff every pending put is deleted again |
| Server.Server.ShutdownDb | src/server.cpp:97-97 | shutdown leaves log and snapshot that give the store back, also when repeated; from any state, exactly when the log does |
| Server.Server.StopDb | src/server.cpp:97-97 | what that means for the open keyspace, and that no other log changes |
| Server.Server.Use | src/server.cpp:95-99 | both kinds of `use`, what is left of the keyspace that was open, and exactly when the open log is still attached to its file afterwards |
| Server.Server.UseAgain | src/server.cpp:95-99 | `use` of the open keyspace keeps the store and its log, but replaces the file under the log just opened iff there is something to compact |
| Server.Server.AdoptAgain | src/server.cpp:98-98 | the second shutdown of the old object under the new log |
| Server.Server.SwitchTo | src/server.cpp:95-99 | another keyspace comes back as it was last left, in this run or an earlier one, and the old one stays recoverable |
| Server.Server.Replace | src/server.cpp:98-98 | replacing the keyspace object shuts the old one down a second time, harmlessly |
| Server.Server.OpenNext | src/server.cpp:98-98 | opening another keyspace changes no other log |
| Server.Server.Quit | src/server.cpp:113-117 | quitting stops the server and leaves log and snapshot as shutdown does |
| Server.Server.Dispatcher | src/server.cpp:83-125 | what each request does, by its letters: clear empties, stats, show, keys and values change nothing, quit and exit stop, use switches, all else runs as a command; everything stays recoverable after every harmless request, and after a clear iff it was harmless |
| Server.Server.Destroy | src/server.cpp:32-39 | the two shutdowns at the end leave what the last one alone would |

## Left out

- Sockets, the accept loop, signals, client framing and retry, the command-line client, configuration, timestamps and display texts: plumbing without logic of its own. Display requests are one `Report` answer.
- LZ4 streaming, dictionaries, destSize and partial decoding, limited output, pointer-sized table entries, 32-bit and big-endian code paths, and their bit counts: not reached by the program on a 64-bit little-endian machine.
- Integer widths in the codec: lengths and positions are unbounded integers; the size limit keeps them within 32 bits (`WorstCaseSize`), and 16-bit table entries are shown not to truncate. Pointer-overflow tests of 32-bit builds are not modelled.
- Lz4FastDecoder.DecompressSafe: once an offset of 0 is met only memory safety is stated; the code copies what was in the output before.
- Lz4SimpleDecoder.DecompressUnsafe: inputs that end early and offsets of 0 are presumed away, as in the code.
- Lz4Compressor.EncodeMatch: counts the match before it writes the offset, where the code writes the offset first; the count only reads the input.
- Snapshot.SnapshotFile: data streams above LZ4_MAX_INPUT_SIZE are excluded, because their size no longer fits the narrowing at src/log.cpp:162-166.
- Reading a snapshot back: the program has no such code; `Snapshot.Recover` is the reader the file format allows. A crash between emptying and writing the snapshot file leaves it empty; the log still gives the store.
- Concurrent client threads on the unlocked store (src/server.cpp:56-62): commands are serialised; only the flusher and the closing thread are interleaved with them.
- Appends that race with or follow closing: the test at src/log.cpp:76 is outside the lock. In the model a line appended after closing is dropped, and the guarantees cover those appended before the drain.
- Each write of a buffer to the file is one atomic append: torn writes, fsync and failures to open a file are not modelled.
- The lifetime of the keyspace name a log refers to (include/taproot/log.h:12): names are values.
- Database.DB.LoadFromLog: reads the file as it is when loading begins. A log written by another program could hold mput lines, which replay would append and could read again.
- The constructor of a database from a given map (src/db.cpp:19-20): it leaves `dirty` unset.
- Server.Server.Use: what happens to a log whose file was replaced under it is not modelled. `attached` says exactly when that is so: after `use` of the open keyspace with changes in it. The log on disk gives the store at that moment; lines appended later go to the old file.
- Server.Server.Dispatcher: input without any word is excluded, because the code looks at the first token of every input (src/server.cpp:95).
