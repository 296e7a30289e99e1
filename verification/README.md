# Verified models of ICU text and locale algorithms

This project models the algorithmic cores of five components of ICU 71 in Dafny and proves what they promise.

**Edits** is a compressed log of text edits. Records are 16-bit units: unchanged text, runs of equal short
changes, and changes with lengths of up to two trail units. A log denotes a list of spans; fine granularity
joins adjacent unchanged spans, coarse granularity joins adjacent changes as well. `Spans`, `Units`, `Encoding`
and `Reading` give the span algebra, the unit format and reading in both directions. `EditIterator` is the
bidirectional iterator with its index search, `SpanIndex` the meaning of the index mappings. `EditLog` is the
log itself. Merging ab and bc composes two logs: `Compose`, `Cuts`, `MergeSteps` and `MergeSteady` say what the
merge loop keeps, and `MergeUnique` shows that only one log is the composition. `RoundTrip` puts recording and
reading together for any sequence of calls.

**BMPSet** speeds up a set of code points given as an inversion list. `InversionList`, `Bits`, `Utf16` and
`Utf8` define membership, the vertical bit tables and the simple one-character-at-a-time spans; `BmpSet` holds
the tables, the constructor that fills them and the span methods. Both encodings are tied to encoders: of RFC 3629 for
UTF-8, of RFC 2781 for UTF-16.

**Dictionary break engines**: `CjkSegment` is the dynamic program over candidate words, `CjkCosts` what its
tables mean, `CjkMap` the map from code points back to native indexes, `CjkBreaks` the whole engine without
phrase mode. `WordSpec` says which breaks the Thai, Lao, Burmese and Khmer engines find, with no cache and no
cursor; `WordEngine` is their loop with three slots that remember words. `CjkSteps`, `CjkPositions` and `WordEnds` say
what the words, positions and breaks of these engines are in terms of the text and the dictionary alone.

**BytesTrie**: `TrieFormat` says what bytes are a trie and which (string, value) pairs it holds; `TrieIterator`,
`TrieOrder` and `TrieLookup` are enumeration, order and byte-wise matching, `TrieAgreement` puts them together,
and `TrieWriter` is the writing of values and jump deltas. `TrieBuild` says which bytes the builder writes for sorted
strings, `TrieBuilt` that these bytes are a trie with exactly those strings and values, `TrieBuilder` is the writing of
nodes from their ends, and `TrieRoundTrip` goes from elements to bytes and back.

**Locale matching**: `LocaleDistance` is the search for the nearest supported locale, `LocaleMatcher` the index
of supported locales, `LocaleSearch` the search over several desired locales, and `DistanceRules` what distances are in
terms of the distance data alone. `PriorityList`, `ArraySort` and
`Ranking` are the list of preferred locales of an Accept-Language header (section 14.4 of RFC 2616) with its
sort, `AcceptLanguage` the reading of the header against a grammar, `WeightParser` the reading of its weights
(section 3.9 of RFC 2616), `HeaderText` the reading of headers that have been written.

`Basics` holds the types that these parts share.

## How the model reads the code

- Integers are unbounded. The limits that the code itself checks are modelled: the 32-bit delta and array
  capacity of an edit log, the 32-bit wrap-around of segmentation costs, the 16-bit fields of the trie iterator's
  stack, the 10-bit distance field of a packed match. Sums of lengths and string indexes are not bounded.
- Where the code masks and shifts 16-bit units or packed integers, the model divides and takes remainders. Bit
  tables are 32-bit vectors, shifted and masked as in the code.
- An iterator holds the units of its log as a value, so it does not see later changes of the log.
- A text for the word break engines is a sequence of native units, each of which holds the code point that
  starts there. Dictionaries, character sets, normalization, likely subtags and distance rules are parameters.
- Hash tables are maps. Vectors are sequences held in objects, or arrays where the code works in place.
- Long methods of the code are split into several methods that call each other in the same order.
- Findings: the final `if` and the flush before unchanged text in `mergeAndAppend` (`edits.cpp:339-342` and
  `edits.cpp:393-395`) can never record anything (`MergeSteady.FlushRecordsNothing`): nothing is pending where neither
  log is inside a change. With a threshold of 0, `getBestSuppIndex` still returns an exact match, although its
  distance is not below the threshold (`LocaleSearch.GetBestSuppIndex` states both cases, `ExactMatchAtZero` is an
  example). Costs of CJK words are added in 32 bits: large enough ones wrap around and make the segmentation wrong
  (`CjkCosts.WrappingHarms`); `CjkCosts.TablesRight` says exactly when it is right.

## Model

| member | source | states |
|---|---|---|
| `EditLog.Edits.constructor` | icu/source/common/unicode/edits.h:86-88 | A new log is empty, with no delta and no changes. |
| `EditLog.Edits.Reset` | icu/source/common/edits.cpp:109-112 | The log is empty again and without error. |
| `EditLog.Edits.LastUnit` | icu/source/common/unicode/edits.h:512-512 | The last unit, or a value that nothing can be merged with. |
| `EditLog.Edits.SetLastUnit` | icu/source/common/unicode/edits.h:511-511 | Only the last unit changes. |
| `EditLog.Edits.GrowArray` | icu/source/common/edits.cpp:216-245 | Growing keeps the content; it succeeds exactly while five more units fit below the 32-bit limit. |
| `EditLog.Edits.Append` | icu/source/common/edits.cpp:210-214 | One unit is appended, or the log reports an overflow and keeps its content. |
| `EditLog.Edits.AddUnchanged` | icu/source/common/edits.cpp:114-140 | The log denotes its earlier spans with the unchanged text joined to them, whatever units that takes; a negative length is refused and leaves the content alone; an overflow is reported only when the array is full. |
| `EditLog.Edits.AddReplace` | icu/source/common/edits.cpp:142-208 | The log denotes its earlier spans and then the change, whether a short run grows, starts or a long record is written; delta and number of changes agree with the spans; an overflow leaves the content alone and is reported only if the delta goes out of range or the array is full. |
| `Encoding.LengthRoundTrip` | icu/source/common/edits.cpp:185-204 | A length split over a head field and trail units is read back as itself. |
| `Encoding.LongRecDecodes` | icu/source/common/edits.cpp:178-206 | A long record denotes exactly the change it was written for. |
| `Encoding.BumpUnchangedUnit` | icu/source/common/edits.cpp:120-130 | Enlarging the last unchanged unit is the same as recording more unchanged text. |
| `Encoding.BumpShortUnit` | icu/source/common/edits.cpp:165-173 | Counting up a short-change unit is the same as recording one more equal change. |
| `Units.RawForward` | icu/source/common/edits.cpp:479-542 | Reading one record forward moves to the next record boundary and splits off exactly its spans. |
| `Units.RawBackward` | icu/source/common/edits.cpp:578-651 | From any boundary, the head of the record before it is found over its trail units, and the same spans are split off. |
| `Spans.NormTotalsMaximalRuns` | icu/source/common/edits.cpp:449-543 | However spans are cut into maximal runs that may be joined, joining yields exactly one total per run. |
| `Spans.MaximalRunsExist` | icu/source/common/edits.cpp:449-543 | Every span list can be cut into maximal runs. |
| `Spans.CoarseOfFine` | icu/source/common/edits.cpp:449-543 | Coarse granularity is fine granularity with runs of changes summed. |
| `Spans.FineSpans` | icu/source/common/edits.cpp:449-543 | Fine granularity delivers every change by itself and never two unchanged spans in a row. |
| `Spans.CoarseSpans` | icu/source/common/edits.cpp:449-543 | Coarse granularity delivers changed and unchanged spans in turn. |
| `RoundTrip.RecordAll` | icu/source/common/edits.cpp:114-208 | Any sequence of recording calls leaves the earlier spans and then the calls, without empty ones, joined as far as fine granularity joins; if it succeeds, every prefix of the calls keeps the delta in range, and if it fails, some prefix does not or the array is full; what it takes of the array is bounded by a count over the calls. |
| `RoundTrip.ReadAll` | icu/source/common/edits.cpp:449-543 | Going through a log delivers exactly its spans at either granularity. |
| `RoundTrip.RecordAndRead` | icu/source/common/edits.cpp:114-543 | Recording any sequence of edits and reading it back gives them again, without empty ones and joined per granularity; delta is the difference of the totals and the change count is the number of changes. It succeeds where every prefix keeps the delta in range and a count over the calls stays below the array limit, and never where some prefix does not. |
| `EditIterator.Iterator.constructor` | icu/source/common/edits.cpp:400-404 | The iterator starts before the first span with all indexes 0. |
| `EditIterator.Iterator.ReadLength` | icu/source/common/edits.cpp:406-423 | The length a head field and its trail units denote; the index moves past the trail units. |
| `EditIterator.Iterator.NoNext` | icu/source/common/edits.cpp:441-447 | At either end the iterator has no direction and its position is that end. |
| `EditIterator.Iterator.Next` | icu/source/common/edits.cpp:449-543 | The next span (or next change), with prefix sums as indexes; after moving back, the same span again; at the end, no span. |
| `EditIterator.Iterator.Previous` | icu/source/common/edits.cpp:545-652 | The previous span with prefix sums as indexes; after moving forward, the same span again. |
| `EditIterator.Iterator.ReadForward` | icu/source/common/edits.cpp:479-542 | One span at the iterator's granularity is assembled from the units ahead, records of a coarse run summed. |
| `EditIterator.Iterator.ReadBackward` | icu/source/common/edits.cpp:578-651 | One span is assembled from the units behind, long records found from their trail units. |
| `EditIterator.Iterator.FindIndex` | icu/source/common/edits.cpp:654-739 | From any state, the span that covers the index is found, or the index is reported before or after the text. |
| `EditIterator.Iterator.FindBackward` | icu/source/common/edits.cpp:664-700 | Searching backward ends on the span that covers the index, also inside compressed runs. |
| `EditIterator.Iterator.FindForward` | icu/source/common/edits.cpp:708-738 | Searching forward ends on the covering span, or after the last one if there is none. |
| `EditIterator.Iterator.DestinationIndexFromSourceIndex` | icu/source/common/edits.cpp:741-758 | The result depends only on the spans and the index, not on earlier queries. |
| `EditIterator.Iterator.SourceIndexFromDestinationIndex` | icu/source/common/edits.cpp:760-777 | The same for the other direction. |
| `SpanIndex.CoversUnique` | icu/source/common/edits.cpp:654-739 | At most one span covers an index, so every search must find the same one. |
| `SpanIndex.MapCovered` | icu/source/common/edits.cpp:741-777 | A mapped index is at the start of the covering span, at its end, or as far into it as the index was. |
| `SpanIndex.MapMonotone` | icu/source/common/edits.cpp:741-777 | Both index mappings are monotone. |
| `SpanIndex.MapThereAndBack` | icu/source/common/edits.cpp:741-777 | Mapping there and back never goes before the index. |
| `EditLog.Edits.MergeAndAppend` | icu/source/common/edits.cpp:254-398 | Where ab and bc agree on string b, the earlier spans stay and the one composition of ab and bc is recorded behind them: totals of a and c, unchanged text exactly where both logs keep it, borders only at common cuts, and no change that could be split there. It fails only if the delta goes out of range while the composition is recorded or the array is full, and succeeds only if it does not; it succeeds where the delta stays in range and what the composition takes fits behind what is there. Logs that disagree on string b are refused, with the earlier spans kept; an earlier error leaves the content alone. |
| `EditLog.Edits.MergeFrom` | icu/source/common/edits.cpp:258-397 | The loop from two fresh iterators records that composition behind the earlier spans, with the same causes of failure. |
| `EditLog.Edits.MergeLoop` | icu/source/common/edits.cpp:266-392 | The loop ends with both logs used up, or with lengths of string b that differ. |
| `EditLog.Edits.MergeRound` | icu/source/common/edits.cpp:266-392 | Each round keeps the merge invariant and leaves less of the two logs. |
| `EditLog.Edits.MergeFetch` | icu/source/common/edits.cpp:279-328 | Fetching keeps the invariant; it ends the merge exactly where both logs end together. |
| `EditLog.Edits.FetchBc` | icu/source/common/edits.cpp:279-295 | An insertion is recorded by itself unless ab is inside a change. |
| `EditLog.Edits.FetchAb` | icu/source/common/edits.cpp:296-321 | A deletion is recorded by itself unless bc is inside a change. |
| `EditLog.Edits.MergeCurrent` | icu/source/common/edits.cpp:337-391 | The common part of two current edits is recorded or made pending, and the remainder of the longer one kept. |
| `EditLog.Edits.MergeUnchanged` | icu/source/common/edits.cpp:337-349 | Text that neither log changes is recorded as unchanged. |
| `EditLog.Edits.MergeFinish` | icu/source/common/edits.cpp:393-397 | At the end the log holds the earlier spans and the whole composition, or failed for one of those causes. |
| `MergeSteps.ChangeStep` | icu/source/common/edits.cpp:350-391 | No text survives where either log has a change. |
| `MergeSteps.KeepStep` | icu/source/common/edits.cpp:337-349 | Text that neither log changes survives at its place. |
| `MergeSteps.MergedText` | icu/source/common/edits.cpp:254-398 | After a merge into any log, text recorded before is as it was, and behind it a_i is kept as c_j exactly if some b_k is a_i in ab and c_j in bc. |
| `MergeSteady.ConsumedReady` | icu/source/common/edits.cpp:350-380 | A change recorded after going over string b has no common cut inside it. |
| `MergeSteady.ConsumedSteady` | icu/source/common/edits.cpp:381-391 | A change stays pending only while one log is inside a change. |
| `MergeSteady.InsertReady` | icu/source/common/edits.cpp:283-292 | An insertion recorded by itself cannot be split. |
| `MergeSteady.DeleteReady` | icu/source/common/edits.cpp:300-309 | A deletion recorded by itself comes after all insertions at its place. |
| `MergeSteady.FlushRecordsNothing` | icu/source/common/edits.cpp:337-343 | Where neither log is inside a change, nothing is pending. |
| `MergeUnique.CompositionUnique` | icu/source/common/edits.cpp:254-398 | Totals, unchanged text, common cuts and unsplittable changes determine the composition: there is only one. |
| `MergeUnique.AppendedUnique` | icu/source/common/edits.cpp:254-398 | The log before, ab and bc determine the log after a merge. |
| `MergeUnique.FitsOrOverflows` | icu/source/common/edits.cpp:254-398 | The causes of success and failure exclude each other: the composition and the delta before decide. |
| `MergeUnique.RoomSuffices` | icu/source/common/edits.cpp:210-245 | Where there is room for the composition, it does not overflow, and what a merge takes is no more than the room. |
| `MergeUnique.MergedLog` | icu/source/common/edits.cpp:254-398 | Merging into an empty log gives that log. |
| `Cuts.CutMonotone` | icu/source/common/edits.cpp:254-398 | Cuts of a log do not cross. |
| `Cuts.StretchTight` | icu/source/common/edits.cpp:254-398 | From the last cut at one place of string b to the first cut at the next common place there is no other common cut. |
| `InversionList.InSetIffInRange` | icu/source/common/bmpset.cpp:257-289 | Being in the set, by parity of the search index, is being in one of the list's ranges. |
| `Bits.Set32x64Bits` | icu/source/common/bmpset.cpp:70-119 | Exactly the bits from start to limit are added to a vertical bit table. |
| `Bits.MarkMixed` | icu/source/common/bmpset.cpp:185-204 | Exactly the two bits of a block are set. |
| `Bits.TwoBitsRead` | icu/source/common/bmpset.cpp:299-304 | One shift and one mask read both bits of a block: at most 1 exactly if the upper bit is not set, and then the value is the lower bit. |
| `BmpSet.BMPSet.constructor` | icu/source/common/bmpset.cpp:29-52 | For every inversion list, all tables agree with the list. |
| `BmpSet.BMPSet.InitBits` | icu/source/common/bmpset.cpp:121-219 | The Latin-1, two-byte and block tables say what the list says; mixed blocks are marked. |
| `BmpSet.BMPSet.InitLatin1` | icu/source/common/bmpset.cpp:125-139 | One entry per Latin-1 character, equal to membership. |
| `BmpSet.BMPSet.Init7FF` | icu/source/common/bmpset.cpp:141-172 | The two-byte table equals membership, for U+0080 and up. |
| `BmpSet.BMPSet.InitBlocks` | icu/source/common/bmpset.cpp:174-218 | Each block of 64 is marked as full, empty or mixed, correctly. |
| `BmpSet.BMPSet.AddRange` | icu/source/common/bmpset.cpp:181-206 | Entering one range keeps the blocks before it right. |
| `BmpSet.BMPSet.OverrideIllegal` | icu/source/common/bmpset.cpp:229-255 | Exactly the blocks of encodings that are ill-formed take the value of U+FFFD. |
| `BmpSet.BMPSet.InitStarts` | icu/source/common/bmpset.cpp:29-52 | The cached bounds are the search results at multiples of 0x1000. |
| `BmpSet.BMPSet.StartsEnclose` | icu/source/common/bmpset.cpp:292-316 | Searching between two cached bounds finds what searching the whole list finds. |
| `BmpSet.BMPSet.FindCodePoint` | icu/source/common/bmpset.cpp:257-289 | Binary search gives the first greater element, clamped to the bounds. |
| `BmpSet.BMPSet.ContainsSlow` | icu/source/common/bmpset.h:158-160 | The restricted search decides membership. |
| `BmpSet.BMPSet.Contains` | icu/source/common/bmpset.cpp:292-316 | For every integer, the table paths and the restricted search agree with the list. |
| `BmpSet.BMPSet.Span` | icu/source/common/bmpset.cpp:323-408 | The longest prefix of code points that are all in or all out of the set, for every unit sequence. |
| `BmpSet.BMPSet.SpanBack` | icu/source/common/bmpset.cpp:412-503 | The longest such suffix. |
| `Utf16.SpanUnique` | icu/source/common/bmpset.cpp:323-408 | There is only one longest prefix. |
| `Utf16.BackwardSteps` | icu/source/common/bmpset.cpp:412-503 | Going backward finds the same code points as going forward. |
| `Utf16.SpansAgreeOnWholeText` | icu/source/common/bmpset.cpp:323-503 | The forward span is the whole text exactly if the backward span is. |
| `Utf16.DecodePair` | icu/source/common/bmpset.cpp:323-503 | A supplementary code point encoded after section 2 of RFC 2781 is found where it is, from either side, whatever is around it. |
| `Utf16.DecodeUnit` | icu/source/common/bmpset.cpp:323-503 | Any other code point is found, too, unless it is half of a pair. |
| `Utf16.EncodeDecoded16` | icu/source/common/bmpset.cpp:323-503 | The units at an index are the encoding of the code point found there. |
| `BmpSet.BMPSet.SpanUTF8` | icu/source/common/bmpset.cpp:510-665 | For every byte sequence, stops exactly where decoding one character at a time stops, ill-formed bytes counting as U+FFFD, without reading outside; `Utf8.SpanEncoded` says what that is for encoded text. |
| `BmpSet.BMPSet.SpanFrom` | icu/source/common/bmpset.cpp:577-664 | The loop up to the cut gives the same as the naive span from there. |
| `BmpSet.BMPSet.CutTruncated` | icu/source/common/bmpset.cpp:537-575 | After the cut, no multi-byte lead is too near the end; what is cut off is ill-formed. |
| `BmpSet.BMPSet.ContainsMultibyte` | icu/source/common/bmpset.cpp:601-662 | Membership of the character at a lead or stray byte, and where it ends; `Utf8.DecodeEncoded` and `Utf8.EncodeDecoded` say which character that is. |
| `Utf8.SpanIllFormed` | icu/source/common/bmpset.cpp:510-665 | A naive span passes all of an ill-formed stretch or stops at its start. |
| `Utf8.Encode8` | icu/source/common/bmpset.cpp:601-662 | The bytes of a character after section 3 of RFC 3629, one to four of them, given as numbers. |
| `Utf8.DecodeEncoded` | icu/source/common/bmpset.cpp:601-662 | For every scalar value and all bytes around it, the encoded bytes are well-formed, as long as the encoding, and decode to it. |
| `Utf8.EncodeDecoded` | icu/source/common/bmpset.cpp:601-662 | Every well-formed sequence is the encoding of the character it decodes to, which is a scalar value. |
| `Utf8.IllFormedIff` | icu/source/common/bmpset.cpp:601-662 | A byte starts nothing well-formed exactly if the encoding of no scalar value starts there. |
| `Utf8.TwoBytes` | icu/source/common/bmpset.cpp:644-656 | The value of a lead and a trail byte, or U+FFFD if a shorter form would do. |
| `Utf8.ThreeBytes` | icu/source/common/bmpset.cpp:603-626 | The value of a lead and two trail bytes in their order, or U+FFFD for surrogates and where a shorter form would do. |
| `Utf8.FourBytes` | icu/source/common/bmpset.cpp:627-643 | The value of a lead and three trail bytes in their order, or U+FFFD beyond the code points and where a shorter form would do. |
| `Utf8.SpanEncoded` | icu/source/common/bmpset.cpp:510-665 | Spanning encoded characters covers exactly the encodings of the longest run of characters that are all in, or all out of, the set. |
| `CjkSegment.Relax` | icu/source/common/dictbe.cpp:1310-1317 | One word is compared in unsigned 32-bit arithmetic; only a smaller sum replaces the entry and its previous position. |
| `CjkSegment.MeasureRun` | icu/source/common/dictbe.cpp:1326-1334 | The length of a Katakana run, counted up to the limit. |
| `CjkSegment.RelaxPosition` | icu/source/common/dictbe.cpp:1287-1344 | All dictionary words, the fallback word and the Katakana run at a position have been compared; entries up to it stay. `CjkSteps.WordsAre` says which these are. |
| `CjkSegment.BestSegmentation` | icu/source/common/dictbe.cpp:1255-1345 | For any text and costs, every finite entry is the least of the sums, in unsigned 32-bit arithmetic, that lead to its position, and its previous position is the first that gives this sum. |
| `CjkCosts.TablesRight` | icu/source/common/dictbe.cpp:1255-1345 | The tables hold the least costs over all segmentations and spell out cheapest ones, exactly if no sum wraps around to one that undercuts a least cost, or ties with it from an earlier position. |
| `CjkCosts.NoOverflowHarmless` | icu/source/common/dictbe.cpp:1310-1317 | That is so if no segmentation, of the text or of a beginning of it, costs as much as the unsigned maximum. |
| `CjkCosts.CostsFitNoOverflow` | icu/source/common/dictbe.cpp:1310-1317 | And that is so if the text length times the largest cost stays below the unsigned maximum. |
| `CjkCosts.WrappingHarms` | icu/source/common/dictbe.cpp:1310-1317 | There are costs of 31 bits each for which a sum wraps around and the tables are wrong. |
| `CjkCosts.MinimumCost` | icu/source/common/dictbe.cpp:1255-1388 | Where no sum does harm, the last entry is the least cost over all segmentations, the previous-position chain is a segmentation of that cost, and there is none exactly if the entry is the unsigned maximum; text without Hangul always has one. |
| `CjkCosts.EntryAtMost` | icu/source/common/dictbe.cpp:1287-1344 | Behind entries that are right, the next one is at most the least cost, if that fits, and the first position that gives it counts. |
| `CjkCosts.NextRight` | icu/source/common/dictbe.cpp:1287-1344 | Behind entries that are right, the next one is right, too: least cost and cheapest chain, or the unsigned maximum exactly if no segmentation ends there. |
| `CjkCosts.CheapestExists` | icu/source/common/dictbe.cpp:1287-1344 | Where a position can be reached, there is a cheapest way to it. |
| `CjkSegment.AlwaysReached` | icu/source/common/dictbe.cpp:1299-1308 | Without Hangul every position can be reached, because of the fallback word. |
| `CjkSteps.WordsAre` | icu/source/common/dictbe.cpp:1290-1343 | The candidate words at a place are exactly the dictionary words, the one-character word of cost 255 where the dictionary lists no such word first and the character is no Hangul syllable, and the whole run of fewer than 20 Katakana with the cost of its length. |
| `CjkSteps.RunLengthIs` | icu/source/common/dictbe.cpp:1326-1334 | A run is measured to its end or to 20 characters, and is all Katakana. |
| `CjkSteps.PrevKatakanaIs` | icu/source/common/dictbe.cpp:1324-1344 | A run starts where the last place reached before it is not Katakana. |
| `CjkSteps.StepKinds` | icu/source/common/dictbe.cpp:1287-1344 | Every word of a segmentation starts where the one before it ends and is of one of these three kinds. |
| `CjkSteps.HangulSteps` | icu/source/common/dictbe.cpp:1299-1308 | A word of a segmentation that starts with a Hangul syllable is in the dictionary. |
| `CjkSteps.LeftTogether` | icu/source/common/dictbe.cpp:1302-1308 | Hangul syllables without any dictionary word have no segmentation, and no sum does harm. |
| `CjkMap.CopyText` | icu/source/common/dictbe.cpp:1152-1175 | Each code unit is mapped to the native index of its code point. |
| `CjkMap.ReadChunk` | icu/source/common/dictbe.cpp:1189-1202 | A chunk ends before the next code point with a normalization boundary. |
| `CjkMap.NormalizeText` | icu/source/common/dictbe.cpp:1178-1224 | Each normalized unit is mapped to the start of its chunk in the text. |
| `CjkMap.CompactMap` | icu/source/common/dictbe.cpp:1226-1253 | In place, entries for code units become entries for code points. |
| `CjkMap.MapRange` | icu/source/common/dictbe.cpp:1134-1253 | The three stages give the positions of the specification. |
| `CjkMap.PositionsOrdered` | icu/source/common/dictbe.cpp:1134-1253 | Positions start at the range start, never go back, and reach the range end only with the last one. |
| `CjkPositions.ContiguousPositions` | icu/source/common/dictbe.cpp:1140-1151 | In normalized UTF-16 text, each code point is what is encoded at its position, and the next position is right after it. |
| `CjkPositions.ProvidedPositions` | icu/source/common/dictbe.cpp:1152-1175 | In normalized text that was copied, code points are those copied and positions their native indexes. |
| `CjkPositions.NormalizedPositions` | icu/source/common/dictbe.cpp:1178-1224 | In text that is not normalized, every position is where a chunk starts: at the start of the text or before a normalization boundary. |
| `CjkPositions.ChunkInside` | icu/source/common/dictbe.cpp:1189-1202 | Nothing inside a chunk has a normalization boundary before it. |
| `CjkBreaks.CollectBounds` | icu/source/common/dictbe.cpp:1347-1389 | The boundaries are those of the chain, or only the end if there is no segmentation. |
| `CjkBreaks.PushBreaks` | icu/source/common/dictbe.cpp:1398-1429 | Exactly the distinct native positions after the range start are appended in order and counted. |
| `CjkBreaks.DivideUpDictionaryRange` | icu/source/common/dictbe.cpp:1123-1452 | The breaks added are exactly the native positions of the boundaries, each once, strictly ascending and strictly inside the range, and the result is their number; where no sum does harm, the boundaries are those of a cheapest segmentation; Hangul syllables without any dictionary word get no break. |
| `CjkBreaks.WithoutEnd` | icu/source/common/dictbe.cpp:1391-1448 | The last break found is the range end, which is taken back; a boundary at the start makes no difference. |
| `CjkBreaks.BreaksStayAscending` | icu/source/common/dictbe.cpp:1409-1412 | With breaks found before, all stay strictly ascending. |
| `CjkBreaks.NoneInside` | icu/source/common/dictbe.cpp:1302-1308 | Where Hangul syllables have no dictionary word, nothing is left but the end of the range, so no break is added. |
| `WordEngine.PossibleWord.Candidates` | icu/source/common/dictbe.cpp:138-155 | Remembered or not, the words are those of the dictionary at the cursor, and the cursor is after the longest. |
| `WordEngine.PossibleWord.AcceptMarked` | icu/source/common/dictbe.cpp:157-161 | The cursor is after the preferred word. |
| `WordEngine.PossibleWord.BackUp` | icu/source/common/dictbe.cpp:164-171 | The next shorter word, if there is one. |
| `WordEngine.FindThird` | icu/source/common/dictbe.cpp:285-293 | Whether some second word is followed by a third. |
| `WordEngine.ChooseWord` | icu/source/common/dictbe.cpp:269-302 | The longest word followed by two words, or by one that reaches the end; else the shortest followed by a word; else the longest. |
| `WordEngine.Resynchronize` | icu/source/common/dictbe.cpp:318-344 | Scans to the first plausible word start or the range end. |
| `WordEngine.CombineNonWord` | icu/source/common/dictbe.cpp:304-358 | Text that is no word is combined with a short word before it, or is a word of its own. |
| `WordEngine.SkipMarks` | icu/source/common/dictbe.cpp:360-365 | Stops at the first character that is not a mark, or at the range end; everything passed over is a mark. |
| `WordEngine.TakeSuffixes` | icu/source/common/dictbe.cpp:367-405 | PAIYANNOI and MAIYAMOK are added under the stated conditions. |
| `WordEngine.FindWord` | icu/source/common/dictbe.cpp:256-411 | Every iteration counts exactly one word, moves on, and leaves the cursor at its break. |
| `WordEngine.AddWords` | icu/source/common/dictbe.cpp:256-411 | The loop finds exactly the words that the dictionary determines. |
| `WordEngine.DivideUpDictionaryRange` | icu/source/common/dictbe.cpp:233-1048 | For the Thai, Lao, Burmese and Khmer engines: the breaks left are those the dictionary determines, strictly ascending and strictly inside the range, equal in number to the result, and never before a mark except after a suffix character; short ranges have none. |
| `WordSpec.TakenUnique` | icu/source/common/dictbe.cpp:271-301 | The choice among several words is determined. |
| `WordSpec.BreaksUnique` | icu/source/common/dictbe.cpp:256-401 | The end of the word at a position is determined. |
| `WordSpec.WholeRunUnique` | icu/source/common/dictbe.cpp:233-420 | All breaks of a range are determined. |
| `WordSpec.WholeRunInside` | icu/source/common/dictbe.cpp:413-419 | All breaks but the last lie strictly inside the range, in strictly ascending order. |
| `WordEnds.MarksPassed` | icu/source/common/dictbe.cpp:360-365 | Marks are passed over up to the first character that is none, or to the range end. |
| `WordEnds.ScanStops` | icu/source/common/dictbe.cpp:318-344 | Scanning over text that is no word stops at the first place with an end character before it and a begin character and a word after it, or at the range end. |
| `WordEnds.SuffixesTaken` | icu/source/common/dictbe.cpp:367-401 | Where no word follows, an elision character after no suffix character is taken, and then a repetition character after no other one. |
| `WordEnds.TakenPreferred` | icu/source/common/dictbe.cpp:265-302 | A word that reaches the range end is taken, else the longest one that is followed by two words or by one up to the end, else the shortest followed by a word, else the longest. |
| `WordEnds.BreaksIff` | icu/source/common/dictbe.cpp:256-401 | A break is where a word ends with the text added to it, then marks, then suffixes, each as stated above, and nowhere else. |
| `WordEnds.RunNotBeforeMarks` | icu/source/common/dictbe.cpp:360-365 | No break inside the range is before a mark, except with suffixes after a suffix character. |
| `WordEnds.TooShortIff` | icu/source/common/dictbe.cpp:240-246 | A Thai range is too short exactly if it has at most four characters, any other exactly if it has at most three units. |
| `TrieIterator.Iterator.constructor` | icu/source/common/bytestrieiterator.cpp:47-76 | From a state of a trie, at a node or inside a linear match or stopped with no match left, all pairs that can still be matched are pending. |
| `TrieIterator.Iterator.Reset` | icu/source/common/bytestrieiterator.cpp:83-96 | All pairs of the initial state are pending again. |
| `TrieIterator.Iterator.BranchNext` | icu/source/common/bytestrieiterator.cpp:183-212 | Walking into a branch puts the rest of it on the stack; nothing is lost or repeated. |
| `TrieIterator.Iterator.Next` | icu/source/common/bytestrieiterator.cpp:101-169 | The first pending pair is delivered and the others stay pending. |
| `TrieOrder.EntriesAscending` | icu/source/common/bytestrieiterator.cpp:101-169 | The pairs of a well-formed trie are in strictly ascending unsigned order. |
| `TrieLookup.BytesTrie.constructor` | icu/source/common/unicode/bytestrie.h:497-542 | A new trie can match all its pairs. |
| `TrieLookup.BytesTrie.Current` | icu/source/common/bytestrie.cpp:68-78 | Reports no match, no value, or which kind of value. |
| `TrieLookup.BytesTrie.BranchNext` | icu/source/common/bytestrie.cpp:80-148 | Binary and linear search find exactly the edge for a byte. |
| `TrieLookup.BytesTrie.NextImpl` | icu/source/common/bytestrie.cpp:150-180 | Values are skipped, branches searched and linear matches started. |
| `TrieLookup.BytesTrie.Next` | icu/source/common/bytestrie.cpp:182-206 | The state holds exactly what follows the byte, and the result says so. |
| `TrieLookup.BytesTrie.GetValue` | icu/source/common/unicode/bytestrie.h:246-251 | The value of the string matched so far. |
| `TrieLookup.LookupFindsValue` | icu/source/common/bytestrie.cpp:182-206 | After all bytes of a string, a value is reported exactly if the string is in the trie, and it is its value. |
| `TrieLookup.ReportMeans` | icu/source/common/bytestrie.cpp:182-206 | After the bytes of a key: no match exactly if no string starts with it, a final value exactly if it is a string and begins no other, an intermediate one exactly if it is a string and begins others, no value otherwise. |
| `TrieAgreement.Enumerate` | icu/source/common/bytestrieiterator.cpp:98-169 | Enumeration delivers each pair exactly once in ascending order; `TrieRoundTrip.BuildAndEnumerate` says which pairs a built trie has. |
| `TrieAgreement.Find` | icu/source/common/bytestrie.cpp:182-206 | Looking up any string finds it exactly if enumeration delivers it, with the same value; `TrieRoundTrip.BuildAndFind` says this of built tries. |
| `TrieAgreement.OneValue` | icu/source/common/bytestrieiterator.cpp:101-169 | No string has two values. |
| `TrieWriter.ValueRoundTrip` | icu/source/common/bytestriebuilder.cpp:427-460 | Any 32-bit value with its final flag is read back as itself, from exactly the bytes written. |
| `TrieWriter.DeltaRoundTrip` | icu/source/common/bytestriebuilder.cpp:483-510 | A jump delta is read back as itself, from exactly the bytes written. |
| `TrieWriter.DeltaSurvives` | icu/source/common/bytestriebuilder.cpp:471-481 | After any later bytes in front, a delta still jumps to its target. |
| `TrieWriter.ValueLayout` | icu/source/common/unicode/bytestrie.h:510-532 | The bytes of every 32-bit value with its final flag, by its size, as numbers. |
| `TrieWriter.DeltaLayout` | icu/source/common/unicode/bytestrie.h:534-542 | The bytes of every jump delta, by its size, as numbers. |
| `TrieWriter.Writer.EnsureCapacity` | icu/source/common/bytestriebuilder.cpp:375-400 | Regrowing keeps the content at the end of the buffer. |
| `TrieWriter.Writer.Write` | icu/source/common/bytestriebuilder.cpp:402-420 | Bytes are put in front of the content. |
| `TrieWriter.Writer.WriteValueAndFinal` | icu/source/common/bytestriebuilder.cpp:427-460 | The encoded value is put in front. |
| `TrieWriter.Writer.WriteDeltaTo` | icu/source/common/bytestriebuilder.cpp:471-481 | The encoded distance to the target is put in front. |
| `TrieBuilt.NodeBuilt` | icu/source/common/stringtriebuilder.cpp:83-130 | Whatever elements, sorted and without duplicates, a node is written for, and wherever it is in the bytes: the node is well-formed and sorted and holds exactly the elements. |
| `TrieBuilt.ShortLinearBuilt` | icu/source/common/unicode/bytestrie.h:506-508 | A linear-match node of 1 to 16 units has 0x10 plus their number less one as its lead byte, then the units. |
| `TrieBuilt.LinearBuilt` | icu/source/common/stringtriebuilder.cpp:103-117 | Linear matches of any length are chained in pieces of at most 16 units. |
| `TrieBuilt.HeadBuilt` | icu/source/common/unicode/bytestrie.h:497-504 | The head of a branch of 2 to 256 edges is their number less one, in a second byte after 0 if there are more than 16. |
| `TrieBuilt.SplitBuilt` | icu/source/common/stringtriebuilder.cpp:139-150 | A long branch: the middle unit, the jump over the upper half, the upper half with the greater number of edges, the lower half. |
| `TrieBuilt.FinalEdgeBuilt` | icu/source/common/stringtriebuilder.cpp:181-194 | An edge to a final value. |
| `TrieBuilt.JumpEdgeBuilt` | icu/source/common/stringtriebuilder.cpp:181-194 | An edge that jumps over the given number of bytes to its node. |
| `TrieBuilder.GetLimitOfLinearMatch` | icu/source/common/bytestriebuilder.cpp:295-304 | Where the first and the last string of a range stop being the same. |
| `TrieBuilder.CountElementUnits` | icu/source/common/bytestriebuilder.cpp:306-318 | The number of different units at an index. |
| `TrieBuilder.SkipElementsBySomeUnits` | icu/source/common/bytestriebuilder.cpp:320-329 | The index after the elements of some units. |
| `TrieBuilder.IndexOfElementWithNextUnit` | icu/source/common/bytestriebuilder.cpp:331-338 | The next element with another unit. |
| `TrieBuilder.WriteChunks` | icu/source/common/stringtriebuilder.cpp:106-117 | The pieces of a linear match are written from the last to the first. |
| `TrieBuilder.WriteValueAndType` | icu/source/common/bytestriebuilder.cpp:462-469 | The lead byte of a node and the value before it are put in front. |
| `TrieBuilder.WriteNode` | icu/source/common/stringtriebuilder.cpp:83-130 | The node of a range of elements is put in front of the content, and its distance from the end returned. |
| `TrieBuilder.WriteUnits` | icu/source/common/stringtriebuilder.cpp:99-128 | All of a linear-match or branch node but its lead byte is put in front; the lead byte is returned. |
| `TrieBuilder.WriteLinear` | icu/source/common/stringtriebuilder.cpp:102-116 | The same where all strings of the range have the same unit. |
| `TrieBuilder.WriteBranch` | icu/source/common/stringtriebuilder.cpp:117-128 | The same where they have several; more than 16 take a second byte. |
| `TrieBuilder.WriteList` | icu/source/common/stringtriebuilder.cpp:151-194 | A list of two to five edges and the nodes they lead to is put in front. |
| `TrieBuilder.FindEdges` | icu/source/common/stringtriebuilder.cpp:151-163 | For each unit, where its elements start and whether it ends the only string with it. |
| `TrieBuilder.WriteSubNodes` | icu/source/common/stringtriebuilder.cpp:165-175 | The nodes of all edges but the last are put in front, the first edge last, and their places remembered. |
| `TrieBuilder.WritePairs` | icu/source/common/stringtriebuilder.cpp:181-194 | Units with final values or jumps to those places are put in front, the first edge last. |
| `TrieBuilder.WriteSplits` | icu/source/common/stringtriebuilder.cpp:195-200 | The remembered middle units and jumps to the lower halves are put in front. |
| `TrieBuilder.WriteBranchSubNode` | icu/source/common/stringtriebuilder.cpp:132-202 | A branch is put in front, halved until it is a list. |
| `TrieBuilder.LevelsFit` | icu/source/common/unicode/stringtriebuilder.h:145-148 | A branch on bytes is halved at most six times, so the arrays of 14 levels never overflow. |
| `TrieRoundTrip.BuiltTrie` | icu/source/common/stringtriebuilder.cpp:67-72 | The bytes for sorted elements are a well-formed, sorted trie that holds exactly them. |
| `TrieRoundTrip.BuildBytes` | icu/source/common/bytestriebuilder.cpp:218-269 | For any elements: none is an error, two with the same string are another, and otherwise the trie holds exactly the elements, in ascending order. |
| `TrieRoundTrip.BuildAndEnumerate` | icu/source/common/bytestriebuilder.cpp:192-269 | Building a trie and enumerating it delivers exactly the elements, sorted. |
| `TrieRoundTrip.BuildAndFind` | icu/source/common/bytestriebuilder.cpp:192-269 | Building a trie and looking a string up finds it exactly if it is one of the elements, with its value. |
| `TrieRoundTrip.AscendingUnique` | icu/source/common/bytestriebuilder.cpp:234-250 | Elements have only one ascending order. |
| `TrieRoundTrip.OneString` | icu/source/common/unicode/bytestrie.h:506-508 | The bytes of the trie for any single string of 1 to 16 bytes, as numbers, and what they denote. |
| `TrieRoundTrip.LetterBranch` | icu/source/common/unicode/bytestrie.h:480-500 | For any 2 to 256 strings of one byte: the lead byte is their number less one, or 0 with that number after it, and the bytes denote exactly these strings. |
| `TrieRoundTrip.LetterList` | icu/source/common/unicode/bytestrie.h:483-488 | For up to five of them, all bytes of the trie: lead byte, then each unit with its value. |
| `TrieRoundTrip.LetterSplit` | icu/source/common/unicode/bytestrie.h:489-495 | For six to ten of them, all bytes: lead byte, middle unit, jump over the upper half, upper half, lower half. |
| `TrieRoundTrip.ThreeLetters` | icu/source/common/unicode/bytestrie.h:480-500 | The seven bytes of the trie for a, b and c with the values 1, 2 and 3. |
| `LocaleDistance.GetRegionPartitionsDistance` | icu/source/common/locdistance.cpp:281-353 | The largest distance between partitions if it is not above the threshold, otherwise something above it; the fallback is looked up only once. |
| `LocaleDistance.AddRow` | icu/source/common/locdistance.cpp:311-334 | The same for one desired partition. |
| `LocaleDistance.RegionAtLeastMin` | icu/source/common/locdistance.cpp:195-198 | No region distance is below the stated minimum. |
| `LocaleDistance.CandidateDistance` | icu/source/common/locdistance.cpp:124-210 | Leaving out a candidate by language, script or minimum region distance happens only if its full distance is above the rounded threshold; `DistanceRules.DistanceParts` says what that distance is. |
| `LocaleDistance.CandidateShifted` | icu/source/common/locdistance.cpp:153-216 | The distance with fraction bits is exact unless it is above the threshold. |
| `LocaleDistance.GetBestIndexAndDistance` | icu/source/common/locdistance.cpp:109-256 | The packed result unpacks to an index whose full distance is the least of all and below the threshold, and to that distance; among several it is the first, or for more than a difference of flags the one that comparing likelihood in order leaves; it is negative exactly if no distance is below the threshold. |
| `LocaleDistance.PackRoundTrip` | icu/source/common/locdistance.h:33-50 | Index and distance survive packing. |
| `LocaleDistance.SelfDistance` | icu/source/common/locdistance.cpp:211-215 | A locale has no distance from itself if the data has none between equal subtags. |
| `DistanceRules.DistanceParts` | icu/source/common/locdistance.cpp:126-210 | From the data alone, the distance is the sum of language, script and region parts: by rule, default or 0, script and region rules consulted or ended as the language and script rules say, and the language part a quarter, rounded down, exactly if scripts are favored. |
| `DistanceRules.PartsExist` | icu/source/common/locdistance.cpp:126-210 | These parts exist for all locales. |
| `DistanceRules.RegionLargest` | icu/source/common/locdistance.cpp:200-209 | The distance between different regions is the largest one between a partition of the one and a partition of the other. |
| `DistanceRules.LanguagesOnly` | icu/source/common/locdistance.cpp:143-167 | Locales that differ only in language are as far apart as the rule or the default says, or a quarter of that if scripts are favored. |
| `DistanceRules.SameLanguage` | icu/source/common/locdistance.cpp:174-194 | For the same language without a rule, scripts and regions count with their defaults. |
| `DistanceRules.FavoringScripts` | icu/source/common/locdistance.cpp:160-167 | Favoring scripts changes the distance only by what it takes from the language part. |
| `DistanceRules.ShiftedIs` | icu/source/common/locdistance.cpp:211-216 | Eight times the distance, or below eight for locales at no distance, and 0 exactly if they were given alike. |
| `DistanceRules.FirstTaken` | icu/source/common/locdistance.cpp:216-228 | Among locales that differ only in how they were given, the first is taken. |
| `DistanceRules.LikeliestTaken` | icu/source/common/locdistance.cpp:238-252 | Among locales at the same distance, none is more likely than the one taken, and those before it are less likely. |
| `DistanceRules.FrenchAndEnglish` | icu/source/common/locdistance.cpp:160-167 | Without rules, the shifted distance of French and English is 672, or 192 if scripts are favored. |
| `DistanceRules.MatchFrench` | icu/source/common/locdistance.cpp:109-256 | With a threshold of 50, English is no match for French, unless scripts are favored. |
| `DistanceRules.SettingsShifted` | icu/source/common/localematcher.cpp:662-694 | Thresholds and demotions are counted in eighths. |
| `LocaleMatcher.Matcher.constructor` | icu/source/common/localematcher.cpp:397-454 | The index of supported locales is complete and in order. |
| `LocaleMatcher.Matcher.PutIfAbsent` | icu/source/common/localematcher.cpp:327-338 | A locale is added at the end unless an equal one, flags included, is in the index. |
| `LocaleMatcher.Matcher.AddDefaults` | icu/source/common/localematcher.cpp:415-440 | Locales are classified; those equivalent to the default come first. |
| `LocaleMatcher.Matcher.AddParadigms` | icu/source/common/localematcher.cpp:441-447 | Stopping at the counted limit leaves out no paradigm locale. |
| `LocaleMatcher.Matcher.AddOthers` | icu/source/common/localematcher.cpp:448-453 | The remaining locales follow in input order. |
| `LocaleMatcher.CompleteIndex` | icu/source/common/localematcher.cpp:397-402 | Every supported locale is found at its first position, and the list has no duplicates. |
| `LocaleMatcher.IndexOrder` | icu/source/common/localematcher.cpp:397-402 | Locales with the subtags of the default come first, then those with the subtags of a paradigm locale, then all others, each group in input order. |
| `LocaleSearch.GetBestSuppIndex` | icu/source/common/localematcher.cpp:662-706 | The result minimizes distance plus demotion below the threshold, an earlier desired locale winning ties, and is -1 exactly if there is no match; of the supported locales at that distance it is an equal one or the one the nearest-locale search takes; with threshold 0 it is an exact match of the first desired locale or -1. |
| `LocaleSearch.ExactMatchAtZero` | icu/source/common/localematcher.cpp:662-706 | A concrete setting: with threshold 0 a locale finds itself, although no distance is below the threshold. |
| `LocaleSearch.ExactMatchWins` | icu/source/common/localematcher.cpp:668-679 | An exact match may be returned at once. |
| `LocaleSearch.RestCannotWin` | icu/source/common/localematcher.cpp:691-693 | Once the demotion uses up the threshold, later desired locales cannot do better. |
| `ArraySort.BinarySearch` | icu/source/common/uarrsort.cpp:74-116 | The place after the last entry that is not greater. |
| `ArraySort.InsertionSort` | icu/source/common/uarrsort.cpp:118-138 | A range is sorted and keeps its entries; the rest is untouched. |
| `ArraySort.Partition` | icu/source/common/uarrsort.cpp:181-211 | Entries are split around a pivot, which is never scanned past. |
| `ArraySort.SubQuickSort` | icu/source/common/uarrsort.cpp:168-232 | A range is sorted and keeps its entries; the rest is untouched. |
| `ArraySort.SortArray` | icu/source/common/uarrsort.cpp:255-274 | The array is sorted and keeps its entries. |
| `PriorityList.LocalePriorityList.constructor` | icu/source/common/localeprioritylist.cpp:113-119 | An empty list. |
| `PriorityList.LocalePriorityList.Add` | icu/source/common/localeprioritylist.cpp:182-230 | The slots hold exactly the last field of each locale with a weight other than 0, in order, and the hash index agrees with them. |
| `PriorityList.LocalePriorityList.Remove` | icu/source/common/localeprioritylist.cpp:189-199 | A locale that is named again loses its earlier slot. |
| `PriorityList.LocalePriorityList.Sort` | icu/source/common/localeprioritylist.cpp:232-238 | The entries are in order of preference, also where sorting is skipped. |
| `PriorityList.Iterator.HasNext` | icu/source/common/localeprioritylist.h:61-61 | Whether a locale is left, removed ones not counting. |
| `PriorityList.Iterator.Next` | icu/source/common/localeprioritylist.h:63-71 | The next entry that has not been removed. |
| `PriorityList.RankedBySorting` | icu/source/common/localeprioritylist.cpp:232-238 | Sorting by descending weight and then by index gives the order of preference. |
| `Ranking.Rank` | icu/source/common/localeprioritylist.cpp:182-238 | Any sequence of fields is iterated with each locale once, at its last occurrence, without those last given weight 0, by descending weight with ties in the order of occurrence. |
| `WeightParser.ParseWeight` | icu/source/common/localeprioritylist.cpp:75-92 | The number written there, rounded to thousandths, or -1 if there is none or it rounds to more than 1; how far it was read. |
| `WeightParser.RoundedByFourDigits` | icu/source/common/localeprioritylist.cpp:81-91 | Three digits and the one after them are enough to round any decimal fraction. |
| `AcceptLanguage.FromHeader` | icu/source/common/localeprioritylist.cpp:113-158 | The whole constructor: an illegal header is refused, and from a legal one come its locales, each once, most preferred first. |
| `AcceptLanguage.ParseFields` | icu/source/common/localeprioritylist.cpp:120-156 | For every header: the language ranges between commas in order, empty ones skipped, and success exactly if every element is empty or a language range of the grammar. |
| `AcceptLanguage.ParsedUnique` | icu/source/common/localeprioritylist.cpp:120-156 | The grammar gives each header one outcome and one list of fields. |
| `AcceptLanguage.RangeUnique` | icu/source/common/localeprioritylist.cpp:127-152 | An element is a language range in one way only. |
| `AcceptLanguage.RangeTextIsRead` | icu/source/common/localeprioritylist.cpp:127-152 | Every language range of the grammar is read, with its locale and weight, up to its end. |
| `AcceptLanguage.RangeReadIsText` | icu/source/common/localeprioritylist.cpp:127-152 | What is read is a language range of the grammar. |
| `AcceptLanguage.RangeFillsElement` | icu/source/common/localeprioritylist.cpp:149-152 | A language range reaches to the next comma or the end, is never blank, and its weight is between 0 and 1. |
| `AcceptLanguage.ReadRange` | icu/source/common/localeprioritylist.cpp:127-148 | A tag and perhaps a weight, or none if the tag is missing, names no locale or has a malformed weight. |
| `AcceptLanguage.ReadWeight` | icu/source/common/localeprioritylist.cpp:140-148 | The weight after a semicolon with spaces allowed around its parts, or a negative one exactly if it is malformed. |
| `HeaderText.WrittenWeight` | icu/source/common/localeprioritylist.cpp:75-92 | A weight written with three digits is read as itself. |
| `HeaderText.HeaderRead` | icu/source/common/localeprioritylist.cpp:120-156 | A header written from any tags and weights is read as exactly these. |
| `HeaderText.WriteAndRead` | icu/source/common/localeprioritylist.cpp:113-158 | Writing a header and reading it gives its locales, each once, most preferred first. |

## Left out

- Overflow of summed lengths: string indexes, old and new totals and the number of changes of an edit log are unbounded integers; only the delta is checked, as in the code.
- EditLog.Edits.MergeAndAppend: the three logs are different objects, and the totals of string a and string c fit 32 bits, because the pending lengths of the code are 32-bit integers.
- BmpSet.BMPSet.Span, BmpSet.BMPSet.SpanBack and BmpSet.BMPSet.SpanUTF8: for text that is not empty, as the code demands of its callers.
- CjkBreaks.DivideUpDictionaryRange: phrase mode is left out; that the segmentation is a cheapest one is stated where no sum wraps around and does harm, as `CjkCosts` defines it; normalization never makes text empty.
- CjkMap.MapRange: the range lies within the text, so the clamping of its end is left out.
- WordEngine.DivideUpDictionaryRange: dictionary words end on code point boundaries within the range, as the dictionary's contract says.
- LocaleDistance.GetBestIndexAndDistance: only directions that allow one-way matches; which of two locales is more likely is a parameter, because likely-subtag comparison is not part of this model.
- LocaleDistance.ShiftedDistance: the lookups of languages, scripts and region partitions in the distance trie are functions, not walks through trie bytes.
- TrieIterator.Iterator.constructor: not from a trie that has stopped inside a linear match, whose remaining length the code keeps; in the model a trie that stops has none (`TrieLookup`).
- TrieIterator.Iterator.Next: without a limit on string length; strings are at most 0xffff bytes long, which is what the packed stack can hold.
- PriorityList.LocalePriorityList.Add: a locale is its identifier.
- Memory allocation failure, copying, moving and destruction of objects, and the text forms for debugging.
- Edits getters and coarse-only or changes-only iterator factories: they add only easy members.
- Backward UTF-8 spans (`spanBackUTF8`): the helper that steps back over ill-formed bytes is not part of this model.
- TrieRoundTrip.BuildBytes: only the fast build (`USTRINGTRIE_BUILD_FAST`), not the compact one that shares equal nodes; the elements are values sorted by insertion, where the code sorts an array in place (`ArraySort` models that sort for locales); the bytes fit 32 bits, as the code's offsets do.
- The builder's storage of strings behind length bytes, and matching of whole strings by `BytesTrie::next(const char *, int32_t)`.
- Two-way locale matching, and the result objects around the search.
- AcceptLanguage.FromHeader: how a tag becomes a locale, and whether it names one, is a parameter.
- Locale identifiers, resource bundles, data loading, caches and locks.
