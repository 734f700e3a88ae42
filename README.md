# Match locations for full-text search, in Dafny

This project models the core of a PostgreSQL full-text-search extension. After the
highlighter annotates a document word by word, the extension turns those headline word
entries into (offset, length) pairs that give, in bytes of the document text, where each
lexeme matching a query occurs. The source has two revisions, and both are modelled:

- `tsearch_extras.c` leaves out every word marked `skip` or `repeated`. A left-out word
  neither advances the running offset nor is reported.
- `zulip_tsearch.c` leaves out only `skip` words. A selected word marked `repeated` is
  reported and advances the offset.

The two rules appear as the `Policy` values `SkipOrRepeated` and `SkipOnly`. One cursor
class (`Cursor.MatchCursor`) serves both revisions. So does one batch collector
(`Collector.MatchLocsArray`): the `next_match` and `ts_match_locs_array_byid` code is
the same in the two files apart from the exclusion test, so `NextMatch` also models
zulip_tsearch.c:64-87 under `SkipOnly`, and `MatchLocsArray` also models
zulip_tsearch.c:154-194.

Modules:

- `HeadlineWords` (headline.dfy) holds the word entries, the two policies and the
  specification functions. `Consumed` is the offset after the first k words.
  `Matches` is what a walk over those k words reports. `ReportedIndices` and
  `NextReported` give the reported positions. The lemmas about them are here too.
- `Cursor` (cursor.dfy) is the `TsMatchesData` cursor: its set-up and
  `ts_match_locs_next_match`.
- `Collector` (collect.dfy) is the growing buffer of `ts_match_locs_array_byid`. It
  starts at 6 matches, grows to `cap * 3 / 2`, and each growth is a reallocation that
  copies the old buffer. The loop invariant of `MatchLocsArray` keeps the capacity equal to
  `CapacityAfter` of the number of growths so far, so the capacity lemmas describe it.
- `Streaming` (stream.dfy) is the row-at-a-time `ts_match_locs_byid` of
  zulip_tsearch.c. It shows that draining the stream gives the same sequence as the
  batch collector.
- `Lexemes` (lexemes.dfy) is `tsvector_lexemes`, which cuts each lexeme out of the
  tsvector's string area.

The two `ts_match_locs_next_match` loops differ only on repeated words. In
tsearch_extras.c:110 a repeated word is excluded: it does not advance the offset and is
not reported. In zulip_tsearch.c:73 it is treated like any other word, so it advances
the offset and is reported when selected. The two files differ elsewhere too: their
`ts_match_locs_setup` functions pass different headline options (see "## Left out"),
`ts_match_locs_byid` exists only in zulip_tsearch.c and `tsvector_lexemes` only in
tsearch_extras.c.

On the five-word example `HeadlineWords.Fixture` (headline.dfy:240), tsearch_extras.c
gives `[(5,3), (8,6)]` with final offset 14, and zulip_tsearch.c gives
`[(5,3), (8,4), (12,6)]` with final offset 18 (`FixtureSkipOrRepeated`,
`FixtureSkipOnly`).

Offsets and lengths count bytes of the document text, as the source's C `char` values
do; each `char` of a modelled string stands for one such byte.

## Model

| member | source | states |
|---|---|---|
| HeadlineWords.NextReported | tsearch_extras.c:104-121 | the index where the scan stops: the first reported word at or after the cursor, or the word count; no word between the cursor and it is reported |
| HeadlineWords.NextReportedIs | tsearch_extras.c:104-121 | a reported word with no reported word between the cursor and it, or the word count when none remains, is exactly where the scan stops |
| HeadlineWords.ConsumedMonotone | tsearch_extras.c:112 | the running byte offset never decreases as the scan goes on |
| HeadlineWords.ConsumedBound | tsearch_extras.c:104-121 | the offset after k words is at most the sum of their lengths, and equals it when none of them is excluded |
| HeadlineWords.ReportedIndicesSpec | tsearch_extras.c:110-114 | the reported positions are strictly increasing; each one is a selected, non-excluded word, and every such word is among them |
| HeadlineWords.MatchesAt | tsearch_extras.c:104-121 | match n is the word at the n-th reported position, at the offset consumed by all words before it and with that word's own length; there are as many matches as reported words |
| HeadlineWords.MatchesOrdered | tsearch_extras.c:104-121 | each match ends no later than the next match starts, and no later than the offset reached so far |
| HeadlineWords.OffsetsNonDecreasing | tsearch_extras.c:107-117 | reported offsets are non-decreasing in emission order |
| HeadlineWords.NoExclusionPrefixSums | zulip_tsearch.c:67-84 | with no excluded word (under the zulip_tsearch.c rule, no skip word), every selected word is reported, at the sum of the lengths of all words before it |
| HeadlineWords.PoliciesAgreeWithoutRepeated | zulip_tsearch.c:73 | where no word is marked repeated, the two revisions report the same matches and reach the same offset |
| HeadlineWords.SkipOrRepeatedReportsFewer | tsearch_extras.c:110 | the tsearch_extras.c rule never reports more matches, and never reaches a larger offset, than the zulip_tsearch.c rule |
| HeadlineWords.RepeatedEntryDiffers | zulip_tsearch.c:73-81 | a selected, repeated, non-skip word is reported and advances the offset by its length under the zulip_tsearch.c rule; under the tsearch_extras.c rule it is not reported and does not advance the offset |
| HeadlineWords.SkipEntryIgnored | zulip_tsearch.c:70-75 | a skip word is never reported, adds nothing to the offset and adds no match, under either rule |
| HeadlineWords.FixtureSkipOrRepeated | tsearch_extras.c:104-121 | the five-word example gives `[(5,3), (8,6)]` and final offset 14 under the tsearch_extras.c rule |
| HeadlineWords.FixtureSkipOnly | zulip_tsearch.c:67-84 | the five-word example gives `[(5,3), (8,4), (12,6)]` and final offset 18 under the zulip_tsearch.c rule |
| Cursor.MatchCursor.Setup | tsearch_extras.c:95-98 | the cursor starts at word 0 and offset 0, with the word count equal to the number of words produced, and nothing emitted yet |
| Cursor.MatchCursor.NextMatch | tsearch_extras.c:101-124 | returns true exactly when a reported word remains. It stops just past the first such word and returns the pre-advance offset and the word's length; the offset is then that match's end. Otherwise it stops at the word count. It emits exactly that one match or nothing, and once exhausted it returns false without changing state |
| Collector.Grow | tsearch_extras.c:147-148 | the truncated product `cap * 1.5`; from capacity 2 up it is strictly larger than `cap` |
| Collector.CapacityIncreases | tsearch_extras.c:136-149 | starting from 6, every growth strictly increases the capacity, and after n growths it is at least 6 + n |
| Collector.CapacitySequence | tsearch_extras.c:136-148 | the capacities run 6, 9, 13, 19, 28 |
| Collector.Reallocate | tsearch_extras.c:149 | the grown buffer is new, has the requested size and keeps every earlier slot unchanged |
| Collector.Append | tsearch_extras.c:147-152 | the buffer grows, by the truncated factor 1.5, exactly when it is full; afterwards there is room for the new match, earlier slots are unchanged, and the match's offset and length sit in slots 2n and 2n+1 |
| Collector.MatchLocsArray | tsearch_extras.c:126-166 | the row count is the number of matches; the result has exactly two slots per row, with match i's offset in slot 2i and its length in slot 2i+1, in emission order |
| Streaming.MatchStream.FirstCall | zulip_tsearch.c:98-119 | the first call stores a fresh cursor over the words, at word 0, with nothing delivered |
| Streaming.MatchStream.PerCall | zulip_tsearch.c:121-137 | each call resumes the stored cursor and delivers at most one more match; a delivered row moves the cursor forward; done means every word has been examined; after done, further calls stay done and change nothing |
| Streaming.MatchLocs | zulip_tsearch.c:89-138 | calling the row function until done yields exactly the matches of the zulip_tsearch.c rule, in order |
| Streaming.StreamMatchesBatch | zulip_tsearch.c:154-194 | the streamed rows and the batch array hold the same matches in the same order, and the batch has twice as many slots as the stream has rows |
| Lexemes.TsvectorLexemes | tsearch_extras.c:182-206 | one string per entry in entry order; string i is the `len` bytes of the string area starting at entry i's `pos` |

## Left out

- Producing the annotated words is not modelled: `hlparsetext`, the parser's headline
  call, the configuration and parser cache lookups and the headline options
  (tsearch_extras.c:71-93, zulip_tsearch.c:44-56). These are calls into PostgreSQL, so
  the words are an input sequence. The options differ between the files:
  tsearch_extras.c:80-93 passes `HighlightAll` = 1 and zulip_tsearch.c:53-56 passes
  `NIL`, which can change which words come back `selected`.
- `ts_match_locs_array` and `ts_match_locs` are not modelled. They only look up the
  current configuration and delegate to the `_byid` functions, which are modelled.
- The set-returning-function machinery is not modelled: memory contexts, result-type
  lookup and its error, tuple building. Only "resume the stored cursor, return at most
  one row" is kept. The first call of `ts_match_locs_byid` in zulip_tsearch.c:100-102
  reads argument 0 for both the configuration and the document; argument marshalling is
  outside the model.
- Building PostgreSQL array and text values and freeing memory are not modelled. Results
  are `seq<int>`, `seq<Location>` and `seq<string>`.
- Allocation failure of `palloc`/`repalloc` is not modelled.
- Collector.Grow: the source's `*= 1.5` goes through floating point. It is modelled as
  the integer `cap * 3 / 2`, which gives the same value whenever `cap * 1.5` still fits
  in an `int`. Past that the conversion back to `int` overflows; see the next line,
  which covers the 32-bit `num_matches_allocd`.
- Cursor.MatchCursor.NextMatch: offsets, lengths and the capacity are unbounded
  integers. The source's 32-bit `char_offset`, `num_matches` and `num_matches_allocd`
  would overflow past 2^31 - 1, and that is not modelled.
- Lexemes.TsvectorLexemes: the tsvector is modelled as its entries plus its string
  area. The entry's position flag and the per-lexeme position lists are left out,
  because the function does not read them.
