# Text utilities of ClipPilot, modelled in Dafny

ClipPilot's only self-contained logic is three pure string functions in
`src/utils/text_processing.py`. This project models each of them as a pure
Dafny function over `string` (`seq<char>`) and proves what their output looks
like.

- `clean_transcript` applies three regular-expression substitutions in turn:
  - it removes bracketed `[h:m:s]` timestamps;
  - it removes a `name:` speaker label at the start of every line;
  - it turns every whitespace run into one space and strips the result.

  Each `re.sub` is modelled as the left-to-right scan Python performs. The
  patterns are greedy runs over disjoint character classes, so every match is
  found by measuring maximal runs (`CharClasses.Span`).
- `split_into_chunks` cuts the text into sentences with
  `re.split(r"(?<=[.!?])\s+", text)`. It then packs the sentences greedily into
  chunks of about `chunk_size` characters. The packing loop is modelled twice:
  - `Chunking.Pack` is the loop as written, over strings;
  - `Chunking.PackGroups` runs the same loop over groups of sentences.

  A lemma proves that the two agree. Two behaviours of the loop look odd
  but are modelled as written:
  - an over-long first sentence makes the first chunk `""`;
  - empty text gives the single chunk `""` when `chunk_size` is at least 0,
    and the two chunks `""`, `""` when it is negative.
- `extract_keywords` works in four steps:
  - it lower-cases the text and finds its `\w+` words;
  - it counts the words longer than three characters in a dict that keeps
    insertion order;
  - it sorts the dict's items stably by descending count;
  - it returns the first `max_keywords` words.

Each step is also described a second time, without the scan, and lemmas prove
that the two descriptions agree:

- **Timestamp removal** matches exactly the bracketed `h:m:s` stamps described
  by `Transcript.IsStamp`: every match is one, and every one is matched. A
  stamp is dropped, and where none starts one character is copied.
- **Label removal** matches exactly the `name:` labels described by
  `Transcript.IsLabel`, in the same two directions. A label at a line start
  is dropped, and where none starts one character is copied. A newline puts
  the scan back at a line start, wherever in the line it is met.
- **Whitespace normalisation** is compared with Python's `" ".join(s.split())`.
- **The sentence split** is characterised by the shape of what it returns, in
  both directions. The pieces and separators give the text back. Any pieces and
  separators of that shape are exactly what the split returns.
- **The packing** is characterised by a greedy-grouping predicate, which the
  loop satisfies and which has only one solution.
- **The keyword list** is related to occurrence counts in the text and to first
  occurrences.

The modules follow the source:

- `CharClasses` covers `\s`, `\w`, `\d`, `str.lower()` and maximal runs.
  `\s` is the full list of characters for which `str.isspace()` holds. Both
  `\s` and `str.strip()` use that list.
- `Whitespace` covers `str.strip()`, `re.sub(r"\s+", " ", …)` and
  `str.split()` / `" ".join`.
- `Transcript` is `clean_transcript`.
- `Chunking` is `split_into_chunks`.
- `Keywords` is `extract_keywords`.

## Model

| member | source | states |
|---|---|---|
| CharClasses.Lower | src/utils/text_processing.py:73 | lower-casing one character maps `A`..`Z` to `a`..`z` letter for letter and leaves every other character unchanged; the result is never upper-case, and word and whitespace characters stay what they were |
| CharClasses.LowerString | src/utils/text_processing.py:73 | `text.lower()` keeps the length, lower-cases every character, and its result is left unchanged by lower-casing again |
| CharClasses.Span | src/utils/text_processing.py:23-27 | the run a greedy `X*` consumes at a position lies inside the text and is followed by a non-`X` character or the end |
| CharClasses.SpanAll | src/utils/text_processing.py:23-27 | every character of that run is an `X` |
| CharClasses.SpanConcat | src/utils/text_processing.py:23-27 | a run ends exactly where the `X` characters end, whatever text follows a non-`X` character |
| Whitespace.Strip | src/utils/text_processing.py:27 | `str.strip()` returns the slice after the leading whitespace, with no whitespace at either end, and followed only by whitespace |
| Whitespace.StripExact | src/utils/text_processing.py:27 | stripping whitespace wrapped around a stripped string gives that string back |
| Whitespace.CollapseSpaces | src/utils/text_processing.py:27 | `re.sub(r"\s+", " ", s)` never lengthens the text, is empty only for empty text, and starts with whitespace exactly when the text does |
| Whitespace.CollapseSingleSpaced | src/utils/text_processing.py:27 | after `re.sub(r"\s+", " ", s)` every whitespace character is a plain space with no whitespace after it |
| Whitespace.NormalizeSpaces | src/utils/text_processing.py:27 | collapsing and then stripping gives the whitespace normal form (stripped, single plain spaces inside) and never lengthens the text |
| Whitespace.TokensCollapse | src/utils/text_processing.py:27 | collapsing whitespace runs does not change the whitespace-separated words |
| Whitespace.NormalFormIsJoin | src/utils/text_processing.py:27 | a text in whitespace normal form is the single-space join of its own words |
| Whitespace.TokensOfJoin | src/utils/text_processing.py:27 | joining space-free words with single spaces and splitting again gives the words back |
| Whitespace.NormalizeSpacesIsJoinOfSplit | src/utils/text_processing.py:27 | `re.sub(r"\s+", " ", s).strip()` equals `" ".join(s.split())` for every string |
| Whitespace.NormalizeSpacesFixedPoint | src/utils/text_processing.py:27 | the normalisation leaves a text unchanged exactly when it is already in normal form, and applying it twice changes nothing more |
| Transcript.TimestampLength | src/utils/text_processing.py:23 | the timestamp match at the front of the text stays inside the text and starts with `[` |
| Transcript.DigitsThenSound | src/utils/text_processing.py:23 | a match of `\d+` followed by a given delimiter is at least one digit and then that delimiter |
| Transcript.TimestampLengthSound | src/utils/text_processing.py:23 | every match of `\[\d+:\d+:\d+\]` is a bracket, three digit groups separated by colons, and a closing bracket |
| Transcript.TimestampMatched | src/utils/text_processing.py:23 | conversely, any such timestamp at the front of the text is matched in full |
| Transcript.RemoveTimestamps | src/utils/text_processing.py:23 | removing timestamps never lengthens the text |
| Transcript.RemoveTimestampsNoBracket | src/utils/text_processing.py:23 | a text without `[` is left unchanged |
| Transcript.RemoveTimestampsDropsStamp | src/utils/text_processing.py:23 | a timestamp at the front is removed and the scan carries on right after it |
| Transcript.RemoveTimestampsKeepsNonStamp | src/utils/text_processing.py:23 | where no prefix of the text is a whole `[h:m:s]` timestamp, nothing is removed: the first character is copied and the scan moves on by one; this is the case of the `[` of `[12:34]` or `[music]` |
| Transcript.RemoveTimestampsCopiesPlain | src/utils/text_processing.py:23 | text without `[` is copied unchanged and the scan carries on after it |
| Transcript.LabelLength | src/utils/text_processing.py:25 | the speaker-label match at the front of the text stays inside it and ends in `:` |
| Transcript.LabelLengthSound | src/utils/text_processing.py:25 | every match of `\s*\w+\s*:` is whitespace, a word, whitespace and a colon |
| Transcript.LabelMatched | src/utils/text_processing.py:25 | conversely, any such speaker label at the front of the text is matched in full |
| Transcript.RemoveSpeakerLabels | src/utils/text_processing.py:25 | removing labels never lengthens the text |
| Transcript.RemoveSpeakerLabelsNoColon | src/utils/text_processing.py:25 | a text without `:` is left unchanged, at a line start or not |
| Transcript.RemoveSpeakerLabelsDropsLabel | src/utils/text_processing.py:25 | a label at the start of a line is removed |
| Transcript.RemoveSpeakerLabelsKeepsNonLabel | src/utils/text_processing.py:25 | at a line start where no prefix of the text is a whole `name:` label, nothing is removed: the first character is copied and the scan moves on by one; this is the case of a line `John Smith: hi`, whose rest is then kept whole |
| Transcript.RemoveSpeakerLabelsKeepsRestOfLine | src/utils/text_processing.py:25 | away from a line start (`^` in MULTILINE mode) nothing is removed: text without a newline that does not start a line is copied whole, even if it looks like a label |
| Transcript.RemoveSpeakerLabelsNewLine | src/utils/text_processing.py:25 | a newline met in the middle of a line ends it: the rest of the line and the newline are copied, and the next line is scanned from a line start, where `^` matches again under `re.MULTILINE` |
| Transcript.CleanTranscript | src/utils/text_processing.py:13-29 | the cleaned transcript has no whitespace at either end, only single plain spaces inside, no newline, and is no longer than the input |
| Transcript.CleanTranscriptJoinsWords | src/utils/text_processing.py:23-27 | the cleaned transcript is the single-space join of the words left after removing timestamps and labels |
| Transcript.CleanTranscriptKeepsPlainWord | src/utils/text_processing.py:23-27 | a transcript with no `[`, no `:` and no whitespace is returned unchanged |
| Transcript.CleanTranscriptDropsStampAndSpeaker | src/utils/text_processing.py:23-27 | for `[h:m:s] name: w1` + newline + `w2`, the timestamp and the label go and the line break becomes one space, giving `w1 w2` |
| Chunking.SplitSentences | src/utils/text_processing.py:43 | the split has one more piece than it removed separators |
| Chunking.Sentences | src/utils/text_processing.py:43 | the split returns at least one sentence, even for empty text |
| Chunking.SplitSentencesSound | src/utils/text_processing.py:43 | each separator is a whole whitespace run after `.`, `!` or `?`, and no piece holds such a place; pieces and separators in turn give back the text |
| Chunking.SplitOfInterleave | src/utils/text_processing.py:43 | conversely, any pieces and separators of that form are exactly what the split returns for the text they make up, so the split is unique |
| Chunking.Pack | src/utils/text_processing.py:45-56 | the loop keeps the chunks it has and adds at least one chunk once a sentence was read or a chunk is open |
| Chunking.PackAddsStripped | src/utils/text_processing.py:51-56 | every chunk the loop adds is stripped |
| Chunking.SplitIntoChunks | src/utils/text_processing.py:32-58 | there is always at least one chunk, even for empty text, and every chunk is stripped |
| Chunking.PackIsPackGroups | src/utils/text_processing.py:45-56 | the loop over strings builds, chunk for chunk, the stripped space-joins of the groups the group loop builds |
| Chunking.PackGroupsFlatten | src/utils/text_processing.py:48-56 | every sentence goes into exactly one group, and the groups keep the sentences' order |
| Chunking.PackGroupsGreedy | src/utils/text_processing.py:49-53 | every sentence added to a group fitted within `chunk_size`, and every group after the first starts with a sentence that did not fit in the group before |
| Chunking.PackGroupsLast | src/utils/text_processing.py:48-56 | once a sentence has been read or a group is open, the loop ends with a non-empty last group |
| Chunking.PackIsGreedy | src/utils/text_processing.py:45-56 | for any non-empty list of sentences, the chunks are the stripped joins of a greedy grouping of the sentences that keeps each sentence once and in order, and ends in a non-empty group |
| Chunking.GreedyGroupsUnique | src/utils/text_processing.py:48-56 | any greedy grouping of a list of sentences that ends in a non-empty group is the one the loop builds |
| Chunking.GreedyUnique | src/utils/text_processing.py:48-56 | two greedy groupings of the same sentences that both end in a non-empty group are equal, so the greedy grouping characterises the loop's result |
| Chunking.ChunkWithinSize | src/utils/text_processing.py:49-53 | for any list of sentences, a chunk of two or more sentences, or a first chunk of one sentence, is at most `chunk_size` long |
| Chunking.EmptyTextChunks | src/utils/text_processing.py:43-56 | empty text gives the single chunk `""` when `chunk_size` is at least 0, and the chunks `""`, `""` when it is negative |
| Chunking.LeadingEmptyChunk | src/utils/text_processing.py:46-53 | the first chunk holds no sentence exactly when the first sentence is longer than `chunk_size`; it is then `""` and at least one more chunk follows; otherwise it starts with the first sentence |
| Keywords.Words | src/utils/text_processing.py:73 | every word found is a non-empty run of word characters |
| Keywords.WordsAreRuns | src/utils/text_processing.py:73 | every word found occurs in the text as a whole run of word characters: a word character neither just before nor just after it (the two `\b`) |
| Keywords.WordsConcat | src/utils/text_processing.py:73 | the words of two texts that meet at a word boundary are the words of the first followed by those of the second |
| Keywords.WordsOfWord | src/utils/text_processing.py:73 | a run of word characters is one word |
| Keywords.WordsOfGap | src/utils/text_processing.py:73 | text without word characters has no words |
| Keywords.Add | src/utils/text_processing.py:78 | `word_counts[word] = word_counts.get(word, 0) + 1` adds one to the word's count and leaves the other counts alone; an existing key keeps its place and a new key goes last |
| Keywords.CountLong | src/utils/text_processing.py:75-78 | the dict built by the loop is well formed: its keys are distinct and are exactly the words that have a count |
| Keywords.CountLongKeys | src/utils/text_processing.py:75-78 | the dict holds exactly the words of the text longer than three characters |
| Keywords.CountLongCounts | src/utils/text_processing.py:75-78 | each counted word's count is its number of occurrences in the text |
| Keywords.CountLongOrder | src/utils/text_processing.py:75-78 | the dict's insertion order is the order of first occurrence in the text |
| Keywords.Items | src/utils/text_processing.py:80 | `word_counts.items()` pairs each key, in insertion order, with its count |
| Keywords.Insert | src/utils/text_processing.py:80 | inserting an item adds exactly that item and removes none |
| Keywords.InsertSorted | src/utils/text_processing.py:80 | inserting into a list sorted by descending count keeps it sorted |
| Keywords.SortByCount | src/utils/text_processing.py:80 | the sort is a permutation of the items into non-increasing order of count |
| Keywords.SortByCountStable | src/utils/text_processing.py:80 | the sort is stable: the items of each count keep their original relative order |
| Keywords.Ranked | src/utils/text_processing.py:80 | `sorted_words` is in non-increasing order of count and holds exactly the dict's items |
| Keywords.Take | src/utils/text_processing.py:82 | `s[:k]` is the prefix of length `k` clipped to the list, and for negative `k` it drops `-k` items from the end |
| Keywords.ExtractKeywords | src/utils/text_processing.py:61-82 | at most `max_keywords` keywords are returned when `max_keywords` is not negative |
| Keywords.RankedMembers | src/utils/text_processing.py:73-80 | every sorted item is a word of the lower-cased text longer than three characters, paired with its number of occurrences |
| Keywords.RankedComplete | src/utils/text_processing.py:73-80 | every word of the text longer than three characters is among the sorted items |
| Keywords.RankedDistinct | src/utils/text_processing.py:75-80 | no word is among the sorted items twice |
| Keywords.RankedTies | src/utils/text_processing.py:75-80 | sorted items of equal count are in order of first occurrence in the text |
| Keywords.ExtractKeywordsUnlimited | src/utils/text_processing.py:82 | a `max_keywords` at least the number of qualifying words returns every sorted word, as `max_keywords=None` does |
| Keywords.ExtractKeywordsWords | src/utils/text_processing.py:73-82 | the keywords are distinct lower-case words of the text, each longer than three characters |
| Keywords.ExtractKeywordsCount | src/utils/text_processing.py:80-82 | for a non-negative `max_keywords`, exactly that many keywords are returned, unless fewer words qualify and then all of them are |
| Keywords.ExtractKeywordsOrder | src/utils/text_processing.py:75-82 | keywords come in non-increasing order of occurrence count, and keywords with equal counts come in order of first occurrence |
| Keywords.ExtractKeywordsTopK | src/utils/text_processing.py:80-82 | no qualifying word left out of the result occurs more often than any keyword |

## Left out

- `src/agents/clip_pilot_agent.py` and `src/agents/coordinator.py` are left out. They only build prompt strings for an external agent library. Their search and transcript methods return `[]` or `""` and discard the agent's answer.
- `src/models/llm.py`, `src/config.py` and `src/main.py` are left out. They hold a placeholder model client, environment-variable reads, a directory creation, and the asyncio entry point with its logging set-up. All of this is I/O.
- The logging calls are left out.
- CharClasses.IsWord: `\w` is the ASCII letters, digits and `_`. Python's `\w` on `str` patterns also matches every other Unicode letter and digit. The Unicode tables are not modelled.
- CharClasses.IsDigit: `\d` is the ASCII digits only. Python's `\d` also matches other Unicode decimal digits.
- CharClasses.Lower: `str.lower()` is modelled for the ASCII letters only. Python also lower-cases other scripts. For a few characters Python's `lower()` even changes the length.
- A Python `str` can hold lone surrogates (U+D800 to U+DFFF), and `len` counts them. Dafny's `char` cannot hold them, so texts containing them are not modelled.
- Integer widths do not matter: Python's integers are unbounded, and so are Dafny's.
- `max_keywords=None` is not a separate case: `sorted_words[:None]` keeps the whole list, which is what any `maxKeywords` at least the number of qualifying words gives (`Keywords.ExtractKeywordsUnlimited`).
- `chunk_size` is an integer. A finite float `chunk_size` behaves like its floor, because it is only compared with the integer `len(current_chunk) + len(sentence)`; floats are not modelled otherwise.
- A non-string `text` is left out.

