# news.py word-frequency core in Dafny

`news.py` reads a news feed (JSON or XML, chosen by the file extension) and
prints the ten most frequent words of at least seven characters found in the
item descriptions. This project models the part of the program that turns item
texts into that ranking, plus the extension dispatch in `main`. It proves what
each step promises:

- `remove_punctuation` turns each of `.,!?` into a space.
- `str.split()` breaks the text at runs of Python whitespace.
- Words shorter than `MIN_WORD_LENGTH` are dropped, and the rest are put
  through `str.title()`.
- `Counter` counts every word and keeps the words in first-occurrence order.
- `most_common(n)` is a stable sort by descending count, cut to `n` entries.

Modules, one per step of the program:

| file | module | models |
|---|---|---|
| `ascii.dfy` | `Ascii` | `str.lower()` on ASCII letters |
| `punctuation.dfy` | `Punctuation` | `PUNCTUATION`, `remove_punctuation` |
| `tokenizer.dfy` | `Tokenizer` | `str.split()` with no argument |
| `title_case.dfy` | `TitleCase` | `str.title()` on ASCII letters |
| `long_words.dfy` | `LongWords` | `get_long_words` |
| `counter.dfy` | `Counting` | `Counter(words)` as an insertion-ordered table of counts |
| `ranking.dfy` | `Ranking` | `Counter.most_common(n)` |
| `news.dfy` | `News` | `process`, `main`, `MIN_WORD_LENGTH`, `ITEMS_TO_DISPLAY` |

Every loop that builds up state (the two in news.py and the one inside
`Counter`) becomes a `method` whose `ensures` ties its result to a
specification function:

- `RemovePunctuation` and `Depunctuated`.
- `GetLongWords` and `LongWordsOf`.
- `CountWords` and `Tally`.

The lemmas prove what the program relies on about those functions.

A word's length is measured on the token that `split()` produces, after
punctuation has become spaces (news.py:48-52). So "word." is measured as the
4-character "word", and two words joined by punctuation are measured
separately.

## Model

| member | source | states |
|---|---|---|
| `Ascii.ToLower` | news.py:67 | lower-casing maps each upper-case letter to the lower-case letter at the same place in the alphabet, leaves no upper-case letter, keeps whether a character is a letter, and changes nothing else |
| `Ascii.ToUpper` | news.py:52 | upper-casing maps each lower-case letter to the upper-case letter at the same place in the alphabet, leaves no lower-case letter, keeps whether a character is a letter, changes nothing else, and agrees with the original up to case |
| `Ascii.Lower` | news.py:67 | `str.lower()` has the input's length and lower-cases each character in place |
| `Punctuation.ReplaceChar` | news.py:39 | `s.replace(from, to)` has the input's length; each occurrence of `from` becomes `to`, and every other character is kept |
| `Punctuation.Depunctuated` | news.py:36-40 | the cleaned text has the input's length; every mark of `.,!?` becomes a space, every other character is kept, and no mark remains |
| `Punctuation.RemovePunctuation` | news.py:36-40 | the loop of one `replace` per mark of `PUNCTUATION` (news.py:9) returns exactly the text with every mark turned into a space |
| `Punctuation.DepunctuatedIdempotent` | news.py:36-40 | removing punctuation twice is the same as removing it once |
| `Punctuation.DepunctuatedFixesClean` | news.py:36-40 | a text without punctuation marks is returned unchanged |
| `Punctuation.DepunctuatedConcat` | news.py:36-40 | punctuation removal distributes over concatenation |
| `Tokenizer.SpaceRun` | news.py:48 | the leading whitespace run is all whitespace, and it ends at the first non-whitespace character |
| `Tokenizer.WordRun` | news.py:48 | the leading word run has no whitespace, and it ends at the first whitespace character |
| `Tokenizer.Split` | news.py:48 | `str.split()` with no argument: it skips a whitespace run, takes the word run after it, and repeats; it returns no more words than the text has characters. Its properties are stated by `SplitYieldsTokens`, `SplitKeepsCharacters`, `SplitSkipsSpace`, `SplitLeadingToken` and `SplitJoin` |
| `Tokenizer.SplitYieldsTokens` | news.py:48 | `str.split()` yields only non-empty words without whitespace, and yields none exactly when the text is all whitespace |
| `Tokenizer.NonSpaceConcat` | news.py:48 | dropping whitespace distributes over concatenation |
| `Tokenizer.NonSpaceOfSpaces` | news.py:48 | dropping whitespace from an all-whitespace text leaves nothing |
| `Tokenizer.NonSpaceOfToken` | news.py:48 | dropping whitespace from a word leaves the word |
| `Tokenizer.SplitKeepsCharacters` | news.py:48 | the words of `split()`, concatenated, are the input's non-whitespace characters in order: nothing is lost, reordered or invented |
| `Tokenizer.SplitSkipsSpace` | news.py:48 | leading whitespace does not change the split |
| `Tokenizer.SpaceRunAfterSpaces` | news.py:48 | a whitespace prefix extends the leading whitespace run by its length |
| `Tokenizer.SplitLeadingToken` | news.py:48 | a word followed by whitespace or the end of the text is the first word of the split |
| `Tokenizer.SplitJoin` | news.py:48 | splitting `' '.join(words)` gives back `words` when each is a non-empty word without whitespace |
| `Tokenizer.SplitCharsFromInput` | news.py:48 | every character of every word comes from the input |
| `TitleCase.TitleChar` | news.py:52 | one step of `str.title()`: a letter becomes upper-case when the character before it is not a letter and lower-case when it is; any other character is kept; the letter is otherwise unchanged (same lower-case form) |
| `TitleCase.TitleFrom` | news.py:52 | title-casing after a given previous character has the input's length; each letter is upper-cased exactly when the character before it is not a letter |
| `TitleCase.Title` | news.py:52 | `str.title()` has the input's length; a letter is upper-cased when it starts a run of letters and lower-cased otherwise |
| `TitleCase.LowerOfTitle` | news.py:51-52 | title-casing changes only letter case: lower-casing the result gives the lower-cased input |
| `TitleCase.TitleIdempotent` | news.py:51-52 | title-casing a title-cased word changes nothing |
| `TitleCase.TitleCharIgnoresCase` | news.py:51-52 | characters that agree up to case title-case to the same character |
| `TitleCase.TitleOfSameLower` | news.py:51-52 | words that agree up to case title-case to the same word |
| `TitleCase.TitleIgnoresCase` | news.py:51-52 | two words title-case to the same word if and only if they agree up to letter case, so 'program', 'Program' and 'PROGRAM' are counted together |
| `TitleCase.TitleOfLetters` | news.py:52 | a word of letters has an upper-case first letter, and the rest are lower-case |
| `LongWords.ItemTokens` | news.py:48 | the tokens of one item are non-empty, have no whitespace and no punctuation mark, and there are none exactly when the cleaned item is all whitespace |
| `LongWords.KeepLong` | news.py:52 | the list comprehension keeps no more tokens than it is given, and every word it returns has at least the minimum length |
| `LongWords.LongWordsOf` | news.py:43-54 | every word `get_long_words` returns has at least the minimum length |
| `LongWords.GetLongWords` | news.py:43-54 | the loop that extends `long_words` item by item returns exactly the concatenation of each item's title-cased long tokens |
| `LongWords.KeepLongMembership` | news.py:52 | a word is kept if and only if it is the title case of a token of at least the minimum length |
| `LongWords.KeepLongConcat` | news.py:52 | the comprehension distributes over concatenation of token lists |
| `LongWords.LongWordsFilterAllTokens` | news.py:43-54 | the result is the comprehension applied to all tokens of all items, in item order |
| `LongWords.LongWordMembership` | news.py:43-54 | a word is returned if and only if some long token in some item title-cases to it |
| `LongWords.SingleWordItem` | news.py:48-52 | an item that is a single word without punctuation yields its title case when long enough, and nothing otherwise |
| `LongWords.PunctuationSeparatesWords` | news.py:48 | words glued together only by punctuation marks are split apart as if the marks were spaces |
| `LongWords.DepunctuatedJoin` | news.py:36-40 | words separated by single marks become the same words joined by single spaces |
| `LongWords.KeepLongCountsCaseVariants` | news.py:51-52 | the number of times a title-cased word occurs in the output is the number of long tokens equal to it up to letter case |
| `Counting.Tally` | news.py:62 | `Counter(words)` is a table whose keys are exactly the words that occur and whose count for each is its number of occurrences; its key order has no repeats and covers every key |
| `Counting.Add` | news.py:62 | one `counter[w] = counter.get(w, 0) + 1` step keeps the table well formed, keeps existing keys in place, adds `w` at the end if it is new, raises its count by one from 0 or its old count, and leaves every other count alone |
| `Counting.TallyOrderSize` | news.py:62 | a Counter has no more keys than words were counted |
| `Counting.CountWords` | news.py:62 | the counting loop (`counter[w] = counter.get(w, 0) + 1` per word) builds exactly that table |
| `Counting.FirstIndex` | news.py:62 | the first position of a word in a list holds it, and no earlier position does |
| `Counting.FirstOccurrenceStep` | news.py:62 | counting one more word keeps the keys in first-occurrence order |
| `Counting.TallyFirstOccurrenceOrder` | news.py:62 | the counter's keys are in the order in which the words first occur |
| `Counting.FirstIndexExtend` | news.py:62 | appending words does not move an existing word's first occurrence |
| `Counting.SumIgnores` | news.py:62 | changing the count of a word outside the key order does not change the total |
| `Counting.SumIncrement` | news.py:62 | incrementing one key's count raises the total by one |
| `Counting.TallyTotal` | news.py:62 | the counts add up to the number of words counted |
| `Ranking.Insert` | news.py:63 | inserting into a list sorted by descending count keeps it sorted, and adds exactly the new pair |
| `Ranking.Items` | news.py:63 | `counter.items()` lists one pair per key, in the Counter's key order; `ItemsFacts` adds that each pair carries its key's count, every key appears, and no word repeats |
| `Ranking.SortByCount` | news.py:63 | the sort orders by descending count and is a permutation of its input |
| `Ranking.WithCountConcat` | news.py:63 | selecting the pairs of a given count distributes over concatenation |
| `Ranking.InsertWithCount` | news.py:63 | the new pair goes before every pair that already has its count |
| `Ranking.SortStable` | news.py:63 | the sort is stable: pairs with equal counts keep their relative order |
| `Ranking.InsertDistinct` | news.py:63 | inserting a new word keeps the words distinct |
| `Ranking.SortDistinct` | news.py:63 | sorting keeps the words distinct |
| `Ranking.ItemsFacts` | news.py:62-63 | the counter's items are its (word, count) pairs, each key exactly once |
| `Ranking.MostCommon` | news.py:63 | `most_common(n)` returns `n` pairs, or every pair when there are fewer, and none when `n <= 0`; `MostCommonSortedCounts`, `MostCommonTies`, `MostCommonIsTop` and `MostCommonTiesInInsertionOrder` state which pairs and in what order |
| `Ranking.MostCommonSortedCounts` | news.py:63 | `most_common(n)` is sorted by descending count, has distinct words, and reports each word's count from the counter |
| `Ranking.SameMembers` | news.py:63 | lists that are permutations of each other have the same members |
| `Ranking.MostCommonTies` | news.py:63 | the pairs with a given count are a prefix of the counter's pairs with that count, in counter order |
| `Ranking.MostCommonIsTop` | news.py:63 | a word that is left out means the result is full and the word's count is no greater than the last reported count |
| `Ranking.WithCountMembers` | news.py:63 | the pairs with a given count are exactly the members that have that count |
| `Ranking.MostCommonTiesInInsertionOrder` | news.py:63 | pairs with equal counts appear in the counter's key order |
| `News.Process` | news.py:57-63 | `process`, from the item texts on, returns the ranking of the long words computed with `MIN_WORD_LENGTH` (news.py:7) and `ITEMS_TO_DISPLAY` (news.py:8) |
| `News.Analyze` | news.py:57-63 | what `process` prints: `most_common(n)` of the Counter of the long words; at most `n` pairs and no more than there are long words. `AnalyzeEntries`, `AnalyzeCountsCaseVariants` and `AnalyzeOrder` state its contents and order |
| `News.AnalyzeEmptyFeed` | news.py:57-63 | a feed without items prints nothing |
| `News.AnalyzeEntries` | news.py:57-63 | each printed word has at least the minimum length, and its count is its number of occurrences among the long words, so it is positive |
| `News.CaseInsensitiveCountSameLower` | news.py:51-52 | counting the case variants of two words that agree up to case gives the same number |
| `News.AnalyzeCountsCaseVariants` | news.py:43-63 | each printed count is the number of long tokens, over all items, equal to the word up to letter case |
| `News.AnalyzeOrder` | news.py:57-63 | counts never increase down the list, no word is printed twice, and equal counts appear in the order in which the words first occur |
| `News.LastSegment` | news.py:67 | `split('.')[-1]` is a suffix without '.', and it is either the whole name or preceded by a '.' |
| `News.Extension` | news.py:67 | `file_name.split('.')[-1].lower()`: no longer than the name, with no '.' and no upper-case letter; `ExtensionAfterLastDot` states that it is the text after the last '.', lower-cased |
| `News.RouteFor` | news.py:67-78 | the dispatch in `main`: extension json selects the JSON loader, xml selects the XML loader, and any other extension is unsupported (also for a name without a '.', whose extension is the whole name); `RouteIgnoresCase` and the `Route*` examples state how names are routed |
| `News.RunNews` | news.py:66-79 | `main` rejects a name exactly when its extension is neither json nor xml; otherwise it picks the matching format and ranks the feed's item texts |
| `News.LastSegmentAfterDot` | news.py:67 | the last segment of `stem.ext` is `ext` when `ext` has no '.', whatever `stem` holds |
| `News.ExtensionAfterLastDot` | news.py:67 | the extension of `stem.ext` is `ext` lower-cased |
| `News.LastSegmentWithoutDot` | news.py:67 | `split('.')[-1]` of a name without '.' is the whole name |
| `News.ExtensionWithoutDot` | news.py:67 | the extension of a name without '.' is the whole name lower-cased, so `main("JSON")` reads a JSON feed |
| `News.RouteIgnoresCase` | news.py:67-78 | extensions that agree up to case take the same route |
| `News.RouteTxt` | news.py:76-78 | `feed.txt` is rejected |
| `News.RouteUpperJson` | news.py:67-72 | `News.JSON` is read as JSON |
| `News.RouteUpperXml` | news.py:67-75 | `feed.XML` is read as XML |
| `News.RouteLastDotOnly` | news.py:67-78 | only the text after the last '.' counts: `feed.json.txt` is rejected |

## Left out

- `read_json`, `parse_json`, `read_xml`, `parse_xml` (news.py:12-33): file reading and JSON/XML parsing are I/O. `RunNews` takes the description texts the chosen loader would return as a parameter.
- The printing in `process` and `main`, the argument check and `sys.exit` (news.py:82-86) are I/O. `Process` returns the pairs `most_common` yields instead of printing them, and `RunNews` returns `Rejected` instead of printing the unsupported-format message.
- An XML `description` element with no text gives `None` in `parse_xml`, and `remove_punctuation` would then fail. Item texts are strings here.
- `Ascii.Lower`, `TitleCase.Title`: only ASCII letters have case here. Python's `str.lower()` and `str.title()` also map non-ASCII letters (the program's own comment is about Cyrillic words), including the few whose case mapping changes length. Other characters are treated as uncased.
- `Tokenizer.Split`: Python's whitespace set is written out by code point. No Unicode database is modelled beyond that set.
- `Ranking.MostCommon`: `heapq.nlargest`'s heap is not modelled. What is modelled is its documented result, which equals `sorted(items, key=count, reverse=True)[:n]` and so is a stable sort cut to `n`.
- `LongWords.LongWordsOf`: the concatenation law `LongWordsOf(a + b) == LongWordsOf(a) + LongWordsOf(b)` is not a separate lemma. `LongWordsFilterAllTokens` and `KeepLongConcat` give the same fact, through all tokens.
- `Counting.CountWords`: `Counter` is a dictionary updated in place. Here the table is a value that the counting loop rebuilds, so aliasing of the dictionary is not captured.