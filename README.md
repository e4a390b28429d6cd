# Persian corpus preprocessing: a verified model

This project models the text-processing core of a preprocessing toolkit for Persian corpora. The model is written in Dafny, and the properties below are proved about it. It covers four parts.

- **Feature extraction for near-duplicate detection** (`preprocess/deduplication.py`). A document is put in canonical form: lower-cased, ASCII punctuation deleted, whitespace collapsed to single spaces and trimmed. Its features are the overlapping six-character windows of that form. The number of worker processes is chosen from the file count.
- **Hashtags** (`preprocess/others/hashtags.py`). This part covers:
  - counting the `#word` hashtags of a tweet corpus;
  - writing them most frequent first as `hashtag: count` lines, and reading that list back;
  - gathering the keywords of the tweets that mention each hashtag, and keeping each hashtag's 200 most common keywords other than itself;
  - dropping from the end of a tweet those trailing hashtags that too few of their keywords support.
- **Out-of-vocabulary filter** (`preprocess/others/oov_creation.py`). This part covers:
  - a corpus-wide word counter;
  - the set of rare words, those seen at most five times;
  - the share of a text's word tokens that are rare;
  - the split of a file's rows by that share against a threshold.
- **Qomnet extraction** (`preprocess/others/qomnet.py`). An article's text is its Persian abstract and body, joined by a space and stripped. Articles with a `uri` and non-empty text become `{uri, text}` records.

## Modules

| Module | File | Contents |
|---|---|---|
| `Wrappers` | `wrappers.dfy` | `Result`, which models a Python computation that can raise. |
| `Text` | `text.dfy` | Python string semantics, described below. |
| `Counting` | `counting.dfy` | Occurrence counts and the `d[k] = d.get(k, 0) + 1` update. Also the insertion order of dictionary keys, and the stable sort of `(key, count)` items by descending count. |
| `Dedup` | `dedup.dfy` | `get_features` and the process count of `preprocess_files`. |
| `Hashtags` | `hashtags.dfy` | `get_hashtags`, `extract_keywords`, `get_keywords` and `remove_irrelevant_hashtags`. |
| `Oov` | `oov.dfy` | The class `WordCounter` for the global `Counter`, `count_words_in_text`, the rare-word set and `process_json_paper_oov`. |
| `Qomnet` | `qomnet.dfy` | A JSON value type with Python's `in`, subscript and `+` on it, `extract_text`, and the driver loop. |

`Text` models the Python string operations the scripts use. Python's whitespace set is spelled out character by character. On top of it are `str.split()`, `" ".join`, `str.strip()` and `sub in s`. It also defines the maximal runs of a character class, which is what `re.findall(r'\b\w+\b', ...)` returns. The captures of `re.findall(r'#(\w+)', ...)`, the runs right after a `#`, are `Hashtags.HashtagNames`.

Unicode case mapping and the regular-expression class `\w` are parameters of the model: `lower: char -> char` and `isWord: char -> bool`. Every property holds for any such map and class. Where a property needs something of `\w`, it is stated as a precondition: for the hashtag round trip, `\w` matches no whitespace, colon or `#`.

The methods that loop in the source are loops here too. Each is proved equal to a recursive specification function, and the lemmas state what those functions mean:
- `CountHashtags` with its inner loop `CountNames`, `CollectKeywords`, `BuildTable`, `PopHashtags`, `CountSupport` and `RemoveIrrelevantHashtags`;
- `WordCounter.CountWords`, `WordCounter.CountTexts`, `CountWordsInText` and `ExtractRecords`.

`AdjustProcessCount` is straight-line code in the source and here; its contract gives the result in closed form.

### What the deduplication code computes

`preprocess/deduplication.py` stops at the MinHash signatures. It computes a sequence of six-character windows, duplicates included, and feeds them to an external MinHash object. It has no banding, no candidate graph and no clustering. Accordingly `Dedup.ShingleWidth` is 6, and `Shingles` is a sequence, not a set.

The code also contains `s.replace(":><؟!.،,?", "")`. It deletes only that nine-character string, and only where it occurs as a whole. The step runs after ASCII punctuation is removed, and that string contains the ASCII colon, so it can no longer occur. The step is therefore a no-op, which `Dedup.MarksLiteralIsNoOp` proves. In particular, the Persian question mark and comma are kept (`Dedup.ArabicMarksSurvive`).

## Model

| member | source | states |
|---|---|---|
| Text.Split | preprocess/others/hashtags.py:39 | Every word `str.split()` returns is non-empty and has no whitespace |
| Text.Runs | preprocess/others/oov_creation.py:38 | Every run `re.findall(r'\b\w+\b', ...)` returns is non-empty and made of characters of the class |
| Text.RunsCover | preprocess/others/oov_creation.py:26 | The maximal runs of a character class, concatenated, are exactly that class's characters of the text, in order |
| Text.SplitJoin | preprocess/others/hashtags.py:96 | Joining whitespace-free words with single spaces and splitting again gives back the same words |
| Text.Join | preprocess/others/hashtags.py:96 | `" ".join(ws)` begins with the first word |
| Text.JoinNormalised | preprocess/others/hashtags.py:96 | Joined words have exactly one plain space between words and no whitespace at either end |
| Text.NormalisedJoinSplit | preprocess/others/hashtags.py:96 | A text in normal form is `" ".join` of its own `split()` |
| Text.Strip | preprocess/others/qomnet.py:11 | `strip()` starts and ends with non-whitespace; it is the text after the leading whitespace with only whitespace after it |
| Text.StripKeepsText | preprocess/deduplication.py:24 | Stripping deletes whitespace only: the non-whitespace characters stay, in order |
| Text.StripSplit | preprocess/deduplication.py:24 | Stripping does not change the words `split()` finds |
| Text.StripTrailingSpace | preprocess/others/qomnet.py:8-11 | Whitespace appended before stripping does not change the stripped text |
| Text.StripUnchanged | preprocess/others/hashtags.py:49 | A text with no whitespace at either end is its own strip |
| Counting.Count | preprocess/others/hashtags.py:28 | The occurrence count is at most the length, and positive exactly when the element is present |
| Counting.AddAllCounts | preprocess/others/hashtags.py:27-28 | Repeated `d[k] = d.get(k, 0) + 1` adds to every key its number of occurrences; keys become the old keys plus the elements |
| Counting.TallyCounts | preprocess/others/hashtags.py:26-28 | The counts from an empty dictionary have exactly the elements as keys, each with its occurrence count, which is at least 1 |
| Counting.AddAllMass | preprocess/others/oov_creation.py:28 | Counting a sequence raises the total of the counter by exactly its length |
| Counting.InsertionOrder | preprocess/others/hashtags.py:28 | Dictionary keys in insertion order are distinct and are exactly the inserted elements |
| Counting.CountOneMore | preprocess/others/hashtags.py:28 | One more `d[k] = d.get(k, 0) + 1` adds `k` at the end of the key order only when it was not yet a key, and raises its count by one |
| Counting.Items | preprocess/others/hashtags.py:32 | `items()` pairs each key, in key order, with its count |
| Counting.SortByCountDesc | preprocess/others/hashtags.py:32 | The sort by `-count` is a permutation of the items, with counts non-increasing |
| Counting.SortStable | preprocess/others/hashtags.py:32 | The sort is stable: items with equal counts keep their original relative order |
| Counting.SortedItemKeys | preprocess/others/hashtags.py:32-35 | Sorting the items keeps exactly the dictionary's keys |
| Counting.SortedItemEntries | preprocess/others/hashtags.py:70-71 | The sorted items are exactly the (key, count) pairs of the dictionary |
| Counting.SortedItemsDistinct | preprocess/others/hashtags.py:70-71 | The sorted items of a dictionary have one entry per key: the keys are distinct and there are as many entries as keys |
| Counting.Take | preprocess/others/hashtags.py:71 | `es[:n]` is the prefix of length `min(n, len(es))` |
| Dedup.DeleteAllAbsent | preprocess/deduplication.py:22 | `replace(pat, "")` leaves unchanged a text lacking some character of `pat` |
| Dedup.DeleteAll | preprocess/deduplication.py:22 | `replace(pat, "")` never lengthens the text and adds no character |
| Dedup.Depunctuated | preprocess/deduplication.py:19-21 | The lower-cased text without ASCII punctuation is no longer than the text and holds no ASCII punctuation |
| Dedup.MarksLiteralIsNoOp | preprocess/deduplication.py:21-22 | After ASCII punctuation is deleted, the line-22 `replace` changes nothing |
| Dedup.PunctuationInRuns | preprocess/deduplication.py:21 | Every character of `string.punctuation` is in one of the four ASCII punctuation ranges |
| Dedup.RunsInPunctuation | preprocess/deduplication.py:21 | Every character of the four ranges is in `string.punctuation`, so the ranges are exactly the deleted characters |
| Dedup.CollapseShape | preprocess/deduplication.py:24 | `re.sub(r"\s+", " ", s)` is empty only for empty input; it begins or ends in whitespace only when the input does; every whitespace character left is a single space before non-whitespace or the end; and `split()` finds the same words in it as in the input, so each maximal whitespace run became exactly one space |
| Dedup.CollapseKeepsText | preprocess/deduplication.py:24 | Collapsing whitespace keeps every non-whitespace character, in order |
| Dedup.CollapseChars | preprocess/deduplication.py:24 | Collapsing whitespace adds no character except the plain space |
| Dedup.CollapseNormalised | preprocess/deduplication.py:24 | `re.sub(r"\s+", " ", s.strip())` of a text without whitespace at its ends has single plain spaces between words and none at either end |
| Dedup.CollapseSpaces | preprocess/deduplication.py:24 | Collapsing whitespace never lengthens the text |
| Dedup.CollapseWords | preprocess/deduplication.py:24 | Collapsing whitespace keeps the words `split()` finds |
| Dedup.CollapseIsJoinSplit | preprocess/deduplication.py:24 | `re.sub(r"\s+", " ", s.strip())` equals `" ".join(s.split())` |
| Dedup.CanonicalHasNoPunctuation | preprocess/deduplication.py:19-24 | The canonical text holds no ASCII punctuation |
| Dedup.Canonical | preprocess/deduplication.py:19-24 | The canonical text is no longer than the input |
| Dedup.CanonicalIsNormalised | preprocess/deduplication.py:23-24 | The canonical text has single plain spaces between words and none at either end, and it is `" ".join(t.split())` of the lower-cased, depunctuated text `t`: every whitespace run of `t` separates two words by one space |
| Dedup.CanonicalKeepsText | preprocess/deduplication.py:19-24 | The canonical text keeps exactly the non-whitespace characters of the lower-cased, depunctuated text, in order |
| Dedup.CanonicalKeepsChar | preprocess/deduplication.py:19-24 | A character that is neither whitespace nor ASCII punctuation is in the canonical text exactly when it is in the lower-cased text |
| Dedup.ArabicMarksSurvive | preprocess/deduplication.py:22 | The Persian question mark and comma are in the canonical text exactly when they are in the lower-cased text |
| Dedup.Shingles | preprocess/deduplication.py:25 | Every window `ngrams(s, 6)` yields has six characters |
| Dedup.ShinglesAre | preprocess/deduplication.py:25 | There are `max(0, len(s) - 5)` windows; window `i` is `s[i:i+6]`; repeated windows are kept |
| Dedup.ShinglesOverlap | preprocess/deduplication.py:25 | Consecutive windows overlap in five characters |
| Dedup.ShinglesReassemble | preprocess/deduplication.py:25 | A text of six or more characters can be rebuilt from its windows |
| Dedup.FeaturesAreWindows | preprocess/deduplication.py:17-25 | The features are the six-character windows of the canonical text: none if it is shorter than six, with no punctuation and only plain spaces |
| Dedup.Features | preprocess/deduplication.py:17-25 | Every feature `get_features` yields has six characters |
| Dedup.CeilDivIsOne | preprocess/deduplication.py:53-55 | `ceil(n / d) == 1` exactly when `0 < n <= d` |
| Dedup.AdjustProcessCount | preprocess/deduplication.py:52-56 | The process count is the file count when there are some files but fewer than processors, and otherwise the processor count; it always lies between 1 and the processor count |
| Hashtags.HashtagNames | preprocess/others/hashtags.py:26 | Every capture of `#(\w+)` is a non-empty run of word characters |
| Hashtags.HashtagNamesOccur | preprocess/others/hashtags.py:26 | Every captured name occurs in the text right after a `#` |
| Hashtags.AllNamesAreWords | preprocess/others/hashtags.py:25-26 | Every name captured from the corpus is a non-empty run of word characters |
| Hashtags.DictionaryOfCounts | preprocess/others/hashtags.py:27-28 | The counted dictionary has exactly the captured names as keys, each with its number of captures, and its key order lists every key once |
| Hashtags.CountOne | preprocess/others/hashtags.py:28 | One update of `hashtag_counts` turns the dictionary counted from the names so far into the one counted with one more name |
| Hashtags.CountNames | preprocess/others/hashtags.py:27-28 | The loop over one text's captures turns the dictionary counted from the earlier names into the one counted from them followed by these captures |
| Hashtags.CountHashtags | preprocess/others/hashtags.py:19-28 | The counting loop gives each hashtag exactly its number of captures; keys are exactly the captured names, distinct, in order of first capture |
| Hashtags.Decimal | preprocess/others/hashtags.py:35 | `str(count)` is a non-empty string of decimal digits |
| Hashtags.DecimalRoundTrip | preprocess/others/hashtags.py:35 | The numeral written for a count reads back as that count |
| Hashtags.ReadLinesCover | preprocess/others/hashtags.py:46 | The lines of `readlines()` concatenate to the file; none is empty; a newline only ends a line |
| Hashtags.ReadLines | preprocess/others/hashtags.py:46 | `readlines()` gives no more lines than the file has characters |
| Hashtags.ReadLinesFirst | preprocess/others/hashtags.py:46 | A line ending in its only newline is read as one line, followed by the rest of the file |
| Hashtags.LineBody | preprocess/others/hashtags.py:35 | A written line is its body plus a newline; the body begins with the key (or a colon) and ends with a digit |
| Hashtags.Line | preprocess/others/hashtags.py:35 | A written line ends in a newline |
| Hashtags.FileText | preprocess/others/hashtags.py:34-35 | The written file is empty exactly when there are no items, and otherwise ends in a newline |
| Hashtags.StripNewline | preprocess/others/hashtags.py:49 | Stripping a body with no whitespace at its ends, followed by a newline, removes just the newline |
| Hashtags.StripLine | preprocess/others/hashtags.py:35-49 | Stripping a written line gives `hashtag: count` without its newline |
| Hashtags.BeforeColonKey | preprocess/others/hashtags.py:49 | `split(':')[0]` of a colon-free key followed by a colon is the key |
| Hashtags.ParseWrittenLine | preprocess/others/hashtags.py:35-49 | Reading a written line back gives `#` and the key |
| Hashtags.ParseLine | preprocess/others/hashtags.py:49 | `'#' + line.strip().split(':')[0]` starts with `#` |
| Hashtags.ParseLines | preprocess/others/hashtags.py:49 | The list comprehension gives one entry per line, each starting with `#` |
| Hashtags.ParseHashtags | preprocess/others/hashtags.py:46-49 | The hashtag list has one entry per line of the file, each starting with `#` |
| Hashtags.LineNewline | preprocess/others/hashtags.py:35 | A written line holds one newline, at its end |
| Hashtags.Hashed | preprocess/others/hashtags.py:49 | Element `i` of the hashed list is `'#'` plus key `i` |
| Hashtags.FileRoundTrip | preprocess/others/hashtags.py:34-49 | Reading back the written hashtag file gives `#` plus each key, in file order |
| Hashtags.HashedMember | preprocess/others/hashtags.py:49 | `#h` is in the hashed list exactly when `h` is among the keys |
| Hashtags.NamesArePlain | preprocess/others/hashtags.py:26 | Captured names contain no whitespace and no colon |
| Hashtags.HashtagFileRoundTrip | preprocess/others/hashtags.py:26-49 | The list `get_keywords` reads is `#` plus each counted hashtag, most frequent first; `#h` is in it exactly when `h` was captured somewhere in the corpus |
| Hashtags.NonStop | preprocess/others/hashtags.py:40 | The filtered list is no longer than the word list |
| Hashtags.NonStopSubsequence | preprocess/others/hashtags.py:40 | The keywords are a subsequence of the words |
| Hashtags.NonStopCount | preprocess/others/hashtags.py:40 | A word is kept as often as it occurs, unless its lower case is a stop word, in which case it is never kept |
| Hashtags.ExtractKeywordsProperties | preprocess/others/hashtags.py:38-41 | `extract_keywords` gives an order-preserving subsequence of `tweet.split()` with the stop words (compared in lower case) removed and every other word at its full multiplicity |
| Hashtags.ExtractKeywords | preprocess/others/hashtags.py:38-41 | `extract_keywords` gives no more keywords than `tweet.split()` has words |
| Hashtags.Repeat | preprocess/others/hashtags.py:64 | `n` copies of a list have length `n` times its length |
| Hashtags.CountSnoc | preprocess/others/hashtags.py:61 | Appending an element adds one to its count only |
| Hashtags.GatherTweet | preprocess/others/hashtags.py:61-64 | One tweet keeps every key of the dictionary and adds only listed hashtags |
| Hashtags.Gathered | preprocess/others/hashtags.py:52-64 | Every key of the keyword dictionary is a listed hashtag |
| Hashtags.GatherTweetLists | preprocess/others/hashtags.py:61-64 | One tweet extends the list of each listed hashtag in it once per listing, and changes no other list |
| Hashtags.GatherTweetKeys | preprocess/others/hashtags.py:61-64 | One tweet creates keys for exactly the listed hashtags that occur in it |
| Hashtags.GatheredMeaning | preprocess/others/hashtags.py:53-64 | The keyword dictionary's keys are exactly the listed hashtags found in some tweet; each holds, tweet by tweet, the keywords of the tweets containing it, repeated once per listing |
| Hashtags.ListedIn | preprocess/others/hashtags.py:61-62 | The hashtags whose lists a tweet extends are exactly the listed hashtags it contains |
| Hashtags.Mentions | preprocess/others/hashtags.py:52-64 | Every hashtag whose list is extended is a listed hashtag |
| Hashtags.CollectKeywords | preprocess/others/hashtags.py:52-64 | The tweet loop builds exactly that dictionary. It returns the keys in creation order: each hashtag where its list is first extended, tweet by tweet and in list order within a tweet. The keys are distinct |
| Hashtags.ExtendList | preprocess/others/hashtags.py:61-64 | One pass of the hashtag loop extends the dictionary one listed hashtag further, and puts a newly created key at the end of the key order |
| Hashtags.WithoutKey | preprocess/others/hashtags.py:72 | The filter never lengthens the list |
| Hashtags.WithoutKeyMember | preprocess/others/hashtags.py:72 | An item survives `if key != hashtag` exactly when it was present and its key differs |
| Hashtags.WithoutKeyNonIncreasing | preprocess/others/hashtags.py:72 | The filter keeps counts in non-increasing order |
| Hashtags.WithoutKeyDistinct | preprocess/others/hashtags.py:72 | On items with distinct keys, `if key != hashtag` keeps the keys distinct and drops one item exactly when the hashtag is among the keys |
| Hashtags.MostCommon | preprocess/others/hashtags.py:70-71 | `most_common(200)` returns at most 200 items |
| Hashtags.TopKeywords | preprocess/others/hashtags.py:69-72 | A hashtag's entry has at most 200 keywords |
| Hashtags.TopDistinct | preprocess/others/hashtags.py:70-72 | The first 200 sorted items have distinct keys, and removing the hashtag leaves one fewer exactly when it is among them |
| Hashtags.TopKeywordsShape | preprocess/others/hashtags.py:69-72 | A hashtag keeps at most 200 keywords, most frequent first, none equal to the hashtag itself and none twice; each is a gathered keyword with its exact count. There are `min(200, distinct keywords)` of them, less one when the hashtag is itself among the 200 taken |
| Hashtags.TopKeywordsAreMostCommon | preprocess/others/hashtags.py:70-72 | A left-out keyword (other than the hashtag) was gathered no more often than any kept keyword |
| Hashtags.TopKeywordsComplete | preprocess/others/hashtags.py:70-72 | With at most 200 distinct keywords, every keyword other than the hashtag is kept, with its count |
| Hashtags.KeywordTable | preprocess/others/hashtags.py:68-72 | `result_json` has exactly the gathered hashtags as keys |
| Hashtags.BuildTable | preprocess/others/hashtags.py:68-72 | The loop over the dictionary's items builds `result_json`: an entry for each key, from its own gathered keywords |
| Hashtags.KeywordTableShape | preprocess/others/hashtags.py:68-72 | Every gathered hashtag, and no other, has an entry: at most 200 distinct keywords other than itself, most frequent first, each with its count |
| Hashtags.BodyLength | preprocess/others/hashtags.py:81 | After the popping loop, the remaining last word does not start with `#`; every popped word does |
| Hashtags.Support | preprocess/others/hashtags.py:88-90 | A hashtag's support is at most its number of keywords |
| Hashtags.PopHashtags | preprocess/others/hashtags.py:79-82 | The `while` loop leaves the words before the trailing hashtags, and the popped hashtags last word first |
| Hashtags.CountSupport | preprocess/others/hashtags.py:85-90 | The inner loop counts, with repetition, the keywords that are among the words |
| Hashtags.Readmit | preprocess/others/hashtags.py:85-93 | One popped hashtag is either appended to the words or dropped, and only a hashtag in the table is appended |
| Hashtags.ReadmitOne | preprocess/others/hashtags.py:84-93 | One pass of the loop over popped hashtags appends the hashtag exactly when it is in the table with at least three keywords among the words |
| Hashtags.ReadmitAll | preprocess/others/hashtags.py:84-93 | The loop over the popped hashtags keeps the words before them and appends at most one word per popped hashtag |
| Hashtags.RemoveIrrelevantHashtags | preprocess/others/hashtags.py:78-97 | The method returns the kept words joined by single spaces |
| Hashtags.KeptWords | preprocess/others/hashtags.py:78-93 | The kept words are no more than the words of the tweet |
| Hashtags.ReadmitAllShape | preprocess/others/hashtags.py:84-93 | Popped hashtags only come back at the end, in popped order; each one kept is in the table and has at least three keywords among the words before it |
| Hashtags.ReverseTokens | preprocess/others/hashtags.py:79-82 | Popped words are still whitespace-free, non-empty words |
| Hashtags.KeptWordsShape | preprocess/others/hashtags.py:78-97 | The words before the trailing hashtags stay unchanged. A subsequence of the reversed trailing hashtags follows. Each kept hashtag is in the table with at least three keywords. The joined result splits back into these words and has normalised spacing |
| Hashtags.NoTrailingHashtag | preprocess/others/hashtags.py:79-96 | A tweet that does not end in a hashtag only has its whitespace normalised |
| Hashtags.EmptyTableRemovesAll | preprocess/others/hashtags.py:84-93 | With an empty keyword table, every trailing hashtag is removed |
| Oov.WordCounter.constructor | preprocess/others/oov_creation.py:70 | The counter starts empty |
| Oov.WordCounter.CountWords | preprocess/others/oov_creation.py:24-28 | `count_words` adds to every word its number of occurrences among the text's tokens and raises the total by the token count |
| Oov.WordCounter.CountTexts | preprocess/others/oov_creation.py:31-33 | Counting a file's texts in turn is counting all their tokens |
| Oov.AddAllConcat | preprocess/others/oov_creation.py:28 | Counting two token lists in turn equals counting their concatenation |
| Oov.Tokens | preprocess/others/oov_creation.py:38 | Each token of `re.findall(r'\b\w+\b', text.lower())` is a non-empty run of word characters |
| Oov.OovSetOfCorpus | preprocess/others/oov_creation.py:74-75 | A word is out of vocabulary exactly when it occurs in the corpus at least once and at most five times |
| Oov.OovSet | preprocess/others/oov_creation.py:74-75 | Every out-of-vocabulary word is a counted word |
| Oov.CountInBounds | preprocess/others/oov_creation.py:39-44 | The rare-token count is at most the token count; it equals it exactly when every token is rare, and is 0 exactly when none is |
| Oov.CountWordsInText | preprocess/others/oov_creation.py:36-46 | The loop counts the rare tokens; with no tokens it raises the division error |
| Oov.OovFraction | preprocess/others/oov_creation.py:36-46 | A ratio has a positive denominator and a numerator no larger than it |
| Oov.ShareBounds | preprocess/others/oov_creation.py:46 | A part over a non-zero whole lies in [0, 1] and is 1 exactly when part equals whole |
| Oov.OovFractionMeaning | preprocess/others/oov_creation.py:36-46 | The ratio fails exactly for a text without word tokens. Otherwise it has all tokens in the denominator and the rare ones in the numerator. It lies in [0, 1], and is 1 exactly when every token is rare |
| Oov.Ratios | preprocess/others/oov_creation.py:54 | When no row fails there is one ratio per row |
| Oov.AtLeast | preprocess/others/oov_creation.py:55 | `len_stat` is at most the number of rows |
| Oov.AtMost | preprocess/others/oov_creation.py:56 | The kept rows are no more than the rows |
| Oov.PartitionSizes | preprocess/others/oov_creation.py:55-56 | Counted plus kept rows equal all rows plus those exactly at the threshold |
| Oov.AtMostMember | preprocess/others/oov_creation.py:56 | A row is kept exactly when some row with those columns has a ratio at most the threshold |
| Oov.RatiosFail | preprocess/others/oov_creation.py:54 | The ratio column fails exactly when some row has no word tokens; otherwise each row's ratio is its text's share of rare tokens |
| Oov.ProcessPapersMeaning | preprocess/others/oov_creation.py:52-58 | One file fails exactly when a row has no tokens. Otherwise it counts the rows at or above the threshold and keeps those at or below it; a row at the threshold is both |
| Oov.ProcessPapers | preprocess/others/oov_creation.py:52-58 | `len_stat` and the number of kept rows are at most the number of rows |
| Qomnet.ExtractText | preprocess/others/qomnet.py:5-11 | `extract_text` only ever raises TypeError, never KeyError; any text it returns has no whitespace at either end |
| Qomnet.In | preprocess/others/qomnet.py:7 | Python's `in` raises only TypeError |
| Qomnet.Subscript | preprocess/others/qomnet.py:8 | A subscript succeeds only on a dictionary holding the key, and raises KeyError only on a dictionary lacking it |
| Qomnet.Field | preprocess/others/qomnet.py:8 | `data[outer][inner]` succeeds only when `data` is a dictionary holding `outer` |
| Qomnet.HasField | preprocess/others/qomnet.py:7 | The guard `outer in data and inner in data[outer]` only raises TypeError, and when it holds, `data[outer][inner]` cannot raise KeyError |
| Qomnet.Part | preprocess/others/qomnet.py:7-10 | One guarded `text +=` step only ever raises TypeError |
| Qomnet.ExtractBoth | preprocess/others/qomnet.py:7-11 | With both `abstracts.fa` and `bodies.fa`, the text is `strip(abstract + " " + body)` |
| Qomnet.ExtractAbstractOnly | preprocess/others/qomnet.py:7-11 | With only the abstract, the text is `strip(abstract)` |
| Qomnet.ExtractBodyOnly | preprocess/others/qomnet.py:9-11 | With only the body, the text is `strip(body)` |
| Qomnet.ExtractNeither | preprocess/others/qomnet.py:6-11 | With neither part, the text is `""` and nothing is raised |
| Qomnet.MissingPartIsLacking | preprocess/others/qomnet.py:7-9 | A missing key, or a dictionary without `fa`, contributes nothing and raises nothing |
| Qomnet.ExtractRecords | preprocess/others/qomnet.py:20-25 | The driver loop computes the record list item by item, or raises the first exception |
| Qomnet.ExtractOne | preprocess/others/qomnet.py:22-25 | The loop body computes exactly the records one item contributes, or its exception |
| Qomnet.Step | preprocess/others/qomnet.py:22-25 | One item can raise only TypeError |
| Qomnet.Extracted | preprocess/others/qomnet.py:20-25 | The driver loop can raise only TypeError, never KeyError |
| Qomnet.StepOfObject | preprocess/others/qomnet.py:21-25 | An article without `uri` gives no record; one with `uri` gives `{uri, text}` when its text is non-empty, and nothing when it is empty |
| Qomnet.StepShape | preprocess/others/qomnet.py:22-25 | Each item gives at most one record, whose text is non-empty and stripped |
| Qomnet.ExtractedAppend | preprocess/others/qomnet.py:20-25 | The records of a list are those of its first part followed by those of the rest (input order is kept); the first exception wins |
| Qomnet.ExtractedShape | preprocess/others/qomnet.py:20-25 | The driver raises exactly when some item raises; otherwise it gives at most one record per item, each with non-empty stripped text |

## Left out

- MinHash signatures (`preprocess/deduplication.py:41-43`): they come from an external library. `deduplication.py` has no banding, candidate graph or clustering to model.
- File and directory I/O is not modelled, and neither is JSON parsing with its `JSONDecodeError` handling. This covers `preprocess_file`, the file listings, the `result/` files and the stop-word file. A text, a list of rows or a decoded JSON list stands in for each file.
- `Pool`, `imap` and `imap_unordered_bar` are concurrency and are not modelled. The worker count is modelled by `AdjustProcessCount`. Summing the per-file results is not modelled.
- Unicode `str.lower()` and `\w` are parameters. `str.lower()` is modelled one character to one character, so lower-casings that change the length of a string are not captured.
- `OovFractionMeaning`: the ratio is an exact rational. It is not the floating-point `total_oov / len(words)`, and the 0.025 threshold is a parameter `th`.
- `ReadLines`: splits on `\n` only. Universal-newline translation of `\r` is not modelled; written hashtag files contain no `\r`.
- The `print` calls are not modelled (`hashtags.py:30, 66, 95`, `deduplication.py:57`, `oov_creation.py:78`).
- `remove_hashtags` (`hashtags.py:100-118`) is a file driver and is not modelled, including its `len(... .split() > 0)` TypeError at line 114.
- The JSON dump of `result_json` is not modelled. `KeywordTable` gives its content, and `BuildTable` and `KeywordTableShape` tie it to the loop and describe each entry. The table is a map, so the dump's key order and JSON formatting are left out.
- The Qomnet input is modelled as a list of JSON values. Iterating over a top-level object or string is not modelled. JSON numbers are integers here; floats behave the same in every operation modelled.
- `preprocess/preprocess_document.py`, `preprocess/others/transformer.py` and `preprocess/others/eslami.py` are not part of this model. Nor are `preprocess/utils.py`, `main.py` or the scripts under `test/`.
