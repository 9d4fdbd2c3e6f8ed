# pareswords — a verified model of the word-frequency report

`pareswords.py` reads a text file, lower-cases it and splits it into words
(`re.findall(r'\b\w+\b', ...)`). It counts each word's occurrences in a
dictionary and sorts the (word, count) pairs by count, highest first, with
ties in ascending string order. It then translates every distinct word with
a MarianMT English-to-Russian model and writes a three-column report to
`<input without extension>_output.txt`.

This project models that pipeline in Dafny and proves what it promises:

- `tokens.dfy` (module `Tokenizer`): lower-casing and the regex split.
  `\w` and `str.lower()` are parameters (`isWord`, `lower`), so every
  property holds for any character class and any per-character case
  mapping.
- `frequency.dfy` (module `Frequency`): `text_to_columns`.
  - The dictionary the counting loop fills in place is a `map` and its
    insertion order, updated by a `for` loop with invariants.
  - The sort is an insertion sort under the sort key (-count, word).
    Any two sorted permutations of the same entries are equal, so this is
    the list Python's `sorted` returns.
  - `IsFrequencyTable` states what the returned list is for a word
    sequence, and that list is shown to be unique.
- `translation.dfy` (module `Translation`): `translate_words`, a loop that
  fills the translation map. The neural translator is the parameter
  `translate`.
- `paths.dfy` (module `Paths`): the output file name, with
  `os.path.splitext` as it behaves on POSIX.
- `report.dfy` (module `Report`): the report's lines, covering
  - `f"{s:20}"` padding for strings (left-aligned) and for integers
    (right-aligned);
  - `str(count)`;
  - a parser that reads a table line back.
- `pareswords.dfy` (module `Pareswords`): `main` without its I/O, plus one
  worked sample table.

## Model

| member | source | states |
|---|---|---|
| Tokenizer.Lowered | pareswords.py:9 | `text.lower()` applied character by character: same length, each character mapped by `lower` |
| Tokenizer.RunLength | pareswords.py:12 | the leading run of word characters is maximal: all its characters are word characters and the next one is not |
| Tokenizer.Tokens | pareswords.py:12 | every match of `\b\w+\b` is non-empty, made only of word characters, all taken from the text |
| Tokenizer.TokensOfWord | pareswords.py:12 | a non-empty string of word characters is exactly one token |
| Tokenizer.TokensAtSeparator | pareswords.py:12 | a non-word character splits the text: the tokens of `a + [c] + b` are the tokens of `a` followed by those of `b` |
| Tokenizer.TokensOfJoin | pareswords.py:12 | tokenising words joined by a non-word separator gives back exactly those words (inverse of joining) |
| Tokenizer.NoTokensIffNoWordChars | pareswords.py:12 | a text has no token if and only if it has no word character |
| Tokenizer.TokensCoverWordChars | pareswords.py:12 | the tokens, concatenated, are exactly the word characters of the text in order: none lost, none invented |
| Tokenizer.TokensOf | pareswords.py:9-12 | the words `text_to_columns` counts: `findall` on the lower-cased text; every word is non-empty, made of word characters, each the lower-case form of a character of the text |
| Tokenizer.LoweredTokensAreLowerCase | pareswords.py:9-12 | with an idempotent case mapping, every counted word is already lower case |
| Tokenizer.CaseInsensitiveTokens | pareswords.py:9-12 | texts equal up to case yield the same words, so words differing only in case share one entry |
| Frequency.WordLe | pareswords.py:24 | Python's `<=` on strings: lexicographic by code point, a prefix coming first |
| Frequency.WordLeTotal | pareswords.py:24 | any two strings are comparable under `<=` |
| Frequency.WordLeAntisymmetric | pareswords.py:24 | strings each `<=` the other are equal |
| Frequency.WordLeTransitive | pareswords.py:24 | `<=` on strings is transitive |
| Frequency.Before | pareswords.py:24 | the sort key `(-item[1], item[0])` compared: a higher count first, and for equal counts the smaller word first |
| Frequency.BeforeTotalOrder | pareswords.py:24 | the key (-count, word) is a total order on entries: total, antisymmetric, transitive |
| Frequency.Insert | pareswords.py:24 | inserting into the sorted list adds exactly that entry (multiset) |
| Frequency.SortByFrequency | pareswords.py:24 | the sort returns a permutation of the dictionary items |
| Frequency.InsertSorted | pareswords.py:24 | inserting an entry into a sorted list keeps it sorted |
| Frequency.SortByFrequencySorted | pareswords.py:22-24 | the sorted list has, for i < j, count[i] > count[j], or equal counts and word[i] <= word[j] |
| Frequency.SortedUnique | pareswords.py:24 | two sorted permutations of the same entries are equal, so the result does not depend on the sort algorithm or the dict's order |
| Frequency.SortByFrequencyDistinct | pareswords.py:24 | sorting does not duplicate a word |
| Frequency.InsertDistinct | pareswords.py:24 | inserting an entry with a new word keeps the words distinct |
| Frequency.SumCountsIsWordCount | pareswords.py:12-20 | in a table with one entry per word, each counting that word's occurrences, the counts add up to the number of tokens |
| Frequency.EmptyTableIffNoWordChars | pareswords.py:12-27 | the table is empty, and the distinct-word count 0, exactly when the lower-cased text has no word character |
| Frequency.IsFrequencyTable | pareswords.py:7-27 | what `text_to_columns` returns for a word sequence: exactly its distinct words, one entry each, each with its number of occurrences, sorted by the key |
| Frequency.DistinctEntriesOnce | pareswords.py:15-24 | in a list with distinct words every entry occurs at most once |
| Frequency.FrequencyTableUnique | pareswords.py:15-24 | the frequency table of a word sequence is uniquely determined |
| Frequency.Items | pareswords.py:24 | `word_count.items()` in insertion order: one (word, count) pair per key, in that order |
| Frequency.ItemsOfCounts | pareswords.py:15-24 | the items of a dictionary counting the words have distinct words, cover every word, and carry its occurrence count, at least 1 |
| Frequency.DistinctCardinality | pareswords.py:27 | a sequence without repetitions has as many elements as distinct values, so `len(word_count)` is the number of keys |
| Frequency.SortedCountsTable | pareswords.py:15-27 | the sorted items of the counting dictionary form the frequency table: distinct words, exact counts >= 1, sorted, counts summing to the token count, length `len(word_count)` |
| Frequency.TextToColumns | pareswords.py:7-27 | `text_to_columns`: the word set equals the token set, the words are distinct, each count equals the word's number of occurrences (at least 1), the list is sorted by (-count, word), the counts sum to the token count, and the second result is the list's length |
| Translation.TranslateWords | pareswords.py:29-36 | the map's keys are exactly the input words and each value is the translation of its key |
| Paths.RFind | pareswords.py:64 | the index of the last occurrence of a character, or -1 when there is none |
| Paths.SplitExt | pareswords.py:64 | `os.path.splitext`: root + ext is the path, and ext is empty or a dot followed by neither a dot nor a separator |
| Paths.RFindAppend | pareswords.py:64 | appending text without the character does not move its last occurrence |
| Paths.RFindOfExtended | pareswords.py:64 | in `<stem>.<ext>` the last dot is the added one and the last separator is the stem's |
| Paths.SplitExtOfExtended | pareswords.py:64 | splitting `<stem>.<ext>` gives back `(stem, "." + ext)` (inverse of adding an extension) |
| Paths.SplitExtWithoutExtension | pareswords.py:64 | a path whose last component has no dot is its own root, with an empty extension |
| Paths.OutputFilename | pareswords.py:64-65 | the output name ends in `_output.txt` and what precedes it is a prefix of the input path |
| Paths.OutputFilenameOfExtended | pareswords.py:64-65 | the report for `<stem>.<ext>` is written to `<stem>_output.txt` |
| Report.PadRight | pareswords.py:69-72 | `f"{s:20}"` for a string: at least the width, the string first and untruncated, spaces after it |
| Report.PadLeft | pareswords.py:72 | `f"{n:20}"` for a count: at least the width, the digits last and untruncated, spaces before them |
| Report.NatToDecimal | pareswords.py:72 | `str(count)`: non-empty decimal digits, with no leading zero unless the count is 0 |
| Report.DecimalRoundTrip | pareswords.py:72 | reading the written digits back gives the count |
| Report.Header | pareswords.py:69 | the header line: "Слово" and "Кол-во вхождений" each padded to 20 characters, then "Перевод", separated by single spaces |
| Report.Row | pareswords.py:72 | one table line: it starts with the word and ends with the translation, and is at least as long as two 20-wide fields, two spaces and the translation |
| Report.Separator | pareswords.py:70 | the separator line is exactly 60 dashes |
| Report.ReportLines | pareswords.py:68-72 | the strings written: the header, the separator, then exactly one per table entry, in table order, with its word, count and translation |
| Report.Rows | pareswords.py:71-72 | one line per entry, in order, each laid out from that entry's fields |
| Report.ParseLayout | pareswords.py:72 | a line laid out as word, spaces, digits, one space and translation reads back as those fields |
| Report.RowShape | pareswords.py:72 | a table line is its word, a non-empty run of spaces, the count's digits, one space and the translation |
| Report.RowRoundTrip | pareswords.py:72 | every table line reads back as its word, count and translation, whatever the word's length: padding never truncates a field or merges two |
| Report.ReportRoundTrip | pareswords.py:68-72 | the report reads back as header, separator and, for each entry in order, its word, count and translation |
| Pareswords.Process | pareswords.py:38-72 | `main`: the list is the frequency table of the lower-cased tokens, the printed count is its length, the output name comes from the input path, and the report writes, after the header and separator, one string per entry holding its word, count and translation |
| Pareswords.SampleTable | pareswords.py:7-27 | the words of "The cat sat on the mat. THE CAT RAN.", lower-cased, give [("the", 3), ("cat", 2), ("mat", 1), ("on", 1), ("ran", 1), ("sat", 1)] |

## Left out

- Command-line parsing with `argparse` (lines 40-43) is library plumbing. The input path is a parameter of `Pareswords.Process`.
- Reading the input file, writing the output file and the two console messages (lines 46-47, 68, 75-76) are I/O. The model produces the text of the lines and the file name.
- Report.ReportLines: its elements are the strings passed to `write` (lines 69-72), each without its trailing `"\n"`, not the file's physical lines. A translation containing a line break would give the file more lines than entries, and the model does not capture that.
- Report.ReportRoundTrip: reads back each written string, not the file's physical lines, so a translation containing a line break is outside what it promises about the file.
- Loading the MarianMT model and tokenizer and running inference (lines 32-34, 53-55) are foreign calls. They are the total function parameter `translate`, so a failing download or inference is not modelled.
- `tqdm` progress bars (lines 31, 71) only affect the display.
- The exact Unicode definitions of `\w` and `str.lower()` belong to Python's library. They are the parameters `isWord` and `lower`.
- Tokenizer.Lowered: models `str.lower()` one character to one character. Python's `lower()` can change a string's length for a few characters (for example 'İ'), and that is not captured. Mappings that depend on the surrounding text are not captured either: Python lower-cases 'Σ' to the final 'ς' at the end of a word (the Unicode Final_Sigma rule), so "ΟΔΟΣ οδοσ" gives Python the words "οδος" and "οδοσ", where the model gives "οδοσ" twice.
- Tokenizer.CaseInsensitiveTokens: holds for the per-character `lower` of the model. For Python's `lower()` it fails on text where Final_Sigma applies, such as the example above.
- `\b\w+\b` is modelled as maximal runs of `\w`. The two agree because a maximal run of word characters always has word boundaries at both ends.
- Paths.SplitExt: models the POSIX `os.path.splitext` only. Windows' `\` separator and drive letters, and bytes paths, are not covered.
- Frequency.SortByFrequency: Python's Timsort is replaced by an insertion sort. `Frequency.SortedUnique` shows every sort under the same total order returns the same list.
- Integers are unbounded, as are Python's.
- Pareswords.SampleTable: starts from the lower-cased words of the sample sentence rather than from its raw text. The generic tokenisation lemmas cover the step from text to words.
