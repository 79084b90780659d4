# frequency-words in Dafny

A model of `count_occ_in_dir`, the core of the frequency-words word-frequency
list generator. The function walks a directory of compressed XML documents,
counts every `/document/s/w` token after lower-casing it, ranks the words by
decreasing count, and writes one `word count` line per alphabetic word to the
output file.

The model follows the function's four stages, one module each, over a shared
`Text` module:

- `Selection`: the walk's output is a sequence of `SourceFile`s, each a base
  name with its token texts. A file is read only when its lower-cased name ends
  with `.xml.gz`.
- `Aggregator`: the nested loops that fill `occ` form the method
  `CountOccurrences`. It is proved to return `TableOf`, the bag of lower-cased
  selected tokens seen as a map from word to multiplicity.
- `Ranker`: `occ.items()` is enumerated in an unspecified order (`Items`).
  `sorted(..., reverse=True)` becomes a stable insertion sort by count
  (`SortByCount`). The `isalpha` filter is `KeepAlpha`.
- `Writer`: `Line` is `word + " " + str(count) + "\n"`. The output file is
  the class `OutFile`: opening it with mode `'w'` truncates it, and `write`
  appends. A parser for the format states what the output means: reading it
  back gives exactly the written entries.
- `FrequencyWords`: `CountOccInDir` runs the whole pipeline against an
  `OutFile`. Worked examples then use the ASCII instance of the two
  parameters.

The model follows the program's behaviour under Python 2, the only version
under which it runs as written. There, what `lower()` and `isalpha()` do
depends on the string type: token texts from lxml may be `unicode` objects,
while file names from `os.walk` on a byte-string directory are lowered byte
by byte. The model leaves both tests open: they are the parameters
`lower: string -> string` and `isLetter: char -> bool`. `IsAlpha` applies
Python's rule for `isalpha`: the string is non-empty and every character is
a letter. `Text.AsciiLower` and `Text.IsAsciiLetter` are one concrete choice,
used only in the examples.

Two facts about the code's order of work that the model keeps:

- The code sorts every pair (line 49) and filters the non-alphabetic words
  only while writing (line 52). `Ranker.KeepAlphaCommutesWithSort` proves
  that filtering first would give the same list.
- The output file is opened, and so truncated, even when no word was counted
  (line 51). Nothing is printed.

## Model

| member | source | states |
|---|---|---|
| Selection.Selected | src/FrequencyWords.py:43 | Definition of the file test: the lower-cased name ends with `.xml.gz`. Its behaviour is stated by `Selection.SelectionExamples` and `Selection.SelectedTokensOrigin` |
| Selection.SelectedTokens | src/FrequencyWords.py:41-45 | Definition of the token stream the loops visit: the tokens of the selected files, in walk order and document order. Its properties are stated by `Selection.SelectedTokensStep` and `Selection.SelectedTokensOrigin` |
| Selection.SelectionExamples | src/FrequencyWords.py:43 | The suffix test is made on the lower-cased name: `X.XML.GZ` is selected, `x.xml` is not |
| Selection.SelectedTokensStep | src/FrequencyWords.py:41-47 | Visiting one more file appends its tokens, in document order, if it is selected, and nothing otherwise |
| Selection.SelectedTokensOrigin | src/FrequencyWords.py:41-47 | Every counted token comes from a selected file, and every token of a selected file is counted; with no selected file there are no tokens |
| Aggregator.Tally | src/FrequencyWords.py:47 | `occ.get(w, 0) + 1` adds `w` as a key (count 1 if new, previous + 1 otherwise) and leaves every other key's count unchanged |
| Aggregator.TallyAddsToBag | src/FrequencyWords.py:46-47 | Tallying a word into the table of a bag gives the table of that bag with the word added once |
| Aggregator.CountOccurrences | src/FrequencyWords.py:39-47 | After the nested loops, `occ` maps each lower-cased selected token to its number of occurrences, and holds no other key |
| Aggregator.CountMatchingIsMultiplicity | src/FrequencyWords.py:45-47 | A word's multiplicity in the lower-cased tokens is the number of tokens that lower-case to it |
| Aggregator.TableCountsExactly | src/FrequencyWords.py:45-47 | A word is a key iff some selected token lower-cases to it, and its value is the number of such tokens |
| Aggregator.EveryTokenIsCounted | src/FrequencyWords.py:45-47 | Every selected token, digits and punctuation included, has its lower-cased form as a key, and every count is at least 1 |
| Ranker.Items | src/FrequencyWords.py:49 | `occ.items()` lists each (word, count) pair of the table exactly once, in some order |
| Ranker.EnumerationFacts | src/FrequencyWords.py:49 | Each listed pair is in the table, each table pair is listed, and no word is listed twice |
| Ranker.NoRepeatedEntry | src/FrequencyWords.py:49 | Two positions of an enumeration never hold the same pair |
| Ranker.Insert | src/FrequencyWords.py:49 | One step of the descending sort: places an entry before the first entry whose count is not above its own. Its properties are stated by `Ranker.InsertPermutes` and `Ranker.InsertKeepsOrder` |
| Ranker.InsertPermutes | src/FrequencyWords.py:49 | Inserting into the sorted list adds exactly that entry |
| Ranker.InsertKeepsOrder | src/FrequencyWords.py:49 | Inserting into a list with non-increasing counts keeps the counts non-increasing |
| Ranker.SortByCount | src/FrequencyWords.py:49 | The sort by count with `reverse=True` returns a permutation of its input whose counts never increase |
| Ranker.SortedItemsAreRanking | src/FrequencyWords.py:49 | Sorting an enumeration of `occ` gives a ranking of `occ` |
| Ranker.KeepAlpha | src/FrequencyWords.py:52 | Definition of the generator `(e for e in sorted_occ if e[0].isalpha())`. Its properties are stated by `Ranker.KeepAlphaMembers`, `Ranker.KeepAlphaSubBag`, `Ranker.KeepAlphaConcat` and `Ranker.KeepAlphaNonIncreasing` |
| Ranker.KeepAlphaMembers | src/FrequencyWords.py:52 | The filter keeps an entry iff it is in the input and its word passes `isalpha` |
| Ranker.KeepAlphaConcat | src/FrequencyWords.py:52 | Filtering a concatenation is the concatenation of the filtered parts, so order is kept |
| Ranker.KeepAlphaSubBag | src/FrequencyWords.py:52 | The filter only drops entries: it never adds an entry or repeats one |
| Ranker.KeepAlphaNonIncreasing | src/FrequencyWords.py:52 | Filtering a list with non-increasing counts keeps it non-increasing |
| Ranker.KeepAlphaInsert | src/FrequencyWords.py:49-52 | For a list with non-increasing counts, filtering after an insertion equals inserting into the filtered list if the word is alphabetic, and equals the filtered list otherwise |
| Ranker.KeepAlphaCommutesWithSort | src/FrequencyWords.py:49-52 | Sorting then filtering, as the code does, equals filtering then sorting |
| Ranker.KeptIsEnumeration | src/FrequencyWords.py:49-52 | Filtering an enumeration of the table lists each alphabetic pair of the table exactly once |
| Ranker.EmittedEntries | src/FrequencyWords.py:49-53 | The written entries form a ranking of the table's alphabetic part: exactly its pairs, each once (no word twice), with non-empty words, in non-increasing count order |
| Ranker.TotalCountIsTokenCount | src/FrequencyWords.py:41-49 | The counts of the ranking add up to the number of tokens read from the selected files |
| Text.IsAlpha | src/FrequencyWords.py:52 | `isalpha`: the word is non-empty and each character is a letter. Its contract states that `isalpha` rejects the empty word |
| Text.AlphaExcludes | src/FrequencyWords.py:52 | A word that passes `isalpha` contains no non-letter character, such as the space or the newline |
| Text.NatToString | src/FrequencyWords.py:54 | `str(count)` is a non-empty run of decimal digits with no leading zero, whose value is the count |
| Text.NatToStringInjective | src/FrequencyWords.py:54 | Different counts are rendered differently |
| Writer.Line | src/FrequencyWords.py:54 | An output line is longer than its word by at least three characters and ends with a newline. `Writer.LineFormat` states the rest of its layout |
| Writer.Render | src/FrequencyWords.py:53-55 | The output is empty iff there is no entry to write, and otherwise ends with a newline |
| Writer.LineFormat | src/FrequencyWords.py:54 | A line is the word, one space, then the count in decimal with no leading zero (the final newline is stated by `Writer.Line`) |
| Writer.RenderConcat | src/FrequencyWords.py:53-55 | The output for two consecutive runs of entries is the output of the first followed by that of the second |
| Writer.LineRoundTrip | src/FrequencyWords.py:54 | A line whose word has no space parses back to its entry |
| Writer.ParseFirstLine | src/FrequencyWords.py:54-55 | A line followed by more output parses to its entry followed by whatever the rest parses to |
| Writer.RenderRoundTrip | src/FrequencyWords.py:53-55 | Output whose words contain neither a space nor a newline parses back to the same entries in the same order |
| Writer.EmittedOutputReadsBack | src/FrequencyWords.py:52-55 | If neither the space nor the newline is a letter, the written file parses back to exactly the kept entries |
| Writer.OutFile.Truncate | src/FrequencyWords.py:51 | Opening the file with mode `'w'` leaves it empty |
| Writer.OutFile.Write | src/FrequencyWords.py:55 | `write` appends its argument to the file's contents |
| FrequencyWords.RankEntries | src/FrequencyWords.py:49 | `sorted_occ` is a ranking of `occ`: each pair exactly once, counts non-increasing |
| FrequencyWords.EmitOneMore | src/FrequencyWords.py:52-55 | Each step of the write loop appends its entry's line if the word is alphabetic, and nothing otherwise |
| FrequencyWords.CountOccInDir | src/FrequencyWords.py:31-55 | The whole function: the ranking is of the table of the selected tokens, and the file ends up holding exactly the lines of the ranking's alphabetic entries, in ranked order, whatever it held before |
| FrequencyWords.RankingOfTwo | src/FrequencyWords.py:49 | A table of two pairs with different counts has one ranking, the larger count first |
| FrequencyWords.TableOfOneFile | src/FrequencyWords.py:41-47 | With one selected file, the table is the bag of its lower-cased tokens |
| FrequencyWords.DigitsAreCountedButNotWritten | src/FrequencyWords.py:31-55 | From the tokens `ok`, `42`, `ok`: the table is {ok: 2, 42: 1}, and the output is `ok 2` alone |
| FrequencyWords.CaseIsFolded | src/FrequencyWords.py:31-55 | From the tokens `The`, `the`, `cat`: the table is {the: 2, cat: 1}, and the output is `the 2` then `cat 1` |

## Left out

- The directory walk (`os.walk`) is not modelled. Its result, the files in walk order, is the input `seq<SourceFile>`.
- Gzip decompression, `etree.parse` and the `/document/s/w` XPath query are not modelled. Each file arrives with its tokens already extracted, in document order.
- Failure paths are not modelled: unreadable or malformed files, and an element with no text (`word.text` is `None`). In the code these raise exceptions that abort the run.
- `lower` and `isLetter` are parameters because Unicode case mapping and letter classes are not modelled. `Text.AsciiLower` and `Text.IsAsciiLetter` are only an example instance.
- File I/O is modelled only as the contents of an `OutFile`. The UTF-8 encoding of each line is not modelled: the contents are characters, not bytes.
- Python 3 behaviour is not modelled. Line 54 encodes each line to bytes, and line 55 writes them to a file opened in text mode at line 51. Under Python 3 that `write` raises `TypeError` on the first alphabetic entry, after the file has already been truncated. `Writer.OutFile.Write` and `FrequencyWords.CountOccInDir` describe the Python 2 behaviour, where the write appends.
- Ranker.SortByCount: no claim is made about the relative order of entries with equal counts. That order depends on the enumeration order of `occ.items()`, which is left unspecified.
- `ReadableDir`, `main` and the command-line parsing are not part of this model. They only validate the directory argument and supply the defaults `./` and `Out.log`.
