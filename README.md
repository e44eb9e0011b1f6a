# A verified model of the `TfIdf` corpus library

This project models the `TfIdf` class of the Python 2 tf-idf library
`tfidf.py` in Dafny. The class keeps a corpus: a document counter
`num_docs` and a dictionary `term_num_docs` from each term to the number of
documents that contain it. It also keeps a stopword list and a default IDF. The
model covers the whole class:

- the constructor, which loads a corpus file (`N` on the first line, then
  `term: count` lines) and a stopword file (one word per line);
- `get_tokens`, the tokenizer `re.findall(r"<a.*?/a>|<[^\>]*>|[\w'@#]+", s.lower())`;
- `add_input_document`, which counts each distinct token of a document once;
- `save_corpus_to_file`, which writes the corpus and the stopword candidates:
  the terms by descending count, up to the first whose count is below
  `threshold * num_docs`;
- `get_num_docs` and `get_idf`; `get_idf` returns 0 for a stopword, the
  default for an unknown term, and otherwise `log((1 + num_docs) / (1 + count))`;
- `get_doc_keywords`, which returns every distinct token of a document,
  scored by its term frequency times its IDF and sorted by descending score.

The modules follow the parts of the program:

| file | module | contents |
|---|---|---|
| `results.dfy` | `Results` | `Option`, `Result` and the two errors `get_idf` can raise |
| `text.dfy` | `Text` | Python 2 `strip`, `split`, `str(int)`, `int(str)` and line reading |
| `tokenizer.dfy` | `Tokenizer` | the regex as a left-to-right scanner |
| `ranking.dfy` | `Ranking` | `sorted(..., key=itemgetter(1), reverse=True)` and the stopword cut-off |
| `corpus_format.dfy` | `CorpusFormat` | the corpus file read and written as lines |
| `tfidf.dfy` | `TfIdfLibrary` | the class `TfIdf` and the properties of its operations |

The class `TfIdf` has the four fields of the Python object.

- `AddInputDocument` updates `numDocs` and the `termNumDocs` map in place.
  Its loop over the distinct tokens sits in `CountWords`.
- Loading is the static factory `Create`, because loading a malformed
  corpus raises in Python and a Dafny constructor cannot fail. It returns
  `None` for a corpus that Python would reject.
- `get_idf`, `get_tokens` and `get_num_docs` only read the state, so they are
  functions.
- The loops of `get_doc_keywords` and `save_corpus_to_file` are methods
  proved against specification functions.

Where a plain reading of the library's documentation and the code differ,
the model follows the code:

- The anchor alternative ends at the first literal `/a>` (which a closing
  `</a>` contains), and `.` does not cross a newline.
- The stopwords are a list read line by line, with blank lines kept as empty
  strings, not a set.
- `get_idf` can fail on a loaded corpus. `int()` accepts any integer, so a
  stored count of `-1` gives ZeroDivisionError. A ratio that is not
  positive, for example from a negative document count, gives a math domain
  error. On a corpus built from documents it never fails (`IdfOfWellFormed`).

## Model

| member | source | states |
|---|---|---|
| Text.Strip | tfidf.py:63 | `str.strip()` leaves no whitespace at either end and leaves a string without end whitespace unchanged |
| Text.StripKeepsAbsent | tfidf.py:68 | stripping adds no character, so a term read from a line has no `:` |
| Text.Split | tfidf.py:67 | `line.split(":")` gives at least one piece and no piece contains `:` |
| Text.SplitSeparates | tfidf.py:67-69 | the second piece `tokens[1]` exists exactly when the line contains `:`; otherwise Python raises IndexError |
| Text.SplitAtFirstSeparator | tfidf.py:67 | splitting `a + ":" + b`, where `a` has no `:`, gives `a` followed by the pieces of `b` |
| Text.IntToString | tfidf.py:99 | `str(n)` is non-empty, has no `:`, no newline and no leading whitespace, and ends in a digit |
| Text.ParseInt | tfidf.py:63 | `int(s)` on a stripped string succeeds only on text that starts with a digit or a sign |
| Text.ParseDigits | tfidf.py:63 | an unsigned digit string reads as its decimal value |
| Text.TrimLeftBlanks | tfidf.py:63 | leading whitespace in front of a non-blank string is dropped entirely |
| Text.ParseSignedNumeral | tfidf.py:63 | a sign, any run of whitespace and a digit string read as the signed value of the digits, so `int("- 5") == -5` |
| Text.ParseNegativeNumeral | tfidf.py:63 | `-` directly in front of a digit string reads as the negated value |
| Text.ParseIntToString | tfidf.py:69 | `int(str(n)) == n` for every integer |
| Text.ParseNegativeToString | tfidf.py:69 | `int(str(n)) == n` for every negative integer |
| Text.Unlines | tfidf.py:99-101 | the text written line by line is empty exactly when there are no lines, and otherwise ends in a newline |
| Text.ReadLines | tfidf.py:62-66 | iterating the file gives lines without newlines, and the empty file gives no lines |
| Text.ReadLinesUnlines | tfidf.py:99-101 | a file written line by line, with no newline inside a line, reads back as the same lines |
| Tokenizer.LowerChar | tfidf.py:82 | Python 2 `lower()` maps `A`-`Z` to `a`-`z` and leaves every other byte as it is |
| Tokenizer.Lower | tfidf.py:82 | the lower-cased input has the same length, no upper-case letter, and each byte lowered |
| Tokenizer.FindAnchorClose | tfidf.py:82 | the lazy `.*?/a>` ends right after the first `/a>`, with no newline and no earlier `/a>` before it; it fails exactly when every later `/a>` lies behind a newline |
| Tokenizer.MatchAnchor | tfidf.py:82 | a match of `<a.*?/a>` starts with `<a` and ends with `/a>` |
| Tokenizer.AnchorMatchesExactly | tfidf.py:82 | `<a.*?/a>` matches exactly where `<a` stands and some later `/a>` is reached without crossing a newline |
| Tokenizer.FindTagClose | tfidf.py:82 | `[^\>]*>` ends right after the first `>`, and fails when no `>` follows |
| Tokenizer.MatchTag | tfidf.py:82 | `<[^\>]*>` matches exactly at a `<` with a later `>`, and ends at the first such `>` |
| Tokenizer.WordEnd | tfidf.py:82 | the greedy `[\w'@#]*` stops at the first byte that is not a word character |
| Tokenizer.NextMatch | tfidf.py:82 | a match is never empty, and a word character always starts one |
| Tokenizer.AnchorBeatsTag | tfidf.py:82 | the anchor alternative takes precedence: `<a>b/a>` is one token, and `<a>` alone is a tag only when a newline comes before the `/a>` |
| Tokenizer.Scan | tfidf.py:82 | `re.findall` yields spans in bounds, each a match of the pattern at its start, in increasing non-overlapping order |
| Tokenizer.Tokens | tfidf.py:82 | every token is non-empty and lower-case |
| Tokenizer.MatchShape | tfidf.py:82 | every match is an anchor span `<a ... /a>`, a tag `<...>` with no inner `>` that starts with `<a` only where no anchor can close, or a maximal run of word characters |
| Tokenizer.NoMatchExactlyUnmatchable | tfidf.py:82 | the pattern matches nothing at a position exactly when the byte there is no word character and is not a `<` with a later `>` |
| Tokenizer.ScanCoversMatches | tfidf.py:82 | every position the scan skips is one where the pattern matches nothing |
| Tokenizer.TokensAreOrderedMatches | tfidf.py:82 | `get_tokens` as a whole: ordered non-overlapping substrings of the lowered text, each of one of the three shapes with the anchor taking precedence over the tag, and no token skipped |
| Ranking.Terms | tfidf.py:106-110 | the terms of the sorted items, one per item and in the same order |
| Ranking.Insert | tfidf.py:103-104 | inserting into a descending list keeps it descending and adds exactly the new item, with its term |
| Ranking.SortDesc | tfidf.py:103-104 | the sort returns a permutation of its input, non-increasing by score, with the same multiset of terms |
| Ranking.CandidatePrefix | tfidf.py:106-108 | the loop stops at the first entry below the bound: every earlier entry reaches it and the stopping entry does not |
| Ranking.SortedPrefixIsFilter | tfidf.py:103-110 | on a sorted list the prefix taken is exactly the set of entries at or above the bound |
| Ranking.DistinctWhenOnce | tfidf.py:103 | a list where no key occurs twice, like the items of a dictionary, has pairwise distinct keys |
| CorpusFormat.ParseEntry | tfidf.py:67-69 | a line without `:` is rejected (IndexError), and a term read from a line has no whitespace at either end |
| CorpusFormat.ParseEntryShape | tfidf.py:67-68 | a term read from a line has no `:` |
| CorpusFormat.Assign | tfidf.py:66-70 | the assignment loop succeeds exactly when every line parses |
| CorpusFormat.ParseEntries | tfidf.py:66-70 | the term lines load exactly when every one of them parses |
| CorpusFormat.ParseCorpus | tfidf.py:62-70 | the empty file fails, and the whole file loads exactly when the count line and every term line parse |
| CorpusFormat.EntryLine | tfidf.py:101 | a written term line starts with the term followed by `:` and has a non-empty count after it |
| CorpusFormat.EntryLines | tfidf.py:100-101 | one term line per term written |
| CorpusFormat.CorpusLines | tfidf.py:99-101 | the count line `str(num_docs)` comes first, then one line per term |
| CorpusFormat.EntryRoundTrip | tfidf.py:101 | a written `term: count` line reads back as the same term and count when the term is storable |
| CorpusFormat.EntriesRoundTrip | tfidf.py:100-101 | the term lines written in any order read back as the map restricted to the terms written |
| CorpusFormat.CorpusRoundTrip | tfidf.py:99-101 | writing the corpus in any dictionary order and loading it back gives the same document count and counts |
| CorpusFormat.CorpusFileRoundTrip | tfidf.py:99-101 | the same round trip through the file text with its newline terminators |
| CorpusFormat.ColonTermBreaksReload | tfidf.py:101 | a term with a `:` inside, such as a tag token, is not storable, and its saved line fails to load when the text after its `:` is no integer |
| CorpusFormat.ReadStopwords | tfidf.py:74 | the stopword list has one stripped entry per line of the file |
| CorpusFormat.StopwordFileRoundTrip | tfidf.py:110 | stopwords written one per line read back as the same list |
| TfIdfLibrary.Distinct | tfidf.py:87 | `set(tokens)` holds exactly the tokens and is no larger than the list |
| TfIdfLibrary.TokenSet | tfidf.py:87 | the distinct tokens of a document: exactly its tokens, each non-empty and lower-case |
| TfIdfLibrary.Bump | tfidf.py:88-92 | the counting loop's result: each word of the set raised by one or started at one, every other count unchanged, and no other key |
| TfIdfLibrary.Added | tfidf.py:84-92 | the corpus after a document: one more document, and the terms are the old ones plus the document's tokens |
| TfIdfLibrary.AddedCounts | tfidf.py:86-92 | adding a document raises the document count by one, raises each distinct token's count by exactly one however often it occurs, and leaves every other count alone |
| TfIdfLibrary.AddedKeepsWellFormed | tfidf.py:86-92 | counts between one and the number of documents stay so after a document is added |
| TfIdfLibrary.AddedKeepsLowerCase | tfidf.py:87-92 | only lower-case terms are stored |
| TfIdfLibrary.CountsAreDocumentFrequencies | tfidf.py:84-92 | after adding documents to an empty corpus, each count is the number of those documents containing the term |
| TfIdfLibrary.IndexedIsWellFormed | tfidf.py:84-92 | a corpus built by adding documents has counts between one and the document count, and lower-case terms |
| TfIdfLibrary.BumpedStep | tfidf.py:89-92 | one round of the counting loop raises the current word's count by one, or starts it at one |
| TfIdfLibrary.BumpedIsBump | tfidf.py:88-92 | when the loop is done, every word of the set has been raised once |
| TfIdfLibrary.SmoothedRatio | tfidf.py:129-130 | the ratio times `1 + count` is `1 + num_docs`, and it is positive for non-negative counts |
| TfIdfLibrary.RatioDecreases | tfidf.py:129-130 | for a fixed number of documents, a larger count gives a strictly smaller positive ratio |
| TfIdfLibrary.RatioAtLeastOne | tfidf.py:129-130 | a count between zero and the number of documents gives a ratio of at least one, equal to one exactly when the count is the number of documents |
| TfIdfLibrary.TfIdf.constructor | tfidf.py:53-56 | the new object has no documents, no terms, no stopwords and the given default IDF |
| TfIdfLibrary.TfIdf.Create | tfidf.py:53-74 | loading fails exactly when a corpus is given and does not parse; otherwise the state is the parsed corpus, or empty, and the stopwords are the file's stripped lines |
| TfIdfLibrary.TfIdf.LoadTerms | tfidf.py:66-70 | the loop over the term lines fills the map with the parsed entries, or stops at the first malformed line |
| TfIdfLibrary.TfIdf.GetTokens | tfidf.py:76-82 | the tokens are non-empty and lower-case |
| TfIdfLibrary.TfIdf.AddInputDocument | tfidf.py:84-92 | the new state is the old one with the document added, the document count is one more, the stopwords and default are unchanged, and well-formedness is kept |
| TfIdfLibrary.TfIdf.CountWords | tfidf.py:88-92 | the loop raises every word of the set by one and changes nothing else |
| TfIdfLibrary.TfIdf.GetNumDocs | tfidf.py:112-114 | returns the document count of the current state |
| TfIdfLibrary.TfIdf.GetIdf | tfidf.py:116-130 | a stopword gives 0 even when it is in the corpus; an unknown term gives the default; a stored term gives the log of the smoothed ratio, or ZeroDivisionError exactly for a count of -1, or a domain error exactly for a ratio that is not positive |
| TfIdfLibrary.TfIdf.GetDocKeywords | tfidf.py:132-145 | every distinct token exactly once, each scored by its term frequency times its IDF, sorted non-increasing; an IDF error is passed on exactly when some token's IDF fails; an input with no tokens gives the empty list |
| TfIdfLibrary.TfIdf.ScoreTokens | tfidf.py:137-143 | the scoring loop yields each distinct token once with its score, or the error of a token whose IDF fails |
| TfIdfLibrary.TfIdf.ScoreWord | tfidf.py:141-143 | one token's entry is its term frequency times its IDF, or the IDF's error |
| TfIdfLibrary.TfIdf.ScoredCoversTokens | tfidf.py:140-143 | once every distinct token is scored, no token's IDF fails |
| TfIdfLibrary.TfIdf.SaveCorpus | tfidf.py:94-110 | the corpus lines list every term once and load back to the same corpus; the stopword lines are exactly the terms whose count reaches `threshold * num_docs`, each once, by non-increasing count, and they read back unchanged |
| TfIdfLibrary.TfIdf.WriteCorpus | tfidf.py:99-101 | the count line and one `term: count` line per term in dictionary order, and the matching items for the sort |
| TfIdfLibrary.CutCandidates | tfidf.py:106-110 | the second loop emits the terms of the sorted items up to the first below the bound |
| TfIdfLibrary.Tf | tfidf.py:141 | the term frequency is positive and, times the number of distinct tokens, is the number of occurrences |
| TfIdfLibrary.StopwordBound | tfidf.py:107 | the candidate bound `threshold * num_docs` lies between zero and the number of documents for a threshold between zero and one |
| TfIdfLibrary.IdfDecreasesWithCount | tfidf.py:129-130 | for a strictly increasing logarithm, a stored term in more documents has a strictly smaller IDF |
| TfIdfLibrary.IdfOfWellFormed | tfidf.py:129-130 | for a strictly increasing logarithm with `ln(1) = 0`, in a corpus built from documents a stored term's IDF never fails, is never negative, and is zero exactly when every document contains the term |
| TfIdfLibrary.UpperCaseGetsDefault | tfidf.py:126-127 | with only lower-case terms stored, a term with an upper-case letter that is no stopword gets the default IDF |
| TfIdfLibrary.CandidatesAreFrequent | tfidf.py:103-110 | the cut-off of the sorted items selects exactly the terms whose count reaches the bound |
| TfIdfLibrary.CandidatesAreDistinct | tfidf.py:103-110 | no stopword candidate is emitted twice |
| TfIdfLibrary.CandidatesByCount | tfidf.py:103-110 | the candidates come by non-increasing count |
| TfIdfLibrary.StoredStopwords | tfidf.py:110 | candidates drawn from storable terms survive the stopword file format |

## Left out

- File I/O (`open`, `readline`, iterating a file, `write`). `Create` takes the
  contents of the two files as optional strings, where `None` stands for a
  missing or empty file name. `SaveCorpus` returns the lines of the two files
  instead of writing them. I/O errors are not modelled.
- Floating point. Scores, ratios and the threshold are exact reals, and the
  logarithm is a parameter `ln` that the IDF lemmas assume strictly
  increasing. Rounding and overflow are not modelled, and neither is the
  int-to-float conversion in `num_docs < threshold * num_docs`.
- The keyword defaults `DEFAULT_IDF = 1.5` (tfidf.py:39) and
  `STOPWORD_PERCENTAGE_THRESHOLD = 0.01` (tfidf.py:95) are not built in.
  Dafny has no default arguments, so the caller passes them as
  `defaultIdf` to the constructor or `Create` and as `threshold` to
  `SaveCorpus`.
- Text.ParseInt: values beyond a C `long` go through CPython 2's long-integer
  parser instead of `strtol`. That path is not modelled separately. The
  model reads every such numeral the same way as a short one.
- GetIdf: a stopword's IDF is the real `0.0`, where Python returns the integer `0`.
- Python's regex engine and Unicode. The scanner reproduces this one
  pattern over Python 2 byte strings, where `lower()` and `\w` are ASCII only.
- Dictionary and set iteration order. The loops take their elements in an
  order the model leaves open (`:|`). The corpus lines follow a ghost
  `order` that the contracts quantify over.
- SortDesc: sorts stably, by insertion. The contracts state only
  sortedness and permutation, so ties among equal scores and equal counts
  may come in any order.
- A corpus load that fails leaves no object, as the exception in Python does;
  the partial state before the failing line is not observable.
- The loops of `add_input_document`, `get_doc_keywords`, `__init__` and
  `save_corpus_to_file` sit in their own methods (`CountWords`,
  `ScoreTokens` with `ScoreWord`, `LoadTerms`, `WriteCorpus` and
  `CutCandidates`). Each is called once, from the method that models the
  Python function.
- `tfidf_test.py` is not part of this model. Its assertions are stated
  as lemmas and contracts instead (counts after adding documents, IDF of
  stopwords, unknown and upper-case terms, and IDF ordering).
