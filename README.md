# Bag of words and word counting — a Dafny model

This project models `bag_of_words.py`, a small module that turns a document
collection into a bag-of-words representation and counts word occurrences
across it. It has three functions:

- `document_transformer` normalises the input into a list of document strings.
  A list passes through unchanged. A path to a file becomes the file's text
  cut at every `'\n'`. Any other string becomes a one-document list.
- `words_counting` splits every document on whitespace and counts every token
  in a dict. It rebuilds that dict with its keys in `sorted` order and wraps it
  as a one-row table. Given `specific_word`, it returns that word's count.
- `bag_of_words` hands the collection to a count vectorizer. It returns the raw
  matrix when `optional` is set. Otherwise it builds a labelled table and
  returns one document's row when an index is given. Failing that, it returns
  one term's column when a word is given, and the whole table when neither is.

Module layout:

- `Normalize` models `document_transformer`. Its `Source` datatype replaces
  the run-time `type(...)`/`isfile` tests: `Docs`, `FileText` (which carries
  the text already read from the file) and `Text`.
- `Lines` models `str.split('\n')` and its inverse, `'\n'.join`.
- `Tokenize` models `str.split()` with no argument. `IsWhitespace` is the set
  of characters for which Python's `str.isspace()` holds.
- `StringOrder` and `Sorting` model `sorted` on strings. Strings are ordered
  lexicographically by code point.
- `OrderedDict` models a Python dict that remembers insertion order.
  `Frames` models the two pandas lookups: `.loc` by label and `.iloc` by
  position.
- `WordCount` models `words_counting`. The counting and rebuilding loops are
  imperative methods (`CountTokens`/`CountWords` and
  `SortedRebuild`/`FillInOrder`). Their invariants tie the dict variable to
  the pure functions `Histogram` and `AllTokens`.
- `BagOfWords` models the selection logic of `bag_of_words` as a function.
  The vectorizer is a parameter `fitTransform` that returns the vocabulary and
  the matrix.

Failures are the ones pandas raises:

- A word that is not a column makes `.loc[:, w]` raise `KeyError`. The model
  names this `KeyNotFound`.
- An index that `.iloc[i]` cannot place makes it raise `IndexError`. The model
  names this `IndexOutOfRange`. `.iloc` also accepts negative indices in
  `[-n, -1]`, counting from the end, so only indices outside `[-n, n)` fail.

## Model

| member | source | states |
|---|---|---|
| Normalize.DocumentTransformer | bag_of_words.py:67-86 | a list comes back unchanged; a plain string `s` gives `[s]`; file text gives at least one piece, no piece holds `'\n'`, and the pieces joined by `'\n'` are the text |
| Normalize.TransformerIdempotent | bag_of_words.py:76-77 | normalising an already normalised collection changes nothing |
| Normalize.FileDocumentCount | bag_of_words.py:80 | a file yields one document more than it has `'\n'` characters |
| Normalize.FileTrailingNewline | bag_of_words.py:80 | a trailing `'\n'` adds a final empty document `""` |
| Normalize.FileRoundTrip | bag_of_words.py:80 | lines free of `'\n'`, written one per line and read back, are the same documents |
| Normalize.FileExample | bag_of_words.py:78-81 | the file text `"a b\nc d\n"` yields `["a b", "c d", ""]` |
| Tokenize.IsWhitespace | bag_of_words.py:49 | the characters `str.isspace()` accepts, which `str.split()` treats as separators; what splitting on them gives is stated by the `Tokenize` lemmas below |
| Tokenize.Tokens | bag_of_words.py:49 | `document_part.split()`; stated by `TokensAreWords`, `TokensKeepPrintable`, `WordIsOneToken`, `TokensSplitAtWhitespace` and `NoTokensIffBlank` |
| StringOrder.Less | bag_of_words.py:55 | the `str` `<` that `sorted` uses: code-point lexicographic, a proper prefix first; stated as a strict total order by `LessIrreflexive`, `LessTransitive`, `LessTotal` and `LessAsymmetric` |
| Lines.Split | bag_of_words.py:80 | `str.split(sep)` always gives at least one piece |
| Lines.SplitPiecesFree | bag_of_words.py:80 | no piece of `str.split(sep)` holds the separator |
| Lines.SplitCons | bag_of_words.py:80 | a leading separator opens a new empty piece; any other leading character joins the first piece |
| Lines.JoinSplit | bag_of_words.py:80 | joining the pieces of `Split` with the separator gives back the text |
| Lines.SplitJoin | bag_of_words.py:80 | splitting a join of separator-free pieces gives back those pieces |
| Lines.SplitAtSeparator | bag_of_words.py:80 | a separator cuts the text into two halves that split independently |
| Lines.SplitWithoutSeparator | bag_of_words.py:80 | a text without the separator is a single piece |
| Lines.TrailingSeparator | bag_of_words.py:80 | a text ending in the separator has an extra empty last piece |
| Lines.SplitCount | bag_of_words.py:80 | the number of pieces is one more than the number of separators |
| Tokenize.WordLength | bag_of_words.py:49 | the leading run of non-whitespace characters stops at the first whitespace character or at the end |
| Tokenize.TokensAreWords | bag_of_words.py:49 | every token of `str.split()` is non-empty and holds no whitespace |
| Tokenize.NoTokensIffBlank | bag_of_words.py:49 | a string yields no tokens exactly when it is empty or all whitespace |
| Tokenize.TokensKeepPrintable | bag_of_words.py:49 | the tokens, concatenated, are exactly the string's non-whitespace characters in order |
| Tokenize.TokensSplitAtWhitespace | bag_of_words.py:49 | a whitespace character separates the tokens before it from the tokens after it |
| Tokenize.WordIsOneToken | bag_of_words.py:49 | a word without whitespace is its own single token |
| StringOrder.LessIrreflexive | bag_of_words.py:55 | no string sorts before itself |
| StringOrder.LessTransitive | bag_of_words.py:55 | the order `sorted` uses on strings is transitive |
| StringOrder.LessTotal | bag_of_words.py:55 | any two different strings are ordered one way or the other |
| StringOrder.LessAsymmetric | bag_of_words.py:55 | two strings are never each below the other |
| Sorting.Insert | bag_of_words.py:55 | inserting into an ascending list keeps it ascending and adds exactly that one element |
| Sorting.SortStrings | bag_of_words.py:55 | `sorted` returns an ascending permutation of its input |
| Sorting.SortDistinct | bag_of_words.py:55 | sorting distinct keys gives a strictly ascending list |
| Sorting.StrictlyAscendingUnique | bag_of_words.py:55 | a strictly ascending list is determined by its set of elements |
| OrderedDict.Empty | bag_of_words.py:46 | `{}` is a valid dict with no keys and no key order |
| OrderedDict.Dict.Put | bag_of_words.py:51-53 | `d[k] = v` maps `k` to `v`; a new key goes to the end of the key order, an existing key keeps its place |
| Frames.ColumnPosition | bag_of_words.py:63 | `.loc[:, w]` finds the column labelled `w` (labels are distinct wherever it is used), and fails exactly when no column has that label |
| Frames.RowPosition | bag_of_words.py:30 | `.iloc[i]` picks row `i`, or row `i + n` for a negative `i`, and fails exactly outside `[-n, n)` |
| WordCount.AllTokens | bag_of_words.py:48-49 | every token of every document, document by document; stated by `AllTokensAppend`, `AllTokensAreWords`, `TokenOfSomeDocument` and `BlankDocumentIgnored` |
| WordCount.Histogram | bag_of_words.py:48-53 | the reference tally behind the counting loops; stated by `HistogramCounts`, `HistogramTotal` and `HistogramSnoc` |
| WordCount.CountTokens | bag_of_words.py:46-53 | after both loops the dict holds the `Histogram` of all the collection's tokens, taken document by document |
| WordCount.CountWords | bag_of_words.py:49-53 | the inner loop extends the counts of the tokens seen so far by one document's tokens |
| WordCount.HistogramCounts | bag_of_words.py:48-53 | a word is a key exactly when it is a token; its count is its number of occurrences, and at least 1 |
| WordCount.HistogramTotal | bag_of_words.py:48-53 | the counts add up to the number of tokens |
| WordCount.HistogramSnoc | bag_of_words.py:50-53 | one more token raises its count by one, or enters it with count 1 |
| WordCount.SortedKeys | bag_of_words.py:55 | `sorted(wordcount.keys())` is strictly ascending, repeats no key, and has the same keys |
| WordCount.SortedRebuild | bag_of_words.py:55-59 | the rebuilt dict has the same keys and counts as the first, and lists its keys in strictly ascending order |
| WordCount.FillInOrder | bag_of_words.py:56-59 | filling a new dict in the given key order copies every count, and its key order is that order |
| WordCount.ToTable | bag_of_words.py:61 | `pd.DataFrame(sorted_wordcount, index = [0])` takes the dict's keys, in its order, as columns, and its one row holds each column's count |
| WordCount.CountsOf | bag_of_words.py:61 | the table's row holds, column by column, the count stored for that column's word |
| WordCount.WordsCounting | bag_of_words.py:36-65 | with no word: a table of every token once, strictly ascending, each with its number of occurrences, and counts summing to the token total; with a word: its count if it is a token, else `KeyNotFound` |
| WordCount.TableTotal | bag_of_words.py:48-61 | the counts in the table's row add up to the number of tokens |
| WordCount.AllTokensAppend | bag_of_words.py:48-49 | the tokens of two collections joined are the tokens of each, in order |
| WordCount.AllTokensAreWords | bag_of_words.py:49 | no counted token is empty or holds whitespace |
| WordCount.BlankDocumentIgnored | bag_of_words.py:48-49 | an empty or whitespace-only document contributes no tokens, wherever it stands |
| WordCount.TokenOfSomeDocument | bag_of_words.py:48-49 | a word is a token of the collection exactly when it is a token of some document |
| WordCount.CountedIffInSomeDocument | bag_of_words.py:50-53 | a word is a key of the counts exactly when some document contains it as a token |
| WordCount.CountsOfConcatenation | bag_of_words.py:48-53 | a word's count over two collections joined is the sum of its counts in each |
| WordCount.CountTableUnique | bag_of_words.py:55-61 | two count tables of the same tokens are identical, so the result is deterministic |
| WordCount.TwoDocumentsExample | bag_of_words.py:45-61 | `["the cat", "the dog"]` gives columns `cat, dog, the` with counts `1, 1, 2` |
| WordCount.SpecificWordExample | bag_of_words.py:62-63 | in `["a a b"]` the word `"a"` is counted twice |
| BagOfWords.ColumnAt | bag_of_words.py:32 | a column holds, for every document, that document's entry at the column's position |
| BagOfWords.BagOfWords | bag_of_words.py:9-34 | `optional` returns the raw matrix first; otherwise a given index (0 included) selects its row whatever the word, and fails with `IndexOutOfRange` outside `[-n, n)`; otherwise a given word selects its column across all documents, and fails with `KeyNotFound` when it is not in the vocabulary; otherwise the whole table |
| BagOfWords.IndexTakesPrecedence | bag_of_words.py:29-32 | with an index given, the word passed alongside makes no difference |
| BagOfWords.RowMeetsColumn | bag_of_words.py:29-32 | the count of word `w` in row `i` is entry `i` of the column of `w` |

## Left out

- Filesystem access (`isfile`, `open`, `read`, `close`, bag_of_words.py:78-81) is I/O. The `FileText` case carries the text as `read()` returns it, so newline translation by text-mode `open` and decoding happen before the model. A failing read is not modelled.
- Inputs other than a list or a `str` are not modelled. `isfile` (bag_of_words.py:78) sees every non-list input. Depending on the input's type, the code raises `TypeError` from `isfile`, reads the input as a file path (a `pathlib.Path`, a `bytes` path, a file descriptor), or returns `[]`.
- List elements are taken to be `str`. Elements of other types are not modelled. Depending on their type, the code fails at `.split()` (bag_of_words.py:49) or splits and counts them with that type's own `split` (`bytes`).
- `CountVectorizer` tokenisation, lowercasing and feature order (bag_of_words.py:21-27) belong to a foreign library. `BagOfWords.BagOfWords` takes `fitTransform` as a parameter. It requires only the vectorizer's shape: one row per document, one entry per feature, and features named once.
- BagOfWords.BagOfWords: the vectorizer is a total function, so the `ValueError` it raises on an empty vocabulary is not modelled.
- pandas `DataFrame`/`Series` are modelled as sequences of labels and counts. Series names and index objects are dropped. A `DocumentRow` keeps the terms as its index but not the row number as its name.
- WordCount.WordsCounting: the one-value Series that `.loc[:, w]` returns is modelled as `Cell(count)`. Its row label `0` and its name are dropped.
- Python's `!= None` test on `index_of_document` is modelled by `Option`. A value that compares unequal to `None` without being an integer is not modelled.
