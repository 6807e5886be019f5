# WordsDataset: a Dafny model of the word dataset and its batch collator

This project models `words_dataset.py` from a character-level word generator.
The file has two parts.

- **`WordsDataset`** holds a word vocabulary: `word2idx`, `idx2word`, and an
  embedding matrix with one row per word index. It also holds a character
  vocabulary, `char2idx` and `idx2char`, whose keys include the reserved keys
  `'START'` and `'END'`. When the dataset is built, every vocabulary word is
  framed as `[char2idx['START']] + [char2idx[c] for c in word] + [char2idx['END']]`.
  After that, `__len__` and `__getitem__` only read the tables.
- **`collate_words_samples`** turns a list of samples into a batch. It
  stable-sorts the samples by descending word length. It then takes the words
  and embedding rows in that order. Finally it cuts every framed sequence into
  a decoder input (`x[:-1]`) and a decoder target (`x[1:]`).

The Dafny modules follow that split:

- `Framing` (framing.dfy) frames one word. It also decodes a framed word
  through `idx2char`, and reports which dictionary lookup raises `KeyError`.
- `Dataset` (dataset.dfy) holds the `WordsDataset` class. Its constructor loop
  appends one framed sequence per vocabulary index. `Len` and `GetItem` are
  read-only. The module also has the pure functions that say when construction
  fails, and with which missing key.
- `Collation` (collation.dfy) holds the stable sort by descending word length
  (an insertion sort) and the collated `Batch`. It proves that the sort is
  sorted, a permutation, and stable. It also proves that the sort is the only
  ordering of the samples with those properties.

Modelling choices:

- `char2idx` is a `map<string, int>`. In the source its keys are
  one-character strings plus `"START"` and `"END"`, so a character `c` is
  looked up as `[c]`.
- An embedding row is a value of the type parameter `E`. The embedding matrix
  is a `seq<E>`.
- Python's `x[:-1]` and `x[1:]` are total: both give `[]` for an empty
  sequence. The model copies that behaviour.

Two behaviours of the code that the model keeps:

- `x[:-1]` and `x[1:]` do not fail on short sequences: for an indexed word
  of fewer than two elements they give an empty list. The model's `DropLast`
  and `DropFirst` do the same. What `pack_sequence` (lines 117-118) does with
  an empty sequence is outside the model. Every sample the dataset produces
  has at least two elements (`GetItem`), so every decoder input and target
  built from such samples is non-empty (`CollateFramed`).
- Construction fails only on a missing key; it does not check that
  `idx2char` and `char2idx` are inverse to each other (`Buildable`,
  `ConstructionError`). The round trip through `idx2char` is proved under
  the explicit hypothesis that `idx2char` inverts `char2idx` (`Inverts`).

## Model

| member | source | states |
|---|---|---|
| `Framing.CharIndices` | words_dataset.py:59 | one index per character, in order: element `j` is `char2idx[word[j]]` |
| `Framing.FrameWord` | words_dataset.py:57-60 | the framed sequence has length `|word| + 2`, starts with `char2idx['START']`, ends with `char2idx['END']`, and element `j + 1` is the index of character `j` |
| `Framing.FirstMissingChar` | words_dataset.py:59 | gives no character exactly when every character of the word has an index; otherwise gives the leftmost character without one |
| `Framing.FrameError` | words_dataset.py:58-60 | framing raises no KeyError exactly when START, END and every character are keys; otherwise it reports the first failing lookup: START exactly when START is missing; else the leftmost character without an index; END exactly when START and all characters are present but END is not |
| `Framing.DecodeCharIndices` | words_dataset.py:59 | when `idx2char` inverts `char2idx`, mapping the character indices back through `idx2char` reproduces the word |
| `Framing.UnframeFrameWord` | words_dataset.py:57-60 | round trip: strip START and END from the framed word, decode the middle, and the result is the original word |
| `Framing.FrameWordInjective` | words_dataset.py:57-60 | with an inverse vocabulary, two words have the same framed sequence if and only if they are the same word |
| `Dataset.WordError` | words_dataset.py:56-60 | processing index `i` raises nothing exactly when `idx2word` has `i` and its word can be framed; a missing `i` is reported as the missing word index `i`; a missing char key is reported only when `i` has a word, and that key is absent from `char2idx` |
| `Dataset.FirstErrorFrom` | words_dataset.py:55-60 | the loop over `i .. n-1` raises nothing exactly when no index fails; otherwise it raises the error of the first index that fails |
| `Dataset.ConstructionError` | words_dataset.py:54-65 | construction raises nothing exactly when `Buildable` holds; otherwise it raises the error of the first index `k` that fails, every index below `k` succeeding. A missing word index it reports lies in `0 .. N-1` and is absent from `idx2word`; a missing char key it reports is absent from `char2idx` |
| `Dataset.WordsDataset.constructor` | words_dataset.py:39-65 | keeps the in-memory tables and builds exactly `len(word2idx)` framed sequences, the i-th from `idx2word[i]`, each with START first, END last and the word's character indices in between |
| `Dataset.WordsDataset.Len` | words_dataset.py:69-70 | the count equals the number of framed words, and every index below it has a word in `idx2word` |
| `Dataset.WordsDataset.GetItem` | words_dataset.py:72-84 | returns `idx2word[idx]`, `indexed_words[idx]` and `embed[idx]`; the indexed word is the framing of the returned word, has length `|word| + 2`, and decodes back to the word when `idx2char` inverts `char2idx` |
| `Collation.WordsOf` | words_dataset.py:106 | the words of the samples, one per sample, in the same order |
| `Collation.Insert` | words_dataset.py:105 | inserting into the sorted prefix adds exactly one element, and the new head is either the inserted sample or the old head |
| `Collation.InsertSorted` | words_dataset.py:105 | inserting into a sequence sorted by non-increasing word length keeps it sorted |
| `Collation.InsertPermutes` | words_dataset.py:105 | inserting adds exactly the inserted sample to the multiset of samples |
| `Collation.InsertWithLength` | words_dataset.py:105 | for every length `n`, the inserted sample joins the END of the class of samples of length `n`; the classes of other lengths do not change |
| `Collation.SortByLength` | words_dataset.py:105 | the sorted samples have non-increasing word lengths and are a permutation (same multiset) of the input |
| `Collation.SortByLengthStable` | words_dataset.py:105 | stability: for every length, the samples of that length appear in the output in their input order |
| `Collation.SortByLengthWords` | words_dataset.py:105-106 | the sorted words are a permutation of the input words |
| `Collation.SortedClassesDetermine` | words_dataset.py:105 | two sequences sorted by non-increasing length that have the same length classes are equal |
| `Collation.StableSortUnique` | words_dataset.py:105 | any ordering that is sorted by non-increasing length and stable is exactly `SortByLength`, so the model agrees with Python's stable `sorted` |
| `Collation.DropLast` | words_dataset.py:114 | `x[:-1]`: appending the last element gives back `x`; empty for empty `x` |
| `Collation.DropFirst` | words_dataset.py:115 | `x[1:]`: prepending the first element gives back `x`; empty for empty `x` |
| `Collation.ShiftAligned` | words_dataset.py:114-115 | input and target both have length `|x| - 1`; `target[j] == input[j + 1]`; the input starts with `x[0]` and the target ends with the last element of `x` |
| `Collation.Collate` | words_dataset.py:105-115 | all four lists have one entry per sample; the words have non-increasing length and are a permutation of the input words; entry `k` of words, embeddings, inputs and targets all come from the same k-th stably sorted sample |
| `Collation.SortKeepsFramed` | words_dataset.py:105 | sorting keeps the samples, so if every input sample is correctly framed, every sorted sample is too |
| `Collation.ShiftFramed` | words_dataset.py:97-100 | for a framed sample, the input is START followed by the character indices, and the target is the character indices followed by END |
| `Collation.CollateFramed` | words_dataset.py:97-115 | for samples taken from the dataset, every decoder input is START plus the word's character indices, and every target is those indices plus END; every input and target is non-empty, and inputs and targets have non-increasing lengths, as packing requires (lines 103-104) |
| `Collation.ExampleFraming` | words_dataset.py:57-60 | with `{START:0, END:1, a:2, b:3, c:4}`, "ab" frames to `[0,2,3,1]` and "c" frames to `[0,4,1]` |
| `Collation.ExampleSorted` | words_dataset.py:105 | a one-character sample followed by a two-character sample sorts to the longer one first |
| `Collation.ExampleBatchOrder` | words_dataset.py:105-112 | collating `["c", "ab"]` gives words `["ab", "c"]`, with the embedding rows in the same order |
| `Collation.ExampleBatchShift` | words_dataset.py:114-115 | the same batch has inputs `[[0,2,3],[0,4]]` and targets `[[2,3,1],[4,1]]` |
| `Collation.ExampleStable` | words_dataset.py:105 | two samples whose words have equal length keep their input order |

## Left out

- Loading the two tuples with `torch.load` from `word2vec_file` and `charidx_file` (lines 41-42, 49-50): file I/O and deserialisation. Only the in-memory branch is modelled (lines 39-40, 47-48). In-memory values take precedence there, as in the source.
- Placing tensors on a device and clearing `requires_grad` (lines 43-44, 61, 63): framework state with no effect on values.
- The logger and its messages (lines 19, 45, 51, 67): side effects only.
- Embedding contents are floating-point tensors. Each row is an opaque value of the type parameter `E`.
- `torch.stack(...).view(1, len(samples), -1)` (lines 110-112) is modelled only as "the embedding rows in sorted order". The tensor shape is not modelled.
- `nn.utils.rnn.pack_sequence` (lines 117-118) is a library call. The model stops at the two lists of sequences passed to it.
- Python's sort is Timsort, not insertion sort. The model uses insertion sort. `StableSortUnique` proves that every stable sort by descending length gives the same order.
- Dataset.WordsDataset.constructor: a KeyError during construction is a precondition (`Buildable`), because a Dafny constructor cannot fail. Which key is missing is modelled separately by `ConstructionError`.
- Dataset.WordsDataset.constructor: `torch.LongTensor` (line 57) stores the indices as 64-bit integers and raises for a `char2idx` value outside that range; the model's indices are unbounded `int`s and that error is not modelled.
- Dataset.WordsDataset.GetItem: `idx` is a `nat` below `Len()` and below the number of embedding rows. The `int(idx)` coercion, negative indices, and out-of-range errors of line 80-83 are preconditions rather than error results.
- Collation.Collate: it requires a non-empty list of samples, because `torch.stack` raises on an empty list.
