# Seq2seq preprocessing: tokenizer, vocabulary and fixed-length encoders

This project models the text-to-index pipeline of a chatbot data preprocessor
(`preprocess.py`) in Dafny and proves its data contracts:

- **Tokenizer** (`tokenizer.dfy`, module `Tokenizer`). Each character of the
  filter class `~ . , ! ? " ' : ; ) (` is deleted, not replaced by a space
  (`Tokenizer.StripFiltersDeletes`), so `a.b` is the single token `ab`.
  The text is then split on whitespace runs, and the tokens of every sentence
  are concatenated in order.
- **Vocabulary** (`vocabulary.dfy`, module `Vocabulary`). Questions and answers
  form one corpus. Its tokens are deduplicated and the markers
  `<PAD>, <SOS>, <EOS>, <UNK>` are put in front. The list is then enumerated
  into a word-to-index map and an index-to-word map, and the size is the
  number of entries in the first map.
- **Encoders** (`encoder.dfy`, module `Encoder`). There are three encoders:
  encoder input, decoder input (SOS first) and decoder target (EOS after the
  words). Each turns a list of sentences into rows of exactly
  `MAX_SEQUENCE = 25` indices. Unknown words become UNK's index, long
  sentences are truncated and short ones are padded with PAD's index.
- `seqs.dfy` (module `Seqs`) holds the sequence helpers they share:
  element set, duplicate-freedom, flattening and deleting the elements of a
  class (used for both the filter class and whitespace).

Modelling choices:

- Whitespace is the fixed set of characters Python's `str.split()` treats as
  separators: ASCII `\t \n \v \f \r`, `\x1c`–`\x1f` and space, plus `\x85`,
  `\xa0`, U+1680, U+2000–U+200A, U+2028, U+2029, U+202F, U+205F and U+3000.
- `list(set(words))` has no fixed order, so the model takes that order as a
  parameter `order`. It may be any duplicate-free sequence with exactly the
  corpus's element set (`IsDedupOf`). `FirstOccurrences` builds one such
  order, so the precondition can always be met.
- A dictionary is a `map<string, int>`, and an encoded row is a `seq<int>`
  instead of a numpy array row.
- Python's dict comprehension keeps the last index of a word that occurs
  twice. `WordToIndex` models this by overwriting left to right.

The constants `PAD_INDEX`..`UNK_INDEX` (preprocess.py:15-18) suggest fixed indices, but the code does not guarantee them:

- The filter class contains no `<` or `>`. So a corpus word spelled
  `<PAD>` (or like any other marker) is a legal token.
- The vocabulary list then holds that word twice. Its later occurrence wins,
  and the marker loses its fixed index (`Vocabulary.CorpusMarkerShadowsIndex`).
- The size is therefore 4 plus the number of distinct corpus words that are
  not markers (`Vocabulary.BuildVocabulary`). It is not always 4 plus the
  distinct word count.
- The fixed indices 0 to 3, and "exactly one EOS/SOS", are proved only under
  the hypothesis that no word is spelled like a marker (`Vocabulary.MarkerIndices`,
  `Encoder.DecTargetSingleEos`, `Encoder.DecOutputSingleSos`).

## Model

| member | source | states |
|---|---|---|
| Tokenizer.StripFilters | preprocess.py:41 | the result contains no filter character and is never longer than the input |
| Tokenizer.StripFiltersAppend | preprocess.py:41 | deleting filter characters commutes with concatenation |
| Tokenizer.StripFiltersDeletes | preprocess.py:41 | a filter character is replaced by nothing: the text on its two sides closes up with no space between |
| Tokenizer.StripFiltersKeeps | preprocess.py:41 | every character outside the filter class stays in place; with the previous row and the length bound this determines the result for every input |
| Tokenizer.StripFiltersKeepsClean | preprocess.py:41 | a string without filter characters is returned unchanged |
| Tokenizer.StripFiltersIdempotent | preprocess.py:41 | applying the filter twice is the same as once |
| Tokenizer.SplitWords | preprocess.py:42 | every word of `split()` is non-empty and whitespace-free, and filter-free when the input is |
| Tokenizer.SplitWordsKeepsContent | preprocess.py:42 | the words concatenated give back the input with only its whitespace deleted |
| Tokenizer.SplitWordsAtSpace | preprocess.py:42 | every whitespace character, not only the space, is a word boundary: splitting at it splits the two sides independently |
| Tokenizer.SplitJoinRoundTrip | preprocess.py:42 | non-empty whitespace-free words joined by spaces split back into the same words |
| Tokenizer.SentenceTokens | preprocess.py:41-42 | every token of a sentence is non-empty, without whitespace and without filter characters |
| Tokenizer.SentenceTokensExample | preprocess.py:41-42 | `12시 땡!` tokenizes to `12시`, `땡`: the glued `!` is deleted |
| Tokenizer.GluedPunctuationExample | preprocess.py:41-42 | `a.b` tokenizes to the single token `ab`: punctuation inside a word fuses its halves |
| Tokenizer.Gather | preprocess.py:36-43 | the list the loop builds holds only legal tokens: non-empty, without whitespace and without filter characters |
| Tokenizer.DropEmpty | preprocess.py:46 | the comprehension keeps exactly the non-empty words of its input, and returns a list without empty words unchanged |
| Tokenizer.DropEmptyAppend | preprocess.py:46 | the comprehension works word by word, so the kept words stay in input order |
| Tokenizer.Tokenize | preprocess.py:34-46 | `data_tokenizer` never emits an empty token, a filter character or whitespace |
| Tokenizer.TokenizeIsGather | preprocess.py:46 | the final empty-word filter removes nothing |
| Tokenizer.TokenizeConcatenates | preprocess.py:36-43 | the corpus tokens are the per-sentence token lists concatenated, with sentence order and word order kept |
| Tokenizer.TokenizeAppend | preprocess.py:36-43 | tokenizing two sentence lists one after the other equals tokenizing their concatenation |
| Vocabulary.MarkersDistinct | preprocess.py:10-20 | the four markers are pairwise different |
| Vocabulary.CorpusWords | preprocess.py:60-65 | every corpus word (questions, then answers) is a legal token |
| Vocabulary.FirstOccurrences | preprocess.py:67 | every token list has a duplicate-free order with exactly its element set |
| Vocabulary.VocabularyList | preprocess.py:65-74 | the markers occupy positions 0..3 and the deduplicated order follows them, the elements are the markers plus the corpus words, and the length is 4 plus the distinct word count |
| Vocabulary.WordToIndex | preprocess.py:96 | the keys are the listed words, each maps to a position holding that word, and no later position holds it |
| Vocabulary.IndexToWord | preprocess.py:99 | the keys are exactly the positions 0..n-1 and each position maps to the word listed there, duplicates included |
| Vocabulary.MakeVocabulary | preprocess.py:87-101 | every listed word has an index that maps back to it, no two words share an index, and the size is the number of distinct words |
| Vocabulary.NoDupIndex | preprocess.py:96 | in a duplicate-free list a word's index is its position |
| Vocabulary.IndexWordRoundTrip | preprocess.py:90-101 | on a duplicate-free list each position maps to a word that maps back to that position, and the size is the list length |
| Vocabulary.LoadVocabulary | preprocess.py:48-90 | the questions' and answers' tokens and the markers are exactly the keys, every key is a marker or a legal token, and the size is 4 plus the distinct non-marker corpus words |
| Vocabulary.BuildVocabulary | preprocess.py:67-90 | all four markers are indexed, the indexed words are the markers plus the corpus words, and the size is 4 plus the distinct non-marker corpus words |
| Vocabulary.PrefixedNoDup | preprocess.py:67-74 | the markers followed by a deduplicated corpus without marker-spelled words has no duplicates |
| Vocabulary.MarkerIndices | preprocess.py:15-20 | when no corpus word is spelled like a marker, PAD, SOS, EOS and UNK get 0, 1, 2, 3 and the size is 4 plus the distinct word count |
| Vocabulary.CorpusMarkerShadowsIndex | preprocess.py:67-96 | a corpus word spelled like a marker makes that marker's index 4 or more |
| Encoder.Lookup | preprocess.py:113-116 | a known word gets its own index and an unknown one UNK's index, so the result is always an index the dictionary hands out |
| Encoder.Padding | preprocess.py:123 | `n * [dictionary[PAD]]` has length n and holds PAD's index everywhere |
| Encoder.WordIndices | preprocess.py:112-116 | one index per word, the word's own index when known and UNK's index otherwise |
| Encoder.EncRow | preprocess.py:108-125 | length 25: the first min(n,25) word indices (UNK for unknown words), then PAD's index |
| Encoder.DecOutputRow | preprocess.py:134-150 | length 25: SOS's index at 0, the first min(n,24) word indices at 1.., then PAD's index |
| Encoder.DecTargetRow | preprocess.py:157-173 | length 25: the first min(n,24) word indices, EOS's index at min(n,24), then PAD's index; both length branches agree |
| Encoder.EncProcessing | preprocess.py:103-127 | one row per sentence, each of length 25, row i encoding sentence i alone |
| Encoder.DecOutputProcessing | preprocess.py:130-152 | one row per sentence, each of length 25, row i encoding sentence i alone |
| Encoder.DecTargetProcessing | preprocess.py:154-175 | one row per sentence, each of length 25, row i encoding sentence i alone |
| Encoder.DecoderShift | preprocess.py:140-167 | the decoder input is the decoder target shifted one right behind SOS, and both agree with the encoder input on the kept words |
| Encoder.EncRowHasNoSosEos | preprocess.py:112-123 | when SOS and EOS own their indices and the sentence never spells them, the encoder row contains neither index |
| Encoder.DecTargetSingleEos | preprocess.py:161-170 | under the same hypothesis for EOS, EOS's index occurs at position min(n,24) and nowhere else |
| Encoder.DecOutputSingleSos | preprocess.py:140-147 | under the same hypothesis for SOS, SOS's index occurs at position 0 and nowhere else |
| Encoder.BuiltVocabularyEncodes | preprocess.py:87-123 | a vocabulary built from any corpus has all markers, SOS and EOS own their indices, so such a sentence encodes without SOS or EOS |
| Encoder.UnknownWordsExample | preprocess.py:109-123 | `12시 땡!` with both words unknown encodes to two UNK indices followed by 23 PAD indices |

## Left out

- `load_data` and the CSV read are pandas I/O. The model takes the question and answer lists as inputs, and cells that are not strings are not modelled.
- Writing the vocabulary file, reading it back with `line.strip()`, and the `os.path.exists` gating are file I/O. This includes the path where neither file exists and the word list is undefined. The model assumes the written list reads back unchanged, which holds because no token or marker contains whitespace (`Tokenizer.Tokenize`).
- The concrete iteration order of `set(words)` is implementation-defined. It is a parameter constrained only by uniqueness and the element set.
- `np.asarray` conversion, and the unused `json` and `tqdm` imports.
- Whitespace is the fixed character set listed above. Python's classification for future Unicode versions is not modelled.
- Encoder.Lookup: requires UNK in the dictionary even for a known word, but the source looks up UNK only when the word is unknown; the KeyError of a dictionary without UNK is not modelled.
- Encoder.WordIndices: requires UNK in the dictionary for every word list, for the same reason as `Encoder.Lookup`.
- Encoder.EncRow: requires UNK in the dictionary for every sentence, but the source looks up UNK only when a word is unknown; the KeyError of a dictionary without UNK is not modelled.
- Encoder.DecOutputRow: requires UNK in the dictionary for every sentence, for the same reason as `Encoder.EncRow`.
- Encoder.DecTargetRow: requires UNK in the dictionary for every sentence, for the same reason as `Encoder.EncRow`.
- Encoder.EncProcessing: requires UNK in the dictionary, as `Encoder.EncRow` does.
- Encoder.DecOutputProcessing: requires UNK in the dictionary, as `Encoder.DecOutputRow` does.
- Encoder.DecTargetProcessing: requires UNK in the dictionary, as `Encoder.DecTargetRow` does.
