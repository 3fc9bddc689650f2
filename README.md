# Text batcher of the speech-synthesis client

`split_batches` in `text_to_speech.py` cuts a transcript into pieces, one
per request to the speech-synthesis service. It aims to keep each piece
within `TEXT_LENGTH_LIMIT = 240` characters (`TextToSpeech.TextLengthLimit`,
text_to_speech.py:11). The code lets a batch of several words reach 241
characters and a single word any length. The batcher works in three steps:

1. It cuts the text after every `.`, `!` and `?`. This is a regular-expression
   split on a zero-width look-behind.
2. It strips each piece and skips the empty ones. A stripped piece of at most
   240 characters is yielded whole.
3. It splits a longer piece into words. The words are batched greedily in an
   accumulator that starts empty. A word is appended after a space, unless
   the accumulator is non-empty and the accumulator plus the word (the space
   not counted) is over 240. In that case the accumulator is yielded and
   restarted with the word. A non-empty accumulator is yielded at the end.

The model has four modules.

- `PyText` restates the Python string operations the batcher uses. These
  are `str.isspace`, `strip()` and `split()` with no argument. `Concat`
  (`"".join`), `Join` (`" ".join`) and `RemoveSpaces` do not appear in the
  batcher. They are helpers for stating what it keeps. Whitespace is the
  exact set of code points for which `str.isspace()` is true:
  - U+0009–U+000D
  - U+001C–U+0020
  - U+0085, U+00A0, U+1680
  - U+2000–U+200A
  - U+2028, U+2029, U+202F, U+205F, U+3000
- `Sentences` defines the cut after terminators as a function, `Segments`. It
  proves that this function is the unique partition of the text at the
  terminators. Like `re.split`, it keeps empty pieces, and the last piece
  has no terminator.
- `TextToSpeech` holds the specification functions and the imperative
  model:
  - `Greedy` is the greedy batching of one long piece.
  - `Batches` is everything the generator yields, in order.
  - `IsGreedyBatching` is a declarative description of greedy batching.
  - `SplitBatches` is the generator as a method with its loop over the
    pieces. One turn of that loop is the method `SplitPiece`, and the inner
    loop over the words is the method `SplitLong`. All three
    are proved equal to the specification functions.
- `BatchingScenarios` works through concrete inputs.

The code has three consequences a reader may not expect:

- The first batch of an over-long piece starts with a space. The accumulator
  starts as `""` and line 69 puts a space before every word it appends.
- The test at line 65 does not count the space that line 69 adds. A batch of
  two or more words can therefore be 241 characters long.
- A text that is a single 500-character word with no `.`, `!` or `?` is
  yielded as one 501-character batch, `" " + word`, not as a 500-character
  one.

## Model

| member | source | states |
|---|---|---|
| TextToSpeech.Batches | text_to_speech.py:53-71 | Everything the generator yields, in order: the batches of each piece of the sentence split. A text of whitespace only yields nothing. |
| TextToSpeech.BatchPiece | text_to_speech.py:56-71 | One turn of the outer loop, on the piece before stripping. A piece of whitespace only is skipped. A piece never gives more batches than it has characters. |
| TextToSpeech.BatchSentence | text_to_speech.py:57-71 | The batches of one stripped piece. A piece within the limit is never split. A piece never gives more batches than it has characters. |
| TextToSpeech.Greedy | text_to_speech.py:62-71 | The inner loop as a function of the accumulator and the remaining words. It gives at most one batch per word, plus one for a non-empty accumulator. It gives nothing only when the accumulator is empty and no word remains. |
| TextToSpeech.SplitBatches | text_to_speech.py:53-71 | The generator, its loop over the pieces with each turn in `SplitPiece`, yields exactly `Batches(text)`. With whitespace deleted, the yielded batches concatenate to the input. Every batch is non-blank and within the length bound. |
| TextToSpeech.SplitPiece | text_to_speech.py:56-71 | One turn of the outer loop: strip the piece, skip it when blank, yield it whole when within the limit, and otherwise run the inner loop. It yields exactly `BatchPiece(piece)`. |
| TextToSpeech.SplitLong | text_to_speech.py:62-71 | The inner loop over the words of a long piece, with its accumulator and final flush, yields exactly `Greedy([], words)`. |
| TextToSpeech.GreedyKeepsWords | text_to_speech.py:62-71 | The words of the batches, read in order, are the accumulator's words followed by the remaining words. Every word reaches exactly one batch, and the final flush loses nothing. |
| TextToSpeech.GreedyNoEmptyBatch | text_to_speech.py:64-71 | No batch of a long piece is without a word. An accumulator is yielded only when it is non-empty. |
| TextToSpeech.GreedyBound | text_to_speech.py:65-69 | A batch of two or more words is at most 241 characters (limit + 1), because the test leaves out the appended space. A single-word batch is unbounded. |
| TextToSpeech.GreedyShape | text_to_speech.py:63-69 | Every batch is its words joined by single spaces. The first batch of a long piece is prefixed by one space. Later batches have no prefix, so with GreedyNoEmptyBatch every later batch starts with a word. |
| TextToSpeech.GreedyFits | text_to_speech.py:64-69 | Every word after the first in a batch was appended because the batch so far, plus that word, was within 240 characters. |
| TextToSpeech.GreedyBreaks | text_to_speech.py:65-67 | Every batch that is followed by another was closed because its length plus the next batch's first word is over 240. |
| TextToSpeech.GreedyIsGreedyBatching | text_to_speech.py:62-71 | The batching computed by the loop meets the declarative description `IsGreedyBatching`. |
| TextToSpeech.GreedyFill | text_to_speech.py:64-69 | Words that keep fitting are appended one after another. The accumulator then holds them joined by spaces. |
| TextToSpeech.GreedyBatchingUnique | text_to_speech.py:62-71 | Any batching that meets the declarative description is the one the loop computes. |
| TextToSpeech.GreedyCharacterized | text_to_speech.py:62-71 | A sequence of batches is the greedy batching of the words if and only if it meets the declarative description. |
| TextToSpeech.LongSentenceBatches | text_to_speech.py:59-71 | The batches of a stripped piece over the limit are characterized by the declarative description over the piece's words, in both directions. |
| TextToSpeech.BatchSentenceKeepsContent | text_to_speech.py:59-71 | The batches of one stripped piece, with whitespace deleted, concatenate to the piece with whitespace deleted. |
| TextToSpeech.BatchSentenceChunks | text_to_speech.py:57-71 | No batch of a stripped piece is blank, and every batch keeps the length bound. |
| TextToSpeech.BatchesAt | text_to_speech.py:55-71 | Piece `i` contributes its batches after those of the pieces before it and before those of the pieces after it. |
| TextToSpeech.ShortSentenceEmitted | text_to_speech.py:56-60 | A stripped piece of 1 to 240 characters is yielded exactly once, unchanged, in the order of the pieces. |
| TextToSpeech.BlankSentenceSkipped | text_to_speech.py:56-58 | A piece that is all whitespace contributes nothing. |
| TextToSpeech.BatchesKeepContent | text_to_speech.py:54-71 | With whitespace deleted, the concatenated batches equal the input text with whitespace deleted. |
| TextToSpeech.BatchesNonBlank | text_to_speech.py:56-71 | No batch is empty or all whitespace. |
| TextToSpeech.BatchesWithinBound | text_to_speech.py:59-69 | Every batch is at most 241 characters, unless it holds a single word. |
| TextToSpeech.BatchesEmptyIff | text_to_speech.py:54-58 | The generator yields nothing exactly when the input is empty or all whitespace. |
| Sentences.Segments | text_to_speech.py:54 | `re.split` on the look-behind gives at least one piece, even for the empty text. It gives at most one piece more than the text has characters, because every cut follows a character. |
| Sentences.SegmentsPartition | text_to_speech.py:54 | The pieces concatenate to the text. Every piece but the last ends with its only terminator. The last piece has no terminator. |
| Sentences.SegmentsUnique | text_to_speech.py:54 | Any partition with that property is the segmentation, so the cut is exactly "after every terminator". |
| Sentences.SegmentsOfPlain | text_to_speech.py:54 | A text without terminators is a single piece. |
| PyText.IsSpace | text_to_speech.py:56 | The whitespace of `strip()` and `split()`. It includes space, tab, line feed and carriage return. It includes no ASCII letter or digit and no sentence terminator, so stripping never removes a terminator. |
| PyText.Strip | text_to_speech.py:56 | `strip()` never lengthens the text. What it keeps is empty or neither starts nor ends with whitespace. |
| PyText.StripSpec | text_to_speech.py:56 | `strip()` removes a whitespace prefix and a whitespace suffix and nothing else. With `Strip`'s own contract on the ends, this determines it. |
| PyText.StripKeepsContent | text_to_speech.py:56 | `strip()` removes only whitespace. |
| PyText.StripEmptyIff | text_to_speech.py:56-58 | A stripped piece is empty exactly when the piece is all whitespace. |
| PyText.Words | text_to_speech.py:62 | `split()` separates its words by whitespace. A text of n characters therefore has at most (n + 1) / 2 words. |
| PyText.WordsAreWords | text_to_speech.py:62 | `split()` yields only non-empty words without whitespace. |
| PyText.WordsKeepContent | text_to_speech.py:62 | The words concatenate to the text with whitespace deleted. |
| PyText.WordsEmptyIff | text_to_speech.py:62 | `split()` yields no words exactly when the text is all whitespace. |
| PyText.WordsSplitAtSpace | text_to_speech.py:62 | The words on both sides of a whitespace character are split separately. |
| PyText.WordsSnoc | text_to_speech.py:69 | Appending `" " + word` to the accumulator adds exactly that word to its words. |
| PyText.WordsOfJoin | text_to_speech.py:62 | `" ".join(ws).split() == ws` when every element is a word. |
| PyText.JoinLength | text_to_speech.py:69 | Words of length `n` joined by single spaces take `(n + 1) * count - 1` characters. |
| BatchingScenarios.Greeting | text_to_speech.py:53-71 | `"Hello world. This is a test!"` gives `["Hello world.", "This is a test!"]`. |
| BatchingScenarios.LongWordAlone | text_to_speech.py:59-71 | A text that is one word longer than the limit, with no `.`, `!` or `?`, is yielded whole as `" " + word`, one character longer than the word. |
| BatchingScenarios.FiveHundredCharacterWord | text_to_speech.py:59-71 | A text that is one 500-character word with no `.`, `!` or `?` gives one 501-character batch. |
| BatchingScenarios.TenWords | text_to_speech.py:62-71 | Ten 30-character words with no `.`, `!` or `?`, joined by single spaces, give a 217-character batch of seven words, with the leading space, then a 92-character batch of three words. |
| BatchingScenarios.OffByOne | text_to_speech.py:65-69 | Words of 119, 120 and 1 characters with no `.`, `!` or `?`, joined by single spaces, give a first batch of 241 characters, one over the limit. |

## Left out

- `synthesize_batch` (text_to_speech.py:14-50) is a gRPC call. It reads an API key from the environment and drains a response stream. That is foreign I/O.
- `synthesize` and the command-line entry point (text_to_speech.py:74-93) issue one remote call per batch and read and write files. Only the batches they send are modelled.
- The speech-recognition, audio-extraction, summarization and driver scripts have no logic of their own outside vendor calls and files. They are not part of this model.
- The generator is modelled as the sequence it yields, in yield order. Its laziness, and the interleaving with the remote calls that consume it, are not modelled.
- `Segments` follows `re.split` as in Python 3.7 and later, which splits on empty matches. On Python 3.5 and 3.6, a pattern that only matches the empty string, as this look-behind does, makes `re.split` raise `ValueError`. That version is not modelled.
- The `re` engine is not modelled. The one pattern used is specified directly as the cut after every terminator.
- Idempotence of `split_batches` is not stated. The model is a function of its input, so repeated calls give equal results by construction.
