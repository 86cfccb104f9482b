# Greedy caption decoding of the image caption generator

This project models the heart of `generate_and_display_caption`: the greedy
decoding loop and the clean-up that turns the running text into the caption.

- The running text starts as `"startseq"`.
- `for _ in range(max_length)`, each step does the following:
  - tokenizes the running text;
  - pads the ids to `max_length` with the Keras `pad_sequences` defaults;
  - asks the caption model for a row of scores;
  - takes the first maximum (`np.argmax`);
  - looks that index up in `tokenizer.index_word`.
- An unknown index or the word `"endseq"` ends the loop. Any other word is
  appended after one space.
- The caption is the running text with every `"startseq"` and then every
  `"endseq"` removed, stripped of surrounding whitespace.

The tokenizer, the caption model and the image features are opaque. They are
passed in as a `Decoding.Model` value: a `tokenize` function, a `predict`
function, the features, and the `index_word` map.

The modules are:

- `PyStr`: Python's `str.replace(p, "")` and `str.strip()`.
- `Padding`: `pad_sequences` for one sequence.
- `Argmax`: `np.argmax` over one row of scores.
- `Decoding`: the loop, in two forms.
  - `Greedy` and `Decode` are a pure reference.
  - `GenerateCaption` is a method that mirrors the loop as written. It is
    proved to produce the same outcome.
- `CaptionText`: what the clean-up makes of the running text.
- `Scenarios`: two concrete end-to-end runs with a four-word vocabulary.

The model follows the code on counts. `range(max_length)` runs `max_length`
times, so a decoder that never answers `"endseq"` gets `max_length` words
appended (`Decoding.NeverStoppingFillsBudget`).

A tokenizer fitted on captions wrapped in `"startseq"` and `"endseq"` maps an
id to each marker, so the decoder can append the word `"startseq"`.
- The first `replace` empties such a word but keeps the spaces around it.
  The running text `"startseq a startseq dog"` cleans up to `"a  dog"`, with
  two spaces (`Scenarios.AppendedStartMarkerLeavesDoubleSpace`).
- The caption holds no marker for every vocabulary whose appendable words
  either are `"startseq"` itself or have neither marker inside them, whatever
  whitespace they hold (`CaptionText.MarkerFreeVocabularyCaption`). The
  markers have no space in them, so none can straddle the space between two
  words. The example vocabulary is of this kind
  (`Scenarios.ExampleVocabularyIsMarkerFree`).
- Python's `replace` is a single left-to-right pass, so removing `"endseq"`
  can join the pieces around it into a new `"startseq"`.
  `CaptionText.MarkerCanSurviveCleanUp` exhibits such a word.

## Model

| member | source | states |
|---|---|---|
| Decoding.GenerateCaption | main.py:26-37 | The loop as written yields exactly the outcome of the reference decoder and queries the caption model as often as the reference run does, which is never more than `max_length` times; for `max_length <= 0` it makes no query and the caption is `""`; a caption never starts or ends with whitespace |
| Decoding.Decode | main.py:27-37 | With a non-positive `max_length` the caption is `""`; any caption produced has no leading or trailing whitespace |
| Decoding.Greedy | main.py:28-36 | The appended words only grow, never change; at most `remaining` queries and at least one when an iteration is left; the budget is spent exactly when `remaining` words were appended; a run that stops early made one query more than it appended words |
| Decoding.GreedyFollowsNextWord | main.py:29-36 | Every appended word is the choice one iteration makes for the running text before it, and an early stop is the halting choice for the final running text |
| Decoding.Budget | main.py:28 | `range(max_length)` runs no iteration exactly when `max_length <= 0`, and otherwise runs `max_length` of them |
| Decoding.RunningText | main.py:27-36 | `in_text` after some appends: `"startseq"` followed by each appended word after one space. Its properties are stated by `Decoding.TextGrowsByWord` and `Decoding.RunningTextPrefix` |
| Decoding.Scores | main.py:29-31 | The caption model's scores for the features and the tokenized running text, pre-padded to `max_length`. Its property is stated by `Decoding.ScoresSeeLastIds` |
| Decoding.ScoresSeeLastIds | main.py:29-31 | The caption model sees only the last `max_length` token ids: two running texts whose token lists end alike there get the same scores |
| Decoding.NextWord | main.py:29-33 | An iteration raises exactly when the score row is empty; otherwise its choice is the `index_word` lookup of the first maximum of the scores for the padded, tokenized text |
| Argmax.FirstMaxIsArgMax | main.py:32 | Every first-maximum position of a non-empty row is the one `ArgMax` returns |
| Decoding.Lookup | main.py:33-35 | A word is appended exactly when the index is in `index_word` and its word is not `"endseq"`, and then it is that word; an absent index stops with that index and `"endseq"` stops with the end marker |
| Decoding.GreedyHalts | main.py:34-35 | A halting step ends the run after one query with the words unchanged, so nothing is appended on that step |
| Decoding.GreedyAppends | main.py:36 | An appending step costs one query and the run continues from the words with the new word at the end |
| Decoding.TextGrowsByWord | main.py:36 | Appending a word extends the running text by exactly one space and the word |
| Decoding.RunningTextPrefix | main.py:27-36 | The running text always starts with `"startseq"`, and the text after fewer appends is a prefix of the text after more |
| Decoding.Clean | main.py:37 | The clean-up result has no leading or trailing whitespace and is never longer than the running text |
| Decoding.CleanOfNoWords | main.py:27-37 | Before any word is appended the running text is the bare `"startseq"`, and it cleans up to the empty caption |
| Decoding.FirstStepStopGivesEmptyCaption | main.py:27-37 | If the first iteration stops on an unknown index or `"endseq"`, the caption is `""` after exactly one query |
| Decoding.NeverStoppingFillsBudget | main.py:28-36 | If no iteration can stop, the run spends the whole budget and appends exactly `max_length` words |
| Decoding.BudgetSpentIffNoStop | main.py:28-36 | The run spends the whole budget exactly when every iteration it made, on the running text of the words appended before it, chose to append |
| Decoding.DecodeBounds | main.py:28-36 | At most `max_length` queries and at most `max_length` appended words, each of them a value of `index_word` other than `"endseq"` |
| Decoding.AppendedWordIsVocabulary | main.py:33-36 | A word an iteration appends is a vocabulary entry other than `"endseq"` |
| Argmax.ArgMax | main.py:32 | The result is a position in the row that holds the maximum score, with every earlier score strictly smaller (the first maximum) |
| Argmax.FirstMaxUnique | main.py:32 | Only one position is the first maximum, so ties are broken towards the lowest index |
| Argmax.FirstMaxExists | main.py:32 | Every non-empty row has a first maximum |
| Padding.PadPre | main.py:30 | The padded row has exactly `max_length` entries; zeros fill the front and the ids are right-aligned, so a long id list keeps only its last `max_length` ids |
| Padding.PadPreShort | main.py:30 | A short id list appears in full, in order, at the end of the row, after a block of zeros |
| Padding.PadPreLong | main.py:30 | A long id list is cut to its last `max_length` ids |
| Padding.PadPreExactWidth | main.py:30 | An id list that already has the width passes through unchanged |
| Padding.PadPreIdempotent | main.py:30 | Padding a padded row again changes nothing |
| PyStr.StripLeft | main.py:37 | The result is a suffix of the text, what was dropped is all whitespace, and the result does not start with whitespace |
| PyStr.StripRight | main.py:37 | The result is a prefix of the text, what was dropped is all whitespace, and the result does not end with whitespace |
| PyStr.Strip | main.py:37 | The result has no leading or trailing whitespace and is never longer than the text |
| PyStr.StripTrims | main.py:37 | `strip` removes only a whitespace prefix and a whitespace suffix, and it yields `""` exactly when the text is all whitespace |
| PyStr.StripKeepsEdgeFree | main.py:37 | Text without edge whitespace is left unchanged |
| PyStr.StripLeadingSpace | main.py:37 | A leading space makes no difference to the stripped text |
| PyStr.StripOneSpace | main.py:37 | One space in front of edge-free text is all that is removed |
| PyStr.RemoveAll | main.py:37 | The removal never lengthens the text, and it shortens it by at least the pattern length when the text starts with the pattern |
| PyStr.RemoveAllUnchangedIff | main.py:37 | The removal leaves the text unchanged exactly when the pattern does not occur in it |
| PyStr.ContainedPatternShrinks | main.py:37 | If the pattern occurs, the text gets strictly shorter |
| PyStr.AbsentPatternKept | main.py:37 | If the pattern does not occur, the text is unchanged |
| PyStr.RemoveAllLeadingPattern | main.py:37 | A pattern at the front is dropped and the scan resumes right after it |
| PyStr.RemoveAllSkipsFront | main.py:37 | Text containing no first character of the pattern is copied, and the scan continues after it |
| PyStr.NoPatternInStrip | main.py:37 | Stripping cannot create an occurrence of a pattern |
| PyStr.NoPatternInSlice | main.py:37 | A pattern absent from a text is absent from every slice of it |
| PyStr.NoPatternInShortText | main.py:37 | A pattern does not occur in a text shorter than itself |
| PyStr.ShortTextKept | main.py:37 | Text shorter than the pattern is unchanged |
| PyStr.RemoveAllKeepsCleanWord | main.py:37 | A word without the pattern, followed by nothing or a space, survives the removal intact when the pattern has no space |
| CaptionText.RemoveMarkerKeepsSpaced | main.py:36-37 | Removing a space-free pattern from spaced words, none of which contains it, changes nothing |
| CaptionText.JoinEdgeFree | main.py:36-37 | Clean words joined by single spaces have no edge whitespace |
| CaptionText.MarkersRemoved | main.py:37 | For clean words both removals leave exactly the spaced words, with the leading `"startseq"` gone |
| CaptionText.ErasedKeepsCleanWords | main.py:37 | No clean word is `"startseq"`, so the first removal empties none of them |
| CaptionText.CaptionOfCleanWords | main.py:36-37 | For clean words the caption is exactly the words joined by single spaces |
| CaptionText.NoPatternInJoin | main.py:36-37 | A space-free pattern that no word contains does not occur in the words joined by spaces |
| CaptionText.CaptionOfCleanWordsHasNoMarker | main.py:37 | For clean words neither `"startseq"` nor `"endseq"` occurs in the caption |
| CaptionText.CleanVocabularyCaption | main.py:27-37 | With a vocabulary of clean words, the caption is the appended words joined by single spaces (or `argmax` raised) and it holds neither marker |
| CaptionText.RemovePatternWords | main.py:37 | Removing a space-free pattern from spaced words, each of which is the pattern or does not contain it, empties exactly the words equal to the pattern and keeps every space |
| CaptionText.RemoveSpacedWord | main.py:37 | One spaced word is emptied if it is the pattern and survives intact otherwise, and the scan continues after it |
| CaptionText.ErasedWordsLackMarkers | main.py:37 | For words that are `"startseq"` or hold neither marker, once the `"startseq"` words are emptied no word contains either marker |
| CaptionText.MarkerFreeRemovals | main.py:37 | For words that are `"startseq"` or hold neither marker, whatever whitespace they contain, both removals leave the spaced words with every `"startseq"` word emptied and the leading `"startseq"` gone |
| CaptionText.CaptionOfMarkerFreeWords | main.py:36-37 | For words that are `"startseq"` or hold neither marker, whatever whitespace they contain, the caption is those spaced words, with the `"startseq"` words emptied, stripped; it holds neither marker |
| CaptionText.MarkerFreeVocabularyCaption | main.py:27-37 | With a vocabulary whose appendable words are `"startseq"` or hold neither marker (empty words and words with whitespace included), the caption is the stripped spaced words with each appended `"startseq"` emptied (or `argmax` raised), and it holds neither marker |
| CaptionText.MarkerCanSurviveCleanUp | main.py:37 | The single-word text `"startseq startendseqseq"` cleans up to `"startseq"`: a marker left in the caption |
| Scenarios.DogSteps | main.py:29-35 | With the example decoder the three iterations choose `"a"`, `"dog"`, and then stop on `"endseq"` |
| Scenarios.DogRun | main.py:28-36 | With `max_length` 34 the example run appends `"a"` and `"dog"`, makes three queries and stops on the end marker |
| Scenarios.ADogScenario | main.py:27-37 | With the default `max_length` of 34 the caption is `"a dog"` after three queries |
| Scenarios.ExampleVocabularyIsMarkerFree | main.py:33 | The four-word example vocabulary maps an id to `"startseq"`, so it is not a vocabulary of clean words, but it is marker-free |
| Scenarios.SpacedWordIsMarkerFree | main.py:33-37 | The word `"a b"` is not clean, because of its space, yet it hides no marker |
| Scenarios.AppendedStartMarkerLeavesDoubleSpace | main.py:36-37 | Appending `"a"`, `"startseq"` and `"dog"` gives the caption `"a  dog"`, with two spaces where the appended marker was |
| Scenarios.AlwaysEndScenario | main.py:27-37 | A decoder that always ranks `"endseq"` first yields the empty caption for every `max_length` |

## Left out

- The Streamlit page, the upload, the write to `uploaded_image.jpg` and the hard-coded model paths (main.py:47-64). They are user interface and file I/O.
- Loading the models and the tokenizer (main.py:11-18). This is deserialisation inside foreign libraries.
- Image loading, resizing, normalisation and feature extraction (main.py:21-24). This is floating-point inference. The features are an opaque value of a type parameter, passed through unchanged.
- What `texts_to_sequences` and `caption_model.predict` compute. They are parameters, taken to be pure functions of their inputs.
- The figure and `st.pyplot` display (main.py:40-45).
- Scores are `real`, so NaN is not modelled. With a NaN in the row, `np.argmax` would return the first NaN.
- The `(1, vocabulary)` shape of the prediction is not modelled. The model works on the flattened row, which is what `np.argmax` without an axis scans.
- The `int32` dtype of the padded array is not modelled: ids are unbounded integers and are never truncated.
- `pad_sequences` with `maxlen=0` is not reached, because the loop does not run when `max_length <= 0`.
- Of the exceptions, only `np.argmax` of an empty row is modelled, as the outcome `ArgmaxOfEmpty`. Exceptions raised inside the tokenizer or the caption model are not.
- CaptionText.MarkerFreeVocabularyCaption: states "no `startseq` or `endseq` in the caption" only for vocabularies whose appendable words are `"startseq"` or hold neither marker. Only a word with a marker inside it, other than `"startseq"` itself, can leave a marker behind, because the single-pass `replace` can create one, as `CaptionText.MarkerCanSurviveCleanUp` shows.
- CaptionText.CleanVocabularyCaption: the exact "words joined by single spaces" caption needs every appendable word to be clean. An appended `"startseq"` leaves a double space instead; `CaptionText.MarkerFreeVocabularyCaption` covers that case.
