# Greedy seq2seq question answering: a Dafny model of `SQuADSeq2SeqModel.reply`

This project models the inference routine of a Keras question-answering web API.
`reply(paragraph, question)` first encodes the input. It lower-cases the paragraph
and the question and joins them around the separator token `Q`. It keeps the
separator and every token the allow-list accepts, and maps each kept token to its
input-vocabulary id, or to 1 (`[UNK]`) when the vocabulary lacks it. It then pads
with 0 on the left, or cuts from the left, to `max_encoder_seq_length` ids, as Keras
`pad_sequences` does by default. Next it runs the encoder once. Finally it decodes
greedily: it feeds the one-hot of the previous token and the current LSTM state to
the decoder, takes the arg-max id and looks up its word. It appends that word unless
it is `START` or `END`, and stops on `END` or once `max_decoder_seq_length` steps
have run. The answer is the text built this way, stripped.

Files and modules:

- `wrappers.dfy` (`Wrappers`): `Result`. Every exception raised by `reply`'s own lines is
  modelled as a `Failure`, not excluded by a precondition.
- `pytext.dfy` (`PyText`): ASCII `str.lower`, Python's whitespace set, `str.strip`,
  and `' '.join` as a reference for the accumulated text.
- `seq2seq.dfy` (`Seq2Seq`): the loaded model as an immutable record. It holds the
  vocabularies, the configuration scalars, and the tokenizer, allow-list, encoder
  and decoder step as opaque function values. The decoder state is a type parameter
  `S`. The record also holds the constants `Q`, `START`, `END`, UNK = 1 and PAD = 0,
  and the error cases.
- `encoding.dfy` (`InputEncoding`): the filter/lookup `for` loop as a method with
  an invariant, its specification `RetainedIds`, and `pad_sequences`.
- `decoding.dfy` (`GreedyDecoding`): `np.argmax`, the one-hot buffer (an array),
  the `while not terminated` loop as a method, and `Run`, the step-by-step
  specification it is proved against. Lemmas characterise `Run` independently:
  the steps are threaded, the run stops at the first END or at the step limit,
  the step bound holds, no sentinel is emitted, and no error occurs on a decoder
  that fits its vocabulary.
- `reply.dfy` (`Seq2SeqPredict`): `reply` itself, and worked examples (the
  encoding `[0,0,0,0,2,3,4,5,2,3]`, a "yes" then END decode, and a decode without
  END capped at three steps).

Errors, in the order `reply`'s own lines would raise them:
- `pad_sequences` with `maxlen` 0 and two or more ids (a numpy broadcast error;
  exactly one id broadcasts into the empty row).
- `target_word2idx['START']` missing (line 85).
- A START id outside the one-hot buffer (line 85).
- Then, within each decoding step:
  - `argmax` of an empty distribution (line 92).
  - A sampled id missing from `target_idx2word` (line 93).
  - A sampled id outside the one-hot buffer (line 103). Line 103 runs on the
    final step too.

Consequences of the code that are easy to miss:
- With `max_decoder_seq_length` 0 or 1 the loop still runs one step, and that
  step's word is appended when it is not a sentinel. So the step bound is
  `max(1, max_decoder_seq_length)`, not `max_decoder_seq_length`
  (`DecodeTraceShape`).
- The vocabularies are not required to be bijections, and `START`/`END` may
  appear anywhere. The model assumes nothing about them beyond what each lemma
  states.

## Model

| member | source | states |
|---|---|---|
| `PyText.Lower` | qa_system_web/squad_seq2seq_predict.py:73 | lower-casing keeps the length, maps each ASCII capital to its small letter, keeps every other character, and leaves no ASCII capital |
| `InputEncoding.SeparatorIsOnlyQ` | qa_system_web/squad_seq2seq_predict.py:73 | in the input text the only `Q` is the inserted separator, at index `|paragraph| + 1`; lower-casing cannot produce another |
| `InputEncoding.EncodeWords` | qa_system_web/squad_seq2seq_predict.py:74-80 | the token loop computes exactly the retained-id list `RetainedIds` of its tokens |
| `InputEncoding.RetainedIdsAppend` | qa_system_web/squad_seq2seq_predict.py:74-80 | encoding tokens `a + b` gives the ids of `a` followed by the ids of `b` (order preserved, each token handled on its own) |
| `InputEncoding.DroppedTokenContributesNothing` | qa_system_web/squad_seq2seq_predict.py:75-76 | a token that is neither `Q` nor allow-listed contributes no id at all, not even UNK |
| `InputEncoding.RetainedTokenContributesItsId` | qa_system_web/squad_seq2seq_predict.py:77-80 | a retained token contributes exactly one id in its place: its vocabulary id, or 1 when the vocabulary lacks it |
| `InputEncoding.SeparatorContributesItsId` | qa_system_web/squad_seq2seq_predict.py:75-80 | the separator `Q` is retained whatever the allow-list says, and contributes its id in place |
| `InputEncoding.RetainedIdsAreLookups` | qa_system_web/squad_seq2seq_predict.py:74-80 | the id list has one entry per retained token, in order, each the vocabulary id or 1; a lookup never fails |
| `InputEncoding.PadSequences` | qa_system_web/squad_seq2seq_predict.py:82 | succeeds unless maxlen is 0 with two or more ids; on success it has exactly maxlen entries, the first `maxlen - |ids|` are 0, and the rest are the last maxlen ids |
| `InputEncoding.PadSequencesCases` | qa_system_web/squad_seq2seq_predict.py:82 | for a positive maxlen, padding never raises and gives zeros followed by all ids when they are fewer than maxlen, else the last maxlen ids |
| `Seq2SeqPredict.EncoderInputShape` | qa_system_web/squad_seq2seq_predict.py:71-82 | for a positive maxlen the encoder receives exactly the padded retained ids of the tokenized input text |
| `GreedyDecoding.ArgMax` | qa_system_web/squad_seq2seq_predict.py:92 | the sampled id indexes a maximal entry of the distribution, and every earlier entry is strictly smaller (lowest index on ties) |
| `GreedyDecoding.OneHot` | qa_system_web/squad_seq2seq_predict.py:84-85 | the decoder input is `num_decoder_tokens` zeros with a single 1 at the chosen id |
| `GreedyDecoding.RunSound` | qa_system_web/squad_seq2seq_predict.py:88-105 | a successful run starts from the given input and state; every step calls the decoder on its input and state, samples the arg-max and looks its word up; each later step gets the previous id's one-hot and the previous step's new state; it stops at the first END or when the count reaches the maximum |
| `GreedyDecoding.RunComplete` | qa_system_web/squad_seq2seq_predict.py:88-105 | conversely, any step list with those properties is the run, so the run is unique (decoding is deterministic) |
| `GreedyDecoding.StepBound` | qa_system_web/squad_seq2seq_predict.py:94-100 | a run stopping as the loop does has at least one step, and more than one only within the step budget |
| `GreedyDecoding.DecodeTraceShape` | qa_system_web/squad_seq2seq_predict.py:83-105 | the first step gets the encoder state and the one-hot of `target_word2idx['START']`; the run is threaded, stops as the loop does, and has between 1 and `max(1, max_decoder_seq_length)` steps |
| `GreedyDecoding.EmittedWords` | qa_system_web/squad_seq2seq_predict.py:96-97 | the emitted words never include `START` or `END`, are all sampled words, and include every sampled non-sentinel word |
| `GreedyDecoding.AnswerIsJoin` | qa_system_web/squad_seq2seq_predict.py:96-106 | when target words are non-empty and have no whitespace at their ends, the answer is the emitted words joined by single spaces |
| `PyText.TrimStart` | qa_system_web/squad_seq2seq_predict.py:106 | the result is a suffix of the input, only whitespace was cut, and it does not start with whitespace |
| `PyText.TrimEnd` | qa_system_web/squad_seq2seq_predict.py:106 | the result is a prefix of the input, only whitespace was cut, and it does not end with whitespace |
| `PyText.Strip` | qa_system_web/squad_seq2seq_predict.py:106 | the stripped text neither starts nor ends with whitespace |
| `PyText.StripIsSlice` | qa_system_web/squad_seq2seq_predict.py:106 | the stripped text is a slice of the input with only whitespace before and after it |
| `PyText.StripPrefixedIsJoin` | qa_system_web/squad_seq2seq_predict.py:96-106 | stripping the text built by appending `' ' + word` gives the words joined by single spaces, when no word is empty or has whitespace at an end |
| `GreedyDecoding.RunNeverFails` | qa_system_web/squad_seq2seq_predict.py:90-103 | when every distribution has `num_decoder_tokens > 0` entries and `target_idx2word` covers `[0, num_decoder_tokens)`, no step raises |
| `GreedyDecoding.DecodeNeverFails` | qa_system_web/squad_seq2seq_predict.py:84-105 | for such a decoder, and a START id inside the buffer, decoding always returns an answer |
| `GreedyDecoding.DecodeAnswer` | qa_system_web/squad_seq2seq_predict.py:84-106 | the loop returns the stripped accumulated text of the run from the one-hot START and the encoder state, or the error that run raises |
| `Seq2SeqPredict.Reply` | qa_system_web/squad_seq2seq_predict.py:70-106 | `reply` returns the decoding of the encoder state of the padded retained ids of the tokenized input text, or the first error raised |
| `Seq2SeqPredict.ReplyNeverFails` | qa_system_web/squad_seq2seq_predict.py:70-106 | with a positive encoder length, a START id inside the buffer and a decoder that fits its vocabulary, none of `reply`'s own lines raises |
| `Seq2SeqPredict.ExampleEncoding` | qa_system_web/squad_seq2seq_predict.py:74-82 | tokens `the cat sat Q the cat` with vocabulary {the: 2, cat: 3, sat: 4, Q: 5} and length 10 encode to `[0,0,0,0,2,3,4,5,2,3]` |
| `Seq2SeqPredict.ExampleYesThenEnd` | qa_system_web/squad_seq2seq_predict.py:86-106 | a decoder that samples `yes` and then END yields the answer `yes` |
| `Seq2SeqPredict.ExampleNoEnd` | qa_system_web/squad_seq2seq_predict.py:94-100 | with a step limit of 3 and a decoder that never samples END, the answer is `yes yes yes` |

## Left out

- `__init__` (lines 26-68) is left out: it loads numpy files, builds the Keras graph, loads the weights and prints the configuration. Its results become the fields of `Seq2SeqModel`. `input_idx2word` and `num_encoder_tokens` are not used by `reply` and are not modelled.
- `encoder_model.predict` and `decoder_model.predict` are neural forward passes. They are the opaque fields `encode` and `decodeStep`. The batch and time axes of their tensors are dropped: the distribution is the model's `output_tokens[0, -1, :]`, and `[h, c]` is one state value.
- The distribution is a sequence of integers, so arg-max is exact. Floating point, and numpy's handling of NaN in `argmax`, are not modelled.
- `nltk.word_tokenize` and `text_utils.in_white_list` are external; they are the fields `tokenize` and `inWhiteList`.
- Failures inside `nltk.word_tokenize` (line 74), `text_utils.in_white_list` (line 75), `encoder_model.predict` (line 83) and `decoder_model.predict` (line 90) are not modelled. Their fields are total functions, so the model has no error for, say, an input id of at least `num_encoder_tokens` reaching the Embedding layer, or a decoder rejecting a malformed state.
- PyText.Lower: only ASCII letters are lower-cased. Python's full Unicode case mapping is not modelled; it cannot produce an upper-case `Q` either.
- PyText.IsSpace: Python's whitespace set is written out as fixed characters, not drawn from the Unicode database.
- `pad_sequences` converts the ids to int32. That conversion is not modelled, because ids are vocabulary positions far below 2^31.
- Ids are natural numbers, so numpy's negative indexing of the one-hot buffer cannot arise in the model.
- GreedyDecoding.DecoderFitsVocabulary and the lemmas that use it take state types without references (`S(!new)`), since the state is a pair of numeric vectors.
- `test_run` and `main` (lines 108-126) are a dataset-driven evaluation harness with printing, and are left out.
