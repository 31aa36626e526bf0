/** The loaded question-answering model as the reply routine sees it: the
    vocabularies and configuration scalars read at start-up, and the external
    capabilities (tokenizer, allow-list filter, encoder and one decoder step)
    as opaque functions. `S` is the decoder state (the LSTM's h and c). */
module Seq2Seq {

  /** Separator inserted between paragraph and question; always retained. */
  const SEPARATOR: string := "Q"
  /** Target-vocabulary sentinels. */
  const START: string := "START"
  const END: string := "END"
  /** Input id of a retained word missing from the input vocabulary. */
  const UNK: nat := 1
  /** Input id used for left padding. */
  const PAD: nat := 0

  datatype Seq2SeqModel<!S> = Seq2SeqModel(
    inputWord2Idx: map<string, nat>,
    targetWord2Idx: map<string, nat>,
    targetIdx2Word: map<nat, string>,
    maxEncoderSeqLength: nat,
    maxDecoderSeqLength: nat,
    numDecoderTokens: nat,
    tokenize: string -> seq<string>,
    inWhiteList: string -> bool,
    encode: seq<nat> -> S,
    decodeStep: (seq<int>, S) -> (seq<int>, S))

  /** What `reply` can raise instead of returning an answer. */
  datatype ReplyError =
    | PadShapeMismatch        // pad_sequences with maxlen 0 and two or more ids
    | MissingStart            // KeyError: 'START' absent from target_word2idx
    | OneHotOutOfRange(id: nat) // IndexError: id outside the one-hot buffer
    | EmptyDistribution       // ValueError: argmax of an empty distribution
    | UnknownTargetId(id: nat)  // KeyError: id absent from target_idx2word
}
