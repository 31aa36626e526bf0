/** `SQuADSeq2SeqModel.reply(paragraph, question)`: encode the input text,
    run the encoder once, then decode greedily. */
module Seq2SeqPredict {
  import opened Wrappers
  import opened PyText
  import opened Seq2Seq
  import opened InputEncoding
  import opened GreedyDecoding

  /** The fixed-length id sequence handed to the encoder (lines 71-82). */
  function EncoderInput<S>(m: Seq2SeqModel<S>, paragraph: string, question: string): Result<seq<nat>, ReplyError> {
    var words := m.tokenize(InputText(paragraph, question));
    PadSequences(RetainedIds(words, m.inputWord2Idx, m.inWhiteList), m.maxEncoderSeqLength)
  }

  /** What `reply` returns or raises. */
  function ReplySpec<S>(m: Seq2SeqModel<S>, paragraph: string, question: string): Result<string, ReplyError> {
    match EncoderInput(m, paragraph, question)
    case Failure(e) => Failure(e)
    case Success(inputSeq) => DecodeSpec(m, m.encode(inputSeq))
  }

  /** Lines 70-106. */
  method Reply<S>(m: Seq2SeqModel<S>, paragraph: string, question: string) returns (r: Result<string, ReplyError>)
    ensures r == ReplySpec(m, paragraph, question)
  {
    var inputText := InputText(paragraph, question);
    var inputWids := EncodeWords(m.tokenize(inputText), m.inputWord2Idx, m.inWhiteList);
    var inputSeq := PadSequences(inputWids, m.maxEncoderSeqLength);
    if inputSeq.Failure? {
      return Failure(inputSeq.error);
    }
    var statesValue := m.encode(inputSeq.value);
    r := DecodeAnswer(m, statesValue);
  }

  /** A model whose configuration and vocabularies fit its networks answers
      every question: none of `reply`'s own lines raises (the tokenizer,
      filter and networks are total here). */
  lemma ReplyNeverFails<S(!new)>(m: Seq2SeqModel<S>, paragraph: string, question: string)
    requires m.maxEncoderSeqLength > 0
    requires DecoderFitsVocabulary(m)
    requires START in m.targetWord2Idx && m.targetWord2Idx[START] < m.numDecoderTokens
    ensures ReplySpec(m, paragraph, question).Success?
  {
    var input := EncoderInput(m, paragraph, question);
    DecodeNeverFails(m, m.encode(input.value));
  }

  /** The encoder always receives exactly `maxEncoderSeqLength` ids: the
      retained ids' suffix, left-padded with PAD. */
  lemma EncoderInputShape<S>(m: Seq2SeqModel<S>, paragraph: string, question: string)
    requires m.maxEncoderSeqLength > 0
    ensures var ids := RetainedIds(m.tokenize(InputText(paragraph, question)), m.inputWord2Idx, m.inWhiteList);
            EncoderInput(m, paragraph, question) == Success(Padded(ids, m.maxEncoderSeqLength))
  {
    var ids := RetainedIds(m.tokenize(InputText(paragraph, question)), m.inputWord2Idx, m.inWhiteList);
    PadSequencesCases(ids, m.maxEncoderSeqLength);
  }

  // ---------------------------------------------------------------------
  // Worked examples

  /** Retains all tokens. */
  function AllowAll(w: string): bool { true }

  const EXAMPLE_WORDS: seq<string> := ["the", "cat", "sat", "Q", "the", "cat"]
  const EXAMPLE_VOCABULARY: map<string, nat> := map["the" := 2, "cat" := 3, "sat" := 4, "Q" := 5]

  lemma ExampleIds()
    ensures RetainedIds(EXAMPLE_WORDS, EXAMPLE_VOCABULARY, AllowAll) == [2, 3, 4, 5, 2, 3]
  {
    var w, v := EXAMPLE_WORDS, EXAMPLE_VOCABULARY;
    RetainedIdsAreLookups(w, v, AllowAll);
    assert KeptWords(w, AllowAll) == w;
  }

  /** Input vocabulary {the: 2, cat: 3, sat: 4, Q: 5}, ten ids: the short
      list is left-padded with zeros. */
  lemma ExampleEncoding()
    ensures PadSequences(RetainedIds(EXAMPLE_WORDS, EXAMPLE_VOCABULARY, AllowAll), 10)
         == Success([0, 0, 0, 0, 2, 3, 4, 5, 2, 3])
  {
    ExampleIds();
    var expected: seq<nat> := [0, 0, 0, 0, 2, 3, 4, 5, 2, 3];
    assert PadSequences([2, 3, 4, 5, 2, 3], 10).value == expected;
  }

  /** A model with target vocabulary {START: 0, END: 1, yes: 2, no: 3} whose
      decoder state counts steps and whose step favours `first` on its first
      call and `later` afterwards. */
  function ExampleModel(maxDecoderSeqLength: nat, first: seq<int>, later: seq<int>): Seq2SeqModel<nat> {
    Seq2SeqModel(
      map[], map["START" := 0, "END" := 1, "yes" := 2, "no" := 3],
      map[0 := "START", 1 := "END", 2 := "yes", 3 := "no"],
      1, maxDecoderSeqLength, 4,
      (s: string) => [], AllowAll, (ids: seq<nat>) => 0,
      (v: seq<int>, s: nat) => var out: (seq<int>, nat) := (if s == 0 then first else later, s + 1); out)
  }

  const YES: seq<int> := [0, 0, 1, 0]
  const STOP: seq<int> := [0, 1, 0, 0]

  function YesRecord(input: seq<int>, count: nat): StepRecord<nat> {
    StepRecord(input, count, YES, 2, "yes", count + 1)
  }

  lemma ArgMaxYes()
    ensures ArgMax(YES) == 2
  {
    assert YES[..3][..2][..1] == [0];
  }

  lemma YesThenEndTrace(m: Seq2SeqModel<nat>)
    requires m == ExampleModel(10, YES, STOP)
    ensures DecodeTrace(m, 0)
         == Success([YesRecord(OneHotVector(4, 0), 0), StepRecord(OneHotVector(4, 2), 1, STOP, 1, "END", 2)])
  {
    ArgMaxYes();
    assert ArgMax(STOP) == 1 by { assert STOP[..3][..2][..1] == [0]; }
    var rec0, rec1 := YesRecord(OneHotVector(4, 0), 0), StepRecord(OneHotVector(4, 2), 1, STOP, 1, "END", 2);
    assert Run(m, OneHotVector(4, 2), 1, 1) == Success([rec1]);
    assert [rec0] + [rec1] == [rec0, rec1];
    assert Run(m, OneHotVector(4, 0), 0, 0) == Success([rec0, rec1]);
  }

  lemma YesThenEndAnswer(t: seq<StepRecord<nat>>)
    requires t == [YesRecord(OneHotVector(4, 0), 0), StepRecord(OneHotVector(4, 2), 1, STOP, 1, "END", 2)]
    ensures AnswerOf(t) == "yes"
  {
    assert t[..1][..0] == [];
    assert Emitted(t[..1]) == ["yes"];
    assert Prefixed(["yes"]) == " yes" by { assert ["yes"][..0] == []; }
    StripSpacePrefix("yes");
  }

  /** A decoder that gives `yes` and then END answers "yes". */
  lemma ExampleYesThenEnd()
    ensures DecodeSpec(ExampleModel(10, YES, STOP), 0) == Success("yes")
  {
    var m := ExampleModel(10, YES, STOP);
    YesThenEndTrace(m);
    YesThenEndAnswer(DecodeTrace(m, 0).value);
  }

  lemma NoEndTrace(m: Seq2SeqModel<nat>)
    requires m == ExampleModel(3, YES, YES)
    ensures DecodeTrace(m, 0)
         == Success([YesRecord(OneHotVector(4, 0), 0), YesRecord(OneHotVector(4, 2), 1), YesRecord(OneHotVector(4, 2), 2)])
  {
    ArgMaxYes();
    var in1 := OneHotVector(4, 2);
    var rec1, rec2 := YesRecord(in1, 1), YesRecord(in1, 2);
    assert Run(m, in1, 2, 2) == Success([rec2]);
    assert [rec1] + [rec2] == [rec1, rec2];
    assert Run(m, in1, 1, 1) == Success([rec1, rec2]);
    var rec0 := YesRecord(OneHotVector(4, 0), 0);
    assert [rec0] + [rec1, rec2] == [rec0, rec1, rec2];
    assert Run(m, OneHotVector(4, 0), 0, 0) == Success([rec0, rec1, rec2]);
  }

  lemma NoEndAnswer(t: seq<StepRecord<nat>>)
    requires t == [YesRecord(OneHotVector(4, 0), 0), YesRecord(OneHotVector(4, 2), 1), YesRecord(OneHotVector(4, 2), 2)]
    ensures AnswerOf(t) == "yes yes yes"
  {
    var w1, w2, w3 := ["yes"], ["yes", "yes"], ["yes", "yes", "yes"];
    assert Emitted(t) == w3 by {
      assert t[..2][..1][..0] == [];
      assert Emitted(t[..2][..1]) == w1;
      assert Emitted(t[..2]) == w2;
    }
    assert Prefixed(w3) == " yes yes yes" by {
      assert w3[..2] == w2 && w2[..1] == w1 && w1[..0] == [];
      assert Prefixed(w1) == " yes";
      assert Prefixed(w2) == " yes yes";
    }
    StripSpacePrefix("yes yes yes");
  }

  /** A decoder that never gives END stops after three steps when the
      maximum is three, with all three words. */
  lemma ExampleNoEnd()
    ensures DecodeSpec(ExampleModel(3, YES, YES), 0) == Success("yes yes yes")
  {
    var m := ExampleModel(3, YES, YES);
    NoEndTrace(m);
    NoEndAnswer(DecodeTrace(m, 0).value);
  }
}
