/** The greedy decoding loop of `reply` (lines 83-106): starting from a
    one-hot START and the encoder's state, call the decoder step, take the
    arg-max id, look its word up, append it unless it is a sentinel, and stop
    on END or when the step count reaches the configured maximum. */
module GreedyDecoding {
  import opened Wrappers
  import opened PyText
  import opened Seq2Seq

  /** `np.argmax`: the lowest index of a maximal entry. */
  function ArgMax(dist: seq<int>): (k: nat)
    requires |dist| > 0
    ensures k < |dist|
    ensures forall j :: 0 <= j < |dist| ==> dist[j] <= dist[k]
    ensures forall j :: 0 <= j < k ==> dist[j] < dist[k]
    decreases |dist|
  {
    if |dist| == 1 then 0
    else
      var k := ArgMax(dist[..|dist| - 1]);
      if dist[|dist| - 1] > dist[k] then |dist| - 1 else k
  }

  /** The decoder input for token `k`: a vector of `n` zeros with a one at `k`. */
  function OneHotVector(n: nat, k: nat): seq<int> {
    seq(n, j => if j == k then 1 else 0)
  }

  /** Lines 84-85 and 102-103: a freshly zeroed buffer with one cell set. */
  method OneHot(n: nat, k: nat) returns (v: seq<int>)
    requires k < n
    ensures |v| == n && v[k] == 1
    ensures forall j :: 0 <= j < n && j != k ==> v[j] == 0
    ensures v == OneHotVector(n, k)
  {
    var buffer := new int[n](_ => 0);
    buffer[k] := 1;
    v := buffer[..];
    assert v == OneHotVector(n, k);
  }

  /** One pass of the loop body: the decoder's input and state, what it
      returned, and the id and word sampled from the distribution. */
  datatype StepRecord<!S> = StepRecord(input: seq<int>, stateIn: S, dist: seq<int>, id: nat, word: string, stateOut: S)

  predicate IsSentinel(word: string) {
    word == START || word == END
  }

  /** `r` prepended with `prefix` when it is a success. */
  function Then<S>(prefix: seq<StepRecord<S>>, r: Result<seq<StepRecord<S>>, ReplyError>): Result<seq<StepRecord<S>>, ReplyError> {
    match r
    case Success(t) => Success(prefix + t)
    case Failure(e) => Failure(e)
  }

  /** The steps the loop takes from decoder input `input`, state `state` and
      step count `count`, or the error it raises. */
  function Run<S>(m: Seq2SeqModel<S>, input: seq<int>, state: S, count: nat): Result<seq<StepRecord<S>>, ReplyError>
    decreases m.maxDecoderSeqLength - count
  {
    var (dist, next) := m.decodeStep(input, state);
    if |dist| == 0 then Failure(EmptyDistribution)
    else
      var id := ArgMax(dist);
      if id !in m.targetIdx2Word then Failure(UnknownTargetId(id))
      else
        var rec := StepRecord(input, state, dist, id, m.targetIdx2Word[id], next);
        if id >= m.numDecoderTokens then Failure(OneHotOutOfRange(id))
        else if rec.word == END || count + 1 >= m.maxDecoderSeqLength then Success([rec])
        else Then([rec], Run(m, OneHotVector(m.numDecoderTokens, id), next, count + 1))
  }

  /** The whole run of `reply`'s loop from the encoder state `s0`. */
  function DecodeTrace<S>(m: Seq2SeqModel<S>, s0: S): Result<seq<StepRecord<S>>, ReplyError> {
    if START !in m.targetWord2Idx then Failure(MissingStart)
    else if m.targetWord2Idx[START] >= m.numDecoderTokens then Failure(OneHotOutOfRange(m.targetWord2Idx[START]))
    else Run(m, OneHotVector(m.numDecoderTokens, m.targetWord2Idx[START]), s0, 0)
  }

  /** The sampled words that are not sentinels, in emission order. */
  function Emitted<S>(t: seq<StepRecord<S>>): seq<string>
    decreases |t|
  {
    if t == [] then []
    else Emitted(t[..|t| - 1]) + (if IsSentinel(t[|t| - 1].word) then [] else [t[|t| - 1].word])
  }

  /** The returned text: each emitted word prefixed by a space, stripped. */
  function AnswerOf<S>(t: seq<StepRecord<S>>): string {
    Strip(Prefixed(Emitted(t)))
  }

  /** What the decoding part of `reply` returns for encoder state `s0`. */
  function DecodeSpec<S>(m: Seq2SeqModel<S>, s0: S): Result<string, ReplyError> {
    match DecodeTrace(m, s0)
    case Success(t) => Success(AnswerOf(t))
    case Failure(e) => Failure(e)
  }

  // ---------------------------------------------------------------------
  // What a run is, independently of `Run`

  /** A step did what line 90-93 and 103 do: the decoder was called on its
      input and state, the id is the arg-max, the word its target word, and
      the id fits the one-hot buffer. */
  ghost predicate StepFaithful<S>(m: Seq2SeqModel<S>, r: StepRecord<S>) {
    && m.decodeStep(r.input, r.stateIn) == (r.dist, r.stateOut)
    && |r.dist| > 0
    && r.id == ArgMax(r.dist)
    && r.id in m.targetIdx2Word
    && m.targetIdx2Word[r.id] == r.word
    && r.id < m.numDecoderTokens
  }

  /** Each step is faithful and is fed the one-hot of the previous step's id
      and the state the previous step returned. */
  ghost predicate Threaded<S>(m: Seq2SeqModel<S>, t: seq<StepRecord<S>>) {
    && (forall i :: 0 <= i < |t| ==> StepFaithful(m, t[i]))
    && (forall i :: 0 < i < |t| ==>
          t[i].input == OneHotVector(m.numDecoderTokens, t[i - 1].id) && t[i].stateIn == t[i - 1].stateOut)
  }

  /** The run stops at its first step that samples END or brings the step
      count (starting from `count`) to the maximum, and not before. */
  ghost predicate StopsAt<S>(m: Seq2SeqModel<S>, count: nat, t: seq<StepRecord<S>>)
    requires t != []
  {
    && (forall i :: 0 <= i < |t| - 1 ==> t[i].word != END && count + i + 1 < m.maxDecoderSeqLength)
    && (t[|t| - 1].word == END || count + |t| >= m.maxDecoderSeqLength)
  }

  lemma ThenAssoc<S>(a: seq<StepRecord<S>>, b: seq<StepRecord<S>>, r: Result<seq<StepRecord<S>>, ReplyError>)
    ensures Then(a, Then(b, r)) == Then(a + b, r)
  {
    if r.Success? {
      assert a + (b + r.value) == (a + b) + r.value;
    }
  }

  /** Every successful run is a threaded run, fed `input` and `state` first,
      that stops exactly where the loop stops. */
  lemma {:induction false} RunSound<S>(m: Seq2SeqModel<S>, input: seq<int>, state: S, count: nat, t: seq<StepRecord<S>>)
    requires Run(m, input, state, count) == Success(t)
    ensures t != [] && t[0].input == input && t[0].stateIn == state
    ensures Threaded(m, t)
    ensures StopsAt(m, count, t)
    decreases m.maxDecoderSeqLength - count
  {
    var (dist, next) := m.decodeStep(input, state);
    var id := ArgMax(dist);
    var rec := StepRecord(input, state, dist, id, m.targetIdx2Word[id], next);
    if !(rec.word == END || count + 1 >= m.maxDecoderSeqLength) {
      var rest := Run(m, OneHotVector(m.numDecoderTokens, id), next, count + 1);
      var u := rest.value;
      assert t == [rec] + u;
      RunSound(m, OneHotVector(m.numDecoderTokens, id), next, count + 1, u);
      forall i | 0 <= i < |t| ensures StepFaithful(m, t[i]) {
        if i > 0 { assert t[i] == u[i - 1]; }
      }
      forall i | 0 < i < |t|
        ensures t[i].input == OneHotVector(m.numDecoderTokens, t[i - 1].id) && t[i].stateIn == t[i - 1].stateOut
      {
        if i > 1 { assert t[i] == u[i - 1] && t[i - 1] == u[i - 2]; }
      }
      forall i | 0 <= i < |t| - 1 ensures t[i].word != END && count + i + 1 < m.maxDecoderSeqLength {
        if i > 0 { assert t[i] == u[i - 1]; }
      }
      assert t[|t| - 1] == u[|u| - 1];
    }
  }

  /** Conversely, a threaded run fed `input` and `state` first that stops
      where the loop stops is the result of `Run`: the run is unique. */
  lemma {:induction false} RunComplete<S>(m: Seq2SeqModel<S>, input: seq<int>, state: S, count: nat, t: seq<StepRecord<S>>)
    requires t != [] && t[0].input == input && t[0].stateIn == state
    requires Threaded(m, t)
    requires StopsAt(m, count, t)
    ensures Run(m, input, state, count) == Success(t)
    decreases |t|
  {
    var rec := t[0];
    assert StepFaithful(m, rec);
    if |t| > 1 {
      var u := t[1..];
      assert rec.word != END && count + 1 < m.maxDecoderSeqLength;
      forall i | 0 <= i < |u| ensures StepFaithful(m, u[i]) {
        assert u[i] == t[i + 1];
      }
      forall i | 0 < i < |u|
        ensures u[i].input == OneHotVector(m.numDecoderTokens, u[i - 1].id) && u[i].stateIn == u[i - 1].stateOut
      {
        assert u[i] == t[i + 1] && u[i - 1] == t[i];
      }
      forall i | 0 <= i < |u| - 1 ensures u[i].word != END && count + 1 + i + 1 < m.maxDecoderSeqLength {
        assert u[i] == t[i + 1];
      }
      assert u[|u| - 1] == t[|t| - 1];
      assert t[1].input == OneHotVector(m.numDecoderTokens, rec.id) && t[1].stateIn == rec.stateOut;
      RunComplete(m, t[1].input, t[1].stateIn, count + 1, u);
      assert t == [rec] + u;
    } else {
      assert t == [rec];
    }
  }

  /** A stopping run takes at least one step and at most
      `max(1, maxDecoderSeqLength - count)` steps. */
  lemma StepBound<S>(m: Seq2SeqModel<S>, count: nat, t: seq<StepRecord<S>>)
    requires t != [] && StopsAt(m, count, t)
    ensures 1 <= |t|
    ensures |t| == 1 || count + |t| <= m.maxDecoderSeqLength
  {
    if |t| > 1 {
      var i := |t| - 2;
      assert t[i].word != END && count + i + 1 < m.maxDecoderSeqLength;
    }
  }

  /** The decoding part of `reply`: its trace, when it succeeds, starts from
      the encoder state and the one-hot of START, is threaded, stops where
      the loop stops and has between 1 and `max(1, maxDecoderSeqLength)` steps. */
  lemma DecodeTraceShape<S>(m: Seq2SeqModel<S>, s0: S, t: seq<StepRecord<S>>)
    requires DecodeTrace(m, s0) == Success(t)
    ensures START in m.targetWord2Idx && m.targetWord2Idx[START] < m.numDecoderTokens
    ensures t != [] && t[0].stateIn == s0
    ensures t[0].input == OneHotVector(m.numDecoderTokens, m.targetWord2Idx[START])
    ensures Threaded(m, t) && StopsAt(m, 0, t)
    ensures 1 <= |t| <= if m.maxDecoderSeqLength < 1 then 1 else m.maxDecoderSeqLength
  {
    RunSound(m, OneHotVector(m.numDecoderTokens, m.targetWord2Idx[START]), s0, 0, t);
    StepBound(m, 0, t);
  }

  /** No emitted word is a sentinel, none is invented, and every non-sentinel
      sampled word is emitted. */
  lemma {:induction false} EmittedWords<S>(t: seq<StepRecord<S>>)
    ensures forall w :: w in Emitted(t) ==> w != START && w != END
    ensures forall w :: w in Emitted(t) ==> exists i :: 0 <= i < |t| && t[i].word == w
    ensures forall i :: 0 <= i < |t| && !IsSentinel(t[i].word) ==> t[i].word in Emitted(t)
    decreases |t|
  {
    if t != [] {
      var init := t[..|t| - 1];
      EmittedWords(init);
      forall w | w in Emitted(t) ensures exists i :: 0 <= i < |t| && t[i].word == w {
        if w in Emitted(init) {
          var i :| 0 <= i < |init| && init[i].word == w;
          assert t[i] == init[i];
        } else {
          assert t[|t| - 1].word == w;
        }
      }
      forall i | 0 <= i < |t| && !IsSentinel(t[i].word) ensures t[i].word in Emitted(t) {
        if i < |t| - 1 { assert t[i] == init[i]; }
      }
    }
  }

  /** With target words that are non-empty and carry no whitespace at their
      ends, the answer is the emitted words joined by single spaces. */
  lemma AnswerIsJoin<S>(t: seq<StepRecord<S>>)
    requires forall i :: 0 <= i < |t| ==>
               var w := t[i].word; w != [] && !IsSpace(w[0]) && !IsSpace(w[|w| - 1])
    ensures AnswerOf(t) == Join(Emitted(t))
  {
    EmittedWords(t);
    forall w | w in Emitted(t) ensures w != [] && !IsSpace(w[0]) && !IsSpace(w[|w| - 1]) {
      var i :| 0 <= i < |t| && t[i].word == w;
    }
    StripPrefixedIsJoin(Emitted(t));
  }

  /** A decoder that fits its vocabulary: every id the distribution can name
      has a target word, and every distribution has one entry per target token. */
  ghost predicate DecoderFitsVocabulary<S(!new)>(m: Seq2SeqModel<S>) {
    && m.numDecoderTokens > 0
    && (forall k: nat :: k < m.numDecoderTokens ==> k in m.targetIdx2Word)
    && (forall v, s :: |m.decodeStep(v, s).0| == m.numDecoderTokens)
  }

  /** With such a decoder no step raises: the lookup of line 93 and the
      one-hot of line 103 never fail, and `argmax` always has entries. */
  lemma {:induction false} RunNeverFails<S(!new)>(m: Seq2SeqModel<S>, input: seq<int>, state: S, count: nat)
    requires DecoderFitsVocabulary(m)
    ensures Run(m, input, state, count).Success?
    decreases m.maxDecoderSeqLength - count
  {
    var (dist, next) := m.decodeStep(input, state);
    assert |dist| == m.numDecoderTokens;
    var id := ArgMax(dist);
    if !(m.targetIdx2Word[id] == END || count + 1 >= m.maxDecoderSeqLength) {
      RunNeverFails(m, OneHotVector(m.numDecoderTokens, id), next, count + 1);
    }
  }

  /** ... and decoding succeeds once START has an id inside the buffer. */
  lemma DecodeNeverFails<S(!new)>(m: Seq2SeqModel<S>, s0: S)
    requires DecoderFitsVocabulary(m)
    requires START in m.targetWord2Idx && m.targetWord2Idx[START] < m.numDecoderTokens
    ensures DecodeSpec(m, s0).Success?
  {
    RunNeverFails(m, OneHotVector(m.numDecoderTokens, m.targetWord2Idx[START]), s0, 0);
  }

  // ---------------------------------------------------------------------
  // The loop

  /** Lines 84-106. */
  method DecodeAnswer<S>(m: Seq2SeqModel<S>, statesValue: S) returns (r: Result<string, ReplyError>)
    ensures r == DecodeSpec(m, statesValue)
  {
    if START !in m.targetWord2Idx {
      return Failure(MissingStart);
    }
    var startIdx := m.targetWord2Idx[START];
    if startIdx >= m.numDecoderTokens {
      return Failure(OneHotOutOfRange(startIdx));
    }
    var targetSeq := OneHot(m.numDecoderTokens, startIdx);
    var targetText := "";
    var targetTextLen: nat := 0;
    var terminated := false;
    var state := statesValue;
    ghost var steps: seq<StepRecord<S>> := [];
    ghost var rest := Run(m, targetSeq, state, 0);
    assert Then(steps, rest) == rest by {
      if rest.Success? { assert steps + rest.value == rest.value; }
    }
    while !terminated
      invariant targetTextLen == |steps|
      invariant targetText == Prefixed(Emitted(steps))
      invariant !terminated ==> DecodeTrace(m, statesValue) == Then(steps, Run(m, targetSeq, state, targetTextLen))
      invariant terminated ==> DecodeTrace(m, statesValue) == Success(steps)
      decreases !terminated, m.maxDecoderSeqLength - targetTextLen
    {
      var (outputTokens, next) := m.decodeStep(targetSeq, state);
      if |outputTokens| == 0 {
        return Failure(EmptyDistribution);
      }
      var sampleTokenIdx: nat := ArgMax(outputTokens);
      if sampleTokenIdx !in m.targetIdx2Word {
        return Failure(UnknownTargetId(sampleTokenIdx));
      }
      var sampleWord := m.targetIdx2Word[sampleTokenIdx];
      ghost var rec := StepRecord(targetSeq, state, outputTokens, sampleTokenIdx, sampleWord, next);
      targetTextLen := targetTextLen + 1;
      if sampleWord != START && sampleWord != END {
        targetText := targetText + " " + sampleWord;
      }
      if sampleWord == END || targetTextLen >= m.maxDecoderSeqLength {
        terminated := true;
      }
      if sampleTokenIdx >= m.numDecoderTokens {
        return Failure(OneHotOutOfRange(sampleTokenIdx));
      }
      ThenAssoc(steps, [rec], Run(m, OneHotVector(m.numDecoderTokens, sampleTokenIdx), next, targetTextLen));
      targetSeq := OneHot(m.numDecoderTokens, sampleTokenIdx);
      state := next;
      assert (steps + [rec])[..|steps|] == steps;
      ghost var words := Emitted(steps);
      assert Emitted(steps + [rec]) == words + (if IsSentinel(sampleWord) then [] else [sampleWord]);
      assert (words + [sampleWord])[..|words|] == words;
      assert !IsSentinel(sampleWord) ==> Prefixed(words + [sampleWord]) == Prefixed(words) + " " + sampleWord;
      assert IsSentinel(sampleWord) ==> words + [] == words;
      steps := steps + [rec];
    }
    r := Success(Strip(targetText));
  }
}
