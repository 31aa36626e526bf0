/** Input encoding in `reply`: build the lower-cased text with the separator,
    keep the separator and the allow-listed tokens, look each one up (unknown
    words become UNK) and pad or truncate the ids as Keras `pad_sequences`
    does with its defaults (`padding='pre'`, `truncating='pre'`, value 0). */
module InputEncoding {
  import opened Wrappers
  import opened PyText
  import opened Seq2Seq

  /** `paragraph.lower() + ' Q ' + question.lower()`. */
  function InputText(paragraph: string, question: string): string {
    Lower(paragraph) + " " + SEPARATOR + " " + Lower(question)
  }

  /** Lower-casing cannot produce an upper-case `Q`, so the inserted
      separator is the only `Q` in the text. */
  lemma SeparatorIsOnlyQ(paragraph: string, question: string)
    ensures var t := InputText(paragraph, question);
            forall i :: 0 <= i < |t| ==> (t[i] == 'Q' <==> i == |paragraph| + 1)
  {
    var t := InputText(paragraph, question);
    var lp, lq := Lower(paragraph), Lower(question);
    assert t == lp + " Q " + lq;
    forall i | 0 <= i < |t| ensures t[i] == 'Q' <==> i == |paragraph| + 1 {
      if i < |lp| {
        assert t[i] == lp[i];
      } else if i >= |lp| + 3 {
        assert t[i] == lq[i - |lp| - 3];
      }
    }
  }

  /** The filter of line 75: a token survives when it is the separator or
      passes the allow-list. */
  predicate Retained(word: string, inWhiteList: string -> bool) {
    word == SEPARATOR || inWhiteList(word)
  }

  /** The id of a retained word: its input-vocabulary id, or UNK. */
  function WordId(word2idx: map<string, nat>, word: string): nat {
    if word in word2idx then word2idx[word] else UNK
  }

  /** The ids the loop of lines 74-80 appends, word by word. */
  function RetainedIds(words: seq<string>, word2idx: map<string, nat>, inWhiteList: string -> bool): seq<nat>
    decreases |words|
  {
    if words == [] then []
    else
      var last := words[|words| - 1];
      RetainedIds(words[..|words| - 1], word2idx, inWhiteList)
        + (if Retained(last, inWhiteList) then [WordId(word2idx, last)] else [])
  }

  /** The retained tokens themselves, in order (a reference filter). */
  function KeptWords(words: seq<string>, inWhiteList: string -> bool): seq<string>
    decreases |words|
  {
    if words == [] then []
    else if Retained(words[0], inWhiteList) then [words[0]] + KeptWords(words[1..], inWhiteList)
    else KeptWords(words[1..], inWhiteList)
  }

  /** Encoding distributes over concatenation of token lists. */
  lemma {:induction false} RetainedIdsAppend(a: seq<string>, b: seq<string>, word2idx: map<string, nat>, inWhiteList: string -> bool)
    ensures RetainedIds(a + b, word2idx, inWhiteList)
         == RetainedIds(a, word2idx, inWhiteList) + RetainedIds(b, word2idx, inWhiteList)
    decreases |b|
  {
    if b == [] {
      assert a + b == a;
    } else {
      var init := b[..|b| - 1];
      RetainedIdsAppend(a, init, word2idx, inWhiteList);
      assert (a + b)[..|a + b| - 1] == a + init;
    }
  }

  /** A token that is neither the separator nor allow-listed contributes no
      id at all, not even UNK. */
  lemma DroppedTokenContributesNothing(a: seq<string>, w: string, b: seq<string>, word2idx: map<string, nat>, inWhiteList: string -> bool)
    requires !Retained(w, inWhiteList)
    ensures RetainedIds(a + [w] + b, word2idx, inWhiteList)
         == RetainedIds(a, word2idx, inWhiteList) + RetainedIds(b, word2idx, inWhiteList)
  {
    RetainedIdsAppend(a + [w], b, word2idx, inWhiteList);
    RetainedIdsAppend(a, [w], word2idx, inWhiteList);
    assert [w][..0] == [];
  }

  /** A retained token contributes exactly one id in its place: its
      vocabulary id, or UNK when the vocabulary lacks it. */
  lemma RetainedTokenContributesItsId(a: seq<string>, w: string, b: seq<string>, word2idx: map<string, nat>, inWhiteList: string -> bool)
    requires Retained(w, inWhiteList)
    ensures RetainedIds(a + [w] + b, word2idx, inWhiteList)
         == RetainedIds(a, word2idx, inWhiteList)
            + [if w in word2idx then word2idx[w] else UNK]
            + RetainedIds(b, word2idx, inWhiteList)
  {
    RetainedIdsAppend(a + [w], b, word2idx, inWhiteList);
    RetainedIdsAppend(a, [w], word2idx, inWhiteList);
    assert [w][..0] == [];
  }

  /** The separator is retained whatever the allow-list says. */
  lemma SeparatorContributesItsId(a: seq<string>, b: seq<string>, word2idx: map<string, nat>, inWhiteList: string -> bool)
    ensures RetainedIds(a + [SEPARATOR] + b, word2idx, inWhiteList)
         == RetainedIds(a, word2idx, inWhiteList)
            + [if SEPARATOR in word2idx then word2idx[SEPARATOR] else UNK]
            + RetainedIds(b, word2idx, inWhiteList)
  {
    RetainedTokenContributesItsId(a, SEPARATOR, b, word2idx, inWhiteList);
  }

  /** The ids are the lookups of the retained tokens, one for one and in
      order; a lookup never fails. */
  lemma {:induction false} RetainedIdsAreLookups(words: seq<string>, word2idx: map<string, nat>, inWhiteList: string -> bool)
    ensures var ids, kept := RetainedIds(words, word2idx, inWhiteList), KeptWords(words, inWhiteList);
            && |ids| == |kept|
            && forall i :: 0 <= i < |ids| ==> ids[i] == (if kept[i] in word2idx then word2idx[kept[i]] else UNK)
    decreases |words|
  {
    if words != [] {
      var w, rest := words[0], words[1..];
      RetainedIdsAreLookups(rest, word2idx, inWhiteList);
      assert words == [] + [w] + rest;
      if Retained(w, inWhiteList) {
        RetainedTokenContributesItsId([], w, rest, word2idx, inWhiteList);
      } else {
        DroppedTokenContributesNothing([], w, rest, word2idx, inWhiteList);
      }
    }
  }

  /** Lines 71-80: the `for` loop over the tokens, skipping filtered tokens
      and appending the id of every other one. */
  method EncodeWords(words: seq<string>, word2idx: map<string, nat>, inWhiteList: string -> bool)
    returns (inputWids: seq<nat>)
    ensures inputWids == RetainedIds(words, word2idx, inWhiteList)
  {
    inputWids := [];
    for i := 0 to |words|
      invariant inputWids == RetainedIds(words[..i], word2idx, inWhiteList)
    {
      var word := words[i];
      assert words[..i + 1][..i] == words[..i];
      if word != SEPARATOR && !inWhiteList(word) {
        continue;
      }
      var idx := UNK;
      if word in word2idx {
        idx := word2idx[word];
      }
      inputWids := inputWids + [idx];
    }
    assert words[..|words|] == words;
  }

  /** Keras `pad_sequences([ids], maxLen)` with its defaults: left-pad with
      PAD, or keep the last `maxLen` ids. With `maxLen` 0 the library slices
      `ids[-0:]` (all of them) into an empty row, which numpy accepts only
      for a single id. */
  function PadSequences(ids: seq<nat>, maxLen: nat): (r: Result<seq<nat>, ReplyError>)
    ensures r.Success? <==> (maxLen > 0 || |ids| <= 1)
    ensures r.Failure? ==> r.error == PadShapeMismatch
    ensures r.Success? ==> |r.value| == maxLen
    ensures r.Success? ==>
              forall i :: 0 <= i < maxLen ==>
                r.value[i] == if i + |ids| < maxLen then PAD else ids[i + |ids| - maxLen]
  {
    if maxLen == 0 && |ids| > 1 then Failure(PadShapeMismatch)
    else if |ids| >= maxLen then Success(ids[|ids| - maxLen..])
    else Success(seq(maxLen - |ids|, _ => PAD) + ids)
  }

  /** A reference definition of the padded input: PAD-filled on the left up
      to `maxLen`, or the last `maxLen` ids. */
  function Padded(ids: seq<nat>, maxLen: nat): seq<nat> {
    if |ids| <= maxLen then seq(maxLen - |ids|, _ => PAD) + ids else ids[|ids| - maxLen..]
  }

  /** For a positive length, `pad_sequences` never raises and agrees with the
      reference definition. */
  lemma PadSequencesCases(ids: seq<nat>, maxLen: nat)
    requires maxLen > 0
    ensures PadSequences(ids, maxLen) == Success(Padded(ids, maxLen))
  {
    var r := PadSequences(ids, maxLen);
    assert r.Success?;
    var v, w := r.value, Padded(ids, maxLen);
    assert |v| == |w|;
    forall i | 0 <= i < maxLen ensures v[i] == w[i] {}
    assert v == w;
  }
}
