/** The three fixed-length encoders: every sentence becomes a row of exactly
    MAX_SEQUENCE vocabulary indices (encoder input, decoder input, decoder target). */
module Encoder {
  import opened Seqs
  import opened Tokenizer
  import opened Vocabulary

  const MAX_SEQUENCE: nat := 25

  /** The index of a word, or the index of UNK when the dictionary does not know it;
      either way an index the dictionary hands out. */
  function Lookup(dict: map<string, int>, w: string): (r: int)
    requires UNK in dict
    ensures r in dict.Values
    ensures w in dict ==> r == dict[w]
    ensures w !in dict ==> r == dict[UNK]
  {
    if w in dict then dict[w] else dict[UNK]
  }

  /** The per-word index list each encoder builds before truncating. */
  function WordIndices(dict: map<string, int>, words: seq<string>): (r: seq<int>)
    requires UNK in dict
    ensures |r| == |words|
    ensures forall k :: 0 <= k < |r| ==> r[k] == Lookup(dict, words[k])
  {
    if |words| == 0 then []
    else WordIndices(dict, words[..|words| - 1]) + [Lookup(dict, words[|words| - 1])]
  }

  /** `n * [dictionary[PAD]]`. */
  function Padding(dict: map<string, int>, n: nat): (r: seq<int>)
    requires PAD in dict
    ensures |r| == n
    ensures PaddedFrom(dict, r, 0)
  {
    seq(n, _ => dict[PAD])
  }

  /** Positions `from .. from+count-1` of `row` hold the indices of the first `count`
      words: the word's own index when known, UNK's index otherwise. */
  predicate EncodesWords(dict: map<string, int>, words: seq<string>, row: seq<int>, from: nat, count: nat)
  {
    && count <= |words|
    && from + count <= |row|
    && forall k :: 0 <= k < count ==>
         && (words[k] in dict ==> row[from + k] == dict[words[k]])
         && (words[k] !in dict ==> UNK in dict && row[from + k] == dict[UNK])
  }

  /** Every position from `from` on holds PAD's index. */
  predicate PaddedFrom(dict: map<string, int>, row: seq<int>, from: nat)
  {
    PAD in dict && forall k :: from <= k < |row| ==> row[k] == dict[PAD]
  }

  /** One row of `enc_processing`: the first min(n, 25) word indices, then PAD's index. */
  function EncRow(dict: map<string, int>, sentence: string): (r: seq<int>)
    requires PAD in dict && UNK in dict
    ensures |r| == MAX_SEQUENCE
    ensures var ws := SentenceTokens(sentence);
      var m := Min(|ws|, MAX_SEQUENCE);
      EncodesWords(dict, ws, r, 0, m) && PaddedFrom(dict, r, m)
  {
    var index := WordIndices(dict, SentenceTokens(sentence));
    var kept := if |index| > MAX_SEQUENCE then index[..MAX_SEQUENCE] else index;
    kept + Padding(dict, MAX_SEQUENCE - |kept|)
  }

  /** One row of `dec_output_processing`: SOS's index at position 0, then the first
      min(n, 24) word indices, then PAD's index. */
  function DecOutputRow(dict: map<string, int>, sentence: string): (r: seq<int>)
    requires PAD in dict && SOS in dict && UNK in dict
    ensures |r| == MAX_SEQUENCE
    ensures r[0] == dict[SOS]
    ensures var ws := SentenceTokens(sentence);
      var m := Min(|ws|, MAX_SEQUENCE - 1);
      EncodesWords(dict, ws, r, 1, m) && PaddedFrom(dict, r, 1 + m)
  {
    var index := [dict[SOS]] + WordIndices(dict, SentenceTokens(sentence));
    var kept := if |index| > MAX_SEQUENCE then index[..MAX_SEQUENCE] else index;
    kept + Padding(dict, MAX_SEQUENCE - |kept|)
  }

  /** One row of `dec_target_processing`: the first min(n, 24) word indices, EOS's index
      right after them, then PAD's index. Both branches of the length test agree on this. */
  function DecTargetRow(dict: map<string, int>, sentence: string): (r: seq<int>)
    requires PAD in dict && EOS in dict && UNK in dict
    ensures |r| == MAX_SEQUENCE
    ensures var ws := SentenceTokens(sentence);
      var m := Min(|ws|, MAX_SEQUENCE - 1);
      EncodesWords(dict, ws, r, 0, m) && r[m] == dict[EOS] && PaddedFrom(dict, r, m + 1)
  {
    var index := WordIndices(dict, SentenceTokens(sentence));
    var ended := if |index| >= MAX_SEQUENCE then index[..MAX_SEQUENCE - 1] + [dict[EOS]]
                 else index + [dict[EOS]];
    ended + Padding(dict, MAX_SEQUENCE - |ended|)
  }

  /** `enc_processing`: one row per sentence, row i computed from sentence i alone. */
  method EncProcessing(value: seq<string>, dict: map<string, int>) returns (rows: seq<seq<int>>)
    requires PAD in dict && UNK in dict
    ensures |rows| == |value|
    ensures forall i :: 0 <= i < |rows| ==> |rows[i]| == MAX_SEQUENCE && rows[i] == EncRow(dict, value[i])
  {
    rows := [];
    for i := 0 to |value|
      invariant |rows| == i
      invariant forall j :: 0 <= j < i ==> rows[j] == EncRow(dict, value[j])
    {
      rows := rows + [EncRow(dict, value[i])];
    }
  }

  /** `dec_output_processing`: one row per sentence, row i computed from sentence i alone. */
  method DecOutputProcessing(value: seq<string>, dict: map<string, int>) returns (rows: seq<seq<int>>)
    requires PAD in dict && SOS in dict && UNK in dict
    ensures |rows| == |value|
    ensures forall i :: 0 <= i < |rows| ==> |rows[i]| == MAX_SEQUENCE && rows[i] == DecOutputRow(dict, value[i])
  {
    rows := [];
    for i := 0 to |value|
      invariant |rows| == i
      invariant forall j :: 0 <= j < i ==> rows[j] == DecOutputRow(dict, value[j])
    {
      rows := rows + [DecOutputRow(dict, value[i])];
    }
  }

  /** `dec_target_processing`: one row per sentence, row i computed from sentence i alone. */
  method DecTargetProcessing(value: seq<string>, dict: map<string, int>) returns (rows: seq<seq<int>>)
    requires PAD in dict && EOS in dict && UNK in dict
    ensures |rows| == |value|
    ensures forall i :: 0 <= i < |rows| ==> |rows[i]| == MAX_SEQUENCE && rows[i] == DecTargetRow(dict, value[i])
  {
    rows := [];
    for i := 0 to |value|
      invariant |rows| == i
      invariant forall j :: 0 <= j < i ==> rows[j] == DecTargetRow(dict, value[j])
    {
      rows := rows + [DecTargetRow(dict, value[i])];
    }
  }

  /** The index of `marker` belongs to no other word of the dictionary. */
  predicate OwnsIndex(dict: map<string, int>, marker: string)
  {
    marker in dict && forall w :: w in dict && w != marker ==> dict[w] != dict[marker]
  }

  /** Teacher forcing: the decoder input is the decoder target shifted right by one
      (behind SOS), and the words both keep are the encoder input's first words. */
  lemma DecoderShift(dict: map<string, int>, sentence: string)
    requires PAD in dict && SOS in dict && EOS in dict && UNK in dict
    ensures var m := Min(|SentenceTokens(sentence)|, MAX_SEQUENCE - 1);
      forall k :: 0 <= k < m ==>
        && DecOutputRow(dict, sentence)[k + 1] == DecTargetRow(dict, sentence)[k]
        && DecTargetRow(dict, sentence)[k] == EncRow(dict, sentence)[k]
  {
  }

  /** When SOS and EOS own their indices and the sentence never spells them,
      the encoder input contains neither index. */
  lemma EncRowHasNoSosEos(dict: map<string, int>, sentence: string)
    requires PAD in dict && UNK in dict
    requires OwnsIndex(dict, SOS) && OwnsIndex(dict, EOS)
    requires SOS !in SentenceTokens(sentence) && EOS !in SentenceTokens(sentence)
    ensures dict[SOS] !in EncRow(dict, sentence) && dict[EOS] !in EncRow(dict, sentence)
  {
  }

  /** When EOS owns its index and the sentence never spells it, the decoder target holds
      EOS's index exactly once, at position min(n, 24), followed only by padding. */
  lemma DecTargetSingleEos(dict: map<string, int>, sentence: string)
    requires PAD in dict && UNK in dict && OwnsIndex(dict, EOS)
    requires EOS !in SentenceTokens(sentence)
    ensures var r := DecTargetRow(dict, sentence);
      var m := Min(|SentenceTokens(sentence)|, MAX_SEQUENCE - 1);
      forall k :: 0 <= k < |r| ==> (r[k] == dict[EOS] <==> k == m)
  {
  }

  /** When SOS owns its index and the sentence never spells it, the decoder input holds
      SOS's index at position 0 and nowhere else. */
  lemma DecOutputSingleSos(dict: map<string, int>, sentence: string)
    requires PAD in dict && UNK in dict && OwnsIndex(dict, SOS)
    requires SOS !in SentenceTokens(sentence)
    ensures var r := DecOutputRow(dict, sentence);
      forall k :: 0 <= k < |r| ==> (r[k] == dict[SOS] <==> k == 0)
  {
  }

  /** A vocabulary built from a corpus serves every encoder, and every marker owns its index;
      so a sentence that never spells SOS or EOS encodes without either index. */
  lemma BuiltVocabularyEncodes(words: seq<string>, order: seq<string>, sentence: string)
    requires IsDedupOf(order, words)
    requires SOS !in SentenceTokens(sentence) && EOS !in SentenceTokens(sentence)
    ensures var dict := BuildVocabulary(words, order).wordToIndex;
      && PAD in dict && SOS in dict && EOS in dict && UNK in dict
      && OwnsIndex(dict, SOS) && OwnsIndex(dict, EOS)
      && dict[SOS] !in EncRow(dict, sentence) && dict[EOS] !in EncRow(dict, sentence)
  {
    var dict := BuildVocabulary(words, order).wordToIndex;
    assert MARKER[PAD_INDEX] in dict && MARKER[SOS_INDEX] in dict;
    assert MARKER[EOS_INDEX] in dict && MARKER[UNK_INDEX] in dict;
    EncRowHasNoSosEos(dict, sentence);
  }

  /** A worked example: `!` is deleted, the two words are unknown, so the row is
      two UNK indices followed by 23 PAD indices. */
  lemma UnknownWordsExample(dict: map<string, int>)
    requires PAD in dict && UNK in dict
    requires "12시" !in dict && "땡" !in dict
    ensures EncRow(dict, "12시 땡!") == [dict[UNK], dict[UNK]] + Padding(dict, MAX_SEQUENCE - 2)
  {
    SentenceTokensExample();
    var r := EncRow(dict, "12시 땡!");
    assert r == [dict[UNK], dict[UNK]] + Padding(dict, MAX_SEQUENCE - 2);
  }
}
