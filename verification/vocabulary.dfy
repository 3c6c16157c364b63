/** Vocabulary construction: the corpus words deduplicated, the four markers in front,
    and the word-to-index and index-to-word maps built by enumerating that list. */
module Vocabulary {
  import opened Seqs
  import opened Tokenizer

  const PAD: string := "<PAD>"
  const SOS: string := "<SOS>"
  const EOS: string := "<EOS>"
  const UNK: string := "<UNK>"

  const PAD_INDEX: int := 0
  const SOS_INDEX: int := 1
  const EOS_INDEX: int := 2
  const UNK_INDEX: int := 3

  /** The reserved markers, in the order they are put in front of the vocabulary. */
  const MARKER: seq<string> := [PAD, SOS, EOS, UNK]

  /** The four markers are pairwise different strings. */
  lemma MarkersDistinct()
    ensures NoDup(MARKER)
    ensures |Elems(MARKER)| == |MARKER|
  {
    assert PAD[1] != SOS[1] && PAD[1] != EOS[1] && PAD[1] != UNK[1];
    assert SOS[1] != EOS[1] && SOS[1] != UNK[1] && EOS[1] != UNK[1];
    NoDupCard(MARKER);
  }

  /** The two maps `make_vocabulary` returns, plus the size `load_vocabulary` reports. */
  datatype Vocab = Vocab(wordToIndex: map<string, int>, indexToWord: map<int, string>, size: nat)

  /** The corpus as one list: every question, then every answer. */
  function CorpusWords(questions: seq<string>, answers: seq<string>): (r: seq<string>)
    ensures forall k :: 0 <= k < |r| ==> IsToken(r[k])
  {
    Tokenize(questions + answers)
  }

  /** One admissible iteration order of `set(words)`: first occurrences, left to right.
      It shows that every corpus has at least one deduplicated order. */
  function FirstOccurrences(words: seq<string>): (d: seq<string>)
    ensures IsDedupOf(d, words)
  {
    if |words| == 0 then []
    else
      var init := words[..|words| - 1];
      var w := words[|words| - 1];
      var d' := FirstOccurrences(init);
      assert words == init + [w];
      assert Elems(words) == Elems(init) + {w};
      if w in d' then
        assert w in Elems(d');
        d'
      else
        assert w !in Elems(d');
        assert Elems(d' + [w]) == Elems(d') + {w};
        d' + [w]
  }

  /** The list written to the vocabulary file: the markers, then the deduplicated corpus
      `words` in `order`, the (unspecified) iteration order of the set. */
  function VocabularyList(words: seq<string>, order: seq<string>): (r: seq<string>)
    requires IsDedupOf(order, words)
    ensures |r| == |MARKER| + |Elems(words)|
    ensures forall k :: 0 <= k < |MARKER| ==> r[k] == MARKER[k]
    ensures r[|MARKER|..] == order
    ensures Elems(r) == Elems(MARKER) + Elems(words)
  {
    NoDupCard(order);
    MARKER + order
  }

  /** `char2idx`: enumerating the list left to right, a later occurrence of a word
      overwrites the index of an earlier one. */
  function WordToIndex(list: seq<string>): (m: map<string, int>)
    ensures m.Keys == Elems(list)
    ensures forall w :: w in m ==> 0 <= m[w] < |list| && list[m[w]] == w
    ensures forall w, j :: w in m && m[w] < j < |list| ==> list[j] != w
  {
    if |list| == 0 then map[]
    else
      var init := list[..|list| - 1];
      assert list == init + [list[|list| - 1]];
      WordToIndex(init)[list[|list| - 1] := |list| - 1]
  }

  /** `idx2char`: position to word. */
  function IndexToWord(list: seq<string>): (m: map<int, string>)
    ensures forall i :: i in m <==> 0 <= i < |list|
    ensures forall i :: 0 <= i < |list| ==> m[i] == list[i]
  {
    map i | 0 <= i < |list| :: list[i]
  }

  /** `make_vocabulary` followed by `len(char2idx)`: the index of a listed word maps back to
      that word, no two words share an index, and the size is the number of distinct words. */
  function MakeVocabulary(list: seq<string>): (v: Vocab)
    ensures forall w :: w in v.wordToIndex <==> w in list
    ensures forall w :: w in list ==> v.wordToIndex[w] in v.indexToWord && v.indexToWord[v.wordToIndex[w]] == w
    ensures forall w, w' :: w in v.wordToIndex && w' in v.wordToIndex && w != w' ==> v.wordToIndex[w] != v.wordToIndex[w']
    ensures v.size == |Elems(list)|
  {
    var c2i := WordToIndex(list);
    assert |c2i| == |c2i.Keys|;
    Vocab(c2i, IndexToWord(list), |c2i|)
  }

  /** In a duplicate-free list a word's index is its position. */
  lemma NoDupIndex(list: seq<string>, i: nat)
    requires NoDup(list)
    requires i < |list|
    ensures list[i] in WordToIndex(list) && WordToIndex(list)[list[i]] == i
  {
  }

  /** On a duplicate-free list both maps are inverse bijections between the words and
      the positions 0 .. |list|-1, and the size is the length of the list. */
  lemma IndexWordRoundTrip(list: seq<string>)
    requires NoDup(list)
    ensures forall i :: 0 <= i < |list| ==>
      var v := MakeVocabulary(list);
      v.indexToWord[i] in v.wordToIndex && v.wordToIndex[v.indexToWord[i]] == i
    ensures MakeVocabulary(list).size == |list|
  {
    forall i | 0 <= i < |list|
      ensures list[i] in WordToIndex(list) && WordToIndex(list)[list[i]] == i
    {
      NoDupIndex(list, i);
    }
    NoDupCard(list);
  }

  /** The vocabulary built from the corpus tokens `words` (the file is written and read
      back verbatim): every marker and every corpus word has an index. */
  function BuildVocabulary(words: seq<string>, order: seq<string>): (v: Vocab)
    requires IsDedupOf(order, words)
    ensures forall k :: 0 <= k < |MARKER| ==> MARKER[k] in v.wordToIndex
    ensures forall w :: w in v.wordToIndex <==> w in MARKER || w in words
    ensures v.size == |MARKER| + |Elems(words) - Elems(MARKER)|
  {
    BuildVocabularyFacts(words, order);
    MakeVocabulary(VocabularyList(words, order))
  }

  /** `load_vocabulary` when no vocabulary file exists yet: the questions and then the
      answers are tokenized, deduplicated in `order`, prefixed with the markers and
      enumerated. Every key is a marker or a legal token of the corpus. */
  function LoadVocabulary(questions: seq<string>, answers: seq<string>, order: seq<string>): (v: Vocab)
    requires IsDedupOf(order, CorpusWords(questions, answers))
    ensures forall w :: w in v.wordToIndex <==> w in MARKER || w in CorpusWords(questions, answers)
    ensures forall w :: w in v.wordToIndex ==> w in MARKER || IsToken(w)
    ensures v.size == |MARKER| + |Elems(CorpusWords(questions, answers)) - Elems(MARKER)|
  {
    BuildVocabulary(CorpusWords(questions, answers), order)
  }

  /** The facts `BuildVocabulary` promises, about the maps of the marker-prefixed list. */
  lemma BuildVocabularyFacts(words: seq<string>, order: seq<string>)
    requires IsDedupOf(order, words)
    ensures var v := MakeVocabulary(VocabularyList(words, order));
      && (forall k :: 0 <= k < |MARKER| ==> MARKER[k] in v.wordToIndex)
      && (forall w :: w in v.wordToIndex <==> w in MARKER || w in words)
      && v.size == |MARKER| + |Elems(words) - Elems(MARKER)|
  {
    MarkerPrefixedFacts(words, VocabularyList(words, order));
  }

  /** Maps of any list that starts with the markers and holds exactly the markers and `words`. */
  lemma MarkerPrefixedFacts(words: seq<string>, list: seq<string>)
    requires |MARKER| <= |list|
    requires forall k :: 0 <= k < |MARKER| ==> list[k] == MARKER[k]
    requires Elems(list) == Elems(MARKER) + Elems(words)
    ensures var v := MakeVocabulary(list);
      && (forall k :: 0 <= k < |MARKER| ==> MARKER[k] in v.wordToIndex)
      && (forall w :: w in v.wordToIndex <==> w in MARKER || w in words)
      && v.size == |MARKER| + |Elems(words) - Elems(MARKER)|
  {
    var v := MakeVocabulary(list);
    var rest := Elems(words) - Elems(MARKER);
    assert Elems(list) == Elems(MARKER) + rest;
    assert Elems(MARKER) !! rest;
    MarkersDistinct();
    forall w
      ensures w in v.wordToIndex <==> w in MARKER || w in words
    {
      assert w in list <==> w in Elems(list);
      assert w in MARKER <==> w in Elems(MARKER);
      assert w in words <==> w in Elems(words);
    }
    forall k | 0 <= k < |MARKER|
      ensures MARKER[k] in v.wordToIndex
    {
      assert list[k] in list;
    }
  }

  /** When no corpus word is spelled like a marker, the list has no duplicates, the markers
      get their fixed indices 0, 1, 2, 3, and the size is 4 plus the distinct word count. */
  lemma MarkerIndices(words: seq<string>, order: seq<string>)
    requires IsDedupOf(order, words)
    requires forall w :: w in words ==> w !in MARKER
    ensures NoDup(VocabularyList(words, order))
    ensures var v := BuildVocabulary(words, order);
      && v.wordToIndex[PAD] == PAD_INDEX
      && v.wordToIndex[SOS] == SOS_INDEX
      && v.wordToIndex[EOS] == EOS_INDEX
      && v.wordToIndex[UNK] == UNK_INDEX
      && v.size == |MARKER| + |Elems(words)|
  {
    var list := VocabularyList(words, order);
    PrefixedNoDup(words, order);
    NoDupIndex(list, PAD_INDEX);
    NoDupIndex(list, SOS_INDEX);
    NoDupIndex(list, EOS_INDEX);
    NoDupIndex(list, UNK_INDEX);
    NoDupCard(order);
  }

  lemma PrefixedNoDup(words: seq<string>, order: seq<string>)
    requires IsDedupOf(order, words)
    requires forall w :: w in words ==> w !in MARKER
    ensures NoDup(MARKER + order)
  {
    MarkersDistinct();
    var list := MARKER + order;
    forall i, j | 0 <= i < j < |list|
      ensures list[i] != list[j]
    {
      if i < |MARKER| <= j {
        assert list[i] in MARKER;
        assert list[j] == order[j - |MARKER|];
        assert order[j - |MARKER|] in Elems(words);
      } else if |MARKER| <= i {
        assert list[i] == order[i - |MARKER|] && list[j] == order[j - |MARKER|];
      }
    }
  }

  /** A corpus word spelled like a marker is a legal word, and because the later
      occurrence wins, that marker no longer gets its fixed index. */
  lemma CorpusMarkerShadowsIndex(words: seq<string>, order: seq<string>, k: nat)
    requires IsDedupOf(order, words)
    requires k < |MARKER|
    requires MARKER[k] in words
    ensures BuildVocabulary(words, order).wordToIndex[MARKER[k]] >= |MARKER|
  {
    var list := VocabularyList(words, order);
    assert list == MARKER + order;
    var m := MARKER[k];
    assert m in Elems(order);
    var j :| 0 <= j < |order| && order[j] == m;
    assert list[|MARKER| + j] == m;
  }
}
