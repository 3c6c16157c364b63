/** The tokenizer: delete the punctuation filter class, split on whitespace runs,
    and concatenate the tokens of every sentence of a corpus in order. */
module Tokenizer {
  import opened Seqs

  /** The filter class `~ . , ! ? " ' : ; ) (`; a match is deleted, not replaced by a space. */
  predicate IsFilter(c: char)
  {
    c in {'~', '.', ',', '!', '?', '"', '\'', ':', ';', ')', '('}
  }

  /** The characters Python's `str.split()` (no argument) treats as separators. */
  predicate IsSpace(c: char)
  {
    c in {'\t', '\n', '\U{0B}', '\U{0C}', '\r', '\U{1C}', '\U{1D}', '\U{1E}', '\U{1F}', ' ',
          '\U{85}', '\U{A0}', '\U{1680}',
          '\U{2000}', '\U{2001}', '\U{2002}', '\U{2003}', '\U{2004}', '\U{2005}',
          '\U{2006}', '\U{2007}', '\U{2008}', '\U{2009}', '\U{200A}',
          '\U{2028}', '\U{2029}', '\U{202F}', '\U{205F}', '\U{3000}'}
  }

  predicate NoSpace(s: string)
  {
    forall i :: 0 <= i < |s| ==> !IsSpace(s[i])
  }

  predicate NoFilter(s: string)
  {
    forall i :: 0 <= i < |s| ==> !IsFilter(s[i])
  }

  /** What the tokenizer may emit: non-empty, no filter character, no whitespace. */
  predicate IsToken(w: string)
  {
    |w| > 0 && NoSpace(w) && NoFilter(w)
  }

  /** `re.sub(CHANGE_FILTER, "", s)`: every filter character removed, the rest kept in order. */
  function StripFilters(s: string): (r: string)
    ensures NoFilter(r)
    ensures |r| <= |s|
  {
    Without(s, IsFilter)
  }

  /** Deleting filter characters works piecewise: it commutes with concatenation. */
  lemma StripFiltersAppend(a: string, b: string)
    ensures StripFilters(a + b) == StripFilters(a) + StripFilters(b)
  {
    WithoutAppend(a, b, IsFilter);
  }

  /** A filter character is deleted outright: the text on its two sides closes up with
      nothing in between, so punctuation inside a word fuses the two halves. */
  lemma StripFiltersDeletes(a: string, c: char, b: string)
    requires IsFilter(c)
    ensures StripFilters(a + [c] + b) == StripFilters(a) + StripFilters(b)
  {
    WithoutAppend(a + [c], b, IsFilter);
    WithoutAppend(a, [c], IsFilter);
    assert StripFilters([c]) == "";
  }

  /** Every other character stays where it was. */
  lemma StripFiltersKeeps(a: string, c: char, b: string)
    requires !IsFilter(c)
    ensures StripFilters(a + [c] + b) == StripFilters(a) + [c] + StripFilters(b)
  {
    WithoutAppend(a + [c], b, IsFilter);
    WithoutAppend(a, [c], IsFilter);
    assert StripFilters([c]) == [c];
  }

  /** A string with no filter character is left untouched. */
  lemma StripFiltersKeepsClean(s: string)
    requires NoFilter(s)
    ensures StripFilters(s) == s
  {
    WithoutKeepsClean(s, IsFilter);
  }

  lemma StripFiltersIdempotent(s: string)
    ensures StripFilters(StripFilters(s)) == StripFilters(s)
  {
    StripFiltersKeepsClean(StripFilters(s));
  }

  /** Length of the maximal non-whitespace prefix of `s`. */
  function WordLength(s: string): (n: nat)
    ensures n <= |s|
    ensures NoSpace(s[..n])
    ensures n < |s| ==> IsSpace(s[n])
  {
    if |s| == 0 || IsSpace(s[0]) then 0 else 1 + WordLength(s[1..])
  }

  /** `s.split()`: the maximal whitespace-free runs of `s`, left to right. */
  function SplitWords(s: string): (r: seq<string>)
    ensures forall k :: 0 <= k < |r| ==> |r[k]| > 0 && NoSpace(r[k])
    ensures NoFilter(s) ==> forall k :: 0 <= k < |r| ==> NoFilter(r[k])
    decreases |s|
  {
    if |s| == 0 then []
    else if IsSpace(s[0]) then SplitWords(s[1..])
    else
      var n := WordLength(s);
      [s[..n]] + SplitWords(s[n..])
  }

  /** Splitting loses only whitespace: the words, glued back together, are the
      input with its whitespace deleted. */
  lemma {:induction false} SplitWordsKeepsContent(s: string)
    ensures Flatten(SplitWords(s)) == Without(s, IsSpace)
    decreases |s|
  {
    if |s| > 0 {
      if IsSpace(s[0]) {
        SplitWordsKeepsContent(s[1..]);
      } else {
        var n := WordLength(s);
        assert s == s[..n] + s[n..];
        WithoutAppend(s[..n], s[n..], IsSpace);
        WithoutKeepsClean(s[..n], IsSpace);
        SplitWordsKeepsContent(s[n..]);
        var r := SplitWords(s);
        assert r == [s[..n]] + SplitWords(s[n..]);
        assert r[1..] == SplitWords(s[n..]);
      }
    }
  }

  /** A word that stops before the end of `a` stops at the same place in `a + t`. */
  lemma {:induction false} WordLengthPrefix(a: string, t: string)
    requires WordLength(a) < |a|
    ensures WordLength(a + t) == WordLength(a)
  {
    assert (a + t)[0] == a[0];
    if !IsSpace(a[0]) {
      assert (a + t)[1..] == a[1..] + t;
      WordLengthPrefix(a[1..], t);
    }
  }

  /** Every whitespace character is a word boundary: splitting at any one of them
      splits the two sides independently. */
  lemma {:induction false} SplitWordsAtSpace(a: string, c: char, b: string)
    requires IsSpace(c)
    ensures SplitWords(a + [c] + b) == SplitWords(a) + SplitWords(b)
    decreases |a|
  {
    var s := a + [c] + b;
    if |a| == 0 {
      assert s == [c] + b;
      assert s[1..] == b;
    } else if IsSpace(a[0]) {
      assert s[0] == a[0];
      assert s[1..] == a[1..] + [c] + b;
      SplitWordsAtSpace(a[1..], c, b);
    } else {
      var n := WordLength(a);
      assert s[0] == a[0];
      if n < |a| {
        WordLengthPrefix(a, [c] + b);
        assert s == a + ([c] + b);
        assert s[..n] == a[..n];
        assert s[n..] == a[n..] + [c] + b;
        SplitWordsAtSpace(a[n..], c, b);
        assert SplitWords(s) == [a[..n]] + SplitWords(a[n..] + [c] + b);
        assert SplitWords(a) == [a[..n]] + SplitWords(a[n..]);
      } else {
        WordLengthOfWord(a, [c] + b);
        assert s == a + ([c] + b);
        assert s[..n] == a;
        assert s[n..] == [c] + b;
        assert ([c] + b)[1..] == b;
        assert SplitWords([c] + b) == SplitWords(b);
        assert a[..n] == a && a[n..] == "";
        assert SplitWords(a) == [a];
        assert SplitWords(s) == [a] + SplitWords([c] + b);
      }
    }
  }

  /** Words joined by single spaces. */
  function JoinSpace(ws: seq<string>): string
  {
    if |ws| == 0 then "" else if |ws| == 1 then ws[0] else ws[0] + " " + JoinSpace(ws[1..])
  }

  lemma {:induction false} WordLengthOfWord(w: string, rest: string)
    requires NoSpace(w)
    requires |rest| == 0 || IsSpace(rest[0])
    ensures WordLength(w + rest) == |w|
  {
    if |w| > 0 {
      assert (w + rest)[0] == w[0];
      assert (w + rest)[1..] == w[1..] + rest;
      WordLengthOfWord(w[1..], rest);
    } else {
      assert w + rest == rest;
    }
  }

  /** A non-empty word followed by a space splits off as the first word. */
  lemma SplitWordsCons(w: string, rest: string)
    requires |w| > 0 && NoSpace(w)
    ensures SplitWords(w + " " + rest) == [w] + SplitWords(rest)
  {
    var s := w + (" " + rest);
    assert w + " " + rest == s;
    WordLengthOfWord(w, " " + rest);
    assert s[..|w|] == w;
    assert s[|w|..] == " " + rest;
    assert (" " + rest)[1..] == rest;
  }

  /** Splitting undoes joining: tokens joined by spaces split back into the same tokens. */
  lemma {:induction false} SplitJoinRoundTrip(ws: seq<string>)
    requires forall k :: 0 <= k < |ws| ==> |ws[k]| > 0 && NoSpace(ws[k])
    ensures SplitWords(JoinSpace(ws)) == ws
  {
    if |ws| == 1 {
      var w := ws[0];
      WordLengthOfWord(w, "");
      assert w + "" == w;
      assert w[|w|..] == "";
    } else if |ws| > 1 {
      SplitWordsCons(ws[0], JoinSpace(ws[1..]));
      SplitJoinRoundTrip(ws[1..]);
      assert ws == [ws[0]] + ws[1..];
    }
  }

  /** The tokens of one sentence (the body of the per-sentence loop). */
  function SentenceTokens(sentence: string): (r: seq<string>)
    ensures forall k :: 0 <= k < |r| ==> IsToken(r[k])
  {
    SplitWords(StripFilters(sentence))
  }

  /** The `words` list after the loop: every sentence's tokens appended in turn. */
  function Gather(data: seq<string>): (r: seq<string>)
    ensures forall k :: 0 <= k < |r| ==> IsToken(r[k])
  {
    if |data| == 0 then [] else Gather(data[..|data| - 1]) + SentenceTokens(data[|data| - 1])
  }

  /** `[word for word in words if word]`: exactly the non-empty words are kept, and a
      list without empty words comes back unchanged. */
  function DropEmpty(ws: seq<string>): (r: seq<string>)
    ensures forall k :: 0 <= k < |r| ==> |r[k]| > 0
    ensures forall k :: 0 <= k < |r| ==> r[k] in ws
    ensures forall w :: w in ws && |w| > 0 ==> w in r
    ensures (forall k :: 0 <= k < |ws| ==> |ws[k]| > 0) ==> r == ws
  {
    if |ws| == 0 then []
    else
      var rest := DropEmpty(ws[1..]);
      assert ws == [ws[0]] + ws[1..];
      if |ws[0]| > 0 then [ws[0]] + rest else rest
  }

  /** `data_tokenizer`: never emits an empty token, a filter character or whitespace. */
  function Tokenize(data: seq<string>): (r: seq<string>)
    ensures forall k :: 0 <= k < |r| ==> IsToken(r[k])
  {
    DropEmpty(Gather(data))
  }

  /** The filter works word by word, so the kept words stay in their input order. */
  lemma {:induction false} DropEmptyAppend(a: seq<string>, b: seq<string>)
    ensures DropEmpty(a + b) == DropEmpty(a) + DropEmpty(b)
  {
    if |a| > 0 {
      assert (a + b)[0] == a[0];
      assert (a + b)[1..] == a[1..] + b;
      DropEmptyAppend(a[1..], b);
      if |a[0]| > 0 {
        assert DropEmpty(a + b) == [a[0]] + DropEmpty(a[1..] + b);
        assert DropEmpty(a) == [a[0]] + DropEmpty(a[1..]);
      } else {
        assert DropEmpty(a + b) == DropEmpty(a[1..] + b);
        assert DropEmpty(a) == DropEmpty(a[1..]);
      }
    } else {
      assert a + b == b;
    }
  }

  /** The final empty-token filter never removes anything. */
  lemma TokenizeIsGather(data: seq<string>)
    ensures Tokenize(data) == Gather(data)
  {
  }

  lemma {:induction false} GatherAppend(a: seq<string>, b: seq<string>)
    ensures Gather(a + b) == Gather(a) + Gather(b)
    decreases |b|
  {
    if |b| == 0 {
      assert a + b == a;
    } else {
      var ab := a + b;
      assert ab[..|ab| - 1] == a + b[..|b| - 1];
      assert ab[|ab| - 1] == b[|b| - 1];
      GatherAppend(a, b[..|b| - 1]);
      calc {
        Gather(ab);
        Gather(a + b[..|b| - 1]) + SentenceTokens(b[|b| - 1]);
        (Gather(a) + Gather(b[..|b| - 1])) + SentenceTokens(b[|b| - 1]);
      }
    }
  }

  /** Tokenizing a list of sentences is concatenating the per-sentence token lists,
      with sentence order and word order kept. */
  lemma {:induction false} TokenizeConcatenates(data: seq<string>)
    ensures Tokenize(data) == Flatten(seq(|data|, i requires 0 <= i < |data| => SentenceTokens(data[i])))
  {
    TokenizeIsGather(data);
    GatherIsFlatten(data);
  }

  lemma {:induction false} GatherIsFlatten(data: seq<string>)
    ensures Gather(data) == Flatten(seq(|data|, i requires 0 <= i < |data| => SentenceTokens(data[i])))
  {
    if |data| > 0 {
      var init := data[..|data| - 1];
      var last := data[|data| - 1];
      GatherIsFlatten(init);
      var all := seq(|data|, i requires 0 <= i < |data| => SentenceTokens(data[i]));
      var front := seq(|init|, i requires 0 <= i < |init| => SentenceTokens(init[i]));
      assert all == front + [SentenceTokens(last)];
      FlattenAppend(front, [SentenceTokens(last)]);
      assert Flatten([SentenceTokens(last)]) == SentenceTokens(last) + Flatten<string>([]);
    }
  }

  /** Tokenizing two lists one after the other gives the tokens of their concatenation. */
  lemma TokenizeAppend(a: seq<string>, b: seq<string>)
    ensures Tokenize(a + b) == Tokenize(a) + Tokenize(b)
  {
    TokenizeIsGather(a + b);
    TokenizeIsGather(a);
    TokenizeIsGather(b);
    GatherAppend(a, b);
  }

  /** A worked example: the `!` glued to the last word is deleted and the space splits. */
  lemma SentenceTokensExample()
    ensures SentenceTokens("12시 땡!") == ["12시", "땡"]
  {
    StripFiltersExample();
    var t := "12시 땡";
    assert WordLength(t) == 3;
    assert t[..3] == "12시" && t[3..] == " 땡";
    var u := "땡";
    assert WordLength(u) == 1;
    assert u[..1] == u && u[1..] == "";
    assert SplitWords(u) == [u];
    assert SplitWords(" 땡") == SplitWords(u);
    assert SplitWords(t) == ["12시"] + SplitWords(" 땡");
  }

  lemma StripFiltersExample()
    ensures StripFilters("12시 땡!") == "12시 땡"
  {
  }

  /** Punctuation inside a word is deleted, not turned into a space: `a.b` is one token. */
  lemma GluedPunctuationExample()
    ensures SentenceTokens("a.b") == ["ab"]
  {
    StripFiltersDeletes("a", '.', "b");
    assert "a" + ['.'] + "b" == "a.b";
    StripFiltersKeepsClean("a");
    StripFiltersKeepsClean("b");
    var t := "ab";
    assert StripFilters("a.b") == t;
    WordLengthOfWord(t, "");
    assert t + "" == t;
    assert t[..2] == t && t[2..] == "";
  }
}
