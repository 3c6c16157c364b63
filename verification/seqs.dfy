/** Small sequence helpers shared by the tokenizer, the vocabulary and the encoders. */
module Seqs {

  /** The set of elements of a sequence (what Python's `set(list)` keeps). */
  function Elems<T>(s: seq<T>): set<T>
  {
    set x | x in s
  }

  /** No element occurs twice. */
  predicate NoDup<T(==)>(s: seq<T>)
  {
    forall i, j :: 0 <= i < j < |s| ==> s[i] != s[j]
  }

  /** `d` is one admissible result of `list(set(words))`: every word exactly once, in some order. */
  predicate IsDedupOf<T(==)>(d: seq<T>, words: seq<T>)
  {
    NoDup(d) && Elems(d) == Elems(words)
  }

  /** Concatenation of a list of lists, in order. */
  function Flatten<T>(ss: seq<seq<T>>): seq<T>
  {
    if |ss| == 0 then [] else ss[0] + Flatten(ss[1..])
  }

  /** `s` with every element that `drop` selects deleted, the rest kept in order
      (a character-class deletion such as `re.sub(CLASS, "", s)`). */
  function Without<T>(s: seq<T>, drop: T -> bool): (r: seq<T>)
    ensures forall i :: 0 <= i < |r| ==> !drop(r[i])
    ensures |r| <= |s|
  {
    if |s| == 0 then [] else (if drop(s[0]) then [] else [s[0]]) + Without(s[1..], drop)
  }

  /** Deletion works element by element, so it commutes with concatenation. */
  lemma {:induction false} WithoutAppend<T>(a: seq<T>, b: seq<T>, drop: T -> bool)
    ensures Without(a + b, drop) == Without(a, drop) + Without(b, drop)
  {
    if |a| > 0 {
      assert (a + b)[0] == a[0];
      assert (a + b)[1..] == a[1..] + b;
      WithoutAppend(a[1..], b, drop);
    } else {
      assert a + b == b;
    }
  }

  /** A sequence with nothing to delete is returned unchanged. */
  lemma {:induction false} WithoutKeepsClean<T>(s: seq<T>, drop: T -> bool)
    requires forall i :: 0 <= i < |s| ==> !drop(s[i])
    ensures Without(s, drop) == s
  {
    if |s| > 0 {
      WithoutKeepsClean(s[1..], drop);
    }
  }

  function Min(a: int, b: int): int
  {
    if a <= b then a else b
  }

  /** A duplicate-free sequence has as many distinct elements as it has positions. */
  lemma {:induction false} NoDupCard<T>(s: seq<T>)
    requires NoDup(s)
    ensures |Elems(s)| == |s|
  {
    if |s| > 0 {
      var init := s[..|s| - 1];
      assert NoDup(init);
      NoDupCard(init);
      assert Elems(s) == Elems(init) + {s[|s| - 1]};
      assert forall i :: 0 <= i < |init| ==> init[i] != s[|s| - 1];
      assert s[|s| - 1] !in Elems(init);
    }
  }

  lemma {:induction false} FlattenAppend<T>(a: seq<seq<T>>, b: seq<seq<T>>)
    ensures Flatten(a + b) == Flatten(a) + Flatten(b)
  {
    if |a| > 0 {
      assert (a + b)[1..] == a[1..] + b;
      FlattenAppend(a[1..], b);
    } else {
      assert a + b == b;
    }
  }
}
