/**
  Jaccard similarity of the whitespace-token sets of two strings:
  `|A ∩ B| / |A ∪ B|`, undefined when neither string has a token.
 */
module Jaccard {

  import opened Text
  import Ratio

  /** `set(s.split())`. Every token is a word, and a string has no tokens
      exactly when its word count is zero, that is, when it is empty or all
      whitespace: the similarity is defined unless both strings are blank. */
  function TokenSet(s: string): (r: set<string>)
    ensures forall w :: w in r ==> IsWord(w)
    ensures r == {} <==> WordCount(s) == 0
  {
    var ws := Split(s);
    var r := set w | w in ws;
    assert ws != [] ==> ws[0] in r;
    assert forall w :: w in r ==> IsWord(w) by {
      forall w | w in r
        ensures IsWord(w)
      {
        var i :| 0 <= i < |ws| && ws[i] == w;
      }
    }
    r
  }

  /** A set contained in another is no larger, and equally large only when
      the two are equal. */
  lemma {:induction false} SubsetCardinality<T>(x: set<T>, y: set<T>)
    requires x <= y
    ensures |x| <= |y|
    ensures |x| == |y| ==> x == y
    decreases y
  {
    if y != {} {
      var e :| e in y;
      SubsetCardinality(x - {e}, y - {e});
      if e in x {
        assert x == (x - {e}) + {e};
      } else {
        assert x - {e} == x;
      }
      assert y == (y - {e}) + {e};
    }
  }

  function Similarity(a: string, b: string): (r: real)
    requires TokenSet(a) + TokenSet(b) != {}
    ensures 0.0 <= r <= 1.0
    ensures r == 1.0 <==> TokenSet(a) == TokenSet(b)
    ensures r == 0.0 <==> TokenSet(a) !! TokenSet(b)
  {
    var A, B := TokenSet(a), TokenSet(b);
    SubsetCardinality(A * B, A + B);
    assert A * B == A + B ==> A == B by {
      if A * B == A + B {
        assert A <= A + B && B <= A + B;
      }
    }
    assert A !! B <==> |A * B| == 0 by {
      if !(A !! B) {
        var e :| e in A && e in B;
        assert e in A * B;
      }
    }
    Ratio.Quotient(|A * B|, |A + B|)
  }

  lemma SimilaritySymmetric(a: string, b: string)
    requires TokenSet(a) + TokenSet(b) != {}
    ensures Similarity(a, b) == Similarity(b, a)
  {
    assert TokenSet(a) * TokenSet(b) == TokenSet(b) * TokenSet(a);
    assert TokenSet(a) + TokenSet(b) == TokenSet(b) + TokenSet(a);
  }

  /** The tokens of a space-joined word list are the words of the list. */
  lemma TokenSetOfJoin(ws: seq<string>)
    requires forall i :: 0 <= i < |ws| ==> IsWord(ws[i])
    ensures TokenSet(Join(ws)) == set w | w in ws
  {
    SplitJoin(ws);
  }

  /** Repeating or reordering the words of the first string leaves the
      similarity unchanged: only the set of words matters. */
  lemma SimilarityIgnoresOrderAndRepetition(ws: seq<string>, vs: seq<string>, b: string)
    requires forall i :: 0 <= i < |ws| ==> IsWord(ws[i])
    requires forall i :: 0 <= i < |vs| ==> IsWord(vs[i])
    requires (set w | w in ws) == (set v | v in vs)
    requires TokenSet(Join(ws)) + TokenSet(b) != {}
    ensures TokenSet(Join(vs)) + TokenSet(b) != {}
    ensures Similarity(Join(ws), b) == Similarity(Join(vs), b)
  {
    TokenSetOfJoin(ws);
    TokenSetOfJoin(vs);
  }
}
