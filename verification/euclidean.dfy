/**
  Euclidean distance between the token-count vectors (`Counter`s) of two
  token lists, kept squared: the sum over every token of either list of the
  squared difference of its two counts, an absent token counting zero.
 */
module Euclidean {

  predicate NoDuplicates(ks: seq<string>) {
    forall i, j :: 0 <= i < j < |ks| ==> ks[i] != ks[j]
  }

  /** The tokens of `ws`, each once, in some order: `set(Counter(ws))`. */
  function Distinct(ws: seq<string>): (ds: seq<string>)
    ensures NoDuplicates(ds)
    ensures forall w :: w in ds <==> w in ws
  {
    if ws == [] then []
    else
      var rest := Distinct(ws[1..]);
      if ws[0] in rest then rest else [ws[0]] + rest
  }

  /** `(vector1[word] - vector2[word]) ** 2`. */
  function Term(A: multiset<string>, B: multiset<string>, w: string): nat {
    var d := A[w] as int - B[w] as int;
    d * d
  }

  function SumSquares(ks: seq<string>, A: multiset<string>, B: multiset<string>): nat {
    if ks == [] then 0 else Term(A, B, ks[0]) + SumSquares(ks[1..], A, B)
  }

  /** The value under the square root of `euclidean_distance(a, b)`. It is
      zero exactly when both lists hold the same tokens the same number of
      times; in particular a list is at distance zero from itself. */
  function SquaredDistance(a: seq<string>, b: seq<string>): (d: nat)
    ensures d == 0 <==> multiset(a) == multiset(b)
  {
    SumSquaresZeroIffSameCounts(a, b, Distinct(a + b));
    SumSquares(Distinct(a + b), multiset(a), multiset(b))
  }

  lemma {:induction false} SumSquaresRemove(ks: seq<string>, p: nat, A: multiset<string>, B: multiset<string>)
    requires p < |ks|
    ensures SumSquares(ks, A, B) == Term(A, B, ks[p]) + SumSquares(ks[..p] + ks[p + 1..], A, B)
    decreases p
  {
    if p > 0 {
      SumSquaresRemove(ks[1..], p - 1, A, B);
      assert ks[..p] + ks[p + 1..] == [ks[0]] + (ks[1..][..p - 1] + ks[1..][p..]);
    } else {
      assert ks[..0] + ks[1..] == ks[1..];
    }
  }

  /** Removing the entry at `p` from a duplicate-free listing leaves a
      duplicate-free listing of every other key. */
  lemma RemoveAt(ls: seq<string>, p: nat)
    requires NoDuplicates(ls)
    requires p < |ls|
    ensures NoDuplicates(ls[..p] + ls[p + 1..])
    ensures forall w :: w in ls[..p] + ls[p + 1..] <==> w in ls && w != ls[p]
  {
  }

  /** The sum does not depend on the order in which the distinct keys are
      visited (Python iterates a set in no specified order). */
  lemma {:induction false} SumSquaresOrderFree(ks: seq<string>, ls: seq<string>, A: multiset<string>, B: multiset<string>)
    requires NoDuplicates(ks) && NoDuplicates(ls)
    requires forall w :: w in ks <==> w in ls
    ensures SumSquares(ks, A, B) == SumSquares(ls, A, B)
    decreases |ks|
  {
    if ks != [] {
      var x := ks[0];
      assert x in ls;
      var p :| 0 <= p < |ls| && ls[p] == x;
      var rest := ls[..p] + ls[p + 1..];
      SumSquaresRemove(ls, p, A, B);
      RemoveAt(ls, p);
      RemoveAt(ks, 0);
      assert ks[..0] + ks[1..] == ks[1..];
      assert forall w :: w in ks[1..] <==> w in rest by {
        forall w
          ensures w in ks[1..] <==> w in rest
        {
          assert w in ks[1..] <==> w in ks[..0] + ks[1..];
          assert w in ks[..0] + ks[1..] <==> w in ks && w != ks[0];
          assert w in rest <==> w in ls && w != ls[p];
          assert w in ks <==> w in ls;
        }
      }
      SumSquaresOrderFree(ks[1..], rest, A, B);
    } else {
      assert forall i :: 0 <= i < |ls| ==> ls[i] in ls;
    }
  }

  /** The squared distance is the sum of the squared count differences over
      any duplicate-free listing of the union of both key sets. */
  lemma SquaredDistanceOverUnion(a: seq<string>, b: seq<string>, ks: seq<string>)
    requires NoDuplicates(ks)
    requires forall w :: w in ks <==> w in a || w in b
    ensures SquaredDistance(a, b) == SumSquares(ks, multiset(a), multiset(b))
  {
    SumSquaresOrderFree(Distinct(a + b), ks, multiset(a), multiset(b));
  }

  lemma {:induction false} SumSquaresSwap(ks: seq<string>, A: multiset<string>, B: multiset<string>)
    ensures SumSquares(ks, A, B) == SumSquares(ks, B, A)
    decreases |ks|
  {
    if ks != [] {
      SumSquaresSwap(ks[1..], A, B);
      var d := A[ks[0]] as int - B[ks[0]] as int;
      assert (-d) * (-d) == d * d;
    }
  }

  lemma SquaredDistanceSymmetric(a: seq<string>, b: seq<string>)
    ensures SquaredDistance(a, b) == SquaredDistance(b, a)
  {
    SquaredDistanceOverUnion(b, a, Distinct(a + b));
    SumSquaresSwap(Distinct(a + b), multiset(a), multiset(b));
  }

  lemma {:induction false} SumSquaresZeroIff(ks: seq<string>, A: multiset<string>, B: multiset<string>)
    ensures SumSquares(ks, A, B) == 0 <==> forall w :: w in ks ==> A[w] == B[w]
    decreases |ks|
  {
    if ks != [] {
      SumSquaresZeroIff(ks[1..], A, B);
      var d := A[ks[0]] as int - B[ks[0]] as int;
      assert d != 0 ==> d * d > 0;
      assert forall w :: w in ks <==> w == ks[0] || w in ks[1..];
    }
  }

  /** Summed over a listing of every token of either list, the squared count
      differences vanish exactly when the two lists have the same counts. */
  lemma SumSquaresZeroIffSameCounts(a: seq<string>, b: seq<string>, ks: seq<string>)
    requires forall w :: w in ks <==> w in a || w in b
    ensures SumSquares(ks, multiset(a), multiset(b)) == 0 <==> multiset(a) == multiset(b)
  {
    SumSquaresZeroIff(ks, multiset(a), multiset(b));
    if SumSquares(ks, multiset(a), multiset(b)) == 0 {
      forall w
        ensures multiset(a)[w] == multiset(b)[w]
      {
        if w !in a && w !in b {
          assert multiset(a)[w] == 0 && multiset(b)[w] == 0;
        } else {
          assert w in ks;
        }
      }
    }
  }

  /** Only the token counts matter: any rearrangement of the first list gives
      the same distance. */
  lemma SquaredDistanceDependsOnCounts(a: seq<string>, a': seq<string>, b: seq<string>)
    requires multiset(a) == multiset(a')
    ensures SquaredDistance(a, b) == SquaredDistance(a', b)
  {
    forall w
      ensures w in a <==> w in a'
    {
      assert w in a <==> w in multiset(a);
      assert w in a' <==> w in multiset(a');
    }
    SquaredDistanceOverUnion(a', b, Distinct(a + b));
  }
}
