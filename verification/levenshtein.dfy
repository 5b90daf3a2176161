/**
  Character-level Levenshtein distance (unit-cost insertion, deletion and
  substitution, no transpositions) and the similarity the evaluation script
  derives from it: one minus the distance divided by the longer length.
 */
module Levenshtein {

  import Ratio

  function Min3(x: nat, y: nat, z: nat): nat {
    if x <= y && x <= z then x else if y <= z then y else z
  }

  /** Cell `lev[i][j]` of the dynamic-programming table: the distance between
      the first `i` characters of `a` and the first `j` characters of `b`. It
      is at least the difference of the two prefix lengths, since every
      character of the surplus needs an edit. */
  function Distance(a: string, b: string, i: nat, j: nat): (r: nat)
    requires i <= |a| && j <= |b|
    ensures r >= i - j && r >= j - i
    decreases i + j
  {
    if i == 0 then j
    else if j == 0 then i
    else
      Min3(Distance(a, b, i - 1, j) + 1,
           Distance(a, b, i, j - 1) + 1,
           Distance(a, b, i - 1, j - 1) + (if a[i - 1] == b[j - 1] then 0 else 1))
  }

  /** `edit_distance(a, b)`: the last cell of the table. At least the
      difference of the two lengths. */
  function EditDistance(a: string, b: string): (r: nat)
    ensures r >= |a| - |b| && r >= |b| - |a|
  {
    Distance(a, b, |a|, |b|)
  }

  lemma {:induction false} DistanceSelf(a: string, i: nat)
    requires i <= |a|
    ensures Distance(a, a, i, i) == 0
    decreases i
  {
    if i > 0 {
      DistanceSelf(a, i - 1);
    }
  }

  /** A string is at distance zero from itself. */
  lemma EditDistanceSelf(a: string)
    ensures EditDistance(a, a) == 0
  {
    DistanceSelf(a, |a|);
  }

  /** Only equal prefixes are at distance zero. */
  lemma {:induction false} DistanceZero(a: string, b: string, i: nat, j: nat)
    requires i <= |a| && j <= |b|
    requires Distance(a, b, i, j) == 0
    ensures a[..i] == b[..j]
    decreases i + j
  {
    if i > 0 && j > 0 {
      DistanceZero(a, b, i - 1, j - 1);
      assert a[..i] == a[..i - 1] + [a[i - 1]];
      assert b[..j] == b[..j - 1] + [b[j - 1]];
    }
  }

  /** Only equal strings are at distance zero. */
  lemma EditDistanceZero(a: string, b: string)
    requires EditDistance(a, b) == 0
    ensures a == b
  {
    DistanceZero(a, b, |a|, |b|);
    assert a[..|a|] == a && b[..|b|] == b;
  }

  lemma Min3Mirror(x: nat, y: nat, z: nat, x': nat, y': nat, z': nat)
    requires x == y' && y == x' && z == z'
    ensures Min3(x, y, z) == Min3(x', y', z')
  {
  }

  /** Cell (i, j) for `a` against `b` equals cell (j, i) for `b` against
      `a`. */
  lemma {:induction false} DistanceSymmetric(a: string, b: string, i: nat, j: nat)
    requires i <= |a| && j <= |b|
    ensures Distance(a, b, i, j) == Distance(b, a, j, i)
    decreases i + j
  {
    if i > 0 && j > 0 {
      DistanceSymmetric(a, b, i - 1, j);
      DistanceSymmetric(a, b, i, j - 1);
      DistanceSymmetric(a, b, i - 1, j - 1);
      DistanceSymmetricStep(a, b, i, j);
    }
  }

  /** The inductive step of symmetry: if the three neighbouring cells are
      symmetric, so is the cell itself. */
  lemma DistanceSymmetricStep(a: string, b: string, i: nat, j: nat)
    requires 1 <= i <= |a| && 1 <= j <= |b|
    requires Distance(a, b, i - 1, j) == Distance(b, a, j, i - 1)
    requires Distance(a, b, i, j - 1) == Distance(b, a, j - 1, i)
    requires Distance(a, b, i - 1, j - 1) == Distance(b, a, j - 1, i - 1)
    ensures Distance(a, b, i, j) == Distance(b, a, j, i)
  {
    DistanceCell(a, b, i, j, Distance(b, a, j, i - 1), Distance(b, a, j - 1, i),
                 Distance(b, a, j - 1, i - 1));
    DistanceCell(b, a, j, i, Distance(b, a, j - 1, i), Distance(b, a, j, i - 1),
                 Distance(b, a, j - 1, i - 1));
    Min3Mirror(Distance(b, a, j, i - 1) + 1, Distance(b, a, j - 1, i) + 1,
               Distance(b, a, j - 1, i - 1) + (if a[i - 1] == b[j - 1] then 0 else 1),
               Distance(b, a, j - 1, i) + 1, Distance(b, a, j, i - 1) + 1,
               Distance(b, a, j - 1, i - 1) + (if b[j - 1] == a[i - 1] then 0 else 1));
  }

  lemma EditDistanceSymmetric(a: string, b: string)
    ensures EditDistance(a, b) == EditDistance(b, a)
  {
    DistanceSymmetric(a, b, |a|, |b|);
  }

  /** Rewriting the shorter prefix into the longer one never takes more edits
      than the longer length. */
  lemma {:induction false} DistanceAtMostLonger(a: string, b: string, i: nat, j: nat)
    requires i <= |a| && j <= |b|
    ensures Distance(a, b, i, j) <= if i >= j then i else j
    decreases i + j
  {
    if i > 0 && j > 0 {
      DistanceAtMostLonger(a, b, i - 1, j - 1);
    }
  }

  /** The edit distance never exceeds the longer length, the denominator the
      similarity divides by. */
  lemma EditDistanceAtMostLonger(a: string, b: string)
    ensures EditDistance(a, b) <= if |a| >= |b| then |a| else |b|
  {
    DistanceAtMostLonger(a, b, |a|, |b|);
  }

  /** The table recurrence: cell (i, j) from the values `up`, `left` and
      `diag` of cells (i-1, j), (i, j-1) and (i-1, j-1). */
  lemma DistanceCell(a: string, b: string, i: nat, j: nat, up: nat, left: nat, diag: nat)
    requires 1 <= i <= |a| && 1 <= j <= |b|
    requires up == Distance(a, b, i - 1, j)
    requires left == Distance(a, b, i, j - 1)
    requires diag == Distance(a, b, i - 1, j - 1)
    ensures Distance(a, b, i, j) ==
      Min3(up + 1, left + 1, diag + (if a[i - 1] == b[j - 1] then 0 else 1))
  {
  }

  /** One row of the table: row `i` computed from row `i - 1`. */
  method NextRow(a: string, b: string, i: nat, prev: seq<nat>) returns (row: seq<nat>)
    requires 1 <= i <= |a|
    requires |prev| == |b| + 1
    requires forall j {:trigger prev[j]} :: 0 <= j <= |b| ==> prev[j] == Distance(a, b, i - 1, j)
    ensures |row| == |b| + 1
    ensures forall j {:trigger row[j]} :: 0 <= j <= |b| ==> row[j] == Distance(a, b, i, j)
  {
    row := [i];
    var j := 1;
    while j <= |b|
      invariant 1 <= j <= |b| + 1
      invariant |row| == j
      invariant forall k {:trigger row[k]} :: 0 <= k < j ==> row[k] == Distance(a, b, i, k)
    {
      var cost := if a[i - 1] == b[j - 1] then 0 else 1;
      DistanceCell(a, b, i, j, prev[j], row[j - 1], prev[j - 1]);
      row := row + [Min3(prev[j] + 1, row[j - 1] + 1, prev[j - 1] + cost)];
      j := j + 1;
    }
  }

  /** The distance library fills the whole (|a|+1) x (|b|+1) table; this
      version keeps only two rows, `prev` holding row `i - 1`, and computes
      the same cells row by row. */
  method EditDistanceTable(a: string, b: string) returns (d: nat)
    ensures d == EditDistance(a, b)
  {
    var prev: seq<nat> := seq(|b| + 1, j => j);
    var i := 1;
    while i <= |a|
      invariant 1 <= i <= |a| + 1
      invariant |prev| == |b| + 1
      invariant forall j {:trigger prev[j]} :: 0 <= j <= |b| ==> prev[j] == Distance(a, b, i - 1, j)
    {
      prev := NextRow(a, b, i, prev);
      i := i + 1;
    }
    d := prev[|b|];
  }

  /** `1 - edit_distance(a, b) / max(len(a), len(b))`; the division needs at
      least one non-empty argument. */
  function Similarity(a: string, b: string): (r: real)
    requires |a| > 0 || |b| > 0
    ensures 0.0 <= r <= 1.0
    ensures r == 1.0 <==> a == b
  {
    var longer := if |a| >= |b| then |a| else |b|;
    EditDistanceAtMostLonger(a, b);
    assert EditDistance(a, b) == 0 <==> a == b by {
      if a == b {
        EditDistanceSelf(a);
      } else if EditDistance(a, b) == 0 {
        EditDistanceZero(a, b);
      }
    }
    1.0 - Ratio.Quotient(EditDistance(a, b), longer)
  }

  lemma SimilaritySymmetric(a: string, b: string)
    requires |a| > 0 || |b| > 0
    ensures Similarity(a, b) == Similarity(b, a)
  {
    EditDistanceSymmetric(a, b);
  }
}
