/**
  The target-length half of `generate_prompt`: the word budget handed to the
  generator for one trial. The rendered instruction text is represented by
  the triple it is rendered from (see `Prompt`).
 */
module Prompting {

  import opened Text

  /** The script's two operations, `'longer'` and `'shorter'`. */
  datatype Operation = Longer | Shorter

  /** The prompt string is rendered from exactly these three values. */
  datatype Prompt = Prompt(text: string, factor: real, operation: Operation)

  /** `int(words * f)` for `'longer'`, `int(words / f)` otherwise; `int()`
      of a non-negative number is its floor. */
  function TargetLength(words: nat, factor: real, op: Operation): (t: nat)
    requires 0.0 < factor
    ensures op == Longer ==> t as real <= words as real * factor < t as real + 1.0
    ensures op == Shorter ==> t as real <= words as real / factor < t as real + 1.0
  {
    if op == Longer then (words as real * factor).Floor else (words as real / factor).Floor
  }

  /** With a factor of at most one, `'longer'` never asks for more words than
      the original has and `'shorter'` never asks for fewer: the labels are
      the reverse of what the code computes. */
  lemma TargetLengthBounds(words: nat, factor: real, op: Operation)
    requires 0.0 < factor <= 1.0
    ensures op == Longer ==> TargetLength(words, factor, op) <= words
    ensures op == Shorter ==> TargetLength(words, factor, op) >= words
  {
    var n := words as real;
    var t := TargetLength(words, factor, op);
    if op == Longer {
      assert n - n * factor == n * (1.0 - factor);
      ProductNonNegative(n, 1.0 - factor);
      assert t as real <= n;
    } else {
      var q := n / factor;
      assert q >= 0.0;
      assert q * factor == n;
      assert q - n == q * (1.0 - factor);
      ProductNonNegative(q, 1.0 - factor);
      assert q < t as real + 1.0;
    }
  }

  lemma ProductNonNegative(x: real, y: real)
    requires 0.0 <= x && 0.0 <= y
    ensures 0.0 <= x * y
  {
  }

  /** The word count `generate_prompt` starts from, for a four-word text. */
  lemma FourWordCount()
    ensures WordCount("one two three four") == 4
  {
    var ws := ["one", "two", "three", "four"];
    assert Join(ws) == "one two three four";
    SplitJoin(ws);
  }

  /** The targets for a four-word text at factors 0.5 and 0.75. */
  lemma FourWordTargets()
    ensures TargetLength(4, 0.5, Longer) == 2
    ensures TargetLength(4, 0.5, Shorter) == 8
    ensures TargetLength(4, 0.75, Longer) == 3
    ensures TargetLength(4, 0.75, Shorter) == 5
  {
  }
}
