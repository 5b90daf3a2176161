/**
  Whitespace tokenisation as performed by Python's argument-less `str.split()`:
  runs of whitespace separate words, leading and trailing whitespace is dropped,
  and no empty word is ever produced. Every metric and word count of the
  evaluation script is built on this split.
 */
module Text {

  /** Python's `str.isspace` characters, the separators of `str.split()`. */
  predicate IsSpace(c: char) {
    var n := c as int;
    || 0x09 <= n <= 0x0D
    || 0x1C <= n <= 0x20
    || n == 0x85 || n == 0xA0 || n == 0x1680
    || 0x2000 <= n <= 0x200A
    || n == 0x2028 || n == 0x2029 || n == 0x202F || n == 0x205F || n == 0x3000
  }

  /** A word as `str.split()` yields it: non-empty and free of whitespace. */
  predicate IsWord(w: string) {
    |w| > 0 && forall i :: 0 <= i < |w| ==> !IsSpace(w[i])
  }

  predicate AllSpace(s: string) {
    forall i :: 0 <= i < |s| ==> IsSpace(s[i])
  }

  /** Length of the longest whitespace-free prefix of `s`. */
  function WordPrefixLength(s: string): (k: nat)
    ensures k <= |s|
    ensures forall i :: 0 <= i < k ==> !IsSpace(s[i])
    ensures k < |s| ==> IsSpace(s[k])
  {
    if s == [] || IsSpace(s[0]) then 0 else 1 + WordPrefixLength(s[1..])
  }

  /** Python's `s.split()`. */
  function Split(s: string): (ws: seq<string>)
    ensures forall i :: 0 <= i < |ws| ==> IsWord(ws[i])
    decreases |s|
  {
    if s == [] then []
    else if IsSpace(s[0]) then Split(s[1..])
    else
      var k := WordPrefixLength(s);
      [s[..k]] + Split(s[k..])
  }

  /** `len(s.split())`, the word count the script reports as a length. It
      is zero exactly for empty or all-whitespace strings. */
  function WordCount(s: string): (n: nat)
    ensures n == 0 <==> AllSpace(s)
  {
    SplitEmptyIff(s);
    |Split(s)|
  }

  /** Python's `" ".join(ws)`. */
  function Join(ws: seq<string>): string {
    if ws == [] then []
    else if |ws| == 1 then ws[0]
    else ws[0] + " " + Join(ws[1..])
  }

  /** The characters of `s` that are not whitespace, in order. */
  function NonSpace(s: string): string {
    if s == [] then []
    else if IsSpace(s[0]) then NonSpace(s[1..])
    else [s[0]] + NonSpace(s[1..])
  }

  function Concat(ws: seq<string>): string {
    if ws == [] then [] else ws[0] + Concat(ws[1..])
  }

  lemma {:induction false} NonSpaceAppend(x: string, y: string)
    ensures NonSpace(x + y) == NonSpace(x) + NonSpace(y)
    decreases |x|
  {
    if x != [] {
      assert (x + y)[1..] == x[1..] + y;
      NonSpaceAppend(x[1..], y);
    } else {
      assert x + y == y;
    }
  }

  lemma {:induction false} NonSpaceOfWordChars(w: string)
    requires forall i :: 0 <= i < |w| ==> !IsSpace(w[i])
    ensures NonSpace(w) == w
    decreases |w|
  {
    if w != [] {
      NonSpaceOfWordChars(w[1..]);
      assert w == [w[0]] + w[1..];
    }
  }

  /** Splitting neither loses nor invents characters: the words, glued
      together, are exactly the non-whitespace characters of the input. */
  lemma {:induction false} SplitKeepsContent(s: string)
    ensures Concat(Split(s)) == NonSpace(s)
    decreases |s|
  {
    if s == [] {
    } else if IsSpace(s[0]) {
      SplitKeepsContent(s[1..]);
    } else {
      var k := WordPrefixLength(s);
      SplitKeepsContent(s[k..]);
      assert s == s[..k] + s[k..];
      NonSpaceAppend(s[..k], s[k..]);
      NonSpaceOfWordChars(s[..k]);
    }
  }

  /** `s.split()` is empty exactly when `s` is empty or only whitespace. */
  lemma {:induction false} SplitEmptyIff(s: string)
    ensures Split(s) == [] <==> AllSpace(s)
    decreases |s|
  {
    if s != [] && IsSpace(s[0]) {
      SplitEmptyIff(s[1..]);
      if AllSpace(s[1..]) {
        forall i | 0 <= i < |s|
          ensures IsSpace(s[i])
        {
          if i > 0 {
            assert s[i] == s[1..][i - 1];
          }
        }
      }
    }
  }

  lemma {:induction false} WordPrefixOfWord(w: string, rest: string)
    requires forall i :: 0 <= i < |w| ==> !IsSpace(w[i])
    requires rest == [] || IsSpace(rest[0])
    ensures WordPrefixLength(w + rest) == |w|
    decreases |w|
  {
    if w == [] {
      assert w + rest == rest;
    } else {
      assert (w + rest)[1..] == w[1..] + rest;
      WordPrefixOfWord(w[1..], rest);
    }
  }

  /** A word followed by a separator (or by nothing) splits off as one token. */
  lemma SplitWordThenRest(w: string, rest: string)
    requires IsWord(w)
    requires rest == [] || IsSpace(rest[0])
    ensures Split(w + rest) == [w] + Split(rest)
  {
    WordPrefixOfWord(w, rest);
    var s := w + rest;
    assert s[..|w|] == w;
    assert s[|w|..] == rest;
  }

  /** A run of whitespace of any length in front of a string is skipped. */
  lemma {:induction false} SplitSpaceRun(sp: string, rest: string)
    requires AllSpace(sp)
    ensures Split(sp + rest) == Split(rest)
    decreases |sp|
  {
    if sp == [] {
      assert sp + rest == rest;
    } else {
      assert (sp + rest)[0] == sp[0];
      assert (sp + rest)[1..] == sp[1..] + rest;
      SplitSpaceRun(sp[1..], rest);
    }
  }

  /** The string `seps[0] + ws[0] + seps[1] + ... + ws[n-1] + seps[n]`: the
      words `ws` laid out with the separators `seps` around and between
      them. */
  function Interleave(seps: seq<string>, ws: seq<string>): string
    requires |seps| == |ws| + 1
    decreases |ws|
  {
    if ws == [] then seps[0] else seps[0] + ws[0] + Interleave(seps[1..], ws[1..])
  }

  /** Words separated by whitespace runs of any length, with any (possibly
      empty) whitespace before the first and after the last, split back into
      exactly those words: every maximal whitespace-free run is one token. */
  lemma {:induction false} SplitInterleave(seps: seq<string>, ws: seq<string>)
    requires |seps| == |ws| + 1
    requires forall i :: 0 <= i < |seps| ==> AllSpace(seps[i])
    requires forall i :: 0 < i < |ws| ==> |seps[i]| > 0
    requires forall i :: 0 <= i < |ws| ==> IsWord(ws[i])
    ensures Split(Interleave(seps, ws)) == ws
    decreases |ws|
  {
    if ws == [] {
      SplitEmptyIff(seps[0]);
    } else {
      var rest := Interleave(seps[1..], ws[1..]);
      assert forall i :: 0 < i < |ws[1..]| ==> |seps[1..][i]| == |seps[i + 1]| > 0;
      SplitInterleave(seps[1..], ws[1..]);
      if |ws| > 1 {
        assert rest == seps[1] + (ws[1] + Interleave(seps[2..], ws[2..]));
        assert rest[0] == seps[1][0];
      }
      assert AllSpace(seps[1]);
      SplitWordThenRest(ws[0], rest);
      assert seps[0] + ws[0] + rest == seps[0] + (ws[0] + rest);
      SplitSpaceRun(seps[0], ws[0] + rest);
      assert ws == [ws[0]] + ws[1..];
    }
  }

  /** Splitting a space-joined list of words gives the list back. */
  lemma {:induction false} SplitJoin(ws: seq<string>)
    requires forall i :: 0 <= i < |ws| ==> IsWord(ws[i])
    ensures Split(Join(ws)) == ws
    decreases |ws|
  {
    if ws == [] {
    } else if |ws| == 1 {
      SplitWordThenRest(ws[0], []);
      assert ws[0] + [] == ws[0];
    } else {
      var tail := Join(ws[1..]);
      SplitJoin(ws[1..]);
      assert ws[0] + " " + tail == ws[0] + (" " + tail);
      SplitWordThenRest(ws[0], " " + tail);
      assert (" " + tail)[1..] == tail;
      assert ws == [ws[0]] + ws[1..];
    }
  }
}
