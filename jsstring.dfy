/**
  The three JavaScript string built-ins the action relies on, stated on
  `string` (a `seq<char>`):
  - `text.includes(pat)`   : Includes (with the ghost Occurs as its meaning);
  - `s.replaceAll(c, repl)`  : ReplaceAll, for a one-character pattern `c` and a
                               replacement without `$` (JavaScript expands `$&`,
                               `$$`, ... in a replacement string; this model does not);
  - `s.toLowerCase()`      : Lower, restricted to ASCII letters.
*/
module JsString {

  /** `pat` starts at position `i` of `text`. */
  predicate OccursAt(pat: string, text: string, i: nat) {
    i + |pat| <= |text| && text[i..i + |pat|] == pat
  }

  /** `pat` occurs in `text` at some position: the meaning of `includes`. */
  ghost predicate Occurs(pat: string, text: string) {
    exists i: nat :: OccursAt(pat, text, i)
  }

  /** When `pat` does not start `text`, its occurrences in `text` are exactly
      those in `text[1..]`, shifted by one. */
  lemma OccursTail(pat: string, text: string)
    requires |text| > 0
    requires !(pat <= text)
    ensures Occurs(pat, text) <==> Occurs(pat, text[1..])
  {
    var tail := text[1..];
    if Occurs(pat, text) {
      var i: nat :| OccursAt(pat, text, i);
      if i != 0 {
        assert tail[i - 1..i - 1 + |pat|] == pat;
        assert OccursAt(pat, tail, i - 1);
      }
    }
    if Occurs(pat, tail) {
      var j: nat :| OccursAt(pat, tail, j);
      assert text[j + 1..j + 1 + |pat|] == pat;
      assert OccursAt(pat, text, j + 1);
    }
  }

  /** `text.includes(pat)`: scans the start positions of `text` from left to right. */
  function Includes(text: string, pat: string): (r: bool)
    ensures r <==> Occurs(pat, text)
    decreases |text|
  {
    if pat <= text then
      assert OccursAt(pat, text, 0);
      true
    else if |text| <= |pat| then
      false
    else
      OccursTail(pat, text);
      Includes(text[1..], pat)
  }

  /** Containment survives extending the text on both sides. */
  lemma OccursExtend(pat: string, a: string, text: string, b: string)
    requires Occurs(pat, text)
    ensures Occurs(pat, a + text + b)
  {
    var i: nat :| OccursAt(pat, text, i);
    var whole := a + text + b;
    assert whole[|a| + i..|a| + i + |pat|] == pat;
    assert OccursAt(pat, whole, |a| + i);
  }

  /** `s.replaceAll(target, repl)` for a one-character pattern and a replacement without `$`:
      every `target` becomes `repl`. */
  function ReplaceAll(s: string, target: char, repl: string): (r: string)
    ensures target !in repl ==> target !in r
  {
    if s == [] then []
    else
      (if s[0] == target then repl else [s[0]]) + ReplaceAll(s[1..], target, repl)
  }

  /** A string without `target` is left as it is. */
  lemma {:induction false} ReplaceAllAbsent(s: string, target: char, repl: string)
    requires target !in s
    ensures ReplaceAll(s, target, repl) == s
  {
    if s != [] {
      ReplaceAllAbsent(s[1..], target, repl);
    }
  }

  /** Replacing distributes over concatenation. */
  lemma {:induction false} ReplaceAllConcat(a: string, b: string, target: char, repl: string)
    ensures ReplaceAll(a + b, target, repl) == ReplaceAll(a, target, repl) + ReplaceAll(b, target, repl)
  {
    if a == [] {
      assert a + b == b;
    } else {
      var ab := a + b;
      var head := if a[0] == target then repl else [a[0]];
      var restA := ReplaceAll(a[1..], target, repl);
      var restB := ReplaceAll(b, target, repl);
      assert ab[0] == a[0] && ab[1..] == a[1..] + b;
      assert ReplaceAll(ab, target, repl) == head + ReplaceAll(a[1..] + b, target, repl);
      ReplaceAllConcat(a[1..], b, target, repl);
      assert ReplaceAll(a, target, repl) == head + restA;
      assert head + (restA + restB) == (head + restA) + restB;
    }
  }

  /** Replacing by a single character keeps every position and changes only `target`. */
  lemma {:induction false} ReplaceAllByChar(s: string, target: char, c: char)
    ensures |ReplaceAll(s, target, [c])| == |s|
    ensures forall i :: 0 <= i < |s| ==>
      ReplaceAll(s, target, [c])[i] == (if s[i] == target then c else s[i])
  {
    if s != [] {
      ReplaceAllByChar(s[1..], target, c);
      var r := ReplaceAll(s, target, [c]);
      assert r == [if s[0] == target then c else s[0]] + ReplaceAll(s[1..], target, [c]);
    }
  }

  /** Dropping every `target` keeps every other character, each as often as before,
      and shortens the string by the number of `target`s. */
  lemma {:induction false} ReplaceAllByEmpty(s: string, target: char)
    ensures multiset(ReplaceAll(s, target, "")) == multiset(s)[target := 0]
    ensures |ReplaceAll(s, target, "")| == |s| - multiset(s)[target]
  {
    if s != [] {
      assert s == [s[0]] + s[1..];
      ReplaceAllByEmpty(s[1..], target);
      var rest := ReplaceAll(s[1..], target, "");
      if s[0] != target {
        assert ReplaceAll(s, target, "") == [s[0]] + rest;
        assert multiset([s[0]] + rest) == multiset{s[0]} + multiset(rest);
      } else {
        assert ReplaceAll(s, target, "") == "" + rest;
        assert "" + rest == rest;
      }
    }
  }

  /** ASCII lower-casing of one character. */
  function LowerChar(c: char): (r: char)
    ensures 'A' <= c <= 'Z' ==> r as int == c as int + 32
    ensures !('A' <= c <= 'Z') ==> r == c
    ensures !('A' <= r <= 'Z')
  {
    if 'A' <= c <= 'Z' then (c as int + 32) as char else c
  }

  /** `s.toLowerCase()`, for the ASCII letters. */
  function Lower(s: string): (r: string)
    ensures |r| == |s|
    ensures forall i :: 0 <= i < |s| ==> r[i] == LowerChar(s[i])
  {
    seq(|s|, i requires 0 <= i < |s| => LowerChar(s[i]))
  }

  /** Lower-casing distributes over concatenation. */
  lemma LowerConcat(a: string, b: string)
    ensures Lower(a + b) == Lower(a) + Lower(b)
  {
    assert forall i :: 0 <= i < |a + b| ==> Lower(a + b)[i] == (Lower(a) + Lower(b))[i];
  }

  /** Lower-casing twice is lower-casing once. */
  lemma LowerIdempotent(s: string)
    ensures Lower(Lower(s)) == Lower(s)
  {
  }
}
