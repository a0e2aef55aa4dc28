/**
  The banned-term matcher `checkTerm(text, term)` (src/index.js:38-42): a term
  counts as present in a text when the text contains the term as written, the
  term with every space turned into a hyphen, or the term with every space
  removed. The caller lower-cases both sides beforehand; the matcher itself
  does no normalisation beyond these two spellings.
*/
module TermMatcher {
  import opened JsString

  /** `term.replaceAll(' ', '-')`: the hyphenated spelling. */
  function Hyphenated(term: string): (r: string)
    ensures |r| == |term|
    ensures ' ' !in r
    ensures forall i :: 0 <= i < |term| ==> r[i] == (if term[i] == ' ' then '-' else term[i])
  {
    ReplaceAllByChar(term, ' ', '-');
    ReplaceAll(term, ' ', "-")
  }

  /** `term.replaceAll(' ', '')`: the spelling with the spaces run together. */
  function Squashed(term: string): (r: string)
    ensures ' ' !in r
    ensures |r| <= |term|
  {
    ReplaceAllByEmpty(term, ' ');
    ReplaceAll(term, ' ', "")
  }

  /** Running the spaces together keeps every other character, each as often as before,
      and shortens the term by its number of spaces. */
  lemma SquashedCounts(term: string)
    ensures multiset(Squashed(term)) == multiset(term)[' ' := 0]
    ensures |Squashed(term)| == |term| - multiset(term)[' ']
  {
    ReplaceAllByEmpty(term, ' ');
  }

  /** `checkTerm(text, term)`: true iff one of the three spellings occurs in `text`. */
  function CheckTerm(text: string, term: string): (r: bool)
    ensures r <==> Occurs(term, text) || Occurs(Hyphenated(term), text) || Occurs(Squashed(term), text)
  {
    Includes(text, term) || Includes(text, Hyphenated(term)) || Includes(text, Squashed(term))
  }

  /** For a term without spaces both respellings are the term itself, so matching
      is plain containment. */
  lemma NoSpaceTermIsPlainContainment(text: string, term: string)
    requires ' ' !in term
    ensures Hyphenated(term) == term
    ensures Squashed(term) == term
    ensures CheckTerm(text, term) <==> Includes(text, term)
  {
    ReplaceAllAbsent(term, ' ', "-");
    ReplaceAllAbsent(term, ' ', "");
  }

  /** Respelling is idempotent: the respelt terms contain no space left to replace. */
  lemma RespellingIdempotent(term: string)
    ensures Hyphenated(Hyphenated(term)) == Hyphenated(term)
    ensures Squashed(Squashed(term)) == Squashed(term)
  {
    NoSpaceTermIsPlainContainment("", Hyphenated(term));
    NoSpaceTermIsPlainContainment("", Squashed(term));
  }

  /** Respelling works piecewise: a term split in two is respelt half by half. */
  lemma RespellingConcat(a: string, b: string)
    ensures Hyphenated(a + b) == Hyphenated(a) + Hyphenated(b)
    ensures Squashed(a + b) == Squashed(a) + Squashed(b)
  {
    ReplaceAllConcat(a, b, ' ', "-");
    ReplaceAllConcat(a, b, ' ', "");
  }

  /** Matching is monotone in the text: a match survives any text added around it. */
  lemma CheckTermExtend(text: string, term: string, before: string, after: string)
    requires CheckTerm(text, term)
    ensures CheckTerm(before + text + after, term)
  {
    if Occurs(term, text) {
      OccursExtend(term, before, text, after);
    } else if Occurs(Hyphenated(term), text) {
      OccursExtend(Hyphenated(term), before, text, after);
    } else {
      OccursExtend(Squashed(term), before, text, after);
    }
  }

  /** The empty term is contained in every text. */
  lemma EmptyTermMatchesEverything(text: string)
    ensures CheckTerm(text, "")
  {
    assert OccursAt("", text, 0);
  }

  /** A term matches any text in which one of its three spellings is embedded. */
  lemma EverySpellingMatches(term: string, before: string, after: string)
    ensures CheckTerm(before + term + after, term)
    ensures CheckTerm(before + Hyphenated(term) + after, term)
    ensures CheckTerm(before + Squashed(term) + after, term)
  {
    assert OccursAt(term, before + term + after, |before|);
    assert OccursAt(Hyphenated(term), before + Hyphenated(term) + after, |before|);
    assert OccursAt(Squashed(term), before + Squashed(term) + after, |before|);
  }

  /** A lone space is respelt "-" and "". */
  lemma SpaceRespelt()
    ensures Hyphenated(" ") == "-"
    ensures Squashed(" ") == ""
  {
    assert Hyphenated(" ")[0] == '-';
  }

  /** A two-word term "w1 w2" is hyphenated to "w1-w2". */
  lemma TwoWordHyphenated(w1: string, w2: string)
    requires ' ' !in w1 && ' ' !in w2
    ensures Hyphenated(w1 + " " + w2) == w1 + "-" + w2
  {
    SpaceRespelt();
    RespellingConcat(w1 + " ", w2);
    RespellingConcat(w1, " ");
    NoSpaceTermIsPlainContainment("", w1);
    NoSpaceTermIsPlainContainment("", w2);
  }

  /** A two-word term "w1 w2" is squashed to "w1w2". */
  lemma TwoWordSquashed(w1: string, w2: string)
    requires ' ' !in w1 && ' ' !in w2
    ensures Squashed(w1 + " " + w2) == w1 + w2
  {
    SpaceRespelt();
    NoSpaceTermIsPlainContainment("", w1);
    NoSpaceTermIsPlainContainment("", w2);
    RespellingConcat(w1 + " ", w2);
    RespellingConcat(w1, " ");
    calc {
      Squashed(w1 + " " + w2);
      Squashed(w1 + " ") + Squashed(w2);
      Squashed(w1) + Squashed(" ") + Squashed(w2);
      w1 + "" + w2;
      { assert w1 + "" == w1; }
      w1 + w2;
    }
  }

  /** Such a term matches a text holding "w1 w2", "w1-w2" or "w1w2" anywhere. */
  lemma TwoWordSpellingsMatch(w1: string, w2: string, before: string, after: string)
    requires ' ' !in w1 && ' ' !in w2
    ensures CheckTerm(before + (w1 + " " + w2) + after, w1 + " " + w2)
    ensures CheckTerm(before + (w1 + "-" + w2) + after, w1 + " " + w2)
    ensures CheckTerm(before + (w1 + w2) + after, w1 + " " + w2)
  {
    TwoWordHyphenated(w1, w2);
    TwoWordSquashed(w1, w2);
    EverySpellingMatches(w1 + " " + w2, before, after);
  }

  /** The two respellings of "foo bar". */
  lemma FooBarRespelt()
    ensures Hyphenated("foo bar") == "foo-bar"
    ensures Squashed("foo bar") == "foobar"
  {
    var foo, bar := "foo", "bar";
    assert ' ' !in foo && ' ' !in bar;
    TwoWordHyphenated(foo, bar);
    TwoWordSquashed(foo, bar);
    assert foo + " " + bar == "foo bar";
    assert foo + "-" + bar == "foo-bar";
    assert foo + bar == "foobar";
  }

  /** A pattern does not start at a position where one of its characters differs. */
  lemma MismatchAt(pat: string, text: string, i: nat, k: nat)
    requires k < |pat| && i + k < |text| && text[i + k] != pat[k]
    ensures !OccursAt(pat, text, i)
  {
  }

  /** None of the spellings of "foo bar" occurs in a text that splits it at another place. */
  lemma FooBarMisplacedSpaceOccurrences()
    ensures !Occurs("foo bar", "xfo obarx")
    ensures !Occurs("foo-bar", "xfo obarx")
    ensures !Occurs("foobar", "xfo obarx")
  {
    var text, spaced, hyphened, joined := "xfo obarx", "foo bar", "foo-bar", "foobar";
    assert text[0] == 'x' && text[1] == 'f' && text[2] == 'o' && text[3] == ' ' && text[4] == 'o';
    assert spaced[0] == 'f' && spaced[2] == 'o';
    assert hyphened[0] == 'f' && hyphened[2] == 'o';
    assert joined[0] == 'f' && joined[2] == 'o';
    forall i: nat | i + 6 <= |text|
      ensures !OccursAt(spaced, text, i)
      ensures !OccursAt(hyphened, text, i)
      ensures !OccursAt(joined, text, i)
    {
      var k := if i == 1 then 2 else 0;
      MismatchAt(spaced, text, i, k);
      MismatchAt(hyphened, text, i, k);
      MismatchAt(joined, text, i, k);
    }
  }

  /** So a text that splits "foo bar" at another place does not match it. */
  lemma FooBarMisplacedSpace()
    ensures !CheckTerm("xfo obarx", "foo bar")
  {
    FooBarMisplacedSpaceOccurrences();
    FooBarRespelt();
  }
}
