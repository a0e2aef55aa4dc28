/**
  The action's entry point `run()` (src/index.js:4-36): three guards that fail
  the run, the lower-cased issue text, and the scan of the banned terms that
  acts on the first one found and then stops.
*/
module Action {
  import opened Wrappers
  import opened JsString
  import opened TermMatcher
  import opened IssueCloser

  /** The issue of the triggering event; a missing title or body is `None`. */
  datatype Issue = Issue(number: int, title: Option<string>, body: Option<string>)

  /** What `run()` reads: the `GITHUB_TOKEN` input, the event's issue payload (absent
      for other events), the repository, the `banned-words` lines as
      `getMultilineInput` returns them, and the `close-label` input. */
  datatype Inputs = Inputs(
    token: string,
    issue: Option<Issue>,
    owner: string,
    repo: string,
    bannedWords: seq<string>,
    closeLabel: string)

  /** The searched text: title and body joined by one space, then lower-cased. */
  function IssueText(issue: Issue): (r: string)
    ensures r == Lower(issue.title.GetOr("")) + " " + Lower(issue.body.GetOr(""))
    ensures |r| == |issue.title.GetOr("")| + 1 + |issue.body.GetOr("")|
  {
    var title, body := issue.title.GetOr(""), issue.body.GetOr("");
    LowerConcat(title + " ", body);
    LowerConcat(title, " ");
    assert Lower(" ") == " ";
    Lower(title + " " + body)
  }

  /** The banned terms: every configured word, lower-cased. */
  function BannedTerms(words: seq<string>): (r: seq<string>)
    ensures |r| == |words|
    ensures forall i :: 0 <= i < |r| ==> r[i] == Lower(words[i])
  {
    seq(|words|, i requires 0 <= i < |words| => Lower(words[i]))
  }

  /** The position of the first term that matches the text, if any. */
  function FirstMatch(text: string, terms: seq<string>): (r: Option<nat>)
    ensures r.Some? ==> r.value < |terms| && CheckTerm(text, terms[r.value])
    ensures r.Some? ==> forall j :: 0 <= j < r.value ==> !CheckTerm(text, terms[j])
    ensures r.None? ==> forall j :: 0 <= j < |terms| ==> !CheckTerm(text, terms[j])
  {
    if terms == [] then None
    else if CheckTerm(text, terms[0]) then Some(0)
    else
      match FirstMatch(text, terms[1..])
      case None => None
      case Some(k) => Some(k + 1)
  }

  /** None of the three guards of `run()` fails: there is a token, an issue payload and at
      least one banned term. */
  predicate GuardsPass(inputs: Inputs) {
    |inputs.token| > 0 && inputs.issue.Some? && |inputs.bannedWords| > 0
  }

  /** `run()`: fail on the first guard that does not hold; otherwise walk the banned terms
      in order and remediate the first one found in the issue text, then stop. */
  method Run(inputs: Inputs, remote: Remote) returns (trace: seq<Event>)
    ensures |inputs.token| == 0 ==> trace == [SetFailed(MissingToken)]
    ensures |inputs.token| > 0 && inputs.issue.None? ==> trace == [SetFailed(NotAnIssueEvent)]
    ensures |inputs.token| > 0 && inputs.issue.Some? && |inputs.bannedWords| == 0 ==>
      trace == [SetFailed(NoBannedTerms)]
    ensures GuardsPass(inputs) ==>
      var issue := inputs.issue.value;
      var terms := BannedTerms(inputs.bannedWords);
      match FirstMatch(IssueText(issue), terms)
      case None => trace == []
      case Some(k) =>
        trace == [Info(FoundTerm(terms[k], issue.number))]
          + Remediate(Job(IssueRef(inputs.owner, inputs.repo, issue.number), terms[k], inputs.closeLabel), remote)
  {
    if |inputs.token| == 0 {
      return [SetFailed(MissingToken)];
    }
    if inputs.issue.None? {
      return [SetFailed(NotAnIssueEvent)];
    }
    var issue := inputs.issue.value;

    var bannedTerms := BannedTerms(inputs.bannedWords);
    if |bannedTerms| == 0 {
      return [SetFailed(NoBannedTerms)];
    }

    var issueTitle := issue.title.GetOr("");
    var issueBody := issue.body.GetOr("");
    var issueText := Lower(issueTitle + " " + issueBody);

    var i := 0;
    while i < |bannedTerms|
      invariant 0 <= i <= |bannedTerms|
      invariant forall j :: 0 <= j < i ==> !CheckTerm(issueText, bannedTerms[j])
    {
      var term := bannedTerms[i];
      if CheckTerm(issueText, term) {
        var closing := CloseIssue(term, IssueRef(inputs.owner, inputs.repo, issue.number), inputs.closeLabel, remote);
        return [Info(FoundTerm(term, issue.number))] + closing;
      }
      i := i + 1;
    }
    return [];
  }

  /** The first match does not depend on the terms that come after it. */
  lemma {:induction false} FirstMatchIgnoresLaterTerms(text: string, terms: seq<string>, more: seq<string>)
    requires FirstMatch(text, terms).Some?
    ensures FirstMatch(text, terms + more) == FirstMatch(text, terms)
  {
    if !CheckTerm(text, terms[0]) {
      assert (terms + more)[1..] == terms[1..] + more;
      FirstMatchIgnoresLaterTerms(text, terms[1..], more);
    }
  }

  /** Text added around the issue text never loses a match: the first match of the longer
      text is the same term or an earlier one. */
  lemma FirstMatchExtend(text: string, terms: seq<string>, before: string, after: string)
    requires FirstMatch(text, terms).Some?
    ensures FirstMatch(before + text + after, terms).Some?
    ensures FirstMatch(before + text + after, terms).value <= FirstMatch(text, terms).value
  {
    CheckTermExtend(text, terms[FirstMatch(text, terms).value], before, after);
  }

  /** A banned word is found in an issue whatever the case it is written in there. */
  lemma MatchIgnoresCase(word: string, written: string, before: string, after: string)
    requires Lower(written) == Lower(word)
    ensures CheckTerm(Lower(before + written + after), Lower(word))
  {
    LowerConcat(before + written, after);
    LowerConcat(before, written);
    EverySpellingMatches(Lower(word), Lower(before), Lower(after));
  }

  /** The whole scan finds a configured word written in any casing anywhere in the title
      or body: the first match is that word's term or an earlier one. */
  lemma ScanFindsAnyCasing(issue: Issue, words: seq<string>, i: nat, before: string, written: string, after: string)
    requires i < |words|
    requires issue.title.GetOr("") + " " + issue.body.GetOr("") == before + written + after
    requires Lower(written) == Lower(words[i])
    ensures FirstMatch(IssueText(issue), BannedTerms(words)).Some?
    ensures FirstMatch(IssueText(issue), BannedTerms(words)).value <= i
  {
    var title, body := issue.title.GetOr(""), issue.body.GetOr("");
    LowerConcat(title + " ", body);
    LowerConcat(title, " ");
    assert Lower(" ") == " ";
    assert IssueText(issue) == Lower(before + written + after);
    MatchIgnoresCase(words[i], written, before, after);
    assert CheckTerm(IssueText(issue), BannedTerms(words)[i]);
  }
}
