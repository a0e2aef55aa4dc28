# banned-terms, modelled in Dafny

A model of the `banned-terms` GitHub Action: when an issue is opened it lower-cases
the issue's title and body, looks for the configured banned terms (each also in a
hyphenated and a run-together spelling), and for the first term found closes the
issue as "not planned", posts a comment naming the term and, when a `close-label`
is configured, adds that label. All the logic lives in `src/index.js`; the model
follows it in five files:

- `wrappers.dfy`: `Option`.
- `jsstring.dfy` (module `JsString`): the JavaScript string built-ins the action
  uses. `Includes` is `String.prototype.includes`, proved equal to the ghost
  predicate `Occurs` ("the pattern occurs at some position"). `ReplaceAll` is
  `replaceAll` with a one-character pattern and a replacement without `$`. `Lower` is `toLowerCase` on ASCII letters.
- `termmatcher.dfy` (module `TermMatcher`): `checkTerm` as `CheckTerm`, with the two
  respellings `Hyphenated` (`replaceAll(' ', '-')`) and `Squashed`
  (`replaceAll(' ', '')`).
- `issuecloser.dfy` (module `IssueCloser`): `closeIssue`. Each of the three REST calls
  (close, comment, label) is a step. Its outcome (returned, or threw with a message)
  is an input of type `Remote`. The result is the trace of `Event`s the action
  produces, in order: `Call` for a remote call, `Info` for `core.info`, `SetFailed`
  for `core.setFailed`. `RunSteps` is the specification: run the planned steps in
  order and stop after the first one that throws. `Remediate` applies it to the
  steps `closeIssue` plans. The method `CloseIssue` is the step-by-step code with
  its early returns, proved to produce exactly `Remediate`'s trace.
- `action.dfy` (module `Action`): `run()` as the method `Run`. It has the three
  guards, the issue text, and the `for … of` loop over the banned terms, which
  stops at the first match. `Run` is proved against the specification function
  `FirstMatch`.

External collaborators are parameters. These are the event payload (`Inputs.issue`),
the action inputs (`token`, `bannedWords`, `closeLabel`), the repository (`owner`,
`repo`) and the outcome of every remote call (`Remote`).

The model follows these behaviours of the code:
- closing comes first, and a failed close returns before any comment is posted
  (src/index.js:57-66);
- a failed comment returns before the label is attempted (src/index.js:74-77);
- the scan over the banned terms reports nothing when no term matches
  (src/index.js:29-35);
- the code reads no configuration file, has no per-rule message and takes no lock.

## Model

| member | source | states |
|---|---|---|
| JsString.Includes | src/index.js:39-41 | `text.includes(pat)` is true exactly when `pat` occurs in `text` at some position |
| JsString.OccursExtend | src/index.js:39-41 | an occurrence in a text is still an occurrence once any text is added before and after it |
| JsString.ReplaceAll | src/index.js:40-41 | replacing a character by a string that does not contain that character leaves none of it |
| JsString.ReplaceAllAbsent | src/index.js:40-41 | a string without the pattern character comes back unchanged |
| JsString.ReplaceAllConcat | src/index.js:40-41 | replacing distributes over concatenation |
| JsString.ReplaceAllByChar | src/index.js:40 | replacing by a single character keeps the length, changes exactly the pattern positions, and leaves every other position as it was |
| JsString.ReplaceAllByEmpty | src/index.js:41 | removing a character keeps every other character with its multiplicity, and shortens the string by the number of occurrences removed |
| JsString.LowerChar | src/index.js:27 | upper-case ASCII letters move to lower case, every other character is kept, and no result is upper-case |
| JsString.Lower | src/index.js:27 | lower-casing keeps the length and lower-cases every position |
| JsString.LowerConcat | src/index.js:27 | lower-casing distributes over concatenation |
| JsString.LowerIdempotent | src/index.js:19 | lower-casing an already lower-cased term changes nothing |
| TermMatcher.Hyphenated | src/index.js:40 | the hyphenated term has the term's length, contains no space, and differs from the term only where the term has a space, which became `-` |
| TermMatcher.Squashed | src/index.js:41 | the run-together term contains no space and is no longer than the term |
| TermMatcher.SquashedCounts | src/index.js:41 | running the spaces together keeps every other character with its multiplicity, and shortens the term by its number of spaces |
| TermMatcher.CheckTerm | src/index.js:38-42 | true iff the text contains the term, or the term with every space turned into `-`, or the term with every space removed |
| TermMatcher.NoSpaceTermIsPlainContainment | src/index.js:38-42 | for a term without spaces both respellings are the term itself, and matching is plain containment |
| TermMatcher.RespellingIdempotent | src/index.js:40-41 | respelling a respelt term changes nothing |
| TermMatcher.RespellingConcat | src/index.js:40-41 | a term split in two is respelt half by half |
| TermMatcher.CheckTermExtend | src/index.js:38-42 | a match survives any text added around the matched text |
| TermMatcher.EmptyTermMatchesEverything | src/index.js:39 | the empty term matches every text |
| TermMatcher.EverySpellingMatches | src/index.js:38-42 | a term matches every text in which its plain, hyphenated or run-together spelling is embedded |
| TermMatcher.TwoWordHyphenated | src/index.js:40 | "w1 w2" (words without spaces) is hyphenated to "w1-w2" |
| TermMatcher.TwoWordSquashed | src/index.js:41 | "w1 w2" is run together to "w1w2" |
| TermMatcher.TwoWordSpellingsMatch | src/index.js:38-42 | "w1 w2" matches any text holding "w1 w2", "w1-w2" or "w1w2" |
| TermMatcher.FooBarRespelt | src/index.js:40-41 | "foo bar" is respelt "foo-bar" and "foobar" |
| TermMatcher.FooBarMisplacedSpaceOccurrences | src/index.js:38-42 | none of "foo bar", "foo-bar" and "foobar" occurs in "xfo obarx" |
| TermMatcher.FooBarMisplacedSpace | src/index.js:38-42 | "foo bar" does not match "xfo obarx", a text that splits it at another place |
| IssueCloser.CloseMessage | src/index.js:49-53 | the text of the closing comment contains the term that was found |
| IssueCloser.PlannedSteps | src/index.js:57-90 | `closeIssue` plans close, then comment, then the label step exactly when `close-label` is not empty |
| IssueCloser.Attempted | src/index.js:57-90 | the steps up to and including the first one that throws are attempted, every one before it succeeded, and all steps are attempted when none throws |
| IssueCloser.RunStepsCallCount | src/index.js:57-90 | a step run makes exactly one call per attempted step |
| IssueCloser.RunStepsCallAt | src/index.js:57-90 | the calls of a step run are those of the attempted steps, in plan order |
| IssueCloser.SomeThrows | src/index.js:57-90 | true iff some step of the plan would throw |
| IssueCloser.RunStepsFailureCount | src/index.js:57-90 | a step run reports one failure if some planned step throws and none otherwise |
| IssueCloser.RunStepsFailureLast | src/index.js:57-90 | a failure report is the last event of a step run |
| IssueCloser.PlannedAttempted | src/index.js:57-90 | of the planned steps, one is attempted when closing throws, two when commenting throws or there is no label, otherwise three |
| IssueCloser.PlannedThrows | src/index.js:57-90 | some planned step throws iff close or comment throws, or the label call throws when a label is configured |
| IssueCloser.RemediationClosesFirst | src/index.js:57-66 | the first call always closes the issue with reason `not_planned`, and at most three calls are made |
| IssueCloser.RemediationCommentsAfterClose | src/index.js:63-77 | the comment naming the found term is the second call, made exactly when closing succeeded |
| IssueCloser.RemediationLabelsLast | src/index.js:74-90 | the label call `[close-label]` is the third call, made exactly when closing and commenting succeeded and `close-label` is not empty |
| IssueCloser.RemediationFailure | src/index.js:57-90 | the run is reported failed exactly once iff an attempted call threw, and nothing follows that report |
| IssueCloser.CloseIssue | src/index.js:44-91 | the straight-line code with its three try/catch blocks and early returns produces exactly the trace of the step-run specification |
| Action.IssueText | src/index.js:25-27 | the searched text is lower(title) + " " + lower(body), with a missing title or body as "", and its length is that of the title plus one plus that of the body |
| Action.BannedTerms | src/index.js:19 | one term per configured word, in order, each the word lower-cased |
| Action.FirstMatch | src/index.js:29-35 | a found position names a matching term that no earlier term matches; no position is found only if no term matches |
| Action.Run | src/index.js:4-36 | the guards fail the run in order (empty token, no issue payload, no banned terms) with no other event; otherwise, with no match nothing happens, and with a match the run reports the first matching term and performs exactly that term's remediation |
| Action.FirstMatchIgnoresLaterTerms | src/index.js:29-35 | terms listed after the first match never change which term is acted on |
| Action.FirstMatchExtend | src/index.js:29-35 | adding text to an issue never loses a match: the first matching term is the same one or an earlier one |
| Action.MatchIgnoresCase | src/index.js:19-30 | a banned word is found in an issue however its letters are cased there |
| Action.ScanFindsAnyCasing | src/index.js:19-35 | when a configured word appears in the title or body in any casing, the scan finds a match at that word's term or an earlier one |

## Left out

- The Octokit REST calls (`issues.update`, `issues.createComment`, `issues.addLabels`), `github.getOctokit` and `github.context` are foreign I/O. Each call is an event in the trace, and its outcome is an input.
- `core.getInput`, `core.getMultilineInput`, `core.info` and `core.setFailed` are foreign I/O. Inputs are parameters. `getMultilineInput`'s splitting, trimming and dropping of blank lines is taken as already done. Reports are structured events (`Note`, `Failure`); the exact wording of their messages is not kept.
- `async`/`await` and the `run().catch(...)` wrapper (src/index.js:93-95) are promise plumbing with no logic. The model has no failure that could escape to it.
- JsString.ReplaceAll: inserts the replacement literally; JavaScript expands `$&`, `$$`, `` $` `` and `$'` in a replacement string. The action only passes `'-'` and `''` (src/index.js:40-41), neither of which contains `$`.
- JsString.Lower: lower-cases only the ASCII letters, not the full Unicode case mapping of `toLowerCase`. The Unicode mapping can also change a string's length.
- JsString.Includes: works on Unicode scalar values, not UTF-16 code units, so surrogate pairs are not modelled.
- IssueCloser.CloseMessage: keeps the template's words but not its line breaks and indentation. Only the fact that it names the found term is proved. In the trace the comment body is the value `ClosingNotice(term)`, whose text is `CloseMessage(term)`. This keeps the long template text out of the proofs about call order.
- The JavaScript `||` coercion of a non-string title or body (for example a number) is not modelled. A title or body is a string or missing.
- `IssueCloser.Remediate` and `IssueCloser.RunSteps` are specification functions without contracts of their own. Their properties are the `Remediation…` and `RunSteps…` lemmas.
