/**
  The remediation performed by `closeIssue` (src/index.js:44-91) once a banned
  term has been found. The three remote calls (close, comment, label) are not
  executed here: each is a step whose outcome (success, or an error carrying a
  message) is an input, and the result is the trace of everything the action
  does, in order: the calls it attempts, the successes it reports with
  `core.info` and the failure it reports with `core.setFailed`.
*/
module IssueCloser {
  import opened JsString

  /** The issue every call is addressed to: `owner`, `repo` and `issue_number`. */
  datatype IssueRef = IssueRef(owner: string, repo: string, number: int)

  /** The three REST calls the action can make. */
  datatype RemoteCall =
    | UpdateIssue(target: IssueRef, state: string, stateReason: string)
    | CreateComment(target: IssueRef, body: Comment)
    | AddLabels(target: IssueRef, labels: seq<string>)

  /** The body of the comment: the closing notice for the term found, whose text is
      `CloseMessage(foundTerm)`. */
  datatype Comment = ClosingNotice(foundTerm: string)

  /** What a remote call did: returned, or threw an error with a message. */
  datatype StepResult = Succeeded | Threw(message: string)

  /** The outcome each of the three calls would have if it were attempted. */
  datatype Remote = Remote(close: StepResult, comment: StepResult, addLabel: StepResult)

  /** The conditions `core.setFailed` reports, before and during remediation. */
  datatype Failure =
    | MissingToken
    | NotAnIssueEvent
    | NoBannedTerms
    | CloseFailed(error: string)
    | CommentFailed(error: string)
    | LabelFailed(error: string)

  /** The notes `core.info` reports. */
  datatype Note = FoundTerm(term: string, issue: int) | IssueClosed | CommentAdded | LabelAdded

  /** One observable action of the program. */
  datatype Event = Call(call: RemoteCall) | Info(note: Note) | SetFailed(failure: Failure)

  /** The remote calls of a trace, in order. */
  function Calls(trace: seq<Event>): seq<RemoteCall>
  {
    if trace == [] then []
    else (if trace[0].Call? then [trace[0].call] else []) + Calls(trace[1..])
  }

  /** The failures of a trace, in order. */
  function Failures(trace: seq<Event>): seq<Failure>
  {
    if trace == [] then []
    else (if trace[0].SetFailed? then [trace[0].failure] else []) + Failures(trace[1..])
  }

  lemma {:induction false} CallsConcat(a: seq<Event>, b: seq<Event>)
    ensures Calls(a + b) == Calls(a) + Calls(b)
  {
    if a == [] {
      assert a + b == b;
    } else {
      assert (a + b)[0] == a[0] && (a + b)[1..] == a[1..] + b;
      CallsConcat(a[1..], b);
    }
  }

  lemma {:induction false} FailuresConcat(a: seq<Event>, b: seq<Event>)
    ensures Failures(a + b) == Failures(a) + Failures(b)
  {
    if a == [] {
      assert a + b == b;
    } else {
      assert (a + b)[0] == a[0] && (a + b)[1..] == a[1..] + b;
      FailuresConcat(a[1..], b);
    }
  }

  /** The comment posted on a closed issue; it names the term that was found.
      (The line breaks and indentation of the original template are not kept.) */
  function CloseMessage(foundTerm: string): (r: string)
    ensures Occurs(foundTerm, r)
  {
    var prefix := "This issue is being automatically closed because it contains the term ";
    var suffix := ". Generally this means your issue has been answered in this project's FAQ, "
      + "or is not an issue the developers wish to provide support for.\n\n"
      + "_If you believe this issue was closed in error, you may reopen it._";
    var r := prefix + foundTerm + suffix;
    assert r[|prefix|..|prefix| + |foundTerm|] == foundTerm;
    assert OccursAt(foundTerm, r, |prefix|);
    r
  }

  /** The three remediation steps, each a `try { call; info } catch { setFailed; return }`. */
  datatype Step = CloseStep | CommentStep | LabelStep

  /** What a step needs besides its outcome: the issue, the term found and the label. */
  datatype Job = Job(target: IssueRef, foundTerm: string, closeLabel: string)

  function StepCall(step: Step, job: Job): RemoteCall {
    match step
    case CloseStep => UpdateIssue(job.target, "closed", "not_planned")
    case CommentStep => CreateComment(job.target, ClosingNotice(job.foundTerm))
    case LabelStep => AddLabels(job.target, [job.closeLabel])
  }

  function StepOutcome(step: Step, remote: Remote): StepResult {
    match step
    case CloseStep => remote.close
    case CommentStep => remote.comment
    case LabelStep => remote.addLabel
  }

  function StepNote(step: Step): Note {
    match step
    case CloseStep => IssueClosed
    case CommentStep => CommentAdded
    case LabelStep => LabelAdded
  }

  function StepFailure(step: Step, error: string): Failure {
    match step
    case CloseStep => CloseFailed(error)
    case CommentStep => CommentFailed(error)
    case LabelStep => LabelFailed(error)
  }

  /** The steps `closeIssue` plans: close, comment, and the label only when
      `close-label` is not empty. */
  function PlannedSteps(closeLabel: string): (r: seq<Step>)
    ensures |r| == if closeLabel == "" then 2 else 3
    ensures r[0] == CloseStep && r[1] == CommentStep
    ensures |r| == 3 ==> r[2] == LabelStep
  {
    [CloseStep, CommentStep] + (if |closeLabel| == 0 then [] else [LabelStep])
  }

  /** Runs the steps in order, stopping after the first one that throws. */
  function RunSteps(steps: seq<Step>, job: Job, remote: Remote): seq<Event> {
    if steps == [] then []
    else
      var step := steps[0];
      match StepOutcome(step, remote)
      case Threw(e) => [Call(StepCall(step, job)), SetFailed(StepFailure(step, e))]
      case Succeeded => [Call(StepCall(step, job)), Info(StepNote(step))] + RunSteps(steps[1..], job, remote)
  }

  /** How many steps are attempted: up to and including the first that throws, else all. */
  function Attempted(steps: seq<Step>, remote: Remote): (n: nat)
    ensures n <= |steps|
    ensures steps != [] ==> n >= 1
    ensures forall i :: 0 <= i < n - 1 ==> StepOutcome(steps[i], remote).Succeeded?
    ensures 0 < n < |steps| ==> StepOutcome(steps[n - 1], remote).Threw?
  {
    if steps == [] then 0
    else if StepOutcome(steps[0], remote).Threw? then 1
    else 1 + Attempted(steps[1..], remote)
  }

  /** A step run makes one call per attempted step. */
  lemma {:induction false} RunStepsCallCount(steps: seq<Step>, job: Job, remote: Remote)
    ensures |Calls(RunSteps(steps, job, remote))| == Attempted(steps, remote)
  {
    if steps != [] {
      var step := steps[0];
      var head := [Call(StepCall(step, job))];
      match StepOutcome(step, remote)
      case Threw(e) =>
        CallsConcat(head, [SetFailed(StepFailure(step, e))]);
      case Succeeded =>
        var info := [Info(StepNote(step))];
        var rest := RunSteps(steps[1..], job, remote);
        assert RunSteps(steps, job, remote) == head + info + rest;
        CallsConcat(head + info, rest);
        CallsConcat(head, info);
        RunStepsCallCount(steps[1..], job, remote);
    }
  }

  /** The `i`-th call of a step run is the call of the `i`-th planned step. */
  lemma {:induction false} RunStepsCallAt(steps: seq<Step>, job: Job, remote: Remote, i: nat)
    requires i < Attempted(steps, remote)
    ensures i < |Calls(RunSteps(steps, job, remote))|
    ensures Calls(RunSteps(steps, job, remote))[i] == StepCall(steps[i], job)
  {
    RunStepsCallCount(steps, job, remote);
    var step := steps[0];
    var head := [Call(StepCall(step, job))];
    match StepOutcome(step, remote)
    case Threw(e) =>
      CallsConcat(head, [SetFailed(StepFailure(step, e))]);
    case Succeeded =>
      var info := [Info(StepNote(step))];
      var rest := RunSteps(steps[1..], job, remote);
      assert RunSteps(steps, job, remote) == head + info + rest;
      CallsConcat(head + info, rest);
      CallsConcat(head, info);
      assert Calls(RunSteps(steps, job, remote)) == [StepCall(step, job)] + Calls(rest);
      if i > 0 {
        RunStepsCallAt(steps[1..], job, remote, i - 1);
      }
  }

  /** Some step of the plan throws. */
  function SomeThrows(steps: seq<Step>, remote: Remote): (r: bool)
    ensures r <==> exists i :: 0 <= i < |steps| && StepOutcome(steps[i], remote).Threw?
  {
    if steps == [] then false
    else
      assert forall i :: 0 < i < |steps| ==> steps[i] == steps[1..][i - 1];
      StepOutcome(steps[0], remote).Threw? || SomeThrows(steps[1..], remote)
  }

  /** The runner reports failure exactly once if some step throws, and never otherwise. */
  lemma {:induction false} RunStepsFailureCount(steps: seq<Step>, job: Job, remote: Remote)
    ensures |Failures(RunSteps(steps, job, remote))| == if SomeThrows(steps, remote) then 1 else 0
  {
    if steps != [] {
      var step := steps[0];
      var head := [Call(StepCall(step, job))];
      match StepOutcome(step, remote)
      case Threw(e) =>
        FailuresConcat(head, [SetFailed(StepFailure(step, e))]);
      case Succeeded =>
        var info := [Info(StepNote(step))];
        var rest := RunSteps(steps[1..], job, remote);
        assert RunSteps(steps, job, remote) == head + info + rest;
        FailuresConcat(head + info, rest);
        FailuresConcat(head, info);
        RunStepsFailureCount(steps[1..], job, remote);
    }
  }

  /** The runner's failure report, if there is one, is the last thing it does. */
  lemma {:induction false} RunStepsFailureLast(steps: seq<Step>, job: Job, remote: Remote, k: nat)
    requires k < |RunSteps(steps, job, remote)| && RunSteps(steps, job, remote)[k].SetFailed?
    ensures k == |RunSteps(steps, job, remote)| - 1
  {
    var step := steps[0];
    if StepOutcome(step, remote).Succeeded? {
      var rest := RunSteps(steps[1..], job, remote);
      var front := [Call(StepCall(step, job)), Info(StepNote(step))];
      assert RunSteps(steps, job, remote) == front + rest;
      assert k >= 2;
      RunStepsFailureLast(steps[1..], job, remote, k - 2);
    }
  }

  /** Of the planned steps, close is always attempted, comment after a successful close,
      and the label step after a successful comment when there is one. */
  lemma PlannedAttempted(closeLabel: string, remote: Remote)
    ensures Attempted(PlannedSteps(closeLabel), remote) ==
      if remote.close.Threw? then 1
      else if remote.comment.Threw? || closeLabel == "" then 2
      else 3
  {
    var steps := PlannedSteps(closeLabel);
    assert steps[1..][1..] == if closeLabel == "" then [] else [LabelStep];
  }

  /** Some planned step throws iff close or comment throws, or a configured label throws. */
  lemma PlannedThrows(closeLabel: string, remote: Remote)
    ensures SomeThrows(PlannedSteps(closeLabel), remote)
      <==> (remote.close.Threw? || remote.comment.Threw? || (closeLabel != "" && remote.addLabel.Threw?))
  {
    var steps := PlannedSteps(closeLabel);
    assert StepOutcome(steps[0], remote) == remote.close;
    assert StepOutcome(steps[1], remote) == remote.comment;
    assert |steps| == 3 ==> StepOutcome(steps[2], remote) == remote.addLabel;
  }

  /** The remediation of `closeIssue`: the planned steps run in order until one throws. */
  function Remediate(job: Job, remote: Remote): seq<Event> {
    RunSteps(PlannedSteps(job.closeLabel), job, remote)
  }

  /** `closeIssue` always starts by closing the issue as "not planned", and makes at most
      three calls. */
  lemma RemediationClosesFirst(job: Job, remote: Remote)
    ensures var calls := Calls(Remediate(job, remote));
      && 1 <= |calls| <= 3
      && calls[0] == UpdateIssue(job.target, "closed", "not_planned")
  {
    var steps := PlannedSteps(job.closeLabel);
    RunStepsCallCount(steps, job, remote);
    PlannedAttempted(job.closeLabel, remote);
    RunStepsCallAt(steps, job, remote, 0);
  }

  /** The comment, naming the term, is the second call, made exactly when closing succeeded. */
  lemma RemediationCommentsAfterClose(job: Job, remote: Remote)
    ensures var calls := Calls(Remediate(job, remote));
      && (|calls| >= 2 <==> remote.close.Succeeded?)
      && (|calls| >= 2 ==> calls[1] == CreateComment(job.target, ClosingNotice(job.foundTerm)))
  {
    var steps := PlannedSteps(job.closeLabel);
    RunStepsCallCount(steps, job, remote);
    PlannedAttempted(job.closeLabel, remote);
    if remote.close.Succeeded? {
      RunStepsCallAt(steps, job, remote, 1);
    }
  }

  /** The one-label call is the third, made exactly when closing and commenting both
      succeeded and `close-label` is not empty. */
  lemma RemediationLabelsLast(job: Job, remote: Remote)
    ensures var calls := Calls(Remediate(job, remote));
      && (|calls| == 3 <==> remote.close.Succeeded? && remote.comment.Succeeded? && job.closeLabel != "")
      && (|calls| == 3 ==> calls[2] == AddLabels(job.target, [job.closeLabel]))
  {
    var steps := PlannedSteps(job.closeLabel);
    RunStepsCallCount(steps, job, remote);
    PlannedAttempted(job.closeLabel, remote);
    if remote.close.Succeeded? && remote.comment.Succeeded? && job.closeLabel != "" {
      RunStepsCallAt(steps, job, remote, 2);
    }
  }

  /** `closeIssue` reports one failure iff an attempted call threw, and that report ends it. */
  lemma RemediationFailure(job: Job, remote: Remote)
    ensures var r := Remediate(job, remote);
      && |Failures(r)| == (if remote.close.Threw? || remote.comment.Threw?
                              || (job.closeLabel != "" && remote.addLabel.Threw?) then 1 else 0)
      && forall k :: 0 <= k < |r| && r[k].SetFailed? ==> k == |r| - 1
  {
    RunStepsFailureCount(PlannedSteps(job.closeLabel), job, remote);
    forall k | 0 <= k < |Remediate(job, remote)| && Remediate(job, remote)[k].SetFailed?
      ensures k == |Remediate(job, remote)| - 1
    {
      RunStepsFailureLast(PlannedSteps(job.closeLabel), job, remote, k);
    }
    PlannedThrows(job.closeLabel, remote);
  }

  /** `closeIssue`: close, then comment, then (if `close-label` is set) label,
      returning at the first call that throws. */
  method CloseIssue(foundTerm: string, target: IssueRef, closeLabel: string, remote: Remote)
    returns (trace: seq<Event>)
    ensures trace == Remediate(Job(target, foundTerm, closeLabel), remote)
  {
    ghost var job := Job(target, foundTerm, closeLabel);
    ghost var steps := PlannedSteps(closeLabel);
    var closeMessage := ClosingNotice(foundTerm);

    trace := [Call(UpdateIssue(target, "closed", "not_planned"))];
    match remote.close {
      case Threw(e) =>
        trace := trace + [SetFailed(CloseFailed(e))];
        return;
      case Succeeded =>
        trace := trace + [Info(IssueClosed)];
    }
    assert Remediate(job, remote) == trace + RunSteps(steps[1..], job, remote);

    trace := trace + [Call(CreateComment(target, closeMessage))];
    match remote.comment {
      case Threw(e) =>
        trace := trace + [SetFailed(CommentFailed(e))];
        return;
      case Succeeded =>
        trace := trace + [Info(CommentAdded)];
    }
    assert Remediate(job, remote) == trace + RunSteps(steps[2..], job, remote) by {
      assert steps[1..][1..] == steps[2..];
    }

    if |closeLabel| == 0 {
      assert steps[2..] == [];
      return;
    }

    trace := trace + [Call(AddLabels(target, [closeLabel]))];
    match remote.addLabel {
      case Threw(e) =>
        trace := trace + [SetFailed(LabelFailed(e))];
      case Succeeded =>
        trace := trace + [Info(LabelAdded)];
        assert steps[2..][1..] == [];
    }
  }
}
