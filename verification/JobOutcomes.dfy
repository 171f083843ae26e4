/** How a print job ends, read off the events of a run
    (src/CustomerPrintClientCore/JobProcessor.cpp). */
module JobOutcomes {
  import opened Options
  import opened JobProtocol

  // What has happened to each job

  /** A turn of the render thread, or an answer of the server, and whether a cancel of the job was
      recorded before it. */
  datatype Rendered = Rendered(pageOk: bool, cancelled: bool)
  datatype Answered = Answered(outcome: Outcome, cancelled: bool)

  datatype Log = Log(pages: seq<string>, cancelled: bool, turns: seq<Rendered>, answers: seq<Answered>)

  /** The render thread is done with the job: it found a cancel, could not render a page, or had a
      turn after the last page. */
  predicate RenderOver(l: Log) {
    l.turns != [] &&
    var last := l.turns[|l.turns| - 1];
    last.cancelled || !last.pageOk || |l.turns| > |l.pages|
  }

  /** The job whose turn it is: jobs are rendered one after the other, as they were submitted. */
  function FirstOpen(logs: seq<Log>): (r: nat)
    ensures r <= |logs|
  {
    if logs == [] then 0 else if !RenderOver(logs[0]) then 0 else 1 + FirstOpen(logs[1..])
  }

  function Cancelled(logs: seq<Log>): (r: seq<Log>)
    ensures |r| == |logs|
    ensures forall i :: 0 <= i < |r| ==> r[i] == logs[i].(cancelled := true)
  {
    seq(|logs|, i requires 0 <= i < |logs| => logs[i].(cancelled := true))
  }

  function Logged(logs: seq<Log>, e: Event): seq<Log> {
    match e
    case Submit(pages) => logs + [Log(pages, false, [], [])]
    case Cancel(id) => if id < |logs| then logs[id := logs[id].(cancelled := true)] else logs
    case CancelAll => Cancelled(logs)
    case Turn(pageOk) =>
      var id := FirstOpen(logs);
      if id < |logs| then logs[id := logs[id].(turns := logs[id].turns + [Rendered(pageOk, logs[id].cancelled)])]
      else logs
    case Answer(id, outcome) =>
      if id < |logs| then logs[id := logs[id].(answers := logs[id].answers + [Answered(outcome, logs[id].cancelled)])]
      else logs
    case _ => logs
  }

  function Logs(events: seq<Event>): seq<Log> {
    if events == [] then [] else Logged(Logs(events[..|events| - 1]), events[|events| - 1])
  }

  // How a job ends

  /** The server did what it was asked, and nobody had cancelled. */
  predicate Plain(a: Answered) { a.outcome.Success? && !a.cancelled }

  /** Every answer but the last is plain. The last is then the answer to the creation, an upload, the
      completion or the fetch; after any other answer only the deletion is asked for. */
  predicate PlainSoFar(l: Log) { forall i :: 0 <= i < |l.answers| - 1 ==> Plain(l.answers[i]) }

  predicate PageFailed(l: Log) {
    l.turns != [] &&
    var last := l.turns[|l.turns| - 1];
    !last.cancelled && !last.pageOk && |l.turns| <= |l.pages|
  }

  /** The creation, an upload for each page, the completion and then the fetch were answered. */
  predicate Fetched(l: Log) {
    l.pages != [] && |l.answers| == |l.pages| + 3 && PlainSoFar(l) && l.answers[|l.pages| + 2].outcome.Success?
  }

  predicate Refused(l: Log) {
    l.answers != [] && PlainSoFar(l) && l.answers[|l.answers| - 1].outcome.OtherException?
  }

  /** The render thread gave up the job for a cancel or for want of pages, the creation was cancelled,
      or the deletion was answered. */
  predicate GivenUp(l: Log) {
    || (l.turns != [] && l.turns[|l.turns| - 1].cancelled)
    || (l.turns != [] && l.pages == [])
    || (|l.answers| == 1 && l.answers[0].outcome.CancelException?)
    || !PlainSoFar(l)
  }

  // What a job has done

  function LeadingPlain(answers: seq<Answered>): (r: nat)
    ensures r <= |answers|
  {
    if answers == [] || !Plain(answers[0]) then 0 else 1 + LeadingPlain(answers[1..])
  }

  lemma {:induction false} LeadingOfMore(answers: seq<Answered>, a: Answered)
    ensures LeadingPlain(answers + [a])
         == LeadingPlain(answers) + if LeadingPlain(answers) == |answers| && Plain(a) then 1 else 0
  {
    if answers == [] {
      assert answers + [a] == [a] && [a][1..] == [];
    } else {
      assert (answers + [a])[1..] == answers[1..] + [a];
      LeadingOfMore(answers[1..], a);
    }
  }

  function Least(a: nat, b: nat): nat { if a < b then a else b }

  /** The first answer that is not plain leads to the deletion of the job, unless it is a failure,
      cancels the creation, or brings the result of the fetch. */
  predicate Deleted(l: Log) {
    var p := LeadingPlain(l.answers);
    p < |l.answers| &&
    match l.answers[p].outcome
    case OtherException => false
    case CancelException => p > 0
    case Success(_) => p != |l.pages| + 2
  }

  /** How far the events have brought a job. */
  function ProgressOf(l: Log): Progress {
    var n, p := |l.pages|, LeadingPlain(l.answers);
    var stopped := l.turns != [] && l.turns[|l.turns| - 1].cancelled;
    Progress(
      Least(n, if stopped then |l.turns| - 1 else |l.turns|),
      WasRendered(l),
      l.answers != [] && l.answers[0].outcome.Success?,
      Least(n, p),
      p >= n + 1,
      p >= n + 2,
      Deleted(l),
      if Fetched(l) then Some(Complete)
      else if PageFailed(l) || Refused(l) then Some(Error)
      else if GivenUp(l) then Some(Canceled)
      else None)
  }

  // The state of a job and its log

  predicate AllPlain(l: Log) { forall i :: 0 <= i < |l.answers| ==> Plain(l.answers[i]) }

  predicate WasRendered(l: Log) {
    && |l.turns| == |l.pages| + 1 && l.pages != []
    && !l.turns[|l.pages|].cancelled
    && forall i :: 0 <= i < |l.pages| ==> l.turns[i].pageOk && !l.turns[i].cancelled
  }

  /** The last answer led to the deletion of the job. */
  predicate Deleting(l: Log) {
    && l.answers != [] && PlainSoFar(l) && |l.answers| <= |l.pages| + 3
    && var last := l.answers[|l.answers| - 1];
      && !Plain(last) && !last.outcome.OtherException?
      && (|l.answers| == 1 ==> last.outcome.Success?)
      && (|l.answers| == |l.pages| + 3 ==> last.outcome.CancelException?)
  }

  predicate Linked(j: Job, l: Log) {
    && j.pages == l.pages
    && match j.stage
       case Waiting(k) =>
         && l.answers == [] && |l.turns| == k <= |l.pages|
         && (forall i :: 0 <= i < k ==> l.turns[i].pageOk && !l.turns[i].cancelled)
       case Calling(CreateCall, _) => WasRendered(l) && l.answers == []
       case Calling(UploadCall, _) => WasRendered(l) && AllPlain(l) && |l.answers| == j.progress.uploads
       case Calling(FinishCall, _) => WasRendered(l) && AllPlain(l) && |l.answers| == |l.pages| + 1
       case Calling(FetchCall, _) => WasRendered(l) && AllPlain(l) && |l.answers| == |l.pages| + 2
       case Calling(DeleteCall, _) => WasRendered(l) && Deleting(l)
       case Settled(status) =>
         && RenderOver(l)
         && (status == Complete <==> Fetched(l))
         && (status == Error <==> PageFailed(l) || Refused(l))
         && (status == Canceled <==> GivenUp(l))
  }

  lemma NewIsLinked(pages: seq<string>)
    ensures Linked(NewJob(pages), Log(pages, false, [], []))
  {
  }

  lemma TurnLinks(j: Job, l: Log, pageOk: bool, request: nat)
    requires JobInv(j) && j.stage.Waiting? && Linked(j, l) && l.cancelled == j.cancelMark.Some?
    ensures Linked(RenderTurn(j, j.cancelMark.Some?, pageOk, request),
                   l.(turns := l.turns + [Rendered(pageOk, l.cancelled)]))
  {
    hide History, Ordered, CancelRespected;
    var l' := l.(turns := l.turns + [Rendered(pageOk, l.cancelled)]);
    var k := |l.turns|;
    assert l'.turns[k] == Rendered(pageOk, l.cancelled);
    assert forall i :: 0 <= i < k ==> l'.turns[i] == l.turns[i];
    if k == |l.pages| {
      assert j.pages[..k] == j.pages;
    }
  }

  lemma AnswerLinks(j: Job, l: Log, outcome: Outcome, request: nat)
    requires JobInv(j) && j.stage.Calling? && Linked(j, l) && l.cancelled == j.cancelMark.Some?
    requires outcome.CancelException? ==> j.cancelMark.Some?
    requires j.stage.call.CreateCall? ==> j.inputStreams != []
    ensures Linked(JobProtocol.Answered(j, j.cancelMark.Some?, outcome, request),
                   l.(answers := l.answers + [Answered(outcome, l.cancelled)]))
  {
    hide History, Ordered, CancelRespected;
    var l' := l.(answers := l.answers + [Answered(outcome, l.cancelled)]);
    var k := |l.answers|;
    assert l'.answers[k] == Answered(outcome, l.cancelled);
    assert forall i :: 0 <= i < k ==> l'.answers[i] == l.answers[i];
  }

  /** The progress of a job, and with it its actions, are what the events have brought. */
  predicate Recorded(j: Job, l: Log) { j.progress == ProgressOf(l) }

  lemma NewIsRecorded(pages: seq<string>)
    ensures Recorded(NewJob(pages), Log(pages, false, [], []))
  {
  }

  lemma TurnRecords(j: Job, l: Log, pageOk: bool, request: nat)
    requires JobInv(j) && j.stage.Waiting? && Linked(j, l) && l.cancelled == j.cancelMark.Some?
    ensures Recorded(RenderTurn(j, j.cancelMark.Some?, pageOk, request),
                     l.(turns := l.turns + [Rendered(pageOk, l.cancelled)]))
  {
    hide History, Ordered, CancelRespected;
    var l' := l.(turns := l.turns + [Rendered(pageOk, l.cancelled)]);
    var k := |l.turns|;
    assert l'.turns[k] == Rendered(pageOk, l.cancelled);
    assert forall i :: 0 <= i < k ==> l'.turns[i] == l.turns[i];
    if k == |l.pages| {
      assert j.pages[..k] == j.pages;
    }
  }

  lemma {:induction false} AllLead(answers: seq<Answered>)
    requires forall i :: 0 <= i < |answers| ==> Plain(answers[i])
    ensures LeadingPlain(answers) == |answers|
  {
    if answers != [] {
      AllLead(answers[1..]);
    }
  }

  lemma {:induction false} AllButLastLead(answers: seq<Answered>)
    requires answers != [] && !Plain(answers[|answers| - 1])
    requires forall i :: 0 <= i < |answers| - 1 ==> Plain(answers[i])
    ensures LeadingPlain(answers) == |answers| - 1
  {
    if |answers| > 1 {
      AllButLastLead(answers[1..]);
    }
  }

  lemma AnswerRecords(j: Job, l: Log, outcome: Outcome, request: nat)
    requires JobInv(j) && j.stage.Calling? && Linked(j, l) && Recorded(j, l) && l.cancelled == j.cancelMark.Some?
    requires outcome.CancelException? ==> j.cancelMark.Some?
    requires j.stage.call.CreateCall? ==> j.inputStreams != []
    ensures Recorded(JobProtocol.Answered(j, j.cancelMark.Some?, outcome, request),
                     l.(answers := l.answers + [Answered(outcome, l.cancelled)]))
  {
    hide History, Ordered, CancelRespected, LeadingPlain;
    var l' := l.(answers := l.answers + [Answered(outcome, l.cancelled)]);
    var k := |l.answers|;
    assert l'.answers[k] == Answered(outcome, l.cancelled);
    assert forall i :: 0 <= i < k ==> l'.answers[i] == l.answers[i];
    LeadingOfMore(l.answers, Answered(outcome, l.cancelled));
    if j.stage.call.DeleteCall? {
      AllButLastLead(l.answers);
    } else {
      AllLead(l.answers);
    }
  }

  /** The results of the answered uploads, in page order. */
  predicate ResultsFit(j: Job, l: Log) {
    |j.uploadResults| > 0 ==>
      && |j.uploadResults| < |l.answers|
      && forall i :: 1 <= i <= |j.uploadResults| ==> l.answers[i].outcome == Success(j.uploadResults[i - 1])
  }

  lemma TurnKeepsResults(j: Job, l: Log, pageOk: bool, request: nat)
    requires j.stage.Waiting? && ResultsFit(j, l)
    ensures ResultsFit(RenderTurn(j, j.cancelMark.Some?, pageOk, request),
                       l.(turns := l.turns + [Rendered(pageOk, l.cancelled)]))
  {
    var after := l.(turns := l.turns + [Rendered(pageOk, l.cancelled)]);
    assert RenderTurn(j, j.cancelMark.Some?, pageOk, request).uploadResults == j.uploadResults;
    assert after.answers == l.answers;
  }

  lemma AnswerKeepsResults(j: Job, l: Log, outcome: Outcome, request: nat)
    requires JobInv(j) && j.stage.Calling? && Linked(j, l) && ResultsFit(j, l)
    requires j.stage.call.CreateCall? ==> j.inputStreams != []
    ensures ResultsFit(JobProtocol.Answered(j, j.cancelMark.Some?, outcome, request),
                       l.(answers := l.answers + [Answered(outcome, l.cancelled)]))
  {
    hide History, Ordered, CancelRespected;
    var next := JobProtocol.Answered(j, j.cancelMark.Some?, outcome, request);
    var after := l.(answers := l.answers + [Answered(outcome, l.cancelled)]);
    assert next.uploadResults == if j.stage.call.UploadCall? && outcome.Success? then j.uploadResults + [outcome.result]
                                 else j.uploadResults;
    assert after.answers[|l.answers|] == Answered(outcome, l.cancelled);
    assert j.stage.call.UploadCall? ==> |l.answers| == |j.uploadResults| + 1;
    assert forall i :: 0 <= i < |l.answers| ==> after.answers[i] == l.answers[i];
  }

  predicate Goes(j: Job, l: Log) { Linked(j, l) && Recorded(j, l) && ResultsFit(j, l) }

  lemma NewGoes(pages: seq<string>)
    ensures Goes(NewJob(pages), Log(pages, false, [], []))
  {
    NewIsLinked(pages);
    NewIsRecorded(pages);
  }

  lemma TurnGoes(j: Job, l: Log, pageOk: bool, request: nat)
    requires JobInv(j) && j.stage.Waiting? && Goes(j, l) && l.cancelled == j.cancelMark.Some?
    ensures Goes(RenderTurn(j, j.cancelMark.Some?, pageOk, request),
                 l.(turns := l.turns + [Rendered(pageOk, l.cancelled)]))
  {
    hide JobInv, RenderTurn, Linked, Recorded, ResultsFit;
    TurnKeepsResults(j, l, pageOk, request);
    TurnLinks(j, l, pageOk, request);
    TurnRecords(j, l, pageOk, request);
  }

  lemma AnswerGoes(j: Job, l: Log, outcome: Outcome, request: nat)
    requires JobInv(j) && j.stage.Calling? && Goes(j, l) && l.cancelled == j.cancelMark.Some?
    requires outcome.CancelException? ==> j.cancelMark.Some?
    requires j.stage.call.CreateCall? ==> j.inputStreams != []
    ensures Goes(JobProtocol.Answered(j, j.cancelMark.Some?, outcome, request),
                 l.(answers := l.answers + [Answered(outcome, l.cancelled)]))
  {
    hide JobInv, JobProtocol.Answered, Linked, Recorded, ResultsFit;
    AnswerKeepsResults(j, l, outcome, request);
    AnswerLinks(j, l, outcome, request);
    AnswerRecords(j, l, outcome, request);
  }

  // All jobs of a run

  predicate Ascending(line: seq<nat>) { forall i, k :: 0 <= i < k < |line| ==> line[i] < line[k] }

  /** Each job goes with its log; a cancel is recorded as long as the job is not settled. */
  predicate JobFits(s: State, logs: seq<Log>, id: nat) {
    && id in s.jobs && id < |logs| && Goes(s.jobs[id], logs[id])
    && (!s.jobs[id].stage.Settled? ==> logs[id].cancelled == s.jobs[id].cancelMark.Some?)
  }

  predicate Fits(s: State, logs: seq<Log>) {
    && |logs| == s.lastId
    && (forall id :: 0 <= id < |logs| ==> JobFits(s, logs, id))
    && Ascending(s.batch + s.queue)
  }

  lemma OpenExactly(j: Job, l: Log)
    requires Goes(j, l)
    ensures RenderOver(l) <==> !j.stage.Waiting?
  {
  }

  lemma {:induction false} FirstOpenIs(logs: seq<Log>, k: nat)
    requires k < |logs| && !RenderOver(logs[k]) && forall i :: 0 <= i < k ==> RenderOver(logs[i])
    ensures FirstOpen(logs) == k
  {
    if k > 0 {
      FirstOpenIs(logs[1..], k - 1);
    }
  }

  /** The job in front of the batch is the one whose turn it is. */
  lemma FrontIsFirst(s: State, logs: seq<Log>, pageOk: bool)
    requires Inv(s) && Fits(s, logs) && Enabled(s, Turn(pageOk))
    ensures s.batch[0] < |logs| && FirstOpen(logs) == s.batch[0]
  {
    hide JobInv, Goes, RenderOver, InvRequests, InvPending;
    var line := s.batch + s.queue;
    var id := s.batch[0];
    assert line[0] == id;
    JobIdIsOld(s, id);
    assert JobFits(s, logs, id);
    OpenExactly(s.jobs[id], logs[id]);
    forall i | 0 <= i < id ensures RenderOver(logs[i]) {
      assert JobFits(s, logs, i);
      OpenExactly(s.jobs[i], logs[i]);
      assert i !in line by {
        assert forall k :: 0 < k < |line| ==> line[0] < line[k];
      }
    }
    FirstOpenIs(logs, id);
  }

  lemma OneJobFits(s: State, logs: seq<Log>, t: State, id: nat, l: Log)
    requires Fits(s, logs) && id < |logs|
    requires t.lastId == s.lastId && id in t.jobs && t.jobs == s.jobs[id := t.jobs[id]]
    requires Ascending(t.batch + t.queue)
    requires Goes(t.jobs[id], l)
    requires !t.jobs[id].stage.Settled? ==> l.cancelled == t.jobs[id].cancelMark.Some?
    ensures Fits(t, logs[id := l])
  {
    hide Linked;
    var after := logs[id := l];
    forall i | 0 <= i < |after| ensures JobFits(t, after, i) {
      assert JobFits(s, logs, i);
    }
  }

  lemma RestAscends(batch: seq<nat>, queue: seq<nat>)
    requires batch != [] && Ascending(batch + queue)
    ensures Ascending(batch[1..] + queue)
  {
    assert batch[1..] + queue == (batch + queue)[1..];
  }

  lemma TurnFits(s: State, logs: seq<Log>, pageOk: bool)
    requires Inv(s) && Fits(s, logs) && Enabled(s, Turn(pageOk))
    ensures Fits(Step(s, Turn(pageOk)), Logged(logs, Turn(pageOk)))
  {
    hide JobInv, Goes, RenderTurn, Advance, RenderOver, InvRequests, InvQueue;
    FrontIsFirst(s, logs, pageOk);
    var id := s.batch[0];
    var j := s.jobs[id];
    assert JobFits(s, logs, id);
    var next := RenderTurn(j, IsCancelling(s, id), pageOk, |s.owners|);
    JobIdIsOld(s, id);
    TurnGoes(j, logs[id], pageOk, |s.owners|);
    AdvanceKeepsTotals(s, id, next);
    RestAscends(s.batch, s.queue);
    OneJobFits(s, logs, Step(s, Turn(pageOk)), id,
               logs[id].(turns := logs[id].turns + [Rendered(pageOk, logs[id].cancelled)]));
  }

  lemma AnswerFits(s: State, logs: seq<Log>, id: nat, outcome: Outcome)
    requires Inv(s) && Fits(s, logs) && Enabled(s, Answer(id, outcome)) && FrontExists(s, Answer(id, outcome))
    ensures Fits(Step(s, Answer(id, outcome)), Logged(logs, Answer(id, outcome)))
  {
    hide JobInv, Goes, JobProtocol.Answered, Advance, RenderOver, InvQueue;
    var j := s.jobs[id];
    JobIdIsOld(s, id);
    assert JobFits(s, logs, id);
    var next := JobProtocol.Answered(j, IsCancelling(s, id), outcome, |s.owners|);
    AnswerGoes(j, logs[id], outcome, |s.owners|);
    AdvanceKeepsTotals(s, id, next);
    OneJobFits(s, logs, Step(s, Answer(id, outcome)), id,
               logs[id].(answers := logs[id].answers + [Answered(outcome, logs[id].cancelled)]));
  }

  lemma MarkLinks(j: Job, l: Log)
    requires Goes(j, l)
    ensures Goes(MarkCancel(j), l.(cancelled := true)) && Goes(j, l.(cancelled := true))
    ensures MarkCancel(j).stage == j.stage && MarkCancel(j).cancelMark.Some?
  {
    hide Linked, Recorded;
    MarkKeepsResults(j, l);
    MarkKeepsLink(j, l);
  }

  lemma MarkKeepsResults(j: Job, l: Log)
    requires ResultsFit(j, l)
    ensures ResultsFit(MarkCancel(j), l.(cancelled := true)) && ResultsFit(j, l.(cancelled := true))
  {
    var marked, after := MarkCancel(j), l.(cancelled := true);
    assert marked.uploadResults == j.uploadResults && after.answers == l.answers;
  }

  lemma MarkKeepsLink(j: Job, l: Log)
    requires Linked(j, l) && Recorded(j, l)
    ensures Linked(MarkCancel(j), l.(cancelled := true)) && Linked(j, l.(cancelled := true))
    ensures Recorded(MarkCancel(j), l.(cancelled := true)) && Recorded(j, l.(cancelled := true))
  {
  }

  lemma CancelFits(s: State, logs: seq<Log>, e: Event)
    requires Inv(s) && Fits(s, logs) && (e.Cancel? || e.CancelAll?)
    ensures Fits(Step(s, e), Logged(logs, e))
  {
    hide JobInv, Goes, MarkCancel, InvRequests, InvQueue;
    var t, after := Step(s, e), Logged(logs, e);
    forall i | 0 <= i < |logs| ensures JobFits(t, after, i) {
      assert JobFits(s, logs, i);
      MarkLinks(s.jobs[i], logs[i]);
    }
  }

  lemma SubmitFits(s: State, logs: seq<Log>, pages: seq<string>)
    requires Inv(s) && Fits(s, logs)
    ensures Fits(Step(s, Submit(pages)), Logged(logs, Submit(pages)))
  {
    hide JobInv, Goes, InvRequests, InvPending;
    var t, after := Step(s, Submit(pages)), Logged(logs, Submit(pages));
    var line := s.batch + s.queue;
    assert t.batch + t.queue == line + [s.lastId];
    forall i | 0 <= i < |line| ensures line[i] < s.lastId {
      JobIdIsOld(s, line[i]);
    }
    NewGoes(pages);
    forall i | 0 <= i < |after| ensures JobFits(t, after, i) {
      if i < |logs| {
        assert JobFits(s, logs, i);
      }
    }
  }

  lemma RestFits(s: State, logs: seq<Log>, e: Event)
    requires Inv(s) && Fits(s, logs) && Enabled(s, e) && (e.TakeBatch? || e.Store? || e.Release?)
    ensures Fits(Step(s, e), Logged(logs, e))
  {
    hide JobInv, Goes, InvRequests, InvPending;
    var t := Step(s, e);
    assert t.batch + t.queue == s.batch + s.queue;
    forall i | 0 <= i < |logs| ensures JobFits(t, logs, i) {
      assert JobFits(s, logs, i);
    }
  }

  lemma StepFits(s: State, logs: seq<Log>, e: Event)
    requires Inv(s) && Fits(s, logs) && Enabled(s, e) && FrontExists(s, e)
    ensures Fits(Step(s, e), Logged(logs, e))
  {
    hide Inv, Fits, Logged, Step;
    match e
    case Submit(pages) => SubmitFits(s, logs, pages);
    case Cancel(_) => CancelFits(s, logs, e);
    case CancelAll => CancelFits(s, logs, e);
    case Turn(pageOk) => TurnFits(s, logs, pageOk);
    case Answer(id, outcome) => AnswerFits(s, logs, id, outcome);
    case _ => RestFits(s, logs, e);
  }

  lemma {:induction false} RunFits(events: seq<Event>)
    requires Run(events).Some?
    ensures Fits(Run(events).value, Logs(events))
  {
    hide Inv, Fits, Step, Logged, Enabled;
    if events == [] {
      assert Fits(START, []) by { StartFits(); }
    } else {
      var n := |events| - 1;
      RunFits(events[..n]);
      var s := Run(events[..n]).value;
      FrontAlwaysExists(s, events[n]);
      StepFits(s, Logs(events[..n]), events[n]);
    }
  }

  lemma StartFits()
    ensures Fits(START, [])
  {
  }

  /** How every job of every run ends, from the events alone. It is complete exactly when its creation,
      an upload for each of its pages, its completion and then its fetch were answered, the fetch with
      success; an error exactly when a page could not be rendered, or when the last answer, not one to
      the deletion, was a failure other than a cancel; canceled exactly when it was given up; and it
      is settled exactly when one of these has happened. */
  lemma EveryEnd(events: seq<Event>, id: nat)
    requires Run(events).Some? && id < |Logs(events)|
    ensures var l := Logs(events)[id];
      && id in Run(events).value.jobs
      && var stage := Run(events).value.jobs[id].stage;
      && (stage.Settled? && stage.status == Complete <==> Fetched(l))
      && (stage.Settled? && stage.status == Error <==> PageFailed(l) || Refused(l))
      && (stage.Settled? && stage.status == Canceled <==> GivenUp(l))
  {
    hide Run, JobInv, InvRequests, InvQueue, InvPending;
    RunFits(events);
    var s := Run(events).value;
    assert JobFits(s, Logs(events), id);
    JobIdIsOld(s, id);
    if !s.jobs[id].stage.Settled? {
      NotSettledYet(s.jobs[id], Logs(events)[id]);
    }
  }

  lemma NotSettledYet(j: Job, l: Log)
    requires JobInv(j) && Goes(j, l) && !j.stage.Settled?
    ensures !Fetched(l) && !PageFailed(l) && !Refused(l) && !GivenUp(l)
  {
    hide History, CancelRespected;
    assert j.progress.uploads <= |j.pages|;
  }

  /** Every action of every job, in order, from the events alone. */
  lemma EveryAction(events: seq<Event>, id: nat)
    requires Run(events).Some? && id < |Logs(events)|
    ensures var l := Logs(events)[id];
      && id in Run(events).value.jobs
      && ProgressOf(l).uploads <= |l.pages|
      && Run(events).value.jobs[id].actions == History(l.pages, ProgressOf(l))
  {
    hide Run, JobInv, InvRequests, InvQueue, InvPending, History;
    RunFits(events);
    var s := Run(events).value;
    assert JobFits(s, Logs(events), id);
    JobIdIsOld(s, id);
    JobFacts(s.jobs[id]);
  }

  /** The results kept for a job are those of its answered uploads, in page order; all of them when its
      completion is asked for. */
  lemma ResultsInOrder(events: seq<Event>, id: nat)
    requires Run(events).Some? && id < |Logs(events)|
    ensures id in Run(events).value.jobs
    ensures var j, l := Run(events).value.jobs[id], Logs(events)[id];
      && ResultsFit(j, l)
      && (j.stage.Calling? && (j.stage.call.FinishCall? || j.stage.call.FetchCall?) ==>
            |j.uploadResults| == |l.pages|)
  {
    hide Run, InvRequests, InvQueue, InvPending, History, CancelRespected, Recorded;
    RunFits(events);
    assert JobFits(Run(events).value, Logs(events), id);
    JobIdIsOld(Run(events).value, id);
  }

  /** Nothing went wrong with the job: nobody cancelled, all turns and answers were successful. */
  predicate Smooth(events: seq<Event>, id: nat) {
    forall i :: 0 <= i < |events| ==>
      && events[i] != Cancel(id) && events[i] != CancelAll
      && (events[i].Turn? ==> events[i].pageOk)
      && (events[i].Answer? && events[i].job == id ==> events[i].outcome.Success?)
  }

  predicate SmoothLog(l: Log) {
    && !l.cancelled
    && (forall i :: 0 <= i < |l.turns| ==> l.turns[i].pageOk && !l.turns[i].cancelled)
    && AllPlain(l)
  }

  lemma {:induction false} SmoothIsLogged(events: seq<Event>, id: nat)
    requires Smooth(events, id) && id < |Logs(events)|
    ensures SmoothLog(Logs(events)[id])
  {
    hide FirstOpen, RenderOver, Plain;
    var n := |events| - 1;
    var before, e := Logs(events[..n]), events[n];
    if id < |before| {
      SmoothIsLogged(events[..n], id);
      OneMoreIsSmooth(before, e, id);
    } else {
      assert e.Submit?;
    }
  }

  lemma OneMoreIsSmooth(logs: seq<Log>, e: Event, id: nat)
    requires id < |logs| && SmoothLog(logs[id]) && e != Cancel(id) && e != CancelAll
    requires e.Turn? ==> e.pageOk
    requires e.Answer? && e.job == id ==> e.outcome.Success?
    ensures id < |Logged(logs, e)| && SmoothLog(Logged(logs, e)[id])
  {
    hide FirstOpen, RenderOver;
  }

  lemma SmoothEnds(l: Log)
    requires SmoothLog(l) && l.pages != []
    ensures !PageFailed(l) && !Refused(l) && !GivenUp(l)
    ensures Fetched(l) <==> |l.answers| == |l.pages| + 3
  {
  }

  /** A document with pages that nobody cancels, when every page can be rendered and every call is
      answered with success, ends in no other way than complete, with its promise set to a value,
      and that as soon as its n + 3 calls are answered. */
  lemma SmoothIsComplete(events: seq<Event>, id: nat)
    requires Run(events).Some? && id < |Logs(events)| && Smooth(events, id) && Logs(events)[id].pages != []
    ensures id in Run(events).value.jobs
    ensures var l, j := Logs(events)[id], Run(events).value.jobs[id];
      && (j.stage.Settled? <==> |l.answers| == |l.pages| + 3)
      && (j.stage.Settled? ==>
            j.stage.status == Complete
            && |j.actions| >= 2 && j.actions[|j.actions| - 2..] == [Report(Complete), Settle(true)])
  {
    hide Run, JobInv, InvRequests, InvQueue, InvPending, History, Fetched, PageFailed, Refused, GivenUp;
    EveryEnd(events, id);
    SmoothIsLogged(events, id);
    SmoothEnds(Logs(events)[id]);
    var j := Run(events).value.jobs[id];
    JobIdIsOld(Run(events).value, id);
    JobFacts(j);
    SettledOnce(j);
  }
}
