/** The print-job protocol as a state machine: every callback of JobProcessor is one step, and any
    number of jobs, server answers and cancels interleave (src/CustomerPrintClientCore/JobProcessor.cpp). */
module JobProtocol {
  import opened Options

  /** PendingJobStatus, with the page number where the status has one. */
  datatype Status = Rendering(page: nat) | Uploading(page: nat) | Complete | Canceled | Error

  /** What a job does that others can see, in order. */
  datatype Action =
    | Report(status: Status)            // OnJobProgress
    | Create(pageCount: nat)            // AsyncCreateJob
    | Created                           // the server has created the job
    | Upload(number: nat, name: string) // AsyncUploadPage
    | Finish                            // AsyncCompleteJob
    | Fetch                             // AsyncGetJob
    | Delete                            // AsyncCancelJob
    | Settle(succeeded: bool)           // the promise is set to a value or to an exception

  datatype Call = CreateCall | UploadCall | FinishCall | FetchCall | DeleteCall

  datatype Stage =
    | Waiting(rendered: nat)           // its render task is queued or running
    | Calling(call: Call, request: nat) // one server call is outstanding
    | Settled(status: Status)

  /** How far a job has come; kept only to state what its actions so far must be. */
  datatype Progress = Progress(rendered: nat, create: bool, created: bool, uploads: nat, finish: bool,
                               fetch: bool, delete: bool, final: Option<Status>)

  /** One job: its pages in document order and the upload context. `cancelMark` is the number of
      actions at the moment the user's cancel was recorded. */
  datatype Job = Job(pages: seq<string>, stage: Stage, inputStreams: seq<string>, uploadResults: seq<string>,
                     actions: seq<Action>, progress: Progress, cancelMark: Option<nat>)

  /** How a server call ends. */
  datatype Outcome = Success(result: string) | CancelException | OtherException

  predicate Terminal(s: Status) { s.Complete? || s.Canceled? || s.Error? }

  // The callbacks of one job. `cancelling` is what IsJobCanceling finds, `request` the id that a
  // new server call gets.

  const NO_PROGRESS := Progress(0, false, false, 0, false, false, false, None)

  function NewJob(pages: seq<string>): Job {
    Job(pages, Waiting(0), [], [], [], NO_PROGRESS, None)
  }

  /** The final status is reported, then the promise is set. */
  function SettleWith(j: Job, status: Status): Job {
    j.(stage := Settled(status),
       actions := j.actions + [Report(status), Settle(status != Error)],
       progress := j.progress.(final := Some(status)))
  }

  function CallDelete(j: Job, request: nat): Job {
    j.(stage := Calling(DeleteCall, request), actions := j.actions + [Delete],
       progress := j.progress.(delete := true))
  }

  function CallFetch(j: Job, request: nat): Job {
    j.(stage := Calling(FetchCall, request), actions := j.actions + [Fetch],
       progress := j.progress.(fetch := true))
  }

  function CallFinish(j: Job, request: nat): Job {
    j.(stage := Calling(FinishCall, request), actions := j.actions + [Finish],
       progress := j.progress.(finish := true))
  }

  function CallCreate(j: Job, request: nat): Job {
    j.(stage := Calling(CreateCall, request), actions := j.actions + [Create(|j.inputStreams|)],
       progress := j.progress.(create := true))
  }

  /** Sends the page at the front of the streams. */
  function CallUpload(j: Job, request: nat): Job
    requires j.inputStreams != []
  {
    var number := |j.uploadResults| + 1;
    j.(stage := Calling(UploadCall, request),
       inputStreams := j.inputStreams[1..],
       actions := j.actions + [Report(Uploading(number)), Upload(number, j.inputStreams[0])],
       progress := j.progress.(uploads := number))
  }

  /** `ProcessServerException`. */
  function ServerException(j: Job, outcome: Outcome, needCancelJob: bool, request: nat): Job
    requires !outcome.Success?
  {
    if outcome.OtherException? then SettleWith(j, Error)
    else if needCancelJob then CallDelete(j, request)
    else SettleWith(j, Canceled)
  }

  /** One turn of the render task: cancelled, the next page, or the end of the document. */
  function RenderTurn(j: Job, cancelling: bool, pageOk: bool, request: nat): (r: Job)
    requires j.stage.Waiting?
    ensures r.cancelMark == j.cancelMark
    ensures r.stage.Calling? ==> r.stage.request == request && !r.stage.call.DeleteCall?
  {
    var k := j.stage.rendered;
    if k < |j.pages| then
      if cancelling then SettleWith(j.(inputStreams := []), Canceled)
      else
        var reported := j.(actions := j.actions + [Report(Rendering(k + 1))],
                           progress := j.progress.(rendered := k + 1));
        if pageOk then reported.(stage := Waiting(k + 1), inputStreams := j.inputStreams + [j.pages[k]])
        else SettleWith(reported, Error)
    else if j.inputStreams == [] then SettleWith(j, Canceled)
    else if cancelling then SettleWith(j, Canceled)
    else CallCreate(j, request)
  }

  /** The callback of the outstanding server call. */
  function Answered(j: Job, cancelling: bool, outcome: Outcome, request: nat): (r: Job)
    requires j.stage.Calling?
    requires j.stage.call.CreateCall? ==> j.inputStreams != []
    ensures r.cancelMark == j.cancelMark && !r.stage.Waiting?
    ensures r.stage.Calling? ==> r.stage.request == request
  {
    match j.stage.call
    case CreateCall =>
      if !outcome.Success? then ServerException(j, outcome, false, request)
      else
        var created := j.(actions := j.actions + [Created], progress := j.progress.(created := true));
        if cancelling then CallDelete(created, request) else CallUpload(created, request)
    case UploadCall =>
      if !outcome.Success? then ServerException(j, outcome, true, request)
      else
        var uploaded := j.(uploadResults := j.uploadResults + [outcome.result]);
        if cancelling then CallDelete(uploaded, request)
        else if j.inputStreams == [] then CallFinish(uploaded, request)
        else CallUpload(uploaded, request)
    case FinishCall =>
      if !outcome.Success? then ServerException(j, outcome, true, request)
      else if cancelling then CallDelete(j, request)
      else CallFetch(j, request)
    case FetchCall =>
      if !outcome.Success? then ServerException(j, outcome, true, request)
      else SettleWith(j, Complete)
    case DeleteCall => SettleWith(j, Canceled)
  }

  // What the actions of a job must be

  function Renders(k: nat): seq<Action> {
    if k == 0 then [] else Renders(k - 1) + [Report(Rendering(k))]
  }

  function Uploads(pages: seq<string>, k: nat): seq<Action>
    requires k <= |pages|
  {
    if k == 0 then [] else Uploads(pages, k - 1) + [Report(Uploading(k)), Upload(k, pages[k - 1])]
  }

  function When(b: bool, a: Action): seq<Action> { if b then [a] else [] }

  function Ending(final: Option<Status>): seq<Action> {
    if final.None? then [] else [Report(final.value), Settle(final.value != Error)]
  }

  /** The actions of a job that has come this far: pages rendered in order, the job created,
      pages 1, 2, ... uploaded in render order, the job completed, fetched or deleted, and last
      of all one final status and one settlement of the promise. */
  function History(pages: seq<string>, p: Progress): seq<Action>
    requires p.uploads <= |pages|
  {
    Renders(p.rendered) + When(p.create, Create(|pages|)) + When(p.created, Created)
    + Uploads(pages, p.uploads) + When(p.finish, Finish) + When(p.fetch, Fetch) + When(p.delete, Delete)
    + Ending(p.final)
  }

  predicate Ordered(n: nat, p: Progress) {
    && p.rendered <= n && p.uploads <= n
    && (p.create ==> p.rendered == n && n > 0)
    && (p.created ==> p.create)
    && (p.uploads > 0 ==> p.created)
    && (p.finish ==> p.uploads == n && p.created)
    && (p.fetch ==> p.finish)
    && (p.delete ==> p.created)
  }

  /** What may still happen once a cancel has been recorded: nothing is rendered, and nothing is
      asked of the server but the deletion of the job. */
  predicate AllowedAfterCancel(a: Action) {
    a.Delete? || a.Settle? || a.Created? || (a.Report? && Terminal(a.status))
  }

  predicate CancelRespected(j: Job) {
    j.cancelMark.Some? ==>
      && j.cancelMark.value <= |j.actions|
      && forall i :: j.cancelMark.value <= i < |j.actions| ==> AllowedAfterCancel(j.actions[i])
  }

  /** Where the pages are in each stage, and which progress goes with it. */
  predicate StageFits(j: Job) {
    var n, p, sent := |j.pages|, j.progress, j.progress.uploads;
    && (p.final.Some? <==> j.stage.Settled?)
    && match j.stage
       case Waiting(k) =>
         k <= n && p == NO_PROGRESS.(rendered := k) && j.inputStreams == j.pages[..k] && j.uploadResults == []
       case Calling(CreateCall, _) =>
         n > 0 && p == NO_PROGRESS.(rendered := n, create := true) && j.inputStreams == j.pages
         && j.uploadResults == []
       case Calling(UploadCall, _) =>
         p == NO_PROGRESS.(rendered := n, create := true, created := true, uploads := sent)
         && 0 < sent <= n && |j.uploadResults| + 1 == sent && j.inputStreams == j.pages[sent..]
       case Calling(FinishCall, _) =>
         p == NO_PROGRESS.(rendered := n, create := true, created := true, uploads := n, finish := true)
         && |j.uploadResults| == n && j.inputStreams == []
       case Calling(FetchCall, _) =>
         p == NO_PROGRESS.(rendered := n, create := true, created := true, uploads := n, finish := true, fetch := true)
         && |j.uploadResults| == n && j.inputStreams == []
       case Calling(DeleteCall, _) => p.delete && p.created
       case Settled(status) =>
         && p.final == Some(status) && Terminal(status)
         && (status.Complete? ==> p.fetch && !p.delete)
         && (status.Canceled? ==> (p.created <==> p.delete))
         && (status.Error? ==> !p.delete && n > 0)
  }

  /** What holds of every job in every reachable state. */
  predicate JobInv(j: Job) {
    && Ordered(|j.pages|, j.progress)
    && j.actions == History(j.pages, j.progress)
    && StageFits(j)
    && CancelRespected(j)
    && (j.stage.Settled? && j.stage.status.Canceled? ==> j.cancelMark.Some? || |j.pages| == 0)
    && (j.stage.Calling? && j.stage.call.DeleteCall? ==> j.cancelMark.Some?)
  }

  // Each callback keeps the invariant

  lemma HistoryWhenSettled(pages: seq<string>, p: Progress, status: Status)
    requires p.uploads <= |pages| && p.final.None?
    ensures History(pages, p.(final := Some(status)))
         == History(pages, p) + [Report(status), Settle(status != Error)]
  {
  }

  lemma SettleKeeps(j: Job, status: Status)
    requires Ordered(|j.pages|, j.progress) && j.progress.final.None?
    requires j.actions == History(j.pages, j.progress) && CancelRespected(j) && Terminal(status)
    requires status.Complete? ==> j.progress.fetch && !j.progress.delete
    requires status.Canceled? ==> (j.progress.created <==> j.progress.delete)
    requires status.Error? ==> !j.progress.delete && |j.pages| > 0
    requires status.Canceled? ==> j.cancelMark.Some? || |j.pages| == 0
    ensures JobInv(SettleWith(j, status))
  {
    HistoryWhenSettled(j.pages, j.progress, status);
  }

  lemma DeleteKeeps(j: Job, request: nat)
    requires Ordered(|j.pages|, j.progress) && j.progress.final.None? && !j.progress.delete
    requires j.actions == History(j.pages, j.progress) && CancelRespected(j)
    requires j.progress.created && j.cancelMark.Some?
    ensures JobInv(CallDelete(j, request))
  {
    var p := j.progress;
    assert History(j.pages, p.(delete := true)) == History(j.pages, p) + [Delete];
  }

  lemma RenderTurnKeeps(j: Job, pageOk: bool, request: nat)
    requires JobInv(j) && j.stage.Waiting?
    ensures JobInv(RenderTurn(j, j.cancelMark.Some?, pageOk, request))
  {
    var k, n, p := j.stage.rendered, |j.pages|, j.progress;
    var cancelling := j.cancelMark.Some?;
    if k < n {
      if cancelling {
        SettleKeeps(j.(inputStreams := []), Canceled);
      } else {
        assert History(j.pages, p.(rendered := k + 1)) == History(j.pages, p) + [Report(Rendering(k + 1))];
        var reported := j.(actions := j.actions + [Report(Rendering(k + 1))], progress := p.(rendered := k + 1));
        if !pageOk {
          SettleKeeps(reported, Error);
        }
      }
    } else if n == 0 || cancelling {
      assert j.pages[..k] == j.pages;
      SettleKeeps(j, Canceled);
    } else {
      assert j.pages[..k] == j.pages;
      assert History(j.pages, p.(create := true)) == History(j.pages, p) + [Create(n)];
    }
  }

  lemma UploadKeeps(j: Job, request: nat)
    requires var n, sent := |j.pages|, |j.uploadResults|;
      && j.progress == NO_PROGRESS.(rendered := n, create := true, created := true, uploads := sent)
      && sent < n && j.inputStreams == j.pages[sent..]
    requires j.actions == History(j.pages, j.progress) && j.cancelMark.None?
    ensures JobInv(CallUpload(j, request))
  {
    var sent, p := |j.uploadResults|, j.progress;
    assert History(j.pages, p.(uploads := sent + 1))
        == History(j.pages, p) + [Report(Uploading(sent + 1)), Upload(sent + 1, j.pages[sent])];
  }

  lemma CreateAnsweredKeeps(j: Job, outcome: Outcome, request: nat)
    requires JobInv(j) && j.stage.Calling? && j.stage.call.CreateCall?
    requires outcome.CancelException? ==> j.cancelMark.Some?
    ensures JobInv(Answered(j, j.cancelMark.Some?, outcome, request))
  {
    var n, p := |j.pages|, j.progress;
    if outcome.Success? {
      var created := j.(actions := j.actions + [Created], progress := p.(created := true));
      assert History(j.pages, p.(created := true)) == History(j.pages, p) + [Created];
      if j.cancelMark.Some? {
        DeleteKeeps(created, request);
      } else {
        assert j.pages[0..] == j.pages;
        UploadKeeps(created, request);
      }
    } else {
      SettleKeeps(j, if outcome.OtherException? then Error else Canceled);
    }
  }

  lemma UploadAnsweredKeeps(j: Job, outcome: Outcome, request: nat)
    requires JobInv(j) && j.stage.Calling? && j.stage.call.UploadCall?
    requires outcome.CancelException? ==> j.cancelMark.Some?
    ensures JobInv(Answered(j, j.cancelMark.Some?, outcome, request))
  {
    var p := j.progress;
    if outcome.Success? {
      var uploaded := j.(uploadResults := j.uploadResults + [outcome.result]);
      if j.cancelMark.Some? {
        DeleteKeeps(uploaded, request);
      } else if j.inputStreams == [] {
        assert History(j.pages, p.(finish := true)) == History(j.pages, p) + [Finish];
      } else {
        UploadKeeps(uploaded, request);
      }
    } else if outcome.OtherException? {
      SettleKeeps(j, Error);
    } else {
      DeleteKeeps(j, request);
    }
  }

  lemma AnsweredKeeps(j: Job, outcome: Outcome, request: nat)
    requires JobInv(j) && j.stage.Calling?
    requires outcome.CancelException? ==> j.cancelMark.Some?
    ensures JobInv(Answered(j, j.cancelMark.Some?, outcome, request))
  {
    var p := j.progress;
    match j.stage.call
    case CreateCall => CreateAnsweredKeeps(j, outcome, request);
    case UploadCall => UploadAnsweredKeeps(j, outcome, request);
    case FinishCall =>
      if outcome.OtherException? {
        SettleKeeps(j, Error);
      } else if outcome.CancelException? || j.cancelMark.Some? {
        DeleteKeeps(j, request);
      } else {
        assert History(j.pages, p.(fetch := true)) == History(j.pages, p) + [Fetch];
      }
    case FetchCall =>
      if outcome.CancelException? {
        DeleteKeeps(j, request);
      } else {
        SettleKeeps(j, if outcome.Success? then Complete else Error);
      }
    case DeleteCall => SettleKeeps(j, Canceled);
  }

  /** Recording a cancel: later actions are counted from here. */
  function MarkCancel(j: Job): Job {
    if j.cancelMark.Some? then j else j.(cancelMark := Some(|j.actions|))
  }

  lemma MarkCancelKeeps(j: Job)
    requires JobInv(j)
    ensures JobInv(MarkCancel(j))
  {
  }

  // What the invariant says about the actions of a job

  predicate IsSettle(a: Action) { a.Settle? }
  predicate IsFinal(a: Action) { a.Report? && Terminal(a.status) }
  predicate IsUpload(a: Action) { a.Upload? }
  predicate IsDelete(a: Action) { a.Delete? }
  predicate IsCall(a: Action) { a.Create? || a.Upload? || a.Finish? || a.Fetch? || a.Delete? }

  /** The actions that satisfy p, in order. */
  function Only(actions: seq<Action>, p: Action -> bool): seq<Action> {
    if actions == [] then []
    else
      var n := |actions| - 1;
      Only(actions[..n], p) + When(p(actions[n]), actions[n])
  }

  lemma {:induction false} OnlyConcat(a: seq<Action>, b: seq<Action>, p: Action -> bool)
    ensures Only(a + b, p) == Only(a, p) + Only(b, p)
    decreases |b|
  {
    if b == [] {
      assert a + b == a;
    } else {
      var n := |b| - 1;
      assert (a + b)[..|a + b| - 1] == a + b[..n];
      OnlyConcat(a, b[..n], p);
    }
  }

  lemma OnlyOne(a: Action, p: Action -> bool)
    ensures Only([a], p) == When(p(a), a)
  {
    assert [a][..0] == [];
    assert Only([], p) == [];
  }

  lemma OnlyTwo(a: Action, b: Action, p: Action -> bool)
    ensures Only([a, b], p) == When(p(a), a) + When(p(b), b)
  {
    assert [a, b] == [a] + [b];
    OnlyConcat([a], [b], p);
    OnlyOne(a, p);
    OnlyOne(b, p);
  }

  lemma {:induction false} OnlyRenders(k: nat, p: Action -> bool)
    requires forall i :: !p(Report(Rendering(i)))
    ensures Only(Renders(k), p) == []
  {
    if k > 0 {
      OnlyRenders(k - 1, p);
      OnlyConcat(Renders(k - 1), [Report(Rendering(k))], p);
      OnlyOne(Report(Rendering(k)), p);
    }
  }

  /** Pages 1 to k, each once, in render order. */
  function UploadCalls(pages: seq<string>, k: nat): seq<Action>
    requires k <= |pages|
  {
    seq(k, i requires 0 <= i < k => Upload(i + 1, pages[i]))
  }

  lemma {:induction false} OnlyUploads(pages: seq<string>, k: nat, p: Action -> bool)
    requires k <= |pages|
    requires forall i :: !p(Report(Uploading(i)))
    requires (forall i, name :: p(Upload(i, name))) || (forall i, name :: !p(Upload(i, name)))
    ensures Only(Uploads(pages, k), p) == if p(Upload(0, "")) then UploadCalls(pages, k) else []
  {
    hide Only;
    if k == 0 {
      OnlyNothing(p);
    } else {
      OnlyUploads(pages, k - 1, p);
      var a, b := Report(Uploading(k)), Upload(k, pages[k - 1]);
      OnlyConcat(Uploads(pages, k - 1), [a, b], p);
      OnlyTwo(a, b, p);
    }
  }

  lemma OnlyWhen(c: bool, a: Action, p: Action -> bool)
    ensures Only(When(c, a), p) == When(c && p(a), a)
  {
    OnlyOne(a, p);
  }

  lemma HistoryParts(pages: seq<string>, q: Progress)
    requires q.uploads <= |pages|
    ensures History(pages, q)
         == Renders(q.rendered) + When(q.create, Create(|pages|)) + When(q.created, Created)
          + Uploads(pages, q.uploads) + When(q.finish, Finish) + When(q.fetch, Fetch) + When(q.delete, Delete)
          + Ending(q.final)
  {
  }

  lemma OnlyEight(a: seq<Action>, b: seq<Action>, c: seq<Action>, d: seq<Action>, e: seq<Action>,
                  f: seq<Action>, g: seq<Action>, h: seq<Action>, p: Action -> bool)
    ensures Only(a + b + c + d + e + f + g + h, p)
         == Only(a, p) + Only(b, p) + Only(c, p) + Only(d, p) + Only(e, p) + Only(f, p) + Only(g, p) + Only(h, p)
  {
    hide *;
    OnlyConcat(a, b, p);
    OnlyConcat(a + b, c, p);
    OnlyConcat(a + b + c, d, p);
    OnlyConcat(a + b + c + d, e, p);
    OnlyConcat(a + b + c + d + e, f, p);
    OnlyConcat(a + b + c + d + e + f, g, p);
    OnlyConcat(a + b + c + d + e + f + g, h, p);
  }

  /** Picking out one kind of action from a history, part by part. */
  lemma OnlyHistory(pages: seq<string>, q: Progress, p: Action -> bool)
    requires q.uploads <= |pages|
    requires forall i :: !p(Report(Rendering(i))) && !p(Report(Uploading(i)))
    requires (forall i, name :: p(Upload(i, name))) || (forall i, name :: !p(Upload(i, name)))
    ensures Only(History(pages, q), p)
         == When(q.create && p(Create(|pages|)), Create(|pages|)) + When(q.created && p(Created), Created)
          + (if p(Upload(0, "")) then UploadCalls(pages, q.uploads) else [])
          + When(q.finish && p(Finish), Finish) + When(q.fetch && p(Fetch), Fetch)
          + When(q.delete && p(Delete), Delete) + Only(Ending(q.final), p)
  {
    hide *;
    HistoryParts(pages, q);
    OnlyEight(Renders(q.rendered), When(q.create, Create(|pages|)), When(q.created, Created),
              Uploads(pages, q.uploads), When(q.finish, Finish), When(q.fetch, Fetch), When(q.delete, Delete),
              Ending(q.final), p);
    OnlyRenders(q.rendered, p);
    OnlyUploads(pages, q.uploads, p);
    OnlyWhen(q.create, Create(|pages|), p);
    OnlyWhen(q.created, Created, p);
    OnlyWhen(q.finish, Finish, p);
    OnlyWhen(q.fetch, Fetch, p);
    OnlyWhen(q.delete, Delete, p);
    assert [] + When(q.create && p(Create(|pages|)), Create(|pages|))
        == When(q.create && p(Create(|pages|)), Create(|pages|));
  }

  /** The parts of the invariant that the facts about actions rest on. */
  lemma JobFacts(j: Job)
    requires JobInv(j)
    ensures j.progress.uploads <= |j.pages| && j.actions == History(j.pages, j.progress)
    ensures j.progress.final == if j.stage.Settled? then Some(j.stage.status) else None
    ensures j.progress.finish ==> j.progress.uploads == |j.pages|
    ensures j.progress.fetch ==> j.progress.finish
    ensures j.stage.Settled? ==>
      && Terminal(j.stage.status)
      && (j.stage.status.Complete? ==> j.progress.fetch && !j.progress.delete)
      && (j.stage.status.Canceled? ==> (j.progress.created <==> j.progress.delete))
      && (j.stage.status.Error? ==> !j.progress.delete)
      && (j.stage.status.Canceled? ==> j.cancelMark.Some? || |j.pages| == 0)
    ensures CancelRespected(j)
  {
  }

  lemma OnlyNothing(p: Action -> bool)
    ensures Only([], p) == []
  {
  }

  lemma EndsWith(pages: seq<string>, q: Progress, s: Status)
    requires q.uploads <= |pages| && q.final == Some(s)
    ensures var h := History(pages, q); |h| >= 2 && h[|h| - 2..] == [Report(s), Settle(s != Error)]
  {
    HistoryWhenSettled(pages, q.(final := None), s);
    assert q.(final := None).(final := Some(s)) == q;
  }

  /** The promise is set exactly once and exactly one of Complete, Canceled and Error is reported,
      as the last two actions of the job; before that, neither has happened. */
  lemma SettledOnce(j: Job)
    requires JobInv(j)
    ensures Only(j.actions, IsSettle)
         == if j.stage.Settled? then [Settle(j.stage.status != Error)] else []
    ensures Only(j.actions, IsFinal)
         == if j.stage.Settled? then [Report(j.stage.status)] else []
    ensures j.stage.Settled? ==>
      |j.actions| >= 2 && j.actions[|j.actions| - 2..] == [Report(j.stage.status), Settle(j.stage.status != Error)]
  {
    hide JobInv, History, Only, UploadCalls;
    var q := j.progress;
    JobFacts(j);
    OnlyHistory(j.pages, q, IsSettle);
    OnlyHistory(j.pages, q, IsFinal);
    if q.final.Some? {
      var s := q.final.value;
      OnlyTwo(Report(s), Settle(s != Error), IsSettle);
      OnlyTwo(Report(s), Settle(s != Error), IsFinal);
      EndsWith(j.pages, q, s);
    } else {
      OnlyNothing(IsSettle);
      OnlyNothing(IsFinal);
    }
  }

  /** Pages go out as 1, 2, ... in render order, with no gap and no repeat; completion is asked for
      only when all have gone out, and the job is fetched only after that. */
  lemma UploadsInOrder(j: Job)
    requires JobInv(j)
    ensures Only(j.actions, IsUpload) == UploadCalls(j.pages, j.progress.uploads)
    ensures Finish in j.actions ==> Only(j.actions, IsUpload) == UploadCalls(j.pages, |j.pages|)
    ensures Fetch in j.actions ==> Finish in j.actions
  {
    hide JobInv, History, Only;
    JobFacts(j);
    OnlyHistory(j.pages, j.progress, IsUpload);
    NoFinalIs(j.progress.final, IsUpload);
    OnlyHistory(j.pages, j.progress, IsFinish);
    NoFinalIs(j.progress.final, IsFinish);
    OnlyFinds(j.actions, Finish, IsFinish);
    OnlyHistory(j.pages, j.progress, IsFetch);
    NoFinalIs(j.progress.final, IsFetch);
    OnlyFinds(j.actions, Fetch, IsFetch);
  }

  lemma NoFinalIs(final: Option<Status>, p: Action -> bool)
    requires (forall s :: !p(Report(s))) && (forall b :: !p(Settle(b)))
    ensures Only(Ending(final), p) == []
  {
    if final.Some? {
      OnlyTwo(Report(final.value), Settle(final.value != Error), p);
    }
  }

  predicate IsPageReport(a: Action) { a.Report? && (a.status.Rendering? || a.status.Uploading?) }
  predicate IsCreate(a: Action) { a.Create? }

  function RenderReports(k: nat): seq<Action> {
    seq(k, i requires 0 <= i < k => Report(Rendering(i + 1)))
  }

  function UploadReports(k: nat): seq<Action> {
    seq(k, i requires 0 <= i < k => Report(Uploading(i + 1)))
  }


  lemma {:induction false} OnlyRenderReports(k: nat)
    ensures Only(Renders(k), IsPageReport) == RenderReports(k)
  {
    hide Only;
    if k == 0 {
      OnlyNothing(IsPageReport);
    } else {
      OnlyRenderReports(k - 1);
      OnlyConcat(Renders(k - 1), [Report(Rendering(k))], IsPageReport);
      OnlyOne(Report(Rendering(k)), IsPageReport);
    }
  }

  lemma {:induction false} OnlyUploadReports(pages: seq<string>, k: nat)
    requires k <= |pages|
    ensures Only(Uploads(pages, k), IsPageReport) == UploadReports(k)
  {
    hide Only;
    if k == 0 {
      OnlyNothing(IsPageReport);
    } else {
      var a, b := Report(Uploading(k)), Upload(k, pages[k - 1]);
      OnlyUploadReports(pages, k - 1);
      OnlyConcat(Uploads(pages, k - 1), [a, b], IsPageReport);
      OnlyTwo(a, b, IsPageReport);
    }
  }

  lemma NoPageInEnding(final: Option<Status>)
    requires final.Some? ==> Terminal(final.value)
    ensures Only(Ending(final), IsPageReport) == []
  {
    hide Only;
    if final.Some? {
      OnlyTwo(Report(final.value), Settle(final.value != Error), IsPageReport);
    } else {
      OnlyNothing(IsPageReport);
    }
  }

  lemma OnlyPageReports(pages: seq<string>, q: Progress)
    requires q.uploads <= |pages| && (q.final.Some? ==> Terminal(q.final.value))
    ensures Only(History(pages, q), IsPageReport) == RenderReports(q.rendered) + UploadReports(q.uploads)
  {
    hide *;
    HistoryParts(pages, q);
    OnlyEight(Renders(q.rendered), When(q.create, Create(|pages|)), When(q.created, Created),
              Uploads(pages, q.uploads), When(q.finish, Finish), When(q.fetch, Fetch), When(q.delete, Delete),
              Ending(q.final), IsPageReport);
    OnlyRenderReports(q.rendered);
    OnlyUploadReports(pages, q.uploads);
    NoPageAmong(q.create, Create(|pages|));
    NoPageAmong(q.created, Created);
    NoPageAmong(q.finish, Finish);
    NoPageAmong(q.fetch, Fetch);
    NoPageAmong(q.delete, Delete);
    NoPageInEnding(q.final);
  }

  lemma NoPageAmong(c: bool, a: Action)
    requires !a.Report?
    ensures Only(When(c, a), IsPageReport) == []
  {
    OnlyWhen(c, a, IsPageReport);
  }

  /** The user sees pages 1, 2, ... rendered and then pages 1, 2, ... uploaded, each once and with no
      gap; the server is told the number of pages when the job is created. */
  lemma PagesReported(j: Job)
    requires JobInv(j)
    ensures Only(j.actions, IsPageReport) == RenderReports(j.progress.rendered) + UploadReports(j.progress.uploads)
    ensures Only(j.actions, IsCreate) == When(j.progress.create, Create(|j.pages|))
  {
    hide JobInv, History, Only, RenderReports, UploadReports;
    JobFacts(j);
    OnlyPageReports(j.pages, j.progress);
    OnlyHistory(j.pages, j.progress, IsCreate);
    NoFinalIs(j.progress.final, IsCreate);
  }

  /** A job with n pages makes at most n + 4 server calls. */
  lemma CallsAreBounded(j: Job)
    requires JobInv(j)
    ensures |Only(j.actions, IsCall)| <= |j.pages| + 4
  {
    hide JobInv, History, Only;
    JobFacts(j);
    OnlyHistory(j.pages, j.progress, IsCall);
    NoFinalIs(j.progress.final, IsCall);
  }

  /** Canceled after the server has created the job follows exactly one deletion; Canceled before
      that asks for none. Complete and Error ask for none. */
  lemma DeletedOnce(j: Job)
    requires JobInv(j) && j.stage.Settled?
    ensures Only(j.actions, IsDelete)
         == if j.stage.status.Canceled? && Created in j.actions then [Delete] else []
  {
    hide JobInv, History, Only;
    JobFacts(j);
    var q := j.progress;
    OnlyHistory(j.pages, q, IsDelete);
    NoFinalIs(q.final, IsDelete);
    OnlyHistory(j.pages, q, IsCreated);
    NoFinalIs(q.final, IsCreated);
    OnlyFinds(j.actions, Created, IsCreated);
  }

  predicate IsCreated(a: Action) { a.Created? }
  predicate IsFetch(a: Action) { a.Fetch? }
  predicate IsFinish(a: Action) { a.Finish? }

  lemma {:induction false} OnlyFinds(actions: seq<Action>, a: Action, p: Action -> bool)
    requires p(a)
    ensures a in actions <==> a in Only(actions, p)
    ensures forall b :: b in Only(actions, p) ==> p(b)
  {
    if actions != [] {
      var n := |actions| - 1;
      OnlyFinds(actions[..n], a, p);
      assert actions == actions[..n] + [actions[n]];
    }
  }

  /** A job that is reported complete had its new state fetched, which the completion callback
      asks for only while no cancel has been recorded: a cancel, if any, came after that. */
  lemma CompleteBeforeCancel(j: Job)
    requires JobInv(j) && j.stage.Settled? && j.stage.status.Complete?
    ensures Fetch in j.actions
    ensures j.cancelMark.Some? ==>
      forall i :: 0 <= i < |j.actions| && j.actions[i] == Fetch ==> i < j.cancelMark.value
  {
    hide JobInv, History, Only;
    JobFacts(j);
    OnlyHistory(j.pages, j.progress, IsFetch);
    NoFinalIs(j.progress.final, IsFetch);
    OnlyFinds(j.actions, Fetch, IsFetch);
  }

  /** Results received, the page in flight and the pages still to send add up to the pages
      rendered, until the job is being deleted or is settled. */
  lemma PagesAreConserved(j: Job)
    requires JobInv(j) && j.stage.Calling? && !j.stage.call.DeleteCall?
    ensures |j.uploadResults| + (if j.stage.call.UploadCall? then 1 else 0) + |j.inputStreams| == |j.pages|
    ensures j.pages[..j.progress.uploads] + j.inputStreams == j.pages
  {
  }

  /** Callbacks that can still come before the job is settled. */
  function Work(j: Job): nat
    requires StageFits(j)
  {
    var n := |j.pages|;
    match j.stage
    case Waiting(k) => (n - k) + n + 6
    case Calling(CreateCall, _) => n + 5
    case Calling(UploadCall, _) => n - j.progress.uploads + 4
    case Calling(FinishCall, _) => 3
    case Calling(FetchCall, _) => 2
    case Calling(DeleteCall, _) => 1
    case Settled(_) => 0
  }

  /** A document without pages is never created on the server and never an error: it is reported
      as canceled even when nobody cancelled it. */
  lemma NoPagesIsCanceled(j: Job)
    requires JobInv(j) && j.pages == []
    ensures Only(j.actions, IsCall) == []
    ensures j.stage.Settled? ==> j.stage.status == Canceled
  {
    OnlyHistory(j.pages, j.progress, IsCall);
    NoFinalIs(j.progress.final, IsCall);
  }

  /** Every callback of a job brings it nearer to its end. */
  lemma CallbacksMakeProgress(j: Job, outcome: Outcome, pageOk: bool, request: nat)
    requires JobInv(j) && !j.stage.Settled?
    requires outcome.CancelException? ==> j.cancelMark.Some?
    ensures j.stage.Waiting? ==>
      var next := RenderTurn(j, j.cancelMark.Some?, pageOk, request);
      StageFits(next) && Work(next) < Work(j)
    ensures j.stage.Calling? ==>
      var next := Answered(j, j.cancelMark.Some?, outcome, request);
      StageFits(next) && Work(next) < Work(j)
  {
    hide History, CancelRespected;
    if j.stage.Waiting? {
      RenderTurnKeeps(j, pageOk, request);
    } else {
      AnsweredKeeps(j, outcome, request);
    }
  }

  // All jobs together

  /** PendingJobInfo. */
  datatype PendingInfo = PendingInfo(cancelling: bool, currentRequest: nat)

  /** A request id that a call has returned and that has not been stored in the list yet. */
  datatype IdWrite = IdWrite(job: nat, request: nat)

  /** The list of pending jobs, the render queue and the batch the render thread has taken from
      it, the upload contexts, and what the HTTP layer knows: which job each request id was given
      to, and which requests it has been told to cancel. */
  datatype State = State(lastId: nat, pending: map<nat, PendingInfo>, queue: seq<nat>, batch: seq<nat>,
                         jobs: map<nat, Job>, writes: seq<IdWrite>, owners: seq<nat>, aborted: set<nat>)

  const START := State(0, map[], [], [], map[], [], [0], {})

  datatype Event =
    | Submit(pages: seq<string>)
    | Cancel(job: nat)
    | CancelAll
    | TakeBatch
    | Turn(pageOk: bool)
    | Answer(job: nat, outcome: Outcome)
    | Store(index: nat, refused: bool)
    | Release(job: nat)

  /** When an event can happen. A call ends with a cancel exception only if it was cancelled. */
  predicate Enabled(s: State, e: Event) {
    match e
    case Submit(_) => true
    case Cancel(_) => true
    case CancelAll => true
    case TakeBatch => s.queue != [] && s.batch == []
    case Turn(_) => s.batch != [] && s.batch[0] in s.jobs && s.jobs[s.batch[0]].stage.Waiting?
    case Answer(id, outcome) =>
      && id in s.jobs && s.jobs[id].stage.Calling?
      && (outcome.CancelException? ==> s.jobs[id].stage.request in s.aborted)
    case Store(k, _) => k < |s.writes|
    case Release(id) => id in s.jobs && s.jobs[id].stage.Settled?
  }

  /** `front()` is never taken of an empty list: a created job has a page to send. */
  predicate FrontExists(s: State, e: Event)
    requires Enabled(s, e)
  {
    e.Answer? && s.jobs[e.job].stage.call.CreateCall? ==> s.jobs[e.job].inputStreams != []
  }

  predicate IsCancelling(s: State, id: nat) { id in s.pending && s.pending[id].cancelling }

  /** The state after job `id` has become `next`. A new call has taken the next request id; all
      but the deletion return it to be stored, and the deletion stores 0 before it is made. */
  function Advance(s: State, id: nat, next: Job): State {
    if !next.stage.Calling? then s.(jobs := s.jobs[id := next])
    else if next.stage.call.DeleteCall? then
      s.(jobs := s.jobs[id := next], owners := s.owners + [id], pending := StoreId(s.pending, id, 0))
    else
      s.(jobs := s.jobs[id := next], owners := s.owners + [id],
         writes := s.writes + [IdWrite(id, |s.owners|)])
  }

  /** `SetPendingJobHttpCancelId`. */
  function StoreId(pending: map<nat, PendingInfo>, id: nat, request: nat): map<nat, PendingInfo> {
    if id in pending then pending[id := pending[id].(currentRequest := request)] else pending
  }

  function RequestsOf(pending: map<nat, PendingInfo>, ids: set<nat>): set<nat> {
    set id | id in pending && id in ids && pending[id].currentRequest != 0 :: pending[id].currentRequest
  }

  /** Cancelling the jobs of a set: their requests are aborted and forgotten. */
  function CancelJobs(s: State, ids: set<nat>): State {
    s.(pending := map id | id in s.pending :: if id in ids then PendingInfo(true, 0) else s.pending[id],
       jobs := map id | id in s.jobs :: if id in s.pending && id in ids then MarkCancel(s.jobs[id]) else s.jobs[id],
       aborted := s.aborted + RequestsOf(s.pending, ids))
  }

  lemma CancelOneMore(s: State, ids: set<nat>, id: nat)
    requires id in s.pending && id !in ids
    ensures var t := CancelJobs(s, ids);
      && id in t.pending && t.pending[id] == s.pending[id]
      && CancelJobs(s, ids + {id})
         == t.(pending := t.pending[id := PendingInfo(true, 0)],
               jobs := if id in t.jobs then t.jobs[id := MarkCancel(t.jobs[id])] else t.jobs,
               aborted := if t.pending[id].currentRequest != 0 then t.aborted + {t.pending[id].currentRequest}
                          else t.aborted)
  {
    var t, u := CancelJobs(s, ids), CancelJobs(s, ids + {id});
    assert u.pending == t.pending[id := PendingInfo(true, 0)];
    assert u.jobs == (if id in t.jobs then t.jobs[id := MarkCancel(t.jobs[id])] else t.jobs);
  }

  lemma CancelNone(s: State)
    ensures CancelJobs(s, {}) == s
  {
    var t := CancelJobs(s, {});
    assert t.pending == s.pending && t.jobs == s.jobs && t.aborted == s.aborted;
  }

  function Step(s: State, e: Event): State
    requires Enabled(s, e) && FrontExists(s, e)
  {
    match e
    case Submit(pages) =>
      s.(lastId := s.lastId + 1, pending := s.pending[s.lastId := PendingInfo(false, 0)],
         jobs := s.jobs[s.lastId := NewJob(pages)], queue := s.queue + [s.lastId])
    case Cancel(id) =>
      if id !in s.pending then s
      else
        var r := s.pending[id].currentRequest;
        s.(pending := s.pending[id := s.pending[id].(cancelling := true)],
           jobs := if id in s.jobs then s.jobs[id := MarkCancel(s.jobs[id])] else s.jobs,
           aborted := if r != 0 then s.aborted + {r} else s.aborted)
    case CancelAll => CancelJobs(s, s.pending.Keys)
    case TakeBatch => s.(queue := [], batch := s.queue)
    case Turn(pageOk) =>
      var id := s.batch[0];
      var next := RenderTurn(s.jobs[id], IsCancelling(s, id), pageOk, |s.owners|);
      var s' := Advance(s, id, next);
      if next.stage.Waiting? then s' else s'.(batch := s.batch[1..])
    case Answer(id, outcome) =>
      Advance(s, id, Answered(s.jobs[id], IsCancelling(s, id), outcome, |s.owners|))
    case Store(k, refused) =>
      var w := s.writes[k];
      s.(pending := StoreId(s.pending, w.job, if refused then 0 else w.request),
         writes := s.writes[..k] + s.writes[k + 1..])
    case Release(id) => s.(pending := s.pending - {id})
  }

  // The invariant of the whole state

  predicate InvJobs(s: State) { forall id :: id in s.jobs ==> JobInv(s.jobs[id]) && id < s.lastId }

  /** The pending list holds every unsettled job, and its cancel flag is the recorded one. */
  predicate InvPending(s: State) {
    && (forall id :: id in s.pending ==>
         id in s.jobs && s.pending[id].cancelling == s.jobs[id].cancelMark.Some?)
    && (forall id :: id in s.jobs && !s.jobs[id].stage.Settled? ==> id in s.pending)
  }

  /** Every waiting job stands exactly once in the batch or the queue, and nothing else does. */
  predicate InvQueue(s: State) {
    WaitsIn(s.jobs, s.batch + s.queue)
  }

  predicate WaitsIn(jobs: map<nat, Job>, line: seq<nat>) {
    && (forall i, k :: 0 <= i < k < |line| ==> line[i] != line[k])
    && (forall i :: 0 <= i < |line| ==> line[i] in jobs && jobs[line[i]].stage.Waiting?)
    && (forall id :: id in jobs && jobs[id].stage.Waiting? ==> id in line)
  }

  /** Request r (not 0) was given out, and to this job. */
  predicate Owns(s: State, id: nat, r: nat) { 0 < r < |s.owners| && s.owners[r] == id }

  /** Stored or about to be stored, current or stale, an id belongs to the job it is kept for;
      so only requests of cancelled jobs are ever aborted. */
  predicate InvRequests(s: State) {
    && |s.owners| > 0
    && (forall id :: id in s.jobs && s.jobs[id].stage.Calling? ==> Owns(s, id, s.jobs[id].stage.request))
    && (forall k :: 0 <= k < |s.writes| ==> Owns(s, s.writes[k].job, s.writes[k].request))
    && (forall id :: id in s.pending && s.pending[id].currentRequest != 0 ==>
         Owns(s, id, s.pending[id].currentRequest))
    && (forall r :: r in s.aborted ==>
         0 < r < |s.owners| && s.owners[r] in s.jobs && s.jobs[s.owners[r]].cancelMark.Some?)
  }

  predicate Inv(s: State) { InvJobs(s) && InvPending(s) && InvQueue(s) && InvRequests(s) }

  lemma CreationHasPages(j: Job)
    requires JobInv(j) && j.stage.Calling? && j.stage.call.CreateCall?
    ensures j.inputStreams != []
  {
  }

  /** In every state that satisfies the invariant the front page exists whenever it is taken. */
  lemma FrontAlwaysExists(s: State, e: Event)
    requires Inv(s) && Enabled(s, e)
    ensures FrontExists(s, e)
  {
    hide JobInv;
    if e.Answer? && s.jobs[e.job].stage.call.CreateCall? {
      CreationHasPages(s.jobs[e.job]);
    }
  }

  /** A callback of job `id`: the invariants follow from what happens to that job. */
  lemma AdvanceKeepsJobs(s: State, id: nat, next: Job)
    requires InvJobs(s) && InvPending(s)
    requires id in s.jobs && id in s.pending && JobInv(next) && next.cancelMark == s.jobs[id].cancelMark
    ensures var s' := Advance(s, id, next); InvJobs(s') && InvPending(s')
  {
    hide JobInv;
  }

  lemma AdvanceKeepsRequests(s: State, id: nat, next: Job)
    requires InvRequests(s) && id in s.jobs && next.cancelMark == s.jobs[id].cancelMark
    requires next.stage.Calling? ==> next.stage.request == |s.owners|
    ensures InvRequests(Advance(s, id, next))
  {
    var s' := Advance(s, id, next);
    forall i, r | Owns(s, i, r) ensures Owns(s', i, r) {
    }
  }

  /** A job that is no longer waiting has left the front of the line. */
  lemma AdvanceKeepsQueue(s: State, id: nat, next: Job)
    requires InvQueue(s) && id in s.jobs
    requires s.jobs[id].stage.Waiting? ==> s.batch != [] && s.batch[0] == id
    requires next.stage.Waiting? ==> s.jobs[id].stage.Waiting?
    ensures var s' := Advance(s, id, next);
      InvQueue(if s.jobs[id].stage.Waiting? && !next.stage.Waiting? then s'.(batch := s.batch[1..]) else s')
  {
    var line := s.batch + s.queue;
    if s.jobs[id].stage.Waiting? && !next.stage.Waiting? {
      assert line[0] == id;
      assert s.batch[1..] + s.queue == line[1..];
      LeaveLine(s.jobs, line, next);
    } else {
      StayInLine(s.jobs, line, id, next);
    }
  }

  lemma LeaveLine(jobs: map<nat, Job>, line: seq<nat>, next: Job)
    requires WaitsIn(jobs, line) && line != [] && !next.stage.Waiting?
    ensures WaitsIn(jobs[line[0] := next], line[1..])
  {
    assert line == [line[0]] + line[1..];
  }

  lemma StayInLine(jobs: map<nat, Job>, line: seq<nat>, id: nat, next: Job)
    requires WaitsIn(jobs, line) && id in jobs && (next.stage.Waiting? <==> jobs[id].stage.Waiting?)
    ensures WaitsIn(jobs[id := next], line)
  {
  }

  lemma TurnKeeps(s: State, pageOk: bool)
    requires Inv(s) && Enabled(s, Turn(pageOk))
    ensures Inv(Step(s, Turn(pageOk)))
  {
    hide JobInv, RenderTurn, Advance;
    var id := s.batch[0];
    var j := s.jobs[id];
    var next := RenderTurn(j, IsCancelling(s, id), pageOk, |s.owners|);
    assert id in s.pending;
    RenderTurnKeeps(j, pageOk, |s.owners|);
    AdvanceKeepsJobs(s, id, next);
    AdvanceKeepsRequests(s, id, next);
    AdvanceKeepsQueue(s, id, next);
  }

  lemma AnswerKeeps(s: State, id: nat, outcome: Outcome)
    requires Inv(s) && Enabled(s, Answer(id, outcome))
    ensures Inv(Step(s, Answer(id, outcome)))
  {
    hide JobInv, Answered, Advance;
    FrontAlwaysExists(s, Answer(id, outcome));
    var j := s.jobs[id];
    var next := Answered(j, IsCancelling(s, id), outcome, |s.owners|);
    assert id in s.pending;
    AnsweredKeeps(j, outcome, |s.owners|);
    AdvanceKeepsJobs(s, id, next);
    AdvanceKeepsRequests(s, id, next);
    AdvanceKeepsQueue(s, id, next);
  }

  lemma CancelKeepsJobs(s: State, id: nat)
    requires Inv(s)
    ensures InvJobs(Step(s, Cancel(id))) && InvPending(Step(s, Cancel(id)))
  {
    hide JobInv, InvQueue, InvRequests;
    if id in s.pending {
      MarkCancelKeeps(s.jobs[id]);
    }
  }

  lemma CancelKeepsRequests(s: State, id: nat)
    requires Inv(s)
    ensures InvQueue(Step(s, Cancel(id))) && InvRequests(Step(s, Cancel(id)))
  {
    hide JobInv;
  }

  lemma CancelKeeps(s: State, id: nat)
    requires Inv(s)
    ensures Inv(Step(s, Cancel(id)))
  {
    hide InvJobs, InvPending, InvQueue, InvRequests;
    CancelKeepsJobs(s, id);
    CancelKeepsRequests(s, id);
  }

  lemma CancelAllKeepsJobs(s: State)
    requires Inv(s)
    ensures InvJobs(Step(s, CancelAll)) && InvPending(Step(s, CancelAll))
  {
    hide JobInv, InvQueue, InvRequests;
    var s' := Step(s, CancelAll);
    forall id | id in s.jobs ensures JobInv(s'.jobs[id]) {
      MarkCancelKeeps(s.jobs[id]);
    }
  }

  lemma CancelAllKeepsRequests(s: State)
    requires Inv(s)
    ensures InvQueue(Step(s, CancelAll)) && InvRequests(Step(s, CancelAll))
  {
    hide JobInv;
  }

  lemma CancelAllKeeps(s: State)
    requires Inv(s)
    ensures Inv(Step(s, CancelAll))
  {
    hide InvJobs, InvPending, InvQueue, InvRequests;
    CancelAllKeepsJobs(s);
    CancelAllKeepsRequests(s);
  }

  lemma NewJobHolds(pages: seq<string>)
    ensures JobInv(NewJob(pages))
  {
  }

  lemma SubmitKeepsJobs(s: State, pages: seq<string>)
    requires InvJobs(s) && InvPending(s)
    ensures InvJobs(Step(s, Submit(pages))) && InvPending(Step(s, Submit(pages)))
  {
    hide JobInv;
    NewJobHolds(pages);
  }

  lemma SubmitKeepsQueue(s: State, pages: seq<string>)
    requires InvJobs(s) && InvQueue(s)
    ensures InvQueue(Step(s, Submit(pages)))
  {
    hide JobInv;
    var s' := Step(s, Submit(pages));
    assert s.lastId !in s.jobs;
    assert s'.batch + s'.queue == s.batch + s.queue + [s.lastId];
    JoinLine(s.jobs, s.batch + s.queue, s.lastId, NewJob(pages));
  }

  lemma JoinLine(jobs: map<nat, Job>, line: seq<nat>, id: nat, next: Job)
    requires WaitsIn(jobs, line) && id !in jobs && next.stage.Waiting?
    ensures WaitsIn(jobs[id := next], line + [id])
  {
    assert (line + [id])[|line|] == id;
  }

  lemma SubmitKeeps(s: State, pages: seq<string>)
    requires Inv(s)
    ensures Inv(Step(s, Submit(pages)))
  {
    hide JobInv, InvPending, InvQueue;
    SubmitKeepsJobs(s, pages);
    SubmitKeepsQueue(s, pages);
  }

  lemma TakeBatchKeeps(s: State)
    requires Inv(s) && Enabled(s, TakeBatch)
    ensures Inv(Step(s, TakeBatch))
  {
    hide JobInv, WaitsIn;
    assert s.batch + s.queue == s.queue && s.queue + [] == s.queue;
  }

  lemma StoreKeeps(s: State, k: nat, refused: bool)
    requires Inv(s) && k < |s.writes|
    ensures Inv(Step(s, Store(k, refused)))
  {
    hide JobInv;
  }

  lemma ReleaseKeeps(s: State, id: nat)
    requires Inv(s) && Enabled(s, Release(id))
    ensures Inv(Step(s, Release(id)))
  {
    hide JobInv;
  }

  /** Every event keeps the invariant. */
  lemma StepKeeps(s: State, e: Event)
    requires Inv(s) && Enabled(s, e)
    ensures Inv(Step(s, e))
  {
    hide Inv, Step;
    match e
    case Submit(pages) => SubmitKeeps(s, pages);
    case Cancel(id) => CancelKeeps(s, id);
    case CancelAll => CancelAllKeeps(s);
    case TakeBatch => TakeBatchKeeps(s);
    case Turn(pageOk) => TurnKeeps(s, pageOk);
    case Answer(id, outcome) => AnswerKeeps(s, id, outcome);
    case Store(k, refused) => StoreKeeps(s, k, refused);
    case Release(id) => ReleaseKeeps(s, id);
  }

  /** The event is possible in s, which satisfies the invariant, and leads to t, which then does. */
  ghost predicate Takes(s: State, e: Event, t: State) {
    Inv(s) && Enabled(s, e) && FrontExists(s, e) && t == Step(s, e)
  }

  lemma TakesKeeps(s: State, e: Event)
    requires Inv(s) && Enabled(s, e)
    ensures FrontExists(s, e) && Takes(s, e, Step(s, e)) && Inv(Step(s, e))
  {
    hide Inv, Step, Enabled, FrontExists;
    FrontAlwaysExists(s, e);
    StepKeeps(s, e);
  }

  lemma StartHolds()
    ensures Inv(START)
  {
  }

  /** A run from the empty processor; None when an event was not possible. */
  function Run(events: seq<Event>): (r: Option<State>)
    ensures r.Some? ==> Inv(r.value)
  {
    if events == [] then
      StartHolds();
      Some(START)
    else
      var n := |events| - 1;
      var before := Run(events[..n]);
      if before.Some? && Enabled(before.value, events[n]) then
        FrontAlwaysExists(before.value, events[n]);
        StepKeeps(before.value, events[n]);
        Some(Step(before.value, events[n]))
      else None
  }

  /** Over every interleaving of jobs, answers and cancels: a job's promise is set at most once and
      its one final status comes last; it makes at most n + 4 calls; its uploads are in order;
      it is deleted on the server exactly when it was created there and is reported Canceled; and
      it is reported Canceled only if the user cancelled it, or if it has no pages. */
  lemma EveryRunIsSafe(events: seq<Event>, id: nat)
    requires Run(events).Some? && id in Run(events).value.jobs
    ensures var j := Run(events).value.jobs[id];
      && Only(j.actions, IsSettle) == (if j.stage.Settled? then [Settle(j.stage.status != Error)] else [])
      && Only(j.actions, IsFinal) == (if j.stage.Settled? then [Report(j.stage.status)] else [])
      && |Only(j.actions, IsCall)| <= |j.pages| + 4
      && (exists k | 0 <= k <= |j.pages| :: Only(j.actions, IsUpload) == UploadCalls(j.pages, k))
      && (Finish in j.actions ==> Only(j.actions, IsUpload) == UploadCalls(j.pages, |j.pages|))
      && (Fetch in j.actions ==> Finish in j.actions)
      && CancelRespected(j)
      && (j.stage.Settled? ==>
           Only(j.actions, IsDelete)
             == if j.stage.status.Canceled? && Created in j.actions then [Delete] else [])
      && (j.stage.Settled? && j.stage.status.Canceled? ==> j.cancelMark.Some? || j.pages == [])
  {
    var j := Run(events).value.jobs[id];
    SettledOnce(j);
    CallsAreBounded(j);
    UploadsInOrder(j);
    if j.stage.Settled? {
      DeletedOnce(j);
    }
  }

  // Ids are not used again

  lemma StepsForget(s: State, e: Event, id: nat)
    requires Enabled(s, e) && FrontExists(s, e) && InvJobs(s) && InvPending(s)
    ensures s.lastId <= Step(s, e).lastId
    ensures id < s.lastId && id !in s.pending ==> id !in Step(s, e).pending
    ensures e == Release(id) ==> id < s.lastId && id !in Step(s, e).pending
  {
    hide JobInv, Answered, RenderTurn;
  }

  /** A released job has left the list for good: whatever follows, no cancel reaches it any more. */
  lemma {:induction false} ReleasedForGood(events: seq<Event>, id: nat)
    requires Run(events).Some? && Release(id) in events
    ensures var s := Run(events).value;
      && id < s.lastId && id !in s.pending
      && Step(s, Cancel(id)) == s
      && (id in s.jobs ==> id in Step(s, CancelAll).jobs && Step(s, CancelAll).jobs[id] == s.jobs[id])
  {
    hide Inv, Enabled, FrontExists;
    var n := |events| - 1;
    var before := Run(events[..n]).value;
    InvHasJobs(before);
    FrontAlwaysExists(before, events[n]);
    if Release(id) in events[..n] {
      ReleasedForGood(events[..n], id);
    } else {
      assert events == events[..n] + [events[n]];
      assert events[n] == Release(id);
    }
    StepsForget(before, events[n], id);
    hide Run;
  }

  // What a cancel reaches

  /** A call under way that has not been aborted can come back as cancelled after a cancel of its job,
      or of all jobs, exactly when its id is the one that is stored: before it is stored, or when a
      stale one is, the cancel is recorded but reaches nothing. */
  lemma CancelReachesStored(s: State, id: nat)
    requires Inv(s) && id in s.jobs && s.jobs[id].stage.Calling?
    requires s.jobs[id].stage.request !in s.aborted
    ensures id in s.pending
    ensures Enabled(Step(s, Cancel(id)), Answer(id, CancelException))
       <==> s.pending[id].currentRequest == s.jobs[id].stage.request
    ensures Enabled(Step(s, CancelAll), Answer(id, CancelException))
       <==> s.pending[id].currentRequest == s.jobs[id].stage.request
  {
    hide JobInv, InvQueue;
    var r := s.jobs[id].stage.request;
    assert Owns(s, id, r);
    forall other | other in s.pending && s.pending[other].currentRequest == r ensures other == id {
      assert Owns(s, other, r);
    }
    assert r in RequestsOf(s.pending, s.pending.Keys) <==> s.pending[id].currentRequest == r;
  }

  /** The id of a job's new call is on its way to be stored, unless the call is the deletion. */
  lemma NewCallIsWritten(s: State, e: Event, id: nat)
    requires Inv(s) && Enabled(s, e) && FrontExists(s, e) && id in s.jobs
    requires var t := Step(s, e); id in t.jobs && t.jobs[id].stage.Calling? && t.jobs[id].stage != s.jobs[id].stage
    ensures var t := Step(s, e);
      var stage := t.jobs[id].stage;
      if stage.call.DeleteCall? then id in t.pending && t.pending[id].currentRequest == 0 && t.writes == s.writes
      else t.writes == s.writes + [IdWrite(id, stage.request)]
  {
    hide JobInv, InvQueue, InvRequests;
  }

  /** The stored id is the one written last; a refused call, the deletion and a cancel of all jobs
      clear it. */
  lemma WhatIsStored(s: State, e: Event, id: nat)
    requires Inv(s) && Enabled(s, e) && FrontExists(s, e) && id in s.pending && id in Step(s, e).pending
    ensures var t := Step(s, e);
      var stage := t.jobs[id].stage;
      var deleting := stage.Calling? && stage.call.DeleteCall? && stage != s.jobs[id].stage;
      t.pending[id].currentRequest ==
        if e.Store? && s.writes[e.index].job == id then if e.refused then 0 else s.writes[e.index].request
        else if e.CancelAll? || deleting then 0
        else s.pending[id].currentRequest
  {
    hide JobInv, InvQueue, InvRequests;
  }

  lemma SomethingCanMove(s: State, id: nat)
    requires Inv(s) && id in s.jobs && !s.jobs[id].stage.Settled?
    ensures Enabled(s, TakeBatch) || Enabled(s, Turn(true)) || Enabled(s, Answer(id, OtherException))
  {
    hide JobInv, InvRequests, InvPending;
    if s.jobs[id].stage.Waiting? {
      var line := s.batch + s.queue;
      assert id in line;
      if s.batch != [] {
        assert line[0] == s.batch[0];
      }
    }
  }

  /** The job in front of the batch waits for the render thread. */
  lemma BatchWaits(s: State, pageOk: bool)
    requires Inv(s) && s.batch != []
    ensures Enabled(s, Turn(pageOk))
  {
    hide JobInv, InvRequests, InvPending;
    assert (s.batch + s.queue)[0] == s.batch[0];
  }

  // All jobs come to their end

  /** The work left on the jobs with ids below n. */
  function WorkBelow(jobs: map<nat, Job>, n: nat): nat
    requires forall id :: id in jobs ==> StageFits(jobs[id])
  {
    if n == 0 then 0 else WorkBelow(jobs, n - 1) + if n - 1 in jobs then Work(jobs[n - 1]) else 0
  }

  lemma FitsInJobs(s: State)
    requires InvJobs(s)
    ensures forall id :: id in s.jobs ==> StageFits(s.jobs[id])
  {
  }

  /** What is left to do on all jobs together: their work, and the queued jobs to be taken over. */
  function TotalWork(s: State): nat
    requires InvJobs(s)
  {
    FitsInJobs(s);
    WorkBelow(s.jobs, s.lastId) + |s.queue|
  }

  /** The steps of the render thread and the answers of the server, as opposed to what the user
      does and to bookkeeping. */
  predicate Advances(e: Event) { e.TakeBatch? || e.Turn? || e.Answer? }

  lemma {:induction false} OneJobAdvances(jobs: map<nat, Job>, id: nat, next: Job, n: nat)
    requires (forall i :: i in jobs ==> StageFits(jobs[i])) && StageFits(next) && id in jobs
    ensures WorkBelow(jobs[id := next], n) == WorkBelow(jobs, n) + if id < n then Work(next) - Work(jobs[id]) else 0
  {
    hide StageFits, Work;
    if n > 0 {
      OneJobAdvances(jobs, id, next, n - 1);
    }
  }

  lemma {:induction false} SameWorkBelow(a: map<nat, Job>, b: map<nat, Job>, n: nat)
    requires (forall i :: i in a ==> StageFits(a[i])) && (forall i :: i in b ==> StageFits(b[i]))
    requires forall i :: i < n ==> (i in a <==> i in b) && (i in a ==> Work(a[i]) == Work(b[i]))
    ensures WorkBelow(a, n) == WorkBelow(b, n)
  {
    hide StageFits, Work;
    if n > 0 {
      SameWorkBelow(a, b, n - 1);
    }
  }

  lemma MarkingIsNoWork(j: Job)
    requires JobInv(j)
    ensures StageFits(j) && StageFits(MarkCancel(j)) && Work(MarkCancel(j)) == Work(j)
  {
  }

  lemma JobIdIsOld(s: State, id: nat)
    requires InvJobs(s) && id in s.jobs
    ensures id < s.lastId && JobInv(s.jobs[id])
  {
  }

  lemma AdvanceLeavesLess(s: State, id: nat, next: Job)
    requires InvJobs(s) && id in s.jobs && JobInv(next)
    requires StageFits(next) && StageFits(s.jobs[id]) && Work(next) < Work(s.jobs[id])
    ensures InvJobs(Advance(s, id, next)) && TotalWork(Advance(s, id, next)) < TotalWork(s)
  {
    hide StageFits, Work, JobInv, WorkBelow;
    FitsInJobs(s);
    JobIdIsOld(s, id);
    OneJobAdvances(s.jobs, id, next, s.lastId);
  }

  lemma SameTotal(s: State, t: State)
    requires InvJobs(s) && t.jobs == s.jobs && t.lastId == s.lastId && t.queue == s.queue
    ensures InvJobs(t) && TotalWork(t) == TotalWork(s)
  {
    hide StageFits, Work, JobInv, WorkBelow;
  }

  lemma FitsOf(j: Job)
    requires JobInv(j)
    ensures StageFits(j)
  {
  }

  lemma TurnLeavesLess(s: State, pageOk: bool)
    requires Inv(s) && Enabled(s, Turn(pageOk))
    ensures var s' := Step(s, Turn(pageOk)); InvJobs(s') && TotalWork(s') < TotalWork(s)
  {
    hide JobInv, RenderTurn, Advance, StageFits, Work, TotalWork, InvQueue, InvRequests;
    var id := s.batch[0];
    var j := s.jobs[id];
    var next := RenderTurn(j, IsCancelling(s, id), pageOk, |s.owners|);
    assert id in s.pending && IsCancelling(s, id) == j.cancelMark.Some?;
    RenderTurnKeeps(j, pageOk, |s.owners|);
    FitsOf(j);
    CallbacksMakeProgress(j, OtherException, pageOk, |s.owners|);
    AdvanceLeavesLess(s, id, next);
    AdvanceKeepsTotals(s, id, next);
    SameTotal(Advance(s, id, next), Step(s, Turn(pageOk)));
  }

  lemma AdvanceKeepsTotals(s: State, id: nat, next: Job)
    ensures var t := Advance(s, id, next);
      t.lastId == s.lastId && t.queue == s.queue && t.jobs == s.jobs[id := next] && t.batch == s.batch
  {
  }

  lemma AnswerLeavesLess(s: State, id: nat, outcome: Outcome)
    requires Inv(s) && Enabled(s, Answer(id, outcome))
    ensures FrontExists(s, Answer(id, outcome))
    ensures var s' := Step(s, Answer(id, outcome)); InvJobs(s') && TotalWork(s') < TotalWork(s)
  {
    hide JobInv, Answered, Advance, StageFits, Work, TotalWork, InvQueue;
    FrontAlwaysExists(s, Answer(id, outcome));
    var j := s.jobs[id];
    var next := Answered(j, IsCancelling(s, id), outcome, |s.owners|);
    assert id in s.pending && IsCancelling(s, id) == j.cancelMark.Some?;
    AnsweredKeeps(j, outcome, |s.owners|);
    FitsOf(j);
    CallbacksMakeProgress(j, outcome, true, |s.owners|);
    AdvanceLeavesLess(s, id, next);
  }

  lemma BatchLeavesLess(s: State)
    requires InvJobs(s) && Enabled(s, TakeBatch)
    ensures var s' := Step(s, TakeBatch); InvJobs(s') && TotalWork(s') < TotalWork(s)
  {
    hide JobInv, StageFits, Work, WorkBelow;
  }

  lemma CancelLeavesTotal(s: State, e: Event)
    requires InvJobs(s) && (e.Cancel? || e.CancelAll?)
    ensures var s' := Step(s, e); InvJobs(s') && TotalWork(s') == TotalWork(s)
  {
    hide JobInv, StageFits, Work, WorkBelow, MarkCancel;
    var s' := Step(s, e);
    FitsInJobs(s);
    forall id | id in s.jobs
      ensures JobInv(s'.jobs[id]) && StageFits(s'.jobs[id]) && Work(s'.jobs[id]) == Work(s.jobs[id])
    {
      MarkCancelKeeps(s.jobs[id]);
      MarkingIsNoWork(s.jobs[id]);
    }
    SameWorkBelow(s.jobs, s'.jobs, s.lastId);
  }

  /** Every turn, answer and batch leaves less to do; nothing but a new job adds work. */
  lemma StepsMeasured(s: State, e: Event)
    requires Inv(s) && Enabled(s, e) && !e.Submit?
    ensures FrontExists(s, e) && InvJobs(Step(s, e))
    ensures TotalWork(Step(s, e)) <= TotalWork(s) - if Advances(e) then 1 else 0
  {
    hide InvJobs, InvPending, InvQueue, InvRequests, TotalWork, CancelJobs, RenderTurn, Answered, Advance;
    match e
    case TakeBatch => BatchLeavesLess(s);
    case Turn(pageOk) => TurnLeavesLess(s, pageOk);
    case Answer(id, outcome) => AnswerLeavesLess(s, id, outcome);
    case Cancel(id) => CancelLeavesTotal(s, e);
    case CancelAll => CancelLeavesTotal(s, e);
    case Store(k, refused) => SameTotal(s, Step(s, e));
    case Release(id) => SameTotal(s, Step(s, e));
  }

  function CountAdvances(events: seq<Event>): nat {
    if events == [] then 0
    else
      var n := |events| - 1;
      CountAdvances(events[..n]) + if Advances(events[n]) then 1 else 0
  }

  /** However a run goes on without new jobs, it has no more turns, answers and batches than there
      was work left: every run comes to an end. */
  lemma {:induction false} RunsEnd(before: seq<Event>, after: seq<Event>)
    requires Run(before + after).Some? && forall i :: 0 <= i < |after| ==> !after[i].Submit?
    ensures Run(before).Some?
    ensures CountAdvances(after) + TotalWork(Run(before + after).value) <= TotalWork(Run(before).value)
    decreases |after|
  {
    hide Inv, TotalWork, Step, Enabled, FrontExists;
    if after == [] {
      assert before + after == before;
      InvHasJobs(Run(before).value);
    } else {
      var n := |after| - 1;
      var all := before + after;
      assert all[..|all| - 1] == before + after[..n] && all[|all| - 1] == after[n];
      RunsEnd(before, after[..n]);
      StepsMeasured(Run(before + after[..n]).value, after[n]);
    }
  }

  lemma InvHasJobs(s: State)
    requires Inv(s)
    ensures InvJobs(s) && InvPending(s)
  {
  }

  /** No job gets stuck: while one is not settled, the render thread can move or the job's own answer
      can come, and by StepsMeasured whichever it is leaves less to do. */
  lemma NoJobIsStuck(events: seq<Event>, id: nat)
    requires Run(events).Some?
    requires var s := Run(events).value; id in s.jobs && !s.jobs[id].stage.Settled?
    ensures var s := Run(events).value;
      exists e :: Advances(e) && Enabled(s, e) && FrontExists(s, e)
        && InvJobs(Step(s, e)) && TotalWork(Step(s, e)) < TotalWork(s)
  {
    hide Inv, Enabled, Step, FrontExists, TotalWork;
    var s := Run(events).value;
    SomethingCanMove(s, id);
    var e := if Enabled(s, TakeBatch) then TakeBatch
             else if Enabled(s, Turn(true)) then Turn(true)
             else Answer(id, OtherException);
    StepsMeasured(s, e);
  }
}
