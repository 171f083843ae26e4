/** JobProcessorImpl as it runs: the pending list, the render queue and one object per job, whose
    fields the callbacks change one after the other. Every callback is proved to take the step that
    JobProtocol describes and to keep the invariant of all jobs. */
module JobProcessor {
  import opened JobProtocol
  import opened Options

  /** PendingJob with its promise and upload context. `actions` records the calls made for the job. */
  class PendingJob {
    const id: nat
    const pages: seq<string>
    var stage: Stage
    var inputStreams: seq<string>
    var uploadResults: seq<string>
    var actions: seq<Action>
    ghost var progress: Progress
    ghost var cancelMark: Option<nat>

    ghost function Value(): Job
      reads this
    {
      Job(pages, stage, inputStreams, uploadResults, actions, progress, cancelMark)
    }

    constructor (id: nat, pages: seq<string>)
      ensures this.id == id && Value() == NewJob(pages)
    {
      this.id, this.pages := id, pages;
      stage, inputStreams, uploadResults, actions := Waiting(0), [], [], [];
      progress, cancelMark := NO_PROGRESS, None;
    }

    method OnJobProgress(status: Status)
      modifies `actions
      ensures actions == old(actions) + [Report(status)]
    {
      actions := actions + [Report(status)];
    }

    /** Nothing more is done for the job. */
    method SetPromise(status: Status)
      modifies `actions, `stage, `progress
      ensures Value() == old(Value()).(actions := old(actions) + [Settle(status != Error)],
                                       stage := Settled(status),
                                       progress := old(progress).(final := Some(status)))
    {
      actions := actions + [Settle(status != Error)];
      stage := Settled(status);
      progress := progress.(final := Some(status));
    }
  }

  class Processor {
    var lastId: nat
    var pendingJobs: map<nat, PendingInfo>
    var queue: seq<nat>
    var batch: seq<nat>
    /** The jobs that tasks and callbacks hold on to. */
    var jobs: map<nat, PendingJob>
    /** Ids returned by calls that still have to be stored. */
    var writes: seq<IdWrite>
    /** The HTTP layer: who was given which request id, and which requests it aborts. */
    var owners: seq<nat>
    var aborted: set<nat>

    ghost function Objects(): set<object>
      reads this
    {
      set id | id in jobs :: jobs[id]
    }

    ghost function Values(): map<nat, Job>
      reads this, Objects()
    {
      map id | id in jobs :: jobs[id].Value()
    }

    ghost function Abs(): State
      reads this, Objects()
    {
      State(lastId, pendingJobs, queue, batch, Values(), writes, owners, aborted)
    }

    ghost predicate Own()
      reads this, Objects()
    {
      forall id :: id in jobs ==> jobs[id].id == id
    }

    ghost predicate Valid()
      reads this, Objects()
    {
      Own() && Inv(Abs())
    }

    constructor ()
      ensures Valid() && Abs() == START
    {
      lastId, pendingJobs, queue, batch, jobs := 0, map[], [], [], map[];
      writes, owners, aborted := [], [0], {};
      new;
      StartHolds();
      assert Values() == map[];
    }

    /** `RenderAndUpload` up to the queueing of the render task. */
    method RenderAndUpload(pages: seq<string>) returns (id: nat)
      requires Valid()
      modifies this
      ensures Valid() && id == old(lastId) && Takes(old(Abs()), Submit(pages), Abs())
      ensures fresh(Objects() - old(Objects()))
    {
      hide Inv;
      ghost var before := Abs();
      TakesKeeps(before, Submit(pages));
      id := lastId;
      lastId := lastId + 1;
      pendingJobs := pendingJobs[id := PendingInfo(false, 0)];
      var job := new PendingJob(id, pages);
      jobs := jobs[id := job];
      queue := queue + [id];
      assert Values() == before.jobs[id := NewJob(pages)];
    }

    /** Remembers when the first cancel came. */
    ghost method NoteCancel(job: PendingJob)
      modifies job`cancelMark
      ensures job.Value() == MarkCancel(old(job.Value()))
    {
      if job.cancelMark.None? {
        job.cancelMark := Some(|job.actions|);
      }
    }

    method CancelPendingJob(id: nat)
      requires Valid()
      modifies this, Objects()
      ensures Valid() && Takes(old(Abs()), Cancel(id), Abs()) && jobs == old(jobs)
    {
      hide Inv;
      ghost var before := Abs();
      TakesKeeps(before, Cancel(id));
      if id in pendingJobs {
        pendingJobs := pendingJobs[id := pendingJobs[id].(cancelling := true)];
        if pendingJobs[id].currentRequest != 0 {
          aborted := aborted + {pendingJobs[id].currentRequest};
        }
        if id in jobs {
          NoteCancel(jobs[id]);
          assert Values() == before.jobs[id := MarkCancel(before.jobs[id])];
        } else {
          assert Values() == before.jobs;
        }
      }
    }

    /** One turn of the loop over the pending list. */
    method CancelOne(id: nat)
      requires Own() && id in pendingJobs
      modifies this, Objects()
      ensures Own() && jobs == old(jobs)
      ensures var s := old(Abs());
        Abs() == s.(pending := s.pending[id := PendingInfo(true, 0)],
                    jobs := if id in s.jobs then s.jobs[id := MarkCancel(s.jobs[id])] else s.jobs,
                    aborted := if s.pending[id].currentRequest != 0 then s.aborted + {s.pending[id].currentRequest}
                               else s.aborted)
    {
      hide MarkCancel;
      ghost var before := Abs();
      var request := pendingJobs[id].currentRequest;
      pendingJobs := pendingJobs[id := PendingInfo(true, 0)];
      if request != 0 {
        aborted := aborted + {request};
      }
      if id in jobs {
        NoteCancel(jobs[id]);
        assert Values() == before.jobs[id := MarkCancel(before.jobs[id])];
      }
    }

    /** The loop over the pending list; the order in which it is visited does not matter. */
    method CancelAllPendingJobs()
      requires Valid()
      modifies this, Objects()
      ensures Valid() && Takes(old(Abs()), CancelAll, Abs()) && jobs == old(jobs)
    {
      hide Inv, CancelJobs, MarkCancel;
      ghost var before := Abs();
      TakesKeeps(before, CancelAll);
      var todo := pendingJobs.Keys;
      CancelNone(before);
      assert before.pending.Keys - todo == {};
      while todo != {}
        invariant todo <= before.pending.Keys && Own() && jobs == old(jobs)
        invariant Abs() == CancelJobs(before, before.pending.Keys - todo)
        decreases todo
      {
        var id :| id in todo;
        CancelOneMore(before, before.pending.Keys - todo, id);
        assert before.pending.Keys - todo + {id} == before.pending.Keys - (todo - {id});
        CancelOne(id);
        todo := todo - {id};
      }
      assert before.pending.Keys - todo == before.pending.Keys;
    }

    /** The render thread takes everything that is queued. */
    method SwapQueue()
      requires Valid() && queue != [] && batch == []
      modifies `queue, `batch
      ensures Valid() && Takes(old(Abs()), TakeBatch, Abs())
    {
      hide Inv;
      ghost var before := Abs();
      TakesKeeps(before, TakeBatch);
      batch := queue;
      queue := [];
      assert Values() == before.jobs;
    }

    function IsJobCanceling(id: nat): bool
      reads this
    {
      id in pendingJobs && pendingJobs[id].cancelling
    }

    method SetPendingJobHttpCancelId(id: nat, request: nat)
      modifies `pendingJobs
      ensures pendingJobs == StoreId(old(pendingJobs), id, request)
    {
      if id in pendingJobs {
        pendingJobs := pendingJobs[id := pendingJobs[id].(currentRequest := request)];
      }
    }

    /** A server call takes the next request id. Its return value is stored by a later step; that of
        a deletion is not stored at all. */
    method Send(job: PendingJob, call: Call, action: Action)
      modifies job`actions, job`stage, `owners, `writes
      ensures job.actions == old(job.actions) + [action] && job.stage == Calling(call, |old(owners)|)
      ensures owners == old(owners) + [job.id]
      ensures writes == if call.DeleteCall? then old(writes) else old(writes) + [IdWrite(job.id, |old(owners)|)]
    {
      var request := |owners|;
      job.actions := job.actions + [action];
      job.stage := Calling(call, request);
      owners := owners + [job.id];
      if !call.DeleteCall? {
        writes := writes + [IdWrite(job.id, request)];
      }
    }

    static method HandleJobCancelling(job: PendingJob)
      modifies job
      ensures job.Value() == SettleWith(old(job.Value()), Canceled)
    {
      job.OnJobProgress(Canceled);
      job.SetPromise(Canceled);
      assert job.actions == old(job.actions) + [Report(Canceled), Settle(true)];
    }

    static method ReportError(job: PendingJob)
      modifies job
      ensures job.Value() == SettleWith(old(job.Value()), Error)
    {
      job.OnJobProgress(Error);
      job.SetPromise(Error);
      assert job.actions == old(job.actions) + [Report(Error), Settle(false)];
    }

    static method ReportComplete(job: PendingJob)
      modifies job
      ensures job.Value() == SettleWith(old(job.Value()), Complete)
    {
      job.OnJobProgress(Complete);
      job.SetPromise(Complete);
      assert job.actions == old(job.actions) + [Report(Complete), Settle(true)];
    }

    /** Changes confined to one job change one entry of the table. */
    twostate lemma OnlyChanged(job: PendingJob)
      requires old(Own()) && jobs == old(jobs) && job.id in jobs && jobs[job.id] == job
      requires forall id :: id in jobs && jobs[id] != job ==> unchanged(jobs[id])
      ensures Own() && Values() == old(Values())[job.id := job.Value()]
    {
      forall id | id in jobs && id != job.id ensures Values()[id] == old(Values())[id] {
        assert jobs[id] != job;
      }
    }

    /** What the field updates of one job add up to. */
    ghost predicate Became(s: State, job: PendingJob, next: Job)
      reads this, Objects(), job
    {
      Own() && Abs() == Advance(s, job.id, next)
    }

    method CancelServerJob(job: PendingJob)
      requires Own() && job.id in jobs && jobs[job.id] == job
      modifies job, `pendingJobs, `owners, `writes
      ensures Became(old(Abs()), job, CallDelete(old(job.Value()), |old(owners)|))
    {
      hide Advance;
      ghost var before, was := Abs(), job.Value();
      SetPendingJobHttpCancelId(job.id, 0);
      job.progress := job.progress.(delete := true);
      Send(job, DeleteCall, Delete);
      AdvanceDeletes(before, job.id, CallDelete(was, |before.owners|));
      assert job.Value() == CallDelete(was, |before.owners|);
      OnlyChanged(job);
    }

    method ProcessServerException(job: PendingJob, outcome: Outcome, needCancelJob: bool)
      requires Own() && job.id in jobs && jobs[job.id] == job && !outcome.Success?
      modifies job, `pendingJobs, `owners, `writes
      ensures Became(old(Abs()), job, ServerException(old(job.Value()), outcome, needCancelJob, |old(owners)|))
    {
      ghost var before, was := Abs(), job.Value();
      if outcome.CancelException? {
        if needCancelJob {
          CancelServerJob(job);
        } else {
          HandleJobCancelling(job);
          assert Values() == before.jobs[job.id := SettleWith(was, Canceled)];
        }
        return;
      }
      ReportError(job);
      assert Values() == before.jobs[job.id := SettleWith(was, Error)];
    }

    method GetNewJobInfo(job: PendingJob)
      requires Own() && job.id in jobs && jobs[job.id] == job
      modifies job, `owners, `writes
      ensures Became(old(Abs()), job, CallFetch(old(job.Value()), |old(owners)|))
    {
      ghost var before, was := Abs(), job.Value();
      job.progress := job.progress.(fetch := true);
      Send(job, FetchCall, Fetch);
      assert job.Value() == CallFetch(was, |before.owners|);
      OnlyChanged(job);
    }

    method CompleteSuccessfulJob(job: PendingJob)
      requires Own() && job.id in jobs && jobs[job.id] == job
      modifies job, `owners, `writes
      ensures Became(old(Abs()), job, CallFinish(old(job.Value()), |old(owners)|))
    {
      ghost var before, was := Abs(), job.Value();
      job.progress := job.progress.(finish := true);
      Send(job, FinishCall, Finish);
      assert job.Value() == CallFinish(was, |before.owners|);
      OnlyChanged(job);
    }

    /** The end of `UploadNextPage`: `front()`, `pop_front()`, the report and the call. */
    method SendNextPage(job: PendingJob)
      requires Own() && job.id in jobs && jobs[job.id] == job && job.inputStreams != []
      modifies job, `owners, `writes
      ensures Became(old(Abs()), job, CallUpload(old(job.Value()), |old(owners)|))
    {
      hide Advance;
      ghost var before, was := Abs(), job.Value();
      var page := job.inputStreams[0];
      job.inputStreams := job.inputStreams[1..];
      var number := |job.uploadResults| + 1;
      job.OnJobProgress(Uploading(number));
      Send(job, UploadCall, Upload(number, page));
      job.progress := job.progress.(uploads := number);
      assert job.actions == was.actions + [Report(Uploading(number)), Upload(number, page)];
      AdvanceSends(before, job.id, CallUpload(was, |before.owners|));
      assert job.Value() == CallUpload(was, |before.owners|);
      OnlyChanged(job);
    }

    method CreateJobAndUploadPages(job: PendingJob)
      requires Own() && job.id in jobs && jobs[job.id] == job
      modifies job, `owners, `writes
      ensures Became(old(Abs()), job,
        if old(IsJobCanceling(job.id)) then SettleWith(old(job.Value()), Canceled)
        else CallCreate(old(job.Value()), |old(owners)|))
    {
      hide Advance;
      ghost var before, was := Abs(), job.Value();
      if IsJobCanceling(job.id) {
        HandleJobCancelling(job);
        AdvanceSettles(before, job.id, SettleWith(was, Canceled));
        assert Values() == before.jobs[job.id := SettleWith(was, Canceled)];
        return;
      }
      job.progress := job.progress.(create := true);
      Send(job, CreateCall, Create(|job.inputStreams|));
      AdvanceSends(before, job.id, CallCreate(was, |before.owners|));
      assert job.Value() == CallCreate(was, |before.owners|);
      OnlyChanged(job);
    }

    /** The body of the page loop of the render task. */
    method RenderPage(job: PendingJob, pageOk: bool, ghost request: nat)
      requires job.stage.Waiting? && job.stage.rendered < |job.pages|
      modifies job
      ensures job.Value() == RenderTurn(old(job.Value()), old(IsJobCanceling(job.id)), pageOk, request)
    {
      var k := job.stage.rendered;
      if IsJobCanceling(job.id) {
        job.inputStreams := [];
        HandleJobCancelling(job);
        return;
      }
      job.OnJobProgress(Rendering(k + 1));
      job.progress := job.progress.(rendered := k + 1);
      if pageOk {
        job.inputStreams := job.inputStreams + [job.pages[k]];
        job.stage := Waiting(k + 1);
        return;
      }
      ReportError(job);
    }

    /** The callback of the render task with the streams of all pages. */
    method RenderCallback(job: PendingJob, ghost pageOk: bool)
      requires Own() && job.id in jobs && jobs[job.id] == job
      requires job.stage.Waiting? && job.stage.rendered >= |job.pages|
      modifies job, `owners, `writes
      ensures Became(old(Abs()), job,
        RenderTurn(old(job.Value()), old(IsJobCanceling(job.id)), pageOk, |old(owners)|))
    {
      if job.inputStreams == [] {
        ghost var before, was := Abs(), job.Value();
        HandleJobCancelling(job);
        assert Values() == before.jobs[job.id := SettleWith(was, Canceled)];
      } else {
        CreateJobAndUploadPages(job);
      }
    }

    /** One turn of the render thread on the job at the front of its batch. */
    method RenderNext(pageOk: bool)
      requires Valid() && batch != []
      modifies this, Objects()
      ensures Valid() && jobs == old(jobs)
      ensures Takes(old(Abs()), Turn(pageOk), Abs())
    {
      hide Inv, RenderTurn, Advance, Step, Enabled;
      ghost var before := Abs();
      BatchWaits(before, pageOk);
      TakesKeeps(before, Turn(pageOk));
      TurnIs(before, pageOk);
      var id := batch[0];
      var job := jobs[id];
      ghost var was := job.Value();
      if job.stage.rendered < |job.pages| {
        RenderPage(job, pageOk, |owners|);
        MoreToRender(before, id, IsCancelling(before, id), pageOk);
        assert Values() == before.jobs[id := job.Value()];
      } else {
        RenderCallback(job, pageOk);
        RenderingEnds(was, IsCancelling(before, id), pageOk, |before.owners|);
      }
      ghost var after, next := Abs(), RenderTurn(was, IsCancelling(before, id), pageOk, |before.owners|);
      AdvanceSets(before, id, next);
      assert after == Advance(before, id, next);
      assert job.Value() == after.jobs[id];
      if !job.stage.Waiting? {
        batch := batch[1..];
        assert Values() == after.jobs;
      }
    }

    predicate Awaits(id: nat, call: Call)
      reads this, Objects()
    {
      id in jobs && jobs[id].stage.Calling? && jobs[id].stage.call == call
    }

    /** The outstanding call of the job can end like this: as cancelled only if it was aborted. */
    predicate MayEnd(id: nat, outcome: Outcome)
      reads this, Objects()
    {
      id in jobs && jobs[id].stage.Calling? && (outcome.CancelException? ==> jobs[id].stage.request in aborted)
    }

    /** `UploadNextPage` without an exception; there is no previous result after the creation. */
    method UploadNextPage(job: PendingJob, prev: Option<string>)
      requires Own() && job.id in jobs && jobs[job.id] == job && (prev.None? ==> job.inputStreams != [])
      modifies job, `pendingJobs, `owners, `writes
      ensures Became(old(Abs()), job,
                     NextCall(old(job.Value()), prev, old(IsJobCanceling(job.id)), |old(owners)|))
    {
      hide Advance, CallDelete, CallFinish, CallUpload;
      ghost var before := Abs();
      if prev.Some? {
        job.uploadResults := job.uploadResults + [prev.value];
      }
      ghost var uploaded := job.Value();
      assert Values() == before.jobs[job.id := uploaded];
      if prev.Some? && job.inputStreams == [] && !IsJobCanceling(job.id) {
        CompleteSuccessfulJob(job);
        AdvanceAgain(before, job.id, uploaded, CallFinish(uploaded, |before.owners|));
      } else if IsJobCanceling(job.id) {
        CancelServerJob(job);
        AdvanceAgain(before, job.id, uploaded, CallDelete(uploaded, |before.owners|));
      } else {
        SendNextPage(job);
        AdvanceAgain(before, job.id, uploaded, CallUpload(uploaded, |before.owners|));
      }
    }

    method CreateJobCallback(id: nat, outcome: Outcome)
      requires Valid() && Awaits(id, CreateCall) && MayEnd(id, outcome)
      modifies this, Objects()
      ensures Valid() && jobs == old(jobs)
      ensures Takes(old(Abs()), Answer(id, outcome), Abs())
    {
      hide Inv, Answered, Advance, NextCall, ServerException;
      ghost var before := Abs();
      TakesKeeps(before, Answer(id, outcome));
      var job := jobs[id];
      ghost var was := job.Value();
      CreateEnds(was, IsCancelling(before, id), outcome, |before.owners|);
      if !outcome.Success? {
        ProcessServerException(job, outcome, false);
        return;
      }
      job.actions := job.actions + [Created];
      job.progress := job.progress.(created := true);
      ghost var created := job.Value();
      assert Values() == before.jobs[id := created];
      UploadNextPage(job, None);
      AdvanceAgain(before, id, created, NextCall(created, None, IsCancelling(before, id), |before.owners|));
    }

    method UploadPageCallback(id: nat, outcome: Outcome)
      requires Valid() && Awaits(id, UploadCall) && MayEnd(id, outcome)
      modifies this, Objects()
      ensures Valid() && jobs == old(jobs)
      ensures Takes(old(Abs()), Answer(id, outcome), Abs())
    {
      hide Inv, Answered, Advance, NextCall, ServerException;
      ghost var before := Abs();
      TakesKeeps(before, Answer(id, outcome));
      var job := jobs[id];
      UploadEnds(job.Value(), IsCancelling(before, id), outcome, |before.owners|);
      if !outcome.Success? {
        ProcessServerException(job, outcome, true);
        return;
      }
      UploadNextPage(job, Some(outcome.result));
    }

    method CompleteJobCallback(id: nat, outcome: Outcome)
      requires Valid() && Awaits(id, FinishCall) && MayEnd(id, outcome)
      modifies this, Objects()
      ensures Valid() && jobs == old(jobs)
      ensures Takes(old(Abs()), Answer(id, outcome), Abs())
    {
      hide Inv;
      TakesKeeps(Abs(), Answer(id, outcome));
      var job := jobs[id];
      if !outcome.Success? {
        ProcessServerException(job, outcome, true);
      } else if IsJobCanceling(id) {
        CancelServerJob(job);
      } else {
        GetNewJobInfo(job);
      }
    }

    method GetJobCallback(id: nat, outcome: Outcome)
      requires Valid() && Awaits(id, FetchCall) && MayEnd(id, outcome)
      modifies this, Objects()
      ensures Valid() && jobs == old(jobs)
      ensures Takes(old(Abs()), Answer(id, outcome), Abs())
    {
      hide Inv, Advance;
      ghost var before := Abs();
      TakesKeeps(before, Answer(id, outcome));
      var job := jobs[id];
      ghost var was := job.Value();
      if !outcome.Success? {
        ProcessServerException(job, outcome, true);
        return;
      }
      ReportComplete(job);
      AdvanceSettles(before, id, SettleWith(was, Complete));
      OnlyChanged(job);
    }

    /** Whether or not the deletion succeeded, the job is canceled. */
    method CancelJobCallback(id: nat, outcome: Outcome)
      requires Valid() && Awaits(id, DeleteCall) && MayEnd(id, outcome)
      modifies this, Objects()
      ensures Valid() && jobs == old(jobs)
      ensures Takes(old(Abs()), Answer(id, outcome), Abs())
    {
      hide Inv, Advance;
      ghost var before := Abs();
      TakesKeeps(before, Answer(id, outcome));
      var job := jobs[id];
      ghost var was := job.Value();
      HandleJobCancelling(job);
      AdvanceSettles(before, id, SettleWith(was, Canceled));
      OnlyChanged(job);
    }

    /** A call has returned its request id, or 0 when nobody is logged in. */
    method StoreReturnedId(k: nat, refused: bool)
      requires Valid() && k < |writes|
      modifies this
      ensures Valid() && jobs == old(jobs) && Takes(old(Abs()), Store(k, refused), Abs())
    {
      hide Inv;
      ghost var before := Abs();
      TakesKeeps(before, Store(k, refused));
      var w := writes[k];
      writes := writes[..k] + writes[k + 1..];
      SetPendingJobHttpCancelId(w.job, if refused then 0 else w.request);
      assert Values() == before.jobs;
    }

    /** The last reference to a job is gone. */
    method RemoveJobFromPendingList(id: nat)
      requires Valid() && id in jobs && jobs[id].stage.Settled?
      modifies `pendingJobs
      ensures Valid() && Takes(old(Abs()), Release(id), Abs())
    {
      hide Inv;
      ghost var before := Abs();
      TakesKeeps(before, Release(id));
      pendingJobs := pendingJobs - {id};
      assert Values() == before.jobs;
    }
  }

  /** What `UploadNextPage` makes of a job whose previous result has come. */
  function NextCall(j: Job, prev: Option<string>, cancelling: bool, request: nat): Job
    requires prev.None? ==> j.inputStreams != []
  {
    var uploaded := if prev.Some? then j.(uploadResults := j.uploadResults + [prev.value]) else j;
    if cancelling then CallDelete(uploaded, request)
    else if j.inputStreams == [] then CallFinish(uploaded, request)
    else CallUpload(uploaded, request)
  }

  lemma CreateEnds(j: Job, cancelling: bool, outcome: Outcome, request: nat)
    requires j.stage.Calling? && j.stage.call.CreateCall? && j.inputStreams != []
    ensures Answered(j, cancelling, outcome, request)
         == if !outcome.Success? then ServerException(j, outcome, false, request)
            else NextCall(j.(actions := j.actions + [Created], progress := j.progress.(created := true)),
                          None, cancelling, request)
  {
  }

  lemma UploadEnds(j: Job, cancelling: bool, outcome: Outcome, request: nat)
    requires j.stage.Calling? && j.stage.call.UploadCall?
    ensures Answered(j, cancelling, outcome, request)
         == if !outcome.Success? then ServerException(j, outcome, true, request)
            else NextCall(j, Some(outcome.result), cancelling, request)
  {
  }

  lemma AdvanceAgain(s: State, id: nat, between: Job, next: Job)
    ensures Advance(s.(jobs := s.jobs[id := between]), id, next) == Advance(s, id, next)
  {
    assert s.jobs[id := between][id := next] == s.jobs[id := next];
  }

  lemma AdvanceSettles(s: State, id: nat, next: Job)
    requires !next.stage.Calling?
    ensures Advance(s, id, next) == s.(jobs := s.jobs[id := next])
  {
  }

  lemma AdvanceSends(s: State, id: nat, next: Job)
    requires next.stage.Calling? && !next.stage.call.DeleteCall?
    ensures Advance(s, id, next)
         == s.(jobs := s.jobs[id := next], owners := s.owners + [id], writes := s.writes + [IdWrite(id, |s.owners|)])
  {
  }

  lemma AdvanceDeletes(s: State, id: nat, next: Job)
    requires next.stage.Calling? && next.stage.call.DeleteCall?
    ensures Advance(s, id, next)
         == s.(jobs := s.jobs[id := next], owners := s.owners + [id], pending := StoreId(s.pending, id, 0))
  {
  }

  lemma AdvanceSets(s: State, id: nat, next: Job)
    ensures Advance(s, id, next).jobs == s.jobs[id := next]
    ensures Advance(s, id, next).batch == s.batch
  {
  }

  lemma TurnIs(s: State, pageOk: bool)
    requires Enabled(s, Turn(pageOk))
    ensures s.batch != [] && s.batch[0] in s.jobs && s.jobs[s.batch[0]].stage.Waiting?
    ensures var id := s.batch[0];
      var next := RenderTurn(s.jobs[id], IsCancelling(s, id), pageOk, |s.owners|);
      Step(s, Turn(pageOk))
      == if next.stage.Waiting? then Advance(s, id, next) else Advance(s, id, next).(batch := s.batch[1..])
  {
    hide RenderTurn, Advance;
  }

  lemma MoreToRender(s: State, id: nat, cancelling: bool, pageOk: bool)
    requires id in s.jobs && s.jobs[id].stage.Waiting? && s.jobs[id].stage.rendered < |s.jobs[id].pages|
    ensures var next := RenderTurn(s.jobs[id], cancelling, pageOk, |s.owners|);
      Advance(s, id, next) == s.(jobs := s.jobs[id := next])
  {
  }

  lemma RenderingEnds(j: Job, cancelling: bool, pageOk: bool, request: nat)
    requires j.stage.Waiting? && j.stage.rendered >= |j.pages|
    ensures !RenderTurn(j, cancelling, pageOk, request).stage.Waiting?
  {
  }
}
