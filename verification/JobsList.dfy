/** The list of jobs on the page and its reconciliation with the list from the server
    (src/CustomerPrintClientGui/JobsPage/PageJobsList.cpp). */
module JobsList {

  /** A job; `details` stands for the fields that stay as they were first loaded. */
  datatype Job = Job(id: string, details: string, updateTime: int, status: int, payedOff: bool)

  function UpdateJob(job: Job, from: Job): Job {
    job.(updateTime := from.updateTime, status := from.status, payedOff := from.payedOff)
  }

  // What UpdateContent does, with any lists

  /** The first place of each identifier among the first n jobs. */
  function FirstPlaces(jobs: seq<Job>, n: nat): (r: map<string, nat>)
    requires n <= |jobs|
    ensures forall id :: id in r ==> r[id] < n && jobs[r[id]].id == id
    ensures forall i :: 0 <= i < n ==> jobs[i].id in r
  {
    if n == 0 then map[]
    else
      var r := FirstPlaces(jobs, n - 1);
      if jobs[n - 1].id in r then r else r[jobs[n - 1].id := n - 1]
  }

  lemma {:induction false} FirstPlacesAreFirst(jobs: seq<Job>, n: nat, id: string)
    requires n <= |jobs| && id in FirstPlaces(jobs, n)
    ensures forall i :: 0 <= i < FirstPlaces(jobs, n)[id] ==> jobs[i].id != id
  {
    hide FirstPlaces;
    if n > 0 {
      OneMorePlace(jobs, n);
      if id in FirstPlaces(jobs, n - 1) {
        FirstPlacesAreFirst(jobs, n - 1, id);
      } else {
        NotYetPlaced(jobs, n - 1, id);
      }
    }
  }

  lemma NotYetPlaced(jobs: seq<Job>, n: nat, id: string)
    requires n <= |jobs| && id !in FirstPlaces(jobs, n)
    ensures forall i :: 0 <= i < n ==> jobs[i].id != id
  {
    hide FirstPlaces;
  }

  lemma OneMorePlace(jobs: seq<Job>, n: nat)
    requires 0 < n <= |jobs|
    ensures var r := FirstPlaces(jobs, n - 1);
      FirstPlaces(jobs, n) == if jobs[n - 1].id in r then r else r[jobs[n - 1].id := n - 1]
  {
  }

  /** New jobs put in front so far, the old jobs, and the places of those not met yet. */
  datatype Progress = Progress(pushed: seq<Job>, olds: seq<Job>, places: map<string, nat>)

  predicate Fits(p: Progress) {
    forall id :: id in p.places ==> p.places[id] < |p.olds| && p.olds[p.places[id]].id == id
  }

  function Visit(p: Progress, job: Job): (r: Progress)
    requires Fits(p)
    ensures Fits(r)
  {
    if job.id !in p.places then p.(pushed := [job] + p.pushed)
    else
      var i := p.places[job.id];
      Progress(p.pushed, p.olds[i := UpdateJob(p.olds[i], job)], p.places - {job.id})
  }

  /** The server's list is visited from its end. */
  function VisitAll(p: Progress, server: seq<Job>): (r: Progress)
    requires Fits(p)
    ensures Fits(r) && |r.olds| == |p.olds|
  {
    if server == [] then p else Visit(VisitAll(p, server[1..]), server[0])
  }

  function RemoveFirst(jobs: seq<Job>, keys: set<string>): seq<Job> {
    if jobs == [] then []
    else if jobs[0].id in keys then RemoveFirst(jobs[1..], keys - {jobs[0].id})
    else [jobs[0]] + RemoveFirst(jobs[1..], keys)
  }

  function Begin(listed: seq<Job>): (r: Progress)
    ensures Fits(r)
  {
    Progress([], listed, FirstPlaces(listed, |listed|))
  }

  function Reconcile(listed: seq<Job>, server: seq<Job>): seq<Job> {
    var p := VisitAll(Begin(listed), server);
    RemoveFirst(p.pushed + p.olds, p.places.Keys)
  }

  // What that means for a page that shows no job twice

  function Ids(jobs: seq<Job>): set<string> { set i | 0 <= i < |jobs| :: jobs[i].id }

  predicate Distinct(jobs: seq<Job>) { forall i, k :: 0 <= i < k < |jobs| ==> jobs[i].id != jobs[k].id }

  /** What is put in front, in the server's order: the entries of jobs that the page does not show,
      and of the entries of a job that it shows all but the last. */
  function NewJobs(listed: seq<Job>, server: seq<Job>): seq<Job> {
    if server == [] then []
    else if server[0].id in Ids(listed) && server[0].id !in Ids(server[1..]) then NewJobs(listed, server[1..])
    else [server[0]] + NewJobs(listed, server[1..])
  }

  /** The job with the data of its last entry in the server's list. */
  function FromServer(job: Job, server: seq<Job>): Job {
    if server == [] then job
    else if server[0].id == job.id && job.id !in Ids(server[1..]) then UpdateJob(job, server[0])
    else FromServer(job, server[1..])
  }

  /** The jobs shown that the server still has, in their order, each with the server's update time,
      status and paid flag. */
  function Survivors(listed: seq<Job>, server: seq<Job>): seq<Job> {
    if listed == [] then []
    else if listed[0].id in Ids(server) then [FromServer(listed[0], server)] + Survivors(listed[1..], server)
    else Survivors(listed[1..], server)
  }

  function Refreshed(listed: seq<Job>, server: seq<Job>): (r: seq<Job>)
    ensures |r| == |listed|
    ensures forall i :: 0 <= i < |r| ==> r[i] == FromServer(listed[i], server)
  {
    seq(|listed|, i requires 0 <= i < |listed| => FromServer(listed[i], server))
  }

  lemma FromServerKeepsId(job: Job, server: seq<Job>)
    ensures FromServer(job, server).id == job.id
  {
  }

  lemma {:induction false} NotOnServer(job: Job, server: seq<Job>)
    requires job.id !in Ids(server)
    ensures FromServer(job, server) == job
  {
    if server != [] {
      assert server[0].id in Ids(server);
      assert forall i :: 0 <= i < |server[1..]| ==> server[1..][i] == server[i + 1];
      NotOnServer(job, server[1..]);
    }
  }

  lemma IdsOfRest(jobs: seq<Job>)
    requires jobs != []
    ensures Ids(jobs) == {jobs[0].id} + Ids(jobs[1..])
    ensures Distinct(jobs) ==> jobs[0].id !in Ids(jobs[1..]) && Distinct(jobs[1..])
  {
    var rest := jobs[1..];
    forall id | id in Ids(jobs) ensures id in {jobs[0].id} + Ids(rest) {
      var i :| 0 <= i < |jobs| && jobs[i].id == id;
      if i > 0 {
        assert rest[i - 1].id == id;
      }
    }
    assert forall i :: 0 <= i < |rest| ==> rest[i] == jobs[i + 1];
  }

  /** The main loop, for any list from the server: new entries in the server's order, old jobs
      refreshed in place, the places of those that the server no longer has left over. */
  lemma {:induction false} VisitsAll(listed: seq<Job>, server: seq<Job>)
    requires Distinct(listed)
    ensures var p := VisitAll(Begin(listed), server);
      && p.pushed == NewJobs(listed, server)
      && p.olds == Refreshed(listed, server)
      && p.places == FirstPlaces(listed, |listed|) - Ids(server)
  {
    if server == [] {
      assert Refreshed(listed, []) == listed;
    } else {
      IdsOfRest(server);
      VisitsAll(listed, server[1..]);
      VisitsOne(listed, server[0], server[1..]);
    }
  }

  lemma RefreshedByOneMore(listed: seq<Job>, job: Job, rest: seq<Job>)
    ensures forall i :: 0 <= i < |listed| ==>
      FromServer(listed[i], [job] + rest) ==
      if listed[i].id == job.id && job.id !in Ids(rest) then UpdateJob(Refreshed(listed, rest)[i], job)
      else Refreshed(listed, rest)[i]
  {
    assert ([job] + rest)[1..] == rest;
    forall i | 0 <= i < |listed| && listed[i].id == job.id && job.id !in Ids(rest)
      ensures Refreshed(listed, rest)[i] == listed[i]
    {
      NotOnServer(listed[i], rest);
    }
  }

  lemma RefreshedAt(listed: seq<Job>, job: Job, rest: seq<Job>, i: nat)
    requires Distinct(listed) && job.id !in Ids(rest) && i < |listed| && listed[i].id == job.id
    ensures Refreshed(listed, [job] + rest) == Refreshed(listed, rest)[i := UpdateJob(Refreshed(listed, rest)[i], job)]
  {
    hide FromServer, UpdateJob, Ids;
    RefreshedByOneMore(listed, job, rest);
  }

  lemma RefreshedNowhere(listed: seq<Job>, job: Job, rest: seq<Job>)
    requires job.id in Ids(rest) || job.id !in Ids(listed)
    ensures Refreshed(listed, [job] + rest) == Refreshed(listed, rest)
  {
    RefreshedByOneMore(listed, job, rest);
    forall i | 0 <= i < |listed| ensures listed[i].id != job.id || job.id in Ids(rest) {
      assert listed[i].id in Ids(listed);
    }
  }

  lemma PlacesAreIds(listed: seq<Job>)
    ensures FirstPlaces(listed, |listed|).Keys == Ids(listed)
  {
    var places := FirstPlaces(listed, |listed|);
    forall id | id in places ensures id in Ids(listed) {
      assert listed[places[id]].id == id;
    }
  }

  lemma MapMinus(places: map<string, nat>, ids: set<string>, id: string)
    ensures places - ids - {id} == places - ({id} + ids)
    ensures id !in places - ids ==> places - ids == places - ({id} + ids)
  {
  }

  lemma VisitIs(p: Progress, job: Job)
    requires Fits(p)
    ensures job.id !in p.places ==> Visit(p, job) == Progress([job] + p.pushed, p.olds, p.places)
    ensures job.id in p.places ==>
      Visit(p, job) == Progress(p.pushed, p.olds[p.places[job.id] := UpdateJob(p.olds[p.places[job.id]], job)],
                                p.places - {job.id})
  {
  }

  lemma NewJobsByOneMore(listed: seq<Job>, job: Job, rest: seq<Job>)
    ensures NewJobs(listed, [job] + rest) ==
            if job.id in Ids(listed) && job.id !in Ids(rest) then NewJobs(listed, rest)
            else [job] + NewJobs(listed, rest)
  {
    assert ([job] + rest)[1..] == rest;
  }

  lemma VisitsOne(listed: seq<Job>, job: Job, rest: seq<Job>)
    requires Distinct(listed)
    ensures var places := FirstPlaces(listed, |listed|);
      var p := Progress(NewJobs(listed, rest), Refreshed(listed, rest), places - Ids(rest));
      && Fits(p)
      && Visit(p, job) == Progress(NewJobs(listed, [job] + rest), Refreshed(listed, [job] + rest),
                                   places - ({job.id} + Ids(rest)))
  {
    hide *;
    var places := FirstPlaces(listed, |listed|);
    var p := Progress(NewJobs(listed, rest), Refreshed(listed, rest), places - Ids(rest));
    RefreshedFits(listed, rest);
    PlacesAreIds(listed);
    MapMinus(places, Ids(rest), job.id);
    NewJobsByOneMore(listed, job, rest);
    VisitIs(p, job);
    if job.id in p.places {
      PlaceHasId(listed, job.id);
      RefreshedAt(listed, job, rest, places[job.id]);
    } else {
      assert job.id in Ids(rest) || job.id !in places;
      RefreshedNowhere(listed, job, rest);
    }
  }

  lemma PlaceHasId(listed: seq<Job>, id: string)
    requires id in FirstPlaces(listed, |listed|)
    ensures FirstPlaces(listed, |listed|)[id] < |listed| && listed[FirstPlaces(listed, |listed|)[id]].id == id
  {
  }

  lemma RefreshedFits(listed: seq<Job>, server: seq<Job>)
    ensures var places := FirstPlaces(listed, |listed|);
      Fits(Progress(NewJobs(listed, server), Refreshed(listed, server), places - Ids(server)))
  {
    forall i | 0 <= i < |listed| ensures Refreshed(listed, server)[i].id == listed[i].id {
      FromServerKeepsId(listed[i], server);
    }
  }

  lemma {:induction false} RemoveNone(jobs: seq<Job>, more: seq<Job>, keys: set<string>)
    requires forall i :: 0 <= i < |jobs| ==> jobs[i].id !in keys
    ensures RemoveFirst(jobs + more, keys) == jobs + RemoveFirst(more, keys)
    decreases |jobs|
  {
    if jobs == [] {
      assert jobs + more == more;
    } else {
      assert (jobs + more)[1..] == jobs[1..] + more;
      RemoveNone(jobs[1..], more, keys);
    }
  }

  lemma {:induction false} RemoveLeavesSurvivors(listed: seq<Job>, server: seq<Job>, keys: set<string>)
    requires Distinct(listed)
    requires forall i :: 0 <= i < |listed| ==> (listed[i].id in keys <==> listed[i].id !in Ids(server))
    ensures RemoveFirst(Refreshed(listed, server), keys) == Survivors(listed, server)
    decreases |listed|
  {
    if listed != [] {
      FromServerKeepsId(listed[0], server);
      assert Refreshed(listed, server)[1..] == Refreshed(listed[1..], server);
      RemoveLeavesSurvivors(listed[1..], server, if listed[0].id in keys then keys - {listed[0].id} else keys);
    }
  }

  lemma {:induction false} NewJobsAreServers(listed: seq<Job>, server: seq<Job>)
    ensures Ids(NewJobs(listed, server)) <= Ids(server)
  {
    if server != [] {
      IdsOfRest(server);
      NewJobsAreServers(listed, server[1..]);
      var rest := NewJobs(listed, server[1..]);
      assert ([server[0]] + rest)[1..] == rest;
      IdsOfRest([server[0]] + rest);
    }
  }

  /** Whatever the server's list repeats, a page that shows no job twice then shows the new entries
      in the server's order, followed by the surviving jobs in their old order with the server's
      latest news. */
  lemma ReconcilesAny(listed: seq<Job>, server: seq<Job>)
    requires Distinct(listed)
    ensures Reconcile(listed, server) == NewJobs(listed, server) + Survivors(listed, server)
  {
    VisitsAll(listed, server);
    var places := FirstPlaces(listed, |listed|) - Ids(server);
    var news := NewJobs(listed, server);
    NewJobsAreServers(listed, server);
    forall i | 0 <= i < |news| ensures news[i].id !in places.Keys {
      assert news[i].id in Ids(news);
    }
    RemoveNone(news, Refreshed(listed, server), places.Keys);
    forall i | 0 <= i < |listed| ensures listed[i].id in places.Keys <==> listed[i].id !in Ids(server) {
    }
    RemoveLeavesSurvivors(listed, server, places.Keys);
  }

  /** The server's jobs that the page does not show, in the server's order. */
  function Unlisted(listed: seq<Job>, server: seq<Job>): seq<Job> {
    if server == [] then []
    else if server[0].id in Ids(listed) then Unlisted(listed, server[1..])
    else [server[0]] + Unlisted(listed, server[1..])
  }

  lemma {:induction false} NewJobsAreUnlisted(listed: seq<Job>, server: seq<Job>)
    requires Distinct(server)
    ensures NewJobs(listed, server) == Unlisted(listed, server)
  {
    if server != [] {
      IdsOfRest(server);
      NewJobsAreUnlisted(listed, server[1..]);
    }
  }

  /** When the server's list repeats nothing either, the new entries are its unlisted jobs. */
  lemma ReconcilesDistinct(listed: seq<Job>, server: seq<Job>)
    requires Distinct(listed) && Distinct(server)
    ensures Reconcile(listed, server) == Unlisted(listed, server) + Survivors(listed, server)
  {
    ReconcilesAny(listed, server);
    NewJobsAreUnlisted(listed, server);
  }

  /** A surviving job has the update time, status and paid flag of its last entry in the server's
      list; its identifier and everything else stay as they were. */
  lemma {:induction false} HasLatestNews(job: Job, server: seq<Job>, k: nat)
    requires k < |server| && server[k].id == job.id
    requires forall i :: k < i < |server| ==> server[i].id != job.id
    ensures FromServer(job, server)
         == Job(job.id, job.details, server[k].updateTime, server[k].status, server[k].payedOff)
  {
    var rest := server[1..];
    if k == 0 {
      assert forall i :: 0 <= i < |rest| ==> rest[i] == server[i + 1];
    } else {
      assert rest[k - 1] == server[k];
      HasLatestNews(job, rest, k - 1);
    }
  }

  // Which jobs are shown, and how often

  function IdList(jobs: seq<Job>): (r: seq<string>)
    ensures |r| == |jobs|
    ensures forall i :: 0 <= i < |r| ==> r[i] == jobs[i].id
  {
    seq(|jobs|, i requires 0 <= i < |jobs| => jobs[i].id)
  }

  lemma CountsOfRest(jobs: seq<Job>)
    requires jobs != []
    ensures multiset(IdList(jobs)) == multiset{jobs[0].id} + multiset(IdList(jobs[1..]))
  {
    assert IdList(jobs) == [jobs[0].id] + IdList(jobs[1..]);
  }

  lemma CountsOfJoin(a: seq<Job>, b: seq<Job>)
    ensures multiset(IdList(a + b)) == multiset(IdList(a)) + multiset(IdList(b))
  {
    assert IdList(a + b) == IdList(a) + IdList(b);
  }

  lemma MatchedCount(a: set<string>, b: set<string>, id: string)
    ensures id in a && id !in b ==> multiset(a * (b + {id})) == multiset(a * b) + multiset{id}
    ensures id !in a || id in b ==> a * (b + {id}) == a * b
  {
    if id in a && id !in b {
      assert a * (b + {id}) == a * b + {id};
    }
  }

  /** Every entry of the server's list goes to the front or to the job that it updates. */
  lemma {:induction false} NewJobsCount(listed: seq<Job>, server: seq<Job>)
    ensures multiset(IdList(NewJobs(listed, server))) + multiset(Ids(listed) * Ids(server))
         == multiset(IdList(server))
  {
    hide Ids, IdList;
    if server == [] {
      NothingCounted(listed);
    } else {
      var rest, job := server[1..], server[0];
      NewJobsCount(listed, rest);
      CountsOfRest(server);
      IdsOfRest(server);
      MatchedCount(Ids(listed), Ids(rest), job.id);
      assert {job.id} + Ids(rest) == Ids(rest) + {job.id};
      var news := [job] + NewJobs(listed, rest);
      assert news[1..] == NewJobs(listed, rest);
      CountsOfRest(news);
    }
  }

  lemma NothingCounted(listed: seq<Job>)
    ensures multiset(IdList([])) == multiset{} && Ids(listed) * Ids([]) == {} && Ids([]) * Ids(listed) == {}
  {
  }

  lemma {:induction false} SurvivorsCount(listed: seq<Job>, server: seq<Job>)
    requires Distinct(listed)
    ensures multiset(IdList(Survivors(listed, server))) == multiset(Ids(listed) * Ids(server))
  {
    hide Ids, IdList, Distinct, FromServer;
    if listed == [] {
      NothingCounted(server);
    } else {
      var rest, job := listed[1..], listed[0];
      IdsOfRest(listed);
      SurvivorsCount(rest, server);
      MatchedCount(Ids(server), Ids(rest), job.id);
      assert {job.id} + Ids(rest) == Ids(rest) + {job.id};
      assert Ids(listed) * Ids(server) == Ids(server) * Ids(listed);
      assert Ids(rest) * Ids(server) == Ids(server) * Ids(rest);
      if job.id in Ids(server) {
        FromServerKeepsId(job, server);
        var all := [FromServer(job, server)] + Survivors(rest, server);
        assert all[1..] == Survivors(rest, server);
        CountsOfRest(all);
      }
    }
  }

  lemma {:induction false} DistinctIsCountedOnce(jobs: seq<Job>)
    ensures Distinct(jobs) <==> forall id :: multiset(IdList(jobs))[id] <= 1
    ensures forall id :: id in Ids(jobs) <==> multiset(IdList(jobs))[id] > 0
  {
    if jobs != [] {
      var rest := jobs[1..];
      DistinctIsCountedOnce(rest);
      CountsOfRest(jobs);
      IdsOfRest(jobs);
      if forall id :: multiset(IdList(jobs))[id] <= 1 {
        assert forall id :: multiset(IdList(rest))[id] <= multiset(IdList(jobs))[id];
        assert multiset(IdList(rest))[jobs[0].id] == 0;
        FirstIsNew(jobs);
      }
    }
  }

  lemma FirstIsNew(jobs: seq<Job>)
    requires jobs != [] && Distinct(jobs[1..]) && jobs[0].id !in Ids(jobs[1..])
    ensures Distinct(jobs)
  {
    var rest := jobs[1..];
    forall i, k | 0 <= i < k < |jobs| ensures jobs[i].id != jobs[k].id {
      assert jobs[k] == rest[k - 1] && rest[k - 1].id in Ids(rest);
      if i > 0 {
        assert jobs[i] == rest[i - 1];
      }
    }
  }

  /** A page that shows no job twice then shows each job exactly as often as the server's list names
      it. So the next update starts from a list without repetition exactly when the server's list
      has none. */
  lemma ShowsTheServersJobs(listed: seq<Job>, server: seq<Job>)
    requires Distinct(listed)
    ensures multiset(IdList(Reconcile(listed, server))) == multiset(IdList(server))
    ensures Ids(Reconcile(listed, server)) == Ids(server)
    ensures Distinct(Reconcile(listed, server)) <==> Distinct(server)
  {
    hide *;
    var shown := Reconcile(listed, server);
    ReconcilesAny(listed, server);
    CountsOfJoin(NewJobs(listed, server), Survivors(listed, server));
    NewJobsCount(listed, server);
    SurvivorsCount(listed, server);
    DistinctIsCountedOnce(shown);
    DistinctIsCountedOnce(server);
  }

  /** An update with a list that the page already shows changes nothing. */
  lemma SecondUpdateChangesNothing(listed: seq<Job>, server: seq<Job>)
    requires Distinct(listed) && Distinct(server)
    ensures Reconcile(Reconcile(listed, server), server) == Reconcile(listed, server)
  {
    hide *;
    var shown := Reconcile(listed, server);
    ShowsTheServersJobs(listed, server);
    ReconcilesAny(listed, server);
    ReconcilesAny(shown, server);
    NothingNew(shown, server);
    forall i | 0 <= i < |shown| ensures FromServer(shown[i], server) == shown[i] {
      var n := |NewJobs(listed, server)|;
      if i < n {
        NewJobIsServers(listed, server, i);
      } else {
        SurvivorIsServers(listed, server, i - n);
      }
    }
    AllSurvive(shown, server);
  }

  lemma {:induction false} NothingNew(listed: seq<Job>, server: seq<Job>)
    requires Distinct(server) && Ids(server) <= Ids(listed)
    ensures NewJobs(listed, server) == []
  {
    if server != [] {
      IdsOfRest(server);
      NothingNew(listed, server[1..]);
    }
  }

  lemma {:induction false} AllSurvive(listed: seq<Job>, server: seq<Job>)
    requires Ids(listed) <= Ids(server)
    requires forall i :: 0 <= i < |listed| ==> FromServer(listed[i], server) == listed[i]
    ensures Survivors(listed, server) == listed
  {
    if listed != [] {
      IdsOfRest(listed);
      AllSurvive(listed[1..], server);
    }
  }

  lemma {:induction false} ServerJobIsItself(server: seq<Job>, k: nat)
    requires Distinct(server) && k < |server|
    ensures FromServer(server[k], server) == server[k]
  {
    IdsOfRest(server);
    if k > 0 {
      ServerJobIsItself(server[1..], k - 1);
    }
  }

  lemma {:induction false} NewJobIsServers(listed: seq<Job>, server: seq<Job>, i: nat)
    requires Distinct(server) && i < |NewJobs(listed, server)|
    ensures FromServer(NewJobs(listed, server)[i], server) == NewJobs(listed, server)[i]
  {
    var k := NewJobPlace(listed, server, i);
    ServerJobIsItself(server, k);
  }

  lemma {:induction false} NewJobPlace(listed: seq<Job>, server: seq<Job>, i: nat) returns (k: nat)
    requires i < |NewJobs(listed, server)|
    ensures k < |server| && server[k] == NewJobs(listed, server)[i]
    decreases |server|
  {
    if server[0].id in Ids(listed) && server[0].id !in Ids(server[1..]) {
      k := NewJobPlace(listed, server[1..], i);
      k := k + 1;
    } else if i == 0 {
      k := 0;
    } else {
      k := NewJobPlace(listed, server[1..], i - 1);
      k := k + 1;
    }
  }

  lemma {:induction false} FromServerTwice(job: Job, server: seq<Job>)
    ensures FromServer(FromServer(job, server), server) == FromServer(job, server)
  {
    FromServerKeepsId(job, server);
    if server != [] && !(server[0].id == job.id && job.id !in Ids(server[1..])) {
      FromServerTwice(job, server[1..]);
    }
  }

  lemma {:induction false} SurvivorIsServers(listed: seq<Job>, server: seq<Job>, i: nat)
    requires i < |Survivors(listed, server)|
    ensures FromServer(Survivors(listed, server)[i], server) == Survivors(listed, server)[i]
    decreases |listed|
  {
    if listed[0].id !in Ids(server) {
      SurvivorIsServers(listed[1..], server, i);
    } else if i == 0 {
      FromServerTwice(listed[0], server);
    } else {
      SurvivorIsServers(listed[1..], server, i - 1);
    }
  }

  // The page as it runs

  class PrintJobInfo {
    const id: string
    const details: string
    var updateTime: int
    var status: int
    var payedOff: bool

    function Value(): Job
      reads this
    {
      Job(id, details, updateTime, status, payedOff)
    }

    constructor (job: Job)
      ensures Value() == job
    {
      id, details, updateTime, status, payedOff := job.id, job.details, job.updateTime, job.status, job.payedOff;
    }

    predicate DiffersFrom(other: PrintJobInfo)
      reads this, other
    {
      updateTime != other.updateTime || status != other.status || payedOff != other.payedOff
    }

    method UpdateFrom(other: PrintJobInfo)
      modifies this
      ensures Value() == UpdateJob(old(Value()), old(other.Value()))
    {
      updateTime := other.updateTime;
      status := other.status;
      payedOff := other.payedOff;
    }
  }

  function Values(jobs: seq<PrintJobInfo>): (r: seq<Job>)
    reads jobs
    ensures |r| == |jobs|
  {
    if jobs == [] then [] else [jobs[0].Value()] + Values(jobs[1..])
  }

  predicate NoRepeats<T(==)>(s: seq<T>) { forall i, k :: 0 <= i < k < |s| ==> s[i] != s[k] }

  lemma {:induction false} ValuesAt(jobs: seq<PrintJobInfo>)
    ensures |Values(jobs)| == |jobs|
    ensures forall i :: 0 <= i < |jobs| ==> Values(jobs)[i] == jobs[i].Value()
  {
    if jobs != [] {
      ValuesAt(jobs[1..]);
    }
  }

  lemma ValuesJoin(a: seq<PrintJobInfo>, b: seq<PrintJobInfo>)
    ensures Values(a + b) == Values(a) + Values(b)
  {
    ValuesAt(a + b);
    ValuesAt(a);
    ValuesAt(b);
  }

  lemma ValuesOne(job: PrintJobInfo)
    ensures Values([job]) == [job.Value()]
  {
  }

  lemma RemoveStep(values: seq<Job>, i: nat, keys: set<string>)
    requires i < |values|
    ensures RemoveFirst(values[i..], keys) ==
            if values[i].id in keys then RemoveFirst(values[i + 1..], keys - {values[i].id})
            else [values[i]] + RemoveFirst(values[i + 1..], keys)
  {
    assert values[i..][1..] == values[i + 1..];
  }

  lemma VisitStep(p: Progress, server: seq<Job>, i: nat)
    requires Fits(p) && i < |server|
    ensures VisitAll(p, server[i..]) == Visit(VisitAll(p, server[i + 1..]), server[i])
  {
    assert server[i..][1..] == server[i + 1..];
  }

  lemma StillNoRepeats<T>(kept: seq<T>, all: seq<T>, i: nat)
    requires i < |all| && NoRepeats(all) && NoRepeats(kept) && forall x :: x in kept ==> x in all[..i]
    ensures NoRepeats(kept + [all[i]]) && forall x :: x in kept + [all[i]] ==> x in all[..i + 1]
  {
    assert all[..i + 1] == all[..i] + [all[i]];
    assert all[i] !in all[..i];
  }

  class PageJobsList {
    var m_jobs: seq<PrintJobInfo>

    constructor ()
      ensures m_jobs == []
    {
      m_jobs := [];
    }

    /** The jobs on the page by identifier; `emplace` keeps the first of each. */
    method CollectJobs() returns (curJobs: map<string, PrintJobInfo>)
      ensures var places := FirstPlaces(Values(m_jobs), |m_jobs|);
        && curJobs.Keys == places.Keys
        && forall id :: id in places ==> curJobs[id] == m_jobs[places[id]]
    {
      curJobs := map[];
      ghost var values := Values(m_jobs);
      ValuesAt(m_jobs);
      var i := 0;
      while i < |m_jobs|
        invariant i <= |m_jobs|
        invariant curJobs.Keys == FirstPlaces(values, i).Keys
        invariant forall id :: id in FirstPlaces(values, i) ==> curJobs[id] == m_jobs[FirstPlaces(values, i)[id]]
      {
        if m_jobs[i].id !in curJobs {
          curJobs := curJobs[m_jobs[i].id := m_jobs[i]];
        }
        i := i + 1;
      }
    }

    /** `remove_if`, with the predicate that forgets a key once it has matched. */
    method RemoveJobs(keysToErase: set<string>)
      requires NoRepeats(m_jobs)
      modifies this
      ensures Values(m_jobs) == RemoveFirst(old(Values(m_jobs)), keysToErase)
      ensures NoRepeats(m_jobs) && forall j :: j in m_jobs ==> j in old(m_jobs)
    {
      hide RemoveFirst, NoRepeats, Values;
      ValuesAt(m_jobs);
      var keys := keysToErase;
      var kept: seq<PrintJobInfo> := [];
      ghost var values := Values(m_jobs);
      NothingKept(values, keys);
      var i := 0;
      while i < |m_jobs|
        invariant m_jobs == old(m_jobs) && Values(m_jobs) == values && i <= |m_jobs|
        invariant Values(kept) + RemoveFirst(values[i..], keys) == RemoveFirst(values, keysToErase)
        invariant NoRepeats(kept) && forall j :: j in kept ==> j in m_jobs[..i]
      {
        var job := m_jobs[i];
        RemoveStep(values, i, keys);
        StillNoRepeats(kept, m_jobs, i);
        if job.id in keys {
          keys := keys - {job.id};
        } else {
          ValuesJoin(kept, [job]);
          ValuesOne(job);
          KeepOne(Values(kept), values[i], RemoveFirst(values[i + 1..], keys));
          kept := kept + [job];
        }
        i := i + 1;
      }
      m_jobs := kept;
      AllKept(Values(kept), values, keys);
    }

    /** The server's entry for a job that is shown. */
    method UpdateFound(found: PrintJobInfo, job: PrintJobInfo,
                       ghost olds: seq<PrintJobInfo>, ghost k: nat,
                       ghost pushed: seq<PrintJobInfo>, ghost jobs: seq<PrintJobInfo>)
      requires NoRepeats(olds) && k < |olds| && olds[k] == found && found !in pushed && found !in jobs
      modifies found
      ensures Values(olds) == old(Values(olds)[k := UpdateJob(Values(olds)[k], job.Value())])
      ensures Values(pushed) == old(Values(pushed)) && Values(jobs) == old(Values(jobs))
    {
      hide Values;
      ghost var was, from := Values(olds), job.Value();
      ValuesAt(olds);
      ValuesAt(pushed);
      ValuesAt(jobs);
      if found.DiffersFrom(job) {
        found.UpdateFrom(job);
      }
      ValuesAt(olds);
      ValuesAt(pushed);
      ValuesAt(jobs);
      assert Values(olds) == was[k := UpdateJob(was[k], from)];
    }

    /** The page in the middle of the loop: new jobs in front of the old ones, and the old ones that
        the server's list has not named yet by identifier. */
    ghost predicate Between(curJobs: map<string, PrintJobInfo>, pushed: seq<PrintJobInfo>,
                            olds: seq<PrintJobInfo>, places: map<string, nat>)
      reads this
    {
      && m_jobs == pushed + olds && NoRepeats(olds)
      && curJobs.Keys == places.Keys
      && forall id :: id in places ==> places[id] < |olds| && curJobs[id] == olds[places[id]]
    }

    /** One turn of the loop. */
    method VisitJob(job: PrintJobInfo, curJobs: map<string, PrintJobInfo>, ghost pushed: seq<PrintJobInfo>,
                    ghost olds: seq<PrintJobInfo>, ghost places: map<string, nat>, ghost jobs: seq<PrintJobInfo>)
      returns (rest: map<string, PrintJobInfo>, ghost pushed': seq<PrintJobInfo>, ghost places': map<string, nat>)
      requires Between(curJobs, pushed, olds, places) && Fits(Progress(Values(pushed), Values(olds), places))
      requires forall j :: j in olds ==> j !in pushed && j !in jobs
      modifies this, olds
      ensures Between(rest, pushed', olds, places')
      ensures Progress(Values(pushed'), Values(olds), places') ==
              Visit(old(Progress(Values(pushed), Values(olds), places)), old(job.Value()))
      ensures pushed' == pushed || pushed' == [job] + pushed
      ensures Values(jobs) == old(Values(jobs))
    {
      hide Visit, NoRepeats, UpdateJob, Fits, Values;
      VisitIs(Progress(Values(pushed), Values(olds), places), job.Value());
      if job.id !in curJobs {
        m_jobs := [job] + m_jobs;
        ValuesJoin([job], pushed);
        ValuesOne(job);
        assert [job] + (pushed + olds) == [job] + pushed + olds;
        return curJobs, [job] + pushed, places;
      } else {
        assert curJobs[job.id] in olds;
        UpdateFound(curJobs[job.id], job, olds, places[job.id], pushed, jobs);
        return curJobs - {job.id}, pushed, places - {job.id};
      }
    }

    /** The loop over the server's list, from its end. */
    method VisitJobs(jobs: seq<PrintJobInfo>)
      returns (curJobs: map<string, PrintJobInfo>, ghost pushed: seq<PrintJobInfo>, ghost places: map<string, nat>)
      requires NoRepeats(m_jobs) && NoRepeats(jobs) && forall j :: j in m_jobs ==> j !in jobs
      modifies this, m_jobs
      ensures Between(curJobs, pushed, old(m_jobs), places)
      ensures VisitAll(Begin(old(Values(m_jobs))), Values(jobs)) ==
              Progress(Values(pushed), Values(old(m_jobs)), places)
      ensures NoRepeats(pushed) && forall j :: j in pushed ==> j in jobs
      ensures Values(jobs) == old(Values(jobs))
    {
      hide Visit, VisitAll, FirstPlaces, NoRepeats, Values, Fits;
      ghost var olds, server := m_jobs, Values(jobs);
      ghost var begin := Begin(Values(m_jobs));
      ValuesAt(jobs);
      curJobs := CollectJobs();
      places := begin.places;
      pushed := [];
      NothingVisited(begin, server);
      var i := |jobs|;
      while i > 0
        modifies this, olds
        invariant 0 <= i <= |jobs| && Values(jobs) == server
        invariant Between(curJobs, pushed, olds, places)
        invariant VisitAll(begin, server[i..]) == Progress(Values(pushed), Values(olds), places)
        invariant NoRepeats(pushed) && forall j :: j in pushed ==> j in jobs[i..]
      {
        TailMembers(pushed, jobs, i);
        MembersInTail(pushed, jobs, i - 1);
        StillNoRepeatsInFront(pushed, jobs, i - 1);
        i := i - 1;
        VisitStep(begin, server, i);
        ValuesAt(jobs);
        curJobs, pushed, places := VisitJob(jobs[i], curJobs, pushed, olds, places, jobs);
      }
      assert server[0..] == server && jobs[0..] == jobs;
    }

    /** The server's list comes as new objects. Every job that stays is the object it was. */
    method UpdateContent(jobs: seq<PrintJobInfo>)
      requires NoRepeats(m_jobs + jobs)
      modifies this, m_jobs
      ensures Values(m_jobs) == Reconcile(old(Values(m_jobs)), Values(jobs))
      ensures NoRepeats(m_jobs) && forall j :: j in m_jobs ==> j in old(m_jobs) || j in jobs
      ensures Values(jobs) == old(Values(jobs))
    {
      hide VisitAll, NoRepeats, RemoveFirst, Values, Begin;
      ghost var olds := m_jobs;
      TwoLists(olds, jobs);
      var curJobs, pushed, places := VisitJobs(jobs);
      ValuesJoin(pushed, olds);
      JoinHasNoRepeats(pushed, olds, jobs);
      RemoveJobs(curJobs.Keys);
    }
  }

  lemma TailMembers(pushed: seq<PrintJobInfo>, jobs: seq<PrintJobInfo>, i: nat)
    requires i <= |jobs| && forall j :: j in pushed ==> j in jobs[i..]
    ensures forall j :: j in pushed ==> j in jobs
  {
  }

  lemma TwoLists(olds: seq<PrintJobInfo>, jobs: seq<PrintJobInfo>)
    requires NoRepeats(olds + jobs)
    ensures NoRepeats(olds) && NoRepeats(jobs)
    ensures forall j :: j in olds ==> j !in jobs
  {
    var all := olds + jobs;
    forall i, k | 0 <= i < k < |olds| ensures olds[i] != olds[k] {
      assert all[i] != all[k];
    }
    forall i, k | 0 <= i < k < |jobs| ensures jobs[i] != jobs[k] {
      assert all[|olds| + i] != all[|olds| + k];
    }
    forall i, k | 0 <= i < |olds| && 0 <= k < |jobs| ensures olds[i] != jobs[k] {
      assert all[i] != all[|olds| + k];
    }
  }

  lemma JoinHasNoRepeats(pushed: seq<PrintJobInfo>, olds: seq<PrintJobInfo>, jobs: seq<PrintJobInfo>)
    requires NoRepeats(pushed) && NoRepeats(olds)
    requires forall j :: j in pushed ==> j in jobs
    requires forall j :: j in olds ==> j !in jobs
    ensures NoRepeats(pushed + olds)
  {
    forall i, k | 0 <= i < |pushed| && 0 <= k < |olds| ensures pushed[i] != olds[k] {
      assert pushed[i] in jobs && olds[k] !in jobs;
    }
  }

  lemma NothingVisited(p: Progress, server: seq<Job>)
    requires Fits(p)
    ensures Values([]) == [] && NoRepeats<PrintJobInfo>([])
    ensures VisitAll(p, server[|server|..]) == p
  {
  }

  lemma StillNoRepeatsInFront<T>(pushed: seq<T>, all: seq<T>, i: nat)
    requires i < |all| && NoRepeats(all) && NoRepeats(pushed) && forall x :: x in pushed ==> x in all[i + 1..]
    ensures NoRepeats([all[i]] + pushed) && forall x :: x in [all[i]] + pushed ==> x in all[i..]
  {
    assert all[i..] == [all[i]] + all[i + 1..];
    assert all[i] !in all[i + 1..];
    var r := [all[i]] + pushed;
    forall a, b | 0 <= a < b < |r| ensures r[a] != r[b] {
      assert r[b] == pushed[b - 1] && pushed[b - 1] in pushed;
      if a > 0 {
        assert r[a] == pushed[a - 1];
      }
    }
  }

  lemma NothingKept(values: seq<Job>, keys: set<string>)
    ensures Values([]) == [] && NoRepeats<PrintJobInfo>([])
    ensures [] + RemoveFirst(values[0..], keys) == RemoveFirst(values, keys)
  {
    assert values[0..] == values;
  }

  lemma KeepOne(kept: seq<Job>, job: Job, rest: seq<Job>)
    ensures kept + ([job] + rest) == kept + [job] + rest
  {
  }

  lemma AllKept(kept: seq<Job>, values: seq<Job>, keys: set<string>)
    ensures kept + RemoveFirst(values[|values|..], keys) == kept
  {
  }

  lemma MembersInTail<T>(pushed: seq<T>, all: seq<T>, i: nat)
    requires i < |all| && forall x :: x in pushed ==> x in all[i + 1..]
    ensures forall x :: x in pushed ==> x in all[i..]
  {
    assert all[i..] == [all[i]] + all[i + 1..];
  }
}
