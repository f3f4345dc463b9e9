/** The asynchronous executor as a state machine: its state, its atomic steps, and what holds in
    every run. A step is what happens under one lock. */
module ExecutorModel {
  import opened IndexTypes
  import opened Sequences

  type RequestId = Text

  type Time = nat

  datatype Status = Pending | Running | Completed | Failed

  datatype Snapshot = Snapshot(id: RequestId, status: Status, result: Option<Text>, error: Option<Text>,
                               submittedAt: Time, startedAt: Option<Time>, finishedAt: Option<Time>)

  datatype Job = Job(id: RequestId, clientId: Text, query: Text)

  /** Where the worker thread is: waiting for work, between two locks of a job, or gone. */
  datatype Worker = Waiting | Popped(job: Job) | Busy(job: Job) | Exited

  /** What the query handler made of a query: its answer, or the message of its exception. */
  datatype Answer = Answered(text: Text) | Threw(message: Text)

  datatype State = State(queue: seq<Job>, snapshots: map<RequestId, Snapshot>, stop: bool, worker: Worker,
                         maxStored: nat)

  datatype Event =
    | Submit(job: Job, now: Time)
    | Pop
    | Start(now: Time)
    | Finish(answer: Answer, now: Time)
    | Stop
    | Exit

  predicate Terminal(status: Status) {
    status == Completed || status == Failed
  }

  // ----- steps -----

  /** A finished snapshot that no other finished one is older than. */
  ghost predicate OldestFinished(snapshots: map<RequestId, Snapshot>, id: RequestId) {
    && id in snapshots && Terminal(snapshots[id].status)
    && forall other :: other in snapshots && Terminal(snapshots[other].status)
                       && snapshots[other].finishedAt.Some? && snapshots[id].finishedAt.Some?
         ==> snapshots[id].finishedAt.value <= snapshots[other].finishedAt.value
  }

  ghost predicate Pruned(before: map<RequestId, Snapshot>, maxStored: nat, after: map<RequestId, Snapshot>) {
    if |before| < maxStored || forall id :: id in before ==> !Terminal(before[id].status) then after == before
    else exists id :: OldestFinished(before, id) && after == before - {id}
  }

  /** The snapshot of id with a new status, as it is written: created if there is none. */
  function Updated(snapshots: map<RequestId, Snapshot>, id: RequestId, status: Status, result: Option<Text>,
                   error: Option<Text>,
                   startedAt: Option<Time>, finishedAt: Option<Time>): map<RequestId, Snapshot>
  {
    var old' := if id in snapshots then snapshots[id] else Snapshot([], Pending, None, None, 0, None, None);
    snapshots[id := old'.(id := id, status := status, result := result, error := error,
                          startedAt := if startedAt.Some? then startedAt else old'.startedAt,
                          finishedAt := if finishedAt.Some? then finishedAt else old'.finishedAt)]
  }

  function Finished(snapshots: map<RequestId, Snapshot>, id: RequestId, answer: Answer, now: Time):
    map<RequestId, Snapshot>
  {
    if answer.Answered? then Updated(snapshots, id, Completed, Some(answer.text), None, None, Some(now))
    else Updated(snapshots, id, Failed, None, Some(answer.message), None, Some(now))
  }

  ghost predicate Next(s: State, e: Event, s': State) {
    match e
    case Submit(job, now) =>
      && (exists kept :: Pruned(s.snapshots, s.maxStored, kept)
                         && s'.snapshots == kept[job.id := Snapshot(job.id, Pending, None, None, now, None, None)])
      && s' == s.(snapshots := s'.snapshots, queue := s.queue + [job])
    case Pop =>
      s.worker.Waiting? && s.queue != [] && s' == s.(worker := Popped(s.queue[0]), queue := s.queue[1..])
    case Start(now) =>
      s.worker.Popped? && s' == s.(worker := Busy(s.worker.job),
                                   snapshots := Updated(s.snapshots, s.worker.job.id, Running, None, None, Some(now),
                                                        None))
    case Finish(answer, now) =>
      s.worker.Busy? && s' == s.(worker := Waiting, snapshots := Finished(s.snapshots, s.worker.job.id, answer, now))
    case Stop =>
      s' == s.(stop := true)
    case Exit =>
      s.worker.Waiting? && s.stop && s.queue == [] && s' == s.(worker := Exited)
  }

  // ----- history -----

  /** What has happened: all submissions, all completions with their snapshots, the time of the last
      completion, and the most requests that were ever unfinished together. */
  datatype History = History(submitted: seq<RequestId>, done: seq<RequestId>, results: map<RequestId, Snapshot>,
                             clock: Time, peak: int)

  /** Request ids are fresh, nobody submits to an executor that is being destroyed, and finish times
      increase. */
  ghost predicate Admissible(s: State, h: History, e: Event) {
    && (e.Submit? ==> e.job.id !in h.submitted && !s.stop)
    && (e.Finish? ==> e.now > h.clock)
  }

  function Max(a: int, b: int): int {
    if a < b then b else a
  }

  ghost function Recorded(h: History, s: State, e: Event): History {
    match e
    case Submit(job, now) =>
      h.(submitted := h.submitted + [job.id], peak := Max(h.peak, |h.submitted| + 1 - |h.done|))
    case Finish(answer, now) =>
      if s.worker.Busy? then
        var id := s.worker.job.id;
        h.(done := h.done + [id], results := h.results[id := Finished(s.snapshots, id, answer, now)[id]], clock := now)
      else h
    case _ => h
  }

  function JobIds(jobs: seq<Job>): (ids: seq<RequestId>)
    ensures |ids| == |jobs| && forall i :: 0 <= i < |jobs| ==> ids[i] == jobs[i].id
  {
    seq(|jobs|, i requires 0 <= i < |jobs| => jobs[i].id)
  }

  /** The job that has left the queue and is not finished. */
  function InFlight(w: Worker): seq<RequestId> {
    if w.Popped? || w.Busy? then [w.job.id] else []
  }

  ghost predicate NoRepeats(ids: seq<RequestId>) {
    forall i, j :: 0 <= i < j < |ids| ==> ids[i] != ids[j]
  }

  /** How many submissions have been forgotten. */
  ghost function Forgotten(s: State, h: History): int {
    |h.submitted| - |s.snapshots|
  }

  // ----- the invariant -----

  /** Submissions are, in order: the finished ones, the one in flight, the queued ones. */
  ghost predicate Ordered(s: State, h: History) {
    && NoRepeats(h.submitted)
    && h.submitted == h.done + InFlight(s.worker) + JobIds(s.queue)
  }

  /** The snapshots are those of the last submissions, including all that are not finished. */
  ghost predicate Retained(s: State, h: History) {
    && 0 <= Forgotten(s, h) <= |h.done|
    && (forall id :: id in s.snapshots <==> id in h.submitted[Forgotten(s, h)..])
    && |s.snapshots| <= Max(s.maxStored, h.peak) && (Forgotten(s, h) > 0 ==> |s.snapshots| >= s.maxStored)
    && |h.submitted| - |h.done| <= h.peak
  }

  ghost predicate StatusesRight(s: State, h: History) {
    && (forall job :: job in s.queue ==> job.id in s.snapshots && s.snapshots[job.id].status == Pending)
    && (s.worker.Popped? ==> s.worker.job.id in s.snapshots && s.snapshots[s.worker.job.id].status == Pending)
    && (s.worker.Busy? ==> s.worker.job.id in s.snapshots && s.snapshots[s.worker.job.id].status == Running)
    && (forall i :: 0 <= i < |h.done| && h.done[i] in s.snapshots ==> s.snapshots[h.done[i]] == Result(h, i))
  }

  ghost function Result(h: History, i: nat): Snapshot
    requires i < |h.done|
  {
    if h.done[i] in h.results then h.results[h.done[i]] else Snapshot([], Pending, None, None, 0, None, None)
  }

  ghost predicate ResultsRight(h: History) {
    && (forall i :: 0 <= i < |h.done| ==>
           Terminal(Result(h, i).status) && Result(h, i).finishedAt.Some? && Result(h, i).finishedAt.value <= h.clock)
    && (forall i, j :: 0 <= i < j < |h.done| ==> Result(h, i).finishedAt.value < Result(h, j).finishedAt.value)
    && (forall id :: id in h.results ==> id in h.done)
  }

  ghost predicate Inv(s: State, h: History) {
    && Ordered(s, h) && Retained(s, h) && StatusesRight(s, h) && ResultsRight(h)
    && (s.worker.Exited? ==> s.stop && s.queue == [])
  }

  ghost predicate Initial(s: State, h: History) {
    && s.queue == [] && s.snapshots == map[] && !s.stop && s.worker == Waiting
    && h == History([], [], map[], 0, 0)
  }

  lemma InitialInv(s: State, h: History)
    requires Initial(s, h)
    ensures Inv(s, h)
  {
  }

  // ----- each step keeps it -----

  lemma DoneFirst(s: State, h: History, i: nat)
    requires Ordered(s, h) && i < |h.done|
    ensures |h.done| <= |h.submitted| && h.submitted[i] == h.done[i]
    ensures h.done[i] !in JobIds(s.queue) && h.done[i] !in InFlight(s.worker)
  {
    var rest := InFlight(s.worker) + JobIds(s.queue);
    assert h.submitted == h.done + rest;
    assert forall j :: 0 <= j < |rest| ==> h.submitted[|h.done| + j] == rest[j];
    forall id | id in JobIds(s.queue) || id in InFlight(s.worker) ensures id != h.done[i] {
      assert id in rest;
      var j :| 0 <= j < |rest| && rest[j] == id;
      assert h.submitted[|h.done| + j] == id;
    }
  }

  /** Where a stored request is among the submissions. */
  lemma Place(s: State, h: History, id: RequestId) returns (j: nat)
    requires Retained(s, h) && id in s.snapshots
    ensures Forgotten(s, h) <= j < |h.submitted| && h.submitted[j] == id
  {
    var tail := h.submitted[Forgotten(s, h)..];
    var i :| 0 <= i < |tail| && tail[i] == id;
    j := Forgotten(s, h) + i;
  }

  lemma StillOpen(s: State, h: History, j: nat)
    requires Ordered(s, h) && |h.done| <= j < |h.submitted|
    ensures h.submitted[j] in JobIds(s.queue) || h.submitted[j] in InFlight(s.worker)
  {
    assert h.submitted[j] == (InFlight(s.worker) + JobIds(s.queue))[j - |h.done|];
  }

  lemma OpenNotTerminal(s: State, h: History, id: RequestId)
    requires StatusesRight(s, h) && (id in JobIds(s.queue) || id in InFlight(s.worker))
    ensures id in s.snapshots && !Terminal(s.snapshots[id].status)
  {
    if id in JobIds(s.queue) {
      var q :| 0 <= q < |s.queue| && JobIds(s.queue)[q] == id;
      assert s.queue[q] in s.queue;
    }
  }

  /** A stored snapshot is terminal exactly if its request is done. */
  lemma TerminalIsDone(s: State, h: History, id: RequestId) returns (j: nat)
    requires Inv(s, h) && id in s.snapshots
    ensures Forgotten(s, h) <= j < |h.submitted| && h.submitted[j] == id
    ensures Terminal(s.snapshots[id].status) <==> j < |h.done|
    ensures j < |h.done| ==> h.done[j] == id && s.snapshots[id] == Result(h, j)
    ensures j >= |h.done| ==> (id in JobIds(s.queue) || id in InFlight(s.worker)) && id !in h.done
  {
    j := Place(s, h, id);
    if j < |h.done| {
      DoneFirst(s, h, j);
      assert s.snapshots[h.done[j]] == Result(h, j);
    } else {
      StillOpen(s, h, j);
      OpenNotTerminal(s, h, id);
      if i :| 0 <= i < |h.done| && h.done[i] == id {
        DoneFirst(s, h, i);
        assert false;
      }
    }
  }

  /** What pruning removes is the first submission that is still there, if it is finished. */
  lemma PruneFirst(s: State, h: History, after: map<RequestId, Snapshot>)
    requires Inv(s, h) && Pruned(s.snapshots, s.maxStored, after)
    ensures var k := Forgotten(s, h);
            if |s.snapshots| < s.maxStored || k == |h.done| then after == s.snapshots
            else
              && k < |h.submitted| && h.submitted[k] == h.done[k]
              && after == s.snapshots - {h.done[k]} && |after| == |s.snapshots| - 1
  {
    var k := Forgotten(s, h);
    if k == |h.done| {
      forall id | id in s.snapshots ensures !Terminal(s.snapshots[id].status) {
        var j := TerminalIsDone(s, h, id);
      }
    } else if |s.snapshots| >= s.maxStored {
      var first := FirstStored(s, h);
      var id :| OldestFinished(s.snapshots, id) && after == s.snapshots - {id};
      var i := TerminalIsDone(s, h, id);
      hide Ordered, Retained, StatusesRight;
      assert i == k;
      Without(s.snapshots, id);
    }
  }

  lemma Without(m: map<RequestId, Snapshot>, id: RequestId)
    requires id in m
    ensures |m - {id}| == |m| - 1
  {
    assert (m - {id}).Keys == m.Keys - {id};
  }

  lemma FirstStored(s: State, h: History) returns (first: RequestId)
    requires Inv(s, h) && Forgotten(s, h) < |h.done|
    ensures var k := Forgotten(s, h);
            && k < |h.submitted| && h.submitted[k] == h.done[k] == first
            && first in s.snapshots && s.snapshots[first] == Result(h, k) && Terminal(s.snapshots[first].status)
  {
    var k := Forgotten(s, h);
    DoneFirst(s, h, k);
    first := h.done[k];
    assert h.submitted[k..][0] == first;
  }

  /** One step: the invariant is kept, no request comes back, and no result changes. */
  lemma StepKeeps(s: State, h: History, e: Event, s': State)
    requires Inv(s, h) && Admissible(s, h, e) && Next(s, e, s')
    ensures Inv(s', Recorded(h, s, e))
    ensures Forgotten(s, h) <= Forgotten(s', Recorded(h, s, e)) && s'.maxStored == s.maxStored
  {
    match e {
      case Submit(job, now) => SubmitKeeps(s, h, job, now, s');
      case Pop => PopKeeps(s, h, s');
      case Start(now) => StartKeeps(s, h, now, s');
      case Finish(answer, now) => FinishKeeps(s, h, answer, now, s');
      case Stop =>
      case Exit =>
    }
  }

  lemma SubmitKeeps(s: State, h: History, job: Job, now: Time, s': State)
    requires Inv(s, h) && Admissible(s, h, Submit(job, now)) && Next(s, Submit(job, now), s')
    ensures Inv(s', Recorded(h, s, Submit(job, now)))
    ensures Forgotten(s, h) <= Forgotten(s', Recorded(h, s, Submit(job, now)))
  {
    hide Ordered, Retained, StatusesRight, ResultsRight, Pruned;
    var h' := Recorded(h, s, Submit(job, now));
    var kept :| Pruned(s.snapshots, s.maxStored, kept)
                && s'.snapshots == kept[job.id := Snapshot(job.id, Pending, None, None, now, None, None)];
    DoneWithin(s, h);
    SubmitOrdered(s, h, job, s', h');
    SubmitRetained(s, h, job, kept, s'.snapshots[job.id], s', h');
    SubmitStatuses(s, h, job, kept, s'.snapshots[job.id], s', h');
    ResultsSame(h, h');
  }

  lemma DoneWithin(s: State, h: History)
    requires Ordered(s, h)
    ensures |h.done| + |InFlight(s.worker)| + |s.queue| == |h.submitted|
  {
  }

  lemma Added(m: map<RequestId, Snapshot>, id: RequestId, x: Snapshot)
    requires id !in m
    ensures |m[id := x]| == |m| + 1
  {
    assert m[id := x].Keys == m.Keys + {id};
  }

  lemma NewIdNotStored(s: State, h: History, id: RequestId)
    requires Retained(s, h) && id !in h.submitted
    ensures id !in s.snapshots
  {
  }

  lemma SubmitOrdered(s: State, h: History, job: Job, s': State, h': History)
    requires Ordered(s, h) && job.id !in h.submitted
    requires s'.queue == s.queue + [job] && s'.worker == s.worker
    requires h'.submitted == h.submitted + [job.id] && h'.done == h.done
    ensures Ordered(s', h')
  {
    assert JobIds(s.queue + [job]) == JobIds(s.queue) + [job.id];
    hide JobIds, InFlight;
    NoRepeatsMore(h.submitted, job.id);
  }

  lemma NoRepeatsMore(ids: seq<RequestId>, id: RequestId)
    requires NoRepeats(ids) && id !in ids
    ensures NoRepeats(ids + [id])
  {
  }

  lemma SubmitRetained(s: State, h: History, job: Job, kept: map<RequestId, Snapshot>, x: Snapshot, s': State,
                       h': History)
    requires Inv(s, h) && Pruned(s.snapshots, s.maxStored, kept) && job.id !in h.submitted
    requires s'.snapshots == kept[job.id := x] && s'.maxStored == s.maxStored
    requires h'.submitted == h.submitted + [job.id] && h'.done == h.done && |h.done| <= |h.submitted|
    requires h'.peak == Max(h.peak, |h.submitted| + 1 - |h.done|)
    ensures Retained(s', h') && Forgotten(s, h) <= Forgotten(s', h')
  {
    hide Ordered, Retained, StatusesRight, ResultsRight, Pruned, Inv;
    InvRetained(s, h);
    NewIdNotStored(s, h, job.id);
    var n := KeptTail(s, h, kept);
    hide Max;
    RetainedMore(s.maxStored, h, job.id, kept, x, s', h', n);
  }

  lemma RetainedMore(maxStored: nat, h: History, id: RequestId, kept: map<RequestId, Snapshot>, x: Snapshot, s': State,
                     h': History, n: nat)
    requires n <= |h.done| <= |h.submitted| && |kept| == |h.submitted| - n && id !in kept
    requires forall y :: y in kept <==> y in h.submitted[n..]
    requires |kept| < maxStored || n == |h.done| || (n > 0 && |kept| + 1 <= Max(maxStored, h.peak))
    requires (n > 0 ==> |kept| + 1 >= maxStored) && |h.submitted| - |h.done| <= h.peak
    requires s'.snapshots == kept[id := x] && s'.maxStored == maxStored
    requires h'.submitted == h.submitted + [id] && h'.done == h.done
    requires h'.peak == Max(h.peak, |h.submitted| + 1 - |h.done|)
    ensures Retained(s', h') && Forgotten(s', h') == n
  {
    hide Retained, Max;
    Added(kept, id, x);
    TailGrows(h.submitted, n, kept, id, x);
    PeakHolds(|kept|, n, |h.done|, |h.submitted|, maxStored, h.peak, h'.peak);
    RetainedAgain(s', h', n);
  }

  lemma PeakHolds(kept: nat, n: nat, done: nat, submitted: nat, maxStored: nat, peak: int, peak': int)
    requires kept == submitted - n && peak' == Max(peak, submitted + 1 - done) && submitted - done <= peak
    requires kept < maxStored || n == done || (n > 0 && kept + 1 <= Max(maxStored, peak))
    ensures kept + 1 <= Max(maxStored, peak') && submitted + 1 - done <= peak'
  {
  }

  lemma InvRetained(s: State, h: History)
    requires Inv(s, h)
    ensures Retained(s, h)
  {
  }

  /** What is stored after pruning: the submissions from n on. */
  lemma KeptTail(s: State, h: History, kept: map<RequestId, Snapshot>) returns (n: nat)
    requires Inv(s, h) && Pruned(s.snapshots, s.maxStored, kept)
    ensures Forgotten(s, h) <= n <= |h.done| <= |h.submitted| && |kept| == |h.submitted| - n
    ensures forall id :: id in kept <==> id in h.submitted[n..]
    ensures forall id :: id in kept ==> id in s.snapshots
    ensures |kept| < s.maxStored || n == |h.done| || (n > 0 && |kept| + 1 <= Max(s.maxStored, h.peak))
    ensures n > 0 ==> |kept| + 1 >= s.maxStored
    ensures |h.submitted| - |h.done| <= h.peak
  {
    hide Ordered, Retained, StatusesRight, ResultsRight, Pruned;
    PruneFirst(s, h, kept);
    RetainedParts(s, h);
    hide Inv;
    var k := Forgotten(s, h);
    n := if |kept| == |s.snapshots| then k else k + 1;
    if n > k {
      TailWithout(h.submitted, k, s.snapshots, kept);
    }
  }

  lemma TailGrows(ids: seq<RequestId>, n: nat, before: map<RequestId, Snapshot>, id: RequestId, x: Snapshot)
    requires n <= |ids| && forall y :: y in before <==> y in ids[n..]
    ensures forall y :: y in before[id := x] <==> y in (ids + [id])[n..]
  {
    assert (ids + [id])[n..] == ids[n..] + [id];
  }

  lemma RetainedParts(s: State, h: History)
    requires Retained(s, h) && Ordered(s, h)
    ensures 0 <= Forgotten(s, h) <= |h.done| <= |h.submitted| && NoRepeats(h.submitted)
    ensures forall id :: id in s.snapshots <==> id in h.submitted[Forgotten(s, h)..]
    ensures |s.snapshots| <= Max(s.maxStored, h.peak) && |h.submitted| - |h.done| <= h.peak
    ensures Forgotten(s, h) > 0 ==> |s.snapshots| >= s.maxStored
  {
  }

  lemma RetainedAgain(s: State, h: History, n: nat)
    requires n == Forgotten(s, h) && n <= |h.done| && n <= |h.submitted|
    requires forall id :: id in s.snapshots <==> id in h.submitted[n..]
    requires |s.snapshots| <= Max(s.maxStored, h.peak) && |h.submitted| - |h.done| <= h.peak
    requires n > 0 ==> |s.snapshots| >= s.maxStored
    ensures Retained(s, h)
  {
  }

  /** Forgetting the first stored submission. */
  lemma TailWithout(ids: seq<RequestId>, k: nat, before: map<RequestId, Snapshot>, after: map<RequestId, Snapshot>)
    requires NoRepeats(ids) && k < |ids| && (forall id :: id in before <==> id in ids[k..])
             && after == before - {ids[k]}
    ensures forall id :: id in after <==> id in ids[k + 1..]
  {
    assert ids[k..] == [ids[k]] + ids[k + 1..];
    assert ids[k] !in ids[k + 1..];
  }

  lemma SubmitStatuses(s: State, h: History, job: Job, kept: map<RequestId, Snapshot>, x: Snapshot, s': State,
                       h': History)
    requires Inv(s, h) && Pruned(s.snapshots, s.maxStored, kept) && job.id !in h.submitted && h'.done == h.done
             && h'.results == h.results
    requires s'.snapshots == kept[job.id := x] && x.status == Pending
    requires s'.queue == s.queue + [job] && s'.worker == s.worker
    ensures StatusesRight(s', h')
  {
    hide Ordered, Retained, ResultsRight, Pruned, JobIds;
    OpenSubmitted(s, h);
    QueueIds(s.queue);
    InFlightIds(s.worker);
    DoneNotNew(s, h, job.id);
    PrunedWithin(s.snapshots, s.maxStored, kept);
    forall id | id in JobIds(s.queue) || id in InFlight(s.worker) ensures id in kept && id != job.id {
      OpenNotTerminal(s, h, id);
      OpenKept(s, h, kept, id);
    }
    hide Inv, Terminal, InFlight;
    forall i | 0 <= i < |h'.done| && h'.done[i] in s'.snapshots ensures s'.snapshots[h'.done[i]] == Result(h', i) {
      assert h.done[i] != job.id && h.done[i] in kept;
    }
  }

  lemma PrunedWithin(before: map<RequestId, Snapshot>, maxStored: nat, after: map<RequestId, Snapshot>)
    requires Pruned(before, maxStored, after)
    ensures forall id :: id in after ==> id in before && after[id] == before[id]
  {
  }

  lemma InFlightIds(w: Worker)
    ensures w.Popped? || w.Busy? ==> w.job.id in InFlight(w)
  {
  }

  lemma DoneNotNew(s: State, h: History, id: RequestId)
    requires Ordered(s, h) && id !in h.submitted
    ensures forall i :: 0 <= i < |h.done| ==> h.done[i] != id
  {
    forall i | 0 <= i < |h.done| ensures h.done[i] != id {
      DoneFirst(s, h, i);
    }
  }

  lemma OpenSubmitted(s: State, h: History)
    requires Ordered(s, h)
    ensures forall id :: id in JobIds(s.queue) || id in InFlight(s.worker) ==> id in h.submitted
  {
  }

  /** Pruning never removes an unfinished request. */
  lemma OpenKept(s: State, h: History, kept: map<RequestId, Snapshot>, id: RequestId)
    requires Pruned(s.snapshots, s.maxStored, kept) && id in s.snapshots && !Terminal(s.snapshots[id].status)
    ensures id in kept && kept[id] == s.snapshots[id]
  {
  }

  lemma ResultsSame(h: History, h': History)
    requires ResultsRight(h) && h'.done == h.done && h'.results == h.results && h'.clock == h.clock
    ensures ResultsRight(h')
  {
    assert forall i :: 0 <= i < |h.done| ==> Result(h', i) == Result(h, i);
  }

  lemma PopKeeps(s: State, h: History, s': State)
    requires Inv(s, h) && Next(s, Pop, s')
    ensures Inv(s', h) && Forgotten(s', h) == Forgotten(s, h)
  {
    hide Ordered, Retained, StatusesRight, ResultsRight;
    PopOrdered(s, h, s');
    PopStatuses(s, h, s');
    RetainedSame(s, h, s');
  }

  lemma PopOrdered(s: State, h: History, s': State)
    requires Ordered(s, h) && s.worker.Waiting? && s.queue != [] && s'.queue == s.queue[1..]
             && s'.worker == Popped(s.queue[0])
    ensures Ordered(s', h)
  {
    var first, rest := [s.queue[0].id], JobIds(s.queue[1..]);
    assert JobIds(s.queue) == first + rest && InFlight(s.worker) == [] && InFlight(s'.worker) == first;
    hide NoRepeats, JobIds, InFlight;
    assert h.done + [] == h.done;
    ConcatAssociative(h.done, first, rest);
  }

  lemma PopStatuses(s: State, h: History, s': State)
    requires StatusesRight(s, h) && s.queue != [] && s'.queue == s.queue[1..] && s'.worker == Popped(s.queue[0])
    requires s'.snapshots == s.snapshots
    ensures StatusesRight(s', h)
  {
    assert s.queue[0] in s.queue;
  }

  /** Steps that leave submissions and the set of stored requests alone. */
  lemma RetainedSame(s: State, h: History, s': State)
    requires Retained(s, h) && s'.snapshots.Keys == s.snapshots.Keys && s'.maxStored == s.maxStored
    ensures Retained(s', h) && Forgotten(s', h) == Forgotten(s, h)
  {
    assert |s'.snapshots| == |s'.snapshots.Keys|;
    assert |s.snapshots| == |s.snapshots.Keys|;
  }

  /** The snapshot of the job in flight is still there when it is updated. */
  lemma InFlightStored(s: State, h: History)
    requires Inv(s, h) && (s.worker.Popped? || s.worker.Busy?)
    ensures s.worker.job.id in s.snapshots && (forall i :: 0 <= i < |h.done| ==> h.done[i] != s.worker.job.id)
    ensures s.worker.job.id !in JobIds(s.queue)
    ensures |h.done| < |h.submitted| && h.submitted[|h.done|] == s.worker.job.id
  {
    hide Retained, ResultsRight;
    InFlightFirst(h.submitted, h.done, s.worker.job.id, JobIds(s.queue));
  }

  lemma InFlightFirst(ids: seq<RequestId>, before: seq<RequestId>, id: RequestId, after: seq<RequestId>)
    requires NoRepeats(ids) && ids == before + [id] + after
    ensures |before| < |ids| && ids[|before|] == id && (forall i :: 0 <= i < |before| ==> before[i] != id)
            && id !in after
  {
    assert ids[|before|] == id;
    forall i | 0 <= i < |before| ensures before[i] != id {
      assert ids[i] == before[i];
    }
    forall i | 0 <= i < |after| ensures after[i] != id {
      assert ids[|before| + 1 + i] == after[i];
    }
  }

  lemma StartKeeps(s: State, h: History, now: Time, s': State)
    requires Inv(s, h) && Next(s, Start(now), s')
    ensures Inv(s', h) && Forgotten(s', h) == Forgotten(s, h) && s'.snapshots.Keys == s.snapshots.Keys
  {
    hide Ordered, Retained, StatusesRight, ResultsRight, JobIds;
    InFlightStored(s, h);
    assert s'.snapshots.Keys == s.snapshots.Keys;
    RetainedSame(s, h, s');
    StartOrdered(s, h, s');
    StartStatuses(s, h, s.worker.job.id, s'.snapshots[s.worker.job.id], s');
  }

  lemma StartOrdered(s: State, h: History, s': State)
    requires Ordered(s, h) && s'.queue == s.queue && InFlight(s'.worker) == InFlight(s.worker)
    ensures Ordered(s', h)
  {
  }

  lemma StartStatuses(s: State, h: History, id: RequestId, x: Snapshot, s': State)
    requires StatusesRight(s, h) && s.worker.Popped? && s.worker.job.id == id && s'.worker == Busy(s.worker.job)
    requires s'.queue == s.queue && s'.snapshots == s.snapshots[id := x] && x.status == Running
    requires id !in JobIds(s.queue) && forall i :: 0 <= i < |h.done| ==> h.done[i] != id
    ensures StatusesRight(s', h)
  {
    QueueIds(s.queue);
    hide JobIds, Result;
  }

  lemma QueueIds(queue: seq<Job>)
    ensures forall job :: job in queue ==> job.id in JobIds(queue)
  {
    forall job | job in queue ensures job.id in JobIds(queue) {
      var q :| 0 <= q < |queue| && queue[q] == job;
      assert JobIds(queue)[q] == job.id;
    }
  }

  lemma FinishKeeps(s: State, h: History, answer: Answer, now: Time, s': State)
    requires Inv(s, h) && Admissible(s, h, Finish(answer, now)) && Next(s, Finish(answer, now), s')
    ensures var h' := Recorded(h, s, Finish(answer, now));
            Inv(s', h') && Forgotten(s', h') == Forgotten(s, h) && s'.snapshots.Keys == s.snapshots.Keys
  {
    var h' := Recorded(h, s, Finish(answer, now));
    hide Ordered, Retained, StatusesRight, ResultsRight, JobIds;
    InFlightStored(s, h);
    var id := s.worker.job.id;
    assert s'.snapshots.Keys == s.snapshots.Keys;
    FinishResults(h, id, s'.snapshots[id], now, h');
    FinishOrdered(s, h, s', h');
    FinishRetained(s, h, s', h');
    FinishStatuses(s, h, id, s'.snapshots[id], s', h');
  }

  lemma FinishOrdered(s: State, h: History, s': State, h': History)
    requires Ordered(s, h) && s.worker.Busy? && s'.queue == s.queue && s'.worker == Waiting
    requires h'.submitted == h.submitted && h'.done == h.done + [s.worker.job.id]
    ensures Ordered(s', h')
  {
    hide NoRepeats, JobIds;
  }

  lemma FinishRetained(s: State, h: History, s': State, h': History)
    requires Ordered(s, h) && Retained(s, h) && s'.snapshots.Keys == s.snapshots.Keys && s'.maxStored == s.maxStored
    requires h'.submitted == h.submitted && |h'.done| == |h.done| + 1 && h'.peak == h.peak
    ensures Retained(s', h') && Forgotten(s', h') == Forgotten(s, h)
  {
    RetainedSame(s, h, s');
    RetainedParts(s, h);
    hide Retained, Ordered, NoRepeats;
    RetainedAgain(s', h', Forgotten(s, h));
  }

  lemma FinishStatuses(s: State, h: History, id: RequestId, x: Snapshot, s': State, h': History)
    requires StatusesRight(s, h) && s.worker.Busy? && s'.worker == Waiting && s'.queue == s.queue
             && s'.snapshots == s.snapshots[id := x]
    requires id !in JobIds(s.queue) && (forall i :: 0 <= i < |h.done| ==> h.done[i] != id)
    requires h'.done == h.done + [id] && Result(h', |h.done|) == x && forall i :: 0 <= i < |h.done| ==>
               Result(h', i) == Result(h, i)
    ensures StatusesRight(s', h')
  {
    QueueIds(s.queue);
    hide JobIds, Result;
  }

  lemma FinishResults(h: History, id: RequestId, x: Snapshot, now: Time, h': History)
    requires ResultsRight(h) && (forall i :: 0 <= i < |h.done| ==> h.done[i] != id) && now > h.clock
    requires h'.done == h.done + [id] && h'.results == h.results[id := x] && h'.clock == now
    requires Terminal(x.status) && x.finishedAt == Some(now)
    ensures ResultsRight(h') && Result(h', |h.done|) == x
    ensures forall i :: 0 <= i < |h.done| ==> Result(h', i) == Result(h, i)
  {
    assert forall i :: 0 <= i < |h.done| ==> Result(h', i) == Result(h, i);
  }

  // ----- runs -----

  /** Any interleaving of submitters, worker and destructor. */
  ghost predicate Run(ss: seq<State>, hs: seq<History>, es: seq<Event>) {
    && |ss| == |hs| == |es| + 1 && Initial(ss[0], hs[0])
    && forall i :: 0 <= i < |es| ==> StepOf(ss, hs, es, i)
  }

  ghost predicate StepOf(ss: seq<State>, hs: seq<History>, es: seq<Event>, i: nat)
    requires |ss| == |hs| == |es| + 1 && i < |es|
  {
    Admissible(ss[i], hs[i], es[i]) && Next(ss[i], es[i], ss[i + 1]) && hs[i + 1] == Recorded(hs[i], ss[i], es[i])
  }

  /** The run ends in the state s. */
  ghost predicate RunTo(ss: seq<State>, hs: seq<History>, es: seq<Event>, s: State): (r: bool)
    ensures r ==> |ss| == |es| + 1
  {
    Run(ss, hs, es) && ss[|es|] == s
  }

  lemma {:induction false} Always(ss: seq<State>, hs: seq<History>, es: seq<Event>, i: nat)
    requires Run(ss, hs, es) && i <= |es|
    ensures Inv(ss[i], hs[i])
  {
    hide Inv, Next, Admissible;
    if i == 0 {
      InitialInv(ss[0], hs[0]);
    } else {
      Always(ss, hs, es, i - 1);
      OneStep(ss, hs, es, i - 1);
      StepKeeps(ss[i - 1], hs[i - 1], es[i - 1], ss[i]);
    }
  }

  /** Submissions, completions, results and forgetting only ever grow. */
  ghost predicate Grows(s: State, h: History, s': State, h': History) {
    && h.submitted <= h'.submitted && h.done <= h'.done && Forgotten(s, h) <= Forgotten(s', h')
    && forall i :: 0 <= i < |h.done| ==> Result(h', i) == Result(h, i)
  }

  lemma StepGrows(s: State, h: History, e: Event, s': State)
    requires Inv(s, h) && Admissible(s, h, e) && Next(s, e, s')
    ensures Grows(s, h, s', Recorded(h, s, e))
  {
    hide Ordered, Retained, StatusesRight, ResultsRight, Pruned, JobIds;
    StepKeeps(s, h, e, s');
    if e.Finish? {
      InFlightStored(s, h);
      hide Inv;
      FinishResults(h, s.worker.job.id, s'.snapshots[s.worker.job.id], e.now, Recorded(h, s, e));
    }
  }

  lemma {:induction false} GrowsOver(ss: seq<State>, hs: seq<History>, es: seq<Event>, i: nat, j: nat)
    requires Run(ss, hs, es) && i <= j <= |es|
    ensures |ss| == |hs| == |es| + 1 && Grows(ss[i], hs[i], ss[j], hs[j])
  {
    if i == j {
      GrowsSelf(ss[i], hs[i]);
    } else {
      hide Run, Inv, Grows, Next, Admissible, Recorded;
      var k := j - 1;
      GrowsOver(ss, hs, es, i, k);
      Always(ss, hs, es, k);
      OneStep(ss, hs, es, k);
      StepGrows(ss[k], hs[k], es[k], ss[j]);
      GrowsOn(ss[i], hs[i], ss[k], hs[k], ss[j], hs[j]);
    }
  }

  lemma OneStep(ss: seq<State>, hs: seq<History>, es: seq<Event>, k: nat)
    requires Run(ss, hs, es) && k < |es|
    ensures Admissible(ss[k], hs[k], es[k]) && Next(ss[k], es[k], ss[k + 1])
            && hs[k + 1] == Recorded(hs[k], ss[k], es[k])
  {
    assert StepOf(ss, hs, es, k);
  }

  lemma GrowsSelf(s: State, h: History)
    ensures Grows(s, h, s, h)
  {
  }

  lemma GrowsOn(s: State, h: History, s': State, h': History, t: State, g: History)
    requires Grows(s, h, s', h') && Grows(s', h', t, g)
    ensures Grows(s, h, t, g)
  {
    hide Result, Forgotten;
    assert forall n :: 0 <= n < |h.done| ==> Result(h', n) == Result(h, n);
  }

  /** In every run: the unfinished requests are the queued ones, all pending, and at most one more
      in flight; requests finish in the order of their submission. */
  lemma UnfinishedExactly(ss: seq<State>, hs: seq<History>, es: seq<Event>, i: nat, id: RequestId)
    requires Run(ss, hs, es) && i <= |es|
    ensures var s, h := ss[i], hs[i];
            && (id in s.snapshots && !Terminal(s.snapshots[id].status) <==>
                  id in JobIds(s.queue) || id in InFlight(s.worker))
            && (id in JobIds(s.queue) ==> s.snapshots[id].status == Pending)
            && h.done <= h.submitted && h.submitted[|h.done|..] == InFlight(s.worker) + JobIds(s.queue)
               && |InFlight(s.worker)| <= 1
  {
    Always(ss, hs, es, i);
    hide Run;
    OpenExactly(ss[i], hs[i], id);
    OpenTail(ss[i], hs[i]);
  }

  lemma OpenExactly(s: State, h: History, id: RequestId)
    requires Inv(s, h)
    ensures id in s.snapshots && !Terminal(s.snapshots[id].status) <==>
              id in JobIds(s.queue) || id in InFlight(s.worker)
    ensures id in JobIds(s.queue) ==> s.snapshots[id].status == Pending
  {
    hide Ordered, Retained, StatusesRight, ResultsRight, JobIds;
    if id in JobIds(s.queue) || id in InFlight(s.worker) {
      OpenNotTerminal(s, h, id);
    }
    if id in s.snapshots && !Terminal(s.snapshots[id].status) {
      var j := TerminalIsDone(s, h, id);
    }
    if id in JobIds(s.queue) {
      PendingInQueue(s, h, id);
    }
  }

  lemma OpenTail(s: State, h: History)
    requires Ordered(s, h)
    ensures h.done <= h.submitted && h.submitted[|h.done|..] == InFlight(s.worker) + JobIds(s.queue)
            && |InFlight(s.worker)| <= 1
  {
    hide NoRepeats, JobIds;
    assert h.submitted == h.done + (InFlight(s.worker) + JobIds(s.queue));
  }

  lemma PendingIsOpen(status: Status)
    ensures status == Pending ==> !Terminal(status)
  {
  }

  /** The place of a queued job among all submissions. */
  lemma QueueAmongSubmitted(s: State, h: History, q: nat)
    requires Inv(s, h) && q < |s.queue|
    ensures var n := |h.done| + |InFlight(s.worker)| + q; n < |h.submitted| && h.submitted[n] == s.queue[q].id
  {
    hide Retained, StatusesRight, ResultsRight, NoRepeats;
    OpenTail(s, h);
    assert h.submitted[|h.done|..][|InFlight(s.worker)| + q] == JobIds(s.queue)[q];
  }

  lemma PendingInQueue(s: State, h: History, id: RequestId)
    requires StatusesRight(s, h) && id in JobIds(s.queue)
    ensures id in s.snapshots && s.snapshots[id].status == Pending
  {
    var q :| 0 <= q < |s.queue| && JobIds(s.queue)[q] == id;
    assert s.queue[q] in s.queue;
  }

  /** A request that is finished stays as it is until it is forgotten. */
  lemma TerminalStable(ss: seq<State>, hs: seq<History>, es: seq<Event>, i: nat, j: nat, id: RequestId)
    requires Run(ss, hs, es) && i <= j <= |es|
    requires id in ss[i].snapshots && Terminal(ss[i].snapshots[id].status)
    ensures id in ss[j].snapshots ==> ss[j].snapshots[id] == ss[i].snapshots[id]
  {
    Always(ss, hs, es, i);
    Always(ss, hs, es, j);
    GrowsOver(ss, hs, es, i, j);
    var n := TerminalIsDone(ss[i], hs[i], id);
    if id in ss[j].snapshots {
      assert hs[j].done[n] == id;
      DoneResult(ss[j], hs[j], n);
    }
  }

  lemma DoneResult(s: State, h: History, n: nat)
    requires StatusesRight(s, h) && n < |h.done| && h.done[n] in s.snapshots
    ensures s.snapshots[h.done[n]] == Result(h, n)
  {
  }

  /** A forgotten request never comes back, and only finished ones are forgotten. */
  lemma NeverBack(ss: seq<State>, hs: seq<History>, es: seq<Event>, i: nat, j: nat, id: RequestId)
    requires Run(ss, hs, es) && i <= j <= |es|
    requires id in hs[i].submitted && id !in ss[i].snapshots
    ensures id !in ss[j].snapshots && id in hs[i].done
  {
    Always(ss, hs, es, i);
    Always(ss, hs, es, j);
    GrowsOver(ss, hs, es, i, j);
    hide Ordered, Retained, StatusesRight, ResultsRight, Run;
    var n := WasForgotten(ss[i], hs[i], id);
    IsForgotten(ss[j], hs[j], n);
  }

  lemma WasForgotten(s: State, h: History, id: RequestId) returns (n: nat)
    requires Ordered(s, h) && Retained(s, h) && id in h.submitted && id !in s.snapshots
    ensures n < Forgotten(s, h) && n < |h.submitted| && h.submitted[n] == id && id in h.done
  {
    hide Ordered;
    RetainedParts(s, h);
    var k := Forgotten(s, h);
    n :| 0 <= n < |h.submitted| && h.submitted[n] == id;
    hide Retained;
    InTail(h.submitted, k, n);
    DoneFirst(s, h, n);
  }

  lemma InTail(ids: seq<RequestId>, k: nat, n: nat)
    requires k <= |ids| && n < |ids|
    ensures k <= n ==> ids[n] in ids[k..]
  {
    if k <= n {
      assert ids[k..][n - k] == ids[n];
    }
  }

  lemma IsForgotten(s: State, h: History, n: nat)
    requires Ordered(s, h) && Retained(s, h) && n < Forgotten(s, h)
    ensures n < |h.submitted| && h.submitted[n] !in s.snapshots
  {
    RetainedParts(s, h);
    var k := Forgotten(s, h);
    assert forall m :: 0 <= m < |h.submitted[k..]| ==> h.submitted[k..][m] == h.submitted[k + m];
  }

  /** What waitUntilFinished waits for. */
  ghost predicate WaitOver(s: State, id: RequestId) {
    id !in s.snapshots || Terminal(s.snapshots[id].status)
  }

  /** For a submitted request, waiting ends exactly when it has finished. */
  lemma WaitMeansFinished(ss: seq<State>, hs: seq<History>, es: seq<Event>, i: nat, id: RequestId)
    requires Run(ss, hs, es) && i <= |es| && id in hs[i].submitted
    ensures WaitOver(ss[i], id) <==> id in hs[i].done
  {
    Always(ss, hs, es, i);
    if id in ss[i].snapshots {
      var j := TerminalIsDone(ss[i], hs[i], id);
    } else {
      NeverBack(ss, hs, es, i, i, id);
    }
  }

  // ----- whose answer a snapshot holds -----

  /** The snapshot reports this answer: a text completes a request, an exception fails it. */
  ghost predicate Answers(x: Snapshot, answer: Answer) {
    match answer
    case Answered(text) => x.status == Completed && x.result == Some(text) && x.error == None
    case Threw(message) => x.status == Failed && x.result == None && x.error == Some(message)
  }

  /** The snapshot tells what steps before i have done with the job: when it was submitted, when the worker
      started it, and when and with what answer the worker finished it. */
  ghost predicate Traced(x: Snapshot, job: Job, ss: seq<State>, es: seq<Event>, i: nat)
    requires |ss| == |es| + 1 && i <= |es|
  {
    && x.id == job.id
    && (exists k: nat :: k < i && es[k].Submit? && es[k].job == job && es[k].now == x.submittedAt)
    && (if x.status == Pending then x.startedAt == None else exists k: nat :: StartedAt(ss, es, k, i, job, x.startedAt))
    && (if Terminal(x.status)
        then exists k: nat :: FinishedAt(ss, es, k, i, job, x.finishedAt) && Answers(x, es[k].answer)
        else x.result == None && x.error == None && x.finishedAt == None)
  }

  ghost predicate StartedAt(ss: seq<State>, es: seq<Event>, k: nat, i: nat, job: Job, at: Option<Time>)
    requires |ss| == |es| + 1 && i <= |es|
  {
    k < i && es[k].Start? && ss[k].worker == Popped(job) && at == Some(es[k].now)
  }

  ghost predicate FinishedAt(ss: seq<State>, es: seq<Event>, k: nat, i: nat, job: Job, at: Option<Time>)
    requires |ss| == |es| + 1 && i <= |es|
  {
    k < i && es[k].Finish? && ss[k].worker == Busy(job) && at == Some(es[k].now)
  }

  predicate Unfinished(s: State, job: Job) {
    job in s.queue || s.worker == Popped(job) || s.worker == Busy(job)
  }

  /** Every snapshot tells what was done with a job of its id; with the queued and running jobs, with them. */
  ghost predicate AllTraced(ss: seq<State>, es: seq<Event>, i: nat)
    requires |ss| == |es| + 1 && i <= |es|
  {
    var s := ss[i];
    && (forall id :: id in s.snapshots ==> exists job: Job :: job.id == id && Traced(s.snapshots[id], job, ss, es, i))
    && (forall job :: Unfinished(s, job) ==>
          job.id in s.snapshots && Traced(s.snapshots[job.id], job, ss, es, i))
  }

  lemma TracedLater(x: Snapshot, job: Job, ss: seq<State>, es: seq<Event>, i: nat)
    requires |ss| == |es| + 1 && i < |es| && Traced(x, job, ss, es, i)
    ensures Traced(x, job, ss, es, i + 1)
  {
    forall k: nat ensures StartedAt(ss, es, k, i, job, x.startedAt) ==> StartedAt(ss, es, k, i + 1, job, x.startedAt) {
    }
    forall k: nat
      ensures FinishedAt(ss, es, k, i, job, x.finishedAt) ==> FinishedAt(ss, es, k, i + 1, job, x.finishedAt)
    {
    }
  }

  /** A step that changes at most the snapshot of one job, and may forget others. */
  lemma TracedStep(ss: seq<State>, es: seq<Event>, i: nat, job: Job)
    requires |ss| == |es| + 1 && i < |es| && AllTraced(ss, es, i)
    requires var s, s' := ss[i], ss[i + 1];
             && (forall id :: id in s'.snapshots ==>
                   || (id in s.snapshots && s'.snapshots[id] == s.snapshots[id])
                   || (id == job.id && Traced(s'.snapshots[id], job, ss, es, i + 1)))
             && (forall other :: Unfinished(s', other) ==>
                   && other.id in s'.snapshots
                   && if Unfinished(s, other) then
                        s'.snapshots[other.id] == s.snapshots[other.id]
                        || (other == job && Traced(s'.snapshots[job.id], job, ss, es, i + 1))
                      else other == job && Traced(s'.snapshots[job.id], job, ss, es, i + 1))
    ensures AllTraced(ss, es, i + 1)
  {
    hide Traced, Unfinished;
    var s, s' := ss[i], ss[i + 1];
    forall id | id in s'.snapshots ensures exists j: Job :: j.id == id && Traced(s'.snapshots[id], j, ss, es, i + 1) {
      if id in s.snapshots && s'.snapshots[id] == s.snapshots[id] {
        var j: Job :| j.id == id && Traced(s.snapshots[id], j, ss, es, i);
        TracedLater(s.snapshots[id], j, ss, es, i);
      }
    }
    forall other | Unfinished(s', other) ensures Traced(s'.snapshots[other.id], other, ss, es, i + 1) {
      if Unfinished(s, other) && s'.snapshots[other.id] == s.snapshots[other.id] {
        TracedLater(s.snapshots[other.id], other, ss, es, i);
      }
    }
  }

  lemma SubmitTraced(ss: seq<State>, h: History, es: seq<Event>, i: nat)
    requires |ss| == |es| + 1 && i < |es| && AllTraced(ss, es, i) && es[i].Submit?
    requires Inv(ss[i], h) && Admissible(ss[i], h, es[i]) && Next(ss[i], es[i], ss[i + 1])
    ensures AllTraced(ss, es, i + 1)
  {
    hide Ordered, Retained, StatusesRight, ResultsRight, Pruned, AllTraced, JobIds;
    var s, s', job := ss[i], ss[i + 1], es[i].job;
    var kept :| Pruned(s.snapshots, s.maxStored, kept)
                && s'.snapshots == kept[job.id := Snapshot(job.id, Pending, None, None, es[i].now, None, None)];
    PrunedWithin(s.snapshots, s.maxStored, kept);
    forall other | Unfinished(s, other)
      ensures other.id in kept && kept[other.id] == s.snapshots[other.id] && other.id != job.id
    {
      UnfinishedOpen(s, h, other);
      OpenKept(s, h, kept, other.id);
    }
    assert Traced(s'.snapshots[job.id], job, ss, es, i + 1);
    hide Traced, Inv;
    TracedStep(ss, es, i, job);
  }

  lemma UnfinishedOpen(s: State, h: History, job: Job)
    requires Inv(s, h) && Unfinished(s, job)
    ensures job.id in s.snapshots && !Terminal(s.snapshots[job.id].status) && job.id in h.submitted
  {
    QueueIds(s.queue);
    InFlightIds(s.worker);
    hide Retained, ResultsRight, JobIds;
    OpenNotTerminal(s, h, job.id);
    OpenSubmitted(s, h);
  }

  lemma UnfinishedTraced(ss: seq<State>, es: seq<Event>, i: nat, job: Job)
    requires |ss| == |es| + 1 && i < |es| && AllTraced(ss, es, i) && Unfinished(ss[i], job)
    ensures job.id in ss[i].snapshots && Traced(ss[i].snapshots[job.id], job, ss, es, i + 1)
    ensures forall other :: Unfinished(ss[i], other) ==> other.id in ss[i].snapshots
  {
    hide Traced;
    TracedLater(ss[i].snapshots[job.id], job, ss, es, i);
  }

  lemma TraceStarted(x: Snapshot, x': Snapshot, job: Job, ss: seq<State>, es: seq<Event>, i: nat)
    requires |ss| == |es| + 1 && i < |es| && es[i].Start? && ss[i].worker == Popped(job)
    requires Traced(x, job, ss, es, i + 1) && x.status == Pending
    requires x' == x.(id := job.id, status := Running, result := None, error := None, startedAt := Some(es[i].now))
    ensures Traced(x', job, ss, es, i + 1)
  {
    assert StartedAt(ss, es, i, i + 1, job, Some(es[i].now));
  }

  lemma TraceFinished(x: Snapshot, x': Snapshot, job: Job, ss: seq<State>, es: seq<Event>, i: nat)
    requires |ss| == |es| + 1 && i < |es| && es[i].Finish? && ss[i].worker == Busy(job)
    requires Traced(x, job, ss, es, i + 1) && x.status == Running && Answers(x', es[i].answer)
    requires x'.id == job.id && x'.submittedAt == x.submittedAt && x'.startedAt == x.startedAt
    requires x'.finishedAt == Some(es[i].now)
    ensures Traced(x', job, ss, es, i + 1)
  {
    assert FinishedAt(ss, es, i, i + 1, job, Some(es[i].now));
  }

  lemma StartTraced(ss: seq<State>, h: History, es: seq<Event>, i: nat)
    requires |ss| == |es| + 1 && i < |es| && AllTraced(ss, es, i) && es[i].Start?
    requires Inv(ss[i], h) && Next(ss[i], es[i], ss[i + 1])
    ensures AllTraced(ss, es, i + 1)
  {
    hide Ordered, Retained, StatusesRight, ResultsRight, JobIds, Traced, AllTraced;
    var s, s', job := ss[i], ss[i + 1], ss[i].worker.job;
    InFlightStored(s, h);
    QueueIds(s.queue);
    UnfinishedTraced(ss, es, i, job);
    InFlightStatus(s, h);
    hide Inv;
    TraceStarted(s.snapshots[job.id], s'.snapshots[job.id], job, ss, es, i);
    TracedStep(ss, es, i, job);
  }

  lemma InFlightStatus(s: State, h: History)
    requires Inv(s, h) && (s.worker.Popped? || s.worker.Busy?)
    ensures s.worker.job.id in s.snapshots
    ensures s.snapshots[s.worker.job.id].status == if s.worker.Popped? then Pending else Running
  {
    hide Ordered, Retained, ResultsRight;
  }

  lemma FinishTraced(ss: seq<State>, h: History, es: seq<Event>, i: nat)
    requires |ss| == |es| + 1 && i < |es| && AllTraced(ss, es, i) && es[i].Finish?
    requires Inv(ss[i], h) && Next(ss[i], es[i], ss[i + 1])
    ensures AllTraced(ss, es, i + 1)
  {
    hide Ordered, Retained, StatusesRight, ResultsRight, JobIds, Traced, AllTraced;
    var s, s', job := ss[i], ss[i + 1], ss[i].worker.job;
    InFlightStored(s, h);
    QueueIds(s.queue);
    UnfinishedTraced(ss, es, i, job);
    InFlightStatus(s, h);
    hide Inv;
    TraceFinished(s.snapshots[job.id], s'.snapshots[job.id], job, ss, es, i);
    TracedStep(ss, es, i, job);
  }

  lemma {:induction false} AlwaysTraced(ss: seq<State>, hs: seq<History>, es: seq<Event>, i: nat)
    requires Run(ss, hs, es) && i <= |es|
    ensures |ss| == |es| + 1 && AllTraced(ss, es, i)
  {
    hide Inv, Traced, Admissible, Recorded;
    if i > 0 {
      var k := i - 1;
      AlwaysTraced(ss, hs, es, k);
      Always(ss, hs, es, k);
      OneStep(ss, hs, es, k);
      hide Run, AllTraced;
      match es[k] {
        case Submit(_, _) => SubmitTraced(ss, hs[k], es, k);
        case Start(_) => StartTraced(ss, hs[k], es, k);
        case Finish(_, _) => FinishTraced(ss, hs[k], es, k);
        case _ => QuietTraced(ss, es, k);
      }
    }
  }

  lemma QuietTraced(ss: seq<State>, es: seq<Event>, i: nat)
    requires |ss| == |es| + 1 && i < |es| && AllTraced(ss, es, i) && Next(ss[i], es[i], ss[i + 1])
    requires es[i].Pop? || es[i].Stop? || es[i].Exit?
    ensures AllTraced(ss, es, i + 1)
  {
    hide Traced;
    TracedStep(ss, es, i, Job([], [], []));
  }

  /** In every run: a stored snapshot tells what has been done with the one job that was submitted with its id.
      If it is finished, it holds the answer with which the worker finished that very job, and it has the times
      of its submission, its start and its completion, which came in this order. */
  lemma OwnAnswer(ss: seq<State>, hs: seq<History>, es: seq<Event>, i: nat, id: RequestId)
    returns (submit: nat, start: nat, finish: nat)
    requires Run(ss, hs, es) && i <= |es| && id in ss[i].snapshots
    ensures var x := ss[i].snapshots[id];
            && x.id == id
            && submit < i && es[submit].Submit? && es[submit].job.id == id && x.submittedAt == es[submit].now
            && (x.status != Pending ==>
                  && start < i && es[start].Start? && ss[start].worker == Popped(es[submit].job)
                  && x.startedAt == Some(es[start].now))
            && (Terminal(x.status) ==>
                  && finish < i && es[finish].Finish? && ss[finish].worker == Busy(es[submit].job)
                  && x.finishedAt == Some(es[finish].now) && Answers(x, es[finish].answer))
    ensures forall k: nat :: k < |es| && es[k].Submit? && es[k].job.id == id ==> k == submit
    ensures Terminal(ss[i].snapshots[id].status) ==>
              forall k: nat :: k < |es| && es[k].Finish? && ss[k].worker.Busy? && ss[k].worker.job.id == id ==>
                k == finish
  {
    AlwaysTraced(ss, hs, es, i);
    var x := ss[i].snapshots[id];
    var job: Job :| job.id == id && Traced(x, job, ss, es, i);
    submit :| submit < i && es[submit].Submit? && es[submit].job == job && es[submit].now == x.submittedAt;
    start, finish := 0, 0;
    if x.status != Pending {
      start :| StartedAt(ss, es, start, i, job, x.startedAt);
    }
    if Terminal(x.status) {
      finish :| FinishedAt(ss, es, finish, i, job, x.finishedAt) && Answers(x, es[finish].answer);
    }
    hide Run, AllTraced, Traced;
    forall k: nat | k < |es| && es[k].Submit? && es[k].job.id == id ensures k == submit {
      SubmittedOnce(ss, hs, es, submit, k);
      SubmittedOnce(ss, hs, es, k, submit);
    }
    if Terminal(x.status) {
      forall k: nat | k < |es| && es[k].Finish? && ss[k].worker.Busy? && ss[k].worker.job.id == id ensures k == finish {
        FinishedOnce(ss, hs, es, finish, k);
        FinishedOnce(ss, hs, es, k, finish);
      }
    }
  }

  lemma OwnAnswers(s: State, id: RequestId)
    requires id in s.snapshots && Terminal(s.snapshots[id].status)
    ensures forall ss: seq<State>, hs: seq<History>, es: seq<Event> :: RunTo(ss, hs, es, s) ==>
              exists k: nat ::
                && k < |es| && es[k].Finish? && ss[k].worker.Busy? && ss[k].worker.job.id == id
                && Answers(s.snapshots[id], es[k].answer)
  {
    hide Run, Answers;
    forall ss: seq<State>, hs: seq<History>, es: seq<Event> | RunTo(ss, hs, es, s)
      ensures exists k: nat ::
                && k < |es| && es[k].Finish? && ss[k].worker.Busy? && ss[k].worker.job.id == id
                && Answers(s.snapshots[id], es[k].answer)
    {
      var submit, start, k := OwnAnswer(ss, hs, es, |es|, id);
    }
  }

  lemma SubmittedOnce(ss: seq<State>, hs: seq<History>, es: seq<Event>, k: nat, l: nat)
    requires Run(ss, hs, es) && k < |es| && l < |es| && es[k].Submit? && es[l].Submit? && es[k].job.id == es[l].job.id
    ensures l <= k
  {
    if k < l {
      StaysRecorded(ss, hs, es, k, l);
      OneStep(ss, hs, es, l);
    }
  }

  lemma FinishedOnce(ss: seq<State>, hs: seq<History>, es: seq<Event>, k: nat, l: nat)
    requires Run(ss, hs, es) && k < |es| && l < |es| && es[k].Finish? && es[l].Finish?
    requires |ss| == |es| + 1 && ss[k].worker.Busy? && ss[l].worker.Busy? && ss[k].worker.job.id == ss[l].worker.job.id
    ensures l <= k
  {
    if k < l {
      hide Run, Inv;
      StaysRecorded(ss, hs, es, k, l);
      Always(ss, hs, es, l);
      InFlightStored(ss[l], hs[l]);
    }
  }

  lemma StaysRecorded(ss: seq<State>, hs: seq<History>, es: seq<Event>, k: nat, l: nat)
    requires Run(ss, hs, es) && k < l <= |es|
    ensures |ss| == |hs| == |es| + 1
    ensures es[k].Submit? ==> es[k].job.id in hs[l].submitted
    ensures es[k].Finish? && ss[k].worker.Busy? ==> ss[k].worker.job.id in hs[l].done
  {
    hide Inv, Next, Admissible, Result, Forgotten, Finished;
    OneStep(ss, hs, es, k);
    GrowsOver(ss, hs, es, k + 1, l);
    hide Run;
    if es[k].Submit? {
      LastOfPrefix(hs[k].submitted, es[k].job.id, hs[l].submitted);
    }
    if es[k].Finish? && ss[k].worker.Busy? {
      LastOfPrefix(hs[k].done, ss[k].worker.job.id, hs[l].done);
    }
  }

  lemma LastOfPrefix(ids: seq<RequestId>, id: RequestId, longer: seq<RequestId>)
    requires ids + [id] <= longer
    ensures id in longer
  {
    assert longer[|ids|] == (ids + [id])[|ids|];
  }

  /** The stored requests are the last submissions, among them all unfinished ones, and no more than
      the limit or the most that were ever unfinished together; once any is forgotten, no fewer than the limit. */
  lemma Retention(ss: seq<State>, hs: seq<History>, es: seq<Event>, i: nat)
    requires Run(ss, hs, es) && i <= |es|
    ensures var s, h := ss[i], hs[i]; var k := |h.submitted| - |s.snapshots|;
            && 0 <= k <= |h.done| <= |h.submitted| && (forall id :: id in s.snapshots <==> id in h.submitted[k..])
            && s.maxStored == ss[0].maxStored && |s.snapshots| <= Max(ss[0].maxStored, h.peak)
            && (k > 0 ==> |s.snapshots| >= ss[0].maxStored)
    ensures exists j :: 0 <= j <= i && hs[i].peak == |hs[j].submitted| - |hs[j].done|
    ensures forall j :: 0 <= j <= i ==> |hs[j].submitted| - |hs[j].done| <= hs[i].peak
  {
    Always(ss, hs, es, i);
    RetainedParts(ss[i], hs[i]);
    SameLimit(ss, hs, es, i);
    PeakReached(ss, hs, es, i);
  }

  lemma {:induction false} SameLimit(ss: seq<State>, hs: seq<History>, es: seq<Event>, i: nat)
    requires Run(ss, hs, es) && i <= |es|
    ensures ss[i].maxStored == ss[0].maxStored
  {
    if i > 0 {
      SameLimit(ss, hs, es, i - 1);
      assert StepOf(ss, hs, es, i - 1);
    }
  }

  /** The peak is the greatest number of requests unfinished together so far. */
  lemma {:induction false} PeakReached(ss: seq<State>, hs: seq<History>, es: seq<Event>, i: nat)
    requires Run(ss, hs, es) && i <= |es|
    ensures exists j :: 0 <= j <= i && hs[i].peak == |hs[j].submitted| - |hs[j].done|
    ensures forall j :: 0 <= j <= i ==> |hs[j].submitted| - |hs[j].done| <= hs[i].peak
  {
    hide Inv, Next, Admissible, Recorded, Ordered;
    if i == 0 {
      assert hs[0].peak == |hs[0].submitted| - |hs[0].done|;
    } else {
      PeakReached(ss, hs, es, i - 1);
      Always(ss, hs, es, i - 1);
      InvCounts(ss[i - 1], hs[i - 1]);
      assert StepOf(ss, hs, es, i - 1);
      PeakStep(ss, hs, es, i);
    }
  }

  lemma InvCounts(s: State, h: History)
    requires Inv(s, h)
    ensures |h.done| <= |h.submitted| && |h.submitted| - |h.done| <= h.peak
  {
  }

  lemma PeakStep(ss: seq<State>, hs: seq<History>, es: seq<Event>, i: nat)
    requires |ss| == |hs| == |es| + 1 && 0 < i <= |es| && hs[i] == Recorded(hs[i - 1], ss[i - 1], es[i - 1])
    requires |hs[i - 1].done| <= |hs[i - 1].submitted| && |hs[i - 1].submitted| - |hs[i - 1].done| <= hs[i - 1].peak
    ensures hs[i].peak == hs[i - 1].peak || hs[i].peak == |hs[i].submitted| - |hs[i].done|
    ensures hs[i - 1].peak <= hs[i].peak && |hs[i].submitted| - |hs[i].done| <= hs[i].peak
  {
  }

  /** When the worker has gone, every submission has been carried out. */
  lemma StopDrains(ss: seq<State>, hs: seq<History>, es: seq<Event>, i: nat)
    requires Run(ss, hs, es) && i <= |es| && ss[i].worker.Exited?
    ensures ss[i].stop && hs[i].done == hs[i].submitted
  {
    Always(ss, hs, es, i);
    assert hs[i].submitted == hs[i].done + [] + JobIds([]);
  }

  // ----- how destruction ends -----

  /** The steps of the worker, as opposed to those of submitters and the destructor. */
  predicate ByWorker(e: Event) {
    e.Pop? || e.Start? || e.Finish? || e.Exit?
  }

  function WorkerSteps(es: seq<Event>): nat {
    if es == [] then 0 else WorkerSteps(es[..|es| - 1]) + if ByWorker(es[|es| - 1]) then 1 else 0
  }

  /** The steps that the worker still has to make: three for each queued job, and one to leave. */
  function WorkLeft(s: State): nat {
    3 * |s.queue| + match s.worker case Exited => 0 case Waiting => 1 case Busy(_) => 2 case Popped(_) => 3
  }

  /** Once stopped, the executor does not wait for anything but its worker: each step of the worker brings
      it one nearer to its end, no other step takes it back, and a step is possible until the end. */
  lemma StopEnds(ss: seq<State>, hs: seq<History>, es: seq<Event>, i: nat, j: nat)
    requires Run(ss, hs, es) && i <= j <= |es| && ss[i].stop
    ensures ss[j].stop && WorkLeft(ss[j]) + WorkerSteps(es[i..j]) == WorkLeft(ss[i])
    ensures ss[j].worker.Exited? <==> WorkLeft(ss[j]) == 0
    ensures WorkLeft(ss[j]) > 0 ==> exists e, s' :: ByWorker(e) && Admissible(ss[j], hs[j], e) && Next(ss[j], e, s')
  {
    hide Run, Inv, Admissible, Next, WorkLeft, WorkerSteps;
    StopCounts(ss, hs, es, i, j);
    Always(ss, hs, es, j);
    ExitedIsDone(ss[j], hs[j]);
    if !ss[j].worker.Exited? {
      var e, s' := WorkerStep(ss[j], hs[j]);
    }
  }

  lemma {:induction false} StopCounts(ss: seq<State>, hs: seq<History>, es: seq<Event>, i: nat, j: nat)
    requires Run(ss, hs, es) && i <= j <= |es| && ss[i].stop
    ensures |ss| == |hs| == |es| + 1 && ss[j].stop && WorkLeft(ss[j]) + WorkerSteps(es[i..j]) == WorkLeft(ss[i])
  {
    if i < j {
      hide Run, Admissible, Next, Recorded, WorkLeft;
      var k := j - 1;
      StopCounts(ss, hs, es, i, k);
      OneStep(ss, hs, es, k);
      assert es[i..j][..|es[i..j]| - 1] == es[i..k] && es[i..j][|es[i..j]| - 1] == es[k];
      StoppedStep(ss[k], hs[k], es[k], ss[j]);
    }
  }

  lemma ExitedIsDone(s: State, h: History)
    requires Inv(s, h)
    ensures s.worker.Exited? <==> WorkLeft(s) == 0
  {
  }

  lemma StoppedStep(s: State, h: History, e: Event, s': State)
    requires s.stop && Admissible(s, h, e) && Next(s, e, s')
    ensures s'.stop && WorkLeft(s') + (if ByWorker(e) then 1 else 0) == WorkLeft(s)
  {
  }

  /** What the worker can do next. */
  lemma WorkerStep(s: State, h: History) returns (e: Event, s': State)
    requires Inv(s, h) && s.stop && !s.worker.Exited?
    ensures ByWorker(e) && Admissible(s, h, e) && Next(s, e, s')
  {
    match s.worker {
      case Waiting =>
        if s.queue == [] {
          e, s' := Exit, s.(worker := Exited);
        } else {
          e, s' := Pop, s.(worker := Popped(s.queue[0]), queue := s.queue[1..]);
        }
      case Popped(job) =>
        e, s' := Start(0), s.(worker := Busy(job),
                              snapshots := Updated(s.snapshots, job.id, Running, None, None, Some(0), None));
      case Busy(job) =>
        var now := h.clock + 1;
        e, s' := Finish(Answered([]), now),
          s.(worker := Waiting, snapshots := Finished(s.snapshots, job.id, Answered([]), now));
    }
  }
}
