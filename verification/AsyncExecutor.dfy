/** The asynchronous executor: submitters, one worker and the destructor share a queue and a map of
    snapshots. Each method is what one thread does under one lock. */
module AsyncExecution {
  import opened IndexTypes
  import opened ExecutorModel

  datatype StatusInfo = StatusInfo(id: RequestId, status: Status, submittedAt: Time, startedAt: Option<Time>,
                                   finishedAt: Option<Time>, queuePosition: Option<nat>)

  datatype ResultInfo = ResultInfo(ready: bool, id: RequestId, status: Status, result: Option<Text>,
                                   error: Option<Text>)

  class AsyncExecutor {
    const maxStored: nat
    var queue: seq<Job>
    var snapshots: map<RequestId, Snapshot>
    var stop: bool
    var worker: Worker
    ghost var history: History

    ghost function Now(): State
      reads this`queue, this`snapshots, this`stop, this`worker
    {
      State(queue, snapshots, stop, worker, maxStored)
    }

    ghost predicate Valid()
      reads this
    {
      Inv(Now(), history)
    }

    constructor (limit: nat)
      ensures Valid() && Initial(Now(), history) && maxStored == limit
    {
      maxStored := limit;
      queue, snapshots, stop, worker := [], map[], false, Waiting;
      history := History([], [], map[], 0, 0);
      new;
      InitialInv(Now(), history);
    }

    /** Removes the oldest finished snapshot when the limit is reached. */
    method PruneOldSnapshots()
      modifies this`snapshots
      ensures Pruned(old(snapshots), maxStored, snapshots)
    {
      if |snapshots| < maxStored {
        return;
      }
      var oldest: Option<RequestId> := None;
      var todo := snapshots.Keys;
      while todo != {}
        invariant todo <= snapshots.Keys && snapshots == old(snapshots)
        invariant oldest.None? ==> forall id :: id in snapshots && id !in todo ==> !Terminal(snapshots[id].status)
        invariant oldest.Some? ==>
          && oldest.value in snapshots && Terminal(snapshots[oldest.value].status)
          && forall id :: id in snapshots && id !in todo && Terminal(snapshots[id].status)
                          && snapshots[id].finishedAt.Some? && snapshots[oldest.value].finishedAt.Some?
               ==> snapshots[oldest.value].finishedAt.value <= snapshots[id].finishedAt.value
        decreases |todo|
      {
        var id :| id in todo;
        todo := todo - {id};
        if !Terminal(snapshots[id].status) {
          continue;
        }
        if oldest.None? || (snapshots[id].finishedAt.Some? && snapshots[oldest.value].finishedAt.Some?
                            && snapshots[id].finishedAt.value < snapshots[oldest.value].finishedAt.value) {
          oldest := Some(id);
        }
      }
      if oldest.Some? {
        assert OldestFinished(snapshots, oldest.value);
        snapshots := snapshots - {oldest.value};
      }
    }

    ghost method Record(before: State, e: Event)
      requires Inv(before, history) && Admissible(before, history, e) && Next(before, e, Now())
      modifies this`history
      ensures Valid() && history == Recorded(old(history), before, e)
    {
      hide Inv, Next, Admissible, Recorded;
      StepKeeps(before, history, e, Now());
      history := Recorded(history, before, e);
    }

    /** A client hands in a request. */
    method SubmitRequest(job: Job, now: Time)
      requires Valid() && Admissible(Now(), history, Submit(job, now))
      modifies this
      ensures Valid() && Next(old(Now()), Submit(job, now), Now())
      ensures history == Recorded(old(history), old(Now()), Submit(job, now))
      ensures queue == old(queue) + [job] && worker == old(worker) && stop == old(stop) && job.id in snapshots
      ensures var x := snapshots[job.id];
              && x.id == job.id && x.status == Pending && x.result == None && x.error == None
              && x.submittedAt == now && x.startedAt == None && x.finishedAt == None
      ensures forall id :: id in snapshots && id != job.id ==>
                id in old(snapshots) && snapshots[id] == old(snapshots)[id]
    {
      hide Inv, Admissible, Recorded, Pruned;
      ghost var before := Now();
      PruneOldSnapshots();
      PrunedWithin(before.snapshots, maxStored, snapshots);
      ghost var kept := snapshots;
      snapshots := snapshots[job.id := Snapshot(job.id, Pending, None, None, now, None, None)];
      queue := queue + [job];
      assert Pruned(before.snapshots, maxStored, kept);
      Record(before, Submit(job, now));
    }

    /** The worker takes the next job, or leaves when it has been told to stop and nothing is queued;
        otherwise it would go on waiting. */
    method TakeJob() returns (taken: bool)
      requires Valid() && worker == Waiting && (stop || queue != [])
      modifies this
      ensures Valid() && Next(old(Now()), if taken then Pop else Exit, Now())
      ensures history == old(history) && taken == (old(queue) != [])
    {
      hide Inv;
      ghost var before := Now();
      if stop && queue == [] {
        worker := Exited;
        Record(before, Exit);
        return false;
      }
      worker := Popped(queue[0]);
      queue := queue[1..];
      Record(before, Pop);
      taken := true;
    }

    method UpdateSnapshot(id: RequestId, status: Status, result: Option<Text>, error: Option<Text>,
                          startedAt: Option<Time>, finishedAt: Option<Time>)
      modifies this`snapshots
      ensures snapshots == Updated(old(snapshots), id, status, result, error, startedAt, finishedAt)
    {
      if id !in snapshots {
        snapshots := snapshots[id := Snapshot([], Pending, None, None, 0, None, None)];
      }
      var snapshot := snapshots[id].(id := id, status := status, result := result, error := error);
      if startedAt.Some? {
        snapshot := snapshot.(startedAt := startedAt);
      }
      if finishedAt.Some? {
        snapshot := snapshot.(finishedAt := finishedAt);
      }
      snapshots := snapshots[id := snapshot];
    }

    /** The worker announces that it runs its job; the request has not been forgotten. */
    method StartJob(now: Time)
      requires Valid() && worker.Popped?
      modifies this
      ensures Valid() && Next(old(Now()), Start(now), Now()) && history == old(history)
      ensures worker == Busy(old(worker).job) && queue == old(queue) && stop == old(stop)
      ensures var id := old(worker).job.id;
              && id in old(snapshots) && snapshots.Keys == old(snapshots.Keys)
              && (var x := snapshots[id];
                  && x.id == id && x.status == Running && x.result == None && x.error == None
                  && x.startedAt == Some(now) && x.submittedAt == old(snapshots)[id].submittedAt
                  && x.finishedAt == old(snapshots)[id].finishedAt)
              && forall other :: other in snapshots && other != id ==> snapshots[other] == old(snapshots)[other]
    {
      hide Inv;
      ghost var before := Now();
      InFlightStored(Now(), history);
      UpdateSnapshot(worker.job.id, Running, None, None, Some(now), None);
      worker := Busy(worker.job);
      Record(before, Start(now));
    }

    /** The worker stores what the handler answered. */
    method FinishJob(answer: Answer, now: Time)
      requires Valid() && worker.Busy? && Admissible(Now(), history, Finish(answer, now))
      modifies this
      ensures Valid() && Next(old(Now()), Finish(answer, now), Now())
      ensures history == Recorded(old(history), old(Now()), Finish(answer, now))
      ensures worker == Waiting && queue == old(queue) && stop == old(stop)
      ensures var id := old(worker).job.id;
              && id in old(snapshots) && snapshots.Keys == old(snapshots.Keys)
              && (var x := snapshots[id];
                  && x.id == id && x.finishedAt == Some(now)
                  && x.submittedAt == old(snapshots)[id].submittedAt && x.startedAt == old(snapshots)[id].startedAt
                  && match answer
                     case Answered(text) => x.status == Completed && x.result == Some(text) && x.error == None
                     case Threw(message) => x.status == Failed && x.result == None && x.error == Some(message))
              && forall other :: other in snapshots && other != id ==> snapshots[other] == old(snapshots)[other]
    {
      hide Inv, Admissible, Recorded;
      ghost var before := Now();
      InFlightStored(Now(), history);
      match answer {
        case Threw(message) => UpdateSnapshot(worker.job.id, Failed, None, Some(message), None, Some(now));
        case Answered(text) => UpdateSnapshot(worker.job.id, Completed, Some(text), None, None, Some(now));
      }
      worker := Waiting;
      Record(before, Finish(answer, now));
    }

    method RequestStop()
      requires Valid()
      modifies this
      ensures Valid() && Next(old(Now()), Stop, Now()) && history == old(history)
    {
      hide Inv;
      ghost var before := Now();
      stop := true;
      Record(before, Stop);
    }

    /** How many jobs are ahead of a queued request. */
    method GetQueuePosition(id: RequestId) returns (position: Option<nat>)
      ensures position.Some? <==> id in JobIds(queue)
      ensures position.Some? ==>
                && position.value < |queue| && queue[position.value].id == id
                && forall i :: 0 <= i < position.value ==> queue[i].id != id
    {
      var copy := queue;
      var index := 0;
      while copy != []
        invariant index <= |queue| && copy == queue[index..]
        invariant forall i :: 0 <= i < index ==> queue[i].id != id
        decreases |copy|
      {
        if copy[0].id == id {
          assert JobIds(queue)[index] == id;
          return Some(index);
        }
        copy := copy[1..];
        index := index + 1;
      }
      position := None;
    }

    method GetStatus(id: RequestId) returns (info: Option<StatusInfo>)
      requires Valid()
      ensures info.Some? <==> id in snapshots
      ensures info.Some? ==>
                var s := snapshots[id];
                && info.value.(queuePosition := None)
                   == StatusInfo(s.id, s.status, s.submittedAt, s.startedAt, s.finishedAt, None)
                && (info.value.queuePosition.Some? <==> id in JobIds(queue))
                && (info.value.queuePosition.Some? ==>
                      var n := |history.done| + |InFlight(worker)| + info.value.queuePosition.value;
                      n < |history.submitted| && history.submitted[n] == id)
    {
      hide Inv, JobIds, Terminal;
      if id !in snapshots {
        return None;
      }
      var s := snapshots[id];
      var position: Option<nat> := None;
      if s.status == Pending {
        position := GetQueuePosition(id);
      }
      OpenExactly(Now(), history, id);
      PendingIsOpen(s.status);
      if position.Some? {
        QueueAmongSubmitted(Now(), history, position.value);
      }
      info := Some(StatusInfo(s.id, s.status, s.submittedAt, s.startedAt, s.finishedAt, position));
    }

    /** The answer is there exactly once the request has finished; it is the answer with which the worker has
        finished this request, whatever run has led to the present state. */
    method GetResult(id: RequestId) returns (info: Option<ResultInfo>)
      requires Valid()
      ensures info.Some? <==> id in snapshots
      ensures info.Some? ==>
                && (info.value.ready <==> id in history.done) && info.value.status == snapshots[id].status
                && info.value.id == snapshots[id].id
                && info.value.result == (if snapshots[id].status == Completed then snapshots[id].result else None)
                && info.value.error == (if snapshots[id].status == Failed then snapshots[id].error else None)
      ensures info.Some? && info.value.ready ==>
                forall ss: seq<State>, hs: seq<History>, es: seq<Event> :: RunTo(ss, hs, es, Now()) ==>
                  exists k: nat ::
                    && k < |es| && es[k].Finish? && ss[k].worker.Busy? && ss[k].worker.job.id == id
                    && match es[k].answer
                       case Answered(text) =>
                         info.value.status == Completed && info.value.result == Some(text) && info.value.error == None
                       case Threw(message) =>
                         info.value.status == Failed && info.value.result == None && info.value.error == Some(message)
    {
      hide Inv, RunTo;
      if id !in snapshots {
        return None;
      }
      var s := snapshots[id];
      ghost var j := TerminalIsDone(Now(), history, id);
      if Terminal(s.status) {
        OwnAnswers(Now(), id);
      }
      if s.status == Completed {
        info := Some(ResultInfo(true, s.id, s.status, s.result, None));
      } else if s.status == Failed {
        info := Some(ResultInfo(true, s.id, s.status, None, s.error));
      } else {
        info := Some(ResultInfo(false, s.id, s.status, None, None));
      }
    }
  }
}
