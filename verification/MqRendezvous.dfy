/** The rendezvous of the message queue as the two handlers run it: `do_get` requests wait with a task until
    a `do_post` worker claims it and another `do_post` brings the result back under the task's token. */
module MqRendezvous {
  import opened MqQueues
  import opened MqSpec
  import opened Options
  import opened Words

  class Rendezvous {
    const base: nat
    var freeTasks: seq<nat>
    var unassigned: seq<nat>
    var claimed: seq<nat>
    var tasks: Records
    var dict: map<nat, nat>
    var freeWorkers: seq<nat>
    var cached: seq<nat>
    var workers: Records
    var replies: seq<Reply>

    function Now(): State
      reads this
    {
      State(base, freeTasks, unassigned, claimed, tasks, dict, freeWorkers, cached, workers, replies)
    }

    /** Every record of each pool is in exactly one of its queues. */
    ghost predicate Valid()
      reads this
    {
      && Now().Bounded()
      && Partition(freeTasks, unassigned, claimed, |tasks.timers|)
      && Partition(freeWorkers, cached, [], |workers.timers|)
    }

    /** `hustmq_ha_init_do_get` and `hustmq_ha_init_do_post`. */
    constructor (base: nat, taskCount: nat, workerCount: nat)
      ensures Valid() && Now() == Initial(base, taskCount, workerCount)
    {
      this.base := base;
      freeTasks, unassigned, claimed := All(taskCount), [], [];
      freeWorkers, cached := All(workerCount), [];
      tasks, workers := Idle(taskCount), Idle(workerCount);
      dict, replies := map[], [];
      new;
      forall x: nat ensures Occurs(All(taskCount), x) == One(x < taskCount)
          && Occurs(All(workerCount), x) == One(x < workerCount) {
        AllOnce(taskCount, x);
        AllOnce(workerCount, x);
      }
    }

    /** A request that found no record, no task or no body. */
    method TurnAway(q: Request)
      requires Valid()
      modifies `replies
      ensures Valid() && Now() == Refuse(old(Now()), q)
    {
      replies := replies + [NotFound(q)];
    }

    /** `__update_task` to the free queue, after the timer was stopped or fired. */
    method BackToFree(r: nat)
      requires Valid() && r < |tasks.timers|
      modifies `freeTasks, `unassigned, `claimed, `tasks
      ensures Valid() && Now() == FreeTask(old(Now()), r)
    {
      hide Partition;
      MoveKeeps(freeTasks, unassigned, claimed, |tasks.timers|, r);
      tasks := tasks.Set(r, false, tasks.requests[r]);
      freeTasks, unassigned, claimed := [r] + Without(freeTasks, r), Without(unassigned, r), Without(claimed, r);
    }

    /** `__on_do_get_timeout`, called when the timer of a record fires. */
    method OnTaskTimeout(r: nat)
      requires Valid()
      modifies this
      ensures Valid() && Now() == TaskTimeout(old(Now()), r)
    {
      hide Partition, FreeTask;
      if r >= |tasks.timers| || !tasks.timers[r] {
        return;
      }
      var q := tasks.requests[r];
      BackToFree(r);
      replies := replies + [TimedOut(q)];
    }

    /** `__free_executer`. */
    method FreeWorker(w: nat)
      requires Valid() && w < |workers.timers|
      modifies `freeWorkers, `cached, `workers
      ensures Valid()
      ensures Now() == old(Now()).(freeWorkers := Freed(old(freeWorkers), w), cached := Without(old(cached), w),
                                   workers := old(workers).Set(w, false, old(workers).requests[w]))
    {
      hide Partition;
      MoveKeeps(freeWorkers, cached, [], |workers.timers|, w);
      WithoutAbsent([], w);
      workers := workers.Set(w, false, workers.requests[w]);
      freeWorkers, cached := [w] + Without(freeWorkers, w), Without(cached, w);
    }

    /** `__on_do_post_timeout`. */
    method OnWorkerTimeout(w: nat)
      requires Valid()
      modifies this
      ensures Valid() && Now() == WorkerTimeout(old(Now()), w)
    {
      hide Partition, Freed, Without;
      if w >= |workers.timers| || !workers.timers[w] {
        return;
      }
      var q := workers.requests[w];
      FreeWorker(w);
      replies := replies + [TimedOut(q)];
    }

    /** `hustmq_ha_dispatch_do_task`: the worker that began to wait last gets the task, unless the reply to
        it cannot be built (`sent` is false), in which case it goes on waiting. */
    method DispatchDoTask(r: nat, sent: bool) returns (ok: bool)
      requires Valid() && r < |tasks.timers|
      modifies `freeWorkers, `cached, `workers, `replies
      ensures Valid() && (ok <==> old(cached) != [] && sent)
      ensures !ok ==> Now() == old(Now())
      ensures ok ==>
        var w := old(cached)[0]; var worker := old(workers).requests[w];
        Now() == old(Now()).(freeWorkers := [w] + old(freeWorkers), cached := old(cached)[1..],
                             workers := old(workers).Set(w, false, worker),
                             replies := old(replies) + [Handed(worker, tasks.requests[r], Token(base, r))])
    {
      hide Partition, Without;
      if cached == [] || !sent {
        return false;
      }
      var w := cached[0];
      PartitionTurns(freeWorkers, cached, [], |workers.timers|);
      AllocKeeps(cached, freeWorkers, [], |workers.timers|);
      HeadBack(freeWorkers, cached);
      replies := replies + [Handed(workers.requests[w], tasks.requests[r], Token(base, r))];
      FreeWorker(w);
      ok := true;
    }

    /** `__alloc_task` from the free to the unassigned queue. */
    method AllocTask() returns (task: Option<nat>)
      requires Valid()
      modifies `freeTasks, `unassigned
      ensures Valid()
      ensures old(freeTasks) == [] ==> task == None && Now() == old(Now())
      ensures old(freeTasks) != [] ==>
        var r := old(freeTasks)[0];
        task == Some(r) && Now() == old(Now()).(freeTasks := old(freeTasks)[1..], unassigned := [r] + old(unassigned))
    {
      hide Partition;
      if freeTasks == [] {
        return None;
      }
      AllocKeeps(freeTasks, unassigned, claimed, |tasks.timers|);
      task := Some(freeTasks[0]);
      freeTasks, unassigned := freeTasks[1..], [freeTasks[0]] + unassigned;
    }

    /** `__update_task` of the newest unassigned task to the claimed queue. */
    method Claimed(r: nat)
      requires Valid() && unassigned != [] && unassigned[0] == r
      modifies `freeTasks, `unassigned, `claimed
      ensures Valid() && Now() == old(Now()).(unassigned := old(unassigned)[1..], claimed := [r] + old(claimed))
    {
      hide Partition, Without;
      var n := |tasks.timers|;
      PartitionTurns(freeTasks, unassigned, claimed, n);
      AllocKeeps(unassigned, claimed, freeTasks, n);
      PartitionTurns(freeTasks, unassigned[1..], [r] + claimed, n);
      WithoutAbsent(freeTasks, r);
      WithoutAbsent(claimed, r);
      WithoutHead(unassigned);
      freeTasks, unassigned, claimed := Without(freeTasks, r), Without(unassigned, r), [r] + Without(claimed, r);
    }

    /** `__do_get`: the task is dispatched at once, or waits; either way its timer is started at the end. */
    method Get(q: Request, fit: bool, stored: bool, sent: bool)
      requires Valid()
      modifies this
      ensures Valid() && Now() == DoGet(old(Now()), q, fit, stored, sent)
    {
      hide Partition, Records.Set;
      if !fit {
        TurnAway(q);
        return;
      }
      var task := AllocTask();
      if task.None? {
        TurnAway(q);
        return;
      }
      var r, token := task.value, Token(base, task.value);
      tasks.SetAgain(r, tasks.timers[r], q);
      tasks := tasks.Set(r, tasks.timers[r], q);
      if stored || token in dict {
        dict := dict[token := r];
      }
      assert unassigned[1..] == old(unassigned);
      var handed := DispatchDoTask(r, sent);
      if handed {
        Claimed(r);
      }
      tasks := tasks.Set(r, true, q);
    }

    /** `hustmq_ha_assign_do_task`: the newest unassigned task becomes claimed. */
    method AssignDoTask() returns (task: Option<nat>)
      requires Valid()
      modifies `freeTasks, `unassigned, `claimed
      ensures Valid()
      ensures old(unassigned) == [] ==> task == None && Now() == old(Now())
      ensures old(unassigned) != [] ==>
        var r := old(unassigned)[0];
        task == Some(r) && Now() == old(Now()).(unassigned := old(unassigned)[1..], claimed := [r] + old(claimed))
    {
      hide Partition;
      if unassigned == [] {
        return None;
      }
      task := Some(unassigned[0]);
      Claimed(unassigned[0]);
    }

    /** `__claim_task`. */
    method Claim(q: Request, sent: bool)
      requires Valid()
      modifies this
      ensures Valid() && Now() == ClaimTask(old(Now()), q, sent)
    {
      hide Partition;
      var task := AssignDoTask();
      if task.None? {
        if freeWorkers == [] {
          TurnAway(q);
          return;
        }
        var w := freeWorkers[0];
        AllocKeeps(freeWorkers, cached, [], |workers.timers|);
        freeWorkers, cached := freeWorkers[1..], [w] + cached;
        workers := workers.Set(w, true, q);
        return;
      }
      if !sent {
        TurnAway(q);
        return;
      }
      replies := replies + [Handed(q, tasks.requests[task.value], Token(base, task.value))];
    }

    /** `hustmq_ha_reply_do_task`: whether the token is known. */
    method ReplyDoTask(token: nat, q: Request) returns (ok: bool)
      requires Valid()
      modifies this
      ensures Valid() && (ok <==> token in old(dict))
      ensures !ok ==> Now() == old(Now())
      ensures ok ==>
        var r := old(dict)[token];
        Now() == FreeTask(old(Now()), r).(dict := old(dict) - {token},
                                          replies := old(replies) + [Result(old(tasks).requests[r], q)])
    {
      hide Partition, Without, Freed, Records.Set;
      if token !in dict {
        return false;
      }
      var r := dict[token];
      replies := replies + [Result(tasks.requests[r], q)];
      dict := dict - {token};
      BackToFree(r);
      ok := true;
    }

    /** `__reply_task`: the worker that brings the result is acknowledged if its token was known. */
    method ReplyTask(token: nat, q: Request, fit: bool)
      requires Valid()
      modifies this
      ensures Valid() && Now() == BringResult(old(Now()), q, token, fit)
    {
      hide Partition, FreeTask;
      if !fit {
        TurnAway(q);
        return;
      }
      var ok := ReplyDoTask(token, q);
      replies := replies + [if ok then Acknowledged(q) else NotFound(q)];
    }

    method Handle(e: Event)
      requires Valid()
      modifies this
      ensures Valid() && Now() == Step(old(Now()), e)
    {
      hide Partition, DoGet, ClaimTask, BringResult, TaskTimeout, WorkerTimeout;
      match e {
        case Get(q, fit, stored, sent) => Get(q, fit, stored, sent);
        case Claim(q, sent) => Claim(q, sent);
        case Bring(q, token, fit) => ReplyTask(token, q, fit);
        case TaskTimer(r) => OnTaskTimeout(r);
        case WorkerTimer(w) => OnWorkerTimeout(w);
      }
    }
  }

  lemma WithoutHead(q: seq<nat>)
    requires q != []
    ensures Without(q, q[0]) == q[1..]
  {}

  lemma HeadBack(free: seq<nat>, q: seq<nat>)
    requires q != [] && q[0] !in free
    ensures Without(q, q[0]) == q[1..] && Freed(free, q[0]) == [q[0]] + free
  {
    WithoutAbsent(free, q[0]);
  }

  /** Any run of the handlers on a fresh pair of pools ends in the state of the run on values. */
  method Simulate(base: nat, taskCount: nat, workerCount: nat, events: seq<Event>) returns (s: State)
    ensures s == Run(Initial(base, taskCount, workerCount), events)
  {
    hide Run, Step;
    var m := new Rendezvous(base, taskCount, workerCount);
    ghost var start := Initial(base, taskCount, workerCount);
    RunNone(start);
    assert events[..0] == [];
    var n := 0;
    while n < |events|
      invariant 0 <= n <= |events| && fresh(m) && m.Valid() && m.Now() == Run(start, events[..n])
    {
      RunStep(start, events, n);
      m.Handle(events[n]);
      n := n + 1;
    }
    assert events[..n] == events;
    s := m.Now();
  }
}
