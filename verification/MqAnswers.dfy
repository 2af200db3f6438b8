/** When the rendezvous turns a request away, when a request waits, and who is served next. The laws speak of
    the records with a running timer and of the replies sent, at every point of every run. */
module MqAnswers {
  import opened MqQueues
  import opened MqRuns
  import opened MqSpec
  import opened Words

  /** All records of a pool are in use. */
  predicate Full(records: Records)
  {
    forall r: nat :: r < |records.timers| ==> records.timers[r]
  }

  /** The records of all other requests wait, or do not, as before. */
  ghost predicate OthersWait(before: Records, after: Records, q: Request)
    requires before.Valid() && after.Valid()
  {
    forall x: Request :: x != q ==> after.Waiting(x) == before.Waiting(x)
  }

  lemma FreshLast(events: seq<Event>, e: Event)
    requires Fresh(events + [e])
    ensures Fresh(events) && (e.Arrival() ==> e.q !in Arrivals(events))
  {
    assert (events + [e])[..|events|] == events;
  }

  lemma RunLast(s: State, events: seq<Event>, e: Event)
    requires s.Bounded()
    ensures Run(s, events + [e]) == Step(Run(s, events), e)
  {
    assert (events + [e])[..|events|] == events;
  }

  lemma SeenNowhere(s: State, seen: set<Request>, stale: multiset<Request>, unstored: set<nat>, expired: set<nat>,
                    q: Request)
    requires Kept(s, seen, stale, unstored, expired) && q !in seen
    ensures s.Bounded() && s.tasks.Waiting(q) == 0 && s.workers.Waiting(q) == 0
  {}

  /** The free queue is empty exactly if every timer runs. */
  lemma {:induction false} EmptyIsFull(free: seq<nat>, records: Records)
    requires Timed(free, records) && Within(free, |records.timers|)
    ensures free == [] <==> Full(records)
  {
    if free != [] { assert free[0] in free; }
  }

  /** What is known of the state in which a new request arrives. */
  lemma Arriving(base: nat, taskCount: nat, workerCount: nat, events: seq<Event>, e: Event)
    requires taskCount <= WORD64 && Fresh(events + [e]) && e.Arrival()
    ensures var s := Start(base, taskCount, workerCount, events);
      && Start(base, taskCount, workerCount, events + [e]) == Step(s, e) && s.base == base
      && s.tasks.Waiting(e.q) == 0 && s.workers.Waiting(e.q) == 0
      && (s.freeTasks == [] <==> Full(s.tasks)) && (s.freeWorkers == [] <==> Full(s.workers))
      && (forall r :: r in s.freeTasks ==> !s.tasks.timers[r])
      && (forall w :: w in s.freeWorkers ==> !s.workers.timers[w])
      && (forall t :: t in s.dict ==> Token(base, s.dict[t]) == t)
  {
    hide Run, Step, Kept, Full, Fresh, Arrivals;
    var start := Initial(base, taskCount, workerCount);
    FreshLast(events, e);
    RunLast(start, events, e);
    RunKeeps(base, taskCount, workerCount, events);
    SizesKept(start, events);
    KeptTells(Run(start, events), Arrivals(events), Stale(start, events), Unstored(start, events), Expired(events),
      e.q);
  }

  lemma KeptTells(s: State, seen: set<Request>, stale: multiset<Request>, unstored: set<nat>, expired: set<nat>,
                  q: Request)
    requires Kept(s, seen, stale, unstored, expired) && q !in seen
    ensures s.Bounded() && s.tasks.Waiting(q) == 0 && s.workers.Waiting(q) == 0
    ensures (s.freeTasks == [] <==> Full(s.tasks)) && (s.freeWorkers == [] <==> Full(s.workers))
    ensures (forall r :: r in s.freeTasks ==> !s.tasks.timers[r])
      && (forall w :: w in s.freeWorkers ==> !s.workers.timers[w])
    ensures forall t :: t in s.dict ==> Token(s.base, s.dict[t]) == t
  {
    hide Full, Conserved, Partition, HandedOnce, Lingers;
    SeenNowhere(s, seen, stale, unstored, expired, q);
    EmptyIsFull(s.freeTasks, s.tasks);
    EmptyIsFull(s.freeWorkers, s.workers);
  }

  // --- who is turned away ---

  /** Over every run a request is turned away exactly in these cases: a worker, if no task is unassigned and
      every worker record is in use, or if handing it the newest task fails, which nobody else gets then; a
      task, if it is unfit or every task record is in use; a result, if it is unfit or its token is not
      stored. */
  lemma TurnedAwayExactly(base: nat, taskCount: nat, workerCount: nat, events: seq<Event>, e: Event)
    requires taskCount <= WORD64 && Fresh(events + [e]) && e.Arrival()
    ensures var s := Start(base, taskCount, workerCount, events);
      var t := Start(base, taskCount, workerCount, events + [e]);
      && s.replies <= t.replies
      && (NotFound(e.q) in t.replies[|s.replies|..] <==>
            if e.Claim? then (if s.unassigned == [] then Full(s.workers) else !e.sent)
            else if e.Get? then !e.fit || Full(s.tasks)
            else !e.fit || e.token !in s.dict)
      && (NotFound(e.q) in t.replies[|s.replies|..] ==>
            && t.replies == s.replies + [NotFound(e.q)] && t.tasks == s.tasks && t.workers == s.workers
            && t.dict == s.dict && t.cached == s.cached
            && if e.Claim? && s.unassigned != [] then s.unassigned == s.unassigned[..1] + t.unassigned
               else t.unassigned == s.unassigned)
      && (forall q: Request :: q != e.q ==> NotFound(q) !in t.replies[|s.replies|..])
  {
    hide Full, Run, Records.Waiting;
    Arriving(base, taskCount, workerCount, events, e);
  }

  // --- who waits ---

  lemma Begins(records: Records, r: nat, q: Request)
    requires records.Valid() && r < |records.timers| && !records.timers[r] && records.Waiting(q) == 0
    ensures var after := records.Set(r, true, q);
      after.Waiting(q) == 1 && OthersWait(records, after, q) && after.timers[r] && after.requests[r] == q
  {
    forall x: Request ensures records.Set(r, true, q).Waiting(x) == records.Waiting(x) + One(q == x) {
      records.SetWaiting(r, true, q, x);
    }
  }

  lemma Ends(records: Records, r: nat)
    requires records.Valid() && r < |records.timers| && records.timers[r]
    ensures var q := records.requests[r]; var after := records.Set(r, false, q);
      after.Waiting(q) + 1 == records.Waiting(q) && OthersWait(records, after, q) && !after.timers[r]
  {
    var q := records.requests[r];
    forall x: Request ensures records.Set(r, false, q).Waiting(x) + One(q == x) == records.Waiting(x) {
      records.SetWaiting(r, false, q, x);
    }
  }

  /** A worker that finds no task while a record is free gets no reply and waits in one record, the newest of
      the waiting ones; nothing else changes. */
  lemma WorkerWaits(base: nat, taskCount: nat, workerCount: nat, events: seq<Event>, q: Request, sent: bool)
    requires taskCount <= WORD64 && Fresh(events + [Claim(q, sent)])
    requires var s := Start(base, taskCount, workerCount, events); s.unassigned == [] && !Full(s.workers)
    ensures var s := Start(base, taskCount, workerCount, events);
      var t := Start(base, taskCount, workerCount, events + [Claim(q, sent)]);
      && t.replies == s.replies && t.tasks == s.tasks && t.dict == s.dict && t.unassigned == []
      && t.workers.Waiting(q) == 1 && OthersWait(s.workers, t.workers, q)
      && AtFront(t, q) && t.cached[1..] == s.cached
  {
    hide Full, Run, Records.Waiting, OthersWait, Records.Set;
    Arriving(base, taskCount, workerCount, events, Claim(q, sent));
    var s := Start(base, taskCount, workerCount, events);
    assert s.freeWorkers[0] in s.freeWorkers;
    Begins(s.workers, s.freeWorkers[0], q);
  }

  /** A fit task that finds a record waits in one record, whether or not a worker gets it at once; it is
      handed over exactly if a worker waits and the reply to it can be built, and is the newest unassigned
      task otherwise. */
  lemma TaskWaits(base: nat, taskCount: nat, workerCount: nat, events: seq<Event>, q: Request, stored: bool, sent: bool)
    requires taskCount <= WORD64 && Fresh(events + [Get(q, true, stored, sent)])
    requires !Full(Start(base, taskCount, workerCount, events).tasks)
    ensures var s := Start(base, taskCount, workerCount, events);
      var t := Start(base, taskCount, workerCount, events + [Get(q, true, stored, sent)]);
      && t.tasks.Waiting(q) == 1 && OthersWait(s.tasks, t.tasks, q)
      && if s.cached == [] || !sent then
           && t.replies == s.replies && t.workers == s.workers && t.cached == s.cached
           && TaskAtFront(t, q) && t.unassigned[1..] == s.unassigned
         else
           && |t.replies| == |s.replies| + 1 && s.replies < t.replies && t.replies[|s.replies|].Handed?
           && t.replies[|s.replies|].task == q && t.unassigned == s.unassigned && t.cached == s.cached[1..]
  {
    hide Full, Run, Records.Waiting, OthersWait, Records.Set;
    Arriving(base, taskCount, workerCount, events, Get(q, true, stored, sent));
    var s := Start(base, taskCount, workerCount, events);
    assert s.freeTasks[0] in s.freeTasks;
    Begins(s.tasks, s.freeTasks[0], q);
  }

  /** A timer that runs out tells the request waiting in its record, ends its wait and nobody else's, and
      leaves the tokens; any other timer event changes nothing. */
  lemma TimeoutTells(s: State, r: nat)
    requires s.Bounded()
    ensures var t := TaskTimeout(s, r);
      if r < |s.tasks.timers| && s.tasks.timers[r] then
        var q := s.tasks.requests[r];
        && t.replies == s.replies + [TimedOut(q)] && t.tasks.Waiting(q) + 1 == s.tasks.Waiting(q)
        && OthersWait(s.tasks, t.tasks, q) && !t.tasks.timers[r] && r in t.freeTasks
        && t.dict == s.dict && t.workers == s.workers && t.cached == s.cached
      else t == s
    ensures var t := WorkerTimeout(s, r);
      if r < |s.workers.timers| && s.workers.timers[r] then
        var q := s.workers.requests[r];
        && t.replies == s.replies + [TimedOut(q)] && t.workers.Waiting(q) + 1 == s.workers.Waiting(q)
        && OthersWait(s.workers, t.workers, q) && !t.workers.timers[r] && r in t.freeWorkers
        && t.dict == s.dict && t.tasks == s.tasks && t.unassigned == s.unassigned
      else t == s
  {
    hide OthersWait, Records.Waiting, Records.Set;
    if r < |s.tasks.timers| && s.tasks.timers[r] { Ends(s.tasks, r); }
    if r < |s.workers.timers| && s.workers.timers[r] { Ends(s.workers, r); }
  }

  // --- who is served next ---

  /** The worker `q` waits in the record that began to wait last. */
  predicate AtFront(s: State, q: Request)
    requires s.Bounded()
  {
    s.cached != [] && s.workers.timers[s.cached[0]] && s.workers.requests[s.cached[0]] == q
  }

  /** The task of `q` is the newest unassigned one. */
  predicate TaskAtFront(s: State, q: Request)
    requires s.Bounded()
  {
    s.unassigned != [] && s.tasks.timers[s.unassigned[0]] && s.tasks.requests[s.unassigned[0]] == q
  }

  /** No task and no worker arrives that could be served, and the timer of worker record `w` does not fire. */
  predicate LeavesWorker(e: Event, w: nat)
  {
    e.Bring? || e.TaskTimer? || (e.Get? && !e.fit) || (e.WorkerTimer? && e.record != w)
  }

  /** No task and no worker arrives that could be served, the timer of task record `r` does not fire, and no
      result comes in for it. */
  predicate LeavesTask(e: Event, base: nat, r: nat)
  {
    e.WorkerTimer? || (e.Get? && !e.fit) || (e.TaskTimer? && e.record != r) || (e.Bring? && e.token != Token(base, r))
  }

  lemma WithoutLater(q: seq<nat>, r: nat)
    requires q != [] && q[0] != r
    ensures Without(q, r) != [] && Without(q, r)[0] == q[0]
  {}

  lemma WorkerStays(s: State, e: Event, q: Request)
    requires s.Bounded() && AtFront(s, q) && LeavesWorker(e, s.cached[0])
    ensures var t := Step(s, e); AtFront(t, q) && t.cached[0] == s.cached[0]
  {
    hide Freed, Without;
    if e.WorkerTimer? { WithoutLater(s.cached, e.record); }
  }

  lemma {:induction false} WorkerStaysLong(s: State, events: seq<Event>, q: Request)
    requires s.Bounded() && AtFront(s, q) && forall i :: 0 <= i < |events| ==> LeavesWorker(events[i], s.cached[0])
    ensures var t := Run(s, events); AtFront(t, q) && t.cached[0] == s.cached[0]
  {
    hide Step, AtFront;
    if events != [] {
      var before := events[..|events| - 1];
      WorkerStaysLong(s, before, q);
      WorkerStays(Run(s, before), events[|events| - 1], q);
    }
  }

  lemma TaskStays(s: State, e: Event, q: Request)
    requires s.Bounded() && TaskAtFront(s, q) && LeavesTask(e, s.base, s.unassigned[0])
      && forall t :: t in s.dict ==> Token(s.base, s.dict[t]) == t
    ensures var t := Step(s, e);
      && TaskAtFront(t, q) && t.unassigned[0] == s.unassigned[0] && t.base == s.base
      && forall k :: k in t.dict ==> Token(t.base, t.dict[k]) == k
  {
    hide Freed, Without, Token;
    if e.TaskTimer? { WithoutLater(s.unassigned, e.record); }
    if e.Bring? && e.token in s.dict { WithoutLater(s.unassigned, s.dict[e.token]); }
  }

  lemma {:induction false} TaskStaysLong(s: State, events: seq<Event>, q: Request)
    requires s.Bounded() && TaskAtFront(s, q)
      && (forall i :: 0 <= i < |events| ==> LeavesTask(events[i], s.base, s.unassigned[0]))
      && forall t :: t in s.dict ==> Token(s.base, s.dict[t]) == t
    ensures var t := Run(s, events);
      && TaskAtFront(t, q) && t.unassigned[0] == s.unassigned[0] && t.base == s.base
      && forall k :: k in t.dict ==> Token(t.base, t.dict[k]) == k
  {
    hide Step, TaskAtFront, Token;
    if events != [] {
      var before := events[..|events| - 1];
      TaskStaysLong(s, before, q);
      TaskStays(Run(s, before), events[|events| - 1], q);
    }
  }

  lemma {:induction false} RunAfter(s: State, first: seq<Event>, rest: seq<Event>)
    requires s.Bounded()
    ensures Run(s, first + rest) == Run(Run(s, first), rest)
  {
    hide Step;
    if rest == [] {
      assert first + rest == first;
    } else {
      var before := rest[..|rest| - 1];
      RunAfter(s, first, before);
      assert (first + rest)[..|first + rest| - 1] == first + before;
    }
  }

  lemma OwnTokens(base: nat, taskCount: nat, workerCount: nat, events: seq<Event>, rest: seq<Event>)
    requires taskCount <= WORD64 && Fresh(events + rest)
    ensures var s := Start(base, taskCount, workerCount, events);
      s.base == base && forall t :: t in s.dict ==> Token(base, s.dict[t]) == t
  {
    hide Run, Fresh, Partition, Timed, Conserved, HandedOnce, Lingers, Token;
    FreshPrefix(events + rest, |events|);
    assert (events + rest)[..|events|] == events;
    RunKeeps(base, taskCount, workerCount, events);
    SizesKept(Initial(base, taskCount, workerCount), events);
  }

  /** The worker that began to wait last is served first: whatever results and timeouts of others come in
      between, the next fit task that finds a record and whose hand-over succeeds goes to it, under a token
      that leads to the task if it could be stored. */
  lemma NextTaskHanded(base: nat, taskCount: nat, workerCount: nat, events: seq<Event>, between: seq<Event>,
                       q: Request, p: Request, stored: bool)
    requires taskCount <= WORD64 && Fresh(events + between + [Get(p, true, stored, true)])
    requires var s := Start(base, taskCount, workerCount, events);
      AtFront(s, q) && forall i :: 0 <= i < |between| ==> LeavesWorker(between[i], s.cached[0])
    requires !Full(Start(base, taskCount, workerCount, events + between).tasks)
    ensures var s := Start(base, taskCount, workerCount, events + between);
      var t := Start(base, taskCount, workerCount, events + between + [Get(p, true, stored, true)]);
      exists r: nat | r < |t.tasks.timers| ::
        && t.replies == s.replies + [Handed(q, p, Token(base, r))]
        && t.tasks.timers[r] && t.tasks.requests[r] == p
        && (stored ==> Token(base, r) in t.dict && t.dict[Token(base, r)] == r)
        && t.workers.Waiting(q) + 1 == s.workers.Waiting(q) && OthersWait(s.workers, t.workers, q)
  {
    hide Full, Run, Records.Waiting, OthersWait;
    var start := Initial(base, taskCount, workerCount);
    RunAfter(start, events, between);
    WorkerStaysLong(Run(start, events), between, q);
    Arriving(base, taskCount, workerCount, events + between, Get(p, true, stored, true));
    var s := Run(start, events + between);
    Ends(s.workers, s.cached[0]);
  }

  /** The newest unassigned task is handed over first: whatever comes in between for other records, the next
      worker whose reply can be built gets it, and the task goes on waiting for its result. */
  lemma NextWorkerServed(base: nat, taskCount: nat, workerCount: nat, events: seq<Event>, between: seq<Event>,
                         q: Request, w: Request)
    requires taskCount <= WORD64 && Fresh(events + between + [Claim(w, true)])
    requires var s := Start(base, taskCount, workerCount, events);
      TaskAtFront(s, q) && forall i :: 0 <= i < |between| ==> LeavesTask(between[i], base, s.unassigned[0])
    ensures var r := Start(base, taskCount, workerCount, events).unassigned[0];
      var s := Start(base, taskCount, workerCount, events + between);
      var t := Start(base, taskCount, workerCount, events + between + [Claim(w, true)]);
      && t.replies == s.replies + [Handed(w, q, Token(base, r))]
      && t.tasks == s.tasks && r < |t.tasks.timers| && t.tasks.timers[r] && t.tasks.requests[r] == q
          && t.workers == s.workers
      && s.unassigned == [r] + t.unassigned
  {
    hide Full, Run, Records.Waiting, Token;
    var start := Initial(base, taskCount, workerCount);
    RunAfter(start, events, between);
    assert events + (between + [Claim(w, true)]) == events + between + [Claim(w, true)];
    OwnTokens(base, taskCount, workerCount, events, between + [Claim(w, true)]);
    TaskStaysLong(Run(start, events), between, q);
    Arriving(base, taskCount, workerCount, events + between, Claim(w, true));
  }
}
