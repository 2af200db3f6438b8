/** The rendezvous of the message queue on values: its state, what each event does to it, and whole runs.
    Queues hold pool records by index. */
module MqSpec {
  import opened MqQueues
  import opened Words

  /** Requests are told apart by a number. */
  type Request = nat

  /** A response sent: to `request`; with the task of another request and its token, if one is handed
      over; with the result another request brought. */
  datatype Reply =
    | NotFound(request: Request)
    | TimedOut(request: Request)
    | Handed(request: Request, task: Request, token: nat)
    | Result(request: Request, from: Request)
    | Acknowledged(request: Request)

  /** The records of one pool: which have their timer running, and the request each belongs to. */
  datatype Records = Records(timers: seq<bool>, requests: seq<Request>) {
    predicate Valid() { |timers| == |requests| }

    function Waiting(q: Request): nat
      requires Valid()
    {
      Times(timers, requests, |timers|, q)
    }

    function Set(r: nat, timer: bool, q: Request): (x: Records)
      requires Valid() && r < |timers|
      ensures x.Valid() && |x.timers| == |timers|
      ensures q == requests[r] ==> x.requests == requests
    {
      Records(timers[r := timer], requests[r := q])
    }

    lemma SetSame(r: nat)
      requires Valid() && r < |timers| && !timers[r]
      ensures Set(r, false, requests[r]) == this
    {}

    lemma SetAgain(r: nat, timer: bool, q: Request)
      requires Valid() && r < |timers|
      ensures Set(r, timer, q).Set(r, true, q) == Set(r, true, q)
      ensures |Set(r, timer, q).requests| == |requests| && Set(r, timer, q).requests[r] == q
    {}

    lemma SetWaiting(r: nat, timer: bool, v: Request, q: Request)
      requires Valid() && r < |timers|
      ensures Set(r, timer, v).Waiting(q) + One(timers[r] && requests[r] == q) == Waiting(q) + One(timer && v == q)
    {
      TimesFrame(timers, requests, r, timer, v, |timers|, q);
    }
  }

  /** Tokens are consecutive numbers, printed from a 64-bit word. */
  function Token(base: nat, r: nat): nat
  {
    (base + r) % WORD64
  }

  lemma TokensDiffer(base: nat, n: nat, r: nat, s: nat)
    requires n <= WORD64 && r < n && s < n && r != s
    ensures Token(base, r) != Token(base, s)
  {}

  datatype State = State(base: nat, freeTasks: seq<nat>, unassigned: seq<nat>, claimed: seq<nat>, tasks: Records,
                         dict: map<nat, nat>, freeWorkers: seq<nat>, cached: seq<nat>, workers: Records,
                         replies: seq<Reply>)
  {
    /** Indices name records of the pools. */
    predicate Bounded()
    {
      && tasks.Valid() && workers.Valid()
      && Within(freeTasks, |tasks.timers|)
      && Within(unassigned, |tasks.timers|)
      && Within(claimed, |tasks.timers|)
      && (forall t :: t in dict ==> dict[t] < |tasks.timers|)
      && Within(freeWorkers, |workers.timers|)
      && Within(cached, |workers.timers|)
    }

    /** No task waits while a worker waits too. */
    predicate Balanced()
    {
      unassigned == [] || cached == []
    }
  }

  function Refuse(s: State, q: Request): State
  {
    s.(replies := s.replies + [NotFound(q)])
  }

  /** `do_get`. `fit` says that the request has a body of an allowed size and names a queue, `stored` that
      the dictionary has room, `sent` that the reply to a waiting worker can be built. The worker that began
      to wait last gets the task at once, or the task is left unassigned. */
  function DoGet(s: State, q: Request, fit: bool, stored: bool, sent: bool): (t: State)
    requires s.Bounded()
    ensures t.Bounded()
  {
    if !fit || s.freeTasks == [] then Refuse(s, q)
    else
      var r := s.freeTasks[0];
      var token := Token(s.base, r);
      var taken := s.(freeTasks := s.freeTasks[1..], tasks := s.tasks.Set(r, true, q),
                      dict := if stored || token in s.dict then s.dict[token := r] else s.dict);
      if s.cached == [] || !sent then taken.(unassigned := [r] + s.unassigned)
      else
        var w := s.cached[0];
        taken.(claimed := [r] + s.claimed, cached := s.cached[1..], freeWorkers := [w] + s.freeWorkers,
               workers := s.workers.Set(w, false, s.workers.requests[w]),
               replies := s.replies + [Handed(s.workers.requests[w], q, token)])
  }

  /** `do_post` without a token: a worker gets the newest unassigned task, or waits. A task whose hand-over
      fails (`sent` is false) is claimed although no worker has it. */
  function ClaimTask(s: State, q: Request, sent: bool): (t: State)
    requires s.Bounded()
    ensures t.Bounded()
  {
    if s.unassigned != [] then
      var r := s.unassigned[0];
      s.(unassigned := s.unassigned[1..], claimed := [r] + s.claimed,
         replies := s.replies + [if sent then Handed(q, s.tasks.requests[r], Token(s.base, r)) else NotFound(q)])
    else if s.freeWorkers == [] then Refuse(s, q)
    else
      var w := s.freeWorkers[0];
      s.(freeWorkers := s.freeWorkers[1..], cached := [w] + s.cached, workers := s.workers.Set(w, true, q))
  }

  /** A task record comes back to the free queue, from wherever it is, and its timer stops. */
  function FreeTask(s: State, r: nat): (t: State)
    requires s.Bounded() && r < |s.tasks.timers|
    ensures t.Bounded()
  {
    s.(freeTasks := Freed(s.freeTasks, r), unassigned := Without(s.unassigned, r), claimed := Without(s.claimed, r),
       tasks := s.tasks.Set(r, false, s.tasks.requests[r]))
  }

  /** `do_post` with a token: the request last held by the token's record is answered, even if the record
      is free by now, the token is dropped, and the worker is acknowledged. */
  function BringResult(s: State, q: Request, token: nat, fit: bool): (t: State)
    requires s.Bounded()
    ensures t.Bounded()
  {
    if !fit || token !in s.dict then Refuse(s, q)
    else
      var r := s.dict[token];
      FreeTask(s, r).(dict := s.dict - {token},
                      replies := s.replies + [Result(s.tasks.requests[r], q), Acknowledged(q)])
  }

  /** A `do_get` runs out of time; its token stays stored. */
  function TaskTimeout(s: State, r: nat): (t: State)
    requires s.Bounded()
    ensures t.Bounded()
  {
    if r < |s.tasks.timers| && s.tasks.timers[r] then
      FreeTask(s, r).(replies := s.replies + [TimedOut(s.tasks.requests[r])])
    else s
  }

  /** A waiting `do_post` runs out of time. */
  function WorkerTimeout(s: State, w: nat): (t: State)
    requires s.Bounded()
    ensures t.Bounded()
  {
    if w < |s.workers.timers| && s.workers.timers[w] then
      s.(freeWorkers := Freed(s.freeWorkers, w), cached := Without(s.cached, w),
         workers := s.workers.Set(w, false, s.workers.requests[w]),
         replies := s.replies + [TimedOut(s.workers.requests[w])])
    else s
  }

  // --- runs ---

  datatype Event =
    | Get(q: Request, fit: bool, stored: bool, sent: bool)
    | Claim(q: Request, sent: bool)
    | Bring(q: Request, token: nat, fit: bool)
    | TaskTimer(record: nat)
    | WorkerTimer(record: nat)
  {
    predicate Arrival() { Get? || Claim? || Bring? }
  }

  function Step(s: State, e: Event): (t: State)
    requires s.Bounded()
    ensures t.Bounded()
  {
    match e
    case Get(q, fit, stored, sent) => DoGet(s, q, fit, stored, sent)
    case Claim(q, sent) => ClaimTask(s, q, sent)
    case Bring(q, token, fit) => BringResult(s, q, token, fit)
    case TaskTimer(r) => TaskTimeout(s, r)
    case WorkerTimer(w) => WorkerTimeout(s, w)
  }

  function Idle(n: nat): Records
  {
    Records(seq(n, _ => false), seq(n, _ => 0))
  }

  /** All records free, nothing stored, nobody waiting. */
  function Initial(base: nat, taskCount: nat, workerCount: nat): (s: State)
    ensures s.Bounded()
  {
    State(base, All(taskCount), [], [], Idle(taskCount), map[], All(workerCount), [], Idle(workerCount), [])
  }

  function Run(s: State, events: seq<Event>): (t: State)
    requires s.Bounded()
    ensures t.Bounded()
  {
    if events == [] then s else Step(Run(s, events[..|events| - 1]), events[|events| - 1])
  }

  lemma RunNone(s: State)
    requires s.Bounded()
    ensures Run(s, []) == s
  {}

  lemma RunStep(s: State, events: seq<Event>, k: nat)
    requires s.Bounded() && k < |events|
    ensures Run(s, events[..k + 1]) == Step(Run(s, events[..k]), events[k])
  {
    assert events[..k + 1][..k] == events[..k];
  }

  /** The requests that arrived. */
  function Arrivals(events: seq<Event>): set<Request>
  {
    if events == [] then {}
    else
      var e := events[|events| - 1];
      Arrivals(events[..|events| - 1]) + if e.Arrival() then {e.q} else {}
  }

  /** Every request arrives once. */
  predicate Fresh(events: seq<Event>)
  {
    events == [] ||
    var before, e := events[..|events| - 1], events[|events| - 1];
    Fresh(before) && (e.Arrival() ==> e.q !in Arrivals(before))
  }
}
