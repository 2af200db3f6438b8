/** What every run of the rendezvous keeps: no request is lost or answered twice, no task is handed out
    twice, tasks and workers do not wait side by side, and to whom a token leads. */
module MqRuns {
  import opened MqQueues
  import opened MqSpec
  import opened Words

  // --- the balance of requests ---

  function Answered(replies: seq<Reply>, q: Request): nat
  {
    if replies == [] then 0
    else Answered(replies[..|replies| - 1], q) + One(replies[|replies| - 1].request == q)
  }

  lemma AnsweredStep(replies: seq<Reply>, reply: Reply, q: Request)
    ensures Answered(replies + [reply], q) == Answered(replies, q) + One(reply.request == q)
  {}

  /** Every request seen is either still waiting in one record or was answered, once; except that
      `stale` results went to requests that had been answered before. */
  ghost predicate Conserved(seen: set<Request>, stale: multiset<Request>, replies: seq<Reply>, tasks: Records,
                            workers: Records)
    requires tasks.Valid() && workers.Valid()
  {
    forall q: Request ::
      && One(q in seen) + stale[q] == Answered(replies, q) + tasks.Waiting(q) + workers.Waiting(q)
      && (q !in seen ==> stale[q] == 0)
  }

  lemma Leave(seen: set<Request>, stale: multiset<Request>, replies: seq<Reply>, tasks: Records, workers: Records,
              r: nat, reply: Reply)
    requires tasks.Valid() && workers.Valid() && Conserved(seen, stale, replies, tasks, workers)
    requires r < |tasks.timers| && tasks.timers[r] && reply.request == tasks.requests[r]
    ensures Conserved(seen, stale, replies + [reply], tasks.Set(r, false, tasks.requests[r]), workers)
  {
    forall q: Request
      ensures Answered(replies + [reply], q) + tasks.Set(r, false, tasks.requests[r]).Waiting(q) ==
        Answered(replies, q) + tasks.Waiting(q)
    {
      AnsweredStep(replies, reply, q);
      tasks.SetWaiting(r, false, tasks.requests[r], q);
    }
  }

  /** Workers and tasks play the same part in the balance of requests. */
  lemma ConservedTurns(seen: set<Request>, stale: multiset<Request>, replies: seq<Reply>, tasks: Records,
                       workers: Records)
    requires tasks.Valid() && workers.Valid()
    ensures Conserved(seen, stale, replies, tasks, workers) <==> Conserved(seen, stale, replies, workers, tasks)
  {}

  lemma LeaveWorker(seen: set<Request>, stale: multiset<Request>, replies: seq<Reply>, tasks: Records,
                    workers: Records, w: nat, reply: Reply)
    requires tasks.Valid() && workers.Valid() && Conserved(seen, stale, replies, tasks, workers)
    requires w < |workers.timers| && workers.timers[w] && reply.request == workers.requests[w]
    ensures Conserved(seen, stale, replies + [reply], tasks, workers.Set(w, false, workers.requests[w]))
  {
    hide Conserved;
    ConservedTurns(seen, stale, replies, tasks, workers);
    Leave(seen, stale, replies, workers, tasks, w, reply);
    ConservedTurns(seen, stale, replies + [reply], tasks, workers.Set(w, false, workers.requests[w]));
  }

  lemma JoinWorker(seen: set<Request>, stale: multiset<Request>, replies: seq<Reply>, tasks: Records, workers: Records,
                   w: nat, q: Request)
    requires tasks.Valid() && workers.Valid() && Conserved(seen, stale, replies, tasks, workers) && q !in seen
    requires w < |workers.timers| && !workers.timers[w]
    ensures Conserved(seen + {q}, stale, replies, tasks, workers.Set(w, true, q))
  {
    hide Conserved;
    ConservedTurns(seen, stale, replies, tasks, workers);
    Join(seen, stale, replies, workers, tasks, w, q);
    ConservedTurns(seen + {q}, stale, replies, tasks, workers.Set(w, true, q));
  }

  /** A new request is answered at once. */
  lemma AnswerNow(seen: set<Request>, stale: multiset<Request>, replies: seq<Reply>, tasks: Records, workers: Records,
                  reply: Reply)
    requires tasks.Valid() && workers.Valid() && Conserved(seen, stale, replies, tasks, workers)
      && reply.request !in seen
    ensures Conserved(seen + {reply.request}, stale, replies + [reply], tasks, workers)
  {}

  /** A new request begins to wait in a free record. */
  lemma Join(seen: set<Request>, stale: multiset<Request>, replies: seq<Reply>, tasks: Records, workers: Records,
             r: nat, q: Request)
    requires tasks.Valid() && workers.Valid() && Conserved(seen, stale, replies, tasks, workers) && q !in seen
    requires r < |tasks.timers| && !tasks.timers[r]
    ensures Conserved(seen + {q}, stale, replies, tasks.Set(r, true, q), workers)
  {
    forall x: Request ensures tasks.Set(r, true, q).Waiting(x) == tasks.Waiting(x) + One(q == x) {
      tasks.SetWaiting(r, true, q, x);
    }
  }

  /** An answer to a request that no longer waits. */
  lemma AnswerAgain(seen: set<Request>, stale: multiset<Request>, replies: seq<Reply>, tasks: Records,
                    workers: Records, reply: Reply)
    requires tasks.Valid() && workers.Valid() && Conserved(seen, stale, replies, tasks, workers)
      && reply.request in seen
    ensures Conserved(seen, stale + multiset{reply.request}, replies + [reply], tasks, workers)
  {}

  /** The result brought by `q` goes to the request last held by record `r`, waiting or not. */
  lemma AnswerResult(seen: set<Request>, stale: multiset<Request>, replies: seq<Reply>, tasks: Records,
                     workers: Records,
                     free: seq<nat>, r: nat, q: Request)
    requires workers.Valid() && Timed(free, tasks) && Conserved(seen, stale, replies, tasks, workers)
    requires r < |tasks.timers| && tasks.requests[r] in seen
    ensures var g := tasks.requests[r];
      Conserved(seen, if r in free then stale + multiset{g} else stale, replies + [Result(g, q)],
                tasks.Set(r, false, g), workers)
  {
    hide Conserved;
    var g := tasks.requests[r];
    if tasks.timers[r] {
      Leave(seen, stale, replies, tasks, workers, r, Result(g, q));
    } else {
      AnswerAgain(seen, stale, replies, tasks, workers, Result(g, q));
      tasks.SetSame(r);
    }
  }

  // --- handing out ---

  /** Waiting tasks belong to different requests, each of them seen; the task of a request is handed to
      at most one worker, and to none while it is unassigned. */
  ghost predicate HandedOnce(replies: seq<Reply>, seen: set<Request>, unassigned: seq<nat>, tasks: Records)
    requires tasks.Valid()
  {
    && (forall r: nat :: r < |tasks.timers| && tasks.timers[r] ==> tasks.requests[r] in seen)
    && (forall r: nat, s: nat :: r < s < |tasks.timers| && tasks.timers[r] && tasks.timers[s] ==>
        tasks.requests[r] != tasks.requests[s])
    && (forall r :: r in unassigned ==> r < |tasks.timers| && tasks.timers[r])
    && (forall i :: 0 <= i < |replies| && replies[i].Handed? ==> replies[i].task in seen)
    && (forall i, j :: 0 <= i < j < |replies| && replies[i].Handed? && replies[j].Handed? ==>
        replies[i].task != replies[j].task)
    && (forall i, r :: 0 <= i < |replies| && replies[i].Handed? && r in unassigned ==>
        replies[i].task != tasks.requests[r])
  }

  lemma HandedLess(replies: seq<Reply>, seen: set<Request>, unassigned: seq<nat>, tasks: Records, less: seq<nat>,
                   r: nat)
    requires tasks.Valid() && HandedOnce(replies, seen, unassigned, tasks) && r < |tasks.timers|
    requires forall x :: x in less ==> x in unassigned && x != r
    ensures HandedOnce(replies, seen, less, tasks.Set(r, false, tasks.requests[r]))
  {}

  lemma HandedSeen(replies: seq<Reply>, seen: set<Request>, unassigned: seq<nat>, tasks: Records, q: Request)
    requires tasks.Valid() && HandedOnce(replies, seen, unassigned, tasks)
    ensures HandedOnce(replies, seen + {q}, unassigned, tasks)
  {}

  lemma HandedMore(replies: seq<Reply>, seen: set<Request>, unassigned: seq<nat>, tasks: Records, reply: Reply)
    requires tasks.Valid() && HandedOnce(replies, seen, unassigned, tasks) && !reply.Handed?
    ensures HandedOnce(replies + [reply], seen, unassigned, tasks)
  {}

  lemma HandedJoin(replies: seq<Reply>, seen: set<Request>, unassigned: seq<nat>, tasks: Records, r: nat, q: Request)
    requires tasks.Valid() && HandedOnce(replies, seen, unassigned, tasks)
    requires r < |tasks.timers| && !tasks.timers[r] && q !in seen
    ensures HandedOnce(replies, seen + {q}, [r] + unassigned, tasks.Set(r, true, q))
  {}

  /** The task of request `g` is with no worker and in no record of the unassigned queue. */
  ghost predicate Unhanded(replies: seq<Reply>, seen: set<Request>, unassigned: seq<nat>, tasks: Records, g: Request)
    requires tasks.Valid()
  {
    && g in seen
    && (forall i :: 0 <= i < |replies| && replies[i].Handed? ==> replies[i].task != g)
    && (forall x :: x in unassigned ==> x < |tasks.timers| && tasks.requests[x] != g)
  }

  lemma HandedFewer(replies: seq<Reply>, seen: set<Request>, unassigned: seq<nat>, tasks: Records, less: seq<nat>,
                    r: nat)
    requires tasks.Valid() && HandedOnce(replies, seen, unassigned, tasks)
    requires r in unassigned && forall x :: x in less ==> x in unassigned && x != r
    ensures r < |tasks.timers| && tasks.timers[r]
    ensures HandedOnce(replies, seen, less, tasks) && Unhanded(replies, seen, less, tasks, tasks.requests[r])
  {}

  lemma HandedNow(replies: seq<Reply>, seen: set<Request>, unassigned: seq<nat>, tasks: Records, g: Request,
                  worker: Request, token: nat)
    requires tasks.Valid() && HandedOnce(replies, seen, unassigned, tasks)
      && Unhanded(replies, seen, unassigned, tasks, g)
    ensures HandedOnce(replies + [Handed(worker, g, token)], seen, unassigned, tasks)
  {}

  // --- timers and tokens ---

  /** A record's timer runs exactly while the record is off the free queue. */
  ghost predicate Timed(free: seq<nat>, records: Records)
  {
    records.Valid() && forall r: nat :: r < |records.timers| ==> (records.timers[r] <==> r !in free)
  }

  /** Every token stored leads to the record holding it, last used by a request seen, and every record off
      the free queue can be reached by its token unless storing it failed. */
  ghost predicate Tokens(base: nat, dict: map<nat, nat>, seen: set<Request>, requests: seq<Request>, free: seq<nat>,
                         unstored: set<nat>)
  {
    && (forall t :: t in dict ==> dict[t] < |requests| && Token(base, dict[t]) == t && requests[dict[t]] in seen)
    && (forall r: nat :: r < |requests| && r !in free && r !in unstored ==> Token(base, r) in dict)
  }

  /** A token outlives the use of its record only if the record was freed by a timeout. */
  ghost predicate Lingers(dict: map<nat, nat>, free: seq<nat>, expired: set<nat>)
  {
    forall t :: t in dict && dict[t] in free ==> dict[t] in expired
  }

  lemma LingersFreed(base: nat, dict: map<nat, nat>, free: seq<nat>, expired: set<nat>, r: nat)
    requires Lingers(dict, free, expired) && forall t :: t in dict ==> Token(base, dict[t]) == t
    ensures Lingers(dict, Freed(free, r), expired + {r})
    ensures Lingers(dict - {Token(base, r)}, Freed(free, r), expired)
  {
    forall x: nat ensures x in Freed(free, r) <==> x == r || x in free { FreedIn(free, r, x); }
  }

  lemma LingersTaken(dict: map<nat, nat>, free: seq<nat>, expired: set<nat>, t: nat, r: nat, rest: seq<nat>)
    requires Lingers(dict, free, expired) && free == [r] + rest && r !in rest
    ensures Lingers(dict, rest, expired) && Lingers(dict[t := r], rest, expired)
  {}

  lemma TimedFreed(free: seq<nat>, records: Records, r: nat)
    requires Timed(free, records) && r < |records.timers|
    ensures Timed(Freed(free, r), records.Set(r, false, records.requests[r]))
  {
    forall x: nat | x < |records.timers| ensures x in Freed(free, r) <==> x == r || x in free { FreedIn(free, r, x); }
  }

  lemma TokensFreed(base: nat, dict: map<nat, nat>, seen: set<Request>, requests: seq<Request>, free: seq<nat>,
                    unstored: set<nat>, r: nat)
    requires Tokens(base, dict, seen, requests, free, unstored) && r < |requests| <= WORD64
    ensures Tokens(base, dict, seen, requests, Freed(free, r), unstored)
    ensures Tokens(base, dict - {Token(base, r)}, seen, requests, Freed(free, r), unstored)
  {
    forall x: nat | x < |requests| && x !in Freed(free, r) ensures x !in free && Token(base, x) != Token(base, r) {
      FreedIn(free, r, x);
      FreedIn(free, r, r);
      TokensDiffer(base, |requests|, x, r);
    }
  }

  lemma TokensOwn(base: nat, dict: map<nat, nat>, seen: set<Request>, requests: seq<Request>, free: seq<nat>,
                  unstored: set<nat>)
    requires Tokens(base, dict, seen, requests, free, unstored)
    ensures forall t :: t in dict ==> dict[t] < |requests| && Token(base, dict[t]) == t && requests[dict[t]] in seen
  {}

  lemma TokensSeen(base: nat, dict: map<nat, nat>, seen: set<Request>, requests: seq<Request>, free: seq<nat>,
                   unstored: set<nat>, q: Request)
    requires Tokens(base, dict, seen, requests, free, unstored)
    ensures Tokens(base, dict, seen + {q}, requests, free, unstored)
  {}

  lemma TokensSet(base: nat, dict: map<nat, nat>, seen: set<Request>, tasks: Records, free: seq<nat>,
                  unstored: set<nat>,
                  r: nat, rest: seq<nat>, q: Request, stored: bool)
    requires tasks.Valid() && Tokens(base, dict, seen, tasks.requests, free, unstored) && r < |tasks.requests|
      && free == [r] + rest
    ensures var known := stored || Token(base, r) in dict;
      Tokens(base, if known then dict[Token(base, r) := r] else dict, seen + {q}, tasks.Set(r, true, q).requests, rest,
             if known then unstored - {r} else unstored + {r})
  {}

  lemma TimedTaken(free: seq<nat>, records: Records, r: nat, rest: seq<nat>, q: Request)
    requires Timed(free, records) && r < |records.timers| && free == [r] + rest && r !in rest
    ensures !records.timers[r] && Timed(rest, records.Set(r, true, q))
  {}

  // --- what every event keeps ---

  /** The pools are partitioned, and requests, hand-overs, timers and tokens are as described above. */
  ghost predicate Kept(s: State, seen: set<Request>, stale: multiset<Request>, unstored: set<nat>, expired: set<nat>)
  {
    && s.Bounded() && |s.tasks.timers| <= WORD64
    && Partition(s.freeTasks, s.unassigned, s.claimed, |s.tasks.timers|)
    && Partition(s.freeWorkers, s.cached, [], |s.workers.timers|)
    && Timed(s.freeTasks, s.tasks) && Timed(s.freeWorkers, s.workers)
    && Tokens(s.base, s.dict, seen, s.tasks.requests, s.freeTasks, unstored) && Lingers(s.dict, s.freeTasks, expired)
    && Conserved(seen, stale, s.replies, s.tasks, s.workers)
    && HandedOnce(s.replies, seen, s.unassigned, s.tasks)
  }

  lemma RefuseKeeps(s: State, seen: set<Request>, stale: multiset<Request>, unstored: set<nat>, expired: set<nat>,
                    q: Request)
    requires Kept(s, seen, stale, unstored, expired) && q !in seen
    ensures Kept(Refuse(s, q), seen + {q}, stale, unstored, expired)
  {
    hide Partition, Conserved, HandedOnce, Timed, Tokens, Lingers;
    AnswerNow(seen, stale, s.replies, s.tasks, s.workers, NotFound(q));
    HandedSeen(s.replies, seen, s.unassigned, s.tasks, q);
    HandedMore(s.replies, seen + {q}, s.unassigned, s.tasks, NotFound(q));
    TokensSeen(s.base, s.dict, seen, s.tasks.requests, s.freeTasks, unstored, q);
  }

  lemma TaskTimeoutKeeps(s: State, seen: set<Request>, stale: multiset<Request>, unstored: set<nat>, expired: set<nat>,
                         r: nat)
    requires Kept(s, seen, stale, unstored, expired)
    ensures Kept(TaskTimeout(s, r), seen, stale, unstored, expired + {r})
  {
    hide Partition, Conserved, HandedOnce, Timed, Tokens, Lingers, Freed, Without;
    LingersLonger(s.dict, s.freeTasks, expired, r);
    if r < |s.tasks.timers| && s.tasks.timers[r] {
      var q := s.tasks.requests[r];
      Leave(seen, stale, s.replies, s.tasks, s.workers, r, TimedOut(q));
      FreeTaskKeeps(s, seen, stale, unstored, expired, r);
      TokensFreed(s.base, s.dict, seen, s.tasks.requests, s.freeTasks, unstored, r);
      LingersFreed(s.base, s.dict, s.freeTasks, expired, r);
      HandedMore(s.replies, seen, Without(s.unassigned, r), FreeTask(s, r).tasks, TimedOut(q));
    }
  }

  lemma LingersLonger(dict: map<nat, nat>, free: seq<nat>, expired: set<nat>, r: nat)
    requires Lingers(dict, free, expired)
    ensures Lingers(dict, free, expired + {r})
  {}

  /** Freeing a record keeps everything that does not depend on why it is freed. */
  lemma FreeTaskKeeps(s: State, seen: set<Request>, stale: multiset<Request>, unstored: set<nat>, expired: set<nat>,
                      r: nat)
    requires Kept(s, seen, stale, unstored, expired) && r < |s.tasks.timers|
    ensures var t := FreeTask(s, r);
      && Partition(t.freeTasks, t.unassigned, t.claimed, |t.tasks.timers|) && Timed(t.freeTasks, t.tasks)
      && HandedOnce(s.replies, seen, t.unassigned, t.tasks) && t.tasks.requests == s.tasks.requests
    ensures forall t :: t in s.dict ==>
      s.dict[t] < |s.tasks.requests| && Token(s.base, s.dict[t]) == t && s.tasks.requests[s.dict[t]] in seen
  {
    hide Partition, Conserved, HandedOnce, Timed, Tokens, Lingers, Without;
    TokensOwn(s.base, s.dict, seen, s.tasks.requests, s.freeTasks, unstored);
    MoveKeeps(s.freeTasks, s.unassigned, s.claimed, |s.tasks.timers|, r);
    TimedFreed(s.freeTasks, s.tasks, r);
    PartitionIn(s.freeTasks, s.unassigned, s.claimed, |s.tasks.timers|, r);
    DropIn(s.unassigned, r);
    HandedLess(s.replies, seen, s.unassigned, s.tasks, Without(s.unassigned, r), r);
  }

  lemma WorkerTimeoutKeeps(s: State, seen: set<Request>, stale: multiset<Request>, unstored: set<nat>,
                           expired: set<nat>, w: nat)
    requires Kept(s, seen, stale, unstored, expired)
    ensures Kept(WorkerTimeout(s, w), seen, stale, unstored, expired)
  {
    hide Partition, Conserved, HandedOnce, Timed, Tokens, Lingers, Without;
    if w < |s.workers.timers| && s.workers.timers[w] {
      var q := s.workers.requests[w];
      LeaveWorker(seen, stale, s.replies, s.tasks, s.workers, w, TimedOut(q));
      TimedFreed(s.freeWorkers, s.workers, w);
      MoveKeeps(s.freeWorkers, s.cached, [], |s.workers.timers|, w);
      WithoutAbsent([], w);
      HandedMore(s.replies, seen, s.unassigned, s.tasks, TimedOut(q));
    }
  }

  /** A result answered by record `r`: one more stale answer if the record is free. */
  function StaleAfter(s: State, stale: multiset<Request>, token: nat, fit: bool): multiset<Request>
    requires s.Bounded()
  {
    if fit && token in s.dict && s.dict[token] in s.freeTasks then stale + multiset{s.tasks.requests[s.dict[token]]}
    else stale
  }

  lemma BringKeeps(s: State, seen: set<Request>, stale: multiset<Request>, unstored: set<nat>, expired: set<nat>,
                   q: Request, token: nat, fit: bool)
    requires Kept(s, seen, stale, unstored, expired) && q !in seen
    ensures Kept(BringResult(s, q, token, fit), seen + {q}, StaleAfter(s, stale, token, fit), unstored, expired)
  {
    hide Partition, Conserved, HandedOnce, Timed, Tokens, Lingers, Freed, Without;
    if !fit || token !in s.dict {
      RefuseKeeps(s, seen, stale, unstored, expired, q);
    } else {
      var r := s.dict[token];
      FreeTaskKeeps(s, seen, stale, unstored, expired, r);
      var g, t := s.tasks.requests[r], FreeTask(s, r);
      AnswerResult(seen, stale, s.replies, s.tasks, s.workers, s.freeTasks, r, q);
      TokensFreed(s.base, s.dict, seen, s.tasks.requests, s.freeTasks, unstored, r);
      LingersFreed(s.base, s.dict, s.freeTasks, expired, r);
      HandedMore(s.replies, seen, t.unassigned, t.tasks, Result(g, q));
      var replies := s.replies + [Result(g, q)];
      AnswerNow(seen, StaleAfter(s, stale, token, fit), replies, t.tasks, s.workers, Acknowledged(q));
      HandedSeen(replies, seen, t.unassigned, t.tasks, q);
      HandedMore(replies, seen + {q}, t.unassigned, t.tasks, Acknowledged(q));
      TokensSeen(s.base, s.dict - {token}, seen, t.tasks.requests, t.freeTasks, unstored, q);
      assert replies + [Acknowledged(q)] == s.replies + [Result(g, q), Acknowledged(q)];
    }
  }

  lemma ClaimKeeps(s: State, seen: set<Request>, stale: multiset<Request>, unstored: set<nat>, expired: set<nat>,
                   q: Request, sent: bool)
    requires Kept(s, seen, stale, unstored, expired) && q !in seen
    ensures Kept(ClaimTask(s, q, sent), seen + {q}, stale, unstored, expired)
  {
    hide Partition, Conserved, HandedOnce, Timed, Tokens, Lingers, Unhanded;
    if s.unassigned != [] {
      ClaimOneKeeps(s, seen, stale, unstored, expired, q, sent);
    } else if s.freeWorkers == [] {
      RefuseKeeps(s, seen, stale, unstored, expired, q);
    } else {
      var w, rest := s.freeWorkers[0], s.freeWorkers[1..];
      AllocKeeps(s.freeWorkers, s.cached, [], |s.workers.timers|);
      TimedTaken(s.freeWorkers, s.workers, w, rest, q);
      JoinWorker(seen, stale, s.replies, s.tasks, s.workers, w, q);
      HandedSeen(s.replies, seen, s.unassigned, s.tasks, q);
      TokensSeen(s.base, s.dict, seen, s.tasks.requests, s.freeTasks, unstored, q);
    }
  }

  lemma ClaimOneKeeps(s: State, seen: set<Request>, stale: multiset<Request>, unstored: set<nat>, expired: set<nat>,
                      q: Request, sent: bool)
    requires Kept(s, seen, stale, unstored, expired) && q !in seen && s.unassigned != []
    ensures Kept(ClaimTask(s, q, sent), seen + {q}, stale, unstored, expired)
  {
    hide Partition, Conserved, HandedOnce, Timed, Tokens, Lingers, Unhanded;
    var r, rest, n := s.unassigned[0], s.unassigned[1..], |s.tasks.timers|;
    PartitionTurns(s.freeTasks, s.unassigned, s.claimed, n);
    AllocKeeps(s.unassigned, s.claimed, s.freeTasks, n);
    PartitionTurns(s.freeTasks, rest, [r] + s.claimed, n);
    HandedFewer(s.replies, seen, s.unassigned, s.tasks, rest, r);
    var g := s.tasks.requests[r];
    var reply := if sent then Handed(q, g, Token(s.base, r)) else NotFound(q);
    AnswerNow(seen, stale, s.replies, s.tasks, s.workers, reply);
    if sent {
      HandedNow(s.replies, seen, rest, s.tasks, g, q, Token(s.base, r));
    } else {
      HandedMore(s.replies, seen, rest, s.tasks, reply);
    }
    HandedSeen(s.replies + [reply], seen, rest, s.tasks, q);
    TokensSeen(s.base, s.dict, seen, s.tasks.requests, s.freeTasks, unstored, q);
  }

  /** The records in use whose token the dictionary had no room for. */
  function UnstoredAfter(s: State, unstored: set<nat>, fit: bool, stored: bool): set<nat>
  {
    if !fit || s.freeTasks == [] then unstored
    else if stored || Token(s.base, s.freeTasks[0]) in s.dict then unstored - {s.freeTasks[0]}
    else unstored + {s.freeTasks[0]}
  }

  lemma GetKeeps(s: State, seen: set<Request>, stale: multiset<Request>, unstored: set<nat>, expired: set<nat>,
                 q: Request, fit: bool, stored: bool, sent: bool)
    requires Kept(s, seen, stale, unstored, expired) && q !in seen
    ensures Kept(DoGet(s, q, fit, stored, sent), seen + {q}, stale, UnstoredAfter(s, unstored, fit, stored), expired)
  {
    hide Partition, Conserved, HandedOnce, Timed, Tokens, Lingers;
    if !fit || s.freeTasks == [] {
      RefuseKeeps(s, seen, stale, unstored, expired, q);
    } else {
      WaitKeeps(s, seen, stale, unstored, expired, q, fit, stored);
      if s.cached != [] && sent {
        var waiting := DoGet(s, q, fit, stored, false);
        DispatchKeeps(waiting, seen + {q}, stale, UnstoredAfter(s, unstored, fit, stored), expired);
        HandsOut(s, q, stored);
      }
    }
  }

  /** A task that nobody takes at once. */
  lemma WaitKeeps(s: State, seen: set<Request>, stale: multiset<Request>, unstored: set<nat>, expired: set<nat>,
                  q: Request, fit: bool, stored: bool)
    requires Kept(s, seen, stale, unstored, expired) && q !in seen && fit && s.freeTasks != []
    ensures Kept(DoGet(s, q, fit, stored, false), seen + {q}, stale, UnstoredAfter(s, unstored, fit, stored), expired)
  {
    hide Partition, Conserved, HandedOnce, Timed, Tokens, Lingers, Records.Set;
    var r, rest := s.freeTasks[0], s.freeTasks[1..];
    AllocKeeps(s.freeTasks, s.unassigned, s.claimed, |s.tasks.timers|);
    assert s.freeTasks == [r] + rest;
    TimedTaken(s.freeTasks, s.tasks, r, rest, q);
    LingersTaken(s.dict, s.freeTasks, expired, Token(s.base, r), r, rest);
    Join(seen, stale, s.replies, s.tasks, s.workers, r, q);
    HandedJoin(s.replies, seen, s.unassigned, s.tasks, r, q);
    TokensSet(s.base, s.dict, seen, s.tasks, s.freeTasks, unstored, r, rest, q, stored);
  }

  /** The newest unassigned task goes to the worker that began to wait last. */
  function Dispatched(s: State): (t: State)
    requires s.Bounded() && s.unassigned != [] && s.cached != []
    ensures t.Bounded()
  {
    var r, w := s.unassigned[0], s.cached[0];
    s.(unassigned := s.unassigned[1..], claimed := [r] + s.claimed, cached := s.cached[1..],
      freeWorkers := [w] + s.freeWorkers,
       workers := s.workers.Set(w, false, s.workers.requests[w]),
       replies := s.replies + [Handed(s.workers.requests[w], s.tasks.requests[r], Token(s.base, r))])
  }

  lemma HandsOut(s: State, q: Request, stored: bool)
    requires s.Bounded() && s.freeTasks != [] && s.cached != []
    ensures var waiting := DoGet(s, q, true, stored, false);
      waiting.unassigned != [] && waiting.cached != [] && DoGet(s, q, true, stored, true) == Dispatched(waiting)
  {
    var r := s.freeTasks[0];
    assert ([r] + s.unassigned)[1..] == s.unassigned;
  }

  lemma DispatchKeeps(s: State, seen: set<Request>, stale: multiset<Request>, unstored: set<nat>, expired: set<nat>)
    requires Kept(s, seen, stale, unstored, expired) && s.unassigned != [] && s.cached != []
    ensures Kept(Dispatched(s), seen, stale, unstored, expired)
  {
    hide Partition, Conserved, HandedOnce, Timed, Tokens, Lingers, Unhanded, Freed;
    var r, rest, n := s.unassigned[0], s.unassigned[1..], |s.tasks.timers|;
    PartitionTurns(s.freeTasks, s.unassigned, s.claimed, n);
    AllocKeeps(s.unassigned, s.claimed, s.freeTasks, n);
    PartitionTurns(s.freeTasks, rest, [r] + s.claimed, n);
    var w, m := s.cached[0], |s.workers.timers|;
    var reply := Handed(s.workers.requests[w], s.tasks.requests[r], Token(s.base, r));
    PartitionTurns(s.freeWorkers, s.cached, [], m);
    AllocKeeps(s.cached, s.freeWorkers, [], m);
    PartitionTurns(s.cached[1..], [w] + s.freeWorkers, [], m);
    TimedBack(s.freeWorkers, s.workers, w);
    HandedFewer(s.replies, seen, s.unassigned, s.tasks, rest, r);
    HandedNow(s.replies, seen, rest, s.tasks, s.tasks.requests[r], s.workers.requests[w], Token(s.base, r));
    LeaveWorker(seen, stale, s.replies, s.tasks, s.workers, w, reply);
  }

  lemma TimedBack(free: seq<nat>, records: Records, w: nat)
    requires Timed(free, records) && w < |records.timers| && w !in free
    ensures records.timers[w] && Timed([w] + free, records.Set(w, false, records.requests[w]))
  {
    TimedFreed(free, records, w);
    WithoutAbsent(free, w);
  }

  // --- whole runs ---

  /** Results that went to requests already answered. */
  function Stale(s: State, events: seq<Event>): multiset<Request>
    requires s.Bounded()
  {
    if events == [] then multiset{}
    else
      var before, e := events[..|events| - 1], events[|events| - 1];
      if e.Bring? then StaleAfter(Run(s, before), Stale(s, before), e.token, e.fit) else Stale(s, before)
  }

  function Unstored(s: State, events: seq<Event>): set<nat>
    requires s.Bounded()
  {
    if events == [] then {}
    else
      var before, e := events[..|events| - 1], events[|events| - 1];
      if e.Get? then UnstoredAfter(Run(s, before), Unstored(s, before), e.fit, e.stored) else Unstored(s, before)
  }

  /** The records whose task timer fired. */
  function Expired(events: seq<Event>): set<nat>
  {
    if events == [] then {}
    else
      var e := events[|events| - 1];
      Expired(events[..|events| - 1]) + if e.TaskTimer? then {e.record} else {}
  }

  lemma StepKeeps(s: State, seen: set<Request>, stale: multiset<Request>, unstored: set<nat>, expired: set<nat>,
                  e: Event)
    requires Kept(s, seen, stale, unstored, expired) && (e.Arrival() ==> e.q !in seen)
    ensures Kept(Step(s, e), if e.Arrival() then seen + {e.q} else seen,
                 if e.Bring? then StaleAfter(s, stale, e.token, e.fit) else stale,
                 if e.Get? then UnstoredAfter(s, unstored, e.fit, e.stored) else unstored,
                 if e.TaskTimer? then expired + {e.record} else expired)
  {
    hide Kept, StaleAfter, UnstoredAfter, DoGet, ClaimTask, BringResult, TaskTimeout, WorkerTimeout;
    match e
    case Get(q, fit, stored, sent) => GetKeeps(s, seen, stale, unstored, expired, q, fit, stored, sent);
    case Claim(q, sent) => ClaimKeeps(s, seen, stale, unstored, expired, q, sent);
    case Bring(q, token, fit) => BringKeeps(s, seen, stale, unstored, expired, q, token, fit);
    case TaskTimer(r) => TaskTimeoutKeeps(s, seen, stale, unstored, expired, r);
    case WorkerTimer(w) => WorkerTimeoutKeeps(s, seen, stale, unstored, expired, w);
  }

  lemma InitialKept(base: nat, taskCount: nat, workerCount: nat)
    requires taskCount <= WORD64
    ensures Kept(Initial(base, taskCount, workerCount), {}, multiset{}, {}, {})
  {
    forall x: nat ensures Occurs(All(taskCount), x) == One(x < taskCount)
        && Occurs(All(workerCount), x) == One(x < workerCount) {
      AllOnce(taskCount, x);
      AllOnce(workerCount, x);
    }
    IdleTimed(taskCount);
    IdleTimed(workerCount);
  }

  lemma IdleTimed(n: nat)
    ensures Timed(All(n), Idle(n)) && forall q: Request :: Idle(n).Waiting(q) == 0
  {
    forall r: nat ensures r < n ==> r in All(n) {
      AllOnce(n, r);
      OccursIn(All(n), r);
    }
    forall q: Request ensures Idle(n).Waiting(q) == 0 { TimesZero(Idle(n).timers, Idle(n).requests, n, q); }
  }

  /** Every run from the start: each pool stays partitioned; each request is answered once or waits in one
      record, apart from the stale answers; each task is handed out at most once; timers and tokens agree. */
  lemma {:induction false} RunKeeps(base: nat, taskCount: nat, workerCount: nat, events: seq<Event>)
    requires taskCount <= WORD64 && Fresh(events)
    ensures var s := Initial(base, taskCount, workerCount);
      Kept(Run(s, events), Arrivals(events), Stale(s, events), Unstored(s, events), Expired(events))
  {
    hide Kept, StaleAfter, UnstoredAfter, Step;
    var s := Initial(base, taskCount, workerCount);
    if events == [] {
      InitialKept(base, taskCount, workerCount);
    } else {
      var before := events[..|events| - 1];
      RunKeeps(base, taskCount, workerCount, before);
      StepKeeps(Run(s, before), Arrivals(before), Stale(s, before), Unstored(s, before), Expired(before),
        events[|events| - 1]);
      assert Expired(before) + {} == Expired(before) && Arrivals(before) + {} == Arrivals(before);
    }
  }

  // --- what follows ---

  function Start(base: nat, taskCount: nat, workerCount: nat, events: seq<Event>): (t: State)
    ensures t.Bounded()
  {
    Run(Initial(base, taskCount, workerCount), events)
  }

  /** In every reachable state each task record is in exactly one of the three task queues, each worker record
      in exactly one of the two worker queues. */
  lemma PoolsPartitioned(base: nat, taskCount: nat, workerCount: nat, events: seq<Event>, r: nat)
    requires taskCount <= WORD64 && Fresh(events)
    ensures var s := Start(base, taskCount, workerCount, events);
      && Occurs(s.freeTasks, r) + Occurs(s.unassigned, r) + Occurs(s.claimed, r) == One(r < taskCount)
      && Occurs(s.freeWorkers, r) + Occurs(s.cached, r) == One(r < workerCount)
  {
    hide Timed, Tokens, Lingers, Conserved, HandedOnce;
    RunKeeps(base, taskCount, workerCount, events);
    SizesKept(Initial(base, taskCount, workerCount), events);
  }

  lemma {:induction false} SizesKept(s: State, events: seq<Event>)
    requires s.Bounded()
    ensures var t := Run(s, events);
      t.base == s.base && |t.tasks.timers| == |s.tasks.timers| && |t.workers.timers| == |s.workers.timers|
  {
    hide Step;
    if events != [] {
      SizesKept(s, events[..|events| - 1]);
      SizesStep(Run(s, events[..|events| - 1]), events[|events| - 1]);
    }
  }

  lemma SizesStep(s: State, e: Event)
    requires s.Bounded()
    ensures var t := Step(s, e);
      t.base == s.base && |t.tasks.timers| == |s.tasks.timers| && |t.workers.timers| == |s.workers.timers|
  {}

  /** Only timeouts of tasks make stale answers possible. */
  lemma {:induction false} StaleNeedsTimeout(base: nat, taskCount: nat, workerCount: nat, events: seq<Event>)
    requires taskCount <= WORD64 && Fresh(events) && Expired(events) == {}
    ensures Stale(Initial(base, taskCount, workerCount), events) == multiset{}
  {
    hide Run, Partition, Timed, Tokens, Conserved, HandedOnce;
    if events != [] {
      var before, e := events[..|events| - 1], events[|events| - 1];
      StaleNeedsTimeout(base, taskCount, workerCount, before);
      RunKeeps(base, taskCount, workerCount, before);
    }
  }

  /** Conservation over every run without task timeouts: each request that arrived was answered exactly once
      or waits in exactly one record, and nobody else was answered. */
  lemma AnsweredOrWaiting(base: nat, taskCount: nat, workerCount: nat, events: seq<Event>, q: Request)
    requires taskCount <= WORD64 && Fresh(events) && Expired(events) == {}
    ensures var s := Start(base, taskCount, workerCount, events);
      One(q in Arrivals(events)) == Answered(s.replies, q) + s.tasks.Waiting(q) + s.workers.Waiting(q)
  {
    hide Partition, Timed, Tokens, Lingers, HandedOnce;
    StaleNeedsTimeout(base, taskCount, workerCount, events);
    RunKeeps(base, taskCount, workerCount, events);
  }

  /** Over every run no task is handed to two workers. */
  lemma HandedApart(base: nat, taskCount: nat, workerCount: nat, events: seq<Event>)
    requires taskCount <= WORD64 && Fresh(events)
    ensures var replies := Start(base, taskCount, workerCount, events).replies;
      forall i, j :: 0 <= i < j < |replies| && replies[i].Handed? && replies[j].Handed? ==>
          replies[i].task != replies[j].task
  {
    hide Partition, Timed, Tokens, Lingers, Conserved;
    RunKeeps(base, taskCount, workerCount, events);
  }

  /** Exactly one kind of event leaves a task waiting beside a worker: a task arrives while a worker waits,
      and the reply to that worker cannot be built. */
  lemma BalanceStep(s: State, e: Event)
    requires s.Bounded() && s.Balanced()
    ensures Step(s, e).Balanced() <==> !(e.Get? && e.fit && !e.sent && s.freeTasks != [] && s.cached != [])
  {}

  predicate AllSent(events: seq<Event>)
  {
    forall i :: 0 <= i < |events| && events[i].Get? ==> events[i].sent
  }

  predicate AllStored(events: seq<Event>)
  {
    forall i :: 0 <= i < |events| && events[i].Get? ==> events[i].stored
  }

  /** Work conservation over every run in which replies to waiting workers can be built. */
  lemma {:induction false} AlwaysBalanced(base: nat, taskCount: nat, workerCount: nat, events: seq<Event>)
    requires AllSent(events)
    ensures Start(base, taskCount, workerCount, events).Balanced()
  {
    hide Step;
    if events != [] {
      var before := events[..|events| - 1];
      AlwaysBalanced(base, taskCount, workerCount, before);
      BalanceStep(Start(base, taskCount, workerCount, before), events[|events| - 1]);
    }
  }

  lemma {:induction false} NothingUnstored(s: State, events: seq<Event>)
    requires s.Bounded() && AllStored(events)
    ensures Unstored(s, events) == {}
  {
    hide Run, Step;
    if events != [] { NothingUnstored(s, events[..|events| - 1]); }
  }

  /** Over every run in which the dictionary has room, the token of every waiting task is stored and leads
      to the record that holds it. */
  lemma WaitingReachable(base: nat, taskCount: nat, workerCount: nat, events: seq<Event>, r: nat)
    requires taskCount <= WORD64 && Fresh(events) && AllStored(events)
    ensures var s := Start(base, taskCount, workerCount, events);
      r < |s.tasks.timers| && s.tasks.timers[r] ==> Token(base, r) in s.dict && s.dict[Token(base, r)] == r
  {
    hide Partition, Lingers, Conserved, HandedOnce, Run;
    var s := Start(base, taskCount, workerCount, events);
    RunKeeps(base, taskCount, workerCount, events);
    SizesKept(Initial(base, taskCount, workerCount), events);
    NothingUnstored(Initial(base, taskCount, workerCount), events);
    if r < |s.tasks.timers| && s.tasks.timers[r] && s.dict[Token(base, r)] != r {
      TokensDiffer(base, |s.tasks.timers|, r, s.dict[Token(base, r)]);
    }
  }

  // --- to whom a result goes ---

  /** Event `k` hands the task of request `g` to a worker, under `token`. */
  predicate HandsOver(s: State, events: seq<Event>, k: nat, g: Request, token: nat)
    requires s.Bounded()
  {
    && k < |events|
    && var before, after := Run(s, events[..k]).replies, Run(s, events[..k + 1]).replies;
    |after| == |before| + 1 && before <= after && after[|before|].Handed? && after[|before|].task == g
      && after[|before|].token == token
  }

  /** The event is a `do_get` that takes record `r`. */
  predicate TakesRecord(s: State, e: Event, r: nat)
  {
    e.Get? && e.fit && s.freeTasks != [] && s.freeTasks[0] == r
  }

  predicate Takes(s: State, events: seq<Event>, j: nat, r: nat)
    requires s.Bounded() && j < |events|
  {
    TakesRecord(Run(s, events[..j]), events[j], r)
  }

  lemma {:induction false} FreshPrefix(events: seq<Event>, k: nat)
    requires Fresh(events) && k <= |events|
    ensures Fresh(events[..k]) && Arrivals(events[..k]) <= Arrivals(events)
    ensures k < |events| ==>
      && (events[k].Arrival() ==> events[k].q !in Arrivals(events[..k]))
      && Arrivals(events[..k + 1]) == Arrivals(events[..k]) + if events[k].Arrival() then {events[k].q} else {}
  {
    if k == |events| {
      assert events[..k] == events;
    } else {
      var before := events[..|events| - 1];
      FreshPrefix(before, k);
      assert before[..k] == events[..k];
      assert events[..k + 1][..k] == events[..k];
      if k == |before| { assert events[..k + 1] == events; }
    }
  }

  /** Only a `do_get` that takes a record changes the request it belongs to. */
  lemma StepRequests(s: State, e: Event, r: nat)
    requires s.Bounded() && r < |s.tasks.timers|
    ensures Step(s, e).Bounded() && |Step(s, e).tasks.timers| == |s.tasks.timers|
    ensures Step(s, e).tasks.requests[r] == if TakesRecord(s, e, r) then e.q else s.tasks.requests[r]
  {}

  /** The record of a task that is handed over, at that moment. */
  lemma HandsFrom(s: State, e: Event, seen: set<Request>, stale: multiset<Request>, unstored: set<nat>,
                  expired: set<nat>,
                  g: Request, token: nat) returns (r: nat)
    requires Kept(s, seen, stale, unstored, expired)
    requires var after := Step(s, e).replies;
      |after| == |s.replies| + 1 && after[|s.replies|].Handed? && after[|s.replies|].task == g
        && after[|s.replies|].token == token
    ensures r < |s.tasks.timers| && Token(s.base, r) == token && Step(s, e).tasks.requests[r] == g
    ensures e.Arrival() && g in seen + {e.q}
  {
    hide Partition, Timed, Tokens, Lingers, Conserved;
    match e
    case Get(q, fit, stored, sent) => r := s.freeTasks[0];
    case Claim(q, sent) => r := s.unassigned[0];
  }

  /** As long as nobody takes the record it goes on belonging to the request, and never again after. */
  lemma {:induction false} RecordFollows(s: State, events: seq<Event>, k: nat, m: nat, r: nat, g: Request)
    requires s.Bounded() && Fresh(events) && k < m <= |events| && r < |s.tasks.timers|
    requires Run(s, events[..k + 1]).Bounded() && |Run(s, events[..k + 1]).tasks.timers| == |s.tasks.timers|
    requires Run(s, events[..k + 1]).tasks.requests[r] == g && g in Arrivals(events[..k + 1])
    ensures |Run(s, events[..m]).tasks.timers| == |s.tasks.timers| && g in Arrivals(events[..m])
    ensures Run(s, events[..m]).tasks.requests[r] == g <==> forall j: nat :: k < j < m ==> !Takes(s, events, j, r)
  {
    hide Run, Step, Arrivals;
    if m > k + 1 {
      RecordFollows(s, events, k, m - 1, r, g);
      FreshPrefix(events, m - 1);
      RunStep(s, events, m - 1);
      StepRequests(Run(s, events[..m - 1]), events[m - 1], r);
      if Takes(s, events, m - 1, r) {
        assert events[m - 1].q != g;
      } else {
        assert Run(s, events[..m]).tasks.requests[r] == Run(s, events[..m - 1]).tasks.requests[r];
      }
    }
  }

  /** The record from which event `k` hands a task over. */
  lemma HandedRecord(base: nat, taskCount: nat, workerCount: nat, events: seq<Event>, k: nat, g: Request, token: nat)
    returns (r: nat)
    requires taskCount <= WORD64 && Fresh(events)
      && HandsOver(Initial(base, taskCount, workerCount), events, k, g, token)
    ensures k < |events| && r < taskCount && Token(base, r) == token && g in Arrivals(events[..k + 1])
    ensures var after := Start(base, taskCount, workerCount, events[..k + 1]);
      |after.tasks.timers| == taskCount && after.tasks.requests[r] == g
  {
    hide Run, Step, Kept;
    var start := Initial(base, taskCount, workerCount);
    FreshPrefix(events, k);
    RunKeeps(base, taskCount, workerCount, events[..k]);
    RunStep(start, events, k);
    SizesKept(start, events[..k]);
    SizesKept(start, events[..k + 1]);
    r := HandsFrom(Run(start, events[..k]), events[k], Arrivals(events[..k]), Stale(start, events[..k]),
                   Unstored(start, events[..k]), Expired(events[..k]), g, token);
  }

  lemma ResultFor(s: State, token: nat, q: Request, g: Request)
    requires s.Bounded() && token in s.dict
    ensures BringResult(s, q, token, true).replies == s.replies + [Result(g, q), Acknowledged(q)]
      <==> s.tasks.requests[s.dict[token]] == g
  {
    var replies := BringResult(s, q, token, true).replies;
    assert replies[|s.replies|] == Result(s.tasks.requests[s.dict[token]], q);
  }

  /** A stored token leads to the record it belongs to. */
  lemma TokenLeads(base: nat, taskCount: nat, workerCount: nat, events: seq<Event>, r: nat)
    requires taskCount <= WORD64 && Fresh(events) && r < taskCount
    ensures var s := Start(base, taskCount, workerCount, events); Token(base, r) in s.dict ==>
      s.dict[Token(base, r)] == r
  {
    hide Run, Partition, Timed, Lingers, Conserved, HandedOnce;
    var s := Start(base, taskCount, workerCount, events);
    RunKeeps(base, taskCount, workerCount, events);
    SizesKept(Initial(base, taskCount, workerCount), events);
    if Token(base, r) in s.dict
      && s.dict[Token(base, r)] != r { TokensDiffer(base, taskCount, r, s.dict[Token(base, r)]); }
  }

  /** To whom a result goes, over every run: a stored token leads the result to the request whose task was
      handed out under it exactly if no `do_get` has taken that record since the hand-over. */
  lemma RightRequest(base: nat, taskCount: nat, workerCount: nat, events: seq<Event>, k: nat, g: Request, token: nat,
                     q: Request)
    requires taskCount <= WORD64 && Fresh(events)
    requires HandsOver(Initial(base, taskCount, workerCount), events, k, g, token)
    requires token in Start(base, taskCount, workerCount, events).dict
    ensures var start := Initial(base, taskCount, workerCount); var s := Run(start, events);
      BringResult(s, q, token, true).replies == s.replies + [Result(g, q), Acknowledged(q)]
      <==> forall j: nat :: k < j < |events| ==> !Takes(start, events, j, s.dict[token])
  {
    hide Run, HandsOver, BringResult, Takes, Fresh, Arrivals;
    var start := Initial(base, taskCount, workerCount);
    var r := HandedRecord(base, taskCount, workerCount, events, k, g, token);
    TokenLeads(base, taskCount, workerCount, events, r);
    RecordFollows(start, events, k, |events|, r, g);
    assert events[..|events|] == events;
    ResultFor(Run(start, events), token, q, g);
  }

  // --- two runs in which the result goes astray ---

  /** A run grown by one event. */
  lemma RunSnoc(s: State, events: seq<Event>, e: Event)
    requires s.Bounded()
    ensures Run(s, events + [e]) == Step(Run(s, events), e)
  {
    assert (events + [e])[..|events|] == events;
  }

  lemma TwoSteps(s: State, events: seq<Event>, a: Event, b: Event)
    requires s.Bounded()
    ensures Run(s, events + [a, b]) == Step(Step(Run(s, events), a), b)
  {
    hide Run, Step;
    RunSnoc(s, events, a);
    RunSnoc(s, events + [a], b);
    assert events + [a] + [b] == events + [a, b];
  }

  lemma FiveInTurn<T>(a: T, b: T, c: T, d: T, e: T)
    ensures [] + [a, b] == [a, b]
    ensures [a, b] + [c, d] == [a, b, c, d]
    ensures [a, b, c, d] + [e] == [a, b, c, d, e]
  {}

  lemma FiveSteps(s: State, a: Event, b: Event, c: Event, d: Event, e: Event)
    requires s.Bounded()
    ensures Run(s, [a, b, c, d, e]) == Step(Step(Step(Step(Step(s, a), b), c), d), e)
  {
    hide Run, Step;
    RunNone(s);
    TwoSteps(s, [], a, b);
    TwoSteps(s, [a, b], c, d);
    RunSnoc(s, [a, b, c, d], e);
    FiveInTurn(a, b, c, d, e);
  }

  lemma {:induction false} ArrivalsMean(events: seq<Event>, q: Request)
    ensures q in Arrivals(events) <==> exists i :: 0 <= i < |events| && events[i].Arrival() && events[i].q == q
  {
    if events != [] {
      var before := events[..|events| - 1];
      ArrivalsMean(before, q);
      assert forall i :: 0 <= i < |before| ==> before[i] == events[i];
    }
  }

  /** `Fresh` says that no two arrivals share their request. */
  lemma {:induction false} FreshMeans(events: seq<Event>)
    ensures Fresh(events) <==>
      forall i, j :: 0 <= i < j < |events| && events[i].Arrival() && events[j].Arrival() ==> events[i].q != events[j].q
  {
    if events != [] {
      var before, e := events[..|events| - 1], events[|events| - 1];
      FreshMeans(before);
      if e.Arrival() { ArrivalsMean(before, e.q); }
      assert forall i :: 0 <= i < |before| ==> before[i] == events[i];
    }
  }

  /** One task record and one worker record after a task arrived and a worker claimed it. */
  function HandedState(base: nat, q: Request, w: Request): State
  {
    State(base, [], [], [0], Records([true], [q]), map[base := 0], [0], [], Records([false], [0]), [Handed(w, q, base)])
  }

  lemma HandOver(base: nat, q: Request, w: Request)
    requires base < WORD64
    ensures Step(Step(Initial(base, 1, 1), Get(q, true, true, true)), Claim(w, true)) == HandedState(base, q, w)
  {
    var s0 := Initial(base, 1, 1);
    assert s0.tasks == Records([false], [0]) && s0.freeTasks == [0];
    assert Token(base, 0) == base;
    var s1 := Step(s0, Get(q, true, true, true));
    assert s1.tasks == Records([true], [q]) && s1.freeTasks == [] && s1.unassigned == [0] && s1.dict == map[base := 0];
  }

  /** The record is freed, with its token kept or dropped, and taken over by `q`. */
  lemma TakenOver(s: State, q: Request)
    requires s.base < WORD64 && s.freeTasks == [0] && s.unassigned == [] && s.claimed == [] && s.cached == []
    requires s.tasks.Valid() && |s.tasks.timers| == 1 && s.workers == Records([false], [0]) && s.freeWorkers == [0]
    requires s.dict == map[] || s.dict == map[s.base := 0]
    ensures Step(s, Get(q, true, true, true))
         == s.(freeTasks := [], unassigned := [0], tasks := Records([true], [q]), dict := map[s.base := 0])
  {
    assert Token(s.base, 0) == s.base;
  }

  lemma TimedOutState(base: nat, q: Request, w: Request)
    ensures var s := HandedState(base, q, w);
      s.Bounded() && Step(s, TaskTimer(0))
                  == s.(freeTasks := [0], claimed := [], tasks := Records([false], [q]), replies := s.replies +
                      [TimedOut(q)])
  {
    assert Without([0], 0) == [];
  }

  lemma BroughtState(base: nat, q: Request, w: Request, p: Request)
    ensures var s := HandedState(base, q, w);
      s.Bounded() && Step(s, Bring(p, base, true))
                  == s.(freeTasks := [0], claimed := [], tasks := Records([false], [q]), dict := map[],
                        replies := s.replies + [Result(q, p), Acknowledged(p)])
  {
    assert Without([0], 0) == [];
    assert map[base := 0] - {base} == map[];
  }

  /** The task of request 1 times out, request 3 takes over its record, and gets the result. */
  lemma LateResult(base: nat)
    requires base < WORD64
    ensures var events := [Get(1, true, true, true), Claim(2, true), TaskTimer(0), Get(3, true, true, true),
      Bring(4, base, true)];
      && Fresh(events)
      && Start(base, 1, 1, events).replies == [Handed(2, 1, base), TimedOut(1), Result(3, 4), Acknowledged(4)]
  {
    hide Run, Fresh, DoGet, ClaimTask, TaskTimeout;
    var a, b, c, d, e := Get(1, true, true, true), Claim(2, true), TaskTimer(0), Get(3, true, true, true),
        Bring(4, base, true);
    FreshMeans([a, b, c, d, e]);
    FiveSteps(Initial(base, 1, 1), a, b, c, d, e);
    HandOver(base, 1, 2);
    TimedOutState(base, 1, 2);
    TakenOver(Step(HandedState(base, 1, 2), c), 3);
  }

  /** No timeout is needed: the result of task 1 is brought in once, request 4 takes over the record, and a
      second result under the old token reaches it. */
  lemma SecondResult(base: nat)
    requires base < WORD64
    ensures var events := [Get(1, true, true, true), Claim(2, true), Bring(3, base, true), Get(4, true, true, true),
      Bring(5, base, true)];
      && Fresh(events) && Expired(events) == {}
      && Start(base, 1, 1, events).replies ==
          [Handed(2, 1, base), Result(1, 3), Acknowledged(3), Result(4, 5), Acknowledged(5)]
  {
    hide Run, Fresh, Expired, DoGet, ClaimTask;
    var a, b, c, d, e := Get(1, true, true, true), Claim(2, true), Bring(3, base, true), Get(4, true, true, true),
        Bring(5, base, true);
    FreshMeans([a, b, c, d, e]);
    FiveSteps(Initial(base, 1, 1), a, b, c, d, e);
    HandOver(base, 1, 2);
    BroughtState(base, 1, 2, 3);
    TakenOver(Step(HandedState(base, 1, 2), c), 4);
    NeverExpired([a, b, c, d, e]);
  }

  lemma {:induction false} NeverExpired(events: seq<Event>)
    requires forall i :: 0 <= i < |events| ==> !events[i].TaskTimer?
    ensures Expired(events) == {}
  {
    if events != [] { NeverExpired(events[..|events| - 1]); }
  }
}
