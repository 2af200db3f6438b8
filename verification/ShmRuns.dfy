/** Whole runs of the shared-memory dictionary: true least-recently-used order, and what the two
    flush operations leave behind. */
module ShmRuns {
  import opened Options
  import opened Bytes
  import opened ShmSpec
  import opened ShmContract
  import ShmDict

  datatype Op =
    | GetOp(key: Bytes)
    | SetOp(rq: Request, grants: Grants)
    | FlushAllOp
    | FlushExpiredOp(attempts: int)

  datatype Event = Event(op: Op, now: Millis)

  function Step(q: Recency, e: Event): Recency
  {
    match e.op
    case GetOp(key) => Get(q, key, e.now).1
    case SetOp(rq, grants) => Set(q, rq, grants, e.now).1
    case FlushAllOp => FlushAll(q, e.now)
    case FlushExpiredOp(attempts) => FlushExpired(q, attempts, e.now)
  }

  function Run(q: Recency, events: seq<Event>): Recency
  {
    if events == [] then q else Step(Run(q, events[..|events| - 1]), events[|events| - 1])
  }

  predicate Names(e: Event, key: Bytes)
  {
    ValidKey(key) && ((e.op.GetOp? && e.op.key == key) || (e.op.SetOp? && e.op.rq.key == key))
  }

  /** The position of the last event of a run that named `key`, successful or not; -1 if none did. */
  function LastNamed(events: seq<Event>, key: Bytes): (n: int)
    ensures -1 <= n < |events|
    ensures n >= 0 ==> Names(events[n], key)
    ensures forall i :: n < i < |events| ==> !Names(events[i], key)
  {
    if events == [] then -1
    else if Names(events[|events| - 1], key) then |events| - 1
    else LastNamed(events[..|events| - 1], key)
  }

  ghost predicate SortedByUse(q: Recency, events: seq<Event>)
  {
    && (forall i :: 0 <= i < |q| ==> LastNamed(events, q[i].key) >= 0)
    && (forall i, j :: 0 <= i < j < |q| ==> LastNamed(events, q[i].key) > LastNamed(events, q[j].key))
  }

  lemma SortedIsDistinct(q: Recency, events: seq<Event>)
    requires SortedByUse(q, events)
    ensures DistinctKeys(q)
  {}

  lemma WithoutKeepsOrder(q: Recency, key: Bytes, events: seq<Event>)
    requires SortedByUse(q, events)
    ensures SortedByUse(Without(q, key), events)
  {
    var w, i := Without(q, key), IndexOf(q, key);
    assert forall j :: 0 <= j < |w| ==> w[j] == q[if j < i then j else j + 1];
  }

  lemma OthersKeepOrder(w: Recency, key: Bytes, events: seq<Event>, e: Event)
    requires SortedByUse(w, events) && Names(e, key) && !HasKey(w, key)
    ensures SortedByUse(w, events + [e])
    ensures LastNamed(events + [e], key) == |events|
    ensures forall x :: x in w ==> LastNamed(events + [e], x.key) < |events|
  {
    assert (events + [e])[..|events|] == events;
    forall i | 0 <= i < |w| ensures LastNamed(events + [e], w[i].key) == LastNamed(events, w[i].key) {
      assert w[i].key != key;
    }
  }

  lemma ConsKeepsOrder(x: Entry, q: Recency, events: seq<Event>)
    requires SortedByUse(q, events) && LastNamed(events, x.key) >= 0
    requires forall y :: y in q ==> LastNamed(events, y.key) < LastNamed(events, x.key)
    ensures SortedByUse([x] + q, events)
  {
    hide LastNamed;
  }

  lemma PrefixKeepsOrder(w: Recency, p: Recency, events: seq<Event>)
    requires SortedByUse(w, events) && p <= w
    ensures SortedByUse(p, events)
    ensures forall y :: y in p ==> y in w
  {}

  /** An event that leaves its key at the head, or nowhere, keeps the order by last use. */
  lemma NamedAtHead(q: Recency, q': Recency, key: Bytes, events: seq<Event>, e: Event)
    requires SortedByUse(q, events) && ValidKey(key) && Names(e, key)
    requires q' <= Without(q, key) || (q' != [] && q'[0].key == key && q'[1..] <= Without(q, key))
    ensures SortedByUse(q', events + [e])
  {
    hide LastNamed, Without, SortedByUse;
    SortedIsDistinct(q, events);
    WithoutKeepsOthers(q, key);
    WithoutKeepsOrder(q, key, events);
    var w := Without(q, key);
    OthersKeepOrder(w, key, events, e);
    if q' <= w {
      PrefixKeepsOrder(w, q', events + [e]);
    } else {
      assert q' == [q'[0]] + q'[1..];
      PrefixKeepsOrder(w, q'[1..], events + [e]);
      ConsKeepsOrder(q'[0], q'[1..], events + [e]);
    }
  }

  lemma UnnamedKeepsOrder(q: Recency, events: seq<Event>, e: Event)
    requires SortedByUse(q, events)
    requires forall key :: !Names(e, key)
    ensures SortedByUse(q, events + [e])
  {}

  lemma SnocKeepsOrder(q: Recency, e: Entry, events: seq<Event>)
    requires SortedByUse(q, events) && LastNamed(events, e.key) >= 0
    requires forall x :: x in q ==> LastNamed(events, x.key) > LastNamed(events, e.key)
    ensures SortedByUse(q + [e], events)
  {}

  lemma {:induction false} FlushExpiredKeepsOrder(q: Recency, attempts: int, now: nat, events: seq<Event>)
    requires SortedByUse(q, events)
    ensures SortedByUse(FlushExpired(q, attempts, now), events)
    ensures forall e :: e in FlushExpired(q, attempts, now) ==> e in q
  {
    if q != [] {
      var rest, last := q[..|q| - 1], q[|q| - 1];
      FlushExpiredKeepsOrder(rest, attempts, now, events);
      FlushExpiredKeepsOrder(rest, attempts - 1, now, events);
      if !Removable(last, now) {
        SnocKeepsOrder(FlushExpired(rest, attempts, now), last, events);
      }
    }
  }

  lemma GetShape(q: Recency, key: Bytes, now: nat)
    requires DistinctKeys(q) && ValidKey(key)
    ensures var q' := Get(q, key, now).1;
      q' <= Without(q, key) || (q' != [] && q'[0].key == key && q'[0] in q && q'[1..] <= Without(q, key))
  {
    OthersAfterReclaim(q, key, now);
    ExpireTakesTail(q, 1, now);
    TouchShape(Expire(q, 1, now), key);
  }

  /** A read or write leaves its key at the head or nowhere, and keeps a prefix of the others. */
  lemma StepShape(q: Recency, e: Event, key: Bytes)
    requires DistinctKeys(q) && Names(e, key)
    ensures var q' := Step(q, e);
      q' <= Without(q, key) || (q' != [] && q'[0].key == key && q'[1..] <= Without(q, key))
  {
    match e.op
    case GetOp(_) => GetShape(q, key, e.now);
    case SetOp(rq, grants) => SetOutcome(q, rq, grants, e.now);
  }

  lemma StepKeepsOrder(q: Recency, events: seq<Event>, e: Event)
    requires SortedByUse(q, events)
    ensures SortedByUse(Step(q, e), events + [e])
  {
    hide SortedByUse, LastNamed, Set, ShmSpec.Get, ShmSpec.FlushExpired;
    SortedIsDistinct(q, events);
    if key :| Names(e, key) {
      StepShape(q, e, key);
      NamedAtHead(q, Step(q, e), key, events, e);
    } else {
      UnnamedStep(q, events, e);
      UnnamedKeepsOrder(Step(q, e), events, e);
    }
  }

  lemma FlushAllKeepsOrder(q: Recency, now: nat, events: seq<Event>)
    requires SortedByUse(q, events)
    ensures SortedByUse(ShmSpec.FlushAll(q, now), events)
  {
    hide LastNamed, Expire;
    ExpireTakesTail(Outdated(q), 0, now);
  }

  lemma UnnamedStep(q: Recency, events: seq<Event>, e: Event)
    requires SortedByUse(q, events) && forall key :: !Names(e, key)
    ensures SortedByUse(Step(q, e), events)
  {
    hide SortedByUse, LastNamed, ShmSpec.FlushAll, ShmSpec.FlushExpired, Expire, Act, Touch, ShmSpec.Status,
         ShmSpec.IndexOf;
    match e.op
    case GetOp(key) => assert !Names(e, key);
    case SetOp(rq, grants) => assert !Names(e, rq.key);
    case FlushAllOp => FlushAllKeepsOrder(q, e.now, events);
    case FlushExpiredOp(attempts) => FlushExpiredKeepsOrder(q, attempts, e.now, events);
  }

  lemma SortedEmpty()
    ensures SortedByUse([], [])
  {}

  /** LRU over whole runs: whatever happened, the queue lists the stored keys exactly in the order of
      their last use, most recent first; in particular keys are never stored twice. */
  lemma {:induction false} LeastRecentlyUsed(events: seq<Event>)
    ensures SortedByUse(Run([], events), events)
    ensures DistinctKeys(Run([], events))
  {
    hide SortedByUse, LastNamed, Step, DistinctKeys;
    if events == [] {
      SortedEmpty();
    } else {
      var before, e := events[..|events| - 1], events[|events| - 1];
      LeastRecentlyUsed(before);
      StepKeepsOrder(Run([], before), before, e);
      assert before + [e] == events;
    }
    SortedIsDistinct(Run([], events), events);
  }

  /** What a read or write of some key costs other keys is always the least recently used: every
      entry it evicts was last used before every other entry it keeps. */
  lemma EvictsOldest(events: seq<Event>, e: Event, key: Bytes, gone: Entry, kept: Entry)
    requires Names(e, key)
    requires gone in Run([], events) && gone !in Step(Run([], events), e) && gone.key != key
    requires kept in Step(Run([], events), e) && kept.key != key
    ensures LastNamed(events, gone.key) < LastNamed(events, kept.key)
  {
    hide LastNamed, Without, Step;
    var q := Run([], events);
    var q', w := Step(q, e), Without(q, key);
    LeastRecentlyUsed(events);
    StepShape(q, e, key);
    WithoutKeepsOthers(q, key);
    WithoutKeepsOrder(q, key, events);
    if q' <= w {
      TailIsOlder(w, q', events, gone, kept);
    } else {
      assert q' == [q'[0]] + q'[1..];
      TailIsOlder(w, q'[1..], events, gone, kept);
    }
  }

  lemma TailIsOlder(w: Recency, p: Recency, events: seq<Event>, gone: Entry, kept: Entry)
    requires SortedByUse(w, events) && p <= w
    requires gone in w && gone !in p && kept in p
    ensures LastNamed(events, gone.key) < LastNamed(events, kept.key)
  {}

  // --- flush_all ---

  /** Writes that may store a value for a key that is not live. */
  predicate StoresAnew(e: Event, key: Bytes)
  {
    e.op.SetOp? && e.op.rq.key == key && !e.op.rq.flags.replace && !e.op.rq.flags.delete
  }

  predicate Hidden(q: Recency, key: Bytes)
  {
    DistinctKeys(q) && forall e :: e in q && e.key == key ==> e.expires == 1
  }

  lemma HiddenNotLive(q: Recency, key: Bytes, now: nat)
    requires Hidden(q, key) && now >= 2
    ensures Status(q, key, now) != Live
    ensures Get(q, key, now).0 == None
  {
    var i := IndexOf(q, key);
    assert i < |q| ==> q[i] in q;
    StatusAfterReclaim(q, key, now);
  }

  lemma GetKeepsEntries(q: Recency, key: Bytes, now: nat)
    requires DistinctKeys(q)
    ensures DistinctKeys(ShmSpec.Get(q, key, now).1)
    ensures forall e :: e in ShmSpec.Get(q, key, now).1 ==> e in q
  {
    if ValidKey(key) {
      GetShape(q, key, now);
      hide ShmSpec.Get, Without;
      WithoutKeepsOthers(q, key);
      var q', w := ShmSpec.Get(q, key, now).1, Without(q, key);
      if q' <= w {
        PrefixDistinct(w, q');
      } else {
        PrefixDistinct(w, q'[1..]);
        assert q' == [q'[0]] + q'[1..];
      }
    }
  }

  lemma StepStaysHidden(q: Recency, e: Event, key: Bytes)
    requires Hidden(q, key) && e.now >= 2 && !StoresAnew(e, key)
    ensures Hidden(Step(q, e), key)
  {
    hide Set, ShmSpec.Get, ShmSpec.FlushExpired, DistinctKeys, Status;
    match e.op
    case GetOp(k) =>
      GetKeepsEntries(q, k, e.now);
    case SetOp(rq, grants) =>
      SetKeepsEntries(q, rq, grants, e.now);
      FlagsNecessaryIfOk(q, rq, grants, e.now);
      HiddenNotLive(q, key, e.now);
    case FlushAllOp =>
      FlushAllOutdates(q, e.now);
    case FlushExpiredOp(attempts) =>
      FlushExpiredSub(q, attempts, e.now);
  }

  lemma FlushAllOutdates(q: Recency, now: nat)
    requires DistinctKeys(q)
    ensures DistinctKeys(FlushAll(q, now))
    ensures forall e :: e in FlushAll(q, now) ==> e.expires == 1
  {
    ExpireTakesTail(Outdated(q), 0, now);
  }

  lemma FlagsNecessaryIfOk(q: Recency, rq: Request, grants: Grants, now: nat)
    requires DistinctKeys(q)
    ensures Set(q, rq, grants, now).0 && (rq.flags.replace || rq.flags.delete) ==> Status(q, rq.key, now) == Live
  {
    if Set(q, rq, grants, now).0 { FlagsNecessary(q, rq, grants, now); }
  }

  lemma {:induction false} FlushExpiredSub(q: Recency, attempts: int, now: nat)
    requires DistinctKeys(q)
    ensures DistinctKeys(FlushExpired(q, attempts, now))
    ensures forall e :: e in FlushExpired(q, attempts, now) ==> e in q
  {
    if q != [] {
      var rest, last := q[..|q| - 1], q[|q| - 1];
      FlushExpiredSub(rest, attempts, now);
      FlushExpiredSub(rest, attempts - 1, now);
      assert forall e :: e in rest ==> e.key != last.key;
    }
  }

  /** After `flush_all` no earlier value is ever visible again: as long as the key is not stored anew,
      whatever else happens, a read of it fails and so do `replace` and `delete`. */
  lemma {:induction false} FlushAllHides(before: seq<Event>, t: nat, after: seq<Event>, key: Bytes, now: nat)
    requires forall i :: 0 <= i < |after| ==> after[i].now >= 2 && !StoresAnew(after[i], key)
    requires now >= 2
    ensures var q := Run(FlushAll(Run([], before), t), after);
      && Hidden(q, key)
      && Get(q, key, now).0 == None
      && forall rq: Request, grants: Grants :: rq.key == key && (rq.flags.replace || rq.flags.delete)
                                               ==> !Set(q, rq, grants, now).0
  {
    var q0 := FlushAll(Run([], before), t);
    if after == [] {
      LeastRecentlyUsed(before);
      FlushAllOutdates(Run([], before), t);
    } else {
      FlushAllHides(before, t, after[..|after| - 1], key, now);
      StepStaysHidden(Run(q0, after[..|after| - 1]), after[|after| - 1], key);
    }
    var q := Run(q0, after);
    HiddenNotLive(q, key, now);
    forall rq: Request, grants: Grants | rq.key == key && (rq.flags.replace || rq.flags.delete)
      ensures !Set(q, rq, grants, now).0
    {
      FlagsNecessaryIfOk(q, rq, grants, now);
    }
  }

  // --- flush_expired ---

  lemma {:induction false} CountSnoc(q: Recency, e: Entry, now: nat)
    ensures CountRemovable(q + [e], now) == CountRemovable(q, now) + if Removable(e, now) then 1 else 0
  {
    if q != [] {
      assert (q + [e])[1..] == q[1..] + [e];
      CountSnoc(q[1..], e, now);
    } else {
      assert (q + [e])[1..] == [];
    }
  }

  lemma {:induction false} SurvivorsSnoc(q: Recency, e: Entry, attempts: int, now: nat)
    ensures Survivors(q + [e], attempts, now) ==
      if !Removable(e, now) then Survivors(q, attempts, now) + [e]
      else if attempts == 1 then q
      else Survivors(q, attempts - 1, now)
  {
    if q != [] {
      assert (q + [e])[1..] == q[1..] + [e];
      SurvivorsSnoc(q[1..], e, attempts, now);
      CountSnoc(q[1..], e, now);
    } else {
      assert (q + [e])[1..] == [];
    }
  }

  /** The walk of `flush_expired` removes exactly the first `attempts` removable entries from the old
      end (all of them when `attempts` is not positive) and keeps the survivors' order. */
  lemma {:induction false} FlushExpiredExact(q: Recency, attempts: int, now: nat)
    ensures FlushExpired(q, attempts, now) == Survivors(q, attempts, now)
    ensures |q| - |FlushExpired(q, attempts, now)| ==
      if 0 < attempts <= CountRemovable(q, now) then attempts else CountRemovable(q, now)
  {
    if q != [] {
      var rest, last := q[..|q| - 1], q[|q| - 1];
      assert q == rest + [last];
      FlushExpiredExact(rest, attempts, now);
      FlushExpiredExact(rest, attempts - 1, now);
      SurvivorsSnoc(rest, last, attempts, now);
      CountSnoc(rest, last, now);
    }
  }

  // --- the dictionary itself runs as described ---

  method Apply(d: ShmDict.ShmDict, e: Event)
    requires d.Valid() && !d.locked
    modifies d, d.tree, d.blocks
    ensures d.Valid() && fresh(d.blocks - old(d.blocks))
    ensures d.Contents() == Step(old(d.Contents()), e)
    ensures d.locked <==> e.op.FlushExpiredOp? && old(d.Contents()) == []
  {
    hide ShmSpec.Get, Set, ShmSpec.FlushAll, ShmSpec.FlushExpired;
    match e.op {
      case GetOp(key) => var _, _ := d.Get(key, e.now);
      case SetOp(rq, grants) => var _ := d.SetImpl(rq, grants, e.now);
      case FlushAllOp => d.FlushAll(e.now);
      case FlushExpiredOp(attempts) => var _ := d.FlushExpired(attempts, e.now);
    }
  }

  lemma RunStart(events: seq<Event>)
    ensures Run([], events[..0]) == []
  {}

  lemma RunStep(events: seq<Event>, i: nat)
    requires i < |events|
    ensures Run([], events[..i + 1]) == Step(Run([], events[..i]), events[i])
  {
    assert events[..i + 1][..i] == events[..i];
  }

  /** Replaying any events on a fresh dictionary: its contents are those of the abstract run. The
      replay is cut short exactly by a `flush_expired` of an empty dictionary, which keeps the mutex. */
  method Replay(crc: Bytes -> nat, events: seq<Event>) returns (contents: Recency, locked: bool, done: nat)
    ensures done <= |events| && contents == Run([], events[..done])
    ensures done < |events| ==> locked
    ensures locked <==> done > 0 && events[done - 1].op.FlushExpiredOp? && Run([], events[..done - 1]) == []
  {
    hide Run, Step, ShmDict.Views;
    RunStart(events);
    var d := new ShmDict.ShmDict(crc);
    done := 0;
    while done < |events| && !d.locked
      invariant 0 <= done <= |events|
      invariant fresh(d) && fresh(d.tree) && fresh(d.blocks)
      invariant d.Valid() && d.Contents() == Run([], events[..done])
      invariant d.locked <==> done > 0 && events[done - 1].op.FlushExpiredOp? && Run([], events[..done - 1]) == []
      decreases |events| - done
    {
      RunStep(events, done);
      Apply(d, events[done]);
      done := done + 1;
    }
    contents, locked := d.Contents(), d.locked;
  }
}
