/** Many requests sharing one group of peers: however their picks and releases interleave, the peers go
    through a run of picks and releases in which every release is paired with a pick. */
module RoundRobinRuns {
  import PeerSpec
  import opened RoundRobin
  import opened Sequences
  import opened SmoothRoundRobin

  datatype Call = Ask(request: nat, unhealthy: set<nat>, now: int) | Done(request: nat, failed: bool, now: int)

  /** The group, and for each request the peers it tried and the one it holds, -1 for none. */
  datatype Desk = Desk(g: PeerSpec.Group, tried: seq<set<nat>>, held: seq<int>) {
    predicate Valid()
    {
      |tried| == |held| && forall r :: 0 <= r < |held| ==> -1 <= held[r] < |g|
    }

    /** A request asks while it holds nothing, and is done with what it holds. */
    predicate Allows(c: Call)
      requires Valid()
    {
      c.request < |held| && (c.Ask? <==> held[c.request] == -1)
    }
  }

  function EventOf(d: Desk, c: Call): PeerSpec.Event
    requires d.Valid() && d.Allows(c)
  {
    match c
    case Ask(r, unhealthy, now) => PeerSpec.Get(d.tried[r], unhealthy, now)
    case Done(r, failed, now) => PeerSpec.Free(d.held[r], failed, now)
  }

  lemma PickInGroup(g: PeerSpec.Group, e: PeerSpec.Event)
    ensures -1 <= PeerSpec.Picked(g, e) < |g|
  {}

  function Turn(d: Desk, c: Call): (t: Desk)
    requires d.Valid()
    ensures t.Valid() && |t.held| == |d.held| && |t.g| == |d.g|
  {
    if !d.Allows(c) then d
    else
      var e := EventOf(d, c);
      var b := PeerSpec.Picked(d.g, e);
      PickInGroup(d.g, e);
      Desk(PeerSpec.Step(d.g, e), if b >= 0 then d.tried[c.request := d.tried[c.request] + {b}] else d.tried,
           d.held[c.request := b])
  }

  function Open(g: PeerSpec.Group, n: nat): (d: Desk)
    ensures d.Valid()
  {
    Desk(g, seq(n, _ => {}), seq(n, _ => -1))
  }

  function After(d: Desk, calls: seq<Call>): (t: Desk)
    requires d.Valid()
    ensures t.Valid() && |t.held| == |d.held| && |t.g| == |d.g|
  {
    if calls == [] then d else Turn(After(d, calls[..|calls| - 1]), calls[|calls| - 1])
  }

  /** The picks and releases of the whole, in order. */
  function Trace(d: Desk, calls: seq<Call>): seq<PeerSpec.Event>
    requires d.Valid()
  {
    if calls == [] then []
    else
      var before, c := After(d, calls[..|calls| - 1]), calls[|calls| - 1];
      Trace(d, calls[..|calls| - 1]) + if before.Allows(c) then [EventOf(before, c)] else []
  }

  lemma RunSnoc(g: PeerSpec.Group, events: seq<PeerSpec.Event>, e: PeerSpec.Event)
    ensures PeerSpec.Run(g, events + [e]) == PeerSpec.Step(PeerSpec.Run(g, events), e)
  {
    assert (events + [e])[..|events|] == events;
  }

  /** The peers follow the run of those picks and releases. */
  lemma {:induction false} DeskRuns(d: Desk, calls: seq<Call>)
    requires d.Valid()
    ensures After(d, calls).g == PeerSpec.Run(d.g, Trace(d, calls))
  {
    hide PeerSpec.Run, PeerSpec.Step, PeerSpec.Picked, EventOf;
    if calls == [] {
      assert PeerSpec.Run(d.g, []) == d.g by { RunNone(d.g); }
    } else {
      var before, c := calls[..|calls| - 1], calls[|calls| - 1];
      DeskRuns(d, before);
      var at := After(d, before);
      if at.Allows(c) {
        RunSnoc(d.g, Trace(d, before), EventOf(at, c));
      } else {
        assert Trace(d, before) + [] == Trace(d, before);
      }
    }
  }

  lemma RunNone(g: PeerSpec.Group)
    ensures PeerSpec.Run(g, []) == g
  {}

  /** How many requests hold peer `i`. */
  function Holders(held: seq<int>, i: int): nat
  {
    if held == [] then 0
    else Holders(held[..|held| - 1], i) + if held[|held| - 1] == i then 1 else 0
  }

  lemma {:induction false} HoldersUpdate(held: seq<int>, r: nat, b: int, i: int)
    requires r < |held|
    ensures Holders(held[r := b], i) + (if held[r] == i then 1 else 0) == Holders(held, i) + (if b == i then 1 else 0)
  {
    var n := |held| - 1;
    if r == n {
      assert held[r := b][..n] == held[..n];
    } else {
      HoldersUpdate(held[..n], r, b, i);
      assert held[r := b][..n] == held[..n][r := b];
    }
  }

  lemma {:induction false} NobodyHolds(n: nat, i: nat)
    ensures Holders(seq(n, _ => -1), i) == 0
  {
    if n > 0 {
      NobodyHolds(n - 1, i);
      assert seq(n, _ => -1)[..n - 1] == seq(n - 1, _ => -1);
    }
  }

  lemma OutstandingSnoc(g: PeerSpec.Group, events: seq<PeerSpec.Event>, e: PeerSpec.Event, i: nat)
    ensures PeerSpec.Outstanding(g, events + [e], i)
         == PeerSpec.Outstanding(g, events, i)
            + (if PeerSpec.Picked(PeerSpec.Run(g, events), e) == i then 1 else 0)
            - (if e.Free? && e.peer == i then 1 else 0)
    ensures PeerSpec.Paired(g, events + [e]) <==>
      PeerSpec.Paired(g, events) && (e.Free? ==> e.peer < |g| && PeerSpec.Outstanding(g, events, e.peer) > 0)
  {
    assert (events + [e])[..|events|] == events;
  }

  lemma {:induction false} HeldIsCounted(held: seq<int>, r: nat)
    requires r < |held|
    ensures Holders(held, held[r]) > 0
  {
    if r < |held| - 1 { HeldIsCounted(held[..|held| - 1], r); }
  }

  /** Requests release only what they were given: the releases are paired, and the picks outstanding at a
      peer are the requests that hold it. */
  lemma {:induction false} TracePaired(g: PeerSpec.Group, n: nat, calls: seq<Call>)
    ensures PeerSpec.Paired(g, Trace(Open(g, n), calls))
    ensures forall i: nat ::
      PeerSpec.Outstanding(g, Trace(Open(g, n), calls), i) == Holders(After(Open(g, n), calls).held, i)
  {
    hide PeerSpec.Run, PeerSpec.Step, PeerSpec.Picked, PeerSpec.Outstanding, PeerSpec.Paired, Holders;
    var d := Open(g, n);
    if calls == [] {
      NothingYet(g);
      forall i: nat ensures Holders(d.held, i) == 0 { NobodyHolds(n, i); }
    } else {
      var before, c := calls[..|calls| - 1], calls[|calls| - 1];
      var at, events := After(d, before), Trace(d, before);
      TracePaired(g, n, before);
      DeskRuns(d, before);
      if at.Allows(c) {
        var e := EventOf(at, c);
        var b := PeerSpec.Picked(at.g, e);
        if c.Done? { HeldIsCounted(at.held, c.request); }
        OutstandingSnoc(g, events, e, 0);
        forall i: nat
          ensures PeerSpec.Outstanding(g, events + [e], i) == Holders(at.held[c.request := b], i)
        {
          OutstandingSnoc(g, events, e, i);
          HoldersUpdate(at.held, c.request, b, i);
          FreePicksNobody(at.g, e);
        }
      } else {
        assert events + [] == events;
      }
    }
  }

  lemma NothingYet(g: PeerSpec.Group)
    ensures PeerSpec.Paired(g, []) && forall i: nat :: PeerSpec.Outstanding(g, [], i) == 0
  {}

  lemma FreePicksNobody(g: PeerSpec.Group, e: PeerSpec.Event)
    ensures e.Free? ==> PeerSpec.Picked(g, e) == -1
  {}

  /** Any number of requests, interleaved in any way, on peers at rest: the current weights stay balanced, and
      every peer's connections are exactly the requests that hold it, within its limit. */
  lemma SharedKeeps(g: PeerSpec.Group, n: nat, calls: seq<Call>)
    requires PeerSpec.AtRest(g)
    ensures var d := After(Open(g, n), calls);
      && Sum(PeerSpec.Currents(d.g)) == 0
      && forall i :: 0 <= i < |g| ==>
        && d.g[i].conns == Holders(d.held, i) && PeerSpec.WithinLimit(d.g[i]) && PeerSpec.InRange(d.g[i])
        && d.g[i].maxConns == g[i].maxConns
  {
    hide PeerSpec.Outstanding, PeerSpec.Paired, PeerSpec.Run;
    DeskRuns(Open(g, n), calls);
    TracePaired(g, n, calls);
    PeerSpec.RunKeeps(g, Trace(Open(g, n), calls));
  }

  // --- the heap follows ---

  /** The open requests: distinct, on the same group, with bitmaps of their own. */
  ghost predicate Separate(peers: Peers, requests: seq<PeerData>)
    reads requests
  {
    && (forall i :: 0 <= i < |requests| ==> requests[i].peers == peers)
    && (forall i, j :: 0 <= i < j < |requests| ==> requests[i] != requests[j] && requests[i].tried != requests[j].tried)
  }

  /** Request `r` marks the peers it tried and points at the one it holds. */
  ghost predicate Mirrors(peers: Peers, rrp: PeerData, tried: set<nat>, held: int)
    reads rrp, rrp.tried
  {
    && rrp.Valid() && rrp.peers == peers && Marked(rrp.tried[..], |peers.list|) == tried
    && (0 <= held < |peers.list| ==> rrp.current == peers.list[held])
  }

  /** One call of one request. */
  method Serve(peers: Peers, rrp: PeerData, ghost d: Desk, c: Call) returns (b: int)
    requires Configured(peers) && !peers.single && peers.next == null
    requires d.Valid() && d.Allows(c) && d.g == Views(peers.list)
    requires Mirrors(peers, rrp, d.tried[c.request], d.held[c.request])
    modifies rrp`current, rrp`given, rrp.tried, peers.list
    ensures Views(peers.list) == Turn(d, c).g && b == Turn(d, c).held[c.request]
    ensures Mirrors(peers, rrp, Turn(d, c).tried[c.request], b)
  {
    hide PeerSpec.Step, PeerSpec.Picked, Marked;
    match c {
      case Ask(r, unhealthy, now) =>
        var peer := GetFromGroup(rrp, unhealthy, now);
        b := if peer == null then -1 else FirstIndex(peers.list, peer);
      case Done(r, failed, now) =>
        ghost var i := d.held[r];
        FreeStep(d.g, i, failed, now);
        var _ := FreeRoundRobinPeer(rrp, failed, now, 0);
        b := -1;
        FreePicksNobody(d.g, EventOf(d, c));
        assert Views(peers.list) == d.g[i := PeerSpec.Release(d.g[i], failed, now)];
    }
  }

  lemma FreeStep(g: PeerSpec.Group, i: nat, failed: bool, now: int)
    requires i < |g|
    ensures PeerSpec.Step(g, PeerSpec.Free(i, failed, now)) == g[i := PeerSpec.Release(g[i], failed, now)]
  {}

  lemma AfterStep(d: Desk, calls: seq<Call>, k: nat)
    requires d.Valid() && k < |calls|
    ensures After(d, calls[..k + 1]) == Turn(After(d, calls[..k]), calls[k])
  {
    assert calls[..k + 1][..k] == calls[..k];
  }

  /** A call concerns the request that makes it and nobody else. */
  lemma TurnOne(d: Desk, c: Call)
    requires d.Valid()
    ensures !d.Allows(c) ==> Turn(d, c) == d
    ensures d.Allows(c) ==>
      && Turn(d, c).tried == d.tried[c.request := Turn(d, c).tried[c.request]]
      && Turn(d, c).held == d.held[c.request := Turn(d, c).held[c.request]]
  {}

  method OpenRequests(peers: Peers, n: nat) returns (requests: seq<PeerData>)
    requires Configured(peers) && !peers.single
    ensures |requests| == n && Separate(peers, requests)
    ensures forall r :: 0 <= r < n ==>
      fresh(requests[r]) && fresh(requests[r].tried) && Mirrors(peers, requests[r], {}, -1)
  {
    hide Configured;
    requests := [];
    while |requests| < n
      invariant |requests| <= n && Separate(peers, requests)
      invariant forall r :: 0 <= r < |requests| ==>
        fresh(requests[r]) && fresh(requests[r].tried) && Mirrors(peers, requests[r], {}, -1)
    {
      var rrp := new PeerData(peers);
      requests := requests + [rrp];
    }
  }

  /** Any number of requests on a shared group, interleaved in any way: the peers in memory end as the desk says. */
  method Replay(peers: Peers, n: nat, calls: seq<Call>) returns (held: seq<int>)
    requires Configured(peers) && !peers.single && peers.next == null
    modifies peers.list
    ensures Views(peers.list) == After(Open(old(Views(peers.list)), n), calls).g
    ensures held == After(Open(old(Views(peers.list)), n), calls).held
  {
    hide Turn, Mirrors, Configured, Views;
    ghost var start := Open(Views(peers.list), n);
    var requests: seq<PeerData> := OpenRequests(peers, n);
    held := seq(n, _ => -1);
    assert calls[..0] == [];
    var k := 0;
    while k < |calls|
      invariant 0 <= k <= |calls| && |requests| == n && Separate(peers, requests)
      invariant forall r :: 0 <= r < n ==> fresh(requests[r]) && fresh(requests[r].tried)
      invariant var d := After(start, calls[..k]);
        Views(peers.list) == d.g && held == d.held
        && forall r :: 0 <= r < n ==> Mirrors(peers, requests[r], d.tried[r], d.held[r])
    {
      var c := calls[k];
      ghost var d := After(start, calls[..k]);
      AfterStep(start, calls, k);
      TurnOne(d, c);
      if c.request < n && (c.Ask? <==> held[c.request] == -1) {
        var b := Serve(peers, requests[c.request], d, c);
        held := held[c.request := b];
      }
      k := k + 1;
    }
    assert calls[..k] == calls;
  }
}
