/** One group of upstream peers as values: what a pick and a release do to it, and what every run
    of picks and releases keeps. */
module PeerSpec {
  import opened SmoothRoundRobin

  datatype Peer = Peer(weight: nat, effective: int, current: int, maxConns: nat, conns: int,
                       maxFails: nat, fails: nat, checked: int, accessed: int, failTimeout: int, down: bool)

  type Group = seq<Peer>

  /** A peer takes part in a pick unless it was tried, is down, reported unhealthy, failed too often
      too recently, or is at its connection limit. */
  predicate Eligible(p: Peer, tried: bool, unhealthy: bool, now: int)
  {
    && !tried && !p.down && !unhealthy
    && !(p.maxFails != 0 && p.fails >= p.maxFails && now - p.checked <= p.failTimeout)
    && !(p.maxConns != 0 && p.conns >= p.maxConns)
  }

  function Eligibles(g: Group, tried: set<nat>, unhealthy: set<nat>, now: int): (el: seq<bool>)
    ensures |el| == |g|
  {
    seq(|g|, i requires 0 <= i < |g| => Eligible(g[i], i in tried, i in unhealthy, now))
  }

  /** Gains its effective weight, which then recovers by one towards the configured weight. */
  function Gain(p: Peer): Peer
  {
    p.(current := p.current + p.effective,
       effective := if p.effective < p.weight then p.effective + 1 else p.effective)
  }

  function Gained(g: Group, el: seq<bool>): (r: Group)
    requires |el| == |g|
    ensures |r| == |g|
  {
    seq(|g|, i requires 0 <= i < |g| => if el[i] then Gain(g[i]) else g[i])
  }

  function Total(g: Group, el: seq<bool>): int
    requires |el| == |g|
  {
    if g == [] then 0
    else Total(g[..|g| - 1], el[..|g| - 1]) + if el[|g| - 1] then g[|g| - 1].effective else 0
  }

  /** The first of the heaviest eligible peers; -1 if nobody is eligible. */
  function Best(g: Group, el: seq<bool>): (b: int)
    requires |el| == |g|
    ensures -1 <= b < |g|
    ensures b == -1 <==> forall i :: 0 <= i < |g| ==> !el[i]
    ensures b >= 0 ==> el[b]
    ensures b >= 0 ==> forall i :: 0 <= i < |g| && el[i] ==>
                         g[i].current <= g[b].current && (i < b ==> g[i].current < g[b].current)
  {
    if g == [] then -1
    else
      var n := |g| - 1;
      var b := Best(g[..n], el[..n]);
      if el[n] && (b == -1 || g[n].current > g[b].current) then n else b
  }

  /** The chosen peer pays the total and, if its last check is old, is considered checked now. */
  function Pay(p: Peer, total: int, now: int): Peer
  {
    p.(current := p.current - total, checked := if now - p.checked > p.failTimeout then now else p.checked)
  }

  /** `ngx_http_upstream_get_peer` without the bookkeeping of the request. */
  function Choose(g: Group, el: seq<bool>, now: int): (r: (int, Group))
    requires |el| == |g|
    ensures -1 <= r.0 < |g| && |r.1| == |g|
  {
    var up := Gained(g, el);
    var b := Best(up, el);
    if b == -1 then (b, up) else (b, up[b := Pay(up[b], Total(g, el), now)])
  }

  function Connect(p: Peer): Peer
  {
    p.(conns := p.conns + 1)
  }

  /** `ngx_http_upstream_free_round_robin_peer` for a group of several peers. */
  function Release(p: Peer, failed: bool, now: int): Peer
  {
    var q :=
      if failed then
        var e := if p.maxFails != 0 then p.effective - p.weight / p.maxFails else p.effective;
        p.(fails := p.fails + 1, accessed := now, checked := now, effective := if e < 0 then 0 else e)
      else if p.accessed < p.checked then p.(fails := 0)
      else p;
    q.(conns := q.conns - 1)
  }

  // --- runs ---

  datatype Event =
    | Get(tried: set<nat>, unhealthy: set<nat>, now: int)
    | Free(peer: nat, failed: bool, now: int)

  /** A pick that finds nobody leaves the group alone; a release concerns some peer of the group. */
  function Step(g: Group, e: Event): (r: Group)
    ensures |r| == |g|
  {
    match e
    case Get(tried, unhealthy, now) =>
      var (b, g') := Choose(g, Eligibles(g, tried, unhealthy, now), now);
      if b == -1 then g' else g'[b := Connect(g'[b])]
    case Free(i, failed, now) => if i < |g| then g[i := Release(g[i], failed, now)] else g
  }

  function Picked(g: Group, e: Event): int
  {
    match e
    case Get(tried, unhealthy, now) => Choose(g, Eligibles(g, tried, unhealthy, now), now).0
    case Free(_, _, _) => -1
  }

  function Run(g: Group, events: seq<Event>): (r: Group)
    ensures |r| == |g|
  {
    if events == [] then g else Step(Run(g, events[..|events| - 1]), events[|events| - 1])
  }

  function Currents(g: Group): (r: seq<int>)
    ensures |r| == |g|
  {
    seq(|g|, i requires 0 <= i < |g| => g[i].current)
  }

  function WeightsOf(g: Group): (r: Weights)
    ensures |r| == |g|
  {
    seq(|g|, i requires 0 <= i < |g| => g[i].weight)
  }

  // --- conservation ---

  lemma {:induction false} SumGained(g: Group, el: seq<bool>)
    requires |el| == |g|
    ensures Sum(Currents(Gained(g, el))) == Sum(Currents(g)) + Total(g, el)
  {
    if g != [] {
      var n := |g| - 1;
      SumGained(g[..n], el[..n]);
      assert Gained(g, el)[..n] == Gained(g[..n], el[..n]);
      SumSnoc(Currents(g));
      SumSnoc(Currents(Gained(g, el)));
      assert Currents(g)[..n] == Currents(g[..n]);
      assert Currents(Gained(g, el))[..n] == Currents(Gained(g[..n], el[..n]));
    }
  }

  lemma {:induction false} SumSnoc(s: seq<int>)
    requires s != []
    ensures Sum(s) == Sum(s[..|s| - 1]) + s[|s| - 1]
  {
    if |s| > 1 {
      SumSnoc(s[1..]);
      assert s[1..][..|s| - 2] == s[..|s| - 1][1..];
    }
  }

  /** A pick moves weight around inside the group and neither creates nor loses any, whoever is
      eligible and whatever the effective weights are. */
  lemma ChooseConserves(g: Group, el: seq<bool>, now: int)
    requires |el| == |g|
    ensures Sum(Currents(Choose(g, el, now).1)) == Sum(Currents(g))
  {
    var up := Gained(g, el);
    SumGained(g, el);
    var b := Best(up, el);
    if b == -1 {
      NobodyGains(g, el);
    } else {
      SumUpdate(Currents(up), b, up[b].current - Total(g, el));
      assert Currents(Choose(g, el, now).1) == Currents(up)[b := up[b].current - Total(g, el)];
    }
  }

  lemma {:induction false} NobodyGains(g: Group, el: seq<bool>)
    requires |el| == |g| && forall i :: 0 <= i < |g| ==> !el[i]
    ensures Total(g, el) == 0
  {
    if g != [] { NobodyGains(g[..|g| - 1], el[..|g| - 1]); }
  }

  predicate InRange(p: Peer)
  {
    0 <= p.effective <= p.weight
  }

  predicate WithinLimit(p: Peer)
  {
    p.maxConns != 0 ==> p.conns <= p.maxConns
  }

  /** A peer out of service for the moment: down, failed too often too recently, or at its limit. */
  predicate Barred(p: Peer, now: int)
  {
    || p.down
    || (p.maxFails != 0 && p.fails >= p.maxFails && now - p.checked <= p.failTimeout)
    || (p.maxConns != 0 && p.conns >= p.maxConns)
  }

  /** Exactly whom a pick takes: the first of the heaviest, counted after their gain, among the peers that
      were not tried, are not reported unhealthy and are not barred; nobody if there is none. */
  lemma PickExactly(g: Group, tried: set<nat>, unhealthy: set<nat>, now: int)
    ensures var b := Picked(g, Get(tried, unhealthy, now));
      && -1 <= b < |g|
      && (b >= 0 ==> b !in tried && b !in unhealthy && !Barred(g[b], now))
      && (b >= 0 ==> forall i :: 0 <= i < |g| && i !in tried && i !in unhealthy && !Barred(g[i], now) ==>
            && g[i].current + g[i].effective <= g[b].current + g[b].effective
            && (i < b ==> g[i].current + g[i].effective < g[b].current + g[b].effective))
      && (b == -1 ==> forall i :: 0 <= i < |g| ==> i in tried || i in unhealthy || Barred(g[i], now))
  {
    var el := Eligibles(g, tried, unhealthy, now);
    hide Total, Best;
    assert forall i :: 0 <= i < |g| ==> (el[i] <==> i !in tried && i !in unhealthy && !Barred(g[i], now));
    var up := Gained(g, el);
    assert forall i :: 0 <= i < |g| && el[i] ==> up[i].current == g[i].current + g[i].effective;
  }

  /** Picks that gave `i` minus releases of `i`: the connections still out. */
  function Outstanding(g: Group, events: seq<Event>, i: nat): int
  {
    if events == [] then 0
    else
      var n := |events| - 1;
      var e := events[n];
      Outstanding(g, events[..n], i)
        + (if Picked(Run(g, events[..n]), e) == i then 1 else 0)
        - (if e.Free? && e.peer == i then 1 else 0)
  }

  predicate AtRest(g: Group)
  {
    forall i :: 0 <= i < |g| ==> g[i].current == 0 && g[i].effective == g[i].weight && g[i].conns == 0
  }

  lemma StepConserves(g: Group, e: Event)
    ensures Sum(Currents(Step(g, e))) == Sum(Currents(g))
  {
    match e
    case Get(tried, unhealthy, now) =>
      var el := Eligibles(g, tried, unhealthy, now);
      ChooseConserves(g, el, now);
      assert Currents(Step(g, e)) == Currents(Choose(g, el, now).1);
    case Free(i, failed, now) =>
      assert Currents(Step(g, e)) == Currents(g);
  }

  /** What one event may do to one peer. */
  lemma StepAt(g: Group, e: Event, i: nat)
    requires i < |g| && InRange(g[i])
    ensures var p, q := g[i], Step(g, e)[i];
      && InRange(q) && q.weight == p.weight && q.maxConns == p.maxConns
      && q.conns == p.conns + (if Picked(g, e) == i then 1 else 0) - (if e.Free? && e.peer == i then 1 else 0)
  {
    match e
    case Get(tried, unhealthy, now) =>
      hide Best, Total, Eligible;
    case Free(j, failed, now) =>
  }

  /** A pick never takes a peer beyond its connection limit. */
  lemma PickedWithinLimit(g: Group, e: Event)
    requires Picked(g, e) >= 0
    ensures var p := g[Picked(g, e)]; p.maxConns != 0 ==> p.conns < p.maxConns
    ensures WithinLimit(Step(g, e)[Picked(g, e)])
  {}

  /** Nothing is released that is not out. */
  predicate Paired(g: Group, events: seq<Event>)
  {
    events == [] ||
    var n := |events| - 1;
    && Paired(g, events[..n])
    && (events[n].Free? ==> events[n].peer < |g| && Outstanding(g, events[..n], events[n].peer) > 0)
  }

  /** Over every run of picks and releases, with any failures and any eligibility: the current
      weights of the group add up to zero, effective weights stay between zero and the configured
      weight, the connection count is exactly the picks not yet released, it never exceeds a
      configured limit, and it never falls below zero if releases are paired with picks. */
  lemma {:induction false} RunKeeps(g: Group, events: seq<Event>)
    requires AtRest(g)
    ensures Sum(Currents(Run(g, events))) == 0
    ensures forall i :: 0 <= i < |g| ==> InRange(Run(g, events)[i])
    ensures forall i :: 0 <= i < |g| ==> Run(g, events)[i].conns == Outstanding(g, events, i)
    ensures forall i :: 0 <= i < |g| ==> Run(g, events)[i].weight == g[i].weight
                                         && Run(g, events)[i].maxConns == g[i].maxConns
    ensures forall i :: 0 <= i < |g| ==> WithinLimit(Run(g, events)[i])
    ensures Paired(g, events) ==> forall i :: 0 <= i < |g| ==> Run(g, events)[i].conns >= 0
  {
    if events == [] {
      assert Currents(g) == Zeros(|g|);
      SumOfZeros(|g|);
    } else {
      var n := |events| - 1;
      RunKeeps(g, events[..n]);
      hide Step, Picked, Sum, Currents;
      var h := Run(g, events[..n]);
      StepConserves(h, events[n]);
      forall i | 0 <= i < |g|
        ensures InRange(Run(g, events)[i]) && Run(g, events)[i].weight == g[i].weight
        ensures Run(g, events)[i].maxConns == g[i].maxConns && WithinLimit(Run(g, events)[i])
        ensures Run(g, events)[i].conns == Outstanding(g, events, i)
      {
        StepAt(h, events[n], i);
        if Picked(h, events[n]) == i { PickedWithinLimit(h, events[n]); }
      }
    }
  }

  // --- the calm regime: everybody eligible at full weight ---

  predicate FullWeight(g: Group)
  {
    forall i :: 0 <= i < |g| ==> g[i].effective == g[i].weight
  }

  predicate AllTrue(el: seq<bool>)
  {
    forall i :: 0 <= i < |el| ==> el[i]
  }

  /** Every pick of the run finds all peers eligible and no release reports a failure. */
  predicate Calm(g: Group, events: seq<Event>)
  {
    events == [] ||
    var n := |events| - 1;
    var e := events[n];
    && Calm(g, events[..n])
    && (e.Get? ==> AllTrue(Eligibles(Run(g, events[..n]), e.tried, e.unhealthy, e.now)))
    && (e.Free? ==> !e.failed)
  }

  function Gets(events: seq<Event>): nat
  {
    if events == [] then 0 else Gets(events[..|events| - 1]) + if events[|events| - 1].Get? then 1 else 0
  }

  function AllPicks(g: Group, events: seq<Event>): seq<int>
  {
    if events == [] then []
    else
      var n := |events| - 1;
      AllPicks(g, events[..n]) + if events[n].Get? then [Picked(Run(g, events[..n]), events[n])] else []
  }

  lemma {:induction false} TotalIsSum(g: Group, el: seq<bool>)
    requires |el| == |g| && AllTrue(el) && FullWeight(g)
    ensures Total(g, el) == Sum(WeightsOf(g))
  {
    if g != [] {
      var n := |g| - 1;
      TotalIsSum(g[..n], el[..n]);
      SumSnoc(WeightsOf(g));
      assert WeightsOf(g)[..n] == WeightsOf(g[..n]);
    }
  }

  /** With everybody eligible at full weight a pick is one round of the plain scheme. */
  lemma ChooseIsSmooth(g: Group, el: seq<bool>, now: int)
    requires |el| == |g| > 0 && AllTrue(el) && FullWeight(g)
    ensures var (b, g') := Choose(g, el, now);
      && b == Pick(Currents(g), WeightsOf(g))
      && Currents(g') == After(Currents(g), WeightsOf(g))
      && FullWeight(g') && WeightsOf(g') == WeightsOf(g)
  {
    var up := Gained(g, el);
    var w := WeightsOf(g);
    assert Currents(up) == SmoothRoundRobin.Raise(Currents(g), w);
    TotalIsSum(g, el);
    var a, b := Pick(Currents(g), w), Best(up, el);
    assert el[0] && el[a] && el[b];
    assert Currents(up)[a] == up[a].current && Currents(up)[b] == up[b].current;
    assert a == b;
    assert Currents(Choose(g, el, now).1) == After(Currents(g), w);
  }

  lemma {:induction false} CalmIsSmooth(g: Group, events: seq<Event>)
    requires |g| > 0 && AtRest(g) && Calm(g, events)
    ensures Currents(Run(g, events)) == Rounds(Zeros(|g|), WeightsOf(g), Gets(events))
    ensures AllPicks(g, events) == Picks(Zeros(|g|), WeightsOf(g), Gets(events))
    ensures FullWeight(Run(g, events)) && WeightsOf(Run(g, events)) == WeightsOf(g)
  {
    if events == [] {
      assert Currents(g) == Zeros(|g|);
    } else {
      var n := |events| - 1;
      CalmIsSmooth(g, events[..n]);
      hide Step, Picked, Currents, WeightsOf, Eligible, Eligibles, FullWeight;
      CalmStep(Run(g, events[..n]), events[n]);
    }
  }

  lemma CalmStep(g: Group, e: Event)
    requires |g| > 0 && FullWeight(g)
    requires if e.Get? then AllTrue(Eligibles(g, e.tried, e.unhealthy, e.now)) else !e.failed
    ensures FullWeight(Step(g, e)) && WeightsOf(Step(g, e)) == WeightsOf(g)
    ensures e.Get? ==> Currents(Step(g, e)) == After(Currents(g), WeightsOf(g))
                       && Picked(g, e) == Pick(Currents(g), WeightsOf(g))
    ensures e.Free? ==> Currents(Step(g, e)) == Currents(g)
  {
    match e
    case Get(tried, unhealthy, now) =>
      var el := Eligibles(g, tried, unhealthy, now);
      ChooseIsSmooth(g, el, now);
      hide Choose, Eligibles, Pick, After;
      var (b, g') := Choose(g, el, now);
      ConnectKeeps(g', b);
    case Free(i, failed, now) =>
      assert Currents(Step(g, e)) == Currents(g);
      assert WeightsOf(Step(g, e)) == WeightsOf(g);
  }

  lemma ConnectKeeps(g: Group, b: nat)
    requires b < |g| && FullWeight(g)
    ensures var h := g[b := Connect(g[b])];
      FullWeight(h) && Currents(h) == Currents(g) && WeightsOf(h) == WeightsOf(g)
  {}

  /** Exact fairness of the real peers: in a calm run, however picks and releases interleave, as many
      picks as the weights add up to give each peer exactly its weight and leave all current weights
      at zero. */
  lemma ExactFairness(g: Group, events: seq<Event>)
    requires |g| > 0 && AtRest(g) && Calm(g, events)
    requires Gets(events) == Sum(WeightsOf(g)) > 0
    ensures forall i :: 0 <= i < |g| ==> Count(AllPicks(g, events), i) == g[i].weight
    ensures Currents(Run(g, events)) == Zeros(|g|)
  {
    CalmIsSmooth(g, events);
    FullCycle(WeightsOf(g));
  }
}
