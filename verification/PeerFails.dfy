/** What failures do to a peer over whole runs of picks and releases: when it is left out, when its failures
    are forgotten, and how its weight recovers. */
module PeerFails {
  import opened PeerSpec

  predicate Fails(e: Event, i: nat)
  {
    e.Free? && e.peer == i && e.failed
  }

  predicate Succeeds(e: Event, i: nat)
  {
    e.Free? && e.peer == i && !e.failed
  }

  /** How many releases reported a failure of peer `i`. */
  function Failures(events: seq<Event>, i: nat): nat
  {
    if events == [] then 0
    else Failures(events[..|events| - 1], i) + if Fails(events[|events| - 1], i) then 1 else 0
  }

  /** The last event that reported one; -1 if there is none. */
  function LastFailure(events: seq<Event>, i: nat): (k: int)
    ensures -1 <= k < |events|
    ensures k == -1 <==> Failures(events, i) == 0
    ensures k >= 0 ==> Fails(events[k], i)
    ensures forall j :: k < j < |events| ==> !Fails(events[j], i)
  {
    if events == [] then -1
    else
      var n := |events| - 1;
      var k := LastFailure(events[..n], i);
      assert forall j :: 0 <= j < n ==> events[..n][j] == events[j];
      if Fails(events[n], i) then n else k
  }

  /** After the first failure of peer `i` each event comes no later than `timeout` after the last one. */
  predicate Prompt(events: seq<Event>, i: nat, timeout: int)
  {
    events == [] ||
    var n := |events| - 1;
    && Prompt(events[..n], i, timeout)
    && var k := LastFailure(events[..n], i);
    k >= 0 ==> events[k].now <= events[n].now <= events[k].now + timeout
  }

  lemma LastStep(events: seq<Event>, i: nat)
    requires events != []
    ensures var n := |events| - 1;
      LastFailure(events, i) == if Fails(events[n], i) then n else LastFailure(events[..n], i)
    ensures var n := |events| - 1; Failures(events, i) == Failures(events[..n], i) + if Fails(events[n], i) then 1
      else 0
  {}

  /** What never changes, and what one event does to the failures and checks of one peer. */
  lemma StepFails(g: Group, e: Event, i: nat)
    requires i < |g|
    ensures var p, q := g[i], Step(g, e)[i];
      && q.weight == p.weight && q.maxFails == p.maxFails && q.failTimeout == p.failTimeout && q.down == p.down
      && q.maxConns == p.maxConns
      && (Fails(e, i) ==> q.fails == p.fails + 1 && q.accessed == e.now && q.checked == e.now)
      && (!Fails(e, i) ==> q.accessed == p.accessed && (q.fails == p.fails || q.fails == 0))
      && (!Fails(e, i) && q.fails != p.fails ==> Succeeds(e, i) && p.accessed < p.checked)
      && (Succeeds(e, i) && p.accessed < p.checked ==> q.fails == 0)
      && (!Fails(e, i) ==>
            q.checked == if Picked(g, e) == i && e.now - p.checked > p.failTimeout then e.now else p.checked)
  {
    hide Best, Total, Eligible;
  }

  lemma {:induction false} ConfigKept(g: Group, events: seq<Event>, i: nat)
    requires i < |g|
    ensures var p, q := g[i], Run(g, events)[i];
      q.weight == p.weight && q.maxFails == p.maxFails && q.failTimeout == p.failTimeout && q.down == p.down
        && q.maxConns == p.maxConns
  {
    hide Step;
    if events != [] {
      ConfigKept(g, events[..|events| - 1], i);
      StepFails(Run(g, events[..|events| - 1]), events[|events| - 1], i);
    }
  }

  /** No peer counts more failures than were reported, and as long as the events follow its failures
      promptly it counts every one, and the last one is when it was last checked. */
  lemma {:induction false} FailuresCounted(g: Group, events: seq<Event>, i: nat)
    requires i < |g|
    ensures var p := Run(g, events)[i];
      && p.fails <= g[i].fails + Failures(events, i)
      && (Prompt(events, i, g[i].failTimeout) ==>
            && p.fails >= Failures(events, i)
            && var k := LastFailure(events, i);
            k >= 0 ==> p.checked == p.accessed == events[k].now)
  {
    hide Step, LastFailure, Failures;
    if events == [] {
      NoFailures(i);
    } else {
      var n := |events| - 1;
      FailuresCounted(g, events[..n], i);
      ConfigKept(g, events[..n], i);
      StepFails(Run(g, events[..n]), events[n], i);
      LastStep(events, i);
    }
  }

  lemma NoFailures(i: nat)
    ensures Failures([], i) == 0 && LastFailure([], i) == -1
  {}

  /** A peer that failed `maxFails` times is not picked until its `failTimeout` has passed since the last
      failure, however many requests succeed on it meanwhile. */
  lemma {:induction false} FailedOut(g: Group, events: seq<Event>, e: Event, i: nat)
    requires i < |g| && 0 < g[i].maxFails <= Failures(events, i)
    requires e.Get? && Prompt(events + [e], i, g[i].failTimeout)
    ensures Picked(Run(g, events), e) != i
  {
    hide Run, Picked, LastFailure;
    assert (events + [e])[..|events|] == events;
    FailuresCounted(g, events, i);
    ConfigKept(g, events, i);
    PickExactly(Run(g, events), e.tried, e.unhealthy, e.now);
  }

  /** Before that many failures, or later than that, failures keep nobody out: a peer that is up, below its
      limit and asked for anew is passed over only for a heavier one. */
  lemma {:induction false} NotKeptOut(g: Group, events: seq<Event>, e: Event, i: nat)
    requires i < |g| && e.Get? && i !in e.tried && i !in e.unhealthy && !g[i].down
    requires var p := Run(g, events)[i]; p.maxConns != 0 ==> p.conns < p.maxConns
    requires || g[i].maxFails == 0 || g[i].fails + Failures(events, i) < g[i].maxFails
             || e.now > Run(g, events)[i].checked + g[i].failTimeout
    ensures var h := Run(g, events); var b := Picked(h, e);
      0 <= b < |g| && h[i].current + h[i].effective <= h[b].current + h[b].effective
  {
    hide Run, Picked;
    FailuresCounted(g, events, i);
    ConfigKept(g, events, i);
    PickExactly(Run(g, events), e.tried, e.unhealthy, e.now);
  }

  lemma {:induction false} StaysChecked(g: Group, events: seq<Event>, i: nat)
    requires i < |g| && g[i].accessed < g[i].checked && g[i].failTimeout >= 0 && Failures(events, i) == 0
    ensures Run(g, events)[i].accessed < Run(g, events)[i].checked
  {
    hide Step;
    if events != [] {
      StaysChecked(g, events[..|events| - 1], i);
      ConfigKept(g, events[..|events| - 1], i);
      StepFails(Run(g, events[..|events| - 1]), events[|events| - 1], i);
    }
  }

  /** Failures are forgotten by success: a peer picked more than `failTimeout` after its last failure has
      none left once a request on it succeeds, if none failed in between. */
  lemma {:induction false} Forgiven(g: Group, pick: Event, between: seq<Event>, success: Event, i: nat)
    requires i < |g| && g[i].failTimeout >= 0
    requires pick.Get? && Picked(g, pick) == i && pick.now - g[i].accessed > g[i].failTimeout
    requires Failures(between, i) == 0 && Succeeds(success, i)
    ensures Step(Run(Step(g, pick), between), success)[i].fails == 0
  {
    hide Step, Run, Picked;
    StepFails(g, pick, i);
    StaysChecked(Step(g, pick), between, i);
    StepFails(Run(Step(g, pick), between), success, i);
  }

  // --- recovery of the weight ---

  /** How many picks of the run peer `i` took part in. */
  function TakesPart(g: Group, events: seq<Event>, i: nat): nat
    requires i < |g|
  {
    if events == [] then 0
    else
      var n, e := |events| - 1, events[|events| - 1];
      TakesPart(g, events[..n], i)
        + if e.Get? && i !in e.tried && i !in e.unhealthy && !Barred(Run(g, events[..n])[i], e.now) then 1 else 0
  }

  /** What one event does to the weight with which a peer competes: a failure costs its `maxFails`-th part of
      the configured weight, rounded down, but leaves nobody below zero; a pick it takes part in gives one
      back. */
  lemma StepEffective(g: Group, e: Event, i: nat)
    requires i < |g| && InRange(g[i])
    ensures var p, q := g[i], Step(g, e)[i];
      if Fails(e, i) then
        var cost := if p.maxFails == 0 then 0 else p.weight / p.maxFails;
        q.effective == if cost <= p.effective then p.effective - cost else 0
      else if e.Get? && i !in e.tried && i !in e.unhealthy && !Barred(p, e.now) && p.effective < p.weight then
        q.effective == p.effective + 1
      else q.effective == p.effective
  {
    hide Best, Total;
  }

  /** The effective weight of a peer recovers by one with every pick it takes part in, up to its weight, as
      long as no request fails on it. */
  lemma {:induction false} Recovers(g: Group, events: seq<Event>, i: nat)
    requires i < |g| && InRange(g[i]) && Failures(events, i) == 0
    ensures var e := g[i].effective + TakesPart(g, events, i);
      Run(g, events)[i].effective == if e <= g[i].weight then e else g[i].weight
  {
    hide Step, Barred;
    if events != [] {
      var n := |events| - 1;
      Recovers(g, events[..n], i);
      ConfigKept(g, events[..n], i);
      StepEffective(Run(g, events[..n]), events[n], i);
    }
  }
}
