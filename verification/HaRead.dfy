/** Reading through the list of a slot, and what a reader finds after an acknowledged write. */
module HaRead {
  import opened Options
  import HaTable
  import HaBuild
  import HaWrite

  const OK := 200
  const NOT_FOUND := 404

  /** The answer of one node: its status and the response it carries. */
  datatype Answer = Answer(status: nat, response: string)

  /** How a read ends; `Fault` is the internal error of a GET that finds no node alive to ask. */
  datatype Reply = Found(response: string) | NotFound | Fault

  /** The first node from `at` on that is not down. */
  function NextAlive(at: nat, size: nat, down: set<nat>): (i: nat)
    requires at <= size
    ensures at <= i <= size && (i < size ==> i !in down)
    ensures forall k :: at <= k < i ==> k in down
    decreases size - at
  {
    if at == size || at !in down then at else NextAlive(at + 1, size, down)
  }

  /** A read in progress over the read list of its slot. */
  class Read {
    const hosts: seq<string>
    var peer: Option<nat>

    ghost predicate Valid()
      reads this
    {
      peer.Some? ==> peer.value < |hosts|
    }

    constructor (hosts: seq<string>)
      ensures Valid() && this.hosts == hosts && peer == None
    {
      this.hosts, peer := hosts, None;
    }

    /** `ngx_http_get_next_peer`: the next node after `at` that is alive. */
    method GetNextPeer(at: nat, down: set<nat>) returns (next: Option<nat>)
      requires at < |hosts|
      ensures next == var i := NextAlive(at + 1, |hosts|, down); if i < |hosts| then Some(i) else None
    {
      var i := at;
      while i + 1 < |hosts|
        invariant at <= i < |hosts|
        invariant NextAlive(at + 1, |hosts|, down) == NextAlive(i + 1, |hosts|, down)
      {
        i := i + 1;
        if i !in down {
          return Some(i);
        }
      }
      next := None;
    }

    /** `ngx_http_get_first_peer`. */
    method GetFirstPeer(down: set<nat>) returns (first: Option<nat>)
      ensures first == var i := NextAlive(0, |hosts|, down); if i < |hosts| then Some(i) else None
    {
      if |hosts| == 0 {
        return None;
      }
      if 0 !in down {
        return Some(0);
      }
      first := GetNextPeer(0, down);
    }

    /** The handler's turn once a node has answered: its answer, or the next node alive, or not found. */
    method Handle(answer: Answer, down: set<nat>) returns (reply: Option<Reply>)
      requires Valid() && peer.Some?
      modifies this
      ensures Valid()
      ensures answer.status == OK ==> reply == Some(Found(answer.response)) && peer == old(peer)
      ensures answer.status != OK ==>
        var i := NextAlive(old(peer.value) + 1, |hosts|, down);
        if i < |hosts| then reply == None && peer == Some(i) else reply == Some(NotFound) && peer == None
    {
      if answer.status != OK {
        peer := GetNextPeer(peer.value, down);
        return if peer.Some? then None else Some(NotFound);
      }
      reply := Some(Found(answer.response));
    }
  }

  predicate AllDown(lo: int, hi: int, down: set<nat>)
  {
    forall k :: lo < k < hi ==> k in down
  }

  function Before(asked: seq<nat>, i: nat): int
    requires i <= |asked|
  {
    if i > 0 then asked[i - 1] else -1
  }

  /** The nodes `asked` one after another in list order, and no node below `next` passed over except at a
      turn when it was down; `down(i)` are the nodes the health checks report down at the i-th turn. */
  ghost predicate Trail(asked: seq<nat>, next: nat, down: nat -> set<nat>)
  {
    && (forall i, j :: 0 <= i < j < |asked| ==> asked[i] < asked[j])
    && (forall i :: 0 <= i < |asked| ==> asked[i] < next && asked[i] !in down(i))
    && forall i, p ::
      0 <= i <= |asked| && Before(asked, i) < p < (if i < |asked| then asked[i] else next) ==> p in down(i)
  }

  lemma TrailGrows(asked: seq<nat>, p: nat, next: nat, down: nat -> set<nat>)
    requires Trail(asked, p, down) && p < next && p !in down(|asked|)
    requires AllDown(p, next, down(|asked| + 1))
    ensures Trail(asked + [p], next, down)
  {
    var more := asked + [p];
    assert forall i: nat :: i <= |asked| ==> Before(more, i) == Before(asked, i);
    assert Before(more, |more|) == p;
  }

  /** What happened to each node a trail has reached. */
  lemma {:induction false} TrailPassed(asked: seq<nat>, next: nat, down: nat -> set<nat>, p: nat)
    requires Trail(asked, next, down) && p < next
    ensures p in asked || exists i: nat :: i <= |asked| && p in down(i)
  {
    var n := |asked|;
    if n == 0 || asked[n - 1] < p {
      assert Before(asked, n) < p;
      assert p in down(n);
    } else if asked[n - 1] != p {
      var less := asked[..n - 1];
      assert forall i: nat :: i <= |less| ==> Before(less, i) == Before(asked, i);
      TrailPassed(less, asked[n - 1], down, p);
    }
  }

  /** A whole read, where node `p` answers `answer(p)` when asked. Every node is asked at most once, in
      list order, and exactly those down at the turn that reaches them are left out; the first success
      ends the read, and without one nothing was found, or, if no node was alive to ask in the first
      place, a GET without a body (`posted` is false) ends in an error. */
  ghost predicate Walked(hosts: seq<string>, posted: bool, down: nat -> set<nat>, answer: nat -> Answer,
                         asked: seq<nat>, reply: Reply)
  {
    && (forall i :: 0 <= i < |asked| && (!reply.Found? || i < |asked| - 1) ==> answer(asked[i]).status != OK)
    && (!reply.Found? ==> Trail(asked, |hosts|, down) && (reply == Fault <==> asked == [] && !posted))
    && (reply.Found? ==>
          var n := |asked| - 1;
          && n >= 0 && Trail(asked[..n], asked[n], down) && asked[n] < |hosts| && asked[n] !in down(n)
          && answer(asked[n]) == Answer(OK, reply.response))
  }

  method Serve(hosts: seq<string>, posted: bool, down: nat -> set<nat>, answer: nat -> Answer)
    returns (asked: seq<nat>, reply: Reply)
    ensures Walked(hosts, posted, down, answer, asked, reply)
  {
    hide Trail, NextAlive;
    asked := [];
    var read := new Read(hosts);
    read.peer := read.GetFirstPeer(down(0));
    TrailStarts(if read.peer.Some? then read.peer.value else |hosts|, down);
    if read.peer.None? {
      return asked, if posted then NotFound else Fault;
    }
    reply := NotFound;
    while read.peer.Some?
      invariant fresh(read) && read.Valid() && read.hosts == hosts && reply == NotFound
      invariant forall i :: 0 <= i < |asked| ==> answer(asked[i]).status != OK
      invariant Trail(asked, if read.peer.Some? then read.peer.value else |hosts|, down)
      invariant if read.peer.Some? then read.peer.value !in down(|asked|) else asked != []
      decreases |hosts| - if read.peer.Some? then read.peer.value else |hosts|
    {
      var p := read.peer.value;
      var result := read.Handle(answer(p), down(|asked| + 1));
      ghost var before := asked;
      asked := asked + [p];
      if result.Some? && result.value.Found? {
        assert asked[..|asked| - 1] == before;
        reply := result.value;
        return;
      }
      TrailGrows(before, p, if read.peer.Some? then read.peer.value else |hosts|, down);
    }
  }

  lemma TrailStarts(next: nat, down: nat -> set<nat>)
    requires AllDown(-1, next, down(0))
    ensures Trail([], next, down)
  {}

  /** Wherever `h` stands in a list it stays up, and answers a read with success. */
  ghost predicate Keeps(h: string, hosts: seq<string>, down: nat -> set<nat>, answer: nat -> Answer)
  {
    forall p: nat :: p < |hosts| && hosts[p] == h ==> answer(p).status == OK && forall i :: p !in down(i)
  }

  /** One node that keeps the key is enough for a read to find a value. */
  lemma KeeperFound(h: string, hosts: seq<string>, posted: bool, down: nat -> set<nat>, answer: nat -> Answer,
                    asked: seq<nat>, reply: Reply)
    requires h in hosts && Walked(hosts, posted, down, answer, asked, reply) && Keeps(h, hosts, down, answer)
    ensures reply.Found?
  {
    hide Trail;
    var p: nat :| p < |hosts| && hosts[p] == h;
    if !reply.Found? { TrailPassed(asked, |hosts|, down, p); }
  }

  /** Nothing is found unless some node of the list answers the key. */
  lemma FoundSomewhere(hosts: seq<string>, posted: bool, down: nat -> set<nat>, answer: nat -> Answer, asked: seq<nat>,
                       reply: Reply)
    requires Walked(hosts, posted, down, answer, asked, reply) && reply.Found?
    ensures exists p: nat :: p < |hosts| && answer(p).status == OK && answer(p).response == reply.response
  {}

  // --- reading what was written ---

  /** The slot of a key under a table accepted over initially empty slots. */
  function SlotOf(includeDecrease: bool, table: seq<HaTable.Elem>, known: set<string>, hash: nat): HaTable.Slot
    requires HaBuild.Accepted(includeDecrease, table, known, HaBuild.FreshSlots())
  {
    var ws := HaTable.AllWrites(includeDecrease, table, |table|, known);
    HaTable.ApplyAll(HaBuild.FreshSlots(), ws)[hash % HaTable.SIZE]
  }

  /** Under one accepted table, in any migration phase, a write and a later read of a key: the write is a
      run of the protocol, the read walks the read list of the key's slot. If the write was acknowledged,
      some master of the slot took it, and if one that did keeps the key, the read finds a value (though not
      necessarily the newest one). */
  method WriteThenRead(includeDecrease: bool, table: seq<HaTable.Elem>, known: set<string>, hash: nat,
                       code: nat, posted: bool, written: nat -> HaWrite.Answer, env: nat -> HaWrite.Env,
                       down: nat -> set<nat>, answer: nat -> Answer)
    returns (run: HaWrite.Run, asked: seq<nat>, reply: Reply)
    requires HaBuild.Accepted(includeDecrease, table, known, HaBuild.FreshSlots())
    ensures run == HaWrite.RunOf(code, posted, written, env)
    ensures var s := SlotOf(includeDecrease, table, known, hash);
      && s.readlist.Some? && s.writelist.Some? && |s.writelist.value| == 2
      && Walked(s.readlist.value, posted, down, answer, asked, reply)
      && (run.result.Reply? && run.result.status == OK ==>
            exists n: HaWrite.Node :: HaWrite.AcceptedBy(n, run.asked, written))
      && forall n: HaWrite.Node ::
        (HaWrite.AcceptedBy(n, run.asked, written) && Keeps(s.writelist.value[n], s.readlist.value, down, answer) ==>
          reply.Found?)
  {
    hide HaTable.ApplyAll, HaTable.Checked, HaTable.AllWrites, HaWrite.RunOf, HaWrite.AcceptedBy, HaWrite.Recorded,
         Trail, Walked, Keeps;
    var s := SlotOf(includeDecrease, table, known, hash);
    var _ := HaBuild.FreshServed(includeDecrease, table, known, hash % HaTable.SIZE);
    run := HaWrite.Serve(code, posted, written, env);
    HaWrite.AcknowledgedExactly(code, posted, written, env);
    asked, reply := Serve(s.readlist.value, posted, down, answer);
    forall n: HaWrite.Node | Keeps(s.writelist.value[n], s.readlist.value, down, answer) ensures reply.Found? {
      assert s.writelist.value[n] in s.readlist.value;
      KeeperFound(s.writelist.value[n], s.readlist.value, posted, down, answer, asked, reply);
    }
  }

  // --- reading across a switch of tables ---

  /** Every node is up, and a node has the key exactly if its host is a master of `plain` that took the write. */
  ghost predicate HasWhatItTook(plain: seq<string>, asked: seq<HaWrite.Action>, written: nat -> HaWrite.Answer,
                                hosts: seq<string>, down: nat -> set<nat>, answer: nat -> Answer)
    requires |plain| == 2
  {
    && (forall i :: down(i) == {})
    && (forall p: nat :: p < |hosts| ==>
          (answer(p).status == OK <==>
            exists n: HaWrite.Node :: HaWrite.AcceptedBy(n, asked, written) && plain[n] == hosts[p]))
  }

  /** A value acknowledged under the plain table and not yet copied by a sync record is found under the
      increase table exactly when the master that stays with its half took it, or both masters are one host. */
  method SwitchThenRead(e: HaTable.Elem, half: nat, code: nat, posted: bool, written: nat -> HaWrite.Answer,
                        env: nat -> HaWrite.Env, down: nat -> set<nat>, answer: nat -> Answer)
    returns (run: HaWrite.Run, asked: seq<nat>, reply: Reply)
    requires HaTable.Expandable(false, e) && HaTable.EnableIncrease(e) && half < 2
    ensures run == HaWrite.RunOf(code, posted, written, env)
    ensures var hosts, plain := HaTable.Writes(false, e)[half].readlist, e.item.value.val;
      && Walked(hosts, posted, down, answer, asked, reply)
      && (run.result.Reply? && run.result.status == OK
          && HasWhatItTook(plain, run.asked, written, hosts, down, answer) ==>
            (reply.Found? <==> HaWrite.AcceptedBy(half, run.asked, written) || plain[0] == plain[1]))
  {
    hide HaWrite.RunOf, HaWrite.AcceptedBy, HaWrite.Recorded, Trail, Walked, HaTable.Writes, HaTable.Expandable;
    TwoHalves(e);
    var hosts, plain := HaTable.Writes(false, e)[half].readlist, e.item.value.val;
    run := HaWrite.Serve(code, posted, written, env);
    HaWrite.AcknowledgedExactly(code, posted, written, env);
    asked, reply := Serve(hosts, posted, down, answer);
    HaTable.HalvesRead(e, half, 0);
    HaTable.HalvesRead(e, half, 1);
    if HasWhatItTook(plain, run.asked, written, hosts, down, answer) {
      if n: HaWrite.Node :| HaWrite.AcceptedBy(n, run.asked, written) && plain[n] in hosts {
        KeeperFound(plain[n], hosts, posted, down, answer, asked, reply);
      } else if reply.Found? {
        FoundSomewhere(hosts, posted, down, answer, asked, reply);
      }
    }
  }

  lemma TwoHalves(e: HaTable.Elem)
    requires HaTable.Expandable(false, e) && HaTable.EnableIncrease(e)
    ensures |HaTable.Writes(false, e)| == 2 && e.item.Some? && |e.item.value.val| == 2
  {}
}
