/** The round robin upstream as nginx keeps it: peers updated in place, a request with its bitmap of
    tried peers, and the failover from the primary group to the backup group. A 64-bit word of the
    bitmap is modelled as the set of the positions of its 1 bits. */
module RoundRobin {
  import PeerSpec

  const WORD_BITS := 64

  class Peer {
    const weight: nat
    const maxConns: nat
    const maxFails: nat
    const failTimeout: int
    const down: bool
    var effective: int
    var current: int
    var conns: int
    var fails: nat
    var checked: int
    var accessed: int

    function View(): PeerSpec.Peer
      reads this
    {
      PeerSpec.Peer(weight, effective, current, maxConns, conns, maxFails, fails, checked, accessed, failTimeout, down)
    }

    constructor (weight: nat, maxConns: nat, maxFails: nat, failTimeout: int, down: bool)
      ensures View() == PeerSpec.Peer(weight, weight, 0, maxConns, 0, maxFails, 0, 0, 0, failTimeout, down)
    {
      this.weight, this.maxConns, this.maxFails, this.failTimeout, this.down := weight, maxConns, maxFails,
        failTimeout, down;
      effective, current, conns, fails, checked, accessed := weight, 0, 0, 0, 0, 0;
    }
  }

  function Views(q: seq<Peer>): (g: PeerSpec.Group)
    reads q
    ensures |g| == |q|
  {
    seq(|q|, i requires 0 <= i < |q| reads q => q[i].View())
  }

  predicate Distinct(q: seq<Peer>)
  {
    forall i, j :: 0 <= i < j < |q| ==> q[i] != q[j]
  }

  /** One group; `next` is the backup group of the primary one. */
  class Peers {
    const list: seq<Peer>
    const single: bool
    const next: Peers?

    constructor (list: seq<Peer>, single: bool, next: Peers?)
      ensures this.list == list && this.single == single && this.next == next
    {
      this.list, this.single, this.next := list, single, next;
    }
  }

  type Word = set<nat>

  function Words(n: nat): nat
  {
    (n + (WORD_BITS - 1)) / WORD_BITS
  }

  function BackupSize(p: Peers): nat
  {
    if p.next == null then 0 else |p.next.list|
  }

  /** What configuration guarantees: distinct peers, a backup group without a further backup, and the
      single-peer shortcut only for one peer without backup. */
  predicate Configured(p: Peers)
  {
    && Distinct(p.list)
    && (p.single ==> |p.list| == 1 && p.next == null)
    && (p.next != null ==>
          && Distinct(p.next.list) && p.next.next == null && !p.next.single
          && forall i, j :: 0 <= i < |p.list| && 0 <= j < |p.next.list| ==> p.list[i] != p.next.list[j])
  }

  /** Bit `i` of a bitmap. */
  predicate Bit(words: seq<Word>, i: nat)
  {
    i / WORD_BITS < |words| && i % WORD_BITS in words[i / WORD_BITS]
  }

  function WithBit(words: seq<Word>, i: nat): seq<Word>
    requires i / WORD_BITS < |words|
  {
    words[i / WORD_BITS := words[i / WORD_BITS] + {i % WORD_BITS}]
  }

  /** Setting one bit changes the answer for that position only. */
  lemma SetBit(words: seq<Word>, p: nat, i: nat)
    requires p / WORD_BITS < |words|
    ensures Bit(WithBit(words, p), i) <==> i == p || Bit(words, i)
  {}

  function Marked(words: seq<Word>, n: nat): set<nat>
  {
    set i: nat | i < n && Bit(words, i)
  }

  function Unmarked(words: seq<Word>, n: nat): nat
  {
    if n == 0 then 0 else Unmarked(words, n - 1) + if Bit(words, n - 1) then 0 else 1
  }

  lemma {:induction false} MarkOne(words: seq<Word>, p: nat, n: nat)
    requires p / WORD_BITS < |words| && !Bit(words, p)
    ensures Unmarked(WithBit(words, p), n) == Unmarked(words, n) - if p < n then 1 else 0
  {
    if n > 0 {
      MarkOne(words, p, n - 1);
      SetBit(words, p, n - 1);
    }
  }

  lemma {:induction false} MarkNone(words: seq<Word>, n: nat)
    requires forall w :: 0 <= w < |words| ==> words[w] == {}
    ensures Unmarked(words, n) == n
  {
    if n > 0 { MarkNone(words, n - 1); }
  }

  class PeerData {
    var peers: Peers
    var current: Peer?
    const tried: array<Word>
    ghost var given: set<Peer>

    /** The bitmap covers the current group and the one behind it, and marks exactly the peers of the
        current group this request was given; no peer of the backup was given before failover. */
    ghost predicate Valid()
      reads this, tried
    {
      && Configured(peers)
      && |peers.list| <= tried.Length * WORD_BITS && BackupSize(peers) <= tried.Length * WORD_BITS
      && (!peers.single ==> forall i :: 0 <= i < |peers.list| ==> (Bit(tried[..], i) <==> peers.list[i] in given))
      && (peers.next != null ==> forall i :: 0 <= i < |peers.next.list| ==> peers.next.list[i] !in given)
    }

    /** `ngx_http_upstream_init_round_robin_peer`: one word when 64 bits suffice for both groups. */
    constructor (peers: Peers)
      requires Configured(peers)
      ensures Valid() && this.peers == peers && given == {} && fresh(tried)
    {
      var n := |peers.list|;
      if peers.next != null && |peers.next.list| > n {
        n := |peers.next.list|;
      }
      this.peers, current, given := peers, null, {};
      tried := new Word[if n <= WORD_BITS then 1 else Words(n)](_ => {});
    }

    /** How many more peers this request can be given: the untried ones and the whole backup. */
    ghost function Remaining(): nat
      reads this, tried
    {
      Unmarked(tried[..], |peers.list|) + BackupSize(peers)
    }
  }

  lemma TotalStep(g: PeerSpec.Group, el: seq<bool>, i: nat)
    requires |el| == |g| && i < |g|
    ensures PeerSpec.Total(g[..i + 1], el[..i + 1])
            == PeerSpec.Total(g[..i], el[..i]) + if el[i] then g[i].effective else 0
  {
    assert g[..i + 1][..i] == g[..i] && el[..i + 1][..i] == el[..i];
  }

  lemma BestStep(g: PeerSpec.Group, el: seq<bool>, i: nat)
    requires |el| == |g| && i < |g|
    ensures PeerSpec.Best(g[..i + 1], el[..i + 1])
            == var b := PeerSpec.Best(g[..i], el[..i]);
               if el[i] && (b == -1 || g[i].current > g[b].current) then i else b
  {
    assert g[..i + 1][..i] == g[..i] && el[..i + 1][..i] == el[..i];
  }

  lemma GainedAt(g: PeerSpec.Group, el: seq<bool>)
    requires |el| == |g|
    ensures forall i :: 0 <= i < |g| ==>
      PeerSpec.Gained(g, el)[i] == if el[i] then PeerSpec.Gain(g[i]) else g[i]
  {}

  lemma EligibleAt(g: PeerSpec.Group, words: seq<Word>, unhealthy: set<nat>, now: int, i: nat)
    requires i < |g|
    ensures var e := PeerSpec.Eligibles(g, Marked(words, |g|), unhealthy, now)[i];
      e == PeerSpec.Eligible(g[i], Bit(words, i), i in unhealthy, now) && (e ==> !Bit(words, i))
  {}

  lemma ScanStart()
    ensures PeerSpec.Total([], []) == 0 && PeerSpec.Best([], []) == -1
  {}

  /** One turn of the scan: skip the peer or raise it. */
  method Consider(peer: Peer, tried: bool, unhealthy: bool, now: int) returns (gained: bool, weight: int)
    modifies peer`current, peer`effective
    ensures gained == PeerSpec.Eligible(old(peer.View()), tried, unhealthy, now)
    ensures peer.View() == if gained then PeerSpec.Gain(old(peer.View())) else old(peer.View())
    ensures weight == old(peer.effective)
  {
    weight := peer.effective;
    if tried || peer.down || unhealthy {
      return false, weight;
    }
    if peer.maxFails != 0 && peer.fails >= peer.maxFails && now - peer.checked <= peer.failTimeout {
      return false, weight;
    }
    if peer.maxConns != 0 && peer.conns >= peer.maxConns {
      return false, weight;
    }
    peer.current := peer.current + peer.effective;
    if peer.effective < peer.weight {
      peer.effective := peer.effective + 1;
    }
    gained := true;
  }

  method TestBit(tried: array<Word>, i: nat) returns (marked: bool)
    requires i < tried.Length * WORD_BITS
    ensures marked == Bit(tried[..], i)
  {
    var n, m := i / WORD_BITS, i % WORD_BITS;
    marked := m in tried[n];
  }

  /** One turn of the scan, the best so far included. */
  method ScanOne(q: seq<Peer>, tried: array<Word>, unhealthy: set<nat>, now: int, i: nat, best: int, sum: int,
                 ghost g: PeerSpec.Group, ghost el: seq<bool>) returns (b: int, total: int)
    requires Distinct(q) && i < |q| == |g| && |q| <= tried.Length * WORD_BITS
    requires el == PeerSpec.Eligibles(g, Marked(tried[..], |q|), unhealthy, now) && q[i].View() == g[i]
    requires best == -1 || (0 <= best < i && q[best].View() == PeerSpec.Gained(g, el)[best])
    requires sum == PeerSpec.Total(g[..i], el[..i]) && best == PeerSpec.Best(PeerSpec.Gained(g, el)[..i], el[..i])
    modifies q[i]
    ensures q[i].View() == PeerSpec.Gained(g, el)[i]
    ensures total == PeerSpec.Total(g[..i + 1], el[..i + 1])
    ensures b == PeerSpec.Best(PeerSpec.Gained(g, el)[..i + 1], el[..i + 1])
  {
    hide PeerSpec.Best, PeerSpec.Total, PeerSpec.Eligible, PeerSpec.Eligibles, PeerSpec.Gain, PeerSpec.Gained, Marked,
         Bit;
    GainedAt(g, el);
    TotalStep(g, el, i);
    BestStep(PeerSpec.Gained(g, el), el, i);
    EligibleAt(g, tried[..], unhealthy, now, i);
    b, total := best, sum;
    var marked := TestBit(tried, i);
    var gained, weight := Consider(q[i], marked, i in unhealthy, now);
    if gained {
      total := total + weight;
      if b == -1 || q[i].current > q[b].current {
        b := i;
      }
    }
  }

  /** The scan of `ngx_http_upstream_get_peer`: raises every eligible peer and remembers the best. */
  method Scan(q: seq<Peer>, tried: array<Word>, unhealthy: set<nat>, now: int, ghost g: PeerSpec.Group,
              ghost el: seq<bool>)
    returns (b: int, total: int)
    requires Distinct(q) && |q| <= tried.Length * WORD_BITS && g == Views(q)
    requires el == PeerSpec.Eligibles(g, Marked(tried[..], |q|), unhealthy, now)
    modifies q
    ensures Views(q) == PeerSpec.Gained(g, el)
    ensures b == PeerSpec.Best(PeerSpec.Gained(g, el), el) && total == PeerSpec.Total(g, el)
  {
    hide PeerSpec.Best, PeerSpec.Total, PeerSpec.Eligible, PeerSpec.Eligibles, PeerSpec.Gain, PeerSpec.Gained, Marked,
         Bit;
    ghost var up := PeerSpec.Gained(g, el);
    ScanStart();
    b, total := -1, 0;
    var i := 0;
    while i < |q|
      invariant 0 <= i <= |q|
      invariant forall k :: 0 <= k < i ==> q[k].View() == up[k]
      invariant forall k :: i <= k < |q| ==> q[k].View() == g[k]
      invariant total == PeerSpec.Total(g[..i], el[..i]) && b == PeerSpec.Best(up[..i], el[..i])
    {
      b, total := ScanOne(q, tried, unhealthy, now, i, b, total, g, el);
      i := i + 1;
    }
    assert g[..i] == g && el[..i] == el && up[..i] == up;
  }

  /** Marks the chosen peer as tried and lets it pay. */
  method GetPeer(rrp: PeerData, unhealthy: set<nat>, now: int, ghost g: PeerSpec.Group, ghost el: seq<bool>)
    returns (best: Peer?, ghost b: int)
    requires rrp.Valid() && !rrp.peers.single && g == Views(rrp.peers.list)
    requires el == PeerSpec.Eligibles(g, Marked(rrp.tried[..], |g|), unhealthy, now)
    modifies rrp`current, rrp`given, rrp.tried, rrp.peers.list
    ensures rrp.Valid()
    ensures (b, Views(rrp.peers.list)) == PeerSpec.Choose(g, el, now)
    ensures best == null <==> b == -1
    ensures best == null ==> rrp.tried[..] == old(rrp.tried[..]) && rrp.given == old(rrp.given)
    ensures best != null ==>
      && best == rrp.peers.list[b] && rrp.current == best
      && best !in old(rrp.given) && rrp.given == old(rrp.given) + {best}
      && Marked(rrp.tried[..], |rrp.peers.list|) == old(Marked(rrp.tried[..], |rrp.peers.list|)) + {b}
      && rrp.Remaining() == old(rrp.Remaining()) - 1
  {
    hide PeerSpec.Best, PeerSpec.Total, PeerSpec.Eligible, PeerSpec.Eligibles, PeerSpec.Gain, Marked, Bit, Unmarked;
    var q := rrp.peers.list;
    var p, total := Scan(q, rrp.tried, unhealthy, now, g, el);
    b := p;
    if p == -1 {
      return null, -1;
    }
    best := q[p];
    EligibleAt(g, rrp.tried[..], unhealthy, now, p);
    rrp.current := best;
    MarkTried(rrp, p);
    PayTotal(best, total, now);
    ghost var up := PeerSpec.Gained(g, el);
    hide PeerSpec.Gained, PeerSpec.Pay, Peer.View;
    assert Views(q) == up[p := PeerSpec.Pay(up[p], total, now)];
  }

  method PayTotal(best: Peer, total: int, now: int)
    modifies best`current, best`checked
    ensures best.View() == PeerSpec.Pay(old(best.View()), total, now)
  {
    best.current := best.current - total;
    if now - best.checked > best.failTimeout {
      best.checked := now;
    }
  }

  method MarkTried(rrp: PeerData, p: nat)
    requires rrp.Valid() && !rrp.peers.single && p < |rrp.peers.list| && !Bit(rrp.tried[..], p)
    modifies rrp`given, rrp.tried
    ensures rrp.Valid() && rrp.given == old(rrp.given) + {rrp.peers.list[p]}
    ensures rrp.peers.list[p] !in old(rrp.given)
    ensures Marked(rrp.tried[..], |rrp.peers.list|) == old(Marked(rrp.tried[..], |rrp.peers.list|)) + {p}
    ensures rrp.Remaining() == old(rrp.Remaining()) - 1
  {
    ghost var words := rrp.tried[..];
    forall i: nat | i < |rrp.peers.list| ensures Bit(WithBit(words, p), i) <==> i == p || Bit(words, i) {
      SetBit(words, p, i);
    }
    MarkOne(words, p, |rrp.peers.list|);
    var n, m := p / WORD_BITS, p % WORD_BITS;
    rrp.tried[n] := rrp.tried[n] + {m};
    rrp.given := rrp.given + {rrp.peers.list[p]};
    assert rrp.tried[..] == WithBit(words, p);
  }

  function UnhealthyIn(q: seq<Peer>, unhealthy: set<Peer>): set<nat>
  {
    set i: nat | i < |q| && q[i] in unhealthy
  }

  /** A group of several peers: choose one and count the connection. */
  method GetFromGroup(rrp: PeerData, unhealthy: set<nat>, now: int) returns (peer: Peer?)
    requires rrp.Valid() && !rrp.peers.single
    modifies rrp`current, rrp`given, rrp.tried, rrp.peers.list
    ensures rrp.Valid()
    ensures Views(rrp.peers.list) == PeerSpec.Step(old(Views(rrp.peers.list)),
              PeerSpec.Get(old(Marked(rrp.tried[..], |rrp.peers.list|)), unhealthy, now))
    ensures var b := PeerSpec.Picked(old(Views(rrp.peers.list)),
                       PeerSpec.Get(old(Marked(rrp.tried[..], |rrp.peers.list|)), unhealthy, now));
      && -1 <= b < |rrp.peers.list| && peer == (if b == -1 then null else rrp.peers.list[b])
      && (b >= 0 ==> Marked(rrp.tried[..], |rrp.peers.list|) == old(Marked(rrp.tried[..], |rrp.peers.list|)) + {b})
    ensures peer == null ==> rrp.tried[..] == old(rrp.tried[..]) && rrp.given == old(rrp.given)
    ensures peer != null ==> rrp.current == peer && peer in rrp.peers.list && PeerSpec.WithinLimit(peer.View())
    ensures peer != null ==>
      && peer !in old(rrp.given) && rrp.given == old(rrp.given) + {peer}
      && rrp.Remaining() == old(rrp.Remaining()) - 1
  {
    hide Marked, Bit, Unmarked, PeerSpec.Eligible, PeerSpec.Eligibles;
    ghost var g := Views(rrp.peers.list);
    ghost var e := PeerSpec.Get(Marked(rrp.tried[..], |g|), unhealthy, now);
    ghost var b;
    peer, b := GetPeer(rrp, unhealthy, now, g, PeerSpec.Eligibles(g, e.tried, unhealthy, now));
    if peer != null {
      ghost var chosen := Views(rrp.peers.list);
      CountConnection(peer);
      hide PeerSpec.Connect, PeerSpec.Choose, PeerSpec.WithinLimit;
      assert Views(rrp.peers.list) == chosen[b := PeerSpec.Connect(chosen[b])];
      PeerSpec.PickedWithinLimit(g, e);
    }
  }

  method CountConnection(peer: Peer)
    modifies peer`conns
    ensures peer.View() == PeerSpec.Connect(old(peer.View()))
  {
    peer.conns := peer.conns + 1;
  }

  /** A single peer without backup is taken whenever it is up and below its limit. */
  method GetSingle(rrp: PeerData, unhealthy: set<Peer>) returns (peer: Peer?)
    requires rrp.Valid() && rrp.peers.single
    modifies rrp`current, rrp.peers.list
    ensures rrp.Valid()
    ensures peer != null <==> var p := rrp.peers.list[0];
      !p.down && p !in unhealthy && (p.maxConns == 0 || old(p.conns) < p.maxConns)
    ensures peer != null ==> peer == rrp.peers.list[0] && rrp.current == peer
    ensures peer != null ==> peer.View() == PeerSpec.Connect(old(rrp.peers.list[0].View()))
    ensures peer == null ==>
      rrp.current == old(rrp.current) && rrp.peers.list[0].View() == old(rrp.peers.list[0].View())
  {
    var p := rrp.peers.list[0];
    if p.down {
      return null;
    }
    if p.maxConns != 0 && p.conns >= p.maxConns {
      return null;
    }
    if p in unhealthy {
      return null;
    }
    rrp.current := p;
    CountConnection(p);
    return p;
  }

  /** Nobody of `list` can be given out: each was given already, is reported unhealthy, or is barred. */
  predicate Exhausted(list: seq<Peer>, g: PeerSpec.Group, given: set<Peer>, unhealthy: set<Peer>, now: int)
    requires |g| == |list|
  {
    forall i :: 0 <= i < |list| ==> list[i] in given || list[i] in unhealthy || PeerSpec.Barred(g[i], now)
  }

  /** What a pick means for the peers themselves. */
  lemma PickedFrom(list: seq<Peer>, g: PeerSpec.Group, tried: set<nat>, given: set<Peer>, unhealthy: set<Peer>,
                   now: int)
    requires |g| == |list| && forall i: nat :: i < |list| ==> (i in tried <==> list[i] in given)
    ensures var b := PeerSpec.Picked(g, PeerSpec.Get(tried, UnhealthyIn(list, unhealthy), now));
      && -1 <= b < |list|
      && (b >= 0 ==> list[b] !in given && list[b] !in unhealthy && !PeerSpec.Barred(g[b], now))
      && (b == -1 ==> Exhausted(list, g, given, unhealthy, now))
  {
    hide PeerSpec.Picked, PeerSpec.Barred;
    PeerSpec.PickExactly(g, tried, UnhealthyIn(list, unhealthy), now);
  }

  /** What the group a request is at is asked for. */
  function FirstAsk(peers: Peers, words: seq<Word>, unhealthy: set<Peer>, now: int): PeerSpec.Event
  {
    PeerSpec.Get(Marked(words, |peers.list|), UnhealthyIn(peers.list, unhealthy), now)
  }

  /** What a backup group is asked for, its bitmap having been cleared. */
  function BackupAsk(peers: Peers, unhealthy: set<Peer>, now: int): PeerSpec.Event
  {
    PeerSpec.Get({}, UnhealthyIn(peers.list, unhealthy), now)
  }

  lemma MarkedIsGiven(rrp: PeerData)
    requires rrp.Valid() && !rrp.peers.single
    ensures var list := rrp.peers.list;
      forall i: nat :: i < |list| ==> (i in Marked(rrp.tried[..], |list|) <==> list[i] in rrp.given)
  {}

  /** `ngx_http_upstream_get_round_robin_peer` for several peers: they compete, and a group with nobody
      eligible hands over to its backup with a cleared bitmap. `unhealthy` is what the health checker
      says; null stands for `NGX_BUSY`, given exactly when every group asked has nobody to pick. No request
      is ever given the same peer twice. */
  method GetRoundRobinPeer(rrp: PeerData, unhealthy: set<Peer>, now: int) returns (peer: Peer?)
    requires rrp.Valid() && !rrp.peers.single
    modifies rrp, rrp.tried, rrp.peers.list, Backup(rrp.peers)
    ensures rrp.Valid() && !rrp.peers.single
    ensures rrp.peers == old(rrp.peers) || rrp.peers == old(rrp.peers.next)
    ensures peer == null ==>
      rrp.peers.next == null && rrp.given == old(rrp.given) && rrp.Remaining() <= old(rrp.Remaining())
    ensures peer != null ==> rrp.current == peer && peer in rrp.peers.list && PeerSpec.WithinLimit(peer.View())
    ensures peer != null ==>
      && peer !in old(rrp.given) && rrp.given == old(rrp.given) + {peer}
      && rrp.Remaining() < old(rrp.Remaining())
    ensures var list := old(rrp.peers.list); var e := FirstAsk(old(rrp.peers), old(rrp.tried[..]), unhealthy, now);
      var b := PeerSpec.Picked(old(Views(rrp.peers.list)), e);
      && Views(list) == PeerSpec.Step(old(Views(rrp.peers.list)), e) && -1 <= b < |list|
      && (b >= 0 ==> rrp.peers == old(rrp.peers) && peer == list[b]
                     && peer !in unhealthy && !PeerSpec.Barred(old(Views(rrp.peers.list))[b], now))
      && (b == -1 ==> Exhausted(list, old(Views(rrp.peers.list)), old(rrp.given), unhealthy, now)
                      && if old(rrp.peers.next) == null then peer == null else rrp.peers == old(rrp.peers.next))
    ensures old(rrp.peers.next) != null && rrp.peers == old(rrp.peers.next) ==>
      var e := BackupAsk(rrp.peers, unhealthy, now);
      var b := PeerSpec.Picked(old(Views(Backup(rrp.peers))), e);
      && Views(rrp.peers.list) == PeerSpec.Step(old(Views(Backup(rrp.peers))), e)
      && -1 <= b < |rrp.peers.list| && peer == (if b == -1 then null else rrp.peers.list[b])
      && (b >= 0 ==> peer !in unhealthy && !PeerSpec.Barred(old(Views(Backup(rrp.peers)))[b], now))
      && (b == -1 ==> Exhausted(rrp.peers.list, old(Views(Backup(rrp.peers))), {}, unhealthy, now))
  {
    hide Marked, Bit, Unmarked, PeerSpec.Step, PeerSpec.Picked, PeerSpec.WithinLimit, PeerSpec.Barred, UnhealthyIn,
         Exhausted;
    var peers := rrp.peers;
    MarkedIsGiven(rrp);
    PickedFrom(peers.list, Views(peers.list), Marked(rrp.tried[..], |peers.list|), rrp.given, unhealthy, now);
    peer := GetFromGroup(rrp, UnhealthyIn(peers.list, unhealthy), now);
    if peer == null && peers.next != null {
      FailOver(rrp);
      PickedFrom(rrp.peers.list, Views(rrp.peers.list), {}, {}, unhealthy, now);
      peer := GetFromGroup(rrp, UnhealthyIn(rrp.peers.list, unhealthy), now);
    }
  }

  /** `ngx_http_upstream_free_round_robin_peer`: the single peer only loses a connection, any other peer
      also remembers a failure, or forgets its failures once a check has passed. */
  method FreeRoundRobinPeer(rrp: PeerData, failed: bool, now: int, tries: nat) returns (left: nat)
    requires rrp.current != null
    modifies rrp.current
    ensures rrp.current.View() ==
      if rrp.peers.single then old(rrp.current.View()).(conns := old(rrp.current.conns) - 1)
      else PeerSpec.Release(old(rrp.current.View()), failed, now)
    ensures left == if rrp.peers.single || tries == 0 then 0 else tries - 1
  {
    var peer := rrp.current;
    if rrp.peers.single {
      peer.conns := peer.conns - 1;
      return 0;
    }
    if failed {
      peer.fails := peer.fails + 1;
      peer.accessed := now;
      peer.checked := now;
      if peer.maxFails != 0 {
        peer.effective := peer.effective - peer.weight / peer.maxFails;
      }
      if peer.effective < 0 {
        peer.effective := 0;
      }
    } else {
      if peer.accessed < peer.checked {
        peer.fails := 0;
      }
    }
    peer.conns := peer.conns - 1;
    left := if tries > 0 then tries - 1 else tries;
  }

  /** Asking one request for peers until it reports `NGX_BUSY`, whatever the clock and the health
      checker say each time: every answer is a different peer, and there are at most as many as both
      groups have members, the number nginx grants as tries. */
  method AskUntilBusy(rrp: PeerData, unhealthy: nat -> set<Peer>, clock: nat -> int) returns (got: seq<Peer>)
    requires rrp.Valid() && !rrp.peers.single && rrp.given == {}
    modifies rrp, rrp.tried, rrp.peers.list, Backup(rrp.peers)
    ensures |got| <= old(|rrp.peers.list|) + old(BackupSize(rrp.peers))
    ensures Distinct(got)
  {
    hide Marked, Bit, Unmarked, PeerSpec.Step, PeerSpec.Picked, PeerSpec.WithinLimit, FirstAsk, BackupAsk, Views;
    got := [];
    UnmarkedBound(rrp.tried[..], |rrp.peers.list|);
    var asked := 0;
    while true
      invariant rrp.Valid() && !rrp.peers.single
      invariant rrp.peers == old(rrp.peers) || rrp.peers == old(rrp.peers.next)
      invariant |got| + rrp.Remaining() <= old(|rrp.peers.list|) + old(BackupSize(rrp.peers))
      invariant Distinct(got) && forall p :: p in got ==> p in rrp.given
      decreases rrp.Remaining()
    {
      var peer := GetRoundRobinPeer(rrp, unhealthy(asked), clock(asked));
      asked := asked + 1;
      if peer == null {
        return;
      }
      got := got + [peer];
    }
  }

  function Backup(p: Peers): seq<Peer>
  {
    if p.next == null then [] else p.next.list
  }

  lemma NothingMarked(words: seq<Word>, n: nat)
    requires forall w :: 0 <= w < Words(n) ==> w < |words| && words[w] == {}
    ensures Marked(words, n) == {} && forall i: nat :: i < n ==> !Bit(words, i)
    ensures Unmarked(words, n) <= n
  {
    hide Unmarked;
    UnmarkedBound(words, n);
    forall i: nat | i < n ensures !Bit(words, i) {
      assert i / WORD_BITS < Words(n);
    }
  }

  lemma {:induction false} UnmarkedBound(words: seq<Word>, n: nat)
    ensures Unmarked(words, n) <= n
  {
    if n > 0 { UnmarkedBound(words, n - 1); }
  }

  /** The clearing loop covers every word the backup group uses. */
  method FailOver(rrp: PeerData)
    requires rrp.Valid() && rrp.peers.next != null
    modifies rrp`peers, rrp.tried
    ensures rrp.Valid() && rrp.peers == old(rrp.peers.next)
    ensures Marked(rrp.tried[..], |rrp.peers.list|) == {}
    ensures rrp.Remaining() <= old(rrp.Remaining())
  {
    hide Marked, Bit, Unmarked;
    ghost var next := rrp.peers.next;
    rrp.peers := rrp.peers.next;
    var n := Words(|rrp.peers.list|);
    var i := 0;
    while i < n
      invariant 0 <= i <= n <= rrp.tried.Length && rrp.peers == next
      invariant forall w :: 0 <= w < i ==> rrp.tried[w] == {}
    {
      rrp.tried[i] := {};
      i := i + 1;
    }
    NothingMarked(rrp.tried[..], |rrp.peers.list|);
  }
}
