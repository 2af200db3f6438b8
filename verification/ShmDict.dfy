/** The shared-memory dictionary itself: one set of slab blocks, threaded both through the search
    tree and through the recency queue. `queue` lists the nodes of the intrusive queue from the
    most recently touched; `shape` is the tree the child pointers currently spell out. */
module ShmDict {
  import opened Options
  import opened Words
  import opened Bytes
  import opened Sequences
  import opened ShmTree
  import opened ShmSpec

  function LittleEndian(b0: nat, b1: nat, b2: nat, b3: nat): nat
  {
    b0 + 0x100 * (b1 + 0x100 * (b2 + 0x100 * b3))
  }

  lemma LowDigit(x: nat, y: nat, p: nat, q: nat)
    requires x < 0x100 && y < 0x100
    ensures x + 0x100 * p == y + 0x100 * q <==> x == y && p == q
  {}

  /** `ngx_shm_dict_crc32`: a key of eight bytes hashes to its first four, little-endian; `crc` stands
      for nginx's checksum of all other keys. */
  function Hash(crc: Bytes -> nat, key: Bytes): nat
  {
    if |key| == 8 then LittleEndian(key[0], key[1], key[2], key[3]) else crc(key)
  }

  /** Eight-byte keys collide exactly when their first four bytes agree, whatever the checksum. */
  lemma EightByteCollision(crc: Bytes -> nat, a: Bytes, b: Bytes)
    requires |a| == |b| == 8
    ensures Hash(crc, a) == Hash(crc, b) <==> a[..4] == b[..4]
  {
    var a2: nat, b2: nat := a[2] as nat + 0x100 * (a[3] as nat), b[2] as nat + 0x100 * (b[3] as nat);
    LowDigit(a[0], b[0], a[1] as nat + 0x100 * a2, b[1] as nat + 0x100 * b2);
    LowDigit(a[1], b[1], a2, b2);
    LowDigit(a[2], b[2], a[3], b[3]);
    assert a[..4] == [a[0], a[1], a[2], a[3]] && b[..4] == [b[0], b[1], b[2], b[3]];
  }

  function View(n: Node): Entry
    reads n
  {
    Entry(n.key, n.value, n.valueType, n.userFlags, n.expires)
  }

  function Members(q: seq<Node>): set<Node>
  {
    set n | n in q
  }

  function Views(q: seq<Node>): (r: Recency)
    reads Members(q)
    ensures |r| == |q|
  {
    if q == [] then [] else
      assert Members(q[1..]) <= Members(q);
      [View(q[0])] + Views(q[1..])
  }

  /** `ngx_queue_remove` followed by `ngx_queue_insert_head`. */
  function ToHead(q: seq<Node>, n: Node): seq<Node>
    requires n in q
  {
    [n] + DropNode(q, n)
  }

  lemma {:induction false} ViewsAt(q: seq<Node>)
    ensures forall i :: 0 <= i < |q| ==> Views(q)[i] == View(q[i])
  {
    if q != [] { ViewsAt(q[1..]); }
  }

  lemma ViewAt(q: seq<Node>, i: nat)
    requires i < |q|
    ensures Views(q)[i] == View(q[i])
  {
    ViewsAt(q);
  }

  lemma {:induction false} ViewsConcat(p: seq<Node>, q: seq<Node>)
    ensures Views(p + q) == Views(p) + Views(q)
  {
    if p == [] {
      assert p + q == q;
    } else {
      assert (p + q)[1..] == p[1..] + q;
      ViewsConcat(p[1..], q);
    }
  }

  lemma ConsDistinct(e: Entry, q: Recency)
    requires DistinctKeys(q) && !HasKey(q, e.key)
    ensures DistinctKeys([e] + q)
  {}

  lemma SplitViews(q: seq<Node>, i: nat)
    requires i < |q|
    ensures Views(q) == Views(q[..i]) + [View(q[i])] + Views(q[i + 1..])
    ensures Views(q[..i] + q[i + 1..]) == Views(q)[..i] + Views(q)[i + 1..]
  {
    assert Views(q[i..]) == [View(q[i])] + Views(q[i + 1..]) by {
      assert q[i..][1..] == q[i + 1..];
    }
    hide Views;
    ViewsConcat(q[..i], q[i..]);
    assert q == q[..i] + q[i..];
    ViewsConcat(q[..i], q[i + 1..]);
  }

  /** Dropping a node from the queue drops its key from the contents. */
  lemma DropIsWithout(q: seq<Node>, n: Node)
    requires n in q && DistinctKeys(Views(q))
    ensures IndexOf(Views(q), n.key) == FirstIndex(q, n) && Views(q)[FirstIndex(q, n)] == View(n)
    ensures Views(DropNode(q, n)) == Without(Views(q), n.key)
  {
    SplitViews(q, FirstIndex(q, n));
    IndexUnique(Views(q), FirstIndex(q, n));
  }

  lemma DropKeepsLinks(q: seq<Node>, n: Node)
    requires n in q && NoDuplicates(q)
    ensures NoDuplicates(DropNode(q, n))
    ensures Members(DropNode(q, n)) == Members(q) - {n} && |DropNode(q, n)| == |q| - 1
  {}

  lemma ToHeadIsTouch(q: seq<Node>, n: Node, now: nat)
    requires n in q && DistinctKeys(Views(q))
    ensures Views(ToHead(q, n)) == Touch(Views(q), n.key)
    ensures Status(Views(q), n.key, now) == if Dead(View(n), now) then Expired else Live
  {
    DropIsWithout(q, n);
    assert ToHead(q, n)[1..] == DropNode(q, n);
  }

  lemma TouchDistinct(q: Recency, key: Bytes)
    requires DistinctKeys(q)
    ensures DistinctKeys(Touch(q, key))
  {
    WithoutKeepsOthers(q, key);
    var i := IndexOf(q, key);
    if i < |q| { ConsDistinct(q[i], Without(q, key)); }
  }

  lemma ToHeadKeepsLinks(q: seq<Node>, n: Node)
    requires n in q && NoDuplicates(q)
    ensures NoDuplicates(ToHead(q, n)) && ToHead(q, n) != [] && ToHead(q, n)[0] == n
    ensures Members(ToHead(q, n)) == Members(q)
  {}

  lemma PushFront(n: Node, q: seq<Node>)
    requires n !in q && NoDuplicates(q) && DistinctKeys(Views(q)) && !HasKey(Views(q), n.key)
    ensures Views([n] + q) == [View(n)] + Views(q)
    ensures NoDuplicates([n] + q) && DistinctKeys(Views([n] + q))
    ensures Members([n] + q) == Members(q) + {n}
  {}

  lemma HeadApart(q: seq<Node>)
    requires q != [] && NoDuplicates(q)
    ensures q[0] !in Members(q[1..]) && Views(q) == [View(q[0])] + Views(q[1..])
    ensures ToHead(q, q[0]) == q
  {}

  lemma SameKeysDistinct(e: Entry, q: Recency)
    requires q != [] && DistinctKeys(q) && e.key == q[0].key
    ensures DistinctKeys([e] + q[1..]) && !HasKey(q[1..], e.key)
    ensures Without(q, e.key) == q[1..]
  {}

  lemma InMembers(q: seq<Node>, n: Node)
    requires n in q
    ensures n in Members(q)
  {}

  lemma MemberInQueue(q: seq<Node>, n: Node)
    requires n in Members(q)
    ensures n in q
  {}

  lemma KeyNotAmong(q: seq<Node>, key: Bytes, now: nat)
    requires forall n :: n in Members(q) ==> n.key != key
    ensures Status(Views(q), key, now) == Absent
    ensures Touch(Views(q), key) == Views(q)
  {
    ViewsAt(q);
    assert forall i :: 0 <= i < |q| ==> q[i] in Members(q);
  }

  lemma OutdatedViews(q: seq<Node>, before: Recency)
    requires |before| == |q| && DistinctKeys(before)
    requires forall i :: 0 <= i < |q| ==> View(q[i]) == before[i].(expires := 1)
    ensures Views(q) == Outdated(before) && DistinctKeys(Views(q))
  {
    ViewsAt(q);
  }

  lemma KeyAbsent(q: seq<Node>, key: Bytes)
    requires !HasKey(Views(q), key)
    ensures forall m :: m in Members(q) ==> m.key != key
  {
    ViewsAt(q);
  }

  class ShmDict {
    const crc: Bytes -> nat
    const tree: SearchTree
    var queue: seq<Node>
    var blocks: set<Node>
    var locked: bool

    /** Tree nodes, queue nodes and allocated blocks are the same set, nothing is linked twice, and no
        key is stored twice. */
    ghost predicate Valid()
      reads this, tree, blocks
    {
      && tree.Members() == blocks == Members(queue)
      && tree.Valid()
      && NoDuplicates(queue)
      && DistinctKeys(Views(queue))
      && forall n :: n in blocks ==> n.hash == Hash(crc, n.key) && n.expires < HALF64
    }

    /** The abstract state: the recency queue as values. */
    function Contents(): Recency
      reads this, Members(queue)
    {
      Views(queue)
    }

    constructor (crc: Bytes -> nat)
      ensures Valid() && Contents() == [] && !locked && blocks == {} && fresh(tree)
    {
      this.crc := crc;
      tree := new SearchTree();
      queue, blocks, locked := [], {}, false;
    }

    // --- the slab ---

    method SlabFree(n: Node)
      requires n in blocks
      modifies this`blocks
      ensures blocks == old(blocks) - {n}
    {
      blocks := blocks - {n};
    }

    /** Queue, tree and slab let go of a node together. */
    method Unlink(n: Node)
      requires Valid() && n in queue
      modifies this`queue, this`blocks, tree
      ensures Valid() && blocks == old(blocks) - {n}
      ensures Contents() == Without(old(Contents()), n.key)
      ensures |queue| == |old(queue)| - 1
    {
      hide Members, NoDuplicates, Ordered, InOrder, Nodes, Wired, DistinctKeys, Views, Without, DropNode;
      InMembers(queue, n);
      DropIsWithout(queue, n);
      DropKeepsLinks(queue, n);
      WithoutKeepsOthers(Contents(), n.key);
      queue := DropNode(queue, n);
      tree.Delete(n);
      SlabFree(n);
    }

    // --- ngx_shm_dict_expire ---

    method ExpireFrom(n0: nat, now: Millis) returns (freed: nat)
      requires Valid()
      modifies this`queue, this`blocks, tree
      ensures Valid() && blocks <= old(blocks)
      ensures Contents() == ShmSpec.Expire(old(Contents()), n0, now)
      ensures freed == |old(queue)| - |queue|
    {
      hide Members, NoDuplicates, Ordered, InOrder, Nodes, Wired, DistinctKeys, ShmSpec.Expire, Views;
      var n: int := n0;
      freed := 0;
      while n < 3
        invariant Valid() && blocks <= old(blocks)
        invariant n >= 0 && ShmSpec.Expire(Contents(), n, now) == ShmSpec.Expire(old(Contents()), n0, now)
        invariant freed == |old(queue)| - |queue|
        decreases 3 - n
      {
        if queue == [] {
          ExpireEmpty(n, now);
          return;
        }
        ExpireStep(Contents(), n, now);
        var taken := TakeLast(n == 0, now);
        n := n + 1;
        if !taken {
          return;
        }
        freed := freed + 1;
      }
      ExpireDone(Contents(), n, now);
    }

    /** One turn of the loop: the oldest node goes if forced, or if its deadline is not ahead. */
    method TakeLast(forced: bool, now: Millis) returns (taken: bool)
      requires Valid() && queue != []
      modifies this`queue, this`blocks, tree
      ensures Valid() && blocks <= old(blocks)
      ensures taken <==> forced || Removable(old(Contents())[|old(Contents())| - 1], now)
      ensures taken ==> Contents() == old(Contents())[..|old(Contents())| - 1] && |queue| == |old(queue)| - 1
      ensures !taken ==> Contents() == old(Contents())
    {
      hide Members, NoDuplicates, Ordered, InOrder, Nodes, Wired, DistinctKeys, Views, Without, SignedGap;
      var sd := queue[|queue| - 1];
      InMembers(queue, sd);
      ViewAt(queue, |queue| - 1);
      if !forced {
        if sd.expires == 0 {
          return false;
        }
        GapIsDifference(sd.expires, now);
        var ms := SignedGap(sd.expires, now);
        if ms > 0 {
          return false;
        }
      }
      WithoutLast(Contents());
      Unlink(sd);
      return true;
    }

    // --- ngx_shm_dict_lookup ---

    /** Finds a key exactly when it is stored and then moves it to the young end of the queue, expired
        or not. */
    method Lookup(hash: nat, key: Bytes, now: Millis) returns (rc: Found, sd: Node?)
      requires Valid() && hash == Hash(crc, key)
      modifies this`queue
      ensures Valid()
      ensures Contents() == Touch(old(Contents()), key)
      ensures rc == Status(old(Contents()), key, now)
      ensures sd == null <==> rc == Absent
      ensures sd != null ==> queue != [] && queue[0] == sd && sd.key == key
    {
      hide Members, NoDuplicates, Ordered, InOrder, Nodes, Wired, DistinctKeys, ToHead, Views, Touch, Status, Hash,
           SignedGap;
      sd := tree.Find(hash, key);
      if sd == null {
        rc := Absent;
        KeyNotAmong(queue, key, now);
        return;
      }
      MemberInQueue(queue, sd);
      ToHeadIsTouch(queue, sd, now);
      ToHeadKeepsLinks(queue, sd);
      TouchDistinct(Contents(), key);
      queue := ToHead(queue, sd);
      rc := Live;
      if sd.expires != 0 {
        GapIsDifference(sd.expires, now);
        var ms := SignedGap(sd.expires, now);
        if ms < 0 {
          rc := Expired;
        }
      }
    }

    /** How both reader and writer begin: lock, reclaim up to two removable entries, search. */
    method Search(key: Bytes, now: Millis) returns (rc: Found, sd: Node?)
      requires Valid() && !locked && ValidKey(key)
      modifies this`queue, this`blocks, this`locked, tree
      ensures Valid() && locked && blocks <= old(blocks)
      ensures Contents() == Touch(ShmSpec.Expire(old(Contents()), 1, now), key)
      ensures rc == Status(ShmSpec.Expire(old(Contents()), 1, now), key, now)
      ensures sd == null <==> rc == Absent
      ensures sd != null ==> sd in blocks && queue != [] && queue[0] == sd && sd.key == key
      ensures sd != null ==> Contents() != [] && Contents()[0] == View(sd)
    {
      hide Members, NoDuplicates, Ordered, InOrder, Nodes, Wired, DistinctKeys, ShmSpec.Expire, Touch, Status;
      locked := true;
      var _ := ExpireFrom(1, now);
      rc, sd := Lookup(Hash(crc, key), key, now);
      if sd != null {
        InMembers(queue, sd);
        ViewAt(queue, 0);
      }
    }

    // --- ngx_shm_dict_set_impl ---

    /** Label `insert`: allocation with up to 30 rounds of forced eviction, then a fresh node at the
        head of the queue. */
    method InsertNew(hash: nat, rq: Request, grants: Grants, now: Millis) returns (ok: bool)
      requires Valid() && hash == Hash(crc, rq.key) && !HasKey(Contents(), rq.key)
      modifies this`queue, this`blocks, tree
      ensures Valid() && fresh(blocks - old(blocks))
      ensures (ok, Contents()) == Insert(old(Contents()), rq, grants, now)
    {
      hide Members, NoDuplicates, Ordered, InOrder, Nodes, Wired, DistinctKeys, Views, ShmSpec.Expire;
      if rq.value.None? {
        return false;
      }
      if !grants[0] {
        if rq.flags.safe {
          return false;
        }
        var i := 0;
        var granted := false;
        while i < 30 && !granted
          invariant 0 <= i <= 30
          invariant Valid() && blocks <= old(blocks) && !HasKey(Contents(), rq.key)
          invariant if granted then Evict(old(Contents()), 0, grants, now) == (true, Contents())
                    else Evict(old(Contents()), 0, grants, now) == Evict(Contents(), i, grants, now)
          decreases 30 - i, !granted
        {
          ExpireTakesTail(Contents(), 0, now);
          var freed := ExpireFrom(0, now);
          if freed == 0 {
            break;
          }
          granted := grants[i + 1];
          i := i + 1;
        }
        if !granted {
          return false;
        }
      }
      InsertNode(hash, rq, now);
      return true;
    }

    /** Label `allocated`. */
    method InsertNode(hash: nat, rq: Request, now: Millis)
      requires Valid() && hash == Hash(crc, rq.key) && !HasKey(Contents(), rq.key) && rq.value.Some?
      modifies this`queue, this`blocks, tree
      ensures Valid() && fresh(blocks - old(blocks))
      ensures Contents() == [NewEntry(rq, now)] + old(Contents())
    {
      hide Members, NoDuplicates, Ordered, InOrder, Nodes, Wired, DistinctKeys, HasKey, Views, Deadline, Hash;
      DeadlineBound(rq.exptime, now);
      KeyAbsent(queue, rq.key);
      var node := new Node(hash, rq.key, rq.value.value, rq.valueType, rq.userFlags, Deadline(rq.exptime, now));
      blocks := blocks + {node};
      tree.Insert(node);
      PushFront(node, queue);
      queue := [node] + queue;
    }

    /** Label `remove`, for the node the search just moved to the head. */
    method RemoveNode(sd: Node, rq: Request, grants: Grants, now: Millis) returns (ok: bool)
      requires Valid() && queue != [] && queue[0] == sd && sd.key == rq.key
      modifies this`queue, this`blocks, tree
      ensures Valid() && fresh(blocks - old(blocks))
      ensures (ok, Contents()) == Remove(old(Contents()), rq, grants, now)
    {
      hide Members, NoDuplicates, Ordered, InOrder, Nodes, Wired, DistinctKeys, HasKey, Without, Insert;
      InMembers(queue, sd);
      ViewAt(queue, 0);
      SameKeysDistinct(View(sd), Contents());
      Unlink(sd);
      if rq.valueType == NULL_TYPE {
        return true;
      }
      ok := InsertNew(sd.hash, rq, grants, now);
    }

    /** Label `replace`: a node with the same value length is overwritten in place. */
    method ReplaceNode(sd: Node, rq: Request, grants: Grants, now: Millis) returns (ok: bool)
      requires Valid() && queue != [] && queue[0] == sd && sd.key == rq.key
      modifies this`queue, this`blocks, tree, sd
      ensures Valid() && fresh(blocks - old(blocks))
      ensures (ok, Contents()) == Replace(old(Contents()), rq, grants, now)
    {
      hide Members, NoDuplicates, Ordered, InOrder, Nodes, Wired, DistinctKeys, HasKey, Without, Remove, Views;
      HeadApart(queue);
      InMembers(queue, sd);
      if rq.value.Some? && |rq.value.value| == |sd.value| {
        DeadlineBound(rq.exptime, now);
        SameKeysDistinct(NewEntry(rq, now), Contents());
        queue := ToHead(queue, sd);
        sd.expires := Deadline(rq.exptime, now);
        sd.userFlags := rq.userFlags;
        sd.valueType := rq.valueType;
        sd.value := rq.value.value;
        HeadApart(queue);
        return true;
      }
      ok := RemoveNode(sd, rq, grants, now);
    }

    /** Everything between the search and the unlock: which label the flags lead to. */
    method Dispatch(rc: Found, sd: Node?, ghost q1: Recency, rq: Request, grants: Grants, now: Millis)
      returns (ok: bool)
      requires Valid() && Contents() == Touch(q1, rq.key) && rc == Status(q1, rq.key, now)
      requires sd == null <==> rc == Absent
      requires sd != null ==> sd in blocks && queue != [] && queue[0] == sd && sd.key == rq.key
      modifies this`queue, this`blocks, tree, blocks
      ensures Valid() && fresh(blocks - old(blocks))
      ensures (ok, Contents()) == Act(Touch(q1, rq.key), rc, rq, grants, now)
    {
      hide Members, NoDuplicates, Ordered, InOrder, Nodes, Wired, DistinctKeys, Views, Touch, Status, Insert, Replace,
           Remove;
      if rq.flags.delete && (rc == Absent || rc == Expired) {
        return false;
      }
      if rq.flags.replace {
        if rc == Absent || rc == Expired {
          return false;
        }
        ok := ReplaceNode(sd, rq, grants, now);
        return;
      }
      if rq.flags.add && rc == Live {
        return false;
      }
      if rq.flags.add && rc == Expired {
        ok := ReplaceNode(sd, rq, grants, now);
        return;
      }
      if rc == Live || rc == Expired {
        if rq.valueType == NULL_TYPE {
          ok := RemoveNode(sd, rq, grants, now);
        } else {
          ok := ReplaceNode(sd, rq, grants, now);
        }
        return;
      }
      AbsentHasNoKey(q1, rq.key, now);
      ok := InsertNew(Hash(crc, rq.key), rq, grants, now);
    }

    /** `ngx_shm_dict_set_impl`: refines the write on the recency queue, for every combination of
        flags and every behaviour of the slab, and always returns with the mutex released. */
    method SetImpl(rq: Request, grants: Grants, now: Millis) returns (ok: bool)
      requires Valid() && !locked
      modifies this`queue, this`blocks, this`locked, tree, blocks
      ensures Valid() && !locked && fresh(blocks - old(blocks))
      ensures (ok, Contents()) == Set(old(Contents()), rq, grants, now)
    {
      hide Members, NoDuplicates, Ordered, InOrder, Nodes, Wired, DistinctKeys, Views, ShmSpec.Expire, Touch, Status,
           Act;
      if |rq.key| == 0 || |rq.key| > 65535 {
        return false;
      }
      ghost var q1 := ShmSpec.Expire(Contents(), 1, now);
      var rc, sd := Search(rq.key, now);
      ok := Dispatch(rc, sd, q1, rq, grants, now);
      locked := false;
    }

    /** `ngx_shm_dict_delete`: a write of the null type with a null value. */
    method Delete(key: Bytes, grants: Grants, now: Millis) returns (ok: bool)
      requires Valid() && !locked
      modifies this`queue, this`blocks, this`locked, tree, blocks
      ensures Valid() && !locked && fresh(blocks - old(blocks))
      ensures (ok, Contents()) == Set(old(Contents()), DeleteRequest(key), grants, now)
    {
      ok := SetImpl(DeleteRequest(key), grants, now);
    }

    // --- ngx_shm_dict_get ---

    method Get(key: Bytes, now: Millis) returns (found: Option<Entry>, exptime: nat)
      requires Valid() && !locked
      modifies this`queue, this`blocks, this`locked, tree
      ensures Valid() && !locked && blocks <= old(blocks)
      ensures (found, Contents()) == ShmSpec.Get(old(Contents()), key, now)
      ensures found.Some? ==> !Dead(found.value, now) && exptime == Remaining(found.value.expires, now)
    {
      hide Members, NoDuplicates, Ordered, InOrder, Nodes, Wired, DistinctKeys, Views, ShmSpec.Expire, Touch, Status;
      found, exptime := None, 0;
      if |key| == 0 || |key| > 65535 {
        return;
      }
      ghost var q1 := ShmSpec.Expire(Contents(), 1, now);
      var rc, sd := Search(key, now);
      if rc == Absent || rc == Expired {
        locked := false;
        return;
      }
      TouchHead(q1, key, now);
      found := Some(View(sd));
      exptime := if sd.expires == 0 then 0 else (sd.expires - now) / 1000 % WORD32;
      locked := false;
    }

    // --- ngx_shm_dict_flush_all, ngx_shm_dict_flush_expired ---

    method FlushAll(now: Millis)
      requires Valid() && !locked
      modifies this`queue, this`blocks, this`locked, tree, blocks
      ensures Valid() && !locked && blocks <= old(blocks)
      ensures Contents() == ShmSpec.FlushAll(old(Contents()), now)
    {
      hide Members, NoDuplicates, Ordered, InOrder, Nodes, Wired, DistinctKeys, Views, ShmSpec.Expire, Outdated;
      locked := true;
      OutdateAll();
      var _ := ExpireFrom(0, now);
      locked := false;
    }

    method OutdateAll()
      requires Valid()
      modifies blocks
      ensures Valid() && Contents() == Outdated(old(Contents()))
    {
      hide Members, NoDuplicates, Ordered, InOrder, Nodes, Wired, DistinctKeys, Views;
      ghost var before := Contents();
      ViewsAt(queue);
      forall n | n in queue ensures n in blocks { InMembers(queue, n); }
      var i := 0;
      while i < |queue|
        invariant 0 <= i <= |queue|
        invariant forall n :: n in blocks ==> View(n) == old(View(n)) || View(n) == old(View(n)).(expires := 1)
        invariant forall k :: 0 <= k < |queue| ==> before[k] == old(View(queue[k])) && queue[k] in blocks
        invariant forall k :: 0 <= k < i ==> queue[k].expires == 1
      {
        InMembers(queue, queue[i]);
        queue[i].expires := 1;
        i := i + 1;
      }
      OutdatedViews(queue, before);
    }

    /** Returns the number of entries removed. On an empty queue the call returns without releasing
        the mutex; on any other queue it releases it. */
    method FlushExpired(attempts: int, now: Millis) returns (freed: nat)
      requires Valid() && !locked
      modifies this`queue, this`blocks, this`locked, tree
      ensures Valid() && blocks <= old(blocks)
      ensures locked <==> old(Contents()) == []
      ensures Contents() == ShmSpec.FlushExpired(old(Contents()), attempts, now)
      ensures freed == |old(Contents())| - |Contents()|
    {
      hide Members, NoDuplicates, Ordered, InOrder, Nodes, Wired, DistinctKeys, Without, ShmSpec.FlushExpired;
      locked := true;
      if queue == [] {
        FlushNothing(attempts, now);
        return 0;
      }
      freed := FlushWalk(attempts, now);
      locked := false;
    }

    /** From the old end to the young end, unlinking every removable node until the count is met. */
    method FlushWalk(attempts: int, now: Millis) returns (freed: nat)
      requires Valid()
      modifies this`queue, this`blocks, tree
      ensures Valid() && blocks <= old(blocks)
      ensures Contents() == ShmSpec.FlushExpired(old(Contents()), attempts, now)
      ensures freed == |old(queue)| - |queue|
    {
      hide Members, NoDuplicates, Ordered, InOrder, Nodes, Wired, DistinctKeys, Views, Without, ShmSpec.FlushExpired,
           Rest;
      freed := 0;
      ghost var q := Contents();
      RestEnds(q, attempts, now);
      var i := |queue|;
      while i > 0
        invariant 0 <= i <= |queue| && Valid() && blocks <= old(blocks)
        invariant freed == |old(queue)| - |queue|
        invariant Rest(Contents(), i, attempts - freed, now) == ShmSpec.FlushExpired(q, attempts, now)
      {
        var sd := queue[i - 1];
        InMembers(queue, sd);
        ViewAt(queue, i - 1);
        if sd.expires != 0 && sd.expires <= now {
          RestDrops(Contents(), i, attempts - freed, now);
          i := i - 1;
          Unlink(sd);
          freed := freed + 1;
          if attempts != 0 && freed == attempts {
            return;
          }
        } else {
          RestKeeps(Contents(), i, attempts - freed, now);
          i := i - 1;
        }
      }
      RestEnds(Contents(), attempts - freed, now);
    }

    // --- ngx_shm_dict_get_total_keys, ngx_shm_dict_get_keys ---

    method GetTotalKeys(includeExpires: bool, now: Millis) returns (total: nat)
      requires Valid() && !locked
      modifies this`locked
      ensures Valid() && !locked && Contents() == old(Contents())
      ensures total == |Keys(Contents(), includeExpires, now)|
    {
      hide Members, NoDuplicates, Ordered, InOrder, Nodes, Wired, DistinctKeys, Keys, Views;
      locked := true;
      total := 0;
      var i := 0;
      KeysOfNone(includeExpires, now);
      ViewsLength(queue);
      while i < |queue|
        invariant 0 <= i <= |queue| && locked
        invariant total == |Keys(Contents()[..i], includeExpires, now)|
      {
        var node := queue[i];
        ViewAt(queue, i);
        KeysStep(Contents(), i, includeExpires, now);
        if includeExpires || node.expires == 0 || node.expires > now {
          total := total + 1;
        }
        i := i + 1;
      }
      assert Contents()[..i] == Contents();
      locked := false;
    }

    /** The array sized by the first traversal is exactly filled by the second, but for the keys the
        pool has no room to copy (`room(j)` is false for the j-th), whose slots stay as they were. */
    method GetKeys(includeExpires: bool, now: Millis, room: nat -> bool) returns (keys: array<Option<Bytes>>)
      requires Valid() && !locked
      modifies this`locked
      ensures Valid() && !locked && Contents() == old(Contents())
      ensures fresh(keys) && keys[..] == Copied(Keys(Contents(), includeExpires, now), room)
    {
      hide Members, NoDuplicates, Ordered, InOrder, Nodes, Wired, DistinctKeys, Keys, Views, Copied;
      KeysOfNone(includeExpires, now);
      CopiedNone(room);
      var total := GetTotalKeys(includeExpires, now);
      keys := new Option<Bytes>[total](_ => None);
      locked := true;
      var size := 0;
      var i := 0;
      ghost var q := Contents();
      ViewsLength(queue);
      while i < |queue|
        invariant 0 <= i <= |queue| && locked && size <= total && size == |Keys(q[..i], includeExpires, now)|
        invariant keys[..size] == Copied(Keys(q[..i], includeExpires, now), room)
        invariant forall j :: size <= j < total ==> keys[j] == None
      {
        size := ListKey(queue[i], i, q, includeExpires, now, room, keys, size);
        i := i + 1;
      }
      assert q[..i] == q;
      locked := false;
    }

    /** One turn of the second traversal. */
    method ListKey(node: Node, i: nat, ghost q: Recency, includeExpires: bool, now: Millis, room: nat -> bool,
                   keys: array<Option<Bytes>>, size: nat) returns (next: nat)
      requires Contents() == q && i < |queue| && queue[i] == node && i < |q|
      requires size <= keys.Length == |Keys(q, includeExpires, now)| && size == |Keys(q[..i], includeExpires, now)|
      requires keys[..size] == Copied(Keys(q[..i], includeExpires, now), room)
      requires forall j :: size <= j < keys.Length ==> keys[j] == None
      modifies keys
      ensures next == |Keys(q[..i + 1], includeExpires, now)| <= keys.Length
      ensures keys[..next] == Copied(Keys(q[..i + 1], includeExpires, now), room)
      ensures forall j :: next <= j < keys.Length ==> keys[j] == None
    {
      hide Keys, Views, Copied;
      ViewAt(queue, i);
      KeysStep(q, i, includeExpires, now);
      KeysGrow(q, i + 1, includeExpires, now);
      next := size;
      assert Keys(q[..i], includeExpires, now) + [] == Keys(q[..i], includeExpires, now);
      if includeExpires || node.expires == 0 || node.expires > now {
        CopiedSnoc(Keys(q[..i], includeExpires, now), node.key, room);
        assert Listed(q[i], includeExpires, now);
        ghost var done := keys[..size];
        if room(size) {
          keys[size] := Some(node.key);
        }
        next := size + 1;
        assert keys[..next] == done + [keys[size]];
      }
    }
  }

  lemma ViewsLength(q: seq<Node>)
    ensures |Views(q)| == |q|
  {}

  /** The keys listed, each present if there was room to copy it. */
  function Copied(keys: seq<Bytes>, room: nat -> bool): seq<Option<Bytes>>
  {
    seq(|keys|, j requires 0 <= j < |keys| => if room(j) then Some(keys[j]) else None)
  }

  lemma CopiedNone(room: nat -> bool)
    ensures Copied([], room) == []
  {}

  lemma CopiedSnoc(keys: seq<Bytes>, key: Bytes, room: nat -> bool)
    ensures Copied(keys + [key], room) == Copied(keys, room) + [if room(|keys|) then Some(key) else None]
  {}
}
