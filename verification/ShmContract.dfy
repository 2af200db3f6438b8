/** What one write does to the recency queue, and to the map with expiry a reader sees. */
module ShmContract {
  import opened Options
  import opened Bytes
  import opened ShmSpec

  /** The most entries of other keys one write can cost: two reclaimed on entry, three in each of
      30 eviction rounds. */
  const MAX_EVICTED := 92

  lemma {:induction false} EvictTakesTail(q: Recency, round: nat, grants: Grants, now: nat)
    requires round <= 30
    ensures var (ok, q') := Evict(q, round, grants, now); q' <= q && |q| - |q'| <= 3 * (30 - round)
    ensures Evict(q, round, grants, now).0 ==> Evict(q, round, grants, now).1 < q
    decreases 30 - round
  {
    if round < 30 && q != [] {
      ExpireTakesTail(q, 0, now);
      if !grants[round + 1] {
        EvictTakesTail(Expire(q, 0, now), round + 1, grants, now);
      }
    }
  }

  /** The other keys after the entry-time reclaim: a prefix of the other keys before it, short of at
      most two entries, all removable. */
  lemma OthersAfterReclaim(q: Recency, key: Bytes, now: nat)
    requires DistinctKeys(q)
    ensures DistinctKeys(Expire(q, 1, now))
    ensures Without(Expire(q, 1, now), key) <= Without(q, key)
    ensures |Without(q, key)| - |Without(Expire(q, 1, now), key)| <= 2
    ensures forall e :: e in Without(q, key) && !Removable(e, now) ==> e in Without(Expire(q, 1, now), key)
  {
    hide Without, DistinctKeys, Expire, HasKey;
    ExpireTakesTail(q, 1, now);
    var q1 := Expire(q, 1, now);
    PrefixDistinct(q, q1);
    WithoutPrefix(q, key, |q1|);
    WithoutKeepsOthers(q, key);
    WithoutKeepsOthers(q1, key);
    forall e | e in q && !Removable(e, now) ensures e in q1 {
      var i :| 0 <= i < |q| && q[i] == e;
      assert q1[i] == e;
    }
  }

  lemma TouchShape(q: Recency, key: Bytes)
    requires DistinctKeys(q)
    ensures Status(q, key, 0) == Absent ==> Touch(q, key) == q == Without(q, key)
    ensures Status(q, key, 0) != Absent ==> Touch(q, key) != [] && Touch(q, key)[0].key == key
                                            && Touch(q, key)[0] in q && Touch(q, key)[1..] == Without(q, key)
  {}

  /** The queue of a write that stored its value, in terms of the other keys' old queue. */
  predicate Stored(others: Recency, rq: Request, now: nat, q': Recency)
  {
    && rq.value.Some? && q' != [] && q'[0] == NewEntry(rq, now)
    && q'[1..] <= others && |others| - |q'[1..]| <= MAX_EVICTED
  }

  /** The queue of a write that only took the key out. */
  predicate Removed(others: Recency, rq: Request, q': Recency)
  {
    rq.valueType == NULL_TYPE && q' <= others && |others| - |q'| <= 2
  }

  /** Where one of the labels `insert`, `remove`, `replace` leaves the queue, the key being apart
      from `others`. */
  predicate Finished(others: Recency, rq: Request, now: nat, r: (bool, Recency))
  {
    if !r.0 then r.1 <= others && (rq.flags.safe ==> r.1 == others)
    else if r.1 != [] && rq.value.Some? && r.1[0] == NewEntry(rq, now) then
      && r.1[1..] <= others && |others| - |r.1[1..]| <= MAX_EVICTED - 2
      && (rq.flags.safe ==> r.1[1..] == others)
    else rq.valueType == NULL_TYPE && r.1 == others
  }

  lemma InsertFinishes(others: Recency, rq: Request, grants: Grants, now: nat)
    requires forall e :: e in others ==> e.key != rq.key
    ensures Finished(others, rq, now, Insert(others, rq, grants, now))
  {
    EvictTakesTail(others, 0, grants, now);
    if rq.value.Some? {
      var n := NewEntry(rq, now);
      assert ([n] + others)[1..] == others;
      var (ok, q') := Evict(others, 0, grants, now);
      assert ([n] + q')[1..] == q';
    }
  }

  lemma ReplaceFinishes(q: Recency, rq: Request, grants: Grants, now: nat)
    requires q != [] && forall e :: e in q[1..] ==> e.key != rq.key
    ensures Finished(q[1..], rq, now, Remove(q, rq, grants, now))
    ensures Finished(q[1..], rq, now, Replace(q, rq, grants, now))
  {
    InsertFinishes(q[1..], rq, grants, now);
    if rq.value.Some? {
      assert ([NewEntry(rq, now)] + q[1..])[1..] == q[1..];
    }
  }

  /** Any write either gives up right after the search, or ends in one of the three labels. */
  lemma SetCases(q: Recency, rq: Request, grants: Grants, now: nat)
    requires DistinctKeys(q) && ValidKey(rq.key)
    ensures var q1 := Expire(q, 1, now);
      || Set(q, rq, grants, now) == (false, Touch(q1, rq.key))
      || Finished(Without(q1, rq.key), rq, now, Set(q, rq, grants, now))
  {
    hide Without, DistinctKeys, Touch, Finished, Insert, Replace, Remove;
    var q1 := Expire(q, 1, now);
    OthersAfterReclaim(q, rq.key, now);
    TouchShape(q1, rq.key);
    WithoutKeepsOthers(q1, rq.key);
    var q2 := Touch(q1, rq.key);
    if Status(q1, rq.key, now) == Absent {
      InsertFinishes(q2, rq, grants, now);
    } else {
      ReplaceFinishes(q2, rq, grants, now);
    }
  }

  /** Exact recency after any write: on success the key followed by a prefix of the old queue minus
      that key (or just the prefix), on failure nothing but old entries. */
  lemma SetOutcome(q: Recency, rq: Request, grants: Grants, now: nat)
    requires DistinctKeys(q)
    ensures var (ok, q') := Set(q, rq, grants, now);
      if ok then Stored(Without(q, rq.key), rq, now, q') || Removed(Without(q, rq.key), rq, q')
      else if !ValidKey(rq.key) then q' == q
      else q' <= Without(q, rq.key)
           || (q' != [] && q'[0] in q && q'[0].key == rq.key && q'[1..] <= Without(q, rq.key))
  {
    if ValidKey(rq.key) {
      SetCases(q, rq, grants, now);
      OthersAfterReclaim(q, rq.key, now);
      ExpireTakesTail(q, 1, now);
      TouchShape(Expire(q, 1, now), rq.key);
    }
  }

  /** `safe` writes never cost another key an entry that has not reached its deadline. */
  lemma SafeKeepsOthers(q: Recency, rq: Request, grants: Grants, now: nat, e: Entry)
    requires DistinctKeys(q) && rq.flags.safe
    requires e in q && e.key != rq.key && !Removable(e, now)
    ensures e in Set(q, rq, grants, now).1
  {
    if ValidKey(rq.key) {
      var q1 := Expire(q, 1, now);
      SetCases(q, rq, grants, now);
      OthersAfterReclaim(q, rq.key, now);
      WithoutKeepsOthers(q, rq.key);
      TouchShape(q1, rq.key);
      assert e in Without(q1, rq.key);
      var q' := Set(q, rq, grants, now).1;
      assert q' == Without(q1, rq.key) || q'[1..] == Without(q1, rq.key);
    }
  }

  /** The entry-time reclaim changes a key's status only at the very millisecond of its deadline. */
  lemma StatusAfterReclaim(q: Recency, key: Bytes, now: nat)
    requires DistinctKeys(q)
    ensures Status(Expire(q, 1, now), key, now) == Live ==> Status(q, key, now) == Live
    ensures Status(q, key, now) == Live && q[IndexOf(q, key)].expires != now
            ==> Status(Expire(q, 1, now), key, now) == Live
  {
    ExpireTakesTail(q, 1, now);
    var q1, i := Expire(q, 1, now), IndexOf(q, key);
    if i < |q1| {
      IndexUnique(q1, i);
      assert q1[i] == q[i];
    } else {
      assert IndexOf(q1, key) == |q1|;
    }
  }

  predicate AtDeadline(q: Recency, key: Bytes, now: nat)
  {
    var i := IndexOf(q, key);
    i < |q| && q[i].expires == now
  }

  /** When the slab has room, the flags decide: `add` needs the key absent or expired, `replace`
      and `delete` need it live, and a plain write always goes through. */
  lemma FlagContract(q: Recency, rq: Request, grants: Grants, now: nat)
    requires DistinctKeys(q) && ValidKey(rq.key) && !AtDeadline(q, rq.key, now)
    requires grants[0] && rq.value.Some?
    ensures Set(q, rq, grants, now).0 <==>
      && (rq.flags.replace || rq.flags.delete ==> Status(q, rq.key, now) == Live)
      && (rq.flags.add && !rq.flags.replace ==> Status(q, rq.key, now) != Live)
  {
    StatusAfterReclaim(q, rq.key, now);
  }

  /** Whatever the slab answers, and also at the deadline: no `replace` or `delete` succeeds on a key
      that is not live, and no `add` on a key whose entry is before its deadline. */
  lemma FlagsNecessary(q: Recency, rq: Request, grants: Grants, now: nat)
    requires DistinctKeys(q) && Set(q, rq, grants, now).0
    ensures rq.flags.replace || rq.flags.delete ==> Status(q, rq.key, now) == Live
    ensures rq.flags.add && !rq.flags.replace && Status(q, rq.key, now) == Live ==> AtDeadline(q, rq.key, now)
  {
    StatusAfterReclaim(q, rq.key, now);
  }

  /** A write asking for removal deletes: with the null type and a null value the key is gone
      exactly when the call reports success. */
  lemma DeleteRemoves(q: Recency, key: Bytes, grants: Grants, now: nat)
    requires DistinctKeys(q) && ValidKey(key) && !AtDeadline(q, key, now)
    ensures var (ok, q') := Set(q, DeleteRequest(key), grants, now);
      && (ok <==> Status(q, key, now) == Live)
      && (ok ==> !HasKey(q', key))
  {
    StatusAfterReclaim(q, key, now);
    OthersAfterReclaim(q, key, now);
    TouchShape(Expire(q, 1, now), key);
    WithoutKeepsOthers(Expire(q, 1, now), key);
  }

  /** A replacement of a different length removes first and allocates second, so when every
      allocation is refused the key is lost although the call reports failure. */
  lemma ReplaceCanLoseKey()
    ensures exists q: Recency, rq: Request, grants: Grants, now: nat ::
      && rq.flags == Flags(false, true, false, false) && DistinctKeys(q)
      && Status(q, rq.key, now) == Live
      && !Set(q, rq, grants, now).0 && !HasKey(Set(q, rq, grants, now).1, rq.key)
  {
    var q: Recency := [Entry([1], [7], 10, 0, 0)];
    var rq := Request([1], Some([7, 7]), 10, 0, 0, Flags(false, true, false, false));
    var grants: Grants := seq(31, _ => false);
    assert IndexOf(q, [1]) == 0;
    assert q[..0] + q[0 + 1..] == [];
    assert Touch(q, [1]) == q;
    var refused := Evict([], 0, grants, 5);
    assert Set(q, rq, grants, 5) == (false, []);
  }

  /** The queue after `r` forced passes. */
  function Forced(q: Recency, r: nat, now: nat): Recency
  {
    if r == 0 then q else Expire(Forced(q, r - 1, now), 0, now)
  }

  lemma {:induction false} ForcedFirst(q: Recency, r: nat, now: nat)
    ensures Forced(q, r + 1, now) == Forced(Expire(q, 0, now), r, now)
  {
    if r > 0 { ForcedFirst(q, r - 1, now); }
  }

  /** In one of the rounds from `round` on there still is something to evict, and the allocation
      tried after evicting it is granted. */
  predicate SomeRound(q: Recency, round: nat, grants: Grants, now: nat)
    requires round <= 30
  {
    exists r: nat :: r < 30 - round && Forced(q, r, now) != [] && grants[round + r + 1]
  }

  /** What the eviction loop decides: it gets memory exactly if some round is granted while the queue is
      not exhausted yet. */
  lemma {:induction false} EvictExactly(q: Recency, round: nat, grants: Grants, now: nat)
    requires round <= 30
    ensures Evict(q, round, grants, now).0 <==> SomeRound(q, round, grants, now)
    decreases 30 - round
  {
    if round < 30 {
      if q == [] {
        forall r: nat ensures Forced(q, r, now) == [] { ForcedNothing(r, now); }
      } else {
        var q' := Expire(q, 0, now);
        EvictExactly(q', round + 1, grants, now);
        if grants[round + 1] {
          assert Forced(q, 0, now) != [] && grants[round + 0 + 1];
        } else {
          LaterRounds(q, round, grants, now);
        }
      }
    }
  }

  lemma {:induction false} ForcedNothing(r: nat, now: nat)
    ensures Forced([], r, now) == []
  {
    if r > 0 { ForcedNothing(r - 1, now); }
  }

  lemma LaterRounds(q: Recency, round: nat, grants: Grants, now: nat)
    requires round < 30 && !grants[round + 1]
    ensures SomeRound(q, round, grants, now) <==> SomeRound(Expire(q, 0, now), round + 1, grants, now)
  {
    hide Forced, Expire;
    var q' := Expire(q, 0, now);
    forall r: nat ensures Forced(q, r + 1, now) == Forced(q', r, now) { ForcedFirst(q, r, now); }
    if SomeRound(q, round, grants, now) {
      var r: nat :| r < 30 - round && Forced(q, r, now) != [] && grants[round + r + 1];
      assert Forced(q, r - 1 + 1, now) == Forced(q', r - 1, now);
    }
    if SomeRound(q', round + 1, grants, now) {
      var r: nat :| r < 30 - (round + 1) && Forced(q', r, now) != [] && grants[round + 1 + r + 1];
      assert Forced(q, r + 1, now) == Forced(q', r, now);
    }
  }

  /** The slab grants neither the first request of a write that has taken `q` down to `others` nor, unless
      the write is `safe`, the request after any of up to 30 evictions. */
  predicate NoRoom(others: Recency, safe: bool, grants: Grants, now: nat)
  {
    !grants[0] && (safe || !SomeRound(others, 0, grants, now))
  }

  /** The whole contract of a write: it succeeds exactly when the flags allow it for what the search
      found and it only takes an entry out, or it has data that fits the node found or gets room. */
  lemma SucceedsExactlyWhen(q: Recency, rq: Request, grants: Grants, now: nat)
    requires DistinctKeys(q) && ValidKey(rq.key)
    ensures var q1 := Expire(q, 1, now); var rc := Status(q1, rq.key, now);
      Set(q, rq, grants, now).0 <==>
        && (rq.flags.replace || rq.flags.delete ==> rc == Live)
        && (rq.flags.add && !rq.flags.replace ==> rc != Live)
        && (|| (rc != Absent && rq.valueType == NULL_TYPE)
            || (rq.value.Some?
                && (|| (rc != Absent && |rq.value.value| == |q1[IndexOf(q1, rq.key)].value|)
                    || !NoRoom(Without(q1, rq.key), rq.flags.safe, grants, now))))
  {
    hide DistinctKeys, Expire, Without, SomeRound;
    OthersAfterReclaim(q, rq.key, now);
    TouchShape(Expire(q, 1, now), rq.key);
    EvictExactly(Without(Expire(q, 1, now), rq.key), 0, grants, now);
  }

  /** Exactly when a write takes the live entry it found without storing its own: it is not an `add`,
      and either it has no data, or the node could not be reused and the slab had no room. */
  lemma LosesKeyExactlyWhen(q: Recency, rq: Request, grants: Grants, now: nat)
    requires DistinctKeys(q) && ValidKey(rq.key) && !AtDeadline(q, rq.key, now)
    requires Status(q, rq.key, now) == Live && rq.valueType != NULL_TYPE
    ensures !HasKey(Set(q, rq, grants, now).1, rq.key) <==>
      && (rq.flags.replace || !rq.flags.add)
      && (rq.value.None? || (|rq.value.value| != |q[IndexOf(q, rq.key)].value|
                             && NoRoom(Without(Expire(q, 1, now), rq.key), rq.flags.safe, grants, now)))
  {
    var q1 := Expire(q, 1, now);
    StatusAfterReclaim(q, rq.key, now);
    OthersAfterReclaim(q, rq.key, now);
    ExpireTakesTail(q, 1, now);
    IndexUnique(q, IndexOf(q1, rq.key));
    TouchShape(q1, rq.key);
    var others, q2 := Without(q1, rq.key), Touch(q1, rq.key);
    WithoutKeepsOthers(q1, rq.key);
    if rq.flags.add && !rq.flags.replace {
      assert q2[0].key == rq.key;
    } else {
      assert Set(q, rq, grants, now) == Replace(q2, rq, grants, now);
      ReplaceKeepsKey(q2, rq, grants, now);
    }
  }

  lemma ReplaceKeepsKey(q: Recency, rq: Request, grants: Grants, now: nat)
    requires q != [] && !HasKey(q[1..], rq.key) && rq.valueType != NULL_TYPE
    ensures HasKey(Replace(q, rq, grants, now).1, rq.key) <==>
      rq.value.Some? && (|rq.value.value| == |q[0].value| || !NoRoom(q[1..], rq.flags.safe, grants, now))
  {
    hide SomeRound;
    var q' := Replace(q, rq, grants, now).1;
    EvictTakesTail(q[1..], 0, grants, now);
    EvictExactly(q[1..], 0, grants, now);
    if rq.value.Some? && (|rq.value.value| == |q[0].value| || !NoRoom(q[1..], rq.flags.safe, grants, now)) {
      assert q'[0].key == rq.key;
    } else {
      assert q' <= q[1..];
    }
  }

  /** What a caller can see to: new data as long as the old never costs a live key its entry, whatever
      the flags and the slab. */
  lemma SameLengthKeeps(q: Recency, rq: Request, grants: Grants, now: nat)
    requires DistinctKeys(q) && ValidKey(rq.key) && !AtDeadline(q, rq.key, now)
    requires Status(q, rq.key, now) == Live && rq.valueType != NULL_TYPE
    requires rq.value.Some? && |rq.value.value| == |q[IndexOf(q, rq.key)].value|
    ensures HasKey(Set(q, rq, grants, now).1, rq.key)
  {
    LosesKeyExactlyWhen(q, rq, grants, now);
  }

  // --- the map with expiry ---

  /** What a reader asking at time `t` would be given for `key`. */
  function Visible(q: Recency, key: Bytes, t: nat): Option<Entry>
  {
    if Status(q, key, t) == Live then Some(q[IndexOf(q, key)]) else None
  }

  lemma VisibleSub(q: Recency, q': Recency, key: Bytes, t: nat)
    requires DistinctKeys(q) && DistinctKeys(q')
    requires forall e :: e in q' && e.key == key ==> e in q
    ensures Visible(q', key, t) == None || Visible(q', key, t) == Visible(q, key, t)
  {}

  lemma PrefixDistinct(q: Recency, p: Recency)
    requires DistinctKeys(q) && p <= q
    ensures DistinctKeys(p)
    ensures forall e :: e in p ==> e in q
  {}

  lemma HeadedDistinct(q': Recency, others: Recency)
    requires DistinctKeys(others) && q' != [] && q'[1..] <= others && !HasKey(others, q'[0].key)
    ensures DistinctKeys(q')
    ensures forall e :: e in q' && e.key != q'[0].key ==> e in others
    ensures forall e :: e in q' ==> e == q'[0] || e in others
  {}

  /** A write never invents an entry, and never duplicates a key. */
  lemma SetKeepsEntries(q: Recency, rq: Request, grants: Grants, now: nat)
    requires DistinctKeys(q)
    ensures var (ok, q') := Set(q, rq, grants, now);
      && DistinctKeys(q')
      && forall e :: e in q' && (!ok || e.key != rq.key) ==> e in q
  {
    hide Set, Without, DistinctKeys, HasKey;
    SetOutcome(q, rq, grants, now);
    var (ok, q') := Set(q, rq, grants, now);
    var others := Without(q, rq.key);
    WithoutKeepsOthers(q, rq.key);
    if q' <= others {
      PrefixDistinct(others, q');
    } else if ok || ValidKey(rq.key) {
      HeadedDistinct(q', others);
    }
  }

  /** Writes refine updates of a map with expiry: a stored value is what every later reader sees up
      to its deadline, a removed key is gone, and any other key (every key, on failure) either keeps
      what it had or is no longer visible. Keys stay distinct. */
  lemma SetRefinesMap(q: Recency, rq: Request, grants: Grants, now: nat, key: Bytes, t: nat)
    requires DistinctKeys(q)
    ensures var (ok, q') := Set(q, rq, grants, now);
      && DistinctKeys(q')
      && (ok && key == rq.key && Stored(Without(q, rq.key), rq, now, q') ==>
            Visible(q', key, t) == if Dead(NewEntry(rq, now), t) then None else Some(NewEntry(rq, now)))
      && (ok && key == rq.key && !Stored(Without(q, rq.key), rq, now, q') ==> Visible(q', key, t) == None)
      && (!ok || key != rq.key ==> Visible(q', key, t) == None || Visible(q', key, t) == Visible(q, key, t))
  {
    SetOutcome(q, rq, grants, now);
    SetKeepsEntries(q, rq, grants, now);
    WithoutKeepsOthers(q, rq.key);
    if !Set(q, rq, grants, now).0 || key != rq.key {
      VisibleSub(q, Set(q, rq, grants, now).1, key, t);
    }
  }
}
