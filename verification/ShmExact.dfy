/** Exactly what a write leaves of the other keys, and exactly what a read finds. */
module ShmExact {
  import opened Bytes
  import opened Options
  import opened ShmContract
  import opened ShmSpec
  import opened Words

  // --- what a write leaves ---

  /** The first allocation granted from the `from`-th on; 31 if none is. */
  function FirstGrant(grants: Grants, from: nat): (k: nat)
    requires from <= 31
    ensures from <= k <= 31 && (k < 31 ==> grants[k])
    ensures forall j :: from <= j < k ==> !grants[j]
    decreases 31 - from
  {
    if from == 31 || grants[from] then from else FirstGrant(grants, from + 1)
  }

  /** The queue the eviction loop leaves: one forced pass for every allocation refused and one more for the
      granted one, if there is something left to evict by then; all passes otherwise. */
  lemma {:induction false} EvictLeaves(q: Recency, round: nat, grants: Grants, now: nat)
    requires round <= 30
    ensures var k := FirstGrant(grants, round + 1);
      Evict(q, round, grants, now) ==
        if k <= 30 && Forced(q, k - round - 1, now) != [] then (true, Forced(q, k - round, now))
        else (false, Forced(q, 30 - round, now))
    decreases 30 - round
  {
    hide Expire;
    var k := FirstGrant(grants, round + 1);
    if round < 30 && q == [] {
      ForcedNothing(30 - round, now);
      ForcedNothing(k - round - 1, now);
    } else if round < 30 {
      var q' := Expire(q, 0, now);
      ForcedFirst(q, 29 - round, now);
      if grants[round + 1] {
        assert Forced(q, 0, now) == q && Forced(q, 1, now) == q';
      } else {
        EvictLeaves(q', round + 1, grants, now);
        ForcedFirst(q, k - round - 1, now);
        ForcedFirst(q, k - round - 2, now);
      }
    }
  }

  /** The flags refuse the write for what the search found. */
  predicate Refused(rc: Found, flags: Flags)
  {
    || ((flags.delete || flags.replace) && rc != Live)
    || (flags.add && !flags.replace && rc == Live)
  }

  /** A node was found whose data can be overwritten, and the write is not one that only removes. */
  predicate InPlace(rc: Found, rq: Request, stored: nat)
  {
    rc != Absent && rq.value.Some? && |rq.value.value| == stored
    && (rq.flags.replace || rq.flags.add || rq.valueType != NULL_TYPE)
  }

  /** The entry a write stores, field by field. */
  predicate Holds(e: Entry, rq: Request, now: nat)
  {
    && e.key == rq.key && rq.value == Some(e.value) && e.valueType == rq.valueType && e.userFlags == rq.userFlags
    && e.expires == if rq.exptime == 0 then 0 else now + (rq.exptime * 1000) % 0x1_0000_0000
  }

  /** The new entry in front of `others`. */
  predicate Fronted(q': Recency, others: Recency, rq: Request, now: nat)
  {
    q' != [] && Holds(q'[0], rq, now) && q'[1..] == others
  }

  /** Allocating for a key that is not among `others`. */
  lemma InsertLeaves(others: Recency, rq: Request, grants: Grants, now: nat)
    ensures var k := FirstGrant(grants, 0); var (ok, q') := Insert(others, rq, grants, now);
      if rq.value == None then !ok && q' == others
      else if k == 0 then ok && Fronted(q', others, rq, now)
      else if rq.flags.safe then !ok && q' == others
      else if k <= 30 && Forced(others, k - 1, now) != [] then ok && Fronted(q', Forced(others, k, now), rq, now)
      else !ok && q' == Forced(others, 30, now)
  {
    hide Expire, Evict, Forced;
    EvictLeaves(others, 0, grants, now);
  }

  /** Exactly what a write leaves. Both reclaims on entry and forced evictions take from the old end only;
      a write the flags refuse costs nothing but the reclaim; one that reuses its node, or whose first
      allocation is granted, costs no other key anything more; evictions go on exactly up to the first
      allocation granted. */
  lemma WriteLeaves(q: Recency, rq: Request, grants: Grants, now: nat)
    requires DistinctKeys(q) && ValidKey(rq.key)
    ensures var q1 := Expire(q, 1, now); var rc, i := Status(q1, rq.key, now), IndexOf(q1, rq.key);
      var others := Without(q1, rq.key);
      var k := FirstGrant(grants, 0);
      var (ok, q') := Set(q, rq, grants, now);
      if Refused(rc, rq.flags) then !ok && q' == if i < |q1| then [q1[i]] + others else q1
      else if rc != Absent && InPlace(rc, rq, |q1[i].value|) then ok && Fronted(q', others, rq, now)
      else if rc != Absent && rq.valueType == NULL_TYPE then ok && q' == others
      else if rq.value == None then !ok && q' == others
      else if k == 0 then ok && Fronted(q', others, rq, now)
      else if rq.flags.safe then !ok && q' == others
      else if k <= 30 && Forced(others, k - 1, now) != [] then ok && Fronted(q', Forced(others, k, now), rq, now)
      else !ok && q' == Forced(others, 30, now)
  {
    hide Expire, Without, Insert, DistinctKeys, Forced, FirstGrant;
    var q1 := Expire(q, 1, now);
    var others := Without(q1, rq.key);
    InsertLeaves(others, rq, grants, now);
    WithoutAbsent(q1, rq.key);
    assert rq.value.Some? ==> ([NewEntry(rq, now)] + others)[1..] == others;
  }

  lemma WithoutAbsent(q: Recency, key: Bytes)
    ensures IndexOf(q, key) == |q| ==> Without(q, key) == q
  {}

  /** A live entry with as much data as the new value: its node can be reused. */
  predicate Reusable(q: Recency, rq: Request, now: nat)
  {
    var i := IndexOf(q, rq.key);
    i < |q| && rq.value.Some? && |rq.value.value| == |q[i].value| && (q[i].expires == 0 || q[i].expires > now)
  }

  /** A write that finds a node it can reuse, or has its first allocation granted, costs no other key an
      entry before its deadline. */
  lemma RoomCostsNothing(q: Recency, rq: Request, grants: Grants, now: nat, e: Entry)
    requires DistinctKeys(q) && ValidKey(rq.key)
    requires e in q && e.key != rq.key && (e.expires == 0 || e.expires > now)
    requires grants[0] || Reusable(q, rq, now)
    ensures e in Set(q, rq, grants, now).1
  {
    hide Set, Expire, Without, DistinctKeys, Forced, HasKey;
    var q1 := Expire(q, 1, now);
    OthersAfterReclaim(q, rq.key, now);
    WithoutKeepsOthers(q, rq.key);
    assert e in Without(q1, rq.key);
    WithoutKeepsOthers(q1, rq.key);
    WriteLeaves(q, rq, grants, now);
    FirstGranted(grants);
    if Reusable(q, rq, now) { StaysReusable(q, rq, now); }
    InRest(Set(q, rq, grants, now).1, Without(q1, rq.key), e);
  }

  lemma FirstGranted(grants: Grants)
    ensures grants[0] ==> FirstGrant(grants, 0) == 0
  {}

  lemma InRest(q': Recency, others: Recency, e: Entry)
    requires e in others
    ensures q' != [] && q'[1..] == others ==> e in q'
  {}

  lemma StaysReusable(q: Recency, rq: Request, now: nat)
    requires DistinctKeys(q) && Reusable(q, rq, now)
    ensures var q1 := Expire(q, 1, now); var i := IndexOf(q1, rq.key);
      Status(q1, rq.key, now) == Live && i < |q1| && |q1[i].value| == |rq.value.value|
  {
    ExpireTakesTail(q, 1, now);
    StatusAfterReclaim(q, rq.key, now);
    var q1, i := Expire(q, 1, now), IndexOf(q, rq.key);
    assert i < |q1|;
    IndexUnique(q1, i);
  }

  // --- what a read finds ---

  /** Exactly what a read returns: an entry for its key that the entry-time reclaim leaves and that is not
      past its deadline; and what it costs: the reclaim, and nothing else. */
  lemma ReadExactly(q: Recency, key: Bytes, now: nat, e: Entry)
    requires DistinctKeys(q) && ValidKey(key)
    ensures Get(q, key, now).0 == Some(e) <==>
      e in Expire(q, 1, now) && e.key == key && (e.expires == 0 || now <= e.expires)
    ensures e in Expire(q, 1, now) && e.key == key ==> Get(q, key, now).1 == [e] + Without(Expire(q, 1, now), key)
    ensures !HasKey(Expire(q, 1, now), key) ==> Get(q, key, now).1 == Expire(q, 1, now)
  {
    var q1 := Expire(q, 1, now);
    ExpireTakesTail(q, 1, now);
    PrefixDistinct(q, q1);
    hide Expire;
    var i := IndexOf(q1, key);
    if e in q1 && e.key == key {
      var j :| 0 <= j < |q1| && q1[j] == e;
      IndexUnique(q1, j);
    }
  }

  /** Every stored entry before its deadline is found, and so is one without a deadline. */
  lemma StoredIsFound(q: Recency, now: nat, e: Entry)
    requires DistinctKeys(q) && ValidKey(e.key) && e in q && (e.expires == 0 || now < e.expires)
    ensures Get(q, e.key, now).0 == Some(e)
  {
    ExpireTakesTail(q, 1, now);
    ReadExactly(q, e.key, now, e);
  }

  /** Nothing is found that was not stored, or that is past its deadline. */
  lemma FoundWasStored(q: Recency, key: Bytes, now: nat)
    requires DistinctKeys(q) && Get(q, key, now).0.Some?
    ensures var e := Get(q, key, now).0.value; e in q && e.key == key && (e.expires == 0 || now <= e.expires)
  {
    ExpireTakesTail(q, 1, now);
    if ValidKey(key) { ReadExactly(q, key, now, Get(q, key, now).0.value); }
  }

  /** What the answer to a read of a write's data has to be. */
  predicate Answers(found: Option<Entry>, rq: Request)
  {
    && found.Some? && rq.value == Some(found.value.value)
    && found.value.valueType == rq.valueType && found.value.userFlags == rq.userFlags
  }

  /** Read after write: data stored without a lifetime is read back at any time; data stored for a lifetime
      of up to 4294967 seconds until the lifetime is over, except that in its very last millisecond the read
      itself may reclaim the entry; and never after that. */
  lemma ReadAfterWrite(q: Recency, rq: Request, grants: Grants, now: Millis, t: nat)
    requires DistinctKeys(q) && ValidKey(rq.key) && Set(q, rq, grants, now).0 && rq.value.Some?
      && rq.valueType != NULL_TYPE
    ensures var found := Get(Set(q, rq, grants, now).1, rq.key, t).0;
      && (rq.exptime == 0 ==> Answers(found, rq))
      && (0 < rq.exptime <= 4294967 && t < now + 1000 * rq.exptime ==> Answers(found, rq))
      && (0 < rq.exptime <= 4294967 && t == now + 1000 * rq.exptime ==>
            (Answers(found, rq) <==> HasKey(Expire(Set(q, rq, grants, now).1, 1, t), rq.key)))
      && (0 < rq.exptime <= 4294967 && t > now + 1000 * rq.exptime ==> found == None)
  {
    hide Set, Get, Expire, Without, DistinctKeys;
    var q' := Set(q, rq, grants, now).1;
    SetKeepsEntries(q, rq, grants, now);
    WriteLeaves(q, rq, grants, now);
    var e := q'[0];
    assert Holds(e, rq, now);
    ReadExactly(q', rq.key, t, e);
    if e.expires == 0 || t < e.expires { StoredIsFound(q', t, e); }
    HeadSurvives(q', t);
    var found := Get(q', rq.key, t).0;
    if found.Some? {
      FoundWasStored(q', rq.key, t);
      OneEntry(q', found.value);
    }
  }

  lemma OneEntry(q: Recency, x: Entry)
    requires DistinctKeys(q) && x in q && x.key == q[0].key
    ensures x == q[0]
  {}

  lemma HeadSurvives(q: Recency, t: nat)
    requires q != [] && DistinctKeys(q)
    ensures HasKey(Expire(q, 1, t), q[0].key) <==> q[0] in Expire(q, 1, t)
  {
    ExpireTakesTail(q, 1, t);
  }

  // --- listing and flushing ---

  /** The listing of all keys names every entry, in order. */
  lemma {:induction false} AllListed(q: Recency, now: nat)
    ensures |Keys(q, true, now)| == |q| && forall i :: 0 <= i < |q| ==> Keys(q, true, now)[i] == q[i].key
  {
    if q != [] { AllListed(q[..|q| - 1], now); }
  }

  /** The entries that have no deadline or are before it, in order. */
  function Unexpired(q: Recency, now: nat): Recency
  {
    if q == [] then []
    else
      var last := q[|q| - 1];
      Unexpired(q[..|q| - 1], now) + if last.expires == 0 || last.expires > now then [last] else []
  }

  /** Counting down from a count that is not positive never ends the walk. */
  lemma {:induction false} Unlimited(q: Recency, attempts: int, now: nat)
    requires attempts <= 0
    ensures FlushExpired(q, attempts, now) == Unexpired(q, now)
  {
    if q != [] {
      Unlimited(q[..|q| - 1], attempts, now);
      Unlimited(q[..|q| - 1], attempts - 1, now);
    }
  }

  lemma {:induction false} UnexpiredOnes(q: Recency, now: nat, e: Entry)
    ensures e in Unexpired(q, now) <==> e in q && (e.expires == 0 || e.expires > now)
  {
    if q != [] {
      var rest, last := q[..|q| - 1], q[|q| - 1];
      UnexpiredOnes(rest, now, e);
      assert q == rest + [last];
    }
  }

  lemma KeysSnoc(q: Recency, last: Entry, includeExpires: bool, now: nat)
    ensures Keys(q + [last], includeExpires, now)
      == if includeExpires || last.expires == 0 || last.expires > now then Keys(q, includeExpires, now) + [last.key]
         else Keys(q, includeExpires, now)
  {
    assert (q + [last])[..|q|] == q;
  }

  lemma {:induction false} UnexpiredListed(q: Recency, now: nat)
    ensures Keys(q, false, now) == Keys(Unexpired(q, now), true, now)
  {
    hide Keys;
    if q == [] {
      assert Unexpired(q, now) == q;
      KeysOfNone(false, now);
      KeysOfNone(true, now);
    } else {
      var rest, last := q[..|q| - 1], q[|q| - 1];
      UnexpiredListed(rest, now);
      assert q == rest + [last];
      KeysSnoc(rest, last, false, now);
      KeysSnoc(Unexpired(rest, now), last, true, now);
      assert Unexpired(rest, now) + [] == Unexpired(rest, now);
    }
  }

  /** A full `flush_expired` removes exactly the entries whose deadline has come, and what it leaves is what
      the listing without expired keys names, in the same order; so it returns the difference between the
      two key counts. */
  lemma FlushMatchesListing(q: Recency, now: nat)
    ensures forall e :: e in FlushExpired(q, 0, now) <==> e in q && (e.expires == 0 || e.expires > now)
    ensures Keys(q, false, now) == Keys(FlushExpired(q, 0, now), true, now)
    ensures |q| - |FlushExpired(q, 0, now)| == |Keys(q, true, now)| - |Keys(q, false, now)|
  {
    hide Keys, FlushExpired, Unexpired;
    Unlimited(q, 0, now);
    forall e ensures e in Unexpired(q, now) <==> e in q && (e.expires == 0 || e.expires > now) {
      UnexpiredOnes(q, now, e);
    }
    UnexpiredListed(q, now);
    AllListed(q, now);
    AllListed(FlushExpired(q, 0, now), now);
  }

  /** `flush_all` takes the three oldest entries out, if there are so many, and makes every other one expired. */
  lemma FlushAllExactly(q: Recency, now: nat)
    requires now >= 1
    ensures var n := if |q| <= 3 then 0 else |q| - 3;
      && |FlushAll(q, now)| == n
      && forall i :: 0 <= i < n ==> FlushAll(q, now)[i] == q[i].(expires := 1)
  {
    ExpireTakesTail(Outdated(q), 0, now);
  }
}
