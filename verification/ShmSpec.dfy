/** What the shared-memory dictionary promises, stated on the recency queue alone: the entries
    from the most to the least recently touched. */
module ShmSpec {
  import opened Bytes
  import opened Options
  import opened Words

  datatype Entry = Entry(key: Bytes, value: Bytes, valueType: nat, userFlags: nat, expires: nat)

  type Recency = seq<Entry>

  // --- time ---

  const HALF64: nat := 0x8000_0000_0000_0000

  /** A wall clock in milliseconds, small enough that adding 32 bits stays below 2^63. */
  type Millis = n: nat | n < 0x7fff_ffff_0000_0000

  /** `(int64_t) (expires - now)`: a 64-bit unsigned difference read back as signed. */
  function SignedGap(expires: nat, now: nat): int
  {
    var d := (expires - now) % WORD64;
    if d < HALF64 then d else d - WORD64
  }

  lemma GapIsDifference(expires: nat, now: nat)
    requires expires < HALF64 && now < HALF64
    ensures SignedGap(expires, now) == expires - now
  {
    if expires < now {
      assert (expires - now) % WORD64 == expires - now + WORD64;
    }
  }

  /** The expiry written for `exptime` seconds: the product is taken in 32 bits. */
  function Deadline(exptime: nat, now: nat): nat
  {
    if exptime > 0 then now + (exptime * 1000) % WORD32 else 0
  }

  /** The 32-bit product keeps the requested lifetime exactly up to 4294967 seconds. */
  lemma DeadlineExact(exptime: nat, now: Millis)
    requires exptime > 0
    ensures Deadline(exptime, now) == now + exptime * 1000 <==> exptime <= 4294967
    ensures now <= Deadline(exptime, now) < now + WORD32 < HALF64
  {
    if exptime <= 4294967 {
      assert exptime * 1000 < WORD32;
    }
  }

  lemma DeadlineBound(exptime: nat, now: Millis)
    ensures Deadline(exptime, now) < HALF64
  {}

  /** Lookup treats an entry as gone strictly after its deadline ... */
  predicate Dead(e: Entry, now: nat)
  {
    e.expires != 0 && e.expires < now
  }

  /** ... while the reclaiming paths may take it from the deadline on. */
  predicate Removable(e: Entry, now: nat)
  {
    e.expires != 0 && e.expires <= now
  }

  // --- reclaiming from the old end ---

  /** `ngx_shm_dict_expire` with its counter at `n`: step 0 takes the oldest entry by force,
      steps 1 and 2 only a removable one. */
  function Expire(q: Recency, n: nat, now: nat): Recency
    decreases 3 - n
  {
    if n >= 3 || q == [] || (n != 0 && !Removable(q[|q| - 1], now)) then q
    else Expire(q[..|q| - 1], n + 1, now)
  }

  /** Exactly which entries one reclaiming pass takes: the longest tail allowed by the counter
      whose entries are all removable, not counting the forced one. `kept` is determined by this. */
  lemma {:induction false} ExpireTakesTail(q: Recency, n: nat, now: nat)
    requires n <= 3
    ensures var kept := |Expire(q, n, now)|;
      && kept <= |q| && |q| - kept <= 3 - n
      && Expire(q, n, now) == q[..kept]
      && (forall i :: kept <= i < |q| && !(n == 0 && i == |q| - 1) ==> Removable(q[i], now))
      && (|q| - kept == 3 - n || kept == 0 || (!(n == 0 && kept == |q|) && !Removable(q[kept - 1], now)))
    decreases 3 - n
  {
    if !(n >= 3 || q == [] || (n != 0 && !Removable(q[|q| - 1], now))) {
      ExpireTakesTail(q[..|q| - 1], n + 1, now);
    }
  }

  lemma ExpireStep(q: Recency, n: nat, now: nat)
    requires q != []
    ensures n < 3 && (n == 0 || Removable(q[|q| - 1], now)) ==> Expire(q, n, now) == Expire(q[..|q| - 1], n + 1, now)
    ensures n >= 3 || (n != 0 && !Removable(q[|q| - 1], now)) ==> Expire(q, n, now) == q
  {}

  lemma ExpireEmpty(n: nat, now: nat)
    ensures Expire([], n, now) == []
  {}

  lemma ExpireDone(q: Recency, n: nat, now: nat)
    requires n >= 3
    ensures Expire(q, n, now) == q
  {}

  // --- finding and touching ---

  predicate DistinctKeys(q: Recency)
  {
    forall i, j :: 0 <= i < j < |q| ==> q[i].key != q[j].key
  }

  predicate HasKey(q: Recency, key: Bytes)
  {
    exists i :: 0 <= i < |q| && q[i].key == key
  }

  function IndexOf(q: Recency, key: Bytes): (i: nat)
    ensures i <= |q|
    ensures i < |q| ==> q[i].key == key
    ensures forall j :: 0 <= j < i ==> q[j].key != key
  {
    if q == [] || q[0].key == key then 0 else 1 + IndexOf(q[1..], key)
  }

  function Without(q: Recency, key: Bytes): Recency
  {
    var i := IndexOf(q, key);
    if i < |q| then q[..i] + q[i + 1..] else q
  }

  /** A successful search moves the entry to the young end, expired or not. */
  function Touch(q: Recency, key: Bytes): Recency
  {
    var i := IndexOf(q, key);
    if i < |q| then [q[i]] + Without(q, key) else q
  }

  datatype Found = Live | Expired | Absent

  function Status(q: Recency, key: Bytes, now: nat): Found
  {
    var i := IndexOf(q, key);
    if i == |q| then Absent else if Dead(q[i], now) then Expired else Live
  }

  lemma IndexUnique(q: Recency, i: nat)
    requires DistinctKeys(q) && i < |q|
    ensures IndexOf(q, q[i].key) == i
  {}

  /** Taking a prefix and taking out one key commute. */
  lemma WithoutPrefix(q: Recency, key: Bytes, k: nat)
    requires DistinctKeys(q) && k <= |q|
    ensures Without(q[..k], key) <= Without(q, key)
    ensures |Without(q, key)| - |Without(q[..k], key)| <= |q| - k
  {
    hide DistinctKeys;
    var i := IndexOf(q, key);
    if i < k {
      assert IndexOf(q[..k], key) == i by { PrefixIndex(q, key, k); }
      CutWithin(q, i, k);
    } else {
      assert IndexOf(q[..k], key) == k by { PrefixIndex(q, key, k); }
      if i < |q| { CutBehind(q, i, k); }
    }
  }

  lemma PrefixIndex(q: Recency, key: Bytes, k: nat)
    requires DistinctKeys(q) && k <= |q|
    ensures IndexOf(q[..k], key) == if IndexOf(q, key) < k then IndexOf(q, key) else k
  {
    var i := IndexOf(q, key);
    if i < k { IndexUnique(q[..k], i); }
  }

  lemma CutWithin<T>(q: seq<T>, i: nat, k: nat)
    requires i < k <= |q|
    ensures q[..k][..i] + q[..k][i + 1..] == (q[..i] + q[i + 1..])[..k - 1]
  {}

  lemma CutBehind<T>(q: seq<T>, i: nat, k: nat)
    requires k <= i < |q|
    ensures q[..k] == (q[..i] + q[i + 1..])[..k]
  {}

  lemma WithoutKeepsOthers(q: Recency, key: Bytes)
    requires DistinctKeys(q)
    ensures DistinctKeys(Without(q, key)) && !HasKey(Without(q, key), key)
    ensures forall e :: e in Without(q, key) <==> e in q && e.key != key
  {
    var w, i := Without(q, key), IndexOf(q, key);
    assert forall j :: 0 <= j < |w| ==> w[j] == q[if j < i then j else j + 1];
    forall e | e in q && e.key != key ensures e in w {
      var j :| 0 <= j < |q| && q[j] == e;
      assert e == w[if j < i then j else j - 1];
    }
  }

  lemma AbsentHasNoKey(q: Recency, key: Bytes, now: nat)
    requires Status(q, key, now) == Absent
    ensures Touch(q, key) == q && !HasKey(q, key)
  {}

  lemma TouchHead(q: Recency, key: Bytes, now: nat)
    requires Status(q, key, now) != Absent
    ensures IndexOf(q, key) < |q| && Touch(q, key) != [] && Touch(q, key)[0] == q[IndexOf(q, key)]
    ensures Status(q, key, now) == Live <==> !Dead(q[IndexOf(q, key)], now)
  {}

  lemma WithoutLast(q: Recency)
    requires DistinctKeys(q) && q != []
    ensures Without(q, q[|q| - 1].key) == q[..|q| - 1]
  {}

  // --- writing ---

  const NULL_TYPE: nat := 0

  datatype Flags = Flags(add: bool, replace: bool, safe: bool, delete: bool)

  /** `value` is `None` for a null value pointer and for a value with null data. */
  datatype Request = Request(key: Bytes, value: Option<Bytes>, valueType: nat, exptime: nat,
                             userFlags: nat, flags: Flags)

  predicate ValidKey(key: Bytes)
  {
    0 < |key| <= 65535
  }

  /** What `ngx_shm_dict_delete` asks of the common write. */
  function DeleteRequest(key: Bytes): Request
  {
    Request(key, None, NULL_TYPE, 0, 0, Flags(false, false, false, true))
  }

  function NewEntry(rq: Request, now: nat): Entry
    requires rq.value.Some?
  {
    Entry(rq.key, rq.value.value, rq.valueType, rq.userFlags, Deadline(rq.exptime, now))
  }

  /** The slab's answers to the up to 31 allocation attempts of one write. */
  type Grants = s: seq<bool> | |s| == 31 witness seq(31, _ => false)

  /** Rounds of forced reclaiming until an allocation is granted, 30 at most. */
  function Evict(q: Recency, round: nat, grants: Grants, now: nat): (bool, Recency)
    requires round <= 30
    decreases 30 - round
  {
    if round == 30 || q == [] then (false, q)
    else
      var q' := Expire(q, 0, now);
      if grants[round + 1] then (true, q') else Evict(q', round + 1, grants, now)
  }

  /** Label `insert`: allocate, if need be by eviction, and put the new entry at the young end. */
  function Insert(q: Recency, rq: Request, grants: Grants, now: nat): (bool, Recency)
  {
    if rq.value.None? then (false, q)
    else if grants[0] then (true, [NewEntry(rq, now)] + q)
    else if rq.flags.safe then (false, q)
    else
      var (ok, q') := Evict(q, 0, grants, now);
      (ok, if ok then [NewEntry(rq, now)] + q' else q')
  }

  /** Label `remove`, for an entry at the young end. */
  function Remove(q: Recency, rq: Request, grants: Grants, now: nat): (bool, Recency)
    requires q != []
  {
    if rq.valueType == NULL_TYPE then (true, q[1..]) else Insert(q[1..], rq, grants, now)
  }

  /** Label `replace`: reuse the node of an entry of the same value length, else remove it first. */
  function Replace(q: Recency, rq: Request, grants: Grants, now: nat): (bool, Recency)
    requires q != []
  {
    if rq.value.Some? && |rq.value.value| == |q[0].value| then (true, [NewEntry(rq, now)] + q[1..])
    else Remove(q, rq, grants, now)
  }

  /** What the flags make of the search result `rc`, the entry found being first in `q`. */
  function Act(q: Recency, rc: Found, rq: Request, grants: Grants, now: nat): (bool, Recency)
    requires rc != Absent ==> q != []
  {
    if (rq.flags.delete || rq.flags.replace) && rc != Live then (false, q)
    else if rq.flags.replace then Replace(q, rq, grants, now)
    else if rq.flags.add then
      if rc == Live then (false, q)
      else if rc == Expired then Replace(q, rq, grants, now)
      else Insert(q, rq, grants, now)
    else if rc != Absent then
      if rq.valueType == NULL_TYPE then Remove(q, rq, grants, now) else Replace(q, rq, grants, now)
    else Insert(q, rq, grants, now)
  }

  /** `ngx_shm_dict_set_impl` on the recency queue. */
  function Set(q: Recency, rq: Request, grants: Grants, now: nat): (bool, Recency)
  {
    if !ValidKey(rq.key) then (false, q)
    else
      var q1 := Expire(q, 1, now);
      Act(Touch(q1, rq.key), Status(q1, rq.key, now), rq, grants, now)
  }

  // --- reading and flushing ---

  function Get(q: Recency, key: Bytes, now: nat): (Option<Entry>, Recency)
  {
    if !ValidKey(key) then (None, q)
    else
      var q1 := Expire(q, 1, now);
      (if Status(q1, key, now) == Live then Some(q1[IndexOf(q1, key)]) else None, Touch(q1, key))
  }

  /** Every deadline becomes the first millisecond of 1970. */
  function Outdated(q: Recency): Recency
  {
    seq(|q|, i requires 0 <= i < |q| => q[i].(expires := 1))
  }

  function FlushAll(q: Recency, now: nat): Recency
  {
    Expire(Outdated(q), 0, now)
  }

  /** `ngx_shm_dict_flush_expired`, walking from the old end; the walk ends when the number of
      removals equals `attempts`, so a count that is not positive never ends it. */
  function FlushExpired(q: Recency, attempts: int, now: nat): Recency
  {
    if q == [] then []
    else
      var rest, last := q[..|q| - 1], q[|q| - 1];
      if !Removable(last, now) then FlushExpired(rest, attempts, now) + [last]
      else if attempts == 1 then rest
      else FlushExpired(rest, attempts - 1, now)
  }

  function CountRemovable(q: Recency, now: nat): nat
  {
    if q == [] then 0 else (if Removable(q[0], now) then 1 else 0) + CountRemovable(q[1..], now)
  }

  /** The entries left when the removable ones are taken from the old end, all of them or at most
      `attempts`: an entry goes if it is removable and fewer than `attempts` older ones are. */
  function Survivors(q: Recency, attempts: int, now: nat): Recency
  {
    if q == [] then []
    else if Removable(q[0], now) && (attempts <= 0 || CountRemovable(q[1..], now) < attempts)
    then Survivors(q[1..], attempts, now)
    else [q[0]] + Survivors(q[1..], attempts, now)
  }

  lemma FlushNothing(attempts: int, now: nat)
    ensures FlushExpired([], attempts, now) == []
  {}

  /** What is left in the end when the walk has `i` entries of `q` before it. */
  function Rest(q: Recency, i: nat, attempts: int, now: nat): Recency
    requires i <= |q|
  {
    FlushExpired(q[..i], attempts, now) + q[i..]
  }

  lemma RestEnds(q: Recency, attempts: int, now: nat)
    ensures Rest(q, |q|, attempts, now) == FlushExpired(q, attempts, now)
    ensures Rest(q, 0, attempts, now) == q
  {
    assert q[..|q|] == q;
  }

  lemma RestKeeps(q: Recency, i: nat, attempts: int, now: nat)
    requires 0 < i <= |q| && !Removable(q[i - 1], now)
    ensures Rest(q, i, attempts, now) == Rest(q, i - 1, attempts, now)
  {
    assert q[..i][..i - 1] == q[..i - 1];
  }

  lemma RestDrops(q: Recency, i: nat, attempts: int, now: nat)
    requires 0 < i <= |q| && Removable(q[i - 1], now) && DistinctKeys(q)
    ensures var w := Without(q, q[i - 1].key);
      |w| == |q| - 1 && Rest(q, i, attempts, now) == if attempts == 1 then w else Rest(w, i - 1, attempts - 1, now)
  {
    assert q[..i][..i - 1] == q[..i - 1];
    var w := Without(q, q[i - 1].key);
    assert w == q[..i - 1] + q[i..];
    assert w[..i - 1] == q[..i - 1] && w[i - 1..] == q[i..];
  }

  // --- listing ---

  /** The listing paths count an entry as alive only strictly before its deadline. */
  predicate Listed(e: Entry, includeExpires: bool, now: nat)
  {
    includeExpires || e.expires == 0 || e.expires > now
  }

  function Keys(q: Recency, includeExpires: bool, now: nat): seq<Bytes>
  {
    if q == [] then []
    else
      var last := q[|q| - 1];
      Keys(q[..|q| - 1], includeExpires, now) + if Listed(last, includeExpires, now) then [last.key] else []
  }

  lemma KeysOfNone(includeExpires: bool, now: nat)
    ensures Keys([], includeExpires, now) == []
  {}

  lemma KeysStep(q: Recency, i: nat, includeExpires: bool, now: nat)
    requires i < |q|
    ensures Keys(q[..i + 1], includeExpires, now) ==
      Keys(q[..i], includeExpires, now) + if Listed(q[i], includeExpires, now) then [q[i].key] else []
  {
    assert q[..i + 1][..i] == q[..i];
  }

  lemma {:induction false} KeysGrow(q: Recency, i: nat, includeExpires: bool, now: nat)
    requires i <= |q|
    ensures |Keys(q[..i], includeExpires, now)| <= |Keys(q, includeExpires, now)|
  {
    if i < |q| {
      KeysGrow(q[..|q| - 1], i, includeExpires, now);
      assert q[..|q| - 1][..i] == q[..i];
    } else {
      assert q[..i] == q;
    }
  }

  lemma LastApart(q: Recency)
    requires DistinctKeys(q) && q != []
    ensures var rest, last := q[..|q| - 1], q[|q| - 1];
      && DistinctKeys(rest) && (forall e :: e in rest ==> e.key != last.key)
      && forall e :: e in q <==> e in rest || e == last
  {
    assert q == q[..|q| - 1] + [q[|q| - 1]];
  }

  /** The listing names exactly the stored keys it counts, once each. */
  lemma {:induction false} KeysExact(q: Recency, includeExpires: bool, now: nat, key: Bytes)
    requires DistinctKeys(q)
    ensures key in Keys(q, includeExpires, now) <==>
      exists e :: e in q && e.key == key && Listed(e, includeExpires, now)
    ensures multiset(Keys(q, includeExpires, now))[key] <= 1
  {
    hide DistinctKeys, Listed;
    if q != [] {
      LastApart(q);
      KeysExact(q[..|q| - 1], includeExpires, now, key);
    }
  }

  /** A key without expiries listed is visible to readers; the converse fails only at its deadline. */
  lemma ListedVersusLive(q: Recency, now: nat, key: Bytes)
    requires DistinctKeys(q)
    ensures key in Keys(q, false, now) <==>
      Status(q, key, now) == Live && (q[IndexOf(q, key)].expires != now || now == 0)
  {
    KeysExact(q, false, now, key);
    var i := IndexOf(q, key);
    if i < |q| {
      assert q[i] in q;
      forall e | e in q && e.key == key ensures e == q[i] {
        var j :| 0 <= j < |q| && q[j] == e;
        IndexUnique(q, j);
      }
    } else {
      forall e | e in q ensures e.key != key {
        var j :| 0 <= j < |q| && q[j] == e;
      }
    }
  }

  /** The lifetime `get` reports back: whole seconds, cut to 32 bits. */
  function Remaining(expires: nat, now: nat): nat
    requires expires == 0 || expires >= now
  {
    if expires == 0 then 0 else (expires - now) / 1000 % WORD32
  }

  /** Reading back right after writing returns the requested lifetime exactly up to 4294967 seconds. */
  lemma LifetimeRoundTrip(exptime: nat, now: Millis)
    requires now > 0
    ensures Remaining(Deadline(exptime, now), now) == exptime <==> exptime <= 4294967
  {
    if exptime > 4294967 {
      assert (exptime * 1000) % WORD32 < WORD32;
      assert (exptime * 1000) % WORD32 / 1000 <= 4294967;
    }
  }
}
