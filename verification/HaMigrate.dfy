/** Migrations of generated tables: which increases and decreases the builder accepts, and the read and write
    lists every slot then has. */
module HaMigrate {
  import opened GenTable
  import opened HaBuild
  import opened HaTable
  import opened Options

  /** A generated configuration with a migration written beside some of its items. */
  function Migration(keys: seq<Interval>, ring: seq<(string, string)>, grow: seq<Option<Increase>>,
                     shrink: seq<Option<Decrease>>): (t: seq<Elem>)
    requires |keys| == |ring| == |grow| == |shrink|
    ensures |t| == |keys|
  {
    seq(|keys|, i requires 0 <= i < |keys| => Elem(Some(PairOf(keys[i], ring[i])), grow[i], shrink[i]))
  }

  /** The intervals of the table cover the key space in order, and its masters are known. */
  predicate WellFormed(keys: seq<Interval>, ring: seq<(string, string)>, known: set<string>)
  {
    && |keys| == |ring| >= 2 && Contiguous(keys, 0, SIZE) && NonEmpty(keys)
    && forall i :: 0 <= i < |ring| ==> ring[i].0 in known && ring[i].1 in known
  }

  // --- what a valid migration is ---

  function LowHalf(key: Interval, hosts: (string, string), mid: int, guest: string): Pair
  {
    Pair([key.lo, mid], [hosts.0, guest])
  }

  function HighHalf(key: Interval, hosts: (string, string), mid: int, guest: string): Pair
  {
    Pair([mid, key.hi], [guest, hosts.1])
  }

  /** The interval is cut in two; the old masters stay at their own end, and each half gets a known guest
      that is neither of them. */
  ghost predicate Grows(key: Interval, hosts: (string, string), low: Pair, high: Pair, known: set<string>)
  {
    exists mid, x, y :: low == LowHalf(key, hosts, mid, x) && high == HighHalf(key, hosts, mid, y)
      && key.lo < mid < key.hi && x in known && y in known
      && x != hosts.0 && x != hosts.1 && y != hosts.0 && y != hosts.1
  }

  /** An increase with both halves written down is one of those; any other is passed over. */
  ghost predicate ValidIncrease(key: Interval, hosts: (string, string), increase: Option<Increase>, known: set<string>)
  {
    increase.Some? && increase.value.low.Some? && increase.value.high.Some? ==>
      Grows(key, hosts, increase.value.low.value, increase.value.high.value, known)
  }

  /** A master of the interval makes way for another known host. */
  predicate ValidDecrease(hosts: (string, string), decrease: Option<Decrease>, known: set<string>)
  {
    decrease.Some? ==>
      && decrease.value.remove.Some? && decrease.value.replaceBy.Some?
      && (decrease.value.remove.value == hosts.0 || decrease.value.remove.value == hosts.1)
      && decrease.value.replaceBy.value in known && decrease.value.replaceBy != decrease.value.remove
  }

  // --- one item ---

  /** The item passes its own check and names known hosts. */
  ghost predicate ItemPasses(includeDecrease: bool, e: Elem, known: set<string>)
  {
    Expandable(includeDecrease, e) && forall w :: w in Writes(includeDecrease, e) ==> KnownHosts(w, known)
  }

  lemma IncreaseParts(key: Interval, hosts: (string, string), low: Pair, high: Pair)
    requires key.lo < key.hi
    ensures CheckIncrKey(low, high, PairOf(key, hosts)) && CheckIncrVal(low, high, PairOf(key, hosts)) ==>
      low == LowHalf(key, hosts, low.key[1], low.val[1]) && high == HighHalf(key, hosts, low.key[1], high.val[0])
  {}

  lemma IncreasePasses(key: Interval, hosts: (string, string), increase: Option<Increase>, decrease: Option<Decrease>,
                       known: set<string>)
    requires key.lo < key.hi && hosts.0 in known && hosts.1 in known
    ensures ItemPasses(false, Elem(Some(PairOf(key, hosts)), increase, decrease), known)
      <==> ValidIncrease(key, hosts, increase, known)
  {
    hide KnownHosts;
    var e := Elem(Some(PairOf(key, hosts)), increase, decrease);
    if EnableIncrease(e) {
      var low, high := increase.value.low.value, increase.value.high.value;
      IncreaseParts(key, hosts, low, high);
      if Expandable(false, e) {
        GuestsKnown(key, hosts, low, high, known);
        assert Writes(false, e) == [PlainWrite(low), HighWrite(low, high)];
      }
    } else {
      assert Writes(false, e) == [PlainWrite(e.item.value)];
      MastersKnown(e.item.value, known);
    }
  }

  lemma MastersKnown(item: Pair, known: set<string>)
    requires |item.key| == 2 && |item.val| == 2 && item.val[0] in known && item.val[1] in known
    ensures KnownHosts(PlainWrite(item), known)
  {}

  lemma GuestsKnown(key: Interval, hosts: (string, string), low: Pair, high: Pair, known: set<string>)
    requires hosts.0 in known && hosts.1 in known && |low.key| == 2 && |low.val| == 2 && |high.val| == 2
    requires low == LowHalf(key, hosts, low.key[1], low.val[1]) && high == HighHalf(key, hosts, low.key[1], high.val[0])
    ensures KnownHosts(PlainWrite(low), known) && KnownHosts(HighWrite(low, high), known)
      <==> low.val[1] in known && high.val[0] in known
  {}

  lemma DecreasePasses(key: Interval, hosts: (string, string), increase: Option<Increase>, decrease: Option<Decrease>,
                       known: set<string>)
    requires key.lo < key.hi && hosts.0 in known && hosts.1 in known
    ensures ItemPasses(true, Elem(Some(PairOf(key, hosts)), increase, decrease), known)
      <==> ValidDecrease(hosts, decrease, known)
  {
    var e := Elem(Some(PairOf(key, hosts)), increase, decrease);
    if Expandable(true, e) { assert Writes(true, e)[0] in Writes(true, e); }
  }

  // --- the whole table ---

  lemma {:induction false} ChecksExactly(includeDecrease: bool, keys: seq<Interval>, ring: seq<(string, string)>,
                                         grow: seq<Option<Increase>>, shrink: seq<Option<Decrease>>, n: nat,
                                         known: set<string>)
    requires WellFormed(keys, ring, known) && |keys| == |grow| == |shrink| && n <= |keys|
    ensures var t := Migration(keys, ring, grow, shrink);
      Checked(includeDecrease, t, n, known) <==> forall i :: 0 <= i < n ==> ItemPasses(includeDecrease, t[i], known)
  {
    hide KnownHosts, Writes, CheckBase, Contiguous, NonEmpty;
    if n > 0 {
      ChecksExactly(includeDecrease, keys, ring, grow, shrink, n - 1, known);
      BoundedEnd(keys, 0, SIZE, n - 1);
      KeysMeet(keys, n - 1);
    }
  }

  lemma KeysMeet(keys: seq<Interval>, i: nat)
    requires Contiguous(keys, 0, SIZE) && i < |keys|
    ensures (i == 0 ==> keys[i].lo == 0) && (i > 0 ==> keys[i - 1].hi == keys[i].lo)
      && (i == |keys| - 1 ==> keys[i].hi == SIZE)
  {}

  lemma WritesIncrease(includeDecrease: bool, e: Elem)
    requires Expandable(includeDecrease, e) && e.item.value.key[0] < e.item.value.key[1]
    ensures Increasing(Writes(includeDecrease, e))
  {}

  lemma {:induction false} AllIncrease(includeDecrease: bool, table: seq<Elem>, n: nat, known: set<string>)
    requires n <= |table| && Checked(includeDecrease, table, n, known)
    requires forall i :: 0 <= i < n && Expandable(includeDecrease, table[i]) ==>
      table[i].item.value.key[0] < table[i].item.value.key[1]
    ensures Increasing(AllWrites(includeDecrease, table, n, known))
  {
    hide Writes, Expandable, Checked;
    if n > 0 {
      CheckedItem(includeDecrease, table, n, known);
      AllIncrease(includeDecrease, table, n - 1, known);
      WritesIncrease(includeDecrease, table[n - 1]);
    } else {
      NoItems(includeDecrease, [], known);
    }
  }

  /** A checked table with increasing intervals needs nothing more than its decreases to agree. */
  lemma CheckedAccepted(includeDecrease: bool, keys: seq<Interval>, ring: seq<(string, string)>,
                        grow: seq<Option<Increase>>, shrink: seq<Option<Decrease>>, known: set<string>,
                        slots: seq<Slot>)
    requires WellFormed(keys, ring, known) && |keys| == |grow| == |shrink| && |slots| == SIZE
    ensures var t := Migration(keys, ring, grow, shrink);
      && (Accepted(includeDecrease, t, known, slots) <==>
            Checked(includeDecrease, t, |t|, known)
            && (includeDecrease ==> DecreasesNamed(t) && NoneReplacesRemoved(t)))
      && (Checked(includeDecrease, t, |t|, known) ==>
            var ws := AllWrites(includeDecrease, t, |t|, known);
            Chained(ws, 0, SIZE) && Increasing(ws) && Runs(ApplyAll(slots, ws), SIZE) == Buckets(ws))
  {
    hide Checked, AllWrites, ApplyAll, Reviewed, Runs, Chained, Increasing, NoneReplacesRemoved, Contiguous, NonEmpty,
         Expandable;
    var t := Migration(keys, ring, grow, shrink);
    KeysMeet(keys, |keys| - 1);
    forall i | 0 <= i < |t| ensures t[i].item.value.key[0] < t[i].item.value.key[1] { BoundedEnd(keys, 0, SIZE, i); }
    if Checked(includeDecrease, t, |t|, known) {
      AllIncrease(includeDecrease, t, |t|, known);
      CheckedChains(includeDecrease, t, |t|, known);
      ReviewPasses(includeDecrease, t, known, slots);
      BucketsExact(slots, AllWrites(includeDecrease, t, |t|, known));
      SomeWrites(AllWrites(includeDecrease, t, |t|, known));
    }
  }

  lemma SomeWrites(ws: seq<Write>)
    requires Chained(ws, 0, SIZE)
    ensures ws != []
  {}

  /** A generated table is accepted with increases exactly if each of them is valid, whatever the slots held
      before; decreases written beside its items are passed over. */
  lemma IncreaseAccepted(keys: seq<Interval>, ring: seq<(string, string)>, grow: seq<Option<Increase>>,
                         shrink: seq<Option<Decrease>>, known: set<string>, slots: seq<Slot>)
    requires WellFormed(keys, ring, known) && |keys| == |grow| == |shrink| && |slots| == SIZE
    ensures Accepted(false, Migration(keys, ring, grow, shrink), known, slots) <==>
      forall i :: 0 <= i < |keys| ==> ValidIncrease(keys[i], ring[i], grow[i], known)
  {
    hide Accepted, Checked, Contiguous, NonEmpty, ValidIncrease, ItemPasses;
    var t := Migration(keys, ring, grow, shrink);
    ChecksExactly(false, keys, ring, grow, shrink, |keys|, known);
    CheckedAccepted(false, keys, ring, grow, shrink, known, slots);
    forall i | 0 <= i < |keys|
      ensures ItemPasses(false, t[i], known) <==> ValidIncrease(keys[i], ring[i], grow[i], known)
    {
      BoundedEnd(keys, 0, SIZE, i);
      IncreasePasses(keys[i], ring[i], grow[i], shrink[i], known);
    }
  }

  lemma {:induction false} NamedInSets(table: seq<Elem>, n: nat)
    requires n <= |table| && DecreasesNamed(table)
    ensures forall h :: h in Removed(table, n) <==>
      exists i :: 0 <= i < n && table[i].decrease.Some? && table[i].decrease.value.remove == Some(h)
    ensures forall h :: h in Replacing(table, n) <==>
      exists i :: 0 <= i < n && table[i].decrease.Some? && table[i].decrease.value.replaceBy == Some(h)
  {
    if n > 0 { NamedInSets(table, n - 1); }
  }

  /** A generated table is accepted with decreases exactly if each of them is valid and no host that goes is
      brought in anywhere. */
  lemma DecreaseAccepted(keys: seq<Interval>, ring: seq<(string, string)>, grow: seq<Option<Increase>>,
                         shrink: seq<Option<Decrease>>, known: set<string>, slots: seq<Slot>)
    requires WellFormed(keys, ring, known) && |keys| == |grow| == |shrink| && |slots| == SIZE
    ensures Accepted(true, Migration(keys, ring, grow, shrink), known, slots) <==>
      && (forall i :: 0 <= i < |keys| ==> ValidDecrease(ring[i], shrink[i], known))
      && forall i, j :: 0 <= i < |keys| && 0 <= j < |keys| && shrink[i].Some? && shrink[j].Some? ==>
          shrink[i].value.replaceBy != shrink[j].value.remove
  {
    hide Accepted, Checked, Contiguous, NonEmpty, ItemPasses, Removed, Replacing;
    var t := Migration(keys, ring, grow, shrink);
    ChecksExactly(true, keys, ring, grow, shrink, |keys|, known);
    CheckedAccepted(true, keys, ring, grow, shrink, known, slots);
    forall i | 0 <= i < |keys| ensures ItemPasses(true, t[i], known) <==> ValidDecrease(ring[i], shrink[i], known) {
      BoundedEnd(keys, 0, SIZE, i);
      DecreasePasses(keys[i], ring[i], grow[i], shrink[i], known);
    }
    if DecreasesNamed(t) {
      NamedInSets(t, |t|);
      if NoneReplacesRemoved(t) {
        forall i, j | 0 <= i < |keys| && 0 <= j < |keys| && shrink[i].Some? && shrink[j].Some?
          ensures shrink[i].value.replaceBy != shrink[j].value.remove
        {
          ReplacementStays(t, i, j);
        }
      }
    }
  }

  // --- what the slots then hold ---

  predicate Holds(s: Slot, start: int, end: int, readlist: seq<string>, writelist: seq<string>)
  {
    s.readlist == Some(readlist) && s.writelist == Some(writelist) && s.start == start && s.end == end
  }

  /** Interval `k` of item `i` is what its slots hold. */
  lemma SlotOfItem(includeDecrease: bool, keys: seq<Interval>, ring: seq<(string, string)>,
                   grow: seq<Option<Increase>>, shrink: seq<Option<Decrease>>, known: set<string>,
                   slots: seq<Slot>, i: nat, k: nat, slot: nat)
    requires WellFormed(keys, ring, known) && |keys| == |grow| == |shrink| && |slots| == SIZE
    requires Checked(includeDecrease, Migration(keys, ring, grow, shrink), |keys|, known)
    requires i < |keys| && slot < SIZE && Expandable(includeDecrease, Migration(keys, ring, grow, shrink)[i])
    requires var ws := Writes(includeDecrease, Migration(keys, ring, grow, shrink)[i]);
      k < |ws| && Covers(ws[k], slot)
    ensures var t := Migration(keys, ring, grow, shrink); var w := Writes(includeDecrease, t[i])[k];
      Holds(ApplyAll(slots, AllWrites(includeDecrease, t, |t|, known))[slot], w.start, w.end, w.readlist, w.writelist)
  {
    hide Checked, AllWrites, ApplyAll, Runs, Chained, Increasing, Contiguous, NonEmpty, Accepted, Writes, Expandable,
         Covers;
    var t := Migration(keys, ring, grow, shrink);
    var ws := AllWrites(includeDecrease, t, |t|, known);
    CheckedAccepted(includeDecrease, keys, ring, grow, shrink, known, slots);
    WritesGrow(includeDecrease, t, i + 1, |t|, known);
    CheckedItem(includeDecrease, t, i + 1, known);
    var at := |AllWrites(includeDecrease, t, i, known)| + k;
    assert ws[at] == Writes(includeDecrease, t[i])[k];
    SlotOfInterval(slots, ws, SIZE, at, slot);
  }

  lemma HalvesOf(key: Interval, hosts: (string, string), low: Pair, high: Pair, known: set<string>)
    returns (mid: int, x: string, y: string)
    requires Grows(key, hosts, low, high, known)
    ensures low == LowHalf(key, hosts, mid, x) && high == HighHalf(key, hosts, mid, y) && key.lo < mid < key.hi
    ensures x != hosts.0 && x != hosts.1 && y != hosts.0 && y != hosts.1
  {
    mid, x, y :| low == LowHalf(key, hosts, mid, x) && high == HighHalf(key, hosts, mid, y)
      && key.lo < mid < key.hi && x in known && y in known
      && x != hosts.0 && x != hosts.1 && y != hosts.0 && y != hosts.1;
  }

  lemma HalvesWrite(key: Interval, hosts: (string, string), mid: int, x: string, y: string, e: Elem)
    requires key.lo < mid < key.hi && x != hosts.0 && x != hosts.1 && y != hosts.0 && y != hosts.1
    requires e.item == Some(PairOf(key, hosts))
      && e.increase == Some(Increase(Some(LowHalf(key, hosts, mid, x)), Some(HighHalf(key, hosts, mid, y))))
    ensures Expandable(false, e)
    ensures Writes(false, e) == [Write(key.lo, mid, [hosts.0, x], [hosts.0, x]),
                                 Write(mid, key.hi, [y, hosts.1, x, x], [y, hosts.1])]
  {}

  lemma PlainWrites(key: Interval, hosts: (string, string), e: Elem)
    requires e.item == Some(PairOf(key, hosts)) && !EnableIncrease(e)
    ensures Expandable(false, e) && Writes(false, e) == [Write(key.lo, key.hi, [hosts.0, hosts.1], [hosts.0, hosts.1])]
  {}

  /** After an accepted increase the lower half of a growing interval is read from and written to its old
      first master and its guest; the upper half is written to its guest and the old second master and read
      from these and the lower half's guest. All other intervals keep their two masters. */
  lemma IncreaseServes(keys: seq<Interval>, ring: seq<(string, string)>, grow: seq<Option<Increase>>,
                       shrink: seq<Option<Decrease>>, known: set<string>, slots: seq<Slot>, i: nat, slot: nat)
    requires WellFormed(keys, ring, known) && |keys| == |grow| == |shrink| && |slots| == SIZE
    requires forall i :: 0 <= i < |keys| ==> ValidIncrease(keys[i], ring[i], grow[i], known)
    requires i < |keys| && keys[i].lo <= slot < keys[i].hi && slot < SIZE
    ensures var t := Migration(keys, ring, grow, shrink);
      var key, hosts, inc := keys[i], ring[i], grow[i];
      && Checked(false, t, |t|, known)
      && var s := ApplyAll(slots, AllWrites(false, t, |t|, known))[slot];
      if inc.Some? && inc.value.low.Some? && inc.value.high.Some? then
        exists mid, x, y :: inc == Some(Increase(Some(LowHalf(key, hosts, mid, x)), Some(HighHalf(key, hosts, mid, y))))
          && if slot < mid then Holds(s, key.lo, mid, [hosts.0, x], [hosts.0, x])
             else Holds(s, mid, key.hi, [y, hosts.1, x, x], [y, hosts.1])
      else Holds(s, key.lo, key.hi, [hosts.0, hosts.1], [hosts.0, hosts.1])
  {
    hide Checked, AllWrites, ApplyAll, Accepted, Contiguous, NonEmpty, Writes, Expandable, Grows;
    var t := Migration(keys, ring, grow, shrink);
    IncreaseAccepted(keys, ring, grow, shrink, known, slots);
    CheckedAccepted(false, keys, ring, grow, shrink, known, slots);
    var e, hosts, key := t[i], ring[i], keys[i];
    if EnableIncrease(e) {
      var mid, x, y := HalvesOf(key, hosts, e.increase.value.low.value, e.increase.value.high.value, known);
      HalvesWrite(key, hosts, mid, x, y, e);
      SlotOfItem(false, keys, ring, grow, shrink, known, slots, i, if slot < mid then 0 else 1, slot);
    } else {
      PlainWrites(key, hosts, e);
      SlotOfItem(false, keys, ring, grow, shrink, known, slots, i, 0, slot);
    }
  }

  /** After an accepted decrease an interval is read from and written to the master that stays and the one
      that replaces the other; intervals without a decrease keep their two masters. */
  lemma DecreaseServes(keys: seq<Interval>, ring: seq<(string, string)>, grow: seq<Option<Increase>>,
                       shrink: seq<Option<Decrease>>, known: set<string>, slots: seq<Slot>, i: nat, slot: nat)
    requires WellFormed(keys, ring, known) && |keys| == |grow| == |shrink| && |slots| == SIZE
    requires forall i :: 0 <= i < |keys| ==> ValidDecrease(ring[i], shrink[i], known)
    requires i < |keys| && keys[i].lo <= slot < keys[i].hi && slot < SIZE
    ensures var t := Migration(keys, ring, grow, shrink);
      var hosts := ring[i];
      && Checked(true, t, |t|, known)
      && var s := ApplyAll(slots, AllWrites(true, t, |t|, known))[slot];
      && (shrink[i] == None ==> Holds(s, keys[i].lo, keys[i].hi, [hosts.0, hosts.1], [hosts.0, hosts.1]))
      && forall a, b :: shrink[i] == Some(Decrease(Some(a), Some(b))) ==>
          var left := [if a == hosts.0 then hosts.1 else hosts.0, b]; Holds(s, keys[i].lo, keys[i].hi, left, left)
  {
    hide Checked, AllWrites, ApplyAll, Accepted, Contiguous, NonEmpty, ItemPasses;
    var t := Migration(keys, ring, grow, shrink);
    ChecksExactly(true, keys, ring, grow, shrink, |keys|, known);
    forall i | 0 <= i < |keys| ensures ItemPasses(true, t[i], known) {
      BoundedEnd(keys, 0, SIZE, i);
      DecreasePasses(keys[i], ring[i], grow[i], shrink[i], known);
    }
    var hosts, d := ring[i], shrink[i];
    var left := if d.None? then [hosts.0, hosts.1]
      else [if d.value.remove.value == hosts.0 then hosts.1 else hosts.0, d.value.replaceBy.value];
    assert Writes(true, t[i]) == [Write(keys[i].lo, keys[i].hi, left, left)];
    SlotOfItem(true, keys, ring, grow, shrink, known, slots, i, 0, slot);
  }
}
