/** The 1024-slot table of the key-value proxy: checking the configured intervals and expanding them,
    with migrations that add or remove hosts, into read and write lists per slot. */
module HaTable {
  import opened Options

  const SIZE := 1024

  datatype Pair = Pair(key: seq<int>, val: seq<string>)

  datatype Increase = Increase(low: Option<Pair>, high: Option<Pair>)

  datatype Decrease = Decrease(remove: Option<string>, replaceBy: Option<string>)

  /** One configured item with its optional migration. */
  datatype Elem = Elem(item: Option<Pair>, increase: Option<Increase>, decrease: Option<Decrease>)

  /** A slot of the table; empty lists of a fresh table are `None`. */
  datatype Slot = Slot(readlist: Option<seq<string>>, writelist: Option<seq<string>>, index: nat, start: int, end: int)

  const EMPTY := Slot(None, None, 0, 0, 0)

  /** What one call of `__set_table_item` records for its whole interval. */
  datatype Write = Write(start: int, end: int, readlist: seq<string>, writelist: seq<string>)

  // --- the checks ---

  predicate EnableIncrease(e: Elem)
  {
    e.increase.Some? && e.increase.value.low.Some? && e.increase.value.high.Some?
  }

  predicate CheckIncrKey(low: Pair, high: Pair, item: Pair)
    requires |item.key| == 2
  {
    && |low.key| == 2 && |high.key| == 2
    && low.key[0] == item.key[0] && high.key[1] == item.key[1] && low.key[1] == high.key[0]
    && low.key[0] < low.key[1] && high.key[0] < high.key[1]
  }

  predicate CheckIncrVal(low: Pair, high: Pair, item: Pair)
    requires |item.val| == 2
  {
    && |low.val| == 2 && |high.val| == 2
    && low.val[0] == item.val[0] && high.val[1] == item.val[1]
    && low.val[1] != item.val[0] && low.val[1] != item.val[1]
    && high.val[0] != item.val[0] && high.val[0] != item.val[1]
  }

  datatype Master = Master1 | Master2 | Unknown

  function RemoveIdx(d: Decrease, item: Pair): Master
    requires |item.val| == 2 && d.remove.Some?
  {
    if d.remove.value == item.val[0] then Master1 else if d.remove.value == item.val[1] then Master2 else Unknown
  }

  predicate CheckDecr(d: Decrease, item: Pair)
    requires |item.val| == 2
  {
    d.remove.Some? && d.replaceBy.Some? && d.remove.value != d.replaceBy.value && RemoveIdx(d, item) != Unknown
  }

  predicate CheckBase(includeDecrease: bool, e: Elem)
    requires e.item.Some? && |e.item.value.key| == 2 && |e.item.value.val| == 2
  {
    if includeDecrease then e.decrease.Some? ==> CheckDecr(e.decrease.value, e.item.value)
    else EnableIncrease(e) ==>
      CheckIncrKey(e.increase.value.low.value, e.increase.value.high.value, e.item.value)
      && CheckIncrVal(e.increase.value.low.value, e.increase.value.high.value, e.item.value)
  }

  /** `hustdb_ha_check_table_item`: note that the end of a middle item is not bounded, and that the end of
      a lone item is not tied to the end of the table. */
  predicate CheckItem(includeDecrease: bool, last: bool, prev: Option<Elem>, e: Elem)
    requires prev.Some? ==> prev.value.item.Some? && |prev.value.item.value.key| == 2
    requires e.item.Some?
  {
    var key := e.item.value.key;
    && |key| == 2 && |e.item.value.val| == 2
    && (match prev
        case None => key[0] == 0 && 1 <= key[1] <= SIZE
        case Some(p) => (last ==> key[1] == SIZE) && p.item.value.key[1] == key[0])
    && CheckBase(includeDecrease, e)
  }

  // --- expansion ---

  function PeerList(hosts: seq<string>, known: set<string>): Option<seq<string>>
  {
    if forall h :: h in hosts ==> h in known then Some(hosts) else None
  }

  function PlainWrite(p: Pair): Write
    requires |p.key| == 2 && |p.val| == 2
  {
    Write(p.key[0], p.key[1], p.val, p.val)
  }

  function HighWrite(low: Pair, high: Pair): Write
    requires |low.val| == 2 && |high.key| == 2 && |high.val| == 2
  {
    Write(high.key[0], high.key[1], [high.val[0], high.val[1], low.val[1], low.val[1]], high.val)
  }

  function DecrWrite(d: Decrease, item: Pair): Write
    requires |item.key| == 2 && |item.val| == 2 && CheckDecr(d, item)
  {
    var hosts := [item.val[if RemoveIdx(d, item) == Master1 then 1 else 0], d.replaceBy.value];
    Write(item.key[0], item.key[1], hosts, hosts)
  }

  /** An item whose shape and migration are right. */
  predicate Expandable(includeDecrease: bool, e: Elem)
  {
    e.item.Some? && |e.item.value.key| == 2 && |e.item.value.val| == 2 && CheckBase(includeDecrease, e)
  }

  /** The intervals one checked item expands to. */
  function Writes(includeDecrease: bool, e: Elem): (ws: seq<Write>)
    requires Expandable(includeDecrease, e)
    ensures ws != []
  {
    if includeDecrease then
      if e.decrease.Some? then [DecrWrite(e.decrease.value, e.item.value)] else [PlainWrite(e.item.value)]
    else if EnableIncrease(e) then
      var low, high := e.increase.value.low.value, e.increase.value.high.value;
      [PlainWrite(low), HighWrite(low, high)]
    else [PlainWrite(e.item.value)]
  }

  predicate KnownHosts(w: Write, known: set<string>)
  {
    (forall h :: h in w.readlist ==> h in known) && (forall h :: h in w.writelist ==> h in known)
  }

  /** A well-formed table prefix: every item passes its check and names known hosts. */
  predicate Checked(includeDecrease: bool, table: seq<Elem>, n: nat, known: set<string>)
    requires n <= |table|
  {
    n == 0 ||
    var e := table[n - 1];
    && Checked(includeDecrease, table, n - 1, known)
    && e.item.Some?
    && (n > 1 ==> table[n - 2].item.Some? && |table[n - 2].item.value.key| == 2)
    && CheckItem(includeDecrease, n == |table|, if n == 1 then None else Some(table[n - 2]), e)
    && forall w :: w in Writes(includeDecrease, e) ==> KnownHosts(w, known)
  }

  function AllWrites(includeDecrease: bool, table: seq<Elem>, n: nat, known: set<string>): seq<Write>
    requires n <= |table| && Checked(includeDecrease, table, n, known)
  {
    if n == 0 then [] else AllWrites(includeDecrease, table, n - 1, known) + Writes(includeDecrease, table[n - 1])
  }

  function Apply(slots: seq<Slot>, w: Write, index: nat): (r: seq<Slot>)
    ensures |r| == |slots|
  {
    seq(|slots|, i requires 0 <= i < |slots| =>
      if w.start <= i < w.end then Slot(Some(w.readlist), Some(w.writelist), index, w.start, w.end) else slots[i])
  }

  function ApplyAll(slots: seq<Slot>, ws: seq<Write>): (r: seq<Slot>)
    ensures |r| == |slots|
  {
    if ws == [] then slots else Apply(ApplyAll(slots, ws[..|ws| - 1]), ws[|ws| - 1], |ws| - 1)
  }

  /** `__review_writelist` on every slot. */
  predicate Reviewed(slots: seq<Slot>)
  {
    forall i :: 0 <= i < |slots| ==>
      slots[i].readlist.Some? && slots[i].writelist.Some? && |slots[i].writelist.value| == 2
  }

  // --- what an accepted table looks like ---

  /** The outer ends of consecutive writes meet. */
  predicate Chained(ws: seq<Write>, lo: int, hi: int)
  {
    if ws == [] then lo == hi else ws[0].start == lo && Chained(ws[1..], ws[0].end, hi)
  }

  lemma {:induction false} ChainedConcat(a: seq<Write>, b: seq<Write>, lo: int, mid: int, hi: int)
    requires Chained(a, lo, mid) && Chained(b, mid, hi)
    ensures Chained(a + b, lo, hi)
  {
    if a == [] {
      assert a + b == b;
    } else {
      assert (a + b)[1..] == a[1..] + b;
      ChainedConcat(a[1..], b, a[0].end, mid, hi);
    }
  }

  /** The checks chain all intervals from slot 0, through the halves of an increase too. */
  lemma {:induction false} CheckedChains(includeDecrease: bool, table: seq<Elem>, n: nat, known: set<string>)
    requires 0 < n <= |table| && Checked(includeDecrease, table, n, known)
    ensures Chained(AllWrites(includeDecrease, table, n, known), 0, table[n - 1].item.value.key[1])
  {
    var e := table[n - 1];
    var ws, key := Writes(includeDecrease, e), e.item.value.key;
    assert Chained(ws, key[0], key[1]);
    if n == 1 {
      assert AllWrites(includeDecrease, table, 0, known) + ws == ws;
    } else {
      CheckedChains(includeDecrease, table, n - 1, known);
      ChainedConcat(AllWrites(includeDecrease, table, n - 1, known), ws, 0, key[0], key[1]);
    }
  }

  predicate Covers(w: Write, slot: int)
  {
    w.start <= slot < w.end
  }

  /** A chain from `lo` to `hi` crosses every slot between, even if it steps backwards on the way. */
  lemma {:induction false} ChainCrosses(ws: seq<Write>, lo: int, hi: int, slot: int)
    requires Chained(ws, lo, hi) && lo <= slot < hi
    ensures exists i :: 0 <= i < |ws| && Covers(ws[i], slot)
  {
    if slot < ws[0].end {
      assert Covers(ws[0], slot);
    } else {
      ChainCrosses(ws[1..], ws[0].end, hi, slot);
      var i :| 0 <= i < |ws[1..]| && Covers(ws[1..][i], slot);
      assert Covers(ws[i + 1], slot);
    }
  }

  predicate FromWrite(s: Slot, w: Write)
  {
    s.readlist == Some(w.readlist) && s.writelist == Some(w.writelist) && s.start == w.start && s.end == w.end
  }

  lemma ApplyLast(slots: seq<Slot>, ws: seq<Write>, slot: nat)
    requires slot < |slots| && ws != []
    ensures var n := |ws| - 1; var s := ApplyAll(slots, ws)[slot];
      if Covers(ws[n], slot) then FromWrite(s, ws[n]) && s.index == n else s == ApplyAll(slots, ws[..n])[slot]
  {}

  lemma {:induction false} Uncovered(slots: seq<Slot>, ws: seq<Write>, slot: nat)
    requires slot < |slots| && forall i :: 0 <= i < |ws| ==> !Covers(ws[i], slot)
    ensures ApplyAll(slots, ws)[slot] == slots[slot]
  {
    if ws != [] { Uncovered(slots, ws[..|ws| - 1], slot); }
  }

  /** A covered slot holds what the last interval covering it wrote, and that interval's number. */
  lemma {:induction false} SlotOrigin(slots: seq<Slot>, ws: seq<Write>, slot: nat)
    requires slot < |slots| && exists i :: 0 <= i < |ws| && Covers(ws[i], slot)
    ensures exists i :: 0 <= i < |ws| && Covers(ws[i], slot) && FromWrite(ApplyAll(slots, ws)[slot], ws[i])
                        && ApplyAll(slots, ws)[slot].index == i && forall j :: i < j < |ws| ==> !Covers(ws[j], slot)
  {
    hide Covers, FromWrite, ApplyAll;
    var n := |ws| - 1;
    ApplyLast(slots, ws, slot);
    if !Covers(ws[n], slot) {
      var i :| 0 <= i < |ws| && Covers(ws[i], slot);
      assert Covers(ws[..n][i], slot);
      SlotOrigin(slots, ws[..n], slot);
      var j :| 0 <= j < n && Covers(ws[..n][j], slot) && FromWrite(ApplyAll(slots, ws[..n])[slot], ws[..n][j])
               && ApplyAll(slots, ws[..n])[slot].index == j
               && forall k :: j < k < n ==> !Covers(ws[..n][k], slot);
      assert forall k :: j < k < n ==> ws[k] == ws[..n][k];
    }
  }

  /** Whatever the order of the intervals: every slot a chain from 0 reaches ends up with the lists of an
      interval that contains it, the last such one. */
  lemma EverySlotServed(slots: seq<Slot>, ws: seq<Write>, hi: nat, slot: nat)
    requires |slots| == SIZE && slot < hi <= SIZE && Chained(ws, 0, hi)
    ensures exists i :: 0 <= i < |ws| && FromWrite(ApplyAll(slots, ws)[slot], ws[i]) && Covers(ws[i], slot)
                        && forall j :: i < j < |ws| ==> !Covers(ws[j], slot)
  {
    ChainCrosses(ws, 0, hi, slot);
    SlotOrigin(slots, ws, slot);
  }

  /** A checked table whose last item ends at the end of the table always passes the review, so the
      review rejects nothing but a lone item that ends early. */
  lemma ReviewPasses(includeDecrease: bool, table: seq<Elem>, known: set<string>, slots: seq<Slot>)
    requires |table| > 0 && Checked(includeDecrease, table, |table|, known) && |slots| == SIZE
    requires table[|table| - 1].item.value.key[1] == SIZE
    ensures Reviewed(ApplyAll(slots, AllWrites(includeDecrease, table, |table|, known)))
  {
    var ws := AllWrites(includeDecrease, table, |table|, known);
    CheckedChains(includeDecrease, table, |table|, known);
    TwoMasters(includeDecrease, table, |table|, known);
    forall i: nat | i < SIZE
      ensures var s := ApplyAll(slots, ws)[i]; s.readlist.Some? && s.writelist.Some? && |s.writelist.value| == 2
    {
      EverySlotServed(slots, ws, SIZE, i);
    }
  }

  /** What one checked item contributes is part of what a longer table writes, in place. */
  lemma {:induction false} WritesGrow(includeDecrease: bool, table: seq<Elem>, m: nat, n: nat, known: set<string>)
    requires m <= n <= |table| && Checked(includeDecrease, table, n, known)
    ensures Checked(includeDecrease, table, m, known)
    ensures AllWrites(includeDecrease, table, m, known) <= AllWrites(includeDecrease, table, n, known)
    decreases n
  {
    if m < n { WritesGrow(includeDecrease, table, m, n - 1, known); }
  }

  lemma CheckedItem(includeDecrease: bool, table: seq<Elem>, n: nat, known: set<string>)
    requires 0 < n <= |table| && Checked(includeDecrease, table, n, known)
    ensures Checked(includeDecrease, table, n - 1, known) && Expandable(includeDecrease, table[n - 1])
    ensures AllWrites(includeDecrease, table, n, known)
         == AllWrites(includeDecrease, table, n - 1, known) + Writes(includeDecrease, table[n - 1])
  {}

  /** The item an interval comes from. */
  lemma {:induction false} ItemOf(includeDecrease: bool, table: seq<Elem>, n: nat, known: set<string>, i: nat)
    returns (k: nat)
    requires n <= |table| && Checked(includeDecrease, table, n, known)
      && i < |AllWrites(includeDecrease, table, n, known)|
    ensures k < n && Checked(includeDecrease, table, k, known) && Checked(includeDecrease, table, k + 1, known)
    ensures |AllWrites(includeDecrease, table, k, known)| <= i < |AllWrites(includeDecrease, table, k + 1, known)|
    ensures Expandable(includeDecrease, table[k])
    ensures AllWrites(includeDecrease, table, n, known)[i] in Writes(includeDecrease, table[k])
  {
    CheckedItem(includeDecrease, table, n, known);
    if i < |AllWrites(includeDecrease, table, n - 1, known)| {
      k := ItemOf(includeDecrease, table, n - 1, known, i);
    } else {
      k := n - 1;
    }
  }

  lemma {:induction false} TwoMasters(includeDecrease: bool, table: seq<Elem>, n: nat, known: set<string>)
    requires n <= |table| && Checked(includeDecrease, table, n, known)
    ensures forall i :: 0 <= i < |AllWrites(includeDecrease, table, n, known)| ==>
      |AllWrites(includeDecrease, table, n, known)[i].writelist| == 2
  {
    if n > 0 { TwoMasters(includeDecrease, table, n - 1, known); }
  }

  // --- migration safety ---

  /** During a migration every interval of an item writes only to hosts it also reads from, and still
      writes to one of the two old masters, so no slot loses its data by switching tables. */
  lemma MigrationSafe(includeDecrease: bool, e: Elem, w: Write)
    requires Expandable(includeDecrease, e)
    requires w in Writes(includeDecrease, e)
    ensures forall h :: h in w.writelist ==> h in w.readlist
    ensures e.item.value.val[0] in w.writelist || e.item.value.val[1] in w.writelist
    ensures |w.writelist| == 2
  {}

  /** Each half of an increase goes on reading from the old master of its own end, and from the other old
      master exactly when both are the same host. */
  lemma HalvesRead(e: Elem, half: nat, master: nat)
    requires Expandable(false, e) && EnableIncrease(e) && half < 2 && master < 2
    ensures var val := e.item.value.val;
      val[master] in Writes(false, e)[half].readlist <==> master == half || val[0] == val[1]
  {}

  /** A decrease takes the removed host off the interval exactly when it was not both masters. */
  lemma RemovedHostGone(e: Elem)
    requires Expandable(true, e) && e.decrease.Some?
    ensures e.decrease.value.remove.value !in Writes(true, e)[0].writelist <==>
      e.item.value.val[0] != e.item.value.val[1]
  {}
}
