/** Building the slot table and the bucket table from a configuration. */
module HaBuild {
  import opened Options
  import opened HaTable
  import GenTable

  datatype Bucket = Bucket(start: int, end: int, readlist: seq<string>, writelist: seq<string>)

  // --- the bucket table ---

  function BucketOf(s: Slot): Bucket
  {
    Bucket(s.start, s.end, if s.readlist.Some? then s.readlist.value else [],
           if s.writelist.Some? then s.writelist.value else [])
  }

  predicate SameBounds(s: Slot, b: Bucket)
  {
    s.start == b.start && s.end == b.end
  }

  /** One bucket per run of slots with the same bounds. */
  function Runs(slots: seq<Slot>, n: nat): (r: seq<Bucket>)
    requires n <= |slots|
    ensures n > 0 ==> 0 < |r| <= n
    ensures n == 0 ==> r == []
  {
    if n == 0 then []
    else
      var r := Runs(slots, n - 1);
      if r != [] && SameBounds(slots[n - 1], r[|r| - 1]) then r else r + [BucketOf(slots[n - 1])]
  }

  lemma RunsStep(slots: seq<Slot>, n: nat)
    requires 0 < n <= |slots|
    ensures var r := Runs(slots, n - 1);
      Runs(slots, n) == if r != [] && SameBounds(slots[n - 1], r[|r| - 1]) then r else r + [BucketOf(slots[n - 1])]
  {}

  lemma {:induction false} RunsGrow(slots: seq<Slot>, m: nat, n: nat)
    requires m <= n <= |slots|
    ensures Runs(slots, m) <= Runs(slots, n)
    decreases n
  {
    if m < n { RunsGrow(slots, m, n - 1); }
  }

  /** `__build_bucket_table`: fails exactly when there are more runs than intervals written. */
  method BuildBucketTable(slots: array<Slot>, size: nat) returns (ok: bool, arr: array<Bucket>, used: nat)
    requires slots.Length == SIZE
    ensures ok <==> 1 <= size && |Runs(slots[..], SIZE)| <= size
    ensures ok ==> used <= arr.Length && arr[..used] == Runs(slots[..], SIZE)
    ensures fresh(arr)
  {
    hide Runs, BucketOf;
    arr := new Bucket[size](_ => Bucket(0, 0, [], []));
    used := 0;
    if size < 1 {
      return false, arr, 0;
    }
    ghost var s := slots[..];
    var i := 0;
    while i < SIZE
      invariant 0 <= i <= SIZE && slots[..] == s
      invariant used <= size && arr[..used] == Runs(s, i)
    {
      RunsStep(s, i + 1);
      if i > 0 && SameBounds(slots[i], arr[used - 1]) {
        i := i + 1;
        continue;
      }
      if used >= size {
        RunsGrow(s, i + 1, SIZE);
        return false, arr, used;
      }
      ghost var before := arr[..used];
      arr[used] := BucketOf(slots[i]);
      used := used + 1;
      assert arr[..used] == before + [BucketOf(slots[i])];
      i := i + 1;
    }
    ok := true;
  }

  function Buckets(ws: seq<Write>): (r: seq<Bucket>)
    ensures |r| == |ws|
  {
    seq(|ws|, i requires 0 <= i < |ws| => Bucket(ws[i].start, ws[i].end, ws[i].readlist, ws[i].writelist))
  }

  predicate Increasing(ws: seq<Write>)
  {
    forall i :: 0 <= i < |ws| ==> ws[i].start < ws[i].end
  }

  lemma {:induction false} ChainedAt(ws: seq<Write>, lo: int, hi: int, i: nat, j: nat)
    requires Chained(ws, lo, hi) && Increasing(ws) && i <= j < |ws|
    ensures lo <= ws[i].start && (i == 0 ==> ws[0].start == lo) && (j == |ws| - 1 ==> ws[j].end == hi)
    ensures i < j ==> ws[i].end <= ws[j].start && (j == i + 1 ==> ws[i].end == ws[j].start)
    decreases ws
  {
    if i > 0 {
      ChainedAt(ws[1..], ws[0].end, hi, i - 1, j - 1);
    } else if j > 0 {
      ChainedAt(ws[1..], ws[0].end, hi, j - 1, j - 1);
    } else if |ws| == 1 {
      assert Chained(ws[1..], ws[0].end, hi);
    }
  }

  /** With increasing intervals a slot holds exactly the interval it lies in. */
  lemma SlotOfInterval(slots: seq<Slot>, ws: seq<Write>, hi: nat, i: nat, slot: nat)
    requires |slots| == SIZE && slot < SIZE && Chained(ws, 0, hi) && Increasing(ws)
    requires i < |ws| && Covers(ws[i], slot)
    ensures FromWrite(ApplyAll(slots, ws)[slot], ws[i])
  {
    SlotOrigin(slots, ws, slot);
    var k :| 0 <= k < |ws| && Covers(ws[k], slot) && FromWrite(ApplyAll(slots, ws)[slot], ws[k]);
    if k < i { ChainedAt(ws, 0, hi, k, i); }
    if i < k { ChainedAt(ws, 0, hi, i, k); }
  }

  lemma RunsStart(slots: seq<Slot>)
    ensures Runs(slots, 0) == []
  {}

  lemma {:induction false} RunsOfIntervals(slots: seq<Slot>, ws: seq<Write>, hi: nat, i: nat, n: nat)
    requires |slots| == SIZE && 0 < n <= hi <= SIZE && Chained(ws, 0, hi) && Increasing(ws)
    requires i < |ws| && Covers(ws[i], n - 1)
    ensures Runs(ApplyAll(slots, ws), n) == Buckets(ws)[..i + 1]
    decreases n
  {
    hide Runs, ApplyAll, Chained;
    var s := ApplyAll(slots, ws);
    SlotOfInterval(slots, ws, hi, i, n - 1);
    ChainedAt(ws, 0, hi, i, i);
    RunsStep(s, n);
    if ws[i].start < n - 1 {
      RunsOfIntervals(slots, ws, hi, i, n - 1);
    } else {
      assert Buckets(ws)[..i + 1] == Buckets(ws)[..i] + [Buckets(ws)[i]];
      if i > 0 {
        ChainedAt(ws, 0, hi, i - 1, i);
        RunsOfIntervals(slots, ws, hi, i - 1, n - 1);
      } else {
        RunsStart(s);
      }
    }
  }

  /** With strictly increasing intervals the buckets of the slots they reach are exactly the intervals
      written, in order. */
  lemma ReachedExact(slots: seq<Slot>, ws: seq<Write>, hi: nat)
    requires |slots| == SIZE && 0 < hi <= SIZE && Chained(ws, 0, hi) && Increasing(ws)
    ensures Runs(ApplyAll(slots, ws), hi) == Buckets(ws)
  {
    ChainCrosses(ws, 0, hi, hi - 1);
    var n := |ws| - 1;
    ChainedAt(ws, 0, hi, n, n);
    RunsOfIntervals(slots, ws, hi, n, hi);
  }

  /** With strictly increasing intervals the bucket table is exactly the list of intervals written, in
      order, so it never outgrows the space reserved for it. */
  lemma BucketsExact(slots: seq<Slot>, ws: seq<Write>)
    requires |slots| == SIZE && Chained(ws, 0, SIZE) && Increasing(ws)
    ensures Runs(ApplyAll(slots, ws), SIZE) == Buckets(ws)
  {
    ReachedExact(slots, ws, SIZE);
  }

  /** A slot beyond the intervals keeps what it held. */
  lemma BeyondChain(slots: seq<Slot>, ws: seq<Write>, hi: nat, slot: nat)
    requires |slots| == SIZE && hi <= slot < SIZE && Chained(ws, 0, hi) && Increasing(ws)
    ensures ApplyAll(slots, ws)[slot] == slots[slot]
  {
    forall i: nat | i < |ws| ensures !Covers(ws[i], slot) {
      ChainedAt(ws, 0, hi, i, |ws| - 1);
    }
    Uncovered(slots, ws, slot);
  }

  /** The slots from `lo` to `n` are in the last bucket of `ws`. */
  predicate InLastBucket(slots: seq<Slot>, ws: seq<Write>, lo: nat, n: nat)
    requires ws != [] && n <= |slots|
  {
    forall slot: nat :: lo <= slot < n ==> SameBounds(slots[slot], Buckets(ws)[|ws| - 1])
  }

  /** Slots beyond the intervals fit the space of the bucket table only if they join its last bucket. */
  lemma {:induction false} RunsBeyond(slots: seq<Slot>, ws: seq<Write>, hi: nat, n: nat)
    requires |slots| == SIZE && 0 < hi <= n <= SIZE && Chained(ws, 0, hi) && Increasing(ws) && ws != []
    ensures InLastBucket(slots, ws, hi, n) ==> Runs(ApplyAll(slots, ws), n) == Buckets(ws)
    ensures !InLastBucket(slots, ws, hi, n) ==> |Runs(ApplyAll(slots, ws), n)| > |ws|
  {
    hide Runs, ApplyAll, Chained, SameBounds, BucketOf;
    if n == hi {
      ReachedExact(slots, ws, hi);
    } else {
      RunsBeyond(slots, ws, hi, n - 1);
      RunsStep(ApplyAll(slots, ws), n);
      BeyondChain(slots, ws, hi, n - 1);
    }
  }

  // --- the table ---

  /** `__set_table_item`. The loop bound is not checked by the code, hence the precondition. */
  method SetTableItem(slots: array<Slot>, w: Write, index: nat) returns (next: nat)
    requires slots.Length == SIZE && 0 <= w.start && w.end <= SIZE
    modifies slots
    ensures slots[..] == Apply(old(slots[..]), w, index)
    ensures next == index + 1
  {
    var i := w.start;
    while i < w.end
      invariant w.start <= i && (i <= w.end || i == w.start)
      invariant forall k :: w.start <= k < i ==>
        slots[k] == Slot(Some(w.readlist), Some(w.writelist), index, w.start, w.end)
      invariant forall k :: 0 <= k < SIZE && !(w.start <= k < i) ==> slots[k] == old(slots[k])
    {
      slots[i] := Slot(Some(w.readlist), Some(w.writelist), index, w.start, w.end);
      i := i + 1;
    }
    next := index + 1;
  }

  /** Everything an item may write, checked or not, stays inside the table. */
  predicate InBounds(p: Pair)
  {
    |p.key| == 2 ==> 0 <= p.key[0] && p.key[1] <= SIZE
  }

  predicate ElemInBounds(e: Elem)
  {
    && (e.item.Some? ==> InBounds(e.item.value))
    && (EnableIncrease(e) ==> InBounds(e.increase.value.low.value) && InBounds(e.increase.value.high.value))
  }

  lemma ApplySnoc(slots: seq<Slot>, ws: seq<Write>, w: Write)
    ensures ApplyAll(slots, ws + [w]) == Apply(ApplyAll(slots, ws), w, |ws|)
  {}

  /** Resolve the hosts of both lists, then record the interval; succeeds exactly for known hosts. */
  method Append(w: Write, known: set<string>, slots: array<Slot>, index: nat, ghost start: seq<Slot>,
                ghost done: seq<Write>)
    returns (ok: bool, next: nat)
    requires slots.Length == SIZE && 0 <= w.start && w.end <= SIZE
    requires index == |done| && slots[..] == ApplyAll(start, done)
    modifies slots
    ensures ok <==> KnownHosts(w, known)
    ensures ok ==> next == |done| + 1 && slots[..] == ApplyAll(start, done + [w])
    ensures !ok ==> slots[..] == old(slots[..])
  {
    next := index;
    var writelist := PeerList(w.writelist, known);
    if writelist == None {
      return false, next;
    }
    var readlist := PeerList(w.readlist, known);
    if readlist == None {
      return false, next;
    }
    ApplySnoc(start, done, w);
    next := SetTableItem(slots, w, index);
    ok := true;
  }

  /** `__build_table_item`: succeeds exactly when all hosts of the item's intervals are known. */
  method BuildTableItem(includeDecrease: bool, e: Elem, known: set<string>, slots: array<Slot>, index: nat,
                        ghost start: seq<Slot>, ghost done: seq<Write>) returns (ok: bool, next: nat)
    requires Expandable(includeDecrease, e)
    requires ElemInBounds(e) && slots.Length == SIZE && index == |done| && slots[..] == ApplyAll(start, done)
    modifies slots
    ensures ok <==> forall w :: w in Writes(includeDecrease, e) ==> KnownHosts(w, known)
    ensures ok ==> next == |done + Writes(includeDecrease, e)|
                   && slots[..] == ApplyAll(start, done + Writes(includeDecrease, e))
  {
    hide KnownHosts, ApplyAll;
    if includeDecrease {
      if e.decrease.Some? {
        ok, next := Append(DecrWrite(e.decrease.value, e.item.value), known, slots, index, start, done);
        return;
      }
    } else if EnableIncrease(e) {
      var low, high := e.increase.value.low.value, e.increase.value.high.value;
      ghost var ws := [PlainWrite(low), HighWrite(low, high)];
      assert Writes(includeDecrease, e) == ws;
      ok, next := Append(PlainWrite(low), known, slots, index, start, done);
      if !ok {
        assert PlainWrite(low) in ws;
        return;
      }
      ok, next := Append(HighWrite(low, high), known, slots, next, start, done + [PlainWrite(low)]);
      assert HighWrite(low, high) in ws;
      assert done + [PlainWrite(low)] + [HighWrite(low, high)] == done + ws;
      return;
    }
    ok, next := Append(PlainWrite(e.item.value), known, slots, index, start, done);
  }

  predicate DecreasesNamed(table: seq<Elem>)
  {
    forall i :: 0 <= i < |table| && table[i].decrease.Some? ==>
      table[i].decrease.value.remove.Some? && table[i].decrease.value.replaceBy.Some?
  }

  function Removed(table: seq<Elem>, n: nat): set<string>
    requires n <= |table| && DecreasesNamed(table)
  {
    if n == 0 then {}
    else Removed(table, n - 1) + if table[n - 1].decrease.Some? then {table[n - 1].decrease.value.remove.value} else {}
  }

  function Replacing(table: seq<Elem>, n: nat): set<string>
    requires n <= |table| && DecreasesNamed(table)
  {
    if n == 0 then {}
    else
      var d := table[n - 1].decrease;
      Replacing(table, n - 1) + if d.Some? then {d.value.replaceBy.value} else {}
  }

  predicate NoneReplacesRemoved(table: seq<Elem>)
    requires DecreasesNamed(table)
  {
    Replacing(table, |table|) !! Removed(table, |table|)
  }

  lemma {:induction false} DecreaseNames(table: seq<Elem>, n: nat, i: nat)
    requires i < n <= |table| && DecreasesNamed(table) && table[i].decrease.Some?
    ensures table[i].decrease.value.remove.value in Removed(table, n)
    ensures table[i].decrease.value.replaceBy.value in Replacing(table, n)
  {
    if i < n - 1 { DecreaseNames(table, n - 1, i); }
  }

  /** In an accepted decrease no item brings in a host that another item is taking out. */
  lemma ReplacementStays(table: seq<Elem>, i: nat, j: nat)
    requires DecreasesNamed(table) && NoneReplacesRemoved(table)
    requires i < |table| && j < |table| && table[i].decrease.Some? && table[j].decrease.Some?
    ensures table[i].decrease.value.replaceBy != table[j].decrease.value.remove
  {
    DecreaseNames(table, |table|, i);
    DecreaseNames(table, |table|, j);
  }

  /** `hustdb_ha_check_decrease`: no host is both removed and a replacement. */
  method CheckDecrease(table: seq<Elem>) returns (ok: bool)
    requires DecreasesNamed(table)
    ensures ok <==> NoneReplacesRemoved(table)
  {
    var removed, replacing: set<string> := {}, {};
    var i := 0;
    while i < |table|
      invariant 0 <= i <= |table| && removed == Removed(table, i) && replacing == Replacing(table, i)
    {
      if table[i].decrease.Some? {
        removed := removed + {table[i].decrease.value.remove.value};
        replacing := replacing + {table[i].decrease.value.replaceBy.value};
      }
      i := i + 1;
    }
    ok := replacing !! removed;
  }

  /** Every item passes its check with known hosts, the decrease and review checks pass, and the runs of
      slots fit the space of the intervals written. */
  predicate Accepted(includeDecrease: bool, table: seq<Elem>, known: set<string>, slots: seq<Slot>)
    requires |slots| == SIZE
  {
    && Checked(includeDecrease, table, |table|, known)
    && (includeDecrease ==> DecreasesNamed(table) && NoneReplacesRemoved(table))
    && var ws := AllWrites(includeDecrease, table, |table|, known); var s := ApplyAll(slots, ws);
    Reviewed(s) && 1 <= |ws| && |Runs(s, SIZE)| <= |ws|
  }

  /** `__build_table` on a table whose items are present; the items the checks let it reach have to stay
      inside the table, which the code leaves to its caller. */
  method BuildTable(includeDecrease: bool, table: seq<Elem>, known: set<string>, slots: array<Slot>)
    returns (ok: bool, arr: array<Bucket>, used: nat)
    requires slots.Length == SIZE && forall i :: 0 <= i < |table| ==> table[i].item.Some?
    requires forall i: nat :: i < |table| && Checked(includeDecrease, table, i, known) ==> ElemInBounds(table[i])
    modifies slots
    ensures ok <==> Accepted(includeDecrease, table, known, old(slots[..]))
    ensures ok ==> slots[..] == ApplyAll(old(slots[..]), AllWrites(includeDecrease, table, |table|, known))
    ensures ok ==> used <= arr.Length && arr[..used] == Runs(slots[..], SIZE)
  {
    hide ApplyAll, Runs, Reviewed, Writes, KnownHosts, NoneReplacesRemoved, CheckBase, ElemInBounds;
    ghost var start := slots[..];
    var index := 0;
    var prev: Option<Elem> := None;
    arr, used := new Bucket[0], 0;
    NoWrites(start);
    var i := 0;
    while i < |table|
      invariant 0 <= i <= |table| && Checked(includeDecrease, table, i, known)
      invariant prev == if i == 0 then None else Some(table[i - 1])
      invariant i > 0 ==> |table[i - 1].item.value.key| == 2
      invariant index == |AllWrites(includeDecrease, table, i, known)|
      invariant slots[..] == ApplyAll(start, AllWrites(includeDecrease, table, i, known))
    {
      var e := table[i];
      var last := |table| - 1 == i;
      var passed := CheckItem(includeDecrease, last, prev, e);
      if !passed {
        NotChecked(includeDecrease, table, i + 1, known);
        return false, arr, used;
      }
      passed, index := BuildTableItem(includeDecrease, e, known, slots, index, start,
                                      AllWrites(includeDecrease, table, i, known));
      if !passed {
        NotChecked(includeDecrease, table, i + 1, known);
        return false, arr, used;
      }
      prev := Some(e);
      i := i + 1;
    }
    if includeDecrease {
      DecreasesPresent(table, |table|, known);
      var swap := CheckDecrease(table);
      if !swap {
        return false, arr, used;
      }
    }
    var reviewed := ReviewTable(slots);
    if !reviewed {
      return false, arr, used;
    }
    ok, arr, used := BuildBucketTable(slots, index);
  }

  lemma NoWrites(slots: seq<Slot>)
    ensures ApplyAll(slots, []) == slots
  {}

  /** One item that fails its check spoils the whole table. */
  lemma {:induction false} NotChecked(includeDecrease: bool, table: seq<Elem>, n: nat, known: set<string>)
    requires n <= |table| && !Checked(includeDecrease, table, n, known)
    ensures !Checked(includeDecrease, table, |table|, known)
    decreases |table| - n
  {
    if n < |table| { NotChecked(includeDecrease, table, n + 1, known); }
  }

  lemma {:induction false} DecreasesPresent(table: seq<Elem>, n: nat, known: set<string>)
    requires n <= |table| && Checked(true, table, n, known)
    ensures forall i :: 0 <= i < n && table[i].decrease.Some? ==>
      table[i].decrease.value.remove.Some? && table[i].decrease.value.replaceBy.Some?
  {
    if n > 0 { DecreasesPresent(table, n - 1, known); }
  }

  /** `hustdb_ha_review_table`. */
  method ReviewTable(slots: array<Slot>) returns (ok: bool)
    requires slots.Length == SIZE
    ensures ok <==> Reviewed(slots[..])
  {
    var i := 0;
    while i < SIZE
      invariant 0 <= i <= SIZE
      invariant forall k :: 0 <= k < i ==>
        slots[k].readlist.Some? && slots[k].writelist.Some? && |slots[k].writelist.value| == 2
    {
      if slots[i].readlist.None? || slots[i].writelist.None? || |slots[i].writelist.value| != 2 {
        assert slots[..][i] == slots[i];
        return false;
      }
      i := i + 1;
    }
    assert forall k :: 0 <= k < SIZE ==> slots[..][k] == slots[k];
    ok := true;
  }

  // --- what acceptance gives every slot ---

  function FreshSlots(): (slots: seq<Slot>)
    ensures |slots| == SIZE
  {
    seq(SIZE, _ => EMPTY)
  }

  predicate LaterItemCovers(includeDecrease: bool, table: seq<Elem>, k: nat, slot: int)
  {
    exists m, w :: k < m < |table| && Expandable(includeDecrease, table[m])
      && w in Writes(includeDecrease, table[m]) && Covers(w, slot)
  }

  /** The slot `s` at position `slot` is served by item `k`, the last that covers it: it has two hosts to
      write to, among those it reads, and one of the old masters of that very item among them. */
  predicate ServedBy(includeDecrease: bool, table: seq<Elem>, k: nat, slot: int, s: Slot)
  {
    && k < |table| && Expandable(includeDecrease, table[k])
    && var item := table[k].item.value;
    && item.key[0] <= slot < item.key[1] && !LaterItemCovers(includeDecrease, table, k, slot)
    && (exists w :: w in Writes(includeDecrease, table[k]) && Covers(w, slot) && FromWrite(s, w))
    && s.readlist.Some? && s.writelist.Some? && |s.writelist.value| == 2 && s.start <= slot < s.end
    && (forall h :: h in s.writelist.value ==> h in s.readlist.value)
    && (item.val[0] in s.writelist.value || item.val[1] in s.writelist.value)
  }

  lemma WritesInside(includeDecrease: bool, e: Elem, w: Write, slot: int)
    requires Expandable(includeDecrease, e) && w in Writes(includeDecrease, e) && Covers(w, slot)
    ensures e.item.value.key[0] <= slot < e.item.value.key[1]
  {}

  /** Items behind the one interval `i` comes from write behind it. */
  lemma LaterWrites(includeDecrease: bool, table: seq<Elem>, known: set<string>, i: nat, k: nat, m: nat, w: Write)
    returns (j: nat)
    requires k < m < |table| && Checked(includeDecrease, table, |table|, known)
      && Checked(includeDecrease, table, k + 1, known)
    requires i < |AllWrites(includeDecrease, table, k + 1, known)|
    requires Expandable(includeDecrease, table[m]) && w in Writes(includeDecrease, table[m])
    ensures i < j < |AllWrites(includeDecrease, table, |table|, known)|
    ensures AllWrites(includeDecrease, table, |table|, known)[j] == w
  {
    hide Writes, Expandable, Checked, AllWrites;
    WritesGrow(includeDecrease, table, m + 1, |table|, known);
    CheckedItem(includeDecrease, table, m + 1, known);
    WritesGrow(includeDecrease, table, k + 1, m, known);
    var x :| 0 <= x < |Writes(includeDecrease, table[m])| && Writes(includeDecrease, table[m])[x] == w;
    j := |AllWrites(includeDecrease, table, m, known)| + x;
  }

  /** Every slot a checked table reaches is served by the item that covers it last, in plain, increase and
      decrease tables alike, whatever the slots held before. */
  lemma SlotServed(includeDecrease: bool, table: seq<Elem>, known: set<string>, slots: seq<Slot>, hi: nat, slot: nat)
    returns (k: nat)
    requires |table| > 0 && Checked(includeDecrease, table, |table|, known) && |slots| == SIZE
    requires slot < hi <= SIZE && hi == table[|table| - 1].item.value.key[1]
    ensures ServedBy(includeDecrease, table, k, slot,
                     ApplyAll(slots, AllWrites(includeDecrease, table, |table|, known))[slot])
  {
    hide ApplyAll, Checked, Expandable, Writes;
    var ws := AllWrites(includeDecrease, table, |table|, known);
    var s := ApplyAll(slots, ws)[slot];
    CheckedChains(includeDecrease, table, |table|, known);
    EverySlotServed(slots, ws, hi, slot);
    var i :| 0 <= i < |ws| && FromWrite(s, ws[i]) && Covers(ws[i], slot)
             && forall j :: i < j < |ws| ==> !Covers(ws[j], slot);
    k := ItemOf(includeDecrease, table, |table|, known, i);
    WritesInside(includeDecrease, table[k], ws[i], slot);
    MigrationSafe(includeDecrease, table[k], ws[i]);
    if LaterItemCovers(includeDecrease, table, k, slot) {
      var m, w :| k < m < |table| && Expandable(includeDecrease, table[m])
          && w in Writes(includeDecrease, table[m]) && Covers(w, slot);
      var j := LaterWrites(includeDecrease, table, known, i, k, m, w);
    }
  }

  /** Where the last item ends. */
  function End(table: seq<Elem>): int
    requires |table| > 0 && table[|table| - 1].item.Some? && |table[|table| - 1].item.value.key| == 2
  {
    table[|table| - 1].item.value.key[1]
  }

  lemma EndChecked(includeDecrease: bool, table: seq<Elem>, known: set<string>)
    requires |table| > 0 && Checked(includeDecrease, table, |table|, known)
    ensures Expandable(includeDecrease, table[|table| - 1]) && 1 <= End(table) <= SIZE
    ensures |table| > 1 ==> End(table) == SIZE
    ensures var ws := AllWrites(includeDecrease, table, |table|, known);
      |ws| > 0 && Chained(ws, 0, End(table)) && (|table| == 1 ==> Increasing(ws))
  {
    hide Chained;
    CheckedChains(includeDecrease, table, |table|, known);
    CheckedItem(includeDecrease, table, |table|, known);
  }

  /** A slot passes the review. */
  predicate Passes(s: Slot)
  {
    s.readlist.Some? && s.writelist.Some? && |s.writelist.value| == 2
  }

  /** The only tables accepted without reaching the end of the key space: a lone item that ends early is
      accepted exactly if every slot behind it already passes the review and records the bounds of the
      interval the item writes last. */
  lemma LoneEarlyItem(includeDecrease: bool, table: seq<Elem>, known: set<string>, slots: seq<Slot>)
    requires |table| == 1 && |slots| == SIZE && Checked(includeDecrease, table, 1, known) && End(table) < SIZE
    requires includeDecrease ==> DecreasesNamed(table) && NoneReplacesRemoved(table)
    ensures var ws := AllWrites(includeDecrease, table, 1, known);
      Accepted(includeDecrease, table, known, slots) <==>
        && InLastBucket(slots, ws, End(table), SIZE)
        && forall slot: nat :: End(table) <= slot < SIZE ==> Passes(slots[slot])
  {
    hide Checked, ApplyAll, Runs, Chained, Increasing, NoneReplacesRemoved;
    EndChecked(includeDecrease, table, known);
    var ws, hi := AllWrites(includeDecrease, table, 1, known), End(table);
    var s := ApplyAll(slots, ws);
    RunsBeyond(slots, ws, hi, SIZE);
    forall slot: nat | slot < SIZE ensures Passes(s[slot]) <==> slot < hi || Passes(slots[slot]) {
      if slot < hi {
        var k := SlotServed(includeDecrease, table, known, slots, hi, slot);
      } else {
        BeyondChain(slots, ws, hi, slot);
      }
    }
    assert Reviewed(s) <==> forall slot: nat :: slot < SIZE ==> Passes(s[slot]);
  }

  /** What acceptance gives: every slot is served, unless the table is a lone item that ends early, and
      then exactly the slots behind it are left as they were. */
  lemma ServedUnlessLone(includeDecrease: bool, table: seq<Elem>, known: set<string>, slots: seq<Slot>, slot: nat)
    returns (k: nat)
    requires |slots| == SIZE && slot < SIZE && Accepted(includeDecrease, table, known, slots)
    ensures |table| > 0 && Expandable(includeDecrease, table[|table| - 1])
    ensures var s := ApplyAll(slots, AllWrites(includeDecrease, table, |table|, known))[slot];
      if |table| == 1 && End(table) <= slot then
        s == slots[slot] && forall i: nat :: !ServedBy(includeDecrease, table, i, slot, s)
      else ServedBy(includeDecrease, table, k, slot, s)
  {
    hide Checked, ApplyAll, Runs, Chained, Increasing, NoneReplacesRemoved, Reviewed;
    NoItems(includeDecrease, table, known);
    EndChecked(includeDecrease, table, known);
    if |table| == 1 && End(table) <= slot {
      BeyondChain(slots, AllWrites(includeDecrease, table, 1, known), End(table), slot);
      k := 0;
    } else {
      k := SlotServed(includeDecrease, table, known, slots, End(table), slot);
    }
  }

  lemma NoItems(includeDecrease: bool, table: seq<Elem>, known: set<string>)
    requires Checked(includeDecrease, table, |table|, known)
    ensures table == [] ==> AllWrites(includeDecrease, table, |table|, known) == []
  {}

  /** A table accepted over initially empty slots reaches the end of the key space and serves every slot. */
  lemma FreshServed(includeDecrease: bool, table: seq<Elem>, known: set<string>, slot: nat) returns (k: nat)
    requires slot < SIZE && Accepted(includeDecrease, table, known, FreshSlots())
    ensures |table| > 0 && Expandable(includeDecrease, table[|table| - 1]) && End(table) == SIZE
    ensures ServedBy(includeDecrease, table, k, slot,
                     ApplyAll(FreshSlots(), AllWrites(includeDecrease, table, |table|, known))[slot])
  {
    hide Checked, ApplyAll, Runs, Chained, Increasing, NoneReplacesRemoved, ServedBy;
    NoItems(includeDecrease, table, known);
    EndChecked(includeDecrease, table, known);
    assert !Passes(FreshSlots()[SIZE - 1]);
    if End(table) < SIZE { LoneEarlyItem(includeDecrease, table, known, FreshSlots()); }
    k := ServedUnlessLone(includeDecrease, table, known, FreshSlots(), slot);
  }

  /** Ends of middle items are not bounded: a concrete table passes every check although its second item
      writes far beyond the slots, which is why `BuildTable` asks for bounded items. */
  lemma EndsUnchecked()
    ensures exists table: seq<Elem> :: |table| == 3 && Checked(false, table, 3, {"a", "b"}) && !ElemInBounds(table[1])
  {
    var val, known := ["a", "b"], {"a", "b"};
    var first, middle, last := Pair([0, 100], val), Pair([100, 2000], val), Pair([2000, 1024], val);
    var table := [Elem(Some(first), None, None), Elem(Some(middle), None, None), Elem(Some(last), None, None)];
    assert KnownHosts(PlainWrite(first), known) && KnownHosts(PlainWrite(middle), known);
    assert KnownHosts(PlainWrite(last), known);
    assert forall i :: 0 <= i < 3 ==> Writes(false, table[i]) == [PlainWrite(table[i].item.value)];
    hide KnownHosts, Writes;
    assert Checked(false, table, 0, known);
    assert Checked(false, table, 1, known);
    assert Checked(false, table, 2, known);
    assert Checked(false, table, 3, known) && !ElemInBounds(table[1]);
  }

  // --- generated tables ---

  function PairOf(key: GenTable.Interval, hosts: (string, string)): Pair
  {
    Pair([key.lo, key.hi], [hosts.0, hosts.1])
  }

  /** The configuration `gen_table.py` writes. */
  function Configuration(keys: seq<GenTable.Interval>, ring: seq<(string, string)>): (t: seq<Elem>)
    requires |keys| == |ring|
    ensures |t| == |keys|
  {
    seq(|keys|, i requires 0 <= i < |keys| => Elem(Some(PairOf(keys[i], ring[i])), None, None))
  }

  lemma {:induction false} ConfigurationChecks(keys: seq<GenTable.Interval>, ring: seq<(string, string)>, n: nat,
                                               known: set<string>)
    requires |keys| == |ring| && n <= |keys| && |keys| >= 2
    requires GenTable.Contiguous(keys, 0, SIZE) && GenTable.NonEmpty(keys)
    requires forall i :: 0 <= i < |ring| ==> ring[i].0 in known && ring[i].1 in known
    ensures var t := Configuration(keys, ring);
      && Checked(false, t, n, known)
      && AllWrites(false, t, n, known) == seq(n, i requires 0 <= i < n => PlainWrite(PairOf(keys[i], ring[i])))
  {
    var t := Configuration(keys, ring);
    if n > 0 {
      ConfigurationChecks(keys, ring, n - 1, known);
      var e := t[n - 1];
      assert Writes(false, e) == [PlainWrite(PairOf(keys[n - 1], ring[n - 1]))];
      if n == 1 { GenTable.BoundedEnd(keys, 0, SIZE, 0); }
    }
  }

  lemma ConfigurationBounded(keys: seq<GenTable.Interval>, ring: seq<(string, string)>)
    requires |keys| == |ring| && GenTable.Contiguous(keys, 0, SIZE) && GenTable.NonEmpty(keys)
    ensures var t := Configuration(keys, ring);
      && (forall i :: 0 <= i < |t| ==> t[i].item.Some? && |t[i].item.value.key| == 2 && ElemInBounds(t[i]))
      && |t| > 0 && t[|t| - 1].item.value.key[1] == SIZE
  {
    hide GenTable.Contiguous, GenTable.NonEmpty;
    var t := Configuration(keys, ring);
    forall i | 0 <= i < |t| ensures ElemInBounds(t[i]) { GenTable.BoundedEnd(keys, 0, SIZE, i); }
    LastEnd(keys);
  }

  lemma RingKnown(hosts: seq<string>, known: set<string>)
    requires |hosts| >= 2 && forall h :: h in hosts ==> h in known
    ensures forall i :: 0 <= i < |hosts| ==> GenTable.Ring(hosts)[i].0 in known && GenTable.Ring(hosts)[i].1 in known
  {}

  lemma LastEnd(keys: seq<GenTable.Interval>)
    requires GenTable.Contiguous(keys, 0, SIZE)
    ensures keys != [] && keys[|keys| - 1].hi == SIZE
  {}

  lemma GeneratedBuckets(keys: seq<GenTable.Interval>, ring: seq<(string, string)>)
    requires |keys| == |ring| && GenTable.NonEmpty(keys)
    ensures var ws := seq(|keys|, i requires 0 <= i < |keys| => PlainWrite(PairOf(keys[i], ring[i])));
      Increasing(ws) && forall i :: 0 <= i < |ws| ==> Buckets(ws)[i] == GeneratedBucket(keys[i], ring[i])
  {}

  /** Every table generated for 2 to 1024 known hosts meets all the conditions under which the builder
      accepts it, whatever the slots held before; its buckets are exactly the generated intervals, in
      order, each with its two hosts. */
  lemma GeneratedAccepted(keys: seq<GenTable.Interval>, hosts: seq<string>, known: set<string>, slots: seq<Slot>)
    requires 2 <= |hosts| == |keys| && |slots| == SIZE
    requires GenTable.Contiguous(keys, 0, SIZE) && GenTable.NonEmpty(keys)
    requires forall h :: h in hosts ==> h in known
    ensures var t := Configuration(keys, GenTable.Ring(hosts));
      && (forall i :: 0 <= i < |t| ==> t[i].item.Some? && ElemInBounds(t[i]))
      && Checked(false, t, |t|, known)
      && var ws := AllWrites(false, t, |t|, known);
      && |ws| == |hosts| && Reviewed(ApplyAll(slots, ws))
      && Runs(ApplyAll(slots, ws), SIZE) == Buckets(ws)
      && forall i :: 0 <= i < |ws| ==> Buckets(ws)[i] == GeneratedBucket(keys[i], GenTable.Ring(hosts)[i])
  {
    hide Runs, ApplyAll, Reviewed, Checked, AllWrites, Chained, Increasing, Buckets, GenTable.Contiguous,
         GenTable.NonEmpty,
         GenTable.Ring, ElemInBounds, Configuration;
    var ring := GenTable.Ring(hosts);
    var t := Configuration(keys, ring);
    RingKnown(hosts, known);
    ConfigurationChecks(keys, ring, |keys|, known);
    ConfigurationBounded(keys, ring);
    GeneratedBuckets(keys, ring);
    var ws := AllWrites(false, t, |t|, known);
    CheckedChains(false, t, |t|, known);
    ReviewPasses(false, t, known, slots);
    BucketsExact(slots, ws);
  }

  function GeneratedBucket(key: GenTable.Interval, hosts: (string, string)): Bucket
  {
    Bucket(key.lo, key.hi, [hosts.0, hosts.1], [hosts.0, hosts.1])
  }

  /** Generating a table for 2 to 1024 known hosts and building it: the builder accepts, with one bucket
      per host, the generated intervals in order. */
  method GenerateAndBuild(hosts: seq<string>, known: set<string>, slots: array<Slot>)
    returns (keys: seq<GenTable.Interval>, ok: bool, arr: array<Bucket>, used: nat)
    requires 2 <= |hosts| <= SIZE && slots.Length == SIZE && forall h :: h in hosts ==> h in known
    modifies slots
    ensures GenTable.Contiguous(keys, 0, SIZE) && GenTable.NonEmpty(keys) && |keys| == |hosts|
    ensures ok && used == |hosts| <= arr.Length
    ensures forall i :: 0 <= i < used ==> arr[i] == GeneratedBucket(keys[i], GenTable.Ring(hosts)[i])
  {
    hide GenTable.Contiguous, GenTable.NonEmpty, GenTable.Ring, Checked, Runs, ApplyAll, AllWrites, Reviewed,
         Configuration;
    keys := GenTable.GenKeys(|hosts|);
    var table := Configuration(keys, GenTable.Ring(hosts));
    GeneratedAccepted(keys, hosts, known, slots[..]);
    ok, arr, used := BuildTable(false, table, known, slots);
    ghost var ws := AllWrites(false, table, |table|, known);
    assert forall i :: 0 <= i < used ==> arr[i] == arr[..used][i] == Buckets(ws)[i];
  }
}
