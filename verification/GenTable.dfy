/** The generator of the slot table: repeated halving of the key space, and the ring of hosts. */
module GenTable {
  import opened HaTable
  import opened Sequences

  datatype Interval = Interval(lo: int, hi: int) {
    function Width(): int { hi - lo }
  }

  function Split(key: Interval): seq<Interval>
  {
    var pos := (key.lo + key.hi) / 2;
    [Interval(key.lo, pos), Interval(pos, key.hi)]
  }

  /** Consecutive intervals from `lo` to `hi`. */
  predicate Contiguous(keys: seq<Interval>, lo: int, hi: int)
  {
    && keys != [] && keys[0].lo == lo && keys[|keys| - 1].hi == hi
    && forall i :: 0 < i < |keys| ==> keys[i - 1].hi == keys[i].lo
  }

  predicate NonEmpty(keys: seq<Interval>)
  {
    forall i :: 0 <= i < |keys| ==> keys[i].lo < keys[i].hi
  }

  /** A full level of the halving: `n` intervals of width `w` make up the key space. */
  predicate Level(n: int, w: int)
  {
    || (n == 2 && w == 512) || (n == 4 && w == 256) || (n == 8 && w == 128) || (n == 16 && w == 64)
    || (n == 32 && w == 32) || (n == 64 && w == 16) || (n == 128 && w == 8) || (n == 256 && w == 4)
    || (n == 512 && w == 2) || (n == 1024 && w == 1)
  }

  /** The first `m` intervals of a level have been halved. */
  predicate Halved(keys: seq<Interval>, n: int, w: int, m: int)
  {
    && Level(n, w) && 0 <= m < n && |keys| == n + m
    && forall i :: 0 <= i < |keys| ==> keys[i].Width() == if i < 2 * m then w / 2 else w
  }

  lemma {:induction false} BoundedParts(keys: seq<Interval>, lo: int, hi: int)
    requires Contiguous(keys, lo, hi) && NonEmpty(keys)
    ensures |keys| <= hi - lo
  {
    if |keys| > 1 {
      BoundedParts(keys[1..], keys[0].hi, hi);
    }
  }

  lemma {:induction false} BoundedEnd(keys: seq<Interval>, lo: int, hi: int, i: nat)
    requires Contiguous(keys, lo, hi) && NonEmpty(keys) && i < |keys|
    ensures lo <= keys[i].lo < keys[i].hi <= hi
  {
    if |keys| > 1 {
      BoundedEnd(keys[1..], keys[0].hi, hi, if i > 0 then i - 1 else 0);
    }
  }

  lemma FirstLevel(keys: seq<Interval>)
    requires keys == [Interval(0, 512), Interval(512, 1024)]
    ensures Halved(keys, 2, 512, 0) && Contiguous(keys, 0, SIZE)
  {}

  lemma HalvedNonEmpty(keys: seq<Interval>, n: int, w: int, m: int)
    requires Halved(keys, n, w, m) && |keys| <= SIZE
    ensures NonEmpty(keys)
  {}

  lemma SplitHalves(key: Interval)
    ensures |Split(key)| == 2 && Split(key)[0].lo == key.lo && Split(key)[1].hi == key.hi
    ensures Split(key)[0].hi == Split(key)[1].lo
  {}

  lemma SplitCovers(keys: seq<Interval>, i: nat)
    requires Contiguous(keys, 0, SIZE) && i < |keys|
    ensures Contiguous(SplitAt(keys, i), 0, SIZE)
  {}

  /** `gen_keys`: always a contiguous cover of the key space, of exactly the requested size from two
      on; up to 1024 parts the widths are those of one level and its halves, and exactly up to 1024
      parts is no part empty. */
  method GenKeys(size: int) returns (keys: seq<Interval>)
    ensures Contiguous(keys, 0, SIZE)
    ensures |keys| == if size >= 2 then size else 2
    ensures size <= SIZE ==> exists n, w, m :: Halved(keys, n, w, m)
    ensures NonEmpty(keys) <==> size <= SIZE
  {
    hide Halved, Level, Split, NonEmpty, Contiguous;
    keys := [Interval(0, 512), Interval(512, 1024)];
    FirstLevel(keys);
    var left := size - 2;
    var index := 0;
    ghost var n, w := 2, 512;
    while left > 0
      invariant Contiguous(keys, 0, SIZE)
      invariant 0 <= index < |keys| && |keys| >= 2
      invariant if size >= 2 then |keys| + left == size && left >= 0 else |keys| == 2
      invariant |keys| <= SIZE ==> index % 2 == 0 && Halved(keys, n, w, index / 2)
    {
      ghost var before, m := keys, index / 2;
      var tmp := keys[..index] + Split(keys[index]);
      SplitHalves(keys[index]);
      SplitCovers(keys, index);
      if index < |keys| - 1 {
        tmp := tmp + keys[index + 1..];
        keys := tmp;
        index := index + 2;
        if |keys| <= SIZE { SplitInside(before, n, w, m); }
      } else {
        assert tmp + keys[index + 1..] == tmp;
        keys := tmp;
        index := 0;
        if |keys| <= SIZE {
          SplitLast(before, n, w, m);
          n, w := 2 * n, w / 2;
        }
      }
      left := left - 1;
    }
    if |keys| <= SIZE {
      HalvedNonEmpty(keys, n, w, index / 2);
    } else if NonEmpty(keys) {
      BoundedParts(keys, 0, SIZE);
    }
  }

  function SplitAt(keys: seq<Interval>, i: nat): seq<Interval>
    requires i < |keys|
  {
    keys[..i] + Split(keys[i]) + keys[i + 1..]
  }

  lemma SplitInside(keys: seq<Interval>, n: int, w: int, m: int)
    requires Halved(keys, n, w, m) && 2 * m < |keys| - 1 && |keys| < SIZE
    ensures Halved(SplitAt(keys, 2 * m), n, w, m + 1)
  {}

  lemma SplitLast(keys: seq<Interval>, n: int, w: int, m: int)
    requires Halved(keys, n, w, m) && 2 * m == |keys| - 1 && |keys| < SIZE
    ensures Halved(keys[..2 * m] + Split(keys[2 * m]), 2 * n, w / 2, 0)
  {
    assert w % 2 == 0;
  }

  // --- the ring of hosts ---

  /** Every host is paired with the one after its first occurrence, the last with the first. */
  function Ring(hosts: seq<string>): (r: seq<(string, string)>)
    requires |hosts| >= 2
    ensures |r| == |hosts|
  {
    seq(|hosts|, i requires 0 <= i < |hosts| =>
      var k := FirstIndex(hosts, hosts[i]);
      (hosts[i], if k < |hosts| - 1 then hosts[k + 1] else hosts[0]))
  }

  predicate DistinctHosts(hosts: seq<string>)
  {
    forall i, j :: 0 <= i < j < |hosts| ==> hosts[i] != hosts[j]
  }

  lemma {:induction false} FirstBefore(hosts: seq<string>, i: nat)
    requires i < |hosts|
    ensures FirstIndex(hosts, hosts[i]) <= i
  {
    if hosts[0] != hosts[i] { FirstBefore(hosts[1..], i - 1); }
  }

  /** Without repeated hosts the ring puts each host exactly once as first and once as second master,
      never twice in one pair. */
  lemma RingOnce(hosts: seq<string>, h: string)
    requires |hosts| >= 2 && DistinctHosts(hosts) && h in hosts
    ensures exists i :: 0 <= i < |hosts| && Ring(hosts)[i].0 == h
    ensures exists i :: 0 <= i < |hosts| && Ring(hosts)[i].1 == h
    ensures forall i, j :: 0 <= i < j < |hosts| ==>
      Ring(hosts)[i].0 != Ring(hosts)[j].0 && Ring(hosts)[i].1 != Ring(hosts)[j].1
    ensures forall i :: 0 <= i < |hosts| ==> Ring(hosts)[i].0 != Ring(hosts)[i].1
  {
    hide FirstIndex;
    var n, k := |hosts|, FirstIndex(hosts, h);
    forall i | 0 <= i < n ensures FirstIndex(hosts, hosts[i]) == i { FirstBefore(hosts, i); }
    assert Ring(hosts)[k].0 == h;
    assert Ring(hosts)[if k > 0 then k - 1 else n - 1].1 == h;
  }

  /** The ring goes round in the order given: interval `i` has host `i` as its first master and, unless the
      host was listed before, the first master of interval `i + 1` as its second, the last one the first
      master of interval 0. A host listed again has the same pair again. */
  lemma RingNext(hosts: seq<string>, i: nat)
    requires |hosts| >= 2 && i < |hosts|
    ensures var next := if i + 1 == |hosts| then 0 else i + 1;
      && Ring(hosts)[i].0 == hosts[i]
      && (hosts[i] !in hosts[..i] ==> Ring(hosts)[i].1 == Ring(hosts)[next].0)
      && forall j :: 0 <= j < i && hosts[j] == hosts[i] ==> Ring(hosts)[j] == Ring(hosts)[i]
  {
    hide FirstIndex;
    var k := FirstIndex(hosts, hosts[i]);
    FirstBefore(hosts, i);
    if k < i { assert hosts[..i][k] == hosts[i]; }
  }
}
