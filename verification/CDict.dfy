/** The chained hash table `c_dict`: buckets of singly linked nodes, a power-of-two number of them,
    doubled when full. The `next` pointers and the values behind the keys are kept in maps with one entry per node. */
module CDict {
  import opened Bits
  import opened Options
  import opened Words

  /** A C string without its terminating NUL; each character stands for one byte. */
  type Key = string

  // --- hashing and sizes ---

  /** A `char` is signed: its bit pattern widened to 32 bits. */
  function Widen(c: char): nat
  {
    var byte := c as int % 0x100;
    if byte < 0x80 then byte else WORD32 - 0x100 + byte
  }

  function HashFrom(h: nat, key: Key): nat
    decreases |key|
  {
    if key == [] then h else HashFrom(Xor((h * 33) % WORD32, Widen(key[0])), key[1..])
  }

  /** The reference value of `c_dict_hash`. */
  function Hash(key: Key): nat
  {
    HashFrom(5381, key)
  }

  lemma {:induction false} HashFromSnoc(h: nat, key: Key, c: char)
    ensures HashFrom(h, key + [c]) == Xor(HashFrom(h, key) * 33 % WORD32, Widen(c))
    decreases |key|
  {
    hide Xor, Widen;
    if key == [] {
      assert (key + [c])[1..] == [];
    } else {
      assert (key + [c])[1..] == key[1..] + [c];
      HashFromSnoc(Xor((h * 33) % WORD32, Widen(key[0])), key[1..], c);
    }
  }

  /** The hash of a string from the hash of all but its last byte: 33 times as much, in 32 bits, with the
      byte, sign-extended, mixed in by exclusive or. */
  lemma HashSnoc(key: Key, c: char)
    requires c < 0x100 as char
    ensures Hash([]) == 5381
    ensures Hash(key + [c]) ==
      Xor(Hash(key) * 33 % 0x1_0000_0000, if c as int < 128 then c as int else 0xFFFF_FF00 + c as int)
  {
    hide Xor;
    HashFromSnoc(5381, key, c);
  }

  lemma {:induction false} HashFits(h: nat, key: Key)
    requires h < WORD32
    ensures HashFrom(h, key) < WORD32
    decreases |key|
  {
    if key != [] {
      assert WORD32 == Pow2(32) by { Pow2Of32(); }
      XorFits((h * 33) % WORD32, Widen(key[0]), 32);
      HashFits(Xor((h * 33) % WORD32, Widen(key[0])), key[1..]);
    }
  }

  lemma Pow2Of32()
    ensures Pow2(32) == WORD32
  {
    assert Pow2(8) == 0x100;
    assert Pow2(16) == 0x1_0000;
    assert Pow2(24) == 0x100_0000;
  }

  lemma ShiftAndAdd(h: nat)
    ensures (h * 32 % WORD32 + h) % WORD32 == h * 33 % WORD32
  {
    var q := h * 32 / WORD32;
    var t := h * 32 % WORD32 + h;
    assert h * 33 == (q + t / WORD32) * WORD32 + t % WORD32;
    QuotientUnique(h * 33, WORD32, q + t / WORD32, t % WORD32);
  }

  method ComputeHash(str: Key) returns (hash: nat)
    ensures hash == Hash(str) && hash < WORD32
  {
    hash := 5381;
    var i := 0;
    while i < |str|
      invariant 0 <= i <= |str|
      invariant HashFrom(hash, str[i..]) == Hash(str)
    {
      assert str[i..][1..] == str[i + 1..];
      ShiftAndAdd(hash);
      hide Xor, Widen;
      hash := Xor((hash * 32 % WORD32 + hash) % WORD32, Widen(str[i]));
      i := i + 1;
    }
    HashFits(5381, str);
  }

  const PTR := 8

  /** Where the value starts behind a key of `ksize` bytes; the subtraction is unsigned. */
  function ValueOffset(ksize: nat): nat
  {
    ksize + (PTR - ksize) % 0x1_0000_0000_0000_0000 % PTR
  }

  /** The value is pointer-aligned and starts right after the key, with less than a pointer of padding. */
  lemma OffsetAligned(ksize: nat)
    ensures ValueOffset(ksize) % PTR == 0
    ensures ksize <= ValueOffset(ksize) < ksize + PTR
  {
    var w := 0x1_0000_0000_0000_0000;
    var d := PTR - ksize;
    assert d == (d / w) * w + d % w;
    assert w == 0x2000_0000_0000_0000 * PTR;
    assert d % w == d - (d / w) * 0x2000_0000_0000_0000 * PTR;
  }

  ghost predicate PowerOfTwo(n: nat)
  {
    exists k: nat :: n == Pow2(k)
  }

  function Bucket(hash: nat, nbuckets: nat): nat
    requires nbuckets > 0
  {
    And(hash, nbuckets - 1)
  }

  /** For the sizes the table takes, the masked hash is the remainder, and so a bucket. */
  lemma BucketIsMod(hash: nat, nbuckets: nat)
    requires PowerOfTwo(nbuckets)
    ensures Bucket(hash, nbuckets) == hash % nbuckets < nbuckets
  {
    var k: nat :| nbuckets == Pow2(k);
    MaskIsMod(hash, k);
  }

  // --- chains ---

  class Node {
    const hash: nat
    const key: Key

    constructor (hash: nat, key: Key)
      ensures this.hash == hash && this.key == key
    {
      this.hash, this.key := hash, key;
    }
  }

  type Links = map<Node, Node?>

  ghost predicate Chain(next: Links, n: Node?, s: seq<Node>)
  {
    if s == [] then n == null else n == s[0] && s[0] in next && Chain(next, next[s[0]], s[1..])
  }

  lemma {:induction false} ChainFrame(next: Links, n: Node?, s: seq<Node>, x: Node, y: Node?)
    requires Chain(next, n, s) && x !in s
    ensures Chain(next[x := y], n, s)
  {
    if s != [] { ChainFrame(next, next[s[0]], s[1..], x, y); }
  }

  ghost predicate DistinctKeys(s: seq<Node>)
  {
    forall i, j :: 0 <= i < j < |s| ==> s[i].key != s[j].key
  }

  ghost function KeysOf(s: seq<Node>): set<Key>
  {
    set i | 0 <= i < |s| :: s[i].key
  }

  lemma InKeys(s: seq<Node>, n: Node)
    requires n in s
    ensures n.key in KeysOf(s)
  {}

  lemma KeysCons(n: Node, s: seq<Node>)
    ensures KeysOf([n] + s) == {n.key} + KeysOf(s)
    ensures DistinctKeys(s) && n.key !in KeysOf(s) ==> DistinctKeys([n] + s)
  {
    var t := [n] + s;
    assert t[0] == n && forall i :: 0 <= i < |s| ==> t[i + 1] == s[i];
    assert forall k :: k in KeysOf(s) ==> k in KeysOf(t);
  }

  /** The pointer at position `i` of a chain: the head, then the `next` fields, null at the end. */
  lemma {:induction false} ChainAt(next: Links, n: Node?, s: seq<Node>, i: nat)
    requires Chain(next, n, s) && i <= |s|
    ensures i > 0 ==> s[i - 1] in next
    ensures (if i == 0 then n else next[s[i - 1]]) == if i == |s| then null else s[i]
  {
    if i > 0 { ChainAt(next, next[s[0]], s[1..], i - 1); }
  }

  /** A chain without its node at position `i`. */
  function Cut(s: seq<Node>, i: nat): seq<Node>
    requires i < |s|
  {
    s[..i] + s[i + 1..]
  }

  lemma {:induction false} UnlinkChain(next: Links, n: Node?, s: seq<Node>, i: nat)
    requires Chain(next, n, s) && DistinctKeys(s) && 0 < i < |s|
    requires s[i] in next && s[i - 1] in next
    ensures Chain(next[s[i - 1] := next[s[i]]], n, Cut(s, i))
  {
    var t := Cut(s, i);
    assert t[0] == s[0] && t[1..] == s[1..][..i - 1] + s[1..][i..];
    if i == 1 {
      assert t[1..] == s[2..];
      assert s[0] !in s[2..];
      ChainFrame(next, next[s[1]], s[2..], s[0], next[s[1]]);
    } else {
      UnlinkChain(next, next[s[0]], s[1..], i - 1);
    }
  }

  lemma DropKey(s: seq<Node>, i: nat)
    requires DistinctKeys(s) && i < |s|
    ensures DistinctKeys(Cut(s, i))
    ensures KeysOf(Cut(s, i)) == KeysOf(s) - {s[i].key}
    ensures forall n :: n in Cut(s, i) <==> n in s && n != s[i]
  {
    var t := Cut(s, i);
    assert forall j :: 0 <= j < |t| ==> t[j] == s[if j < i then j else j + 1];
    forall n | n in s && n != s[i] ensures n in t {
      var j :| 0 <= j < |s| && s[j] == n;
      assert n == t[if j < i then j else j - 1];
    }
    forall k | k in KeysOf(s) && k != s[i].key ensures k in KeysOf(t) {
      var j :| 0 <= j < |s| && s[j].key == k;
      assert k == t[if j < i then j else j - 1].key;
    }
  }

  /** Everything about one bucket: its chain, in the right place, without a key twice. */
  ghost predicate BucketOk(next: Links, head: Node?, s: seq<Node>, b: nat, nbuckets: nat)
    requires nbuckets > 0
  {
    && Chain(next, head, s) && DistinctKeys(s)
    && forall n :: n in s ==> n.hash == Hash(n.key) && Bucket(n.hash, nbuckets) == b
  }

  /** A pointer changed in one bucket leaves the chains of the others alone. */
  lemma OtherBucket(next: Links, head: Node?, s: seq<Node>, c: nat, nbuckets: nat, x: Node, y: Node?)
    requires nbuckets > 0 && BucketOk(next, head, s, c, nbuckets) && Bucket(x.hash, nbuckets) != c
    ensures BucketOk(next[x := y], head, s, c, nbuckets)
  {
    ChainFrame(next, head, s, x, y);
  }

  ghost predicate Shape(next: Links, buckets: seq<Node?>, chains: seq<seq<Node>>)
  {
    && |chains| == |buckets|
    && forall b :: 0 <= b < |buckets| ==> BucketOk(next, buckets[b], chains[b], b, |buckets|)
  }

  /** The values stored along a chain agree with `m`. */
  ghost predicate Holds<V>(s: seq<Node>, value: map<Node, V>, m: map<Key, V>)
  {
    forall n :: n in s ==> n in value && n.key in m && m[n.key] == value[n]
  }

  ghost predicate AllHold<V>(chains: seq<seq<Node>>, value: map<Node, V>, m: map<Key, V>)
  {
    forall b :: 0 <= b < |chains| ==> Holds(chains[b], value, m)
  }

  /** The chain a key belongs to. */
  ghost function Home(chains: seq<seq<Node>>, key: Key): seq<Node>
    requires |chains| > 0 && PowerOfTwo(|chains|)
  {
    BucketIsMod(Hash(key), |chains|);
    chains[Bucket(Hash(key), |chains|)]
  }

  ghost predicate Complete<V>(chains: seq<seq<Node>>, m: map<Key, V>)
    requires |chains| > 0 ==> PowerOfTwo(|chains|)
  {
    if |chains| == 0 then m == map[] else forall k :: k in m ==> k in KeysOf(Home(chains, k))
  }

  lemma ShapeAt(next: Links, buckets: seq<Node?>, chains: seq<seq<Node>>, b: nat)
    requires Shape(next, buckets, chains) && b < |buckets|
    ensures BucketOk(next, buckets[b], chains[b], b, |buckets|)
  {}

  lemma ShapeUpdate(next: Links, buckets: seq<Node?>, chains: seq<seq<Node>>,
                    next': Links, b: nat, head: Node?, s: seq<Node>)
    requires Shape(next, buckets, chains) && b < |buckets|
    requires BucketOk(next', head, s, b, |buckets|)
    requires forall c :: 0 <= c < |buckets| && c != b ==> BucketOk(next', buckets[c], chains[c], c, |buckets|)
    ensures Shape(next', buckets[b := head], chains[b := s])
  {}

  lemma OtherBuckets(next: Links, buckets: seq<Node?>, chains: seq<seq<Node>>, b: nat, x: Node, y: Node?)
    requires Shape(next, buckets, chains) && b < |buckets| && Bucket(x.hash, |buckets|) == b
    ensures forall c :: 0 <= c < |buckets| && c != b ==> BucketOk(next[x := y], buckets[c], chains[c], c, |buckets|)
  {
    forall c | 0 <= c < |buckets| && c != b ensures BucketOk(next[x := y], buckets[c], chains[c], c, |buckets|) {
      OtherBucket(next, buckets[c], chains[c], c, |buckets|, x, y);
    }
  }

  /** A pointer to a node pointer: a bucket slot, or the `next` field of a node. */
  datatype Ref = Null | Slot(bucket: nat) | NextOf(node: Node)

  /** The reference to the pointer at position `i` of bucket `b`. */
  ghost function RefAt(chains: seq<seq<Node>>, b: nat, i: nat): Ref
    requires b < |chains| && i <= |chains[b]|
  {
    if i == 0 then Slot(b) else NextOf(chains[b][i - 1])
  }

  function PutBuckets(buckets: seq<Node?>, r: Ref, n: Node?): seq<Node?>
  {
    if r.Slot? && r.bucket < |buckets| then buckets[r.bucket := n] else buckets
  }

  function PutLinks(next: Links, r: Ref, n: Node?): Links
  {
    if r.NextOf? then next[r.node := n] else next
  }

  lemma PutSize(buckets: seq<Node?>, r: Ref, n: Node?)
    ensures |PutBuckets(buckets, r, n)| == |buckets|
  {}

  /** Where the pointer found by the search is stored decides what unlinking writes. */
  lemma UnlinkShape(next: Links, buckets: seq<Node?>, chains: seq<seq<Node>>, b: nat, i: nat)
    requires Shape(next, buckets, chains) && b < |buckets| && i < |chains[b]|
    ensures chains[b][i] in next
    ensures var r, n := RefAt(chains, b, i), next[chains[b][i]];
      Shape(PutLinks(next, r, n), PutBuckets(buckets, r, n), chains[b := Cut(chains[b], i)])
  {
    var s := chains[b];
    assert BucketOk(next, buckets[b], s, b, |buckets|);
    ChainAt(next, buckets[b], s, i + 1);
    ChainAt(next, buckets[b], s, i);
    DropKey(s, i);
    var t := Cut(s, i);
    if i == 0 {
      assert t == s[1..];
      ShapeUpdate(next, buckets, chains, next, b, next[s[0]], t);
    } else {
      UnlinkChain(next, buckets[b], s, i);
      OtherBuckets(next, buckets, chains, b, s[i - 1], next[s[i]]);
      ShapeUpdate(next, buckets, chains, next[s[i - 1] := next[s[i]]], b, buckets[b], t);
      assert buckets[b := buckets[b]] == buckets;
    }
  }

  function Minus<V>(m: map<Key, V>, key: Key): map<Key, V>
  {
    m - {key}
  }

  lemma MinusIs<V>(m: map<Key, V>, key: Key)
    ensures Minus(m, key) == m - {key}
  {}

  lemma MinusAbsent<V>(m: map<Key, V>, key: Key)
    requires key !in m
    ensures Minus(m, key) == m
  {}

  lemma DropKeyFromMap<V>(chains: seq<seq<Node>>, value: map<Node, V>, m: map<Key, V>, b: nat, i: nat)
    requires |chains| > 0 && PowerOfTwo(|chains|) && AllHold(chains, value, m) && Complete(chains, m)
    requires b < |chains| && i < |chains[b]| && DistinctKeys(chains[b])
    requires forall c :: 0 <= c < |chains| && c != b ==> chains[b][i].key !in KeysOf(chains[c])
    ensures var t := Cut(chains[b], i);
      AllHold(chains[b := t], value, Minus(m, chains[b][i].key)) && Complete(chains[b := t], Minus(m, chains[b][i].key))
    ensures chains[b][i].key in m && |Minus(m, chains[b][i].key)| == |m| - 1
  {
    var key, m' := chains[b][i].key, Minus(m, chains[b][i].key);
    var t := Cut(chains[b], i);
    DropKey(chains[b], i);
    assert Holds(chains[b], value, m);
    assert m'.Keys == m.Keys - {key};
    var chains': seq<seq<Node>> := chains[b := t];
    forall c | 0 <= c < |chains'| ensures Holds(chains'[c], value, m') {
      assert Holds(chains[c], value, m);
      forall n: Node | n in chains'[c] ensures n.key != key {
        if c == b { InKeys(t, n); } else { InKeys(chains[c], n); }
      }
    }
    forall k | k in m' ensures k in KeysOf(Home(chains', k)) {
      assert k in KeysOf(Home(chains, k));
      BucketIsMod(Hash(k), |chains|);
    }
  }

  lemma StoredKey<V>(chains: seq<seq<Node>>, value: map<Node, V>, m: map<Key, V>, b: nat, i: nat)
    requires AllHold(chains, value, m) && b < |chains| && i < |chains[b]|
    ensures var n := chains[b][i]; n in value && n.key in m && m[n.key] == value[n]
  {}

  lemma AbsentKey<V>(chains: seq<seq<Node>>, m: map<Key, V>, key: Key, b: nat)
    requires |chains| > 0 ==> PowerOfTwo(|chains|)
    requires Complete(chains, m)
    requires |chains| > 0 ==> b < |chains| && b == Bucket(Hash(key), |chains|)
    requires |chains| > 0 ==> forall j :: 0 <= j < |chains[b]| ==> chains[b][j].key != key
    ensures key !in m
  {}

  lemma KeyInOneBucket(next: Links, buckets: seq<Node?>, chains: seq<seq<Node>>, b: nat, n: Node)
    requires Shape(next, buckets, chains) && b < |buckets| && n in chains[b]
    ensures forall c :: 0 <= c < |buckets| && c != b ==> n.key !in KeysOf(chains[c])
    ensures DistinctKeys(chains[b])
  {}

  // --- adding, gathering and scattering nodes ---

  ghost predicate Hashed(s: seq<Node>)
  {
    forall n :: n in s ==> n.hash == Hash(n.key)
  }

  lemma AddShape(next: Links, buckets: seq<Node?>, chains: seq<seq<Node>>, node: Node)
    requires |buckets| > 0 && PowerOfTwo(|buckets|) && Shape(next, buckets, chains)
    requires |chains| == |buckets| && node.hash == Hash(node.key) && node.key !in KeysOf(Home(chains, node.key))
    ensures var b := Bucket(node.hash, |buckets|);
      b < |buckets| && Shape(next[node := buckets[b]], buckets[b := node], chains[b := [node] + chains[b]])
  {
    BucketIsMod(node.hash, |buckets|);
    var b := Bucket(node.hash, |buckets|);
    var s, next' := chains[b], next[node := buckets[b]];
    ShapeAt(next, buckets, chains, b);
    if node in s { InKeys(s, node); }
    ChainFrame(next, buckets[b], s, node, buckets[b]);
    KeysCons(node, s);
    assert ([node] + s)[1..] == s;
    OtherBuckets(next, buckets, chains, b, node, buckets[b]);
    ShapeUpdate(next, buckets, chains, next', b, node, [node] + s);
  }

  /** The keys of `m` are the ones in the table and the ones still waiting in `rest`. */
  ghost predicate Shared<V>(chains: seq<seq<Node>>, rest: seq<Node>, m: map<Key, V>)
    requires |chains| > 0 && PowerOfTwo(|chains|)
  {
    && (forall n :: n in rest ==> n.key !in KeysOf(Home(chains, n.key)))
    && (forall k :: k in m ==> k in KeysOf(rest) || k in KeysOf(Home(chains, k)))
  }

  lemma ShareOne<V>(chains: seq<seq<Node>>, rest: seq<Node>, m: map<Key, V>)
    requires |chains| > 0 && PowerOfTwo(|chains|) && Shared(chains, rest, m)
    requires rest != [] && DistinctKeys(rest)
    ensures var n := rest[0]; var b := Bucket(Hash(n.key), |chains|);
      b < |chains| && Shared(chains[b := [n] + chains[b]], rest[1..], m)
  {
    var n := rest[0];
    BucketIsMod(Hash(n.key), |chains|);
    var b := Bucket(Hash(n.key), |chains|);
    KeysCons(n, chains[b]);
    assert rest == [n] + rest[1..];
    KeysCons(n, rest[1..]);
    forall k ensures Bucket(Hash(k), |chains|) < |chains| { BucketIsMod(Hash(k), |chains|); }
    var chains' := chains[b := [n] + chains[b]];
    forall k: Key
      ensures var more := if Bucket(Hash(k), |chains|) == b then {n.key} else {};
        KeysOf(Home(chains', k)) == KeysOf(Home(chains, k)) + more
    {}
  }

  lemma HoldOne<V>(chains: seq<seq<Node>>, value: map<Node, V>, m: map<Key, V>, b: nat, n: Node)
    requires AllHold(chains, value, m) && b < |chains| && Holds([n], value, m)
    ensures AllHold(chains[b := [n] + chains[b]], value, m)
  {}

  /** Gathering, about to take the chains below `i`: the nodes taken so far come from the others. */
  ghost predicate Taken<V>(next: Links, head: Node?, s: seq<Node>, i: nat, nbuckets: nat,
                           value: map<Node, V>, m: map<Key, V>)
    requires nbuckets > 0
  {
    && Chain(next, head, s) && DistinctKeys(s) && Hashed(s) && Holds(s, value, m)
    && (forall n :: n in s ==> Bucket(n.hash, nbuckets) >= i)
    && (forall k :: k in m && Bucket(Hash(k), nbuckets) >= i ==> k in KeysOf(s))
  }

  /** The same inside a chain, `rest` being what is left of it. */
  ghost predicate Taking<V>(next: Links, head: Node?, s: seq<Node>, node: Node?, rest: seq<Node>, i: nat,
                            nbuckets: nat, value: map<Node, V>, m: map<Key, V>)
    requires nbuckets > 0
  {
    && Chain(next, head, s) && DistinctKeys(s) && Hashed(s) && Holds(s, value, m)
    && BucketOk(next, node, rest, i, nbuckets) && Holds(rest, value, m)
    && (forall n :: n in s ==> Bucket(n.hash, nbuckets) >= i && n.key !in KeysOf(rest))
    && (forall k :: k in m && Bucket(Hash(k), nbuckets) >= i ==> k in KeysOf(s) || k in KeysOf(rest))
  }

  lemma StartTaking<V>(next: Links, buckets: seq<Node?>, chains: seq<seq<Node>>, head: Node?, s: seq<Node>, i: nat,
                       value: map<Node, V>, m: map<Key, V>)
    requires i < |buckets| == |chains| && Untouched(next, buckets, chains, i + 1) && PowerOfTwo(|buckets|)
    requires AllHold(chains, value, m) && Complete(chains, m)
    requires Taken(next, head, s, i + 1, |buckets|, value, m)
    ensures Taking(next, head, s, buckets[i], chains[i], i, |buckets|, value, m)
    ensures Untouched(next, buckets, chains, i)
  {}

  lemma TakeOne<V>(next: Links, head: Node?, s: seq<Node>, node: Node, rest: seq<Node>, i: nat, nbuckets: nat,
                   value: map<Node, V>, m: map<Key, V>)
    requires nbuckets > 0 && Taking(next, head, s, node, rest, i, nbuckets, value, m)
    ensures node in next && rest != [] && rest[0] == node && Bucket(node.hash, nbuckets) == i
    ensures Taking(next[node := head], node, [node] + s, next[node], rest[1..], i, nbuckets, value, m)
  {
    HeadApart(rest);
    assert node in rest && node.key in KeysOf(rest);
    assert node !in s;
    ChainFrame(next, head, s, node, head);
    ChainFrame(next, next[node], rest[1..], node, head);
    KeysCons(node, s);
    assert rest == [node] + rest[1..];
    KeysCons(node, rest[1..]);
    assert ([node] + s)[1..] == s;
    assert forall n :: n in rest[1..] ==> n in rest;
    KeyApart(rest);
  }

  lemma KeyApart(s: seq<Node>)
    requires s != [] && DistinctKeys(s)
    ensures s[0].key !in KeysOf(s[1..])
  {}

  lemma DoneTaking<V>(next: Links, head: Node?, s: seq<Node>, rest: seq<Node>, i: nat, nbuckets: nat,
                      value: map<Node, V>, m: map<Key, V>)
    requires nbuckets > 0 && Taking(next, head, s, null, rest, i, nbuckets, value, m)
    ensures Taken(next, head, s, i, nbuckets, value, m)
  {}

  /** The chains not yet taken are not disturbed by taking a node of another bucket. */
  ghost predicate Untouched(next: Links, buckets: seq<Node?>, chains: seq<seq<Node>>, i: nat)
    requires i <= |buckets| == |chains|
  {
    forall b :: 0 <= b < i ==> BucketOk(next, buckets[b], chains[b], b, |buckets|)
  }

  lemma StayUntouched(next: Links, buckets: seq<Node?>, chains: seq<seq<Node>>, i: nat, x: Node, y: Node?)
    requires i < |buckets| == |chains| && Untouched(next, buckets, chains, i) && Bucket(x.hash, |buckets|) == i
    ensures Untouched(next[x := y], buckets, chains, i)
  {
    forall b | 0 <= b < i ensures BucketOk(next[x := y], buckets[b], chains[b], b, |buckets|) {
      OtherBucket(next, buckets[b], chains[b], b, |buckets|, x, y);
    }
  }

  lemma NothingTaken<V>(next: Links, buckets: seq<Node?>, chains: seq<seq<Node>>, value: map<Node, V>, m: map<Key, V>)
    requires |buckets| > 0 && PowerOfTwo(|buckets|) && Shape(next, buckets, chains)
    ensures |chains| == |buckets| && Untouched(next, buckets, chains, |buckets|)
    ensures Taken(next, null, [], |buckets|, |buckets|, value, m)
  {
    forall k: Key ensures Bucket(Hash(k), |buckets|) < |buckets| { BucketIsMod(Hash(k), |buckets|); }
  }

  lemma AllTaken<V>(next: Links, head: Node?, s: seq<Node>, nbuckets: nat, value: map<Node, V>, m: map<Key, V>)
    requires nbuckets > 0 && Taken(next, head, s, 0, nbuckets, value, m)
    ensures Chain(next, head, s) && DistinctKeys(s) && Hashed(s) && Holds(s, value, m)
    ensures forall k :: k in m ==> k in KeysOf(s)
  {}

  lemma EmptyShape(next: Links, n: nat)
    requires n > 0
    ensures Shape(next, seq(n, _ => null), seq(n, _ => []))
  {}

  lemma EmptyHold<V>(n: nat, value: map<Node, V>, m: map<Key, V>)
    ensures AllHold(seq(n, _ => []), value, m)
  {}

  lemma EmptyShared<V>(n: nat, all: seq<Node>, m: map<Key, V>)
    requires n > 0 && PowerOfTwo(n) && forall k :: k in m ==> k in KeysOf(all)
    ensures Shared(seq(n, _ => []), all, m)
  {
    var empty: seq<seq<Node>> := seq(n, _ => []);
    forall k: Key ensures Home(empty, k) == [] { BucketIsMod(Hash(k), n); }
  }

  lemma HeadUnshared<V>(chains: seq<seq<Node>>, rest: seq<Node>, m: map<Key, V>)
    requires |chains| > 0 && PowerOfTwo(|chains|) && Shared(chains, rest, m) && rest != []
    ensures rest[0].key !in KeysOf(Home(chains, rest[0].key))
  {}

  lemma HeadApart(s: seq<Node>)
    requires s != [] && DistinctKeys(s)
    ensures s[0] !in s[1..] && DistinctKeys(s[1..])
  {}

  lemma NothingLeft<V>(chains: seq<seq<Node>>, m: map<Key, V>)
    requires |chains| > 0 && PowerOfTwo(|chains|) && Shared(chains, [], m)
    ensures Complete(chains, m)
  {}

  function Plus<V>(m: map<Key, V>, key: Key, v: V): map<Key, V>
  {
    m[key := v]
  }

  lemma PlusIs<V>(m: map<Key, V>, key: Key, v: V)
    ensures Plus(m, key, v) == m[key := v]
  {}

  lemma NoNodes<V>(next: Links, value: map<Node, V>, chains: seq<seq<Node>>, m: map<Key, V>)
    requires chains == [] && Complete(chains, m)
    ensures Chain(next, null, []) && DistinctKeys([]) && Hashed([]) && Holds([], value, m)
    ensures m == map[]
  {}

  lemma Positive(n: nat)
    requires PowerOfTwo(n)
    ensures n > 0
  {}

  lemma NextSize(n: nat)
    requires n > 0 ==> PowerOfTwo(n)
    ensures PowerOfTwo(if n > 0 then n * 2 else 1)
  {
    if n > 0 {
      var k: nat :| n == Pow2(k);
      assert n * 2 == Pow2(k + 1);
    } else {
      assert 1 == Pow2(0);
    }
  }

  /** Overwriting the value of a stored key changes that key of the map and nothing else. */
  lemma ReplaceValue<V>(next: Links, buckets: seq<Node?>, chains: seq<seq<Node>>, value: map<Node, V>, m: map<Key, V>,
                        b: nat, i: nat, v: V)
    requires |chains| > 0 && PowerOfTwo(|chains|) && Shape(next, buckets, chains)
    requires AllHold(chains, value, m) && Complete(chains, m) && b < |chains| && i < |chains[b]|
    ensures var n := chains[b][i];
      && n.key in m && |Plus(m, n.key, v)| == |m|
      && AllHold(chains, value[n := v], Plus(m, n.key, v)) && Complete(chains, Plus(m, n.key, v))
  {}

  /** A new node for a key that is not stored. */
  lemma AddFresh<V>(chains: seq<seq<Node>>, value: map<Node, V>, m: map<Key, V>, node: Node, v: V)
    requires |chains| > 0 && PowerOfTwo(|chains|) && AllHold(chains, value, m) && Complete(chains, m)
    requires node.key !in m && node.hash == Hash(node.key)
    ensures node.key !in KeysOf(Home(chains, node.key))
    ensures |Plus(m, node.key, v)| == |m| + 1
    ensures var b := Bucket(node.hash, |chains|);
      b < |chains| && var chains' := chains[b := [node] + chains[b]];
      AllHold(chains', value[node := v], Plus(m, node.key, v)) && Complete(chains', Plus(m, node.key, v))
  {
    BucketIsMod(node.hash, |chains|);
    var b := Bucket(node.hash, |chains|);
    var chains' := chains[b := [node] + chains[b]];
    KeysCons(node, chains[b]);
    forall c: nat | c < |chains|
      ensures node.key !in KeysOf(chains[c]) && Holds(chains'[c], value[node := v], Plus(m, node.key, v))
    {
      assert Holds(chains[c], value, m);
    }
    forall k | k in Plus(m, node.key, v) ensures k in KeysOf(Home(chains', k)) {
      BucketIsMod(Hash(k), |chains|);
      if k != node.key { assert k in KeysOf(Home(chains, k)); }
    }
  }

  // --- iteration ---

  /** All nodes in the order of the buckets and, inside a bucket, of the chain. */
  ghost function Flat(chains: seq<seq<Node>>): seq<Node>
  {
    if chains == [] then [] else chains[0] + Flat(chains[1..])
  }

  ghost function Offset(chains: seq<seq<Node>>, b: nat): nat
    requires b <= |chains|
  {
    if b == 0 then 0 else |chains[0]| + Offset(chains[1..], b - 1)
  }

  lemma {:induction false} FlatAt(chains: seq<seq<Node>>, b: nat, j: nat)
    requires b < |chains| && j < |chains[b]|
    ensures Offset(chains, b) + j < |Flat(chains)| && Flat(chains)[Offset(chains, b) + j] == chains[b][j]
  {
    if b > 0 { FlatAt(chains[1..], b - 1, j); }
  }

  lemma {:induction false} OffsetNext(chains: seq<seq<Node>>, b: nat)
    requires b < |chains|
    ensures Offset(chains, b + 1) == Offset(chains, b) + |chains[b]|
  {
    if b > 0 { OffsetNext(chains[1..], b - 1); }
  }

  lemma {:induction false} OffsetEnd(chains: seq<seq<Node>>)
    ensures Offset(chains, |chains|) == |Flat(chains)|
  {
    if chains != [] { OffsetEnd(chains[1..]); }
  }

  lemma {:induction false} FlatFrom(chains: seq<seq<Node>>, n: Node) returns (b: nat)
    requires n in Flat(chains)
    ensures b < |chains| && n in chains[b]
  {
    if n in chains[0] {
      b := 0;
    } else {
      b := FlatFrom(chains[1..], n);
      b := b + 1;
    }
  }

  lemma {:induction false} FlatHas(chains: seq<seq<Node>>, b: nat, n: Node)
    requires b < |chains| && n in chains[b]
    ensures n in Flat(chains)
  {
    if b > 0 { FlatHas(chains[1..], b - 1, n); }
  }

  ghost predicate Apart(chains: seq<seq<Node>>)
  {
    && (forall b :: 0 <= b < |chains| ==> DistinctKeys(chains[b]))
    && forall b, c :: 0 <= b < c < |chains| ==> KeysOf(chains[b]) !! KeysOf(chains[c])
  }

  lemma {:induction false} FlatDistinct(chains: seq<seq<Node>>)
    requires Apart(chains)
    ensures DistinctKeys(Flat(chains))
  {
    if chains != [] {
      var rest := chains[1..];
      assert forall b :: 0 <= b < |rest| ==> rest[b] == chains[b + 1];
      FlatDistinct(rest);
      forall n, m: Node | n in chains[0] && m in Flat(rest) ensures n.key != m.key {
        var b := FlatFrom(rest, m);
        InKeys(rest[b], m);
        InKeys(chains[0], n);
      }
    }
  }

  /** The iteration order names every stored key exactly once. */
  lemma FlatExact<V>(next: Links, buckets: seq<Node?>, chains: seq<seq<Node>>, value: map<Node, V>, m: map<Key, V>)
    requires Shape(next, buckets, chains) && (|chains| > 0 ==> PowerOfTwo(|chains|))
    requires AllHold(chains, value, m) && Complete(chains, m)
    ensures DistinctKeys(Flat(chains))
    ensures KeysOf(Flat(chains)) == m.Keys
  {
    hide Flat, Chain, Hash, DistinctKeys, PowerOfTwo;
    forall b, c | 0 <= b < c < |chains| ensures KeysOf(chains[b]) !! KeysOf(chains[c]) {
      ShapeAt(next, buckets, chains, b);
      ShapeAt(next, buckets, chains, c);
    }
    forall b | 0 <= b < |chains| ensures DistinctKeys(chains[b]) { ShapeAt(next, buckets, chains, b); }
    FlatDistinct(chains);
    forall k | k in KeysOf(Flat(chains)) ensures k in m {
      var i :| 0 <= i < |Flat(chains)| && Flat(chains)[i].key == k;
      var b := FlatFrom(chains, Flat(chains)[i]);
      assert Holds(chains[b], value, m);
    }
    forall k | k in m ensures k in KeysOf(Flat(chains)) {
      var b, n := HomeOf(chains, m, k);
      FlatHas(chains, b, n);
      InKeys(Flat(chains), n);
    }
  }

  lemma HomeOf<V>(chains: seq<seq<Node>>, m: map<Key, V>, k: Key) returns (b: nat, n: Node)
    requires (|chains| > 0 ==> PowerOfTwo(|chains|)) && Complete(chains, m) && k in m
    ensures b < |chains| && n in chains[b] && n.key == k
  {
    BucketIsMod(Hash(k), |chains|);
    b := Bucket(Hash(k), |chains|);
    assert k in KeysOf(Home(chains, k));
    var j :| 0 <= j < |chains[b]| && chains[b][j].key == k;
    n := chains[b][j];
  }

  lemma HeadOf(next: Links, buckets: seq<Node?>, chains: seq<seq<Node>>, b: nat, j: nat)
    requires Shape(next, buckets, chains) && b < |buckets| == |chains| && j <= |chains[b]|
    ensures j > 0 ==> chains[b][j - 1] in next
    ensures (if j == 0 then buckets[b] else next[chains[b][j - 1]]) == if j == |chains[b]| then null else chains[b][j]
  {
    ChainAt(next, buckets[b], chains[b], j);
  }

  lemma OffsetNone(chains: seq<seq<Node>>)
    ensures Offset(chains, 0) == 0
  {}

  /** `c_dict_iter_`: the bucket index starts one before the first, wrapped. */
  class Iter {
    var bucketidx: nat
    var node: Node?
    ghost var j: nat

    constructor ()
      ensures bucketidx == WORD32 - 1 && node == null
    {
      bucketidx, node, j := WORD32 - 1, null, 0;
    }

    /** The iterator has returned the first `p` nodes of the iteration order. */
    ghost predicate At(chains: seq<seq<Node>>, p: nat)
      reads this
    {
      if node == null then p == 0 && bucketidx == WORD32 - 1
      else bucketidx < |chains| && j < |chains[bucketidx]| && chains[bucketidx][j] == node
           && p == Offset(chains, bucketidx) + j + 1
    }
  }

  class Dict<V> {
    var buckets: seq<Node?>
    var nnodes: nat
    var next: Links
    var value: map<Node, V>
    ghost var chains: seq<seq<Node>>
    ghost var M: map<Key, V>

    /** The table represents exactly the finite map `M`. */
    ghost predicate Valid()
      reads this
    {
      && |chains| == |buckets| && Shape(next, buckets, chains)
      && (|chains| > 0 ==> PowerOfTwo(|chains|))
      && AllHold(chains, value, M) && Complete(chains, M)
      && nnodes == |M| <= |buckets|
    }

    /** `c_dict_init`: all zero. */
    constructor ()
      ensures Valid() && M == map[]
    {
      buckets, nnodes, next, value, chains, M := [], 0, map[], map[], [], map[];
    }

    /** `c_dict_addnode`: push to the front of its bucket. */
    method AddNode(node: Node)
      requires |buckets| > 0 && PowerOfTwo(|buckets|) && |chains| == |buckets| && Shape(next, buckets, chains)
      requires node.hash == Hash(node.key) && node.key !in KeysOf(Home(chains, node.key))
      modifies this`next, this`buckets, this`chains
      ensures |chains| == |buckets| == old(|buckets|) && Shape(next, buckets, chains)
      ensures var b := Bucket(node.hash, |buckets|);
        && b < |buckets| && chains == old(chains)[b := [node] + old(chains)[b]]
        && next == old(next)[node := old(buckets)[b]]
    {
      hide Shape, PowerOfTwo, Hash, KeysOf, Home, Bucket;
      AddShape(next, buckets, chains, node);
      var n := Bucket(node.hash, |buckets|);
      next := next[node := buckets[n]];
      buckets := buckets[n := node];
      chains := chains[n := [node] + chains[n]];
    }

    /** `c_dict_getref`: the pointer that points at the node of the key, or null exactly when the key
        is not in the map. */
    method GetRef(key: Key) returns (r: Ref, node: Node?, ghost b: nat, ghost i: nat)
      requires Valid()
      ensures r == Null <==> key !in M
      ensures r == Null <==> node == null
      ensures r.Slot? ==> r.bucket < |buckets|
      ensures r != Null ==>
        b < |chains| && i < |chains[b]| && chains[b][i] == node && node.key == key && r == RefAt(chains, b, i)
    {
      hide Shape, AllHold, Complete, PowerOfTwo, DistinctKeys, KeysOf, Chain, Hash, Bucket;
      var hash := ComputeHash(key);
      r, node, b, i := Null, null, 0, 0;
      if |buckets| > 0 {
        BucketIsMod(hash, |buckets|);
        var n := Bucket(hash, |buckets|);
        ShapeAt(next, buckets, chains, n);
        b := n;
        r, node := Slot(n), buckets[n];
        ChainAt(next, buckets[b], chains[b], 0);
        while node != null
          invariant i <= |chains[b]| && r == RefAt(chains, b, i) && (r.Slot? ==> r.bucket == b)
          invariant node == if i == |chains[b]| then null else chains[b][i]
          invariant forall j :: 0 <= j < i ==> chains[b][j].key != key
          decreases |chains[b]| - i
        {
          if node.hash == hash && node.key == key {
            StoredKey(chains, value, M, b, i);
            return;
          }
          ChainAt(next, buckets[b], chains[b], i + 1);
          r, node := NextOf(node), next[node];
          i := i + 1;
        }
        r := Null;
        AbsentKey(chains, M, key, b);
      } else {
        AbsentKey(chains, M, key, 0);
      }
    }

    /** `c_dict_get_`. */
    method Get(key: Key) returns (found: Option<V>)
      requires Valid()
      ensures found == if key in M then Some(M[key]) else None
    {
      hide Shape, AllHold, Complete, PowerOfTwo;
      var r, node, b, i := GetRef(key);
      if r == Null {
        return None;
      }
      StoredKey(chains, value, M, b, i);
      found := Some(value[node]);
    }

    /** `c_dict_remove_`: the pointer found is redirected past the node, wherever it is stored. */
    method Remove(key: Key)
      requires Valid()
      modifies this
      ensures Valid() && M == old(M) - {key}
    {
      hide Shape, AllHold, Complete, PowerOfTwo, DistinctKeys, KeysOf, BucketOk, Chain, Hash, Cut, RefAt, PutLinks,
           PutBuckets, Minus;
      MinusIs(M, key);
      var r, node, b, i := GetRef(key);
      if r == Null {
        MinusAbsent(M, key);
        return;
      }
      KeyInOneBucket(next, buckets, chains, b, node);
      UnlinkShape(next, buckets, chains, b, i);
      DropKeyFromMap(chains, value, M, b, i);
      PutSize(buckets, r, next[node]);
      Redirect(r, next[node]);
      nnodes := nnodes - 1;
      chains, M := chains[b := Cut(chains[b], i)], Minus(M, key);
    }

    /** `*ref = n`. */
    method Redirect(r: Ref, n: Node?)
      requires r.Slot? ==> r.bucket < |buckets|
      modifies this`buckets, this`next
      ensures buckets == PutBuckets(old(buckets), r, n) && next == PutLinks(old(next), r, n)
    {
      match r
      case Null =>
      case Slot(b) => buckets := buckets[b := n];
      case NextOf(p) => next := next[p := n];
    }

    /** First half of `c_dict_resize`: chain all nodes together, the buckets from last to first. */
    method Gather() returns (nodes: Node?, ghost all: seq<Node>)
      requires |buckets| > 0 && Valid()
      modifies this`next
      ensures Chain(next, nodes, all) && DistinctKeys(all) && Hashed(all) && Holds(all, value, M)
      ensures forall k :: k in M ==> k in KeysOf(all)
    {
      hide Shape, AllHold, Complete, PowerOfTwo, Taken, Taking, Untouched, Hash, Bucket, KeysOf, Chain;
      var i := |buckets|;
      nodes, all := null, [];
      NothingTaken(next, buckets, chains, value, M);
      while i > 0
        invariant 0 <= i <= |buckets|
        invariant Taken(next, nodes, all, i, |buckets|, value, M) && Untouched(next, buckets, chains, i)
      {
        i := i - 1;
        var node := buckets[i];
        ghost var rest := chains[i];
        StartTaking(next, buckets, chains, nodes, all, i, value, M);
        while node != null
          invariant Taking(next, nodes, all, node, rest, i, |buckets|, value, M) && Untouched(next, buckets, chains, i)
          decreases |rest|
        {
          TakeOne(next, nodes, all, node, rest, i, |buckets|, value, M);
          StayUntouched(next, buckets, chains, i, node, nodes);
          var after := next[node];
          next := next[node := nodes];
          all, rest := [node] + all, rest[1..];
          nodes := node;
          node := after;
        }
        DoneTaking(next, nodes, all, rest, i, |buckets|, value, M);
      }
      AllTaken(next, nodes, all, |buckets|, value, M);
    }

    /** Second half of `c_dict_resize`: empty the buckets and push every gathered node. */
    method Scatter(nodes: Node?, ghost all: seq<Node>)
      requires |buckets| > 0 && PowerOfTwo(|buckets|)
      requires Chain(next, nodes, all) && DistinctKeys(all) && Hashed(all) && Holds(all, value, M)
      requires forall k :: k in M ==> k in KeysOf(all)
      modifies this`next, this`buckets, this`chains
      ensures |chains| == |buckets| == old(|buckets|) && Shape(next, buckets, chains)
      ensures AllHold(chains, value, M) && Complete(chains, M)
    {
      hide Hash, Home, Bucket, KeysOf;
      buckets := seq(|buckets|, _ => null);
      chains := seq(|buckets|, _ => []);
      EmptyShape(next, |buckets|);
      EmptyShared(|buckets|, all, M);
      hide Shape, Shared, AllHold, PowerOfTwo;
      assert AllHold(chains, value, M) by { EmptyHold(|buckets|, value, M); }
      var node := nodes;
      ghost var rest := all;
      while node != null
        invariant |buckets| == |chains| == old(|buckets|) && Shape(next, buckets, chains) && AllHold(chains, value, M)
        invariant Chain(next, node, rest) && DistinctKeys(rest) && Hashed(rest) && Holds(rest, value, M)
        invariant Shared(chains, rest, M)
        decreases |rest|
      {
        var after := next[node];
        HeadUnshared(chains, rest, M);
        ShareOne(chains, rest, M);
        HoldOne(chains, value, M, Bucket(node.hash, |chains|), node);
        ghost var before := next;
        AddNode(node);
        HeadApart(rest);
        ChainFrame(before, after, rest[1..], node, next[node]);
        node, rest := after, rest[1..];
      }
      NothingLeft(chains, M);
    }

    /** `c_dict_resize`: whether or not `realloc` grants the new array, every node ends up in the bucket
        its hash belongs to and the map is unchanged; a refusal leaves the old number of buckets. */
    method Resize(n: nat, granted: bool) returns (err: int)
      requires Valid() && PowerOfTwo(n) && nnodes <= n
      modifies this`next, this`buckets, this`chains
      ensures Valid()
      ensures |buckets| == if granted then n else old(|buckets|)
      ensures err == if granted then 0 else -1
    {
      hide Shape, AllHold, Complete, PowerOfTwo, Hash, Bucket, KeysOf, Chain, DistinctKeys, Hashed, Holds;
      var nodes: Node? := null;
      ghost var all: seq<Node> := [];
      if |buckets| > 0 {
        nodes, all := Gather();
      } else {
        NoNodes(next, value, chains, M);
      }
      if granted {
        Positive(n);
        buckets := seq(n, _ => null);
      }
      if |buckets| > 0 {
        Scatter(nodes, all);
      }
      err := if granted then 0 else -1;
    }

    /** `c_dict_set_`: replaces the value in place, or adds a node after doubling a full table.
        `room` and `tableRoom` are the answers of `malloc` and `realloc`. */
    method Set(key: Key, v: V, room: bool, tableRoom: bool) returns (err: int)
      requires Valid()
      modifies this
      ensures Valid()
      ensures err == 0 <==> key in old(M) || (room && (old(nnodes) < old(|buckets|) || tableRoom))
      ensures M == if err == 0 then old(M)[key := v] else old(M)
    {
      hide Shape, AllHold, Complete, PowerOfTwo, Hash, Bucket, KeysOf, Chain, DistinctKeys, Holds, Plus;
      PlusIs(M, key, v);
      var r, found, b, i := GetRef(key);
      if r != Null {
        ReplaceValue(next, buckets, chains, value, M, b, i, v);
        value, M := value[found := v], Plus(M, key, v);
        return 0;
      }
      if !room {
        return -1;
      }
      var hash := ComputeHash(key);
      var node := new Node(hash, key);
      if nnodes >= |buckets| {
        var n := if |buckets| > 0 then |buckets| * 2 else 1;
        NextSize(|buckets|);
        err := Resize(n, tableRoom);
        if err != 0 {
          return -1;
        }
      }
      AddFresh(chains, value, M, node, v);
      AddNode(node);
      nnodes := nnodes + 1;
      value, M := value[node := v], Plus(M, key, v);
      err := 0;
    }

    /** `c_dict_next_`: the key after the ones already returned, and null exactly when all have been. */
    method Next(iter: Iter, ghost p: nat) returns (key: Option<Key>)
      requires Valid() && |buckets| < WORD32 - 1 && iter.At(chains, p)
      modifies iter
      ensures p < |Flat(chains)| ==> key == Some(Flat(chains)[p].key) && iter.At(chains, p + 1)
      ensures p >= |Flat(chains)| ==> key == None && iter.node == null
    {
      hide Shape, AllHold, Complete, PowerOfTwo, Flat, Offset, Chain, BucketOk, Hash, Bucket;
      if iter.node != null {
        HeadOf(next, buckets, chains, iter.bucketidx, iter.j + 1);
        iter.node := next[iter.node];
        iter.j := iter.j + 1;
        if iter.node != null {
          FlatAt(chains, iter.bucketidx, iter.j);
          return Some(iter.node.key);
        }
        OffsetNext(chains, iter.bucketidx);
      } else {
        OffsetNone(chains);
      }
      key := NextBucket(iter, p);
    }

    /** The second half of `c_dict_next_`: on to the head of the next bucket that has one. */
    method NextBucket(iter: Iter, ghost p: nat) returns (key: Option<Key>)
      requires Valid() && |buckets| < WORD32 - 1 && iter.node == null
      requires (iter.bucketidx < |buckets| || iter.bucketidx == WORD32 - 1)
      requires (iter.bucketidx + 1) % WORD32 <= |chains| && p == Offset(chains, (iter.bucketidx + 1) % WORD32)
      modifies iter
      ensures p < |Flat(chains)| ==> key == Some(Flat(chains)[p].key) && iter.At(chains, p + 1)
      ensures p >= |Flat(chains)| ==> key == None && iter.node == null
    {
      hide Shape, AllHold, Complete, PowerOfTwo, Flat, Offset, Chain, BucketOk, Hash, Bucket;
      while true
        invariant iter.node == null && (iter.bucketidx < |buckets| || iter.bucketidx == WORD32 - 1)
        invariant p == Offset(chains, (iter.bucketidx + 1) % WORD32)
        decreases |buckets| - (iter.bucketidx + 1) % WORD32
      {
        iter.bucketidx := (iter.bucketidx + 1) % WORD32;
        if iter.bucketidx >= |buckets| {
          OffsetEnd(chains);
          return None;
        }
        HeadOf(next, buckets, chains, iter.bucketidx, 0);
        iter.node := buckets[iter.bucketidx];
        iter.j := 0;
        if iter.node != null {
          break;
        }
        OffsetNext(chains, iter.bucketidx);
      }
      FlatAt(chains, iter.bucketidx, 0);
      return Some(iter.node.key);
    }

    /** A full iteration over an unchanged table: every key exactly once, in a finite number of calls. */
    method Keys() returns (keys: seq<Key>)
      requires Valid() && |buckets| < WORD32 - 1
      ensures |keys| == |Flat(chains)| && forall i :: 0 <= i < |keys| ==> keys[i] == Flat(chains)[i].key
      ensures DistinctKeys(Flat(chains)) && KeysOf(Flat(chains)) == M.Keys
    {
      hide Shape, AllHold, Complete, PowerOfTwo, Flat, Offset, DistinctKeys, KeysOf;
      FlatExact(next, buckets, chains, value, M);
      var iter := new Iter();
      keys := [];
      var key := Next(iter, 0);
      while key.Some?
        invariant |keys| <= |Flat(chains)| && forall i :: 0 <= i < |keys| ==> keys[i] == Flat(chains)[i].key
        invariant if key.Some? then |keys| < |Flat(chains)| && key.value == Flat(chains)[|keys|].key
          && iter.At(chains, |keys| + 1)
                  else |keys| == |Flat(chains)|
        decreases |Flat(chains)| - |keys|, key.Some?
      {
        keys := keys + [key.value];
        key := Next(iter, |keys|);
      }
    }
  }
}
