/** The record that names a missed write in the local log: its binary head, joined in front of the
    request body, and the reader that takes it apart again. */
module HaBinlog {
  import opened Bytes
  import opened Options
  import opened Words

  // --- little-endian words ---

  function Pow256(k: nat): nat
  {
    if k == 0 then 1 else 0x100 * Pow256(k - 1)
  }

  function Le(n: nat, k: nat): (s: Bytes)
    ensures |s| == k
  {
    if k == 0 then [] else [n % 0x100] + Le(n / 0x100, k - 1)
  }

  function Value(s: Bytes): nat
  {
    if s == [] then 0 else s[0] + 0x100 * Value(s[1..])
  }

  lemma {:induction false} ValueOfLe(n: nat, k: nat)
    requires n < Pow256(k)
    ensures Value(Le(n, k)) == n
  {
    if k > 0 {
      ValueOfLe(n / 0x100, k - 1);
      assert Le(n, k)[1..] == Le(n / 0x100, k - 1);
    }
  }

  // --- the head ---

  /** What a record says; a method without a table has an empty one. `opt` is the byte of a signed value. */
  datatype Head = Head(code: Byte, version: nat, key: Bytes, ttl: nat, tb: Bytes, score: nat, opt: Byte)

  /** Values of the widths the fields have in memory. */
  predicate Fits(h: Head)
  {
    && h.version < WORD32 && |h.key| < WORD32 && h.ttl < WORD32 && |h.tb| < WORD32 && h.score < WORD64
    && HeadLength(h) < WORD32
  }

  function HeadLength(h: Head): nat
  {
    38 + |h.key| + |h.tb|
  }

  /** The checksum; it is a 32-bit word. */
  type Crc = c: Bytes -> nat | forall s :: c(s) < WORD32 witness ((s: Bytes) => 0)

  function Items(h: Head, headLength: nat, hasTable: bool, crc: Crc): (items: seq<Bytes>)
    ensures |items| == 12
  {
    [Le(headLength, 4), [h.code], Le(h.version, 4), Le(|h.key|, 4)]
    + [h.key, Le(crc(h.key), 4), Le(h.ttl, 4), Le(|h.tb|, 4)]
    + [h.tb, Le(if hasTable then crc(h.tb) else 0, 4), Le(h.score, 8), [h.opt]]
  }

  function Flatten(items: seq<Bytes>): Bytes
  {
    if items == [] then [] else Flatten(items[..|items| - 1]) + items[|items| - 1]
  }

  lemma FlattenStep(items: seq<Bytes>, i: nat)
    requires i < |items|
    ensures Flatten(items[..i + 1]) == Flatten(items[..i]) + items[i]
  {
    assert items[..i + 1][..i] == items[..i];
  }

  lemma {:induction false} FlattenConcat(a: seq<Bytes>, b: seq<Bytes>)
    ensures Flatten(a + b) == Flatten(a) + Flatten(b)
  {
    if b == [] {
      assert a + b == a;
    } else {
      var n := |b| - 1;
      FlattenConcat(a, b[..n]);
      assert (a + b)[..|a + b| - 1] == a + b[..n];
    }
  }

  lemma FlattenPrefix(items: seq<Bytes>, i: nat)
    requires i <= |items|
    ensures |Flatten(items[..i])| <= |Flatten(items)|
  {
    FlattenConcat(items[..i], items[i..]);
    assert items[..i] + items[i..] == items;
  }

  lemma FlattenTwo(a: Bytes, b: Bytes)
    ensures Flatten([a, b]) == a + b
  {
    assert [a, b][..1] == [a];
    assert Flatten([a]) == a;
  }

  lemma Flatten4(a: Bytes, b: Bytes, c: Bytes, d: Bytes)
    ensures Flatten([a, b, c, d]) == a + b + c + d
  {
    hide Flatten;
    FlattenTwo(a, b);
    FlattenTwo(c, d);
    FlattenConcat([a, b], [c, d]);
    assert [a, b] + [c, d] == [a, b, c, d];
  }

  /** The three groups of fields: up to the key, up to the table, and the rest. */
  function Prefix(h: Head, headLength: nat): (s: Bytes)
    ensures |s| == 13
  {
    Le(headLength, 4) + [h.code] + Le(h.version, 4) + Le(|h.key|, 4)
  }

  function Middle(h: Head, crc: Crc): (s: Bytes)
    ensures |s| == 12
  {
    Le(crc(h.key), 4) + Le(h.ttl, 4) + Le(|h.tb|, 4)
  }

  function Suffix(h: Head, hasTable: bool, crc: Crc): (s: Bytes)
    ensures |s| == 13
  {
    Le(if hasTable then crc(h.tb) else 0, 4) + Le(h.score, 8) + [h.opt]
  }

  lemma ItemsGrouped(h: Head, headLength: nat, hasTable: bool, crc: Crc)
    ensures Flatten(Items(h, headLength, hasTable, crc))
         == Prefix(h, headLength) + (h.key + (Middle(h, crc) + (h.tb + Suffix(h, hasTable, crc))))
    ensures |Flatten(Items(h, headLength, hasTable, crc))| == HeadLength(h)
  {
    hide Flatten, Le;
    var a := [Le(headLength, 4), [h.code], Le(h.version, 4), Le(|h.key|, 4)];
    var b := [h.key, Le(crc(h.key), 4), Le(h.ttl, 4), Le(|h.tb|, 4)];
    var c := [h.tb, Le(if hasTable then crc(h.tb) else 0, 4), Le(h.score, 8), [h.opt]];
    FlattenConcat(a + b, c);
    FlattenConcat(a, b);
    Flatten4(a[0], a[1], a[2], a[3]);
    Flatten4(b[0], b[1], b[2], b[3]);
    Flatten4(c[0], c[1], c[2], c[3]);
  }

  /** `__encode_head`: one pass adds up the length, the next copies the fields one after another. */
  method EncodeHead(h: Head, hasTable: bool, crc: Crc) returns (buf: array<Byte>, last: nat)
    requires Fits(h)
    ensures fresh(buf) && last == HeadLength(h) && buf.Length == last + 1 && buf[last] == 0
    ensures buf[..last] == Flatten(Items(h, HeadLength(h), hasTable, crc))
  {
    hide Items, Flatten;
    var lengths := Items(h, 0, hasTable, crc);
    var headLength, i := 0, 0;
    assert lengths[..0] == [];
    FlattenNone();
    while i < 12
      invariant 0 <= i <= 12 && headLength == |Flatten(lengths[..i])|
    {
      FlattenStep(lengths, i);
      FlattenPrefix(lengths, i + 1);
      ItemsGrouped(h, 0, hasTable, crc);
      headLength := (headLength + |lengths[i]|) % WORD32;
      i := i + 1;
    }
    assert lengths[..12] == lengths;
    ItemsGrouped(h, 0, hasTable, crc);
    var items := Items(h, headLength, hasTable, crc);
    ItemsGrouped(h, headLength, hasTable, crc);
    buf := new Byte[headLength + 1](_ => 0);
    last, i := 0, 0;
    assert items[..0] == [] && items[..12] == items;
    while i < 12
      invariant 0 <= i <= 12 && last == |Flatten(items[..i])| <= headLength
      invariant buf[..last] == Flatten(items[..i]) && buf[headLength] == 0
    {
      FlattenStep(items, i);
      FlattenPrefix(items, i + 1);
      if |items[i]| > 0 {
        last := Copy(buf, last, items[i]);
      }
      i := i + 1;
    }
  }

  lemma FlattenNone()
    ensures Flatten([]) == []
  {}

  /** `ngx_copy`. */
  method Copy(buf: array<Byte>, at: nat, s: Bytes) returns (last: nat)
    requires at + |s| <= buf.Length
    modifies buf
    ensures last == at + |s| && buf[..last] == old(buf[..at]) + s
    ensures forall i :: last <= i < buf.Length ==> buf[i] == old(buf[i])
  {
    forall i | 0 <= i < |s| {
      buf[at + i] := s[i];
    }
    last := at + |s|;
  }

  // --- reading a record back ---

  /** A reader of records: the fields of the head, checked against its length and checksums, and the
      bytes that follow it. */
  function Decode(s: Bytes, hasTable: bool, crc: Crc): Option<(Head, Bytes)>
  {
    if |s| < 13 then None else
      var keyLength, r := Value(s[9..13]), s[13..];
      if |r| < keyLength + 12 then None else
        var key, m := r[..keyLength], r[keyLength..];
        var tbLength, u := Value(m[8..12]), m[12..];
        if |u| < tbLength + 13 then None else
          var tb, t := u[..tbLength], u[tbLength..];
          var h := Head(s[4], Value(s[5..9]), key, Value(m[4..8]), tb, Value(t[4..12]), t[12]);
          if Value(s[..4]) == HeadLength(h) && Value(m[..4]) == crc(key)
            && Value(t[..4]) == (if hasTable then crc(tb) else 0)
          then Some((h, t[13..])) else None
  }

  lemma Splits(a: Bytes, b: Bytes)
    ensures (a + b)[..|a|] == a && (a + b)[|a|..] == b
  {}

  lemma Widths()
    ensures Pow256(4) == WORD32 && Pow256(8) == WORD64
  {
    assert Pow256(2) == 0x10000;
    assert Pow256(4) == 0x10000 * Pow256(2);
    assert Pow256(6) == 0x10000 * Pow256(4);
  }

  lemma PrefixFields(h: Head, n: nat, rest: Bytes)
    requires Fits(h) && n < WORD32
    ensures var s := Prefix(h, n) + rest;
      && s[13..] == rest && s[4] == h.code
      && Value(s[..4]) == n && Value(s[5..9]) == h.version && Value(s[9..13]) == |h.key|
  {
    hide Value, Le, Pow256;
    Widths();
    ValueOfLe(n, 4);
    ValueOfLe(h.version, 4);
    ValueOfLe(|h.key|, 4);
    var s := Prefix(h, n) + rest;
    assert s[..4] == Le(n, 4) && s[5..9] == Le(h.version, 4) && s[9..13] == Le(|h.key|, 4);
  }

  lemma MiddleFields(h: Head, crc: Crc, rest: Bytes)
    requires Fits(h)
    ensures var m := Middle(h, crc) + rest;
      m[12..] == rest && Value(m[..4]) == crc(h.key) && Value(m[4..8]) == h.ttl && Value(m[8..12]) == |h.tb|
  {
    hide Value, Le, Pow256;
    Widths();
    ValueOfLe(crc(h.key), 4);
    ValueOfLe(h.ttl, 4);
    ValueOfLe(|h.tb|, 4);
    var m := Middle(h, crc) + rest;
    assert m[..4] == Le(crc(h.key), 4) && m[4..8] == Le(h.ttl, 4) && m[8..12] == Le(|h.tb|, 4);
  }

  lemma SuffixFields(h: Head, hasTable: bool, crc: Crc, rest: Bytes)
    requires Fits(h)
    ensures var t := Suffix(h, hasTable, crc) + rest;
      && t[13..] == rest && t[12] == h.opt
      && Value(t[..4]) == (if hasTable then crc(h.tb) else 0) && Value(t[4..12]) == h.score
  {
    hide Value, Le, Pow256;
    Widths();
    ValueOfLe(crc(h.tb), 4);
    ValueOfLe(0, 4);
    ValueOfLe(h.score, 8);
    var t := Suffix(h, hasTable, crc) + rest;
    assert t[..4] == Le(if hasTable then crc(h.tb) else 0, 4) && t[4..12] == Le(h.score, 8);
  }

  /** An encoded head in front of any body decodes to its fields and exactly that body. */
  lemma RoundTrip(h: Head, hasTable: bool, crc: Crc, body: Bytes)
    requires Fits(h)
    ensures Decode(Flatten(Items(h, HeadLength(h), hasTable, crc)) + body, hasTable, crc) == Some((h, body))
  {
    hide Value, Flatten, Items, Prefix, Middle, Suffix;
    var n := HeadLength(h);
    ItemsGrouped(h, n, hasTable, crc);
    var u := h.tb + (Suffix(h, hasTable, crc) + body);
    var r := h.key + (Middle(h, crc) + u);
    var s := Prefix(h, n) + r;
    assert Flatten(Items(h, n, hasTable, crc)) + body == s;
    PrefixFields(h, n, r);
    Splits(h.key, Middle(h, crc) + u);
    MiddleFields(h, crc, u);
    Splits(h.tb, Suffix(h, hasTable, crc) + body);
    SuffixFields(h, hasTable, crc, body);
  }

  // --- the request body ---

  /** A request body: a chain of buffers and the announced length. */
  class Body {
    var bufs: seq<Bytes>
    var contentLength: nat

    /** The length announced is the length received. */
    ghost predicate Valid()
      reads this
    {
      bufs != [] ==> contentLength == |Flatten(bufs)|
    }

    constructor (bufs: seq<Bytes>)
      ensures Valid() && this.bufs == bufs
    {
      this.bufs, contentLength := bufs, |Flatten(bufs)|;
    }

    /** `ngx_http_insert_head_to_body`. */
    method InsertHead(head: Bytes)
      requires Valid()
      modifies this
      ensures Valid() && bufs == [head] + old(bufs)
      ensures Flatten(bufs) == head + Flatten(old(bufs))
    {
      var oldSize := if bufs != [] then contentLength else 0;
      FlattenConcat([head], bufs);
      FlattenStep([head], 0);
      bufs := [head] + bufs;
      contentLength := oldSize + |head|;
    }

    /** `ngx_http_get_request_body`: the chain copied into one buffer. A link as long as the whole body
        starts over, which loses nothing because every other link is then empty. */
    method Get() returns (buf: array<Byte>, last: nat)
      requires Valid() && bufs != []
      ensures fresh(buf) && last <= buf.Length && buf[..last] == Flatten(bufs)
    {
      buf := new Byte[contentLength + 1](_ => 0);
      var start, i := 0, 0;
      last := 0;
      assert bufs[..|bufs|] == bufs;
      while i < |bufs|
        invariant 0 <= i <= |bufs| && start == last == |Flatten(bufs[..i])| <= contentLength
        invariant buf[..last] == Flatten(bufs[..i])
      {
        FlattenStep(bufs, i);
        FlattenPrefix(bufs, i + 1);
        if |bufs[i]| >= contentLength {
          start, last := 0, 0;
        }
        last := Copy(buf, start, bufs[i]);
        start := last;
        i := i + 1;
      }
    }
  }

  /** The bytes handed to the log by `hustdb_ha_write_sync_data`: they decode to the head and to the body
      of the request, if it had one. */
  method SyncRecord(h: Head, hasTable: bool, crc: Crc, body: Body?) returns (buf: array<Byte>, last: nat)
    requires Fits(h) && (body != null ==> body.Valid())
    modifies body
    ensures last <= buf.Length
    ensures Decode(buf[..last], hasTable, crc) == Some((h, if body == null then [] else Flatten(old(body.bufs))))
  {
    hide Decode, Items, Flatten;
    var head, n := EncodeHead(h, hasTable, crc);
    if body == null {
      RoundTrip(h, hasTable, crc, []);
      assert head[..n] + [] == head[..n];
      return head, n;
    }
    RoundTrip(h, hasTable, crc, Flatten(body.bufs));
    body.InsertHead(head[..n]);
    buf, last := body.Get();
  }
}
