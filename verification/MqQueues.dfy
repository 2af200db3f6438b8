/** Intrusive queues of pool records, identified by their index in the pool. */
module MqQueues {

  function One(b: bool): nat
  {
    if b then 1 else 0
  }

  function Occurs(q: seq<nat>, r: nat): nat
  {
    if q == [] then 0 else One(q[0] == r) + Occurs(q[1..], r)
  }

  lemma {:induction false} OccursIn(q: seq<nat>, r: nat)
    ensures Occurs(q, r) > 0 <==> r in q
  {
    if q != [] { OccursIn(q[1..], r); }
  }

  lemma OccursPush(q: seq<nat>, r: nat, x: nat)
    ensures Occurs([r] + q, x) == One(r == x) + Occurs(q, x)
  {}

  predicate Within(q: seq<nat>, n: nat)
  {
    forall i :: 0 <= i < |q| ==> q[i] < n
  }

  /** A queue after `ngx_queue_remove` of one of its records. */
  function Without(q: seq<nat>, r: nat): (w: seq<nat>)
    ensures forall n: nat :: Within(q, n) ==> Within(w, n)
  {
    if q == [] then []
    else
      assert forall n: nat :: Within(q, n) ==> Within(q[1..], n);
      if q[0] == r then q[1..] else [q[0]] + Without(q[1..], r)
  }

  lemma {:induction false} OccursWithout(q: seq<nat>, r: nat, x: nat)
    ensures Occurs(Without(q, r), x) + One(x == r && r in q) == Occurs(q, x)
  {
    if q != [] {
      OccursWithout(q[1..], r, x);
      if q[0] != r { OccursPush(Without(q[1..], r), q[0], x); }
    }
  }

  lemma {:induction false} WithoutAbsent(q: seq<nat>, r: nat)
    requires r !in q
    ensures Without(q, r) == q
  {
    if q != [] { WithoutAbsent(q[1..], r); }
  }

  /** The free queue once a record came back to its head, wherever it was. */
  function Freed(free: seq<nat>, r: nat): seq<nat>
  {
    [r] + Without(free, r)
  }

  lemma FreedIn(free: seq<nat>, r: nat, x: nat)
    ensures x in Freed(free, r) <==> x == r || x in free
  {
    OccursIn(free, x);
    OccursIn(Without(free, r), x);
    OccursWithout(free, r, x);
  }

  /** A record taken out of a queue that held it at most once is gone from it. */
  lemma DropIn(q: seq<nat>, r: nat)
    requires r in q ==> Occurs(q, r) == 1
    ensures forall x :: x in Without(q, r) <==> x in q && x != r
    ensures q == [] ==> Without(q, r) == []
  {
    forall x: nat ensures x in Without(q, r) <==> x in q && x != r {
      OccursIn(q, x);
      OccursIn(Without(q, r), x);
      OccursWithout(q, r, x);
    }
  }

  /** The three queues hold every record of a pool of `n` exactly once. */
  ghost predicate Partition(a: seq<nat>, b: seq<nat>, c: seq<nat>, n: nat)
  {
    forall x: nat :: Occurs(a, x) + Occurs(b, x) + Occurs(c, x) == One(x < n)
  }

  /** Which queue a record is in is settled by any one of them. */
  lemma PartitionIn(a: seq<nat>, b: seq<nat>, c: seq<nat>, n: nat, x: nat)
    requires Partition(a, b, c, n)
    ensures x in a || x in b || x in c <==> x < n
    ensures !(x in a && x in b) && !(x in a && x in c) && !(x in b && x in c)
    ensures x in a ==> Occurs(a, x) == 1
    ensures x in b ==> Occurs(b, x) == 1
  {
    OccursIn(a, x);
    OccursIn(b, x);
    OccursIn(c, x);
  }

  /** Moving a record to the head of one queue, wherever it was, keeps the partition. */
  lemma MoveKeeps(a: seq<nat>, b: seq<nat>, c: seq<nat>, n: nat, r: nat)
    requires Partition(a, b, c, n) && r < n
    ensures Partition([r] + Without(a, r), Without(b, r), Without(c, r), n)
  {
    PartitionIn(a, b, c, n, r);
    forall x: nat
      ensures Occurs([r] + Without(a, r), x) + Occurs(Without(b, r), x) + Occurs(Without(c, r), x) == One(x < n)
    {
      OccursPush(Without(a, r), r, x);
      OccursWithout(a, r, x);
      OccursWithout(b, r, x);
      OccursWithout(c, r, x);
    }
  }

  lemma PartitionTurns(a: seq<nat>, b: seq<nat>, c: seq<nat>, n: nat)
    ensures Partition(a, b, c, n) <==> Partition(b, c, a, n)
    ensures Partition(a, b, c, n) <==> Partition(b, a, c, n)
  {}

  lemma AllocKeeps(from: seq<nat>, to: seq<nat>, other: seq<nat>, n: nat)
    requires Partition(from, to, other, n) && from != []
    ensures Partition(from[1..], [from[0]] + to, other, n)
    ensures from[0] < n && from[0] !in from[1..] && from[0] !in to && from[0] !in other
  {
    hide Partition;
    var r := from[0];
    PartitionIn(from, to, other, n, r);
    OccursIn(from[1..], r);
    PartitionTurns(from, to, other, n);
    MoveKeeps(to, from, other, n, r);
    WithoutAbsent(to, r);
    WithoutAbsent(other, r);
    PartitionTurns([r] + to, from[1..], other, n);
  }

  /** Every record of a pool, as the initial free queue: the last one first. */
  function All(n: nat): (q: seq<nat>)
    ensures Within(q, n)
  {
    if n == 0 then [] else [n - 1] + All(n - 1)
  }

  lemma {:induction false} AllOnce(n: nat, x: nat)
    ensures Occurs(All(n), x) == One(x < n)
  {
    if n > 0 {
      AllOnce(n - 1, x);
      OccursPush(All(n - 1), n - 1, x);
    }
  }

  /** How many of the first `n` records are marked and hold `x`. */
  function Times(marks: seq<bool>, values: seq<nat>, n: nat, x: nat): nat
    requires n <= |marks| == |values|
  {
    if n == 0 then 0 else Times(marks, values, n - 1, x) + One(marks[n - 1] && values[n - 1] == x)
  }

  lemma {:induction false} TimesFrame(marks: seq<bool>, values: seq<nat>, r: nat, m: bool, v: nat, n: nat, x: nat)
    requires n <= |marks| == |values| && r < |marks|
    ensures Times(marks[r := m], values[r := v], n, x) + One(r < n && marks[r] && values[r] == x)
         == Times(marks, values, n, x) + One(r < n && m && v == x)
  {
    if n > 0 { TimesFrame(marks, values, r, m, v, n - 1, x); }
  }

  lemma {:induction false} TimesZero(marks: seq<bool>, values: seq<nat>, n: nat, x: nat)
    requires n <= |marks| == |values|
    ensures Times(marks, values, n, x) == 0 <==> forall r: nat :: r < n && marks[r] ==> values[r] != x
  {
    if n > 0 { TimesZero(marks, values, n - 1, x); }
  }
}
