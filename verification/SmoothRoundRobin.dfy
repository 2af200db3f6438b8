/** Smooth weighted round robin on plain weight vectors: what one group of peers does while every
    peer is eligible and at its configured weight. */
module SmoothRoundRobin {

  type Weights = seq<nat>

  function Sum(s: seq<int>): int
  {
    if s == [] then 0 else s[0] + Sum(s[1..])
  }

  function Count(s: seq<int>, i: int): nat
  {
    if s == [] then 0 else Count(s[..|s| - 1], i) + if s[|s| - 1] == i then 1 else 0
  }

  /** The first index of a largest value. */
  function ArgMax(s: seq<int>): (b: nat)
    requires s != []
    ensures b < |s|
    ensures forall i :: 0 <= i < |s| ==> s[i] <= s[b]
    ensures forall i :: 0 <= i < b ==> s[i] < s[b]
  {
    if |s| == 1 then 0
    else
      var b := ArgMax(s[..|s| - 1]);
      if s[|s| - 1] > s[b] then |s| - 1 else b
  }

  function Raise(c: seq<int>, w: Weights): seq<int>
    requires |c| == |w|
  {
    seq(|c|, i requires 0 <= i < |c| => c[i] + w[i])
  }

  /** One pick: everyone gains its weight, the first of the heaviest is taken and pays the total. */
  function Pick(c: seq<int>, w: Weights): nat
    requires |c| == |w| > 0
  {
    ArgMax(Raise(c, w))
  }

  function After(c: seq<int>, w: Weights): (r: seq<int>)
    requires |c| == |w| > 0
    ensures |r| == |w|
  {
    var r := Raise(c, w);
    r[Pick(c, w) := r[Pick(c, w)] - Sum(w)]
  }

  function Zeros(n: nat): seq<int>
  {
    seq(n, _ => 0)
  }

  /** The state and the picks after `k` rounds from `c`. */
  function Rounds(c: seq<int>, w: Weights, k: nat): (r: seq<int>)
    requires |c| == |w| > 0
    ensures |r| == |w|
  {
    if k == 0 then c else After(Rounds(c, w, k - 1), w)
  }

  function Picks(c: seq<int>, w: Weights, k: nat): (r: seq<nat>)
    requires |c| == |w| > 0
    ensures |r| == k && forall i :: 0 <= i < k ==> r[i] < |w|
  {
    if k == 0 then [] else Picks(c, w, k - 1) + [Pick(Rounds(c, w, k - 1), w)]
  }

  lemma {:induction false} SumUpdate(s: seq<int>, i: nat, v: int)
    requires i < |s|
    ensures Sum(s[i := v]) == Sum(s) - s[i] + v
  {
    if i == 0 {
      assert s[i := v][1..] == s[1..];
    } else {
      assert s[i := v][1..] == s[1..][i - 1 := v];
      SumUpdate(s[1..], i - 1, v);
    }
  }

  lemma {:induction false} SumRaise(c: seq<int>, w: Weights)
    requires |c| == |w|
    ensures Sum(Raise(c, w)) == Sum(c) + Sum(w)
  {
    if c != [] {
      assert Raise(c, w)[1..] == Raise(c[1..], w[1..]);
      SumRaise(c[1..], w[1..]);
    }
  }

  lemma {:induction false} SumAtMost(s: seq<int>, m: int)
    requires forall i :: 0 <= i < |s| ==> s[i] <= m
    ensures Sum(s) <= m * |s|
  {
    if s != [] {
      SumAtMost(s[1..], m);
    }
  }

  /** Every round moves weight around without creating any, and nobody sinks to minus the total. */
  lemma AfterConserves(c: seq<int>, w: Weights)
    requires |c| == |w| > 0 && Sum(c) == 0 && Sum(w) > 0
    requires forall i :: 0 <= i < |c| ==> c[i] > -Sum(w)
    ensures Sum(After(c, w)) == 0
    ensures forall i :: 0 <= i < |c| ==> After(c, w)[i] > -Sum(w)
  {
    var r, b := Raise(c, w), Pick(c, w);
    SumRaise(c, w);
    SumUpdate(r, b, r[b] - Sum(w));
    HeaviestIsPositive(r);
    hide Sum, ArgMax;
    assert After(c, w) == r[b := r[b] - Sum(w)];
  }

  lemma HeaviestIsPositive(s: seq<int>)
    requires s != [] && Sum(s) > 0
    ensures s[ArgMax(s)] > 0
  {}

  /** Products of two unknowns, kept apart from the solver's arithmetic. */
  function Times(a: int, b: int): int
  {
    a * b
  }

  lemma TimesStep(a: int, b: int)
    ensures Times(a, 0) == 0 == Times(0, a)
    ensures Times(a, b + 1) == Times(a, b) + a
    ensures Times(b + 1, a) == Times(b, a) + a
  {}

  predicate Balanced(c: seq<int>, w: Weights, k: nat, p: seq<nat>)
    requires |c| == |w|
  {
    && Sum(c) == 0
    && forall i :: 0 <= i < |w| ==> c[i] > -Sum(w) && c[i] == Times(k, w[i]) - Times(Sum(w), Count(p, i))
  }

  lemma BalanceStep(c: seq<int>, w: Weights, k: nat, p: seq<nat>)
    requires |c| == |w| > 0 && Sum(w) > 0 && Balanced(c, w, k, p)
    ensures Balanced(After(c, w), w, k + 1, p + [Pick(c, w)])
  {
    hide Times, Sum, Count, Pick, After;
    AfterConserves(c, w);
    forall i | 0 <= i < |w|
      ensures After(c, w)[i] == Times(k + 1, w[i]) - Times(Sum(w), Count(p + [Pick(c, w)], i))
    {
      AfterAt(c, w, i);
      TimesStep(w[i], k);
      TimesStep(Sum(w), Count(p, i));
      CountSnoc(p, Pick(c, w), i);
    }
  }

  lemma AtRestBalanced(w: Weights)
    requires Sum(w) > 0
    ensures Balanced(Zeros(|w|), w, 0, [])
  {
    SumOfZeros(|w|);
  }

  /** The ledger: after `k` rounds from rest nothing was created or lost, nobody sank to minus the
      total, and every peer holds what it earned minus what its picks cost. */
  lemma {:induction false} Ledger(w: Weights, k: nat)
    requires |w| > 0 && Sum(w) > 0
    ensures Balanced(Rounds(Zeros(|w|), w, k), w, k, Picks(Zeros(|w|), w, k))
  {
    hide Balanced, Sum, After, Pick;
    if k == 0 {
      AtRestBalanced(w);
    } else {
      Ledger(w, k - 1);
      BalanceStep(Rounds(Zeros(|w|), w, k - 1), w, k - 1, Picks(Zeros(|w|), w, k - 1));
    }
  }

  lemma AfterAt(c: seq<int>, w: Weights, i: nat)
    requires |c| == |w| > 0 && i < |w|
    ensures After(c, w)[i] == c[i] + w[i] - if Pick(c, w) == i then Sum(w) else 0
  {}

  lemma CountSnoc(p: seq<nat>, b: nat, i: nat)
    ensures Count(p + [b], i) == Count(p, i) + if b == i then 1 else 0
  {}

  lemma {:induction false} SumOfZeros(n: nat)
    ensures Sum(Zeros(n)) == 0
  {
    if n > 0 {
      assert Zeros(n)[1..] == Zeros(n - 1);
      SumOfZeros(n - 1);
    }
  }

  /** After any number of rounds from rest no peer is a whole pick ahead of its exact share `k * w / W`:
      its picks number at most the share rounded up. */
  lemma NeverAhead(w: Weights, k: nat, i: nat)
    requires i < |w| && Sum(w) > 0
    ensures Sum(w) * Count(Picks(Zeros(|w|), w, k), i) < k * w[i] + Sum(w)
  {
    Ledger(w, k);
    AsTimes(Sum(w), Count(Picks(Zeros(|w|), w, k), i));
    AsTimes(k, w[i]);
    hide Times, Picks, Rounds, Count, Sum;
  }

  lemma AsTimes(a: int, b: int)
    ensures Times(a, b) == a * b
  {}

  // --- exact fairness over one full cycle ---

  function Counts(p: seq<nat>, n: nat): (r: seq<int>)
    ensures |r| == n
  {
    seq(n, i requires 0 <= i < n => Count(p, i))
  }

  lemma {:induction false} CountsAddUp(p: seq<nat>, n: nat)
    requires forall i :: 0 <= i < |p| ==> p[i] < n
    ensures Sum(Counts(p, n)) == |p|
  {
    if p == [] {
      assert Counts(p, n) == Zeros(n);
      SumOfZeros(n);
    } else {
      var q, x := p[..|p| - 1], p[|p| - 1];
      CountsAddUp(q, n);
      assert Counts(p, n) == Counts(q, n)[x := Count(q, x) + 1];
      SumUpdate(Counts(q, n), x, Count(q, x) + 1);
    }
  }

  lemma {:induction false} DominatedAndEqualSum(a: seq<int>, b: seq<int>)
    requires |a| == |b| && Sum(a) == Sum(b)
    requires forall i :: 0 <= i < |a| ==> a[i] <= b[i]
    ensures a == b
  {
    if a != [] {
      SumMonotone(a[1..], b[1..]);
      DominatedAndEqualSum(a[1..], b[1..]);
      assert a == [a[0]] + a[1..] && b == [b[0]] + b[1..];
    }
  }

  lemma {:induction false} SumMonotone(a: seq<int>, b: seq<int>)
    requires |a| == |b| && forall i :: 0 <= i < |a| ==> a[i] <= b[i]
    ensures Sum(a) <= Sum(b)
  {
    if a != [] { SumMonotone(a[1..], b[1..]); }
  }

  lemma TimesMonotone(total: int, a: int, b: int)
    requires total > 0
    ensures a <= b ==> Times(total, a) <= Times(total, b)
  {}

  lemma FewerThanShare(total: int, share: int, n: int)
    requires total > 0 && Times(total, share) - Times(total, n) > -total
    ensures n <= share
  {
    hide Times;
    TimesMonotone(total, share + 1, n);
    TimesStep(total, share);
  }

  /** Exact fairness: as many rounds from rest as the weights add up to give every peer exactly its
      weight in picks and put every current weight back to zero. */
  lemma FullCycle(w: Weights)
    requires |w| > 0 && Sum(w) > 0
    ensures Rounds(Zeros(|w|), w, Sum(w)) == Zeros(|w|)
    ensures forall i :: 0 <= i < |w| ==> Count(Picks(Zeros(|w|), w, Sum(w)), i) == w[i]
  {
    var k := Sum(w);
    Ledger(w, k);
    var p := Picks(Zeros(|w|), w, k);
    forall i | 0 <= i < |w| ensures Counts(p, |w|)[i] <= w[i] {
      hide Times, Sum;
      FewerThanShare(k, w[i], Count(p, i));
    }
    CountsAddUp(p, |w|);
    DominatedAndEqualSum(Counts(p, |w|), w);
    forall i | 0 <= i < |w| ensures Rounds(Zeros(|w|), w, k)[i] == 0 {
      assert Counts(p, |w|)[i] == w[i];
    }
  }

  lemma {:induction false} RoundsAdd(c: seq<int>, w: Weights, j: nat, k: nat)
    requires |c| == |w| > 0
    ensures Rounds(c, w, j + k) == Rounds(Rounds(c, w, j), w, k)
    ensures Picks(c, w, j + k) == Picks(c, w, j) + Picks(Rounds(c, w, j), w, k)
  {
    hide After, Pick;
    if k > 0 {
      RoundsAdd(c, w, j, k - 1);
      assert (j + k) - 1 == j + (k - 1);
    }
  }

  lemma {:induction false} CountAdds(p: seq<nat>, q: seq<nat>, i: nat)
    ensures Count(p + q, i) == Count(p, i) + Count(q, i)
  {
    if q == [] {
      assert p + q == p;
    } else {
      assert (p + q)[..|p + q| - 1] == p + q[..|q| - 1];
      CountAdds(p, q[..|q| - 1], i);
    }
  }

  /** The same holds for every window of that length, wherever it starts: the schedule is periodic. */
  lemma AnyWindow(w: Weights, k: nat, i: nat)
    requires i < |w| && Sum(w) > 0
    ensures Count(Picks(Zeros(|w|), w, k + Sum(w))[k..], i) == w[i]
  {
    hide Picks, Rounds, Count, Sum, Zeros;
    var z, total := Zeros(|w|), Sum(w);
    FullCycle(w);
    RoundsAdd(z, w, total, k);
    RoundsAdd(z, w, k, total);
    var all := Picks(z, w, k + total);
    assert all == Picks(z, w, k) + all[k..];
    CountAdds(Picks(z, w, total), Picks(z, w, k), i);
    CountAdds(Picks(z, w, k), all[k..], i);
  }
}
