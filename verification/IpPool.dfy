/** The pool of measured addresses (ippool.go): the best results get integer
    weights and callers are spread over them by a counter.  Durations are whole
    nanoseconds and the floating-point weight is computed over the reals. */
module IpPool {
  import opened Bits
  import opened RoundRobin

  const MIN_WEIGHT: nat := 1
  const MAX_WEIGHT: nat := 10000

  datatype Measured = Measured(ipIndex: nat, latency: nat, loss: real)

  // ----- ranking

  predicate Better(a: Measured, b: Measured) {
    if a.loss != b.loss then a.loss < b.loss else a.latency < b.latency
  }

  predicate Level(a: Measured, b: Measured) {
    a.loss == b.loss && a.latency == b.latency
  }

  function InsertRanked(m: Measured, s: seq<Measured>): seq<Measured> {
    if s == [] || !Better(s[0], m) then [m] + s else [s[0]] + InsertRanked(m, s[1..])
  }

  /** What a stable sort by Better gives. */
  function Ranked(s: seq<Measured>): seq<Measured> {
    if s == [] then [] else InsertRanked(s[0], Ranked(s[1..]))
  }

  /** Less loss, or equal loss and no more latency. */
  ghost predicate NoWorse(a: Measured, b: Measured) {
    a.loss < b.loss || (a.loss == b.loss && a.latency <= b.latency)
  }

  ghost predicate InOrder(s: seq<Measured>) {
    forall i, j :: 0 <= i < j < |s| ==> NoWorse(s[i], s[j])
  }

  /** The elements level with m, in the order in which they stand. */
  function Peers(s: seq<Measured>, m: Measured): seq<Measured> {
    if s == [] then [] else (if Level(s[0], m) then [s[0]] else []) + Peers(s[1..], m)
  }

  lemma {:induction false} InsertRankedKeeps(m: Measured, s: seq<Measured>)
    ensures multiset(InsertRanked(m, s)) == multiset{m} + multiset(s)
    ensures |InsertRanked(m, s)| == |s| + 1
  {
    if s == [] || !Better(s[0], m) {
    } else {
      InsertRankedKeeps(m, s[1..]);
      assert s == [s[0]] + s[1..];
    }
  }

  lemma NotBetter(a: Measured, b: Measured)
    ensures NoWorse(a, b) <==> !Better(b, a)
  {
  }

  lemma {:induction false} InsertRankedInOrder(m: Measured, s: seq<Measured>)
    requires InOrder(s)
    ensures InOrder(InsertRanked(m, s))
  {
    if s == [] || !Better(s[0], m) {
      var r := [m] + s;
      forall i, j | 0 <= i < j < |r| ensures NoWorse(r[i], r[j]) {
        if i == 0 && j > 1 { assert NoWorse(s[0], s[j - 1]); }
        if i > 0 { assert r[i] == s[i - 1] && r[j] == s[j - 1]; }
      }
    } else {
      var t := InsertRanked(m, s[1..]);
      InsertRankedInOrder(m, s[1..]);
      InsertRankedKeeps(m, s[1..]);
      var r := [s[0]] + t;
      forall i, j | 0 <= i < j < |r| ensures NoWorse(r[i], r[j]) {
        assert r[j] == t[j - 1];
        if i == 0 {
          assert t[j - 1] in multiset(t);
          assert t[j - 1] == m || t[j - 1] in s[1..];
        } else {
          assert r[i] == t[i - 1];
        }
      }
    }
  }

  lemma {:induction false} InsertRankedPeers(m: Measured, s: seq<Measured>, x: Measured)
    ensures Peers(InsertRanked(m, s), x) == (if Level(m, x) then [m] else []) + Peers(s, x)
  {
    if s == [] || !Better(s[0], m) {
      assert ([m] + s)[1..] == s;
    } else {
      InsertRankedPeers(m, s[1..], x);
      assert ([s[0]] + InsertRanked(m, s[1..]))[1..] == InsertRanked(m, s[1..]);
    }
  }

  /** Ranking is a stable sort: it permutes, puts nothing behind something worse,
      and keeps the order of results that are level. */
  lemma {:induction false} RankedStable(s: seq<Measured>)
    ensures multiset(Ranked(s)) == multiset(s) && |Ranked(s)| == |s|
    ensures InOrder(Ranked(s))
    ensures forall x :: Peers(Ranked(s), x) == Peers(s, x)
  {
    if s == [] {
    } else {
      var t := Ranked(s[1..]);
      RankedStable(s[1..]);
      InsertRankedKeeps(s[0], t);
      InsertRankedInOrder(s[0], t);
      assert s == [s[0]] + s[1..];
      forall x ensures Peers(Ranked(s), x) == Peers(s, x) {
        InsertRankedPeers(s[0], t, x);
      }
    }
  }

  // ----- weights

  /** A result that an address can have: a loss rate is a fraction. */
  predicate Sane(m: Measured, ips: nat) {
    m.ipIndex < ips && 0.0 <= m.loss < 1.0
  }

  function Cost(m: Measured): real
    requires m.loss >= 0.0
    ensures Cost(m) > 0.0
  {
    Product(m.latency as real / 1000000.0, 1.0 + m.loss) + 0.00001
  }

  function Product(x: real, y: real): (r: real)
    requires x >= 0.0 && y >= 0.0
    ensures r >= 0.0
  {
    x * y
  }

  function RealQuotient(x: real, y: real): (r: real)
    requires y > 0.0
    ensures r * y == x && (x > 0.0 ==> r > 0.0)
  {
    x / y
  }

  function Clamped(w: real): (r: nat)
    ensures MIN_WEIGHT <= r <= MAX_WEIGHT
  {
    if w < 1.0 then MIN_WEIGHT else if w > 10000.0 then MAX_WEIGHT else w.Floor
  }

  function Weight(m: Measured): (r: nat)
    requires m.loss >= 0.0
    ensures MIN_WEIGHT <= r <= MAX_WEIGHT
  {
    Clamped(RealQuotient(10000.0, Cost(m)))
  }

  lemma ProductMonotone(x: real, x': real, y: real, y': real)
    requires 0.0 <= x <= x' && 0.0 <= y <= y'
    ensures Product(x, y) <= Product(x', y')
  {
    FactorGrowsWeakly(x, x', y);
    FactorGrowsWeakly(y, y', x');
  }

  lemma QuotientMonotone(x: real, y: real, y': real)
    requires x > 0.0 && 0.0 < y <= y'
    ensures RealQuotient(x, y) >= RealQuotient(x, y')
  {
    var q, q' := RealQuotient(x, y), RealQuotient(x, y');
    if q < q' {
      SmallerFactor(q, q', y, y');
    }
  }

  lemma SmallerFactor(q: real, q': real, y: real, y': real)
    requires q < q' && 0.0 < y <= y' && q' > 0.0
    ensures q * y < q' * y'
  {
    FactorGrows(q, q', y);
    FactorGrowsWeakly(y, y', q');
  }

  lemma FactorGrows(a: real, b: real, f: real)
    requires a < b && f > 0.0
    ensures a * f < b * f
  {
    assert (b - a) * f > 0.0;
  }

  lemma FactorGrowsBy(a: real, b: real, f: real)
    requires a <= b && f >= 0.0
    ensures a * f <= b * f
  {
    assert (b - a) * f >= 0.0;
  }

  lemma FactorGrowsWeakly(a: real, b: real, f: real)
    requires a <= b && f >= 0.0
    ensures f * a <= f * b
  {
    assert f * (b - a) >= 0.0;
  }

  /** An address that is at least as fast and loses no more never weighs less. */
  lemma WeightMonotone(a: Measured, b: Measured)
    requires 0.0 <= a.loss <= b.loss && a.latency <= b.latency
    ensures Weight(a) >= Weight(b)
  {
    ProductMonotone(a.latency as real / 1000000.0, b.latency as real / 1000000.0, 1.0 + a.loss, 1.0 + b.loss);
    QuotientMonotone(10000.0, Cost(a), Cost(b));
  }

  lemma ClampedExactly(q: real)
    ensures
      var w := Clamped(q) as real;
      (w == 10000.0 || q < w + 1.0) && (w == 1.0 || w <= q)
  {
  }

  lemma CostExactly(m: Measured)
    requires m.loss >= 0.0
    ensures Cost(m) == (m.latency as real / 1000000.0) * (1.0 + m.loss) + 0.00001
  {
  }

  lemma QuotientBelow(q: real, u: real, c: real, x: real)
    requires c > 0.0 && q * c == x && q < u
    ensures x < u * c
  {
    FactorGrows(q, u, c);
  }

  lemma QuotientAbove(q: real, u: real, c: real, x: real)
    requires c > 0.0 && q * c == x && u <= q
    ensures u * c <= x
  {
    FactorGrowsBy(u, q, c);
  }

  /** What the weight is: 10000 divided by the cost, which is the latency in milliseconds
      weighted with the loss, rounded down and kept within 1 and 10000. */
  lemma WeightExactly(m: Measured)
    requires m.loss >= 0.0
    ensures
      var w := Weight(m) as real;
      (w == 10000.0 || 10000.0 < (w + 1.0) * Cost(m)) && (w == 1.0 || w * Cost(m) <= 10000.0)
  {
    hide Cost, Clamped, RealQuotient;
    var q := RealQuotient(10000.0, Cost(m));
    ClampedExactly(q);
    var w, c := Weight(m) as real, Cost(m);
    if w != 10000.0 {
      QuotientBelow(q, w + 1.0, c, 10000.0);
    }
    if w != 1.0 {
      QuotientAbove(q, w, c, 10000.0);
    }
  }

  // ----- the pool

  lemma RankedSane(results: seq<Measured>, ips: nat)
    requires forall m :: m in results ==> Sane(m, ips)
    ensures |Ranked(results)| == |results|
    ensures forall k :: 0 <= k < |results| ==> Sane(Ranked(results)[k], ips)
  {
    var r := Ranked(results);
    RankedStable(results);
    forall k | 0 <= k < |results| ensures Sane(r[k], ips) {
      assert r[k] in multiset(r);
    }
  }

  /** Every result is among the first n in rank, or none of those is worse than it: no
      result left out has less loss, or equal loss and less latency. */
  ghost predicate BestKept(results: seq<Measured>, n: nat) {
    n <= |Ranked(results)| &&
    forall m :: m in results ==>
      m in Ranked(results)[..n] || forall k :: 0 <= k < n ==> NoWorse(Ranked(results)[k], m)
  }

  lemma RankedBest(results: seq<Measured>, n: nat)
    requires n <= |results|
    ensures BestKept(results, n)
  {
    var r := Ranked(results);
    RankedStable(results);
    forall m | m in results
      ensures m in r[..n] || forall k :: 0 <= k < n ==> NoWorse(r[k], m)
    {
      assert m in multiset(results);
      assert m in r;
      var j :| 0 <= j < |r| && r[j] == m;
      if j < n {
        assert r[..n][j] == m;
      }
    }
  }

  class IPPool {
    const ips: seq<string>
    const fallbackIP: string
    const topIPCount: nat
    const bestIndexes: array<nat>
    const bestWeights: array<nat>
    var totalWeight: nat
    var curValidIPs: nat
    var counter: nat

    ghost predicate Valid()
      reads this, bestIndexes, bestWeights
    {
      && bestIndexes.Length == bestWeights.Length == topIPCount
      && bestIndexes != bestWeights
      && curValidIPs <= topIPCount < 256
      && totalWeight == Sum(bestWeights[..curValidIPs])
      && counter < TWO32
      && (forall i :: 0 <= i < curValidIPs ==> bestIndexes[i] < |ips| && 1 <= bestWeights[i] <= MAX_WEIGHT)
    }

    constructor (ips: seq<string>, fallbackIP: string, topIPCount: nat)
      requires topIPCount < 256
      ensures Valid() && fresh(bestIndexes) && fresh(bestWeights)
      ensures this.ips == ips && this.fallbackIP == fallbackIP && this.topIPCount == topIPCount
      ensures curValidIPs == 0 && counter == 0
    {
      this.ips, this.fallbackIP, this.topIPCount := ips, fallbackIP, topIPCount;
      bestIndexes := new nat[topIPCount](_ => 0);
      bestWeights := new nat[topIPCount](_ => 0);
      totalWeight, curValidIPs, counter := 0, 0, 0;
    }

    /** The first valid slots hold the ranked results and their weights. */
    ghost predicate Holds(ranked: seq<Measured>, valid: nat)
      requires forall k :: 0 <= k < |ranked| ==> Sane(ranked[k], |ips|)
      reads bestIndexes, bestWeights
    {
      && valid <= |ranked| && valid <= bestIndexes.Length && valid <= bestWeights.Length
      && (forall k :: 0 <= k < valid ==>
            && Sane(ranked[k], |ips|)
            && bestIndexes[k] == ranked[k].ipIndex && bestWeights[k] == Weight(ranked[k]))
    }

    method FillSlots(ranked: seq<Measured>) returns (valid: nat, total: nat)
      requires bestIndexes.Length == bestWeights.Length == topIPCount && bestIndexes != bestWeights
      requires forall k :: 0 <= k < |ranked| ==> Sane(ranked[k], |ips|)
      modifies bestIndexes, bestWeights
      ensures valid == (if |ranked| < topIPCount then |ranked| else topIPCount)
      ensures Holds(ranked, valid) && total == Sum(bestWeights[..valid])
    {
      hide Weight, Sum;
      valid, total := 0, 0;
      assert Sum(bestWeights[..0]) == 0 by { SumNone(bestWeights[..0]); }
      while valid < topIPCount && valid < |ranked|
        invariant 0 <= valid <= topIPCount && valid <= |ranked|
        invariant Holds(ranked, valid) && total == Sum(bestWeights[..valid])
      {
        ghost var before := bestWeights[..valid];
        bestIndexes[valid] := ranked[valid].ipIndex;
        var weight := Weight(ranked[valid]);
        bestWeights[valid] := weight;
        total := total + weight;
        ghost var after := bestWeights[..valid + 1];
        assert after == before + [weight];
        SumSnoc(before, weight);
        valid := valid + 1;
      }
    }

    method ClearWeights(valid: nat)
      requires valid <= bestWeights.Length
      modifies bestWeights
      ensures forall k :: 0 <= k < valid ==> bestWeights[k] == old(bestWeights[k])
      ensures forall k :: valid <= k < bestWeights.Length ==> bestWeights[k] == 0
    {
      var i := valid;
      while i < bestWeights.Length
        invariant valid <= i <= bestWeights.Length
        invariant forall k :: 0 <= k < valid ==> bestWeights[k] == old(bestWeights[k])
        invariant forall k :: valid <= k < i ==> bestWeights[k] == 0
      {
        bestWeights[i] := 0;
        i := i + 1;
      }
    }

    /** After an update the slots hold the best results in rank order with their
        weights; an empty scan changes nothing. */
    method UpdateBest(results: seq<Measured>)
      requires Valid() && forall m :: m in results ==> Sane(m, |ips|)
      modifies this`totalWeight, this`curValidIPs, bestIndexes, bestWeights
      ensures Valid()
      ensures results == [] ==>
        && curValidIPs == old(curValidIPs) && totalWeight == old(totalWeight)
        && bestIndexes[..] == old(bestIndexes[..]) && bestWeights[..] == old(bestWeights[..])
      ensures results != [] ==>
        && curValidIPs == (if |results| < topIPCount then |results| else topIPCount)
        && |Ranked(results)| == |results|
        && (forall k :: 0 <= k < |results| ==> Sane(Ranked(results)[k], |ips|))
        && Holds(Ranked(results), curValidIPs)
        && BestKept(results, curValidIPs)
        && (forall i :: curValidIPs <= i < topIPCount ==> bestWeights[i] == 0)
    {
      hide Ranked, Sum, Weight;
      if |results| == 0 {
        return;
      }
      var ranked := Ranked(results);
      RankedSane(results, |ips|);
      RankedBest(results, if |results| < topIPCount then |results| else topIPCount);
      hide BestKept;
      var valid, total := FillSlots(ranked);
      ghost var weights := bestWeights[..valid];
      ClearWeights(valid);
      assert bestWeights[..valid] == weights;
      curValidIPs := valid;
      totalWeight := total;
    }

    /** While there is a valid address, a caller gets the address of the slot that
        owns the counter's residue, and never the fallback. */
    method Get() returns (ip: string, ghost slot: nat)
      requires Valid()
      modifies this`counter
      ensures Valid()
      ensures curValidIPs == 0 ==> ip == fallbackIP && counter == old(counter)
      ensures curValidIPs > 0 ==>
        && totalWeight > 0 && slot < curValidIPs
        && Owns(bestWeights[..curValidIPs], slot, old(counter) % totalWeight)
        && ip == ips[bestIndexes[slot]]
        && counter == (old(counter) + 1) % TWO32
    {
      hide Owns, Sum;
      if curValidIPs == 0 {
        return fallbackIP, 0;
      }
      var indexes := bestIndexes[..curValidIPs];
      var weights := bestWeights[..curValidIPs];
      SumPositive(weights);
      var current := counter;
      counter := (counter + 1) % TWO32;
      var i := Choose(weights, current % totalWeight);
      return ips[indexes[i]], i;
    }

    /** A caller that asks n times.  If that is a whole round, each address is handed
        out as often as its weight says, unless the counter wraps meanwhile, there is
        more than one address and the total does not divide 2^32. */
    method GetMany(n: nat) returns (got: seq<string>, ghost slots: seq<nat>)
      requires Valid() && curValidIPs > 0
      modifies this`counter
      ensures Valid() && totalWeight > 0 && |got| == |slots| == n
      ensures Chosen(bestWeights[..curValidIPs], old(counter), slots)
      ensures forall k :: 0 <= k < n ==> slots[k] < curValidIPs && got[k] == ips[bestIndexes[slots[k]]]
      ensures
        n == totalWeight && (old(counter) + n <= TWO32 || curValidIPs == 1 || TWO32 % totalWeight == 0) ==>
        forall i :: 0 <= i < curValidIPs ==> Count(slots, i) == bestWeights[i]
    {
      hide Owns, Sum, Counter, Count;
      ghost var w := bestWeights[..curValidIPs];
      SumPositive(w);
      ghost var c := counter;
      got, slots := [], [];
      CounterStart(c, TWO32);
      while |got| < n
        invariant Valid() && |got| == |slots| <= n && counter == Counter(c, |got|, TWO32)
        invariant Chosen(w, c, slots)
        invariant forall k :: 0 <= k < |got| ==> slots[k] < curValidIPs && got[k] == ips[bestIndexes[slots[k]]]
      {
        CounterNext(c, |got|, TWO32);
        var ip, slot := Get();
        got, slots := got + [ip], slots + [slot];
      }
      if n == totalWeight && (c + n <= TWO32 || curValidIPs == 1 || TWO32 % totalWeight == 0) {
        forall i | 0 <= i < curValidIPs ensures Count(slots, i) == bestWeights[i] {
          RoundIsExact(w, c, slots, i);
        }
      }
    }

    /** For the weights of a pool: rounds are exact from every counter value if and
        only if one address is valid or the total divides 2^32. */
    lemma RoundsExactIff()
      requires Valid() && curValidIPs > 0
      ensures
        var w := bestWeights[..curValidIPs];
        && 0 < Sum(w) <= TWO32
        && ((forall c :: 0 <= c < TWO32 ==> Exact(w, c, TWO32)) <==> curValidIPs == 1 || TWO32 % totalWeight == 0)
    {
      hide Sum, Exact;
      var w := bestWeights[..curValidIPs];
      SumPositive(w);
      SumBound(w, MAX_WEIGHT);
      ExactIff(w, TWO32);
    }
  }

  /** The accumulating loop of Get.  It always finds a slot. */
  method Choose(weights: seq<nat>, target: nat) returns (i: nat)
    requires target < Sum(weights)
    ensures i < |weights| && Owns(weights, i, target)
  {
    var acc := 0;
    i := 0;
    assert weights[..|weights|] == weights;
    while i < |weights|
      invariant 0 <= i <= |weights|
      invariant acc == Sum(weights[..i]) <= target
    {
      SumPrefix(weights, i);
      acc := acc + weights[i];
      if acc > target {
        return;
      }
      i := i + 1;
    }
    assert false;
  }
}
