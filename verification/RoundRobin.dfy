/** Weighted round robin over a 32-bit counter: which slot a counter value
    chooses, and when a round of calls gives every slot its weight. */
module RoundRobin {
  import opened Bits

  function Sum(w: seq<nat>): nat {
    if w == [] then 0 else Sum(w[..|w| - 1]) + w[|w| - 1]
  }

  lemma {:induction false} SumPositive(w: seq<nat>)
    requires w != [] && forall i :: 0 <= i < |w| ==> w[i] >= 1
    ensures Sum(w) >= 1
  {
  }

  lemma SumNone(w: seq<nat>)
    requires w == []
    ensures Sum(w) == 0
  {
  }

  lemma SumSnoc(w: seq<nat>, x: nat)
    ensures Sum(w + [x]) == Sum(w) + x
  {
    assert (w + [x])[..|w|] == w;
  }

  lemma SumPrefix(w: seq<nat>, i: nat)
    requires i < |w|
    ensures Sum(w[..i + 1]) == Sum(w[..i]) + w[i]
  {
    assert w[..i + 1][..i] == w[..i];
  }

  /** Slot i owns the residues between the sums of the weights before it and up to it. */
  predicate Owns(w: seq<nat>, i: nat, t: nat)
    requires i < |w|
  {
    Sum(w[..i]) <= t < Sum(w[..i + 1])
  }

  lemma {:induction false} SumMonotone(w: seq<nat>, i: nat, j: nat)
    requires i <= j <= |w|
    ensures Sum(w[..i]) <= Sum(w[..j])
    decreases j
  {
    if i < j {
      SumPrefix(w, j - 1);
      SumMonotone(w, i, j - 1);
    }
  }

  /** Every residue has one owner only. */
  lemma OneOwner(w: seq<nat>, i: nat, j: nat, t: nat)
    requires i < |w| && j < |w| && Owns(w, i, t) && Owns(w, j, t)
    ensures i == j
  {
    if i < j {
      SumMonotone(w, i + 1, j);
    } else if j < i {
      SumMonotone(w, j + 1, i);
    }
  }

  /** How many of the n counter values from c on choose slot i. */
  ghost function Hits(w: seq<nat>, i: nat, c: nat, n: nat): nat
    requires i < |w| && Sum(w) > 0
  {
    if n == 0 then 0 else Hits(w, i, c, n - 1) + if Owns(w, i, (c + n - 1) % Sum(w)) then 1 else 0
  }

  lemma {:induction false} HitsDropFirst(w: seq<nat>, i: nat, c: nat, n: nat)
    requires i < |w| && Sum(w) > 0 && n > 0
    ensures Hits(w, i, c, n) == (if Owns(w, i, c % Sum(w)) then 1 else 0) + Hits(w, i, c + 1, n - 1)
  {
    hide Sum, Owns;
    if n > 1 {
      HitsDropFirst(w, i, c, n - 1);
      assert c + n - 1 == c + 1 + (n - 1) - 1;
    }
  }

  lemma SameResidue(c: nat, t: nat)
    requires t > 0
    ensures (c + t) % t == c % t
  {
    var q, r := c / t, c % t;
    assert c + t == (q + 1) * t + r;
    DivModUnique(c + t, t, q + 1, r);
  }

  /** A window of the length of one round counts the same wherever it starts. */
  lemma {:induction false} HitsShift(w: seq<nat>, i: nat, c: nat)
    requires i < |w| && Sum(w) > 0
    ensures Hits(w, i, c, Sum(w)) == Hits(w, i, 0, Sum(w))
  {
    if c > 0 {
      var t := Sum(w);
      HitsShift(w, i, c - 1);
      HitsDropFirst(w, i, c - 1, t);
      SameResidue(c - 1, t);
      assert Hits(w, i, c, t) == Hits(w, i, c, t - 1) + if Owns(w, i, (c - 1 + t) % t) then 1 else 0;
    }
  }

  function Clip(x: int, n: nat): nat {
    if x < 0 then 0 else if x > n then n else x
  }

  lemma {:induction false} HitsFirstRound(w: seq<nat>, i: nat, n: nat)
    requires i < |w| && Sum(w) > 0 && n <= Sum(w)
    ensures Hits(w, i, 0, n) == Clip(n - Sum(w[..i]), w[i])
  {
    SumPrefix(w, i);
    if n > 0 {
      HitsFirstRound(w, i, n - 1);
      ModSmall(n - 1, Sum(w));
    }
  }

  lemma HitsOfRound(w: seq<nat>, i: nat, c: nat)
    requires i < |w| && Sum(w) > 0
    ensures Hits(w, i, c, Sum(w)) == w[i]
  {
    HitsShift(w, i, c);
    HitsFirstRound(w, i, Sum(w));
    SumPrefix(w, i);
    assert w[..|w|] == w;
    SumMonotone(w, i + 1, |w|);
  }

  // ----- the counter that wraps around

  /** What a counter of modulus m holds k increments after c. */
  function Counter(c: nat, k: nat, m: nat): nat
    requires m > 0
  {
    (c + k) % m
  }

  lemma CounterStart(c: nat, m: nat)
    requires c < m
    ensures Counter(c, 0, m) == c
  {
    ModSmall(c, m);
  }

  /** Incrementing modulo m. */
  lemma CounterNext(c: nat, k: nat, m: nat)
    requires c < m
    ensures Counter(c, k + 1, m) == (Counter(c, k, m) + 1) % m
  {
    var x := c + k;
    var q, r := x / m, x % m;
    assert x == q * m + r;
    if r + 1 < m {
      DivModUnique(x + 1, m, q, r + 1);
      ModSmall(r + 1, m);
    } else {
      assert (q + 1) * m == q * m + m;
      DivModUnique(x + 1, m, q + 1, 0);
      DivModUnique(r + 1, m, 1, 0);
    }
  }

  /** How many of n calls from counter value c on choose slot i, for a counter of modulus m. */
  ghost function Picks(w: seq<nat>, i: nat, c: nat, n: nat, m: nat): nat
    requires i < |w| && Sum(w) > 0 && m > 0
  {
    if n == 0 then 0
    else Picks(w, i, c, n - 1, m) + if Owns(w, i, Counter(c, n - 1, m) % Sum(w)) then 1 else 0
  }

  lemma {:induction false} HitsSplit(w: seq<nat>, i: nat, c: nat, a: nat, b: nat)
    requires i < |w| && Sum(w) > 0
    ensures Hits(w, i, c, a + b) == Hits(w, i, c, a) + Hits(w, i, c + a, b)
    decreases b
  {
    hide Sum, Owns;
    if b > 0 {
      HitsSplit(w, i, c, a, b - 1);
      assert c + (a + b) - 1 == (c + a) + b - 1;
      assert a + b - 1 == a + (b - 1);
    }
  }

  /** Before the wrap the counter is a plain number. */
  lemma {:induction false} PicksBeforeWrap(w: seq<nat>, i: nat, c: nat, n: nat, m: nat)
    requires i < |w| && Sum(w) > 0 && m > 0 && c + n <= m
    ensures Picks(w, i, c, n, m) == Hits(w, i, c, n)
    decreases n
  {
    hide Sum, Owns;
    if n > 0 {
      PicksBeforeWrap(w, i, c, n - 1, m);
      ModSmall(c + (n - 1), m);
      assert c + (n - 1) == c + n - 1;
    }
  }

  /** After the wrap it starts again from 0. */
  lemma {:induction false} PicksAcrossWrap(w: seq<nat>, i: nat, c: nat, n: nat, m: nat)
    requires i < |w| && Sum(w) > 0 && c < m && m - c <= n <= m
    ensures Picks(w, i, c, n, m) == Hits(w, i, c, m - c) + Hits(w, i, 0, n - (m - c))
    decreases n
  {
    hide Sum, Owns;
    if n == m - c {
      PicksBeforeWrap(w, i, c, n, m);
    } else {
      PicksAcrossWrap(w, i, c, n - 1, m);
      DivModUnique(c + (n - 1), m, 1, c + n - 1 - m);
      assert 0 + (n - (m - c)) - 1 == c + n - 1 - m;
    }
  }

  /** Windows that start at equal residues count the same. */
  lemma {:induction false} HitsPeriod(w: seq<nat>, i: nat, c: nat, n: nat)
    requires i < |w| && Sum(w) > 0
    ensures Hits(w, i, c + Sum(w), n) == Hits(w, i, c, n)
    decreases n
  {
    var t := Sum(w);
    hide Sum, Owns;
    if n > 0 {
      HitsPeriod(w, i, c, n - 1);
      SameResidue(c + n - 1, t);
      assert c + t + n - 1 == c + n - 1 + t;
    }
  }

  lemma {:induction false} HitsResidue(w: seq<nat>, i: nat, q: nat, r: nat, n: nat)
    requires i < |w| && Sum(w) > 0
    ensures Hits(w, i, q * Sum(w) + r, n) == Hits(w, i, r, n)
    decreases q
  {
    var t := Sum(w);
    hide Sum, Owns, Hits;
    if q == 0 {
      assert q * t + r == r;
    } else {
      HitsResidue(w, i, q - 1, r, n);
      assert q * t + r == (q - 1) * t + r + t;
      HitsPeriod(w, i, (q - 1) * t + r, n);
    }
  }

  /** A divisor of the modulus does not see the wrap. */
  lemma {:induction false} PicksDivisor(w: seq<nat>, i: nat, c: nat, n: nat, m: nat)
    requires i < |w| && Sum(w) > 0 && m > 0 && m % Sum(w) == 0
    ensures Picks(w, i, c, n, m) == Hits(w, i, c, n)
    decreases n
  {
    var t := Sum(w);
    hide Sum, Owns;
    if n > 0 {
      PicksDivisor(w, i, c, n - 1, m);
      ModOfMod(c + n - 1, m, t);
      assert c + (n - 1) == c + n - 1;
    }
  }

  lemma ModOfMod(x: nat, m: nat, t: nat)
    requires m > 0 && t > 0 && m % t == 0
    ensures (x % m) % t == x % t
  {
    var q, r, k := x / m, x % m, m / t;
    var p, s := r / t, r % t;
    assert x == q * (k * t) + (p * t + s);
    Factor(q, k, t, p, s);
    DivModUnique(x, t, q * k + p, s);
  }

  lemma Factor(q: nat, k: nat, t: nat, p: nat, s: nat)
    ensures q * (k * t) + (p * t + s) == (q * k + p) * t + s
  {
    assert (q * k + p) * t == (q * k) * t + p * t;
    assert (q * k) * t == q * (k * t);
  }

  /** A lone slot owns everything. */
  lemma {:induction false} PicksAlone(w: seq<nat>, c: nat, n: nat, m: nat)
    requires |w| == 1 && Sum(w) > 0 && m > 0
    ensures Picks(w, 0, c, n, m) == n
    decreases n
  {
    assert w[..0] == [] && w[..1] == w;
    if n > 0 {
      PicksAlone(w, c, n - 1, m);
    }
  }

  // ----- rounds

  /** Every slot is chosen as often as its weight says by the round of calls that starts at c. */
  ghost predicate Exact(w: seq<nat>, c: nat, m: nat)
    requires Sum(w) > 0 && m > 0
  {
    forall i :: 0 <= i < |w| ==> Picks(w, i, c, Sum(w), m) == w[i]
  }

  /** A round in which the counter does not wrap is exact. */
  lemma ExactBeforeWrap(w: seq<nat>, c: nat, m: nat)
    requires Sum(w) > 0 && m > 0 && c + Sum(w) <= m
    ensures Exact(w, c, m)
  {
    forall i | 0 <= i < |w| ensures Picks(w, i, c, Sum(w), m) == w[i] {
      PicksBeforeWrap(w, i, c, Sum(w), m);
      HitsOfRound(w, i, c);
    }
  }

  lemma ExactAnywhere(w: seq<nat>, c: nat, m: nat)
    requires Sum(w) > 0 && m > 0 && (|w| == 1 || m % Sum(w) == 0)
    ensures Exact(w, c, m)
  {
    forall i | 0 <= i < |w| ensures Picks(w, i, c, Sum(w), m) == w[i] {
      if |w| == 1 {
        PicksAlone(w, c, Sum(w), m);
        SumOne(w);
      } else {
        PicksDivisor(w, i, c, Sum(w), m);
        HitsOfRound(w, i, c);
      }
    }
  }

  lemma SumOne(w: seq<nat>)
    requires |w| == 1
    ensures Sum(w) == w[0]
  {
    assert w[..0] == [];
  }

  /** Where a round that shortchanges the last slot starts. */
  function BadStart(w: seq<nat>, m: nat): (c: nat)
    requires |w| > 1 && (forall i :: 0 <= i < |w| ==> w[i] >= 1) && 0 < Sum(w) <= m && m % Sum(w) != 0
    ensures c < m
  {
    SumPrefix(w, |w| - 1);
    assert w[..|w|] == w;
    var r, before := m % Sum(w), Sum(w[..|w| - 1]);
    m - (if r <= before then 1 else r - before + 1)
  }

  /** How often a round that wraps after d calls chooses slot i. */
  lemma PicksOfWrappingRound(w: seq<nat>, i: nat, q: nat, r: nat, d: nat, m: nat)
    requires i < |w| && Sum(w) > 0 && 0 < d <= r < Sum(w) <= m && m == q * Sum(w) + r
    ensures
      var before := Sum(w[..i]);
      Picks(w, i, m - d, Sum(w), m) ==
        Clip(r - before, w[i]) - Clip(r - d - before, w[i]) + Clip(Sum(w) - d - before, w[i])
  {
    var t := Sum(w);
    hide Sum, Owns, Picks, Hits, Clip;
    PicksAcrossWrap(w, i, m - d, t, m);
    HitsResidue(w, i, q, r - d, d);
    HitsSplit(w, i, 0, r - d, d);
    HitsFirstRound(w, i, r);
    HitsFirstRound(w, i, r - d);
    HitsFirstRound(w, i, t - d);
  }

  lemma LastWeight(w: seq<nat>)
    requires |w| > 1 && (forall i :: 0 <= i < |w| ==> w[i] >= 1)
    ensures Sum(w) == Sum(w[..|w| - 1]) + w[|w| - 1] && Sum(w[..|w| - 1]) >= 1
  {
    SumPositive(w[..|w| - 1]);
  }

  /** In that round the last slot is chosen once too seldom. */
  lemma LastSlotShort(w: seq<nat>, m: nat)
    requires |w| > 1 && (forall i :: 0 <= i < |w| ==> w[i] >= 1) && 0 < Sum(w) <= m && m % Sum(w) != 0
    ensures Picks(w, |w| - 1, BadStart(w, m), Sum(w), m) == w[|w| - 1] - 1
  {
    var c := BadStart(w, m);
    hide Sum, Picks;
    var t := Sum(w);
    var r, q := m % t, m / t;
    LastWeight(w);
    PicksOfWrappingRound(w, |w| - 1, q, r, m - c, m);
  }

  /** When the round robin keeps its promise: rounds are exact from every counter
      value if and only if there is one slot or the total divides the modulus. */
  lemma ExactIff(w: seq<nat>, m: nat)
    requires w != [] && (forall i :: 0 <= i < |w| ==> w[i] >= 1) && 0 < Sum(w) <= m
    ensures (forall c :: 0 <= c < m ==> Exact(w, c, m)) <==> |w| == 1 || m % Sum(w) == 0
  {
    if |w| == 1 || m % Sum(w) == 0 {
      forall c | 0 <= c < m ensures Exact(w, c, m) {
        ExactAnywhere(w, c, m);
      }
    } else {
      LastSlotShort(w, m);
      assert !Exact(w, BadStart(w, m), m);
    }
  }

  // ----- runs of calls

  function Count(slots: seq<nat>, i: nat): nat {
    if slots == [] then 0 else Count(slots[..|slots| - 1], i) + if slots[|slots| - 1] == i then 1 else 0
  }

  /** What consecutive calls choose that find the 32-bit counter at c first. */
  ghost predicate Chosen(w: seq<nat>, c: nat, slots: seq<nat>)
    requires Sum(w) > 0
  {
    forall k :: 0 <= k < |slots| ==> slots[k] < |w| && Owns(w, slots[k], Counter(c, k, TWO32) % Sum(w))
  }

  lemma {:induction false} CountIsPicks(w: seq<nat>, c: nat, slots: seq<nat>, i: nat)
    requires i < |w| && Sum(w) > 0 && Chosen(w, c, slots)
    ensures Count(slots, i) == Picks(w, i, c, |slots|, TWO32)
    decreases |slots|
  {
    hide Sum, Owns, Counter;
    if slots == [] {
    } else {
      var n := |slots| - 1;
      assert forall k :: 0 <= k < n ==> slots[..n][k] == slots[k];
      CountIsPicks(w, c, slots[..n], i);
      if Owns(w, i, Counter(c, n, TWO32) % Sum(w)) {
        OneOwner(w, i, slots[n], Counter(c, n, TWO32) % Sum(w));
      }
    }
  }

  /** As many consecutive calls as the total weight choose slot i exactly as often
      as its weight says, if the counter does not wrap meanwhile, or there is one
      slot, or the total divides 2^32. */
  lemma RoundIsExact(w: seq<nat>, c: nat, slots: seq<nat>, i: nat)
    requires i < |w| && Sum(w) > 0 && |slots| == Sum(w) && Chosen(w, c, slots)
    requires c + Sum(w) <= TWO32 || |w| == 1 || TWO32 % Sum(w) == 0
    ensures Count(slots, i) == w[i]
  {
    CountIsPicks(w, c, slots, i);
    if c + Sum(w) <= TWO32 {
      ExactBeforeWrap(w, c, TWO32);
    } else {
      ExactAnywhere(w, c, TWO32);
    }
  }

  /** With the weights 1 and 2 the three calls at 2^32-2, 2^32-1 and 0 choose slot 1
      once only. */
  lemma WrapBreaksRound()
    ensures var w: seq<nat> := [1, 2];
      Sum(w) == 3 && Chosen(w, TWO32 - 2, [1, 0, 0]) && Count([1, 0, 0], 1) == 1
  {
    var w: seq<nat> := [1, 2];
    assert w[..1] == [1] && w[..2] == [1, 2] && w[..0] == [];
    assert Sum(w[..1]) == 1 by { SumPrefix(w, 0); }
    assert Sum(w[..2]) == 3 by { SumPrefix(w, 1); }
    assert w[..2] == w;
    var slots: seq<nat> := [1, 0, 0];
    assert slots[..2] == [1, 0] && slots[..2][..1] == [1] && slots[..2][..1][..0] == [];
  }

  lemma {:induction false} SumBound(w: seq<nat>, most: nat)
    requires forall i :: 0 <= i < |w| ==> w[i] <= most
    ensures Sum(w) <= |w| * most
  {
    if w != [] {
      SumBound(w[..|w| - 1], most);
      assert |w| * most == (|w| - 1) * most + most;
    }
  }
}
