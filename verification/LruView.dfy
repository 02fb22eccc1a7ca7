/** The contents of the LRU's arrays as values.

    A View holds the element and bucket arrays together with the two lists
    threaded through them.  Each lemma says what one slot operation of class
    LRU does to the list of live entries. */
module LruView {
  import opened Bits
  import opened Common
  import opened LruSlots
  import opened Rings
  import RL = RecencyList

  datatype Element<K, V> = Element(key: K, value: V, nextBucket: nat, prevBucket: nat, bucketPos: nat,
                                   next: nat, prev: nat, expire: int)

  function Nexts<K, V>(es: seq<Element<K, V>>): (c: seq<nat>)
    ensures |c| == |es| && forall i :: 0 <= i < |es| ==> c[i] == es[i].next
  {
    seq(|es|, i requires 0 <= i < |es| => es[i].next)
  }

  function Prevs<K, V>(es: seq<Element<K, V>>): (c: seq<nat>)
    ensures |c| == |es| && forall i :: 0 <= i < |es| ==> c[i] == es[i].prev
  {
    seq(|es|, i requires 0 <= i < |es| => es[i].prev)
  }

  function NextBuckets<K, V>(es: seq<Element<K, V>>): (c: seq<nat>)
    ensures |c| == |es| && forall i :: 0 <= i < |es| ==> c[i] == es[i].nextBucket
  {
    seq(|es|, i requires 0 <= i < |es| => es[i].nextBucket)
  }

  function PrevBuckets<K, V>(es: seq<Element<K, V>>): (c: seq<nat>)
    ensures |c| == |es| && forall i :: 0 <= i < |es| ==> c[i] == es[i].prevBucket
  {
    seq(|es|, i requires 0 <= i < |es| => es[i].prevBucket)
  }

  function Positions<K, V>(es: seq<Element<K, V>>): (c: seq<nat>)
    ensures |c| == |es| && forall i :: 0 <= i < |es| ==> c[i] == es[i].bucketPos
  {
    seq(|es|, i requires 0 <= i < |es| => es[i].bucketPos)
  }

  function Columns<K, V>(es: seq<Element<K, V>>, bs: seq<nat>): Buckets {
    Buckets(NextBuckets(es), PrevBuckets(es), Positions(es), bs)
  }

  ghost predicate InRange(order: seq<nat>, n: nat) {
    forall i :: 0 <= i < |order| ==> order[i] < n
  }

  /** The entries of the live slots, least recently used first. */
  ghost function Entries<K, V>(es: seq<Element<K, V>>, order: seq<nat>): (l: seq<RL.Entry<K, V>>)
    requires InRange(order, |es|)
    ensures |l| == |order|
    ensures forall i :: 0 <= i < |l| ==> l[i] == RL.Entry(es[order[i]].key, es[order[i]].value, es[order[i]].expire)
  {
    seq(|order|, i requires 0 <= i < |order| => RL.Entry(es[order[i]].key, es[order[i]].value, es[order[i]].expire))
  }

  /** Only the recency links differ. */
  ghost predicate SameButTime<K, V>(a: seq<Element<K, V>>, b: seq<Element<K, V>>) {
    |a| == |b| && forall i :: 0 <= i < |a| ==> b[i] == a[i].(next := b[i].next, prev := b[i].prev)
  }

  /** Only the bucket links differ. */
  ghost predicate SameButBucket<K, V>(a: seq<Element<K, V>>, b: seq<Element<K, V>>) {
    |a| == |b| && forall i :: 0 <= i < |a| ==>
      b[i] == a[i].(nextBucket := b[i].nextBucket, prevBucket := b[i].prevBucket, bucketPos := b[i].bucketPos)
  }

  ghost predicate SameData<K, V>(a: Element<K, V>, b: Element<K, V>) {
    a.key == b.key && a.value == b.value && a.expire == b.expire
  }

  function TruncDiv(x: int, d: int): int
    requires d > 0
  {
    if x >= 0 then x / d else -((-x) / d)
  }

  /** Expiry in Unix milliseconds of an entry with a lifetime in nanoseconds. */
  function Expire(lifetime: int, now: int): int {
    if lifetime == 0 then 0 else now + TruncDiv(lifetime, 1_000_000)
  }

  /** x & mask when the size is a power of two above 1, x*size >> 32 otherwise. */
  function BucketOf(h: uint32, mask: nat, size: nat): nat {
    if mask != 0 then And(h, mask) else (h * size) / TWO32
  }

  function MaskOf(size: nat): nat {
    if OnesCount(size) == 1 then size - 1 else 0
  }

  /** Both reductions stay inside the bucket array. */
  lemma BucketInRange(h: uint32, size: nat)
    requires size > 0
    ensures BucketOf(h, MaskOf(size), size) < size
  {
    if MaskOf(size) != 0 {
      OnesCountOne(size);
      var k: nat :| size == Pow2(k);
      AndMask(h, k);
    } else {
      FastRangeBound(h, size);
    }
  }

  /** The arrays, the head, and the two lists threaded through the arrays. */
  datatype View<K, V> = View(es: seq<Element<K, V>>, bs: seq<nat>, head: nat, order: seq<nat>, rings: seq<seq<nat>>)

  /** The bucket is the hash modulo a power-of-two size, and its proportional share of
      any other size. */
  lemma BucketExactly(h: uint32, size: nat)
    requires size > 0
    ensures BucketOf(h, MaskOf(size), size) == if IsPow2(size) && size > 1 then h % size else (h * size) / TWO32
  {
    OnesCountOne(size);
    if IsPow2(size) {
      var k: nat :| size == Pow2(k);
      AndMask(h, k);
    }
  }

  /** How long an entry added at time t (in milliseconds) with a lifetime (in
      nanoseconds) is found: forever without a lifetime, else while the milliseconds
      begun since then fit the lifetime. */
  lemma LifetimeExactly<K, V>(l: seq<RL.Entry<K, V>>, cap: nat, key: K, value: V, lifetime: int, t: int, now: int)
    requires RL.Inv(l, cap) && cap > 0 && 0 < t <= now
    ensures
      var found := RL.Lookup(RL.Add(l, cap, RL.Entry(key, value, Expire(lifetime, t))), key, now) == Some(value);
      && (lifetime == 0 ==> found)
      && (lifetime > 0 ==> (found <==> (now - t + 1) * 1_000_000 <= lifetime))
      && (lifetime < 0 ==> (found <==> t == (-lifetime) / 1_000_000))
  {
    var e := RL.Entry(key, value, Expire(lifetime, t));
    RL.StepInv(l, cap, RL.AddOp(e));
    RL.AddedIsNewest(l, cap, e);
    var l' := RL.Add(l, cap, e);
    RL.FindUnique(l', |l'| - 1);
  }

  /** Every live slot is filed under the bucket of its key. */
  ghost predicate Placed<K, V>(v: View<K, V>, hash: K -> uint32, mask: nat) {
    match v
    case View(es, bs, head, order, rings) =>
      forall s :: s in order ==> s < |es| && es[s].bucketPos == BucketOf(hash(es[s].key), mask, |es|)
  }

  /** Both lists are well linked over the same live slots and keys are distinct. */
  ghost predicate Wf<K, V>(v: View<K, V>) {
    match v
    case View(es, bs, head, order, rings) =>
      && Ring(Nexts(es), Prevs(es), order)
      && |bs| == |es| && Bucketed(Columns(es, bs), order, rings)
      && (order != [] ==> head == order[|order| - 1])
      && RL.DistinctKeys(Entries(es, order))
  }

  /** The live entries, least recently used first. */
  ghost function ListOf<K, V>(v: View<K, V>): seq<RL.Entry<K, V>>
    requires Wf(v)
  {
    Entries(v.es, v.order)
  }

  lemma WfParts<K, V>(v: View<K, V>)
    requires Wf(v)
    ensures Ring(Nexts(v.es), Prevs(v.es), v.order) && Distinct(v.order) && InRange(v.order, |v.es|)
    ensures |v.bs| == |v.es| && Bucketed(Columns(v.es, v.bs), v.order, v.rings)
    ensures v.order != [] ==> v.head == v.order[|v.order| - 1]
    ensures RL.DistinctKeys(ListOf(v)) && ListOf(v) == Entries(v.es, v.order)
  {
  }

  lemma MakeWf<K, V>(v: View<K, V>)
    requires Ring(Nexts(v.es), Prevs(v.es), v.order) && InRange(v.order, |v.es|)
    requires |v.bs| == |v.es| && Bucketed(Columns(v.es, v.bs), v.order, v.rings)
    requires v.order != [] ==> v.head == v.order[|v.order| - 1]
    requires RL.DistinctKeys(Entries(v.es, v.order))
    ensures Wf(v) && ListOf(v) == Entries(v.es, v.order)
  {
  }

  // ----- entries under slot changes

  lemma EntriesWithout<K, V>(es: seq<Element<K, V>>, es': seq<Element<K, V>>, order: seq<nat>, k: nat)
    requires |es| == |es'| && InRange(order, |es|) && k < |order|
    requires forall i :: 0 <= i < |es| ==> SameData(es[i], es'[i])
    ensures InRange(Without(order, k), |es|)
    ensures Entries(es', Without(order, k)) == Without(Entries(es, order), k)
  {
  }

  lemma EntriesTouched<K, V>(es: seq<Element<K, V>>, es': seq<Element<K, V>>, order: seq<nat>, k: nat)
    requires |es| == |es'| && InRange(order, |es|) && k < |order| && Distinct(order)
    requires forall i :: 0 <= i < |es| && i != order[k] ==> SameData(es[i], es'[i])
    ensures InRange(Without(order, k) + [order[k]], |es|)
    ensures
      var e := es'[order[k]];
      Entries(es', Without(order, k) + [order[k]]) == Without(Entries(es, order), k) + [RL.Entry(e.key, e.value, e.expire)]
  {
  }

  lemma EntriesPushed<K, V>(es: seq<Element<K, V>>, es': seq<Element<K, V>>, order: seq<nat>, pos: nat)
    requires |es| == |es'| && InRange(order, |es|) && pos < |es| && pos !in order
    requires forall i :: 0 <= i < |es| && i != pos ==> SameData(es[i], es'[i])
    ensures InRange(order + [pos], |es|)
    ensures Entries(es', order + [pos]) == Entries(es, order) + [RL.Entry(es'[pos].key, es'[pos].value, es'[pos].expire)]
  {
  }

  // ----- what the slot operations do to both lists

  ghost predicate Evictable<K, V>(es: seq<Element<K, V>>, bs: seq<nat>, pos: nat) {
    && InBucket(Columns(es, bs), pos)
    && pos < |es| && es[pos].prev < |es| && es[pos].next < |es|
    && (es[pos].prev == pos ==> es[pos].next == pos)
  }

  ghost predicate Evicted<K, V>(es: seq<Element<K, V>>, bs: seq<nat>, head: nat, pos: nat,
                                es': seq<Element<K, V>>, bs': seq<nat>, head': nat)
    requires Evictable(es, bs, pos)
  {
    && |es'| == |es|
    && Nexts(es') == Nexts(es)[es[pos].prev := es[pos].next]
    && Prevs(es') == Prevs(es)[es[pos].next := es[pos].prev]
    && Columns(es', bs') == Unlinked(Columns(es, bs), pos)
    && head' == (if pos == head then es[pos].prev else head)
    && (forall i :: 0 <= i < |es| ==> SameData(es[i], es'[i]))
  }

  ghost predicate Relocated<K, V>(es: seq<Element<K, V>>, bs: seq<nat>, head: nat, to: nat, from: nat,
                                  es': seq<Element<K, V>>, bs': seq<nat>, head': nat)
    requires Evictable(es, bs, from) && to < |es|
  {
    var next, prev := Nexts(es)[es[from].prev := to], Prevs(es)[es[from].next := to];
    && |es'| == |es|
    && Nexts(es') == next[to := next[from]]
    && Prevs(es') == prev[to := prev[from]]
    && Columns(es', bs') == Moved(Columns(es, bs), to, from)
    && head' == (if from == head then to else head)
    && (forall i :: 0 <= i < |es| && i != to ==> SameData(es[i], es'[i]))
    && SameData(es[from], es'[to])
  }

  /** `to` received the contents and links of `from`. */
  ghost predicate Filled<K, V>(es: seq<Element<K, V>>, bs: seq<nat>, head: nat, to: nat, from: nat,
                               es': seq<Element<K, V>>, bs': seq<nat>, head': nat)
    requires to < |es| && (to != from ==> Evictable(es, bs, from))
  {
    if to == from then es' == es && bs' == bs && head' == head
    else Relocated(es, bs, head, to, from, es', bs', head')
  }

  /** The live slots are those up to `from` except `to`. */
  ghost predicate Gap<K, V>(v: View<K, V>, to: nat, from: nat) {
    && to !in v.order && to <= from == |v.order| < |v.es|
    && (forall s :: s in v.order ==> s <= from)
    && (to != from ==> from in v.order && Evictable(v.es, v.bs, from))
  }

  lemma CopyColumns<K, V>(es: seq<Element<K, V>>, to: nat, from: nat)
    requires to < |es| && from < |es|
    ensures
      var es' := es[to := es[from]];
      && Nexts(es') == Nexts(es)[to := Nexts(es)[from]]
      && Prevs(es') == Prevs(es)[to := Prevs(es)[from]]
      && NextBuckets(es') == NextBuckets(es)[to := NextBuckets(es)[from]]
      && PrevBuckets(es') == PrevBuckets(es)[to := PrevBuckets(es)[from]]
      && Positions(es') == Positions(es)[to := Positions(es)[from]]
  {
  }

  lemma RelocateColumns<K, V>(es: seq<Element<K, V>>, bs: seq<nat>, es1: seq<Element<K, V>>, es2: seq<Element<K, V>>,
                              to: nat, from: nat, es': seq<Element<K, V>>, bs': seq<nat>)
    requires Evictable(es, bs, from) && to < |es|
    requires SameButTime(es, es1) && SameButBucket(es1, es2)
    requires NextBuckets(es2) == NextBuckets(es1)[es1[from].prevBucket := to]
    requires PrevBuckets(es2) == PrevBuckets(es1)[es1[from].nextBucket := to]
    requires Positions(es2) == Positions(es1)
    requires es' == es2[to := es2[from]]
    requires bs' == if bs[es[from].bucketPos] == from then bs[es[from].bucketPos := to] else bs
    ensures Columns(es', bs') == Moved(Columns(es, bs), to, from)
  {
    CopyColumns(es2, to, from);
    assert Columns(es1, bs) == Columns(es, bs);
  }

  lemma MakeRelocated<K, V>(es: seq<Element<K, V>>, bs: seq<nat>, head: nat, es1: seq<Element<K, V>>, es2: seq<Element<K, V>>,
                            to: nat, from: nat, es': seq<Element<K, V>>, bs': seq<nat>, head': nat)
    requires Evictable(es, bs, from) && to < |es|
    requires SameButTime(es, es1) && SameButBucket(es1, es2)
    requires Nexts(es1) == Nexts(es)[es[from].prev := to] && Prevs(es1) == Prevs(es)[es[from].next := to]
    requires es' == es2[to := es2[from]]
    requires Columns(es', bs') == Moved(Columns(es, bs), to, from)
    requires head' == if from == head then to else head
    ensures Relocated(es, bs, head, to, from, es', bs', head')
  {
    CopyColumns(es2, to, from);
    assert Nexts(es2) == Nexts(es1) && Prevs(es2) == Prevs(es1);
  }

  lemma LiveEvictable<K, V>(v: View<K, V>, k: nat)
    requires Wf(v) && k < |v.order|
    ensures Evictable(v.es, v.bs, v.order[k])
    ensures v.es[v.order[k]].prev == v.order[if k == 0 then |v.order| - 1 else k - 1]
    ensures v.es[v.order[k]].next == Succ(v.order, k)
  {
    hide Wf, Bucketed, RL.DistinctKeys;
    WfParts(v);
    var j := LiveInBucket(Columns(v.es, v.bs), v.order, v.rings, v.order[k]);
    var p := if k == 0 then |v.order| - 1 else k - 1;
    assert Succ(v.order, p) == v.order[k];
    assert Prevs(v.es)[Succ(v.order, p)] == v.order[p];
    assert Nexts(v.es)[v.order[k]] == Succ(v.order, k);
  }

  lemma EvictTime<K, V>(es: seq<Element<K, V>>, order: seq<nat>, k: nat, es': seq<Element<K, V>>)
    requires Ring(Nexts(es), Prevs(es), order) && k < |order| && order[k] < |es| == |es'|
    requires es[order[k]].prev < |es| && es[order[k]].next < |es|
    requires Nexts(es') == Nexts(es)[es[order[k]].prev := es[order[k]].next]
    requires Prevs(es') == Prevs(es)[es[order[k]].next := es[order[k]].prev]
    ensures Ring(Nexts(es'), Prevs(es'), Without(order, k))
    ensures k > 0 ==> es[order[k]].prev == order[k - 1]
  {
    RingRemove(Nexts(es), Prevs(es), order, k);
    if k > 0 {
      assert Prevs(es)[Succ(order, k - 1)] == order[k - 1];
    }
  }

  lemma EvictEntries<K, V>(es: seq<Element<K, V>>, order: seq<nat>, k: nat, es': seq<Element<K, V>>)
    requires InRange(order, |es|) && |es'| == |es| && k < |order| && RL.DistinctKeys(Entries(es, order))
    requires forall i :: 0 <= i < |es| ==> SameData(es[i], es'[i])
    ensures InRange(Without(order, k), |es'|)
    ensures RL.DistinctKeys(Entries(es', Without(order, k)))
    ensures Entries(es', Without(order, k)) == Without(Entries(es, order), k)
  {
    EntriesWithout(es, es', order, k);
    RL.DropFacts(Entries(es, order), k);
  }

  lemma EvictBucketed(c: Buckets, order: seq<nat>, rings: seq<seq<nat>>, k: nat) returns (rings': seq<seq<nat>>)
    requires Bucketed(c, order, rings) && Distinct(order) && k < |order|
    ensures InBucket(c, order[k])
    ensures Bucketed(Unlinked(c, order[k]), Without(order, k), rings')
    ensures |rings'| == |rings| && c.pos[order[k]] < |rings| && rings[c.pos[order[k]]] != []
    ensures forall b :: 0 <= b < |rings| && b != c.pos[order[k]] ==> rings'[b] == rings[b]
    ensures rings'[c.pos[order[k]]] == [] ==> Unlinked(c, order[k]).prev[order[k]] == order[k]
  {
    var j := LiveInBucket(c, order, rings, order[k]);
    var b := c.pos[order[k]];
    rings' := rings[b := RingWithout(rings[b], j)];
    EvictBuckets(c, order, rings, k, b, j);
  }

  /** v' is v without its k-th live slot, which is free and unlinked. */
  ghost predicate Without1<K, V>(v: View<K, V>, k: nat, v': View<K, V>) {
    && Wf(v) && k < |v.order| && v.order[k] < |v.es| == |v'.es|
    && v'.order == Without(v.order, k)
    && Wf(v') && ListOf(v') == Without(ListOf(v), k)
    && var b := v.es[v.order[k]].bucketPos;
    && |v'.rings| == |v.rings| && b < |v.rings|
    && (forall b' :: 0 <= b' < |v.rings| && b' != b ==> v'.rings[b'] == v.rings[b'])
    && v.rings[b] != []
    && (v'.rings[b] == [] ==> v'.es[v.order[k]].prevBucket == v.order[k])
  }

  /** Eviction removes the k-th entry of the list. */
  lemma EvictWf<K, V>(v: View<K, V>, k: nat, es': seq<Element<K, V>>, bs': seq<nat>, head': nat) returns (v': View<K, V>)
    requires Wf(v) && k < |v.order|
    requires Evictable(v.es, v.bs, v.order[k]) && Evicted(v.es, v.bs, v.head, v.order[k], es', bs', head')
    ensures v'.es == es' && v'.bs == bs' && v'.head == head' && Without1(v, k, v')
    ensures v'.order == Without(v.order, k) && Distinct(v.order)
  {
    hide Wf, Ring, Bucketed, RL.DistinctKeys;
    WfParts(v);
    var rings' := EvictBucketed(Columns(v.es, v.bs), v.order, v.rings, k);
    EvictTime(v.es, v.order, k, es');
    EvictEntries(v.es, v.order, k, es');
    v' := View(es', bs', head', Without(v.order, k), rings');
    MakeWf(v');
  }

  lemma EvictPlaced<K, V>(v: View<K, V>, hash: K -> uint32, mask: nat, k: nat, v': View<K, V>)
    requires Placed(v, hash, mask) && Distinct(v.order) && k < |v.order| && v'.order == Without(v.order, k)
    requires Evictable(v.es, v.bs, v.order[k]) && Evicted(v.es, v.bs, v.head, v.order[k], v'.es, v'.bs, v'.head)
    ensures Placed(v', hash, mask)
  {
    WithoutDistinct(v.order, k);
    assert forall i :: 0 <= i < |v.es| ==> Positions(v'.es)[i] == Positions(v.es)[i];
  }

  /** An eviction from a dense cache leaves a gap. */
  lemma GapAfterEvict<K, V>(v: View<K, V>, k: nat, v': View<K, V>, len': nat)
    requires Without1(v, k, v') && InRange(v.order, |v.order|) && len' == |v.order| - 1 < |v.es|
    ensures Wf(v') && Gap(v', v.order[k], len')
    ensures ListOf(v') == Without(ListOf(v), k)
  {
    hide Wf, Ring, Bucketed, RL.DistinctKeys;
    WfParts(v);
    WithoutDistinct(v.order, k);
    if v.order[k] != len' {
      AllSlots(v.order, |v.order|, len');
      var k' :| 0 <= k' < |v'.order| && v'.order[k'] == len';
      LiveEvictable(v', k');
    }
  }

  lemma GapEvictable<K, V>(v: View<K, V>, to: nat, from: nat)
    requires Gap(v, to, from)
    ensures to < |v.es| && (to != from ==> Evictable(v.es, v.bs, from))
  {
  }

  lemma RelocateEntries<K, V>(es: seq<Element<K, V>>, order: seq<nat>, k: nat, to: nat, es': seq<Element<K, V>>)
    requires InRange(order, |es|) && |es'| == |es| && Distinct(order) && k < |order| && to < |es| && to !in order
    requires forall i :: 0 <= i < |es| && i != to ==> SameData(es[i], es'[i])
    requires SameData(es[order[k]], es'[to])
    ensures InRange(Renamed(order, k, to), |es'|)
    ensures Entries(es', Renamed(order, k, to)) == Entries(es, order)
  {
  }

  lemma RenamedLast(order: seq<nat>, k: nat, to: nat)
    requires k < |order| && Distinct(order)
    ensures
      var order' := Renamed(order, k, to);
      && order' == order[k := to] && |order'| == |order|
      && order'[|order| - 1] == (if order[k] == order[|order| - 1] then to else order[|order| - 1])
  {
  }

  lemma RelocateRing<K, V>(v: View<K, V>, k: nat, to: nat, es': seq<Element<K, V>>, bs': seq<nat>, head': nat)
    requires Wf(v) && k < |v.order| && to < |v.es| && to !in v.order
    requires Evictable(v.es, v.bs, v.order[k]) && Relocated(v.es, v.bs, v.head, to, v.order[k], es', bs', head')
    ensures Ring(Nexts(es'), Prevs(es'), Renamed(v.order, k, to))
  {
    hide Wf, Ring, Bucketed, Columns, Moved;
    WfParts(v);
    RingRename(Nexts(v.es), Prevs(v.es), v.order, k, to);
  }

  lemma RelocateBucketed<K, V>(v: View<K, V>, k: nat, to: nat, es': seq<Element<K, V>>, bs': seq<nat>, head': nat)
    returns (rings': seq<seq<nat>>)
    requires Wf(v) && k < |v.order| && to < |v.es| && to !in v.order
    requires Evictable(v.es, v.bs, v.order[k]) && Relocated(v.es, v.bs, v.head, to, v.order[k], es', bs', head')
    ensures |bs'| == |es'| && Bucketed(Columns(es', bs'), Renamed(v.order, k, to), rings')
  {
    hide Wf, Ring, Bucketed, Nexts, Prevs;
    WfParts(v);
    var from, c := v.order[k], Columns(v.es, v.bs);
    var j := LiveInBucket(c, v.order, v.rings, from);
    var b := c.pos[from];
    MoveBuckets(c, v.order, v.rings, k, b, j, to);
    rings' := v.rings[b := Renamed(v.rings[b], j, to)];
  }

  lemma RelocateList<K, V>(v: View<K, V>, k: nat, to: nat, es': seq<Element<K, V>>, bs': seq<nat>, head': nat)
    requires Wf(v) && k < |v.order| && to < |v.es| && to !in v.order
    requires Evictable(v.es, v.bs, v.order[k]) && Relocated(v.es, v.bs, v.head, to, v.order[k], es', bs', head')
    ensures
      var order' := Renamed(v.order, k, to);
      && InRange(order', |es'|) && Entries(es', order') == ListOf(v)
      && order' != [] && head' == order'[|order'| - 1] && RL.DistinctKeys(ListOf(v))
  {
    hide Wf, Ring, Bucketed, RL.DistinctKeys, Columns, Moved, Nexts, Prevs;
    WfParts(v);
    RelocateEntries(v.es, v.order, k, to, es');
    RenamedLast(v.order, k, to);
  }

  /** Relocation does not change the list. */
  lemma RelocateWf<K, V>(v: View<K, V>, k: nat, to: nat, es': seq<Element<K, V>>, bs': seq<nat>, head': nat)
    returns (v': View<K, V>)
    requires Wf(v) && k < |v.order| && to < |v.es| && to !in v.order
    requires Evictable(v.es, v.bs, v.order[k]) && Relocated(v.es, v.bs, v.head, to, v.order[k], es', bs', head')
    ensures v' == View(es', bs', head', Renamed(v.order, k, to), v'.rings)
    ensures Wf(v') && ListOf(v') == ListOf(v)
  {
    hide *;
    var rings' := RelocateBucketed(v, k, to, es', bs', head');
    RelocateRing(v, k, to, es', bs', head');
    RelocateList(v, k, to, es', bs', head');
    v' := View(es', bs', head', Renamed(v.order, k, to), rings');
    MakeWf(v');
  }

  lemma RelocatePlaced<K, V>(v: View<K, V>, hash: K -> uint32, mask: nat, k: nat, to: nat, v': View<K, V>)
    requires Placed(v, hash, mask) && Distinct(v.order) && k < |v.order| && to < |v.es| && to !in v.order
    requires Evictable(v.es, v.bs, v.order[k]) && v'.order == Renamed(v.order, k, to)
    requires Relocated(v.es, v.bs, v.head, to, v.order[k], v'.es, v'.bs, v'.head)
    ensures Placed(v', hash, mask)
  {
    RenamedMembers(v.order, k, to);
    assert Positions(v'.es)[to] == Positions(v.es)[v.order[k]];
    assert forall i :: 0 <= i < |v.es| && i != to ==> Positions(v'.es)[i] == Positions(v.es)[i];
  }

  lemma ClearWf<K, V>(v: View<K, V>, hash: K -> uint32, mask: nat, s: nat, es': seq<Element<K, V>>, key: K, value: V)
    requires Wf(v) && Placed(v, hash, mask) && s < |v.es| && s !in v.order
    requires es' == v.es[s := v.es[s].(key := key, value := value)]
    ensures Wf(v.(es := es')) && Placed(v.(es := es'), hash, mask) && ListOf(v.(es := es')) == ListOf(v)
  {
    hide Wf, Ring, Bucketed, RL.DistinctKeys, Placed;
    WfParts(v);
    DataOnly(v.es, es', v.bs);
    DeadSlot(v.es, es', v.order, s);
    ClearPlaced(v, hash, mask, s, es');
    MakeWf(v.(es := es'));
  }

  lemma DeadSlot<K, V>(es: seq<Element<K, V>>, es': seq<Element<K, V>>, order: seq<nat>, s: nat)
    requires |es| == |es'| && InRange(order, |es|) && s !in order
    requires forall i :: 0 <= i < |es| && i != s ==> es'[i] == es[i]
    ensures Entries(es', order) == Entries(es, order)
  {
  }

  lemma ClearPlaced<K, V>(v: View<K, V>, hash: K -> uint32, mask: nat, s: nat, es': seq<Element<K, V>>)
    requires Placed(v, hash, mask) && s !in v.order && |es'| == |v.es|
    requires forall i :: 0 <= i < |v.es| && i != s ==> es'[i] == v.es[i]
    ensures Placed(v.(es := es'), hash, mask)
  {
  }

  lemma DataOnly<K, V>(es: seq<Element<K, V>>, es': seq<Element<K, V>>, bs: seq<nat>)
    requires |es| == |es'|
    requires forall i :: 0 <= i < |es| ==> es'[i] == es[i].(key := es'[i].key, value := es'[i].value, expire := es'[i].expire)
    ensures Nexts(es') == Nexts(es) && Prevs(es') == Prevs(es) && Columns(es', bs) == Columns(es, bs)
  {
  }

  lemma DenseAfterMove(order: seq<nat>, k: nat, to: nat, from: nat)
    requires Distinct(order) && to !in order && to <= from && |order| == from
    requires forall s :: s in order ==> s <= from
    requires to != from ==> k < |order| && order[k] == from
    ensures InRange(if to == from then order else Renamed(order, k, to), from)
  {
    if to != from {
      forall i | 0 <= i < |order| ensures Renamed(order, k, to)[i] < from {
        assert order[i] in order;
        assert i != k ==> order[i] != order[k];
      }
    } else {
      forall i | 0 <= i < |order| ensures order[i] < from {
        assert order[i] in order;
      }
    }
  }

  /** Filling the gap keeps the list and makes the live slots dense again. */
  lemma AfterMove<K, V>(v: View<K, V>, hash: K -> uint32, mask: nat, to: nat, from: nat,
                        es': seq<Element<K, V>>, bs': seq<nat>, head': nat, es'': seq<Element<K, V>>, key: K, value: V)
    returns (v': View<K, V>)
    requires Wf(v) && Placed(v, hash, mask)
    requires to < |v.es| && (to != from ==> Evictable(v.es, v.bs, from))
    requires Gap(v, to, from) && Filled(v.es, v.bs, v.head, to, from, es', bs', head')
    requires from < |es'| && es'' == es'[from := es'[from].(key := key, value := value)]
    ensures v' == View(es'', bs', head', v'.order, v'.rings)
    ensures Wf(v') && Placed(v', hash, mask) && ListOf(v') == ListOf(v)
    ensures |v'.order| == |v.order| == from && InRange(v'.order, from)
  {
    var v1 := v;
    if to == from {
      DenseAfterMove(v.order, 0, to, from);
    } else {
      var k :| 0 <= k < |v.order| && v.order[k] == from;
      DenseAfterMove(v.order, k, to, from);
      v1 := RelocateWf(v, k, to, es', bs', head');
      RelocatePlaced(v, hash, mask, k, to, v1);
      RenamedMembers(v.order, k, to);
    }
    ClearWf(v1, hash, mask, from, es'', key, value);
    v' := v1.(es := es'');
  }

  // ----- using and replacing a live entry

  lemma TouchReady<K, V>(v: View<K, V>, k: nat)
    requires Wf(v) && k < |v.order|
    ensures Distinct(v.order) && v.head == v.order[|v.order| - 1] < |v.es|
    ensures v.order[k] < |v.es| && v.es[v.order[k]].prev < |v.es| && v.es[v.order[k]].next < |v.es|
    ensures v.es[v.order[k]].prev == v.order[k] ==> v.es[v.order[k]].next == v.order[k]
    ensures v.order[k] == v.head <==> k == |v.order| - 1
    ensures k < |v.order| - 1 ==> Nexts(v.es)[v.es[v.order[k]].prev := v.es[v.order[k]].next][v.head] < |v.es|
    ensures k == |v.order| - 1 ==>
      Without(v.order, k) + [v.order[k]] == v.order && Without(ListOf(v), k) + [ListOf(v)[k]] == ListOf(v)
  {
    hide Wf, Ring, Bucketed, RL.DistinctKeys, Without, InBucket, Entries;
    WfParts(v);
    LiveEvictable(v, k);
    if k < |v.order| - 1 {
      RingTouch(Nexts(v.es), Prevs(v.es), v.order, k);
    } else {
      LastStays(v.order);
      LastStays(ListOf(v));
    }
  }

  lemma LastStays<T>(s: seq<T>)
    requires s != []
    ensures Without(s, |s| - 1) + [s[|s| - 1]] == s
  {
  }

  /** Using the k-th entry moves it to the recent end and changes nothing else. */
  lemma TouchWf<K, V>(v: View<K, V>, hash: K -> uint32, mask: nat, k: nat, es1: seq<Element<K, V>>, es': seq<Element<K, V>>)
    returns (v': View<K, V>)
    requires Wf(v) && Placed(v, hash, mask) && k < |v.order| - 1
    requires v.order[k] < |v.es| && v.es[v.order[k]].prev < |v.es| && v.es[v.order[k]].next < |v.es| && v.head < |v.es|
    requires SameButTime(v.es, es1) && SameButTime(es1, es')
    requires Nexts(es1) == Nexts(v.es)[v.es[v.order[k]].prev := v.es[v.order[k]].next]
    requires Prevs(es1) == Prevs(v.es)[v.es[v.order[k]].next := v.es[v.order[k]].prev]
    requires es1[v.head].next < |v.es|
    requires Nexts(es') == Nexts(es1)[v.order[k] := es1[v.head].next][v.head := v.order[k]]
    requires Prevs(es') == Prevs(es1)[v.order[k] := v.head][es1[v.head].next := v.order[k]]
    ensures v' == View(es', v.bs, v.order[k], Without(v.order, k) + [v.order[k]], v.rings)
    ensures Wf(v') && Placed(v', hash, mask)
    ensures ListOf(v') == Without(ListOf(v), k) + [ListOf(v)[k]]
  {
    hide Wf, Ring, Bucketed, RL.DistinctKeys, Placed;
    WfParts(v);
    var pos := v.order[k];
    var order' := Without(v.order, k) + [pos];
    v' := View(es', v.bs, pos, order', v.rings);
    RingTouch(Nexts(v.es), Prevs(v.es), v.order, k);
    assert SameButTime(v.es, es');
    TouchMembers(v.order, k);
    TouchRest(v, k, es');
    TouchPlaced(v, hash, mask, v');
    MakeWf(v');
  }

  lemma TouchMembers(order: seq<nat>, k: nat)
    requires Distinct(order) && k < |order|
    ensures forall s :: s in order <==> s in Without(order, k) + [order[k]]
  {
    WithoutDistinct(order, k);
  }

  lemma TouchDistinct<K, V>(l: seq<RL.Entry<K, V>>, k: nat)
    requires RL.DistinctKeys(l) && k < |l|
    ensures RL.DistinctKeys(Without(l, k) + [l[k]])
  {
    RL.DropFacts(l, k);
  }

  lemma TouchRest<K, V>(v: View<K, V>, k: nat, es': seq<Element<K, V>>)
    requires Wf(v) && k < |v.order| && SameButTime(v.es, es')
    ensures
      var order' := Without(v.order, k) + [v.order[k]];
      && Bucketed(Columns(es', v.bs), order', v.rings)
      && InRange(order', |es'|)
      && Entries(es', order') == Without(ListOf(v), k) + [ListOf(v)[k]]
      && RL.DistinctKeys(Entries(es', order'))
  {
    hide Wf, Ring, Bucketed, RL.DistinctKeys;
    WfParts(v);
    assert Columns(es', v.bs) == Columns(v.es, v.bs);
    TouchMembers(v.order, k);
    Reordered(Columns(v.es, v.bs), v.order, v.rings, Without(v.order, k) + [v.order[k]]);
    EntriesTouched(v.es, es', v.order, k);
    TouchDistinct(ListOf(v), k);
  }

  lemma TouchPlaced<K, V>(v: View<K, V>, hash: K -> uint32, mask: nat, v': View<K, V>)
    requires Placed(v, hash, mask) && SameButTime(v.es, v'.es)
    requires forall s :: s in v'.order ==> s in v.order
    ensures Placed(v', hash, mask)
  {
  }

  lemma OverwriteEntries<K, V>(es: seq<Element<K, V>>, order: seq<nat>, k: nat, es': seq<Element<K, V>>, value: V, expire: int)
    requires InRange(order, |es|) && Distinct(order) && k < |order| && RL.DistinctKeys(Entries(es, order))
    requires es' == es[order[k] := es[order[k]].(value := value, expire := expire)]
    ensures Entries(es', order) == Entries(es, order)[k := RL.Entry(Entries(es, order)[k].key, value, expire)]
    ensures RL.DistinctKeys(Entries(es', order))
  {
    var l, l' := Entries(es, order), Entries(es', order);
    forall i | 0 <= i < |l| ensures l'[i] == if i == k then RL.Entry(l[k].key, value, expire) else l[i] {
      assert i != k ==> order[i] != order[k];
    }
  }

  lemma OverwritePlaced<K, V>(v: View<K, V>, hash: K -> uint32, mask: nat, es': seq<Element<K, V>>)
    requires Placed(v, hash, mask) && |es'| == |v.es|
    requires forall i :: 0 <= i < |es'| ==> es'[i].key == v.es[i].key && es'[i].bucketPos == v.es[i].bucketPos
    ensures Placed(v.(es := es'), hash, mask)
  {
  }

  lemma OverwriteWf<K, V>(v: View<K, V>, hash: K -> uint32, mask: nat, k: nat, es': seq<Element<K, V>>, value: V, expire: int)
    requires Wf(v) && Placed(v, hash, mask) && k < |v.order| && v.order[k] < |v.es|
    requires es' == v.es[v.order[k] := v.es[v.order[k]].(value := value, expire := expire)]
    ensures Wf(v.(es := es')) && Placed(v.(es := es'), hash, mask)
    ensures ListOf(v.(es := es')) == ListOf(v)[k := RL.Entry(ListOf(v)[k].key, value, expire)]
  {
    hide Wf, Ring, Bucketed, RL.DistinctKeys, Placed;
    WfParts(v);
    DataOnly(v.es, es', v.bs);
    OverwriteEntries(v.es, v.order, k, es', value, expire);
    OverwritePlaced(v, hash, mask, es');
    MakeWf(v.(es := es'));
  }

  // ----- storing a new entry

  /** pos is a free slot and the live slots with pos are dense. */
  ghost predicate Ready<K, V>(v: View<K, V>, pos: nat, len: nat) {
    && Wf(v) && pos < |v.es| && pos !in v.order && |v.order| == len && InRange(v.order + [pos], len + 1)
  }

  /** What making room did: nothing, or dropping the oldest entry. */
  ghost predicate RoomMade<K, V>(v: View<K, V>, v': View<K, V>, pos: nat, evicted: bool) {
    && Wf(v) && Wf(v') && pos < |v'.es|
    && ListOf(v') == (if evicted && |v.order| > 0 then ListOf(v)[1..] else ListOf(v))
    && |v'.rings| == |v.rings|
    && (forall b :: 0 <= b < |v.rings| && v.rings[b] == [] ==> v'.rings[b] == [])
    && (forall b :: 0 <= b < |v.rings| && v.rings[b] != [] && v'.rings[b] == [] ==> v'.es[pos].prevBucket == pos)
    && (!evicted ==> v' == v)
  }

  lemma ReadyByEviction<K, V>(v: View<K, V>, v': View<K, V>, pos: nat)
    requires Without1(v, 0, v') && v.order[0] == pos && InRange(v.order, |v.order|)
    ensures Ready(v', pos, |v.order| - 1)
  {
    hide Wf, Ring, Bucketed, RL.DistinctKeys;
    WfParts(v);
    WithoutDistinct(v.order, 0);
    forall i | 0 <= i < |v'.order| ensures v'.order[i] < |v.order| {
      assert v'.order[i] in v'.order;
    }
  }

  lemma RoomByEviction<K, V>(v: View<K, V>, v': View<K, V>, pos: nat)
    requires Without1(v, 0, v') && v.order[0] == pos
    ensures RoomMade(v, v', pos, true)
  {
    hide Wf, Ring, Bucketed, RL.DistinctKeys;
    assert Without(ListOf(v), 0) == ListOf(v)[1..];
  }

  lemma RoomAtEnd<K, V>(v: View<K, V>, pos: nat)
    requires Wf(v) && pos == |v.order| < |v.es| && InRange(v.order, pos)
    ensures Ready(v, pos, pos) && RoomMade(v, v, pos, false)
  {
    hide Wf, Ring, Bucketed, RL.DistinctKeys;
  }

  lemma PushColumns<K, V>(es: seq<Element<K, V>>, bs: seq<nat>, r: seq<nat>, b: nat, pos: nat, start: nat, last: nat,
                          es1: seq<Element<K, V>>, es2: seq<Element<K, V>>, es': seq<Element<K, V>>, bs': seq<nat>)
    requires pos < |es| == |bs| && b < |bs| && start < |es| && last < |es| && last == es[start].prevBucket
    requires if r == [] then start == pos && last == pos else start == r[0] && r[0] != pos
    requires es1 == es[pos := es[pos].(bucketPos := b, nextBucket := start, prevBucket := last)]
    requires es2 == es1[last := es1[last].(nextBucket := pos)]
    requires es' == es2[start := es2[start].(prevBucket := pos)]
    requires bs' == bs[b := pos]
    ensures SameButBucket(es, es')
    ensures Columns(es', bs') == Pushed(Columns(es, bs), r, b, pos)
  {
    assert NextBuckets(es') == NextBuckets(es)[pos := start][last := pos];
    assert PrevBuckets(es') == PrevBuckets(es)[pos := last][start := pos];
    assert Positions(es') == Positions(es)[pos := b];
  }

  ghost predicate Inserted<K, V>(es: seq<Element<K, V>>, head: nat, empty: bool, pos: nat, e: RL.Entry<K, V>,
                                 es': seq<Element<K, V>>, head': nat)
  {
    && |es'| == |es| && pos < |es| && head' == pos
    && (!empty ==> head < |es| && es[head].next < |es|)
    && Nexts(es') == (if empty then Nexts(es)[pos := pos] else Nexts(es)[pos := es[head].next][head := pos])
    && Prevs(es') == (if empty then Prevs(es)[pos := pos] else Prevs(es)[pos := head][es[head].next := pos])
    && NextBuckets(es') == NextBuckets(es) && PrevBuckets(es') == PrevBuckets(es) && Positions(es') == Positions(es)
    && (forall i :: 0 <= i < |es| && i != pos ==> SameData(es[i], es'[i]))
    && RL.Entry(es'[pos].key, es'[pos].value, es'[pos].expire) == e
  }

  // ----- finding an entry

  /** No slot of bucket b holds key. */
  ghost predicate Absent<K, V>(v: View<K, V>, b: nat, key: K) {
    && b < |v.rings|
    && forall j :: 0 <= j < |v.rings[b]| ==> v.rings[b][j] < |v.es| && v.es[v.rings[b][j]].key != key
  }

  lemma StartOf<K, V>(v: View<K, V>, b: nat)
    requires Wf(v) && b < |v.bs|
    ensures |v.rings| == |v.bs| == |v.es|
    ensures v.bs[b] == if v.rings[b] == [] then EMPTY_BUCKET else v.rings[b][0]
    ensures v.rings[b] != [] ==> v.rings[b][0] < |v.es| && v.rings[b][0] in v.order && v.es[v.rings[b][0]].prevBucket < |v.es|
  {
    assert Chain(Columns(v.es, v.bs), v.order, v.rings[b], b);
    ChainPushable(Columns(v.es, v.bs), v.order, v.rings[b], b, 0);
  }

  lemma RingStep<K, V>(v: View<K, V>, b: nat, i: nat)
    requires Wf(v) && b < |v.rings| && i < |v.rings[b]|
    ensures v.rings[b][i] < |v.es| && v.es[v.rings[b][i]].nextBucket == Succ(v.rings[b], i)
    ensures Succ(v.rings[b], i) == v.rings[b][0] <==> i + 1 == |v.rings[b]|
  {
    assert Chain(Columns(v.es, v.bs), v.order, v.rings[b], b);
  }

  /** A key missing from its bucket is missing from the list. */
  lemma NotStored<K, V>(v: View<K, V>, hash: K -> uint32, mask: nat, key: K, b: nat)
    requires Wf(v) && Placed(v, hash, mask) && b == BucketOf(hash(key), mask, |v.es|) < |v.rings|
    requires v.rings[b] == [] || Absent(v, b, key)
    ensures RL.Find(ListOf(v), key) == |ListOf(v)|
  {
    forall i | 0 <= i < |v.order| ensures ListOf(v)[i].key != key {
      assert v.order[i] in v.order;
      assert v.order[i] in v.rings[v.es[v.order[i]].bucketPos];
    }
  }

  /** A slot found in the bucket of its key is where the list has the key. */
  lemma Stored<K, V>(v: View<K, V>, key: K, b: nat, pos: nat) returns (k: nat)
    requires Wf(v) && b < |v.rings| && pos in v.rings[b] && pos < |v.es| && v.es[pos].key == key
    ensures k < |v.order| && v.order[k] == pos && k == RL.Find(ListOf(v), key)
    ensures ListOf(v)[k] == RL.Entry(key, v.es[pos].value, v.es[pos].expire)
  {
    assert Chain(Columns(v.es, v.bs), v.order, v.rings[b], b);
    k :| 0 <= k < |v.order| && v.order[k] == pos;
    RL.FindUnique(ListOf(v), k);
  }

  lemma EntryAt<K, V>(v: View<K, V>, k: nat)
    requires Wf(v) && k < |v.order|
    ensures v.order[k] < |v.es|
    ensures ListOf(v)[k] == RL.Entry(v.es[v.order[k]].key, v.es[v.order[k]].value, v.es[v.order[k]].expire)
  {
  }

  // ----- storing a new entry, continued

  lemma ReplaceList<K, V>(l: seq<RL.Entry<K, V>>, k: nat, e: RL.Entry<K, V>)
    requires k < |l| && RL.Find(l, e.key) == k
    ensures Without(l[k := e], k) + [l[k := e][k]] == Without(l, k) + [e]
  {
  }

  lemma FindInTail<K, V>(l: seq<RL.Entry<K, V>>, key: K)
    requires |l| > 0 && RL.Find(l, key) == |l|
    ensures RL.Find(l[1..], key) == |l| - 1
  {
  }

  lemma NewEntryList<K, V>(v: View<K, V>, v1: View<K, V>, pos: nat, evicted: bool, e: RL.Entry<K, V>, cap: nat)
    requires Wf(v) && RoomMade(v, v1, pos, evicted) && RL.Find(ListOf(v), e.key) == |ListOf(v)|
    requires evicted == (|v.order| == cap) && cap > 0
    ensures Wf(v1) && RL.Find(ListOf(v1), e.key) == |ListOf(v1)|
    ensures RL.Add(ListOf(v), cap, e) == ListOf(v1) + [e]
    ensures evicted == RL.Evicts(ListOf(v), cap, e.key)
  {
    hide Wf;
    if evicted {
      FindInTail(ListOf(v), e.key);
    }
  }

  lemma RoomParts<K, V>(v: View<K, V>, v1: View<K, V>, pos: nat, evicted: bool, len: nat, b: nat)
    requires RoomMade(v, v1, pos, evicted) && Ready(v1, pos, len) && b < |v.bs|
    ensures Wf(v) && Wf(v1) && pos < |v1.es| && pos !in v1.order
    ensures |v.rings| == |v1.rings| == |v.bs|
    ensures v.rings[b] == [] ==> v1.rings[b] == []
    ensures v.rings[b] != [] && v1.rings[b] == [] ==> evicted && v1.es[pos].prevBucket == pos
    ensures !evicted ==> v1 == v
  {
    StartOf(v, b);
  }

  /** The free slot pos was filed in front of bucket b. */
  ghost predicate Pushed1<K, V>(v: View<K, V>, pos: nat, b: nat, es': seq<Element<K, V>>, bs': seq<nat>) {
    && |v.rings| == |v.bs| == |v.es| && b < |v.bs| && pos < |v.es|
    && (v.rings[b] != [] ==> v.rings[b][0] < |v.es| && v.es[v.rings[b][0]].prevBucket < |v.es|)
    && SameButBucket(v.es, es')
    && Columns(es', bs') == Pushed(Columns(v.es, v.bs), v.rings[b], b, pos)
  }

  lemma ReadyHead<K, V>(v: View<K, V>, pos: nat, len: nat, b: nat, es': seq<Element<K, V>>, bs': seq<nat>)
    requires Ready(v, pos, len) && Pushed1(v, pos, b, es', bs')
    ensures pos < |es'|
    ensures len != 0 ==> v.head < |es'| && es'[v.head].next < |es'| && pos != v.head
  {
    if len != 0 {
      RingMember(Nexts(v.es), Prevs(v.es), v.order, v.head);
    }
  }

  lemma PushTime<K, V>(es: seq<Element<K, V>>, order: seq<nat>, head: nat, pos: nat, e: RL.Entry<K, V>, es': seq<Element<K, V>>)
    requires Ring(Nexts(es), Prevs(es), order) && pos < |es| && pos !in order
    requires order != [] ==> head == order[|order| - 1]
    requires Inserted(es, head, order == [], pos, e, es', pos)
    ensures Ring(Nexts(es'), Prevs(es'), order + [pos])
  {
    if order != [] {
      assert Nexts(es)[head] == Succ(order, |order| - 1) == order[0];
      RingAppend(Nexts(es), Prevs(es), order, pos);
    }
  }

  lemma PushEntries<K, V>(es: seq<Element<K, V>>, order: seq<nat>, pos: nat, e: RL.Entry<K, V>, es': seq<Element<K, V>>)
    requires |es| == |es'| && InRange(order, |es|) && pos < |es| && pos !in order
    requires forall i :: 0 <= i < |es| && i != pos ==> SameData(es[i], es'[i])
    requires e == RL.Entry(es'[pos].key, es'[pos].value, es'[pos].expire)
    requires RL.DistinctKeys(Entries(es, order)) && RL.Find(Entries(es, order), e.key) == |order|
    ensures InRange(order + [pos], |es|)
    ensures Entries(es', order + [pos]) == Entries(es, order) + [e]
    ensures RL.DistinctKeys(Entries(es', order + [pos]))
  {
    EntriesPushed(es, es', order, pos);
  }

  lemma PushPlaced<K, V>(v: View<K, V>, hash: K -> uint32, mask: nat, pos: nat, b: nat, e: RL.Entry<K, V>, v': View<K, V>)
    requires Placed(v, hash, mask) && pos !in v.order && |v'.es| == |v.es| && pos < |v.es|
    requires forall i :: 0 <= i < |v.es| && i != pos ==> SameData(v.es[i], v'.es[i])
    requires Positions(v'.es) == Positions(v.es)[pos := b]
    requires v'.es[pos].key == e.key && b == BucketOf(hash(e.key), mask, |v.es|)
    requires v'.order == v.order + [pos]
    ensures Placed(v', hash, mask)
  {
    forall s | s in v'.order
      ensures s < |v'.es| && v'.es[s].bucketPos == BucketOf(hash(v'.es[s].key), mask, |v'.es|)
    {
      assert Positions(v'.es)[s] == v'.es[s].bucketPos;
      if s != pos {
        assert s in v.order && Positions(v.es)[s] == v.es[s].bucketPos;
      }
    }
  }

  lemma PushBucketed<K, V>(v: View<K, V>, pos: nat, len: nat, b: nat, es1: seq<Element<K, V>>, bs': seq<nat>, es': seq<Element<K, V>>)
    requires Ready(v, pos, len) && Pushed1(v, pos, b, es1, bs')
    requires NextBuckets(es') == NextBuckets(es1) && PrevBuckets(es') == PrevBuckets(es1) && Positions(es') == Positions(es1)
    ensures Bucketed(Columns(es', bs'), v.order + [pos], v.rings[b := [pos] + v.rings[b]])
    ensures Positions(es') == Positions(v.es)[pos := b] && |bs'| == |v.bs|
  {
    hide Wf, Ring, Bucketed, RL.DistinctKeys;
    WfParts(v);
    PushBuckets(Columns(v.es, v.bs), v.order, v.rings, b, pos);
  }

  lemma InsertedParts<K, V>(es: seq<Element<K, V>>, es1: seq<Element<K, V>>, head: nat, empty: bool, pos: nat,
                            e: RL.Entry<K, V>, es': seq<Element<K, V>>, head': nat)
    requires SameButBucket(es, es1) && Inserted(es1, head, empty, pos, e, es', head')
    ensures |es'| == |es| == |es1| && pos < |es| && head' == pos
    ensures Nexts(es1) == Nexts(es) && Prevs(es1) == Prevs(es)
    ensures NextBuckets(es') == NextBuckets(es1) && PrevBuckets(es') == PrevBuckets(es1) && Positions(es') == Positions(es1)
    ensures forall i :: 0 <= i < |es| && i != pos ==> SameData(es[i], es'[i])
    ensures RL.Entry(es'[pos].key, es'[pos].value, es'[pos].expire) == e
  {
  }

  /** Linking a new entry into a free slot appends it to the list. */
  lemma PushWf<K, V>(v: View<K, V>, hash: K -> uint32, mask: nat, pos: nat, len: nat, b: nat,
                     es1: seq<Element<K, V>>, bs': seq<nat>, es': seq<Element<K, V>>, head': nat, e: RL.Entry<K, V>)
    returns (v': View<K, V>)
    requires Ready(v, pos, len) && Placed(v, hash, mask) && Pushed1(v, pos, b, es1, bs')
    requires Inserted(es1, v.head, len == 0, pos, e, es', head')
    requires b == BucketOf(hash(e.key), mask, |v.es|)
    requires Wf(v) && RL.Find(ListOf(v), e.key) == |ListOf(v)|
    ensures v'.es == es' && v'.bs == bs' && v'.head == head'
    ensures Wf(v') && Placed(v', hash, mask) && ListOf(v') == ListOf(v) + [e]
    ensures |v'.order| == len + 1 && InRange(v'.order, len + 1)
  {
    hide Wf, Placed, Ring, Bucketed, RL.DistinctKeys, Inserted;
    WfParts(v);
    v' := View(es', bs', head', v.order + [pos], v.rings[b := [pos] + v.rings[b]]);
    InsertedParts(v.es, es1, v.head, len == 0, pos, e, es', head');
    PushTime(es1, v.order, v.head, pos, e, es');
    PushBucketed(v, pos, len, b, es1, bs', es');
    PushEntries(v.es, v.order, pos, e, es');
    PushPlaced(v, hash, mask, pos, b, e, v');
    MakeWf(v');
  }
}
