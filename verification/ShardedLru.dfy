/** The sharded LRU of package freelru: a power-of-two number of LRUs, each
    guarded by its own mutex, so that every operation is one atomic step on the
    shard its key hashes to. */
module ShardedLru {
  import opened Bits
  import opened Common
  import opened FreeLru
  import opened LruSlots
  import opened LruView
  import opened ShardDimensions
  import RL = RecencyList

  // ----- the shards as lists

  /** (hash >> 16) & mask */
  function ShardOf(h: uint32, shards: nat): nat
    requires shards > 0
  {
    And(h / 0x1_0000, shards - 1)
  }

  /** The shard is the upper half of the hash modulo the number of shards. */
  lemma ShardExactly(h: uint32, shards: nat)
    requires IsPow2(shards)
    ensures ShardOf(h, shards) == (h / 65536) % shards
  {
    var k: nat :| shards == Pow2(k);
    AndMask(h / 0x1_0000, k);
  }

  lemma ShardInRange(h: uint32, shards: nat)
    requires IsPow2(shards)
    ensures ShardOf(h, shards) < shards
  {
    var k: nat :| shards == Pow2(k);
    AndMask(h / 0x1_0000, k);
  }

  function KeyOf<K, V>(op: RL.Op<K, V>): K {
    match op
    case AddOp(e) => e.key
    case GetOp(k, _) => k
  }

  /** One operation on its own shard; the others are untouched. */
  function ShardStep<K(==), V>(ls: seq<seq<RL.Entry<K, V>>>, cap: nat, shard: K -> nat, op: RL.Op<K, V>)
    : (r: seq<seq<RL.Entry<K, V>>>)
    ensures |r| == |ls|
  {
    var s := shard(KeyOf(op));
    if s < |ls| then ls[s := RL.Step(ls[s], cap, op)] else ls
  }

  function ShardRun<K(==), V>(ls: seq<seq<RL.Entry<K, V>>>, cap: nat, shard: K -> nat, ops: seq<RL.Op<K, V>>)
    : (r: seq<seq<RL.Entry<K, V>>>)
    ensures |r| == |ls|
    decreases |ops|
  {
    if ops == [] then ls else ShardRun(ShardStep(ls, cap, shard, ops[0]), cap, shard, ops[1..])
  }

  function OpsOf<K, V>(ops: seq<RL.Op<K, V>>, shard: K -> nat, s: nat): seq<RL.Op<K, V>>
    decreases |ops|
  {
    if ops == [] then []
    else if shard(KeyOf(ops[0])) == s then [ops[0]] + OpsOf(ops[1..], shard, s)
    else OpsOf(ops[1..], shard, s)
  }

  /** Every run of the sharded cache is, shard by shard, the run of a plain LRU
      on the operations whose keys hash there. */
  lemma {:induction false} ShardsAreIndependent<K, V>(ls: seq<seq<RL.Entry<K, V>>>, cap: nat, shard: K -> nat,
                                                      ops: seq<RL.Op<K, V>>, s: nat)
    requires s < |ls|
    ensures ShardRun(ls, cap, shard, ops)[s] == RL.Run(ls[s], cap, OpsOf(ops, shard, s))
    decreases |ops|
  {
    if ops != [] {
      var rest := OpsOf(ops[1..], shard, s);
      ShardsAreIndependent(ShardStep(ls, cap, shard, ops[0]), cap, shard, ops[1..], s);
      if shard(KeyOf(ops[0])) == s {
        assert ([ops[0]] + rest)[1..] == rest;
      }
    }
  }

  ghost predicate OwnKeys<K, V>(l: seq<RL.Entry<K, V>>, hash: K -> uint32, shards: nat, s: nat)
    requires shards > 0
  {
    forall e :: e in l ==> ShardOf(hash(e.key), shards) == s
  }

  lemma StepOwnKeys<K, V>(l: seq<RL.Entry<K, V>>, cap: nat, op: RL.Op<K, V>, hash: K -> uint32, shards: nat, s: nat)
    requires shards > 0 && OwnKeys(l, hash, shards, s) && ShardOf(hash(KeyOf(op)), shards) == s
    ensures OwnKeys(RL.Step(l, cap, op), hash, shards, s)
  {
    var i := RL.Find(l, KeyOf(op));
    forall e | e in RL.Step(l, cap, op) ensures ShardOf(hash(e.key), shards) == s {
      assert e in l || e.key == KeyOf(op);
    }
  }

  lemma SlicesLong(slices: seq<Slice>, size: nat)
    requires TilesAll(slices, size)
    ensures forall i :: 0 <= i < |slices| ==> slices[i].to == slices[i].from + size
  {
  }

  /** Empty shards that share nothing, each with the slots of one slice. */
  method MakeShards<K(==), V>(slices: seq<Slice>, cap: nat, size: nat, hash: K -> uint32, emptyKey: K, emptyValue: V)
    returns (made: seq<LRU<K, V>>)
    requires 0 < cap <= size < EMPTY_BUCKET
    requires forall i :: 0 <= i < |slices| ==> slices[i].to == slices[i].from + size
    ensures |made| == |slices|
    ensures forall i :: 0 <= i < |made| ==>
      && fresh(made[i]) && fresh(made[i].elements) && fresh(made[i].buckets)
      && made[i].Valid() && made[i].Contents() == [] && made[i].hash == hash && made[i].cap == cap
      && made[i].elements.Length == made[i].buckets.Length == slices[i].to - slices[i].from
    ensures forall i, j :: 0 <= i < j < |made| ==>
      made[i] != made[j] && made[i].elements != made[j].elements && made[i].buckets != made[j].buckets
  {
    hide Wf, Placed;
    made := [];
    while |made| < |slices|
      invariant |made| <= |slices|
      invariant forall i :: 0 <= i < |made| ==>
        && fresh(made[i]) && fresh(made[i].elements) && fresh(made[i].buckets)
        && made[i].Valid() && made[i].Contents() == [] && made[i].hash == hash && made[i].cap == cap
        && made[i].elements.Length == made[i].buckets.Length == slices[i].to - slices[i].from
      invariant forall i, j :: 0 <= i < j < |made| ==>
        made[i] != made[j] && made[i].elements != made[j].elements && made[i].buckets != made[j].buckets
    {
      var slice := slices[|made|];
      var lru := new LRU<K, V>(cap, slice.to - slice.from, hash, emptyKey, emptyValue);
      made := made + [lru];
    }
  }

  class ShardedLRU<K(==), V> {
    const lrus: seq<LRU<K, V>>
    const hash: K -> uint32
    const shards: nat
    const mask: nat
    /** The part of the backing arrays that each shard was given. */
    ghost const slices: seq<Slice>

    ghost function Objects(): set<object> {
      (set i | 0 <= i < |lrus| :: lrus[i] as object)
      + (set i | 0 <= i < |lrus| :: lrus[i].elements as object)
      + (set i | 0 <= i < |lrus| :: lrus[i].buckets as object)
    }

    ghost predicate Separate() {
      forall i, j :: 0 <= i < j < |lrus| ==>
        lrus[i] != lrus[j] && lrus[i].elements != lrus[j].elements && lrus[i].buckets != lrus[j].buckets
    }

    ghost predicate ShardValid(s: nat)
      requires s < |lrus| && shards > 0
      reads lrus[s], lrus[s].elements, lrus[s].buckets
    {
      lrus[s].Valid() && lrus[s].hash == hash && OwnKeys(lrus[s].Contents(), hash, shards, s)
    }

    ghost predicate Valid()
      reads Objects()
    {
      && IsPow2(shards) && |lrus| == shards && mask == shards - 1 && Separate()
      && forall s :: 0 <= s < |lrus| ==> ShardValid(s)
    }

    ghost function List(s: nat): seq<RL.Entry<K, V>>
      requires s < |lrus| && shards > 0 && ShardValid(s)
      reads lrus[s], lrus[s].elements, lrus[s].buckets
    {
      lrus[s].Contents()
    }

    constructor (d: Dimensions, hash: K -> uint32, emptyKey: K, emptyValue: V)
      requires IsPow2(d.shards) && 0 < d.capacity <= d.size < EMPTY_BUCKET
      ensures Valid() && fresh(Objects()) && shards == d.shards && this.hash == hash
      ensures forall s :: 0 <= s < |lrus| ==> List(s) == [] && lrus[s].cap == d.capacity
      ensures |slices| == |lrus| && TilesAll(slices, d.size)
      ensures forall s :: 0 <= s < |lrus| ==> lrus[s].elements.Length == slices[s].to - slices[s].from
    {
      assert d.shards > 0;
      var slices := Carve(d.shards, d.size);
      SlicesLong(slices, d.size);
      hide TilesAll, IsPow2, Wf, Placed, RL.DistinctKeys;
      this.slices := slices;
      var made := MakeShards(slices, d.capacity, d.size, hash, emptyKey, emptyValue);
      lrus, this.hash, shards, mask := made, hash, d.shards, d.shards - 1;
      new;
      forall s | 0 <= s < |lrus| ensures ShardValid(s) {
        assert lrus[s] == made[s];
      }
    }

    method AddWithLifetime(key: K, value: V, lifetime: int, now: int) returns (evicted: bool)
      requires Valid()
      modifies Objects()
      ensures Valid()
      ensures
        var s := ShardOf(hash(key), shards);
        && s < |lrus|
        && List(s) == RL.Add(old(List(s)), lrus[s].cap, RL.Entry(key, value, Expire(lifetime, now)))
        && evicted == RL.Evicts(old(List(s)), lrus[s].cap, key)
        && forall i :: 0 <= i < |lrus| && i != s ==> List(i) == old(List(i))
    {
      hide And, OwnKeys, IsPow2, Wf, Placed;
      var h := hash(key);
      ShardInRange(h, shards);
      var shard := And(h / 0x1_0000, mask);
      assert shard == ShardOf(h, shards) && ShardValid(shard);
      ghost var e := RL.Entry(key, value, Expire(lifetime, now));
      StepOwnKeys(List(shard), lrus[shard].cap, RL.AddOp(e), hash, shards, shard);
      evicted := lrus[shard].AddWithLifetime(h, key, value, lifetime, now);
      forall i | 0 <= i < |lrus| ensures ShardValid(i) {
        assert old(ShardValid(i));
        if i != shard {
          assert lrus[i].Valid() == old(lrus[i].Valid());
        }
      }
    }

    method Get(key: K, now: int) returns (r: Option<V>)
      requires Valid()
      modifies Objects()
      ensures Valid()
      ensures
        var s := ShardOf(hash(key), shards);
        && s < |lrus|
        && List(s) == RL.AfterGet(old(List(s)), key, now)
        && r == RL.Lookup(old(List(s)), key, now)
        && forall i :: 0 <= i < |lrus| && i != s ==> List(i) == old(List(i))
    {
      hide And, OwnKeys, IsPow2, Wf, Placed;
      var h := hash(key);
      ShardInRange(h, shards);
      var shard := And(h / 0x1_0000, mask);
      assert shard == ShardOf(h, shards) && ShardValid(shard);
      StepOwnKeys(List(shard), lrus[shard].cap, RL.GetOp(key, now), hash, shards, shard);
      r := lrus[shard].Get(h, key, now);
      forall i | 0 <= i < |lrus| ensures ShardValid(i) {
        assert old(ShardValid(i));
        if i != shard {
          assert lrus[i].Valid() == old(lrus[i].Valid());
        }
      }
    }
  }

  /** The capacity that the shards of a cache have together. */
  ghost predicate Provides(shards: nat, cap: nat, capacity: nat) {
    capacity <= shards * cap <= capacity + shards - 1
  }

  /** What the constructor returns.  Overfull stands for a cache whose shards have more
      capacity than slots, which the source returns as well. */
  datatype Made<K, V> = Cache(cache: ShardedLRU<K, V>) | Overfull(d: Dimensions) | Refused(error: ConfigError)

  method NewShardedWithSize<K(==), V>(shards: uint32, capacity: uint32, size: uint32, hash: K -> uint32,
                                      emptyKey: K, emptyValue: V)
    returns (r: Made<K, V>)
    ensures r.Refused? <==> capacity == 0 || size < capacity
    ensures r.Overfull? ==> capacity > TWO31 && r.d.capacity > r.d.size && DimensionsOf(shards, capacity, size) == Ok(r.d)
    ensures r.Cache? ==>
      && r.cache.Valid() && fresh(r.cache.Objects()) && r.cache.hash == hash
      && forall s :: 0 <= s < |r.cache.lrus| ==>
           && r.cache.List(s) == []
           && (Provides(r.cache.shards, r.cache.lrus[s].cap, capacity) <==> capacity <= TWO31)
  {
    hide Pow2, NextPowerOfTwo, Wf, Placed, OwnKeys, DimensionsOf, TilesAll;
    var d := Dimension(shards, capacity, size);
    if d.Err? {
      return Refused(d.error);
    }
    if d.value.capacity > d.value.size {
      return Overfull(d.value);
    }
    MulLe(d.value.size, 1, d.value.shards);
    var cache := new ShardedLRU(d.value, hash, emptyKey, emptyValue);
    r := Cache(cache);
  }
}
