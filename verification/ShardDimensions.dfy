/** The numbers of the sharded LRU of package freelru: how many shards, how large,
    and how they tile the backing arrays. */
module ShardDimensions {
  import opened Bits
  import opened Common

  const TWO31: nat := 0x8000_0000

  /** The next power of two as a uint32: 1 << 32 wraps to 0. */
  function NextPowerOfTwo(val: uint32): uint32 {
    if OnesCount(val) != 1 then Pow2(BitLen(val)) % TWO32 else val
  }

  lemma Pow2Of31And32()
    ensures Pow2(31) == TWO31 && Pow2(32) == TWO32
  {
    Pow2Add(16, 15);
    Pow2Add(16, 16);
    assert Pow2(8) == 256;
    Pow2Add(8, 8);
    Pow2Add(8, 7);
    assert Pow2(7) == 128;
  }

  /** BitLen rounds a number that is no power of two up to the next one. */
  lemma BitLenLeast(val: nat, k: nat)
    requires !IsPow2(val) && val <= Pow2(k)
    ensures BitLen(val) <= k && Pow2(BitLen(val)) <= Pow2(k)
  {
    var n := BitLen(val);
    assert val != Pow2(k);
    if n > k {
      Pow2Mono(k, n - 1);
    }
    Pow2Mono(n, k);
  }

  /** Up to 2^31 the result is the least power of two not below val; above, it is 0. */
  lemma NextPowerOfTwoLeast(val: uint32)
    ensures val <= TWO31 ==>
      && IsPow2(NextPowerOfTwo(val)) && val <= NextPowerOfTwo(val) <= TWO31
      && forall k: nat :: val <= Pow2(k) ==> NextPowerOfTwo(val) <= Pow2(k)
    ensures val > TWO31 ==> NextPowerOfTwo(val) == 0
  {
    hide Pow2, OnesCount, BitLen;
    Pow2Of31And32();
    OnesCountOne(val);
    var n := BitLen(val);
    if OnesCount(val) == 1 {
      var k: nat :| val == Pow2(k);
      if k > 31 { Pow2Mono(32, k); }
      Pow2Mono(k, 31);
    } else if val <= TWO31 {
      BitLenLeast(val, 31);
      ModSmall(Pow2(n), TWO32);
      forall k: nat | val <= Pow2(k) ensures Pow2(n) <= Pow2(k) {
        BitLenLeast(val, k);
      }
    } else {
      BitLenLeast(val, 32);
      assert n > 31 by {
        if n <= 31 { Pow2Mono(n, 31); }
      }
    }
  }

  lemma Pow2Div16(k: nat)
    ensures Pow2(k) / 16 == if k < 4 then 0 else Pow2(k - 4)
  {
    if k < 4 {
      Pow2Mono(k, 3);
      assert Pow2(3) == 8;
    } else {
      Pow2Add(4, k - 4);
      assert Pow2(4) == 16;
    }
  }

  lemma OneIsPow2()
    ensures IsPow2(1)
  {
    assert Pow2(0) == 1;
  }

  lemma Pow2Quotient(a: nat, b: nat) returns (q: nat)
    requires Pow2(b) <= Pow2(a)
    ensures IsPow2(q) && q > 0 && Pow2(b) * q == Pow2(a)
  {
    hide Pow2;
    if b > a { Pow2Strict(a, b); }
    q := Pow2(a - b);
    Pow2Add(b, a - b);
  }

  lemma Exact(p: nat, q: nat, r: nat)
    requires q > 0 && p == q * r
    ensures p / q == r && q * (p / q) == p
  {
    DivModUnique(p, q, r, 0);
  }

  datatype Dimensions = Dimensions(shards: nat, capacity: nat, size: nat)

  datatype ConfigError = ZeroCapacity | SizeBelowCapacity

  /** What the constructor promises of its three numbers. */
  ghost predicate Fits(d: Dimensions, capacity: nat) {
    && 0 < d.capacity <= d.size
    && capacity <= d.shards * d.capacity <= capacity + d.shards - 1
  }

  /** Sixteen times fewer shards until each has at least sixteen slots. */
  function Reduced(shards: nat, total: nat): nat {
    if shards > total / 16 then Reduced(shards / 16, total) else shards
  }

  /** Zero counts as one. */
  function Positive(n: nat): (r: nat)
    ensures r > 0
  {
    if n == 0 then 1 else n
  }

  /** The size of all shards together. */
  function TotalSize(size: uint32): uint32 {
    if size < TWO31 then NextPowerOfTwo(size) else TWO31
  }

  /** The numbers that the constructor works out: shards, and capacity and size of each. */
  function DimensionsOf(shards: uint32, capacity: uint32, size: uint32): Result<Dimensions, ConfigError> {
    if capacity == 0 then Err(ZeroCapacity)
    else if size < capacity then Err(SizeBelowCapacity)
    else
      var n := Positive(Reduced(NextPowerOfTwo(shards), TotalSize(size)));
      Ok(Dimensions(n, Positive(Quotient((capacity + n - 1) % TWO32, n)), Positive(Quotient(TotalSize(size), n))))
  }

  /** Fewer shards until each has at least sixteen slots, but never none. */
  method ReduceShards(shards: uint32, total: uint32) returns (n: uint32)
    requires shards == 0 || IsPow2(shards)
    ensures n == Positive(Reduced(shards, total))
    ensures IsPow2(n) && n > 0 && (n <= total / 16 || n == 1)
  {
    hide Pow2;
    n := shards;
    while n > total / 16
      invariant n == 0 || IsPow2(n)
      invariant Reduced(n, total) == Reduced(shards, total)
    {
      ghost var k: nat :| n == Pow2(k);
      Pow2Div16(k);
      n := n / 16;
    }
    if n == 0 {
      n := 1;
      OneIsPow2();
    }
  }

  lemma TotalSizeFacts(size: uint32)
    ensures IsPow2(TotalSize(size)) && 0 < TotalSize(size) <= TWO31
    ensures size <= TotalSize(size) || (TWO31 < size && TotalSize(size) == TWO31)
  {
    hide Pow2, NextPowerOfTwo;
    Pow2Of31And32();
    NextPowerOfTwoLeast(size);
    var a: nat :| TotalSize(size) == Pow2(a);
  }

  /** Sizes of the shards.  The promise is kept exactly for capacities up to 2^31. */
  method Dimension(shards: uint32, capacity: uint32, size: uint32) returns (r: Result<Dimensions, ConfigError>)
    ensures r == DimensionsOf(shards, capacity, size)
    ensures capacity == 0 <==> r == Err(ZeroCapacity)
    ensures 0 < capacity && size < capacity <==> r == Err(SizeBelowCapacity)
    ensures r.Err? <==> capacity == 0 || size < capacity
    ensures r.Ok? ==> IsPow2(r.value.shards) && IsPow2(r.value.size) && r.value.capacity > 0
    ensures r.Ok? ==> r.value.shards * r.value.size <= TWO31
    ensures r.Ok? ==> (Fits(r.value, capacity) <==> capacity <= TWO31)
  {
    hide Pow2, NextPowerOfTwo, Fits, Reduced, TotalSize;
    if capacity == 0 {
      return Err(ZeroCapacity);
    }
    if size < capacity {
      return Err(SizeBelowCapacity);
    }
    TotalSizeFacts(size);
    var total := TotalSize(size);
    ghost var a: nat :| total == Pow2(a);
    NextPowerOfTwoLeast(shards);
    var n := ReduceShards(NextPowerOfTwo(shards), total);
    ghost var b: nat :| n == Pow2(b);
    ghost var q := Pow2Quotient(a, b);
    Exact(total, n, q);
    var perSize := Positive(Quotient(total, n));
    var perCap := Quotient((capacity + n - 1) % TWO32, n);
    if perCap == 0 {
      perCap := 1;
    }
    r := Ok(Dimensions(n, perCap, perSize));
    CapacityExact(n, capacity, total, perSize, perCap);
  }

  lemma CapacityExact(n: nat, capacity: uint32, total: nat, perSize: nat, perCap: nat)
    requires 0 < n <= TWO31 / 16 + 1 && 0 < capacity && total <= TWO31
    requires capacity <= total || (TWO31 < capacity && total == TWO31)
    requires n * perSize == total && perSize > 0
    requires var c := ((capacity + n - 1) % TWO32) / n; perCap == if c == 0 then 1 else c
    ensures Fits(Dimensions(n, perCap, perSize), capacity) <==> capacity <= TWO31
  {
    if capacity <= TWO31 {
      ModSmall(capacity + n - 1, TWO32);
      var x := capacity + n - 1;
      var q, m := x / n, x % n;
      assert x == n * q + m && 0 <= m < n;
      assert q >= 1 by { if q < 1 { MulLe(n, q, 0); } }
      assert q <= perSize by {
        if q > perSize { MulLe(n, perSize + 1, q); }
      }
    } else if perCap <= perSize {
      MulLe(n, perCap, perSize);
    }
  }

  /** Beyond 2^31 the rounding wraps around: asked for 2^32-1 entries, the constructor
      makes sixteen shards of one entry each. */
  lemma CapacityLost()
    ensures DimensionsOf(16, 0xFFFF_FFFF, 0xFFFF_FFFF) == Ok(Dimensions(16, 1, 0x800_0000))
    ensures !Fits(Dimensions(16, 1, 0x800_0000), 0xFFFF_FFFF)
  {
    assert OnesCount(16) == 1;
    assert NextPowerOfTwo(16) == 16;
    assert Reduced(16, TWO31) == 16;
  }

  /** Beyond 2^31 the shards may also get more capacity than slots: asked for
      2^31+1 entries, one slot too few in every shard. */
  lemma CapacityOverfull()
    ensures DimensionsOf(16, 0x8000_0001, 0x8000_0001) == Ok(Dimensions(16, 0x800_0001, 0x800_0000))
  {
    assert OnesCount(16) == 1;
    assert NextPowerOfTwo(16) == 16;
    assert Reduced(16, TWO31) == 16;
  }

  lemma MulLe(n: nat, a: int, b: int)
    requires a <= b
    ensures n * a <= n * b
  {
  }

  // ----- tiling the backing arrays

  datatype Slice = Slice(from: nat, to: nat)

  ghost predicate Covers(s: seq<Slice>, x: nat) {
    exists i :: 0 <= i < |s| && s[i].from <= x < s[i].to
  }

  ghost predicate Tiles(s: seq<Slice>, size: nat, total: nat) {
    && (forall i :: 0 <= i < |s| ==> s[i].from + size == s[i].to <= total)
    && (forall x :: 0 <= x < total ==> Covers(s, x))
    && (forall i, j :: 0 <= i < j < |s| ==> s[i].to <= s[j].from)
  }

  /** Equal slices that are together all of the arrays, none twice. */
  ghost predicate TilesAll(s: seq<Slice>, size: nat) {
    Tiles(s, size, |s| * size)
  }

  /** The slices handed to the shards: together all of the arrays, none twice. */
  method Carve(shards: nat, size: nat) returns (slices: seq<Slice>)
    requires shards > 0 && size > 0
    ensures |slices| == shards && TilesAll(slices, size)
  {
    hide Tiles;
    slices := [];
    var from, to := 0, size;
    TilesNothing(size);
    for i := 0 to shards
      invariant |slices| == i && from == i * size && to == from + size
      invariant Tiles(slices, size, from)
    {
      TilesNext(slices, size, from);
      NextMultiple(i, size);
      slices := slices + [Slice(from, to)];
      from := to;
      to := to + size;
    }
  }

  lemma NextMultiple(i: nat, size: nat)
    ensures (i + 1) * size == i * size + size
  {
  }

  lemma TilesNothing(size: nat)
    ensures Tiles([], size, 0)
  {
  }

  lemma TilesNext(s: seq<Slice>, size: nat, from: nat)
    requires Tiles(s, size, from)
    ensures Tiles(s + [Slice(from, from + size)], size, from + size)
  {
    var s' := s + [Slice(from, from + size)];
    forall x | 0 <= x < from + size ensures Covers(s', x) {
      if x < from {
        assert Covers(s, x);
        var j :| 0 <= j < |s| && s[j].from <= x < s[j].to;
        assert s'[j] == s[j];
      } else {
        assert s'[|s|] == Slice(from, from + size);
      }
    }
  }
}
