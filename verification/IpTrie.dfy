/** The bit tries of package addrtrie: longest-prefix match over a list of prefixes.

    IPv4Trie and IPv6Trie run the same loops over 32 and 128 bits; they differ in
    how a bit is taken out of the address. */
module IpTrie {
  import opened Bits
  import opened Common
  import opened Tries

  // ----- bits of an address

  /** Bit i of a width-bit address, most significant first. */
  function Bit(v: nat, width: nat, i: nat): nat
    requires i < width
  {
    (v / Pow2(width - 1 - i)) % 2
  }

  /** (v >> (31 - i)) & 1 */
  function GetBit32(v: uint32, i: nat): nat
    requires i < 32
  {
    And(Shr(v, 31 - i), 1)
  }

  lemma GetBit32IsBit(v: uint32, i: nat)
    requires i < 32
    ensures GetBit32(v, i) == Bit(v, 32, i)
  {
    hide Pow2, And;
    Pow2One();
    AndMask(Shr(v, 31 - i), 1);
  }

  /** The 128-bit address is held as two 64-bit halves. */
  function GetBit128(hi: nat, lo: nat, i: nat): nat
    requires i < 128
  {
    if i < 64 then And(Shr(hi, 63 - i), 1) else And(Shr(lo, 63 - (i - 64)), 1)
  }

  lemma Distribute(a: nat, x: nat, y: nat)
    ensures a * (x + y) == a * x + a * y
  {
  }

  lemma MulAtMost(s: nat, b: nat, a: nat)
    requires s < b
    ensures s * a + a <= a * b
  {
    var d := b - 1 - s;
    Distribute(a, s, 1);
    Distribute(a, s + 1, d);
    assert b == (s + 1) + d && a * 1 == a && a * s == s * a;
  }

  lemma NestedDivision(q: nat, b: nat, s: nat, a: nat, r: nat)
    requires s < b && r < a
    ensures (q * b + s) * a + r == q * (a * b) + (s * a + r)
    ensures 0 <= s * a + r < a * b
  {
    MulAtMost(s, b, a);
    assert (q * b + s) * a == (q * b) * a + s * a;
    assert (q * b) * a == q * (b * a);
  }

  lemma DivDiv(x: nat, a: nat, b: nat)
    requires a > 0 && b > 0
    ensures a * b > 0 && x / (a * b) == (x / a) / b
  {
    var q, r := x / a, x % a;
    var p, s := q / b, q % b;
    NestedDivision(p, b, s, a, r);
    assert x == (p * b + s) * a + r;
    DivModUnique(x, a * b, p, s * a + r);
  }

  lemma HighBits(hi: nat, lo: nat, k: nat)
    requires lo < Pow2(64)
    ensures (hi * Pow2(64) + lo) / Pow2(64 + k) == hi / Pow2(k)
  {
    hide Pow2;
    Pow2Add(64, k);
    var x := hi * Pow2(64) + lo;
    DivModUnique(x, Pow2(64), hi, lo);
    DivDiv(x, Pow2(64), Pow2(k));
  }

  lemma EvenPart(hi: nat, m: nat, p: nat, q: nat, r: nat)
    ensures hi * (2 * m * p) + (q * p + r) == (2 * (hi * m) + q) * p + r
    ensures (2 * (hi * m) + q) % 2 == q % 2
  {
    calc {
      (2 * (hi * m) + q) * p + r;
      2 * (hi * m) * p + q * p + r;
      hi * (2 * m * p) + (q * p + r);
    }
  }

  lemma Pow2Of64(k: nat)
    requires k < 64
    ensures Pow2(64) == 2 * Pow2(63 - k) * Pow2(k)
  {
    hide Pow2;
    Pow2Add(63 - k, k);
    Pow2Add(1, 63);
    Pow2One();
  }

  lemma Pow2One()
    ensures Pow2(1) == 2
  {
  }

  lemma LowBits(hi: nat, lo: nat, k: nat)
    requires k < 64
    ensures ((hi * Pow2(64) + lo) / Pow2(k)) % 2 == (lo / Pow2(k)) % 2
  {
    hide Pow2;
    var p, m := Pow2(k), Pow2(63 - k);
    Pow2Of64(k);
    EvenPart(hi, m, p, lo / p, lo % p);
    DivModUnique(hi * Pow2(64) + lo, p, 2 * (hi * m) + lo / p, lo % p);
  }

  /** The number the two halves stand for. */
  ghost function Whole(hi: nat, lo: nat): nat {
    hi * Pow2(64) + lo
  }

  lemma GetBit128IsBit(hi: nat, lo: nat, i: nat)
    requires i < 128 && lo < Pow2(64)
    ensures GetBit128(hi, lo, i) == Bit(Whole(hi, lo), 128, i)
  {
    hide Pow2, And;
    Pow2One();
    if i < 64 {
      AndMask(Shr(hi, 63 - i), 1);
      HighBits(hi, lo, 63 - i);
    } else {
      AndMask(Shr(lo, 63 - (i - 64)), 1);
      LowBits(hi, lo, 127 - i);
    }
  }

  /** The first n bits. */
  function Path(v: nat, width: nat, n: nat): (p: seq<nat>)
    requires n <= width
    ensures |p| == n
  {
    seq(n, i requires 0 <= i < n => Bit(v, width, i))
  }

  lemma PathStep(v: nat, width: nat, n: nat)
    requires n < width
    ensures Path(v, width, n + 1) == Path(v, width, n) + [Bit(v, width, n)]
  {
  }

  lemma PathPrefix(v: nat, width: nat, m: nat, n: nat)
    requires m <= n <= width
    ensures Path(v, width, n)[..m] == Path(v, width, m)
  {
  }

  /** Equal leading bits are equal quotients: the usual meaning of a prefix. */
  lemma {:induction false} PathIsQuotient(a: nat, b: nat, width: nat, n: nat)
    requires n <= width && a < Pow2(width) && b < Pow2(width)
    ensures Path(a, width, n) == Path(b, width, n) <==> a / Pow2(width - n) == b / Pow2(width - n)
  {
    if n == 0 {
      ModSmall(a, Pow2(width));
      ModSmall(b, Pow2(width));
    } else {
      PathIsQuotient(a, b, width, n - 1);
      PathStep(a, width, n - 1);
      PathStep(b, width, n - 1);
      QuotientStep(a, width - n);
      QuotientStep(b, width - n);
      PathSnoc(Path(a, width, n - 1), Path(b, width, n - 1), Bit(a, width, n - 1), Bit(b, width, n - 1));
    }
  }

  lemma PathSnoc(p: seq<nat>, q: seq<nat>, x: nat, y: nat)
    requires |p| == |q|
    ensures p + [x] == q + [y] <==> p == q && x == y
  {
    if p + [x] == q + [y] {
      assert p == (p + [x])[..|p|] == (q + [y])[..|q|] == q;
      assert (p + [x])[|p|] == (q + [y])[|q|];
    }
  }

  lemma QuotientStep(a: nat, k: nat)
    ensures a / Pow2(k + 1) == (a / Pow2(k)) / 2
  {
    DivDiv(a, Pow2(k), 2);
  }

  // ----- prefixes

  datatype Prefix<T> = Prefix(addr: nat, len: nat, value: T)

  /** A parsed pattern: "*", an address or CIDR block, or something unusable. */
  datatype Pattern = Star | Cidr(addr: nat, len: nat) | Malformed

  ghost predicate Legal<T>(h: seq<Prefix<T>>, width: nat) {
    forall i :: 0 <= i < |h| ==> h[i].len <= width && h[i].addr < Pow2(width)
  }

  /** The value of the latest prefix with exactly these bits. */
  function Latest<T>(h: seq<Prefix<T>>, width: nat, path: seq<nat>): Option<T>
    decreases |h|
  {
    if h == [] then None
    else
      var p := h[|h| - 1];
      if p.len == |path| <= width && Path(p.addr, width, p.len) == path then Some(p.value)
      else Latest(h[..|h| - 1], width, path)
  }

  /** The value at the longest of the first n bit prefixes. */
  function Longest<T>(h: seq<Prefix<T>>, width: nat, bits: seq<nat>, n: nat): Option<T>
    requires n <= |bits|
    decreases n
  {
    if Latest(h, width, bits[..n]).Some? then Latest(h, width, bits[..n])
    else if n == 0 then None
    else Longest(h, width, bits, n - 1)
  }

  function Lookup<T>(h: seq<Prefix<T>>, width: nat, ip: nat): Option<T> {
    Longest(h, width, Path(ip, width, width), width)
  }

  /** ip lies in the block. */
  predicate Matches<T>(p: Prefix<T>, width: nat, ip: nat) {
    p.len <= width && p.addr / Pow2(width - p.len) == ip / Pow2(width - p.len)
  }

  /** h[k] is the last of the longest blocks containing ip. */
  ghost predicate Decides<T>(h: seq<Prefix<T>>, width: nat, ip: nat, k: nat) {
    && k < |h| && Matches(h[k], width, ip)
    && (forall i :: 0 <= i < k && Matches(h[i], width, ip) ==> h[i].len <= h[k].len)
    && (forall i :: k < i < |h| && Matches(h[i], width, ip) ==> h[i].len < h[k].len)
  }

  lemma {:induction false} LatestLast<T>(h: seq<Prefix<T>>, width: nat, ip: nat, n: nat) returns (k: nat)
    requires Legal(h, width) && n <= width && ip < Pow2(width)
    ensures Latest(h, width, Path(ip, width, n)).Some? ==>
      && k < |h| && h[k].len == n && Matches(h[k], width, ip) && Latest(h, width, Path(ip, width, n)) == Some(h[k].value)
      && forall i :: k < i < |h| ==> !(h[i].len == n && Matches(h[i], width, ip))
    ensures Latest(h, width, Path(ip, width, n)).None? ==>
      forall i :: 0 <= i < |h| ==> !(h[i].len == n && Matches(h[i], width, ip))
    decreases |h|
  {
    k := 0;
    if h != [] {
      var p := h[|h| - 1];
      if p.len == n {
        PathIsQuotient(p.addr, ip, width, n);
      }
      if p.len == n && Path(p.addr, width, n) == Path(ip, width, n) {
        k := |h| - 1;
      } else {
        k := LatestLast(h[..|h| - 1], width, ip, n);
      }
    }
  }

  lemma {:induction false} LongestLast<T>(h: seq<Prefix<T>>, width: nat, ip: nat, n: nat) returns (k: nat)
    requires Legal(h, width) && n <= width && ip < Pow2(width)
    ensures
      var r := Longest(h, width, Path(ip, width, width), n);
      && (r.Some? ==>
            && k < |h| && h[k].len <= n && Matches(h[k], width, ip) && r == Some(h[k].value)
            && forall i :: 0 <= i < |h| && h[i].len <= n && Matches(h[i], width, ip) ==>
                 h[i].len <= h[k].len && (i > k ==> h[i].len < h[k].len))
      && (r.None? ==> forall i :: 0 <= i < |h| ==> !(h[i].len <= n && Matches(h[i], width, ip)))
    decreases n
  {
    PathPrefix(ip, width, n, width);
    k := LatestLast(h, width, ip, n);
    if Latest(h, width, Path(ip, width, n)).None? && n > 0 {
      k := LongestLast(h, width, ip, n - 1);
    }
  }

  /** The lookup is longest-prefix match, the latest insertion winning ties; it
      fails exactly when no block contains the address. */
  lemma LookupDecides<T>(h: seq<Prefix<T>>, width: nat, ip: nat)
    requires Legal(h, width) && ip < Pow2(width)
    ensures Lookup(h, width, ip).Some? ==>
      exists k: nat :: Decides(h, width, ip, k) && Lookup(h, width, ip) == Some(h[k].value)
    ensures Lookup(h, width, ip).None? <==> forall i :: 0 <= i < |h| ==> !Matches(h[i], width, ip)
  {
    var k := LongestLast(h, width, ip, width);
    if Lookup(h, width, ip).Some? {
      assert Decides(h, width, ip, k);
    }
  }

  lemma LatestAdded<T>(h: seq<Prefix<T>>, width: nat, p: Prefix<T>, path: seq<nat>)
    requires p.len <= width
    ensures Latest(h + [p], width, path) == if path == Path(p.addr, width, p.len) then Some(p.value) else Latest(h, width, path)
  {
    assert (h + [p])[..|h|] == h;
  }

  lemma {:induction false} LongestSkip<T>(h: seq<Prefix<T>>, width: nat, bits: seq<nat>, k: nat, n: nat)
    requires k <= n <= |bits|
    requires forall m :: k < m <= n ==> Latest(h, width, bits[..m]) == None
    ensures Longest(h, width, bits, n) == Longest(h, width, bits, k)
    decreases n
  {
    if k < n {
      LongestSkip(h, width, bits, k, n - 1);
    }
  }

  lemma LongestStep<T>(h: seq<Prefix<T>>, width: nat, bits: seq<nat>, n: nat)
    requires n <= |bits|
    ensures Longest(h, width, bits, n) ==
            if Latest(h, width, bits[..n]).Some? then Latest(h, width, bits[..n])
            else if n == 0 then None else Longest(h, width, bits, n - 1)
  {
  }

  class BitTrie<T> {
    const trie: Trie<nat, Option<T>>
    const width: nat
    /** All prefixes inserted so far; "*" is the prefix of length 0. */
    ghost var history: seq<Prefix<T>>

    ghost predicate Valid()
      reads this, trie, trie.repr
    {
      && trie.Valid() && trie.blank == None && Legal(history, width)
      && (forall p :: trie.At(p) == Latest(history, width, p))
    }

    constructor (width: nat)
      ensures Valid() && history == [] && this.width == width && fresh(trie) && fresh(trie.repr)
    {
      trie := new Trie<nat, Option<T>>(None);
      this.width, history := width, [];
    }

    method Store(node: Node<nat, Option<T>>, addr: nat, len: nat, value: T)
      requires Valid() && len <= width && addr < Pow2(width)
      requires Path(addr, width, len) in trie.nodes && trie.nodes[Path(addr, width, len)] == node
      modifies this`history, node`value
      ensures Valid() && history == old(history) + [Prefix(addr, len, value)]
    {
      hide Latest, Path, Pow2;
      ghost var h, p := history, Prefix(addr, len, value);
      trie.SetValue(node, Some(value), Path(addr, width, len));
      history := history + [p];
      forall q ensures trie.At(q) == Latest(history, width, q) {
        LatestAdded(h, width, p, q);
      }
    }

    method Insert(pattern: Pattern, value: T) returns (ok: bool)
      requires Valid()
      requires pattern.Cidr? ==> pattern.len <= width && pattern.addr < Pow2(width)
      modifies this, trie, trie.repr
      ensures Valid() && fresh(trie.repr - old(trie.repr))
      ensures ok == !pattern.Malformed?
      ensures history ==
        match pattern
        case Star => old(history) + [Prefix(0, 0, value)]
        case Cidr(addr, len) => old(history) + [Prefix(addr, len, value)]
        case Malformed => old(history)
    {
      hide Latest, Bit, Pow2;
      match pattern
      case Star =>
        assert Path(0, width, 0) == [];
        Store(trie.root, 0, 0, value);
        return true;
      case Malformed =>
        return false;
      case Cidr(addr, len) =>
        var cur := trie.root;
        assert Path(addr, width, 0) == [];
        for i := 0 to len
          invariant Valid() && history == old(history)
          invariant fresh(trie.repr - old(trie.repr))
          invariant Path(addr, width, i) in trie.nodes && trie.nodes[Path(addr, width, i)] == cur
        {
          PathStep(addr, width, i);
          var b := Bit(addr, width, i);
          cur := trie.Descend(cur, b, Path(addr, width, i));
        }
        Store(cur, addr, len, value);
        return true;
    }

    lemma LatestAt(p: seq<nat>)
      requires Valid() && p in trie.nodes
      ensures trie.nodes[p] in trie.repr && trie.nodes[p].value == Latest(history, width, p)
    {
      assert trie.At(p) == Latest(history, width, p);
    }

    lemma Stuck(bits: seq<nat>, k: nat)
      requires Valid() && k < |bits| && bits[..k] + [bits[k]] !in trie.nodes
      ensures Longest(history, width, bits, |bits|) == Longest(history, width, bits, k)
    {
      hide Latest, Longest;
      var p := bits[..k] + [bits[k]];
      forall m | k < m <= |bits| ensures Latest(history, width, bits[..m]) == None {
        assert bits[..m] == p + bits[k + 1..m];
        trie.NothingBelow(p, bits[k + 1..m]);
        assert trie.At(bits[..m]) == Latest(history, width, bits[..m]);
      }
      LongestSkip(history, width, bits, k, |bits|);
    }

    method Find(ip: nat) returns (matched: Option<T>)
      requires Valid() && ip < Pow2(width)
      ensures matched == Lookup(history, width, ip)
      ensures matched.Some? ==>
        exists k: nat :: Decides(history, width, ip, k) && matched == Some(history[k].value)
      ensures matched.None? <==> forall i :: 0 <= i < |history| ==> !Matches(history[i], width, ip)
    {
      LookupDecides(history, width, ip);
      hide Latest, Longest, Bit, Pow2, Matches, Decides, Legal;
      ghost var bits := Path(ip, width, width);
      var cur := trie.root;
      matched := None;
      var i := 0;
      assert bits[..0] == [];
      while i < width
        invariant 0 <= i <= width && bits[..i] in trie.nodes && trie.nodes[bits[..i]] == cur
        invariant matched == if i == 0 then None else Longest(history, width, bits, i - 1)
      {
        LatestAt(bits[..i]);
        LongestStep(history, width, bits, i);
        if cur.value.Some? {
          matched := cur.value;
        }
        var b := Bit(ip, width, i);
        trie.ChildNode(bits[..i], b);
        if b !in cur.children {
          Stuck(bits, i);
          break;
        }
        cur := cur.children[b];
        assert bits[..i + 1] == bits[..i] + [b];
        i := i + 1;
      }
      LatestAt(bits[..i]);
      LongestStep(history, width, bits, i);
      if cur.value.Some? {
        matched := cur.value;
      }
    }
  }
}
